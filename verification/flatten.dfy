/**
 * The depth-first walk that turns a nested shipment document into one level of
 * dotted key paths. A nested object is walked under `parent.child`; a list whose first
 * element is an object is walked as that first element, under the list's own key and
 * with no index; every other value is stored as it is.
 */
module Flatten {
  import opened Options
  import opened OrderedDict
  import opened JsonValue

  /** The path of `key` under `parent`; at the top level (empty parent) the key itself. */
  function ChildKey(parent: string, key: string): string {
    if parent == "" then key else parent + "." + key
  }

  /** A value the walk stores rather than descends into: not an object, and not a
      list whose first element is an object. */
  predicate IsLeaf(v: Json) {
    !v.JObject? && !(v.JArray? && |v.items| > 0 && v.items[0].JObject?)
  }

  /** The flattening of `v` under `parent`. Keys are distinct, every value is a leaf
      found inside `v`, every key extends `parent.`, and anything but an object
      flattens to nothing. */
  function Flatten(v: Json, parent: string): (r: Dict<Json>)
    ensures UniqueKeys(r)
    ensures forall i :: 0 <= i < |r| ==> IsLeaf(r[i].1) && Occurs(r[i].1, v)
    ensures parent != "" ==> forall i :: 0 <= i < |r| ==> parent + "." <= r[i].0
    ensures !v.JObject? ==> r == []
    decreases v
  {
    match v
    case JObject(ms) => FromPairs(Items(ms, parent))
    case _ => []
  }

  /** The pairs the members contribute, in member order, before `dict()` merges
      repeated keys. */
  function Items(ms: seq<Member>, parent: string): (r: seq<(string, Json)>)
    ensures forall i :: 0 <= i < |r| ==> IsLeaf(r[i].1) && Occurs(r[i].1, JObject(ms))
    ensures parent != "" ==> forall i :: 0 <= i < |r| ==> parent + "." <= r[i].0
    decreases ms
  {
    if ms == [] then []
    else
      var head := Contribution(ms[0], parent);
      var rest := Items(ms[1..], parent);
      assert forall i :: 0 <= i < |rest| ==> Occurs(rest[i].1, JObject(ms)) by {
        forall i | 0 <= i < |rest|
          ensures Occurs(rest[i].1, JObject(ms))
        {
          var j :| 0 <= j < |ms[1..]| && Occurs(rest[i].1, ms[1..][j].value);
          assert ms[1..][j] == ms[j + 1];
        }
      }
      head + rest
  }

  /** What one member adds: the flattening of a nested object, or of the first element
      of a list of objects, under the member's path; otherwise the pair itself. */
  function Contribution(m: Member, parent: string): (r: seq<(string, Json)>)
    ensures forall i :: 0 <= i < |r| ==> IsLeaf(r[i].1) && Occurs(r[i].1, m.value)
    ensures forall i :: 0 <= i < |r| ==> ChildKey(parent, m.key) <= r[i].0
    decreases m
  {
    var path := ChildKey(parent, m.key);
    match m.value
    case JObject(_) => Flatten(m.value, path)
    case JArray(xs) =>
      if |xs| > 0 && xs[0].JObject? then Flatten(xs[0], path) else [(path, m.value)]
    case _ => [(path, m.value)]
  }

  lemma {:induction false} ItemsHaveContribution(ms: seq<Member>, parent: string, j: int, p: (string, Json))
    requires 0 <= j < |ms| && p in Contribution(ms[j], parent)
    ensures p in Items(ms, parent)
    decreases j
  {
    if j > 0 {
      ItemsHaveContribution(ms[1..], parent, j - 1, p);
    }
  }

  /** Every key a member contributes is a key of the flattened object. */
  lemma ContributionKeyKept(ms: seq<Member>, parent: string, j: int, k: string)
    requires 0 <= j < |ms| && k in Keys(Contribution(ms[j], parent))
    ensures k in Keys(Flatten(JObject(ms), parent))
  {
    var c := Contribution(ms[j], parent);
    var i :| 0 <= i < |c| && c[i].0 == k;
    ItemsHaveContribution(ms, parent, j, c[i]);
    FromPairsKeys(Items(ms, parent));
  }

  /** A member holding a leaf appears under its own path: `parent.key`, or the bare key
      at the top level. */
  lemma LeafKept(ms: seq<Member>, parent: string, j: int)
    requires 0 <= j < |ms| && IsLeaf(ms[j].value)
    ensures ChildKey(parent, ms[j].key) in Keys(Flatten(JObject(ms), parent))
  {
    var c := Contribution(ms[j], parent);
    assert c == [(ChildKey(parent, ms[j].key), ms[j].value)];
    assert Keys(c)[0] == ChildKey(parent, ms[j].key);
    ContributionKeyKept(ms, parent, j, ChildKey(parent, ms[j].key));
  }

  /** A leaf one object further down appears under `parent.key.child`. */
  lemma NestedLeafKept(ms: seq<Member>, parent: string, j: int, t: int)
    requires 0 <= j < |ms| && ms[j].value.JObject?
    requires 0 <= t < |ms[j].value.members| && IsLeaf(ms[j].value.members[t].value)
    ensures ChildKey(ChildKey(parent, ms[j].key), ms[j].value.members[t].key)
            in Keys(Flatten(JObject(ms), parent))
  {
    var path := ChildKey(parent, ms[j].key);
    var cs := ms[j].value.members;
    LeafKept(cs, path, t);
    assert Contribution(ms[j], parent) == Flatten(JObject(cs), path);
    ContributionKeyKept(ms, parent, j, ChildKey(path, cs[t].key));
  }

  /** `Items` splits around member `j`: what the earlier members add, what `ms[j]` adds,
      and what the later members add. */
  lemma {:induction false} ItemsAround(ms: seq<Member>, parent: string, j: int)
    requires 0 <= j < |ms|
    ensures Items(ms, parent)
            == Items(ms[..j], parent) + Contribution(ms[j], parent) + Items(ms[j + 1..], parent)
    decreases j
  {
    if j == 0 {
      assert ms[..0] == [] && ms[1..] == ms[j + 1..];
    } else {
      ItemsAround(ms[1..], parent, j - 1);
      assert ms[1..][..j - 1] == ms[1..j] && ms[1..][j - 1] == ms[j] && ms[1..][j..] == ms[j + 1..];
      assert ms[..j][0] == ms[0] && ms[..j][1..] == ms[1..j];
    }
  }

  /** Every pair of `Items` comes from one member's contribution. */
  lemma {:induction false} ItemFromMember(ms: seq<Member>, parent: string, i: int)
    requires 0 <= i < |Items(ms, parent)|
    ensures exists t :: 0 <= t < |ms| && Items(ms, parent)[i] in Contribution(ms[t], parent)
    decreases |ms|
  {
    var head := Contribution(ms[0], parent);
    if i >= |head| {
      ItemFromMember(ms[1..], parent, i - |head|);
      var t :| 0 <= t < |ms[1..]| && Items(ms[1..], parent)[i - |head|] in Contribution(ms[1..][t], parent);
      assert ms[1..][t] == ms[t + 1];
    }
  }

  /** A member's contribution never repeats a key. */
  lemma ContributionUnique(m: Member, parent: string)
    ensures UniqueKeys(Contribution(m, parent))
  {
  }

  /** When no member of `rest` contributes key `k`, no pair of their items has key `k`. */
  lemma ItemsAvoid(rest: seq<Member>, parent: string, k: string, i: int)
    requires forall t :: 0 <= t < |rest| ==> k !in Keys(Contribution(rest[t], parent))
    requires 0 <= i < |Items(rest, parent)|
    ensures Items(rest, parent)[i].0 != k
  {
    ItemFromMember(rest, parent, i);
    var t :| 0 <= t < |rest| && Items(rest, parent)[i] in Contribution(rest[t], parent);
    var q := Contribution(rest[t], parent);
    var qi :| 0 <= qi < |q| && q[qi] == Items(rest, parent)[i];
    assert Keys(q)[qi] == q[qi].0;
  }

  /** The value `dict()` keeps for a path that member `j` contributes and no later member
      contributes again is the one member `j` gave it. */
  lemma ContributionValueKept(ms: seq<Member>, parent: string, j: int, p: (string, Json))
    requires 0 <= j < |ms| && p in Contribution(ms[j], parent)
    requires forall t :: j < t < |ms| ==> p.0 !in Keys(Contribution(ms[t], parent))
    ensures Get(Flatten(JObject(ms), parent), p.0) == Some(p.1)
  {
    var a, c, rest := Items(ms[..j], parent), Contribution(ms[j], parent), ms[j + 1..];
    var b := Items(rest, parent);
    ItemsAround(ms, parent, j);
    ContributionUnique(ms[j], parent);
    var ci :| 0 <= ci < |c| && c[ci] == p;
    forall i | 0 <= i < |b|
      ensures b[i].0 != p.0
    {
      forall t | 0 <= t < |rest| ensures p.0 !in Keys(Contribution(rest[t], parent)) {
        assert rest[t] == ms[j + 1 + t];
      }
      ItemsAvoid(rest, parent, p.0, i);
    }
    GetFromRun(a, c, b, ci);
  }

  /** A member holding a leaf keeps its value under its own path, unless a later member
      contributes that same path (`{"a.b": 1, "a": {"b": 2}}` ends with `a.b` at 2). */
  lemma LeafValue(ms: seq<Member>, parent: string, j: int)
    requires 0 <= j < |ms| && IsLeaf(ms[j].value)
    requires forall t :: j < t < |ms| ==> ChildKey(parent, ms[j].key) !in Keys(Contribution(ms[t], parent))
    ensures Get(Flatten(JObject(ms), parent), ChildKey(parent, ms[j].key)) == Some(ms[j].value)
  {
    var p := (ChildKey(parent, ms[j].key), ms[j].value);
    assert Contribution(ms[j], parent) == [p];
    ContributionValueKept(ms, parent, j, p);
  }

  /** A leaf one object further down keeps its value under `parent.key.child`, when no
      later sibling inside that object and no later member outside it reuse the path. */
  lemma NestedLeafValue(ms: seq<Member>, parent: string, j: int, t: int)
    requires 0 <= j < |ms| && ms[j].value.JObject?
    requires 0 <= t < |ms[j].value.members| && IsLeaf(ms[j].value.members[t].value)
    requires var path := ChildKey(ChildKey(parent, ms[j].key), ms[j].value.members[t].key);
             && (forall u :: t < u < |ms[j].value.members| ==>
                   path !in Keys(Contribution(ms[j].value.members[u], ChildKey(parent, ms[j].key))))
             && (forall u :: j < u < |ms| ==> path !in Keys(Contribution(ms[u], parent)))
    ensures Get(Flatten(JObject(ms), parent),
                ChildKey(ChildKey(parent, ms[j].key), ms[j].value.members[t].key))
            == Some(ms[j].value.members[t].value)
  {
    var outer := ChildKey(parent, ms[j].key);
    var cs := ms[j].value.members;
    var p := (ChildKey(outer, cs[t].key), cs[t].value);
    LeafValue(cs, outer, t);
    assert Contribution(ms[j], parent) == Flatten(JObject(cs), outer);
    assert p in Contribution(ms[j], parent);
    ContributionValueKept(ms, parent, j, p);
  }

  /** A list whose first element is an object contributes exactly what that element
      would, under the same path and with no index; the other elements are dropped. */
  lemma ListOfObjectsTakesFirst(key: string, xs: seq<Json>, parent: string)
    requires |xs| > 0 && xs[0].JObject?
    ensures Contribution(Member(key, JArray(xs)), parent) == Contribution(Member(key, xs[0]), parent)
  {
  }

  /** An empty nested object contributes no key at all. */
  lemma EmptyObjectVanishes(key: string, parent: string)
    ensures Contribution(Member(key, JObject([])), parent) == []
  {
  }

  lemma SingleLeaf(key: string, v: Json, parent: string)
    requires IsLeaf(v)
    ensures Flatten(JObject([Member(key, v)]), parent) == [(ChildKey(parent, key), v)]
  {
    var items := [(ChildKey(parent, key), v)];
    assert Items([Member(key, v)], parent) == items;
    assert items[..0] == [];
  }

  lemma SingleNested(key: string, v: Json, parent: string)
    requires v.JObject?
    ensures Flatten(JObject([Member(key, v)]), parent) == Flatten(v, ChildKey(parent, key))
  {
    var inner := Flatten(v, ChildKey(parent, key));
    assert Items([Member(key, v)], parent) == inner;
    FromPairsOfDict(inner);
  }

  /** Three nested single-member objects flatten to the one dotted path `a.b.c`; for
      instance `{"shipment": {"sender": {"name": "Acme"}}}` gives `shipment.sender.name`. */
  lemma ThreeLevels(a: string, b: string, c: string, leaf: Json)
    requires a != "" && IsLeaf(leaf)
    ensures Flatten(JObject([Member(a, JObject([Member(b, JObject([Member(c, leaf)]))]))]), "")
            == [(a + "." + b + "." + c, leaf)]
  {
    var inner := JObject([Member(c, leaf)]);
    var middle := JObject([Member(b, inner)]);
    SingleNested(a, middle, "");
    SingleNested(b, inner, a);
    SingleLeaf(c, leaf, a + "." + b);
  }
}
