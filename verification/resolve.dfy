/**
 * Alias resolution over a flattened document: the value a field takes is found by
 * trying its aliases in three tiers, the first tier that finds anything deciding.
 *
 *  1. exact: the first alias (in list order) that is a key;
 *  2. case-insensitive: the first alias whose lower case is some key's lower case;
 *     among keys that collide once lowered, the last one in insertion order wins;
 *  3. partial: the first alias for which some key contains it or is contained in it,
 *     both lowered; among such keys the first in insertion order wins.
 *
 * Nothing found is `JNull`, Python's `None` — as is a JSON null found by a tier.
 */
module Resolve {
  import opened Options
  import opened Text
  import opened OrderedDict
  import opened JsonValue

  // ---------------------------------------------------------------- tier 1: exact

  /** `aliases[i]` is the first alias that is literally a key of `data`. */
  predicate FirstExact(data: Dict<Json>, aliases: seq<string>, i: int) {
    && 0 <= i < |aliases|
    && aliases[i] in Keys(data)
    && forall j :: 0 <= j < i ==> aliases[j] !in Keys(data)
  }

  function ExactTier(data: Dict<Json>, aliases: seq<string>): (r: Option<Json>)
    ensures r.None? <==> forall i :: 0 <= i < |aliases| ==> aliases[i] !in Keys(data)
    ensures r.Some? ==> exists i :: FirstExact(data, aliases, i) && Get(data, aliases[i]) == r
    decreases |aliases|
  {
    if aliases == [] then None
    else
      match Get(data, aliases[0])
      case Some(v) =>
        assert FirstExact(data, aliases, 0);
        Some(v)
      case None =>
        var r := ExactTier(data, aliases[1..]);
        if r.Some? then
          var i :| FirstExact(data, aliases[1..], i) && Get(data, aliases[1..][i]) == r;
          assert FirstExact(data, aliases, i + 1);
          r
        else
          r
  }

  // ---------------------------------------------------- tier 2: case-insensitive

  /** Some key of `data` equals `alias` once both are lowered. */
  predicate CaseMatch(data: Dict<Json>, alias: string) {
    exists j :: 0 <= j < |data| && Lower(data[j].0) == Lower(alias)
  }

  predicate FirstCase(data: Dict<Json>, aliases: seq<string>, i: int) {
    && 0 <= i < |aliases|
    && CaseMatch(data, aliases[i])
    && forall j :: 0 <= j < i ==> !CaseMatch(data, aliases[j])
  }

  /** `data[j]` is the last key, in insertion order, that lowers to `alias` lowered. */
  predicate LastCaseKey(data: Dict<Json>, alias: string, j: int) {
    && 0 <= j < |data|
    && Lower(data[j].0) == Lower(alias)
    && forall j' :: j < j' < |data| ==> Lower(data[j'].0) != Lower(alias)
  }

  /** The pairs of `data` with their keys lowered, in order. */
  function LowerItems(data: Dict<Json>): (r: seq<(string, Json)>)
    ensures |r| == |data|
    ensures forall j :: 0 <= j < |data| ==> r[j] == (Lower(data[j].0), data[j].1)
  {
    seq(|data|, j requires 0 <= j < |data| => (Lower(data[j].0), data[j].1))
  }

  /** `{k.lower(): v for k, v in data.items()}`. */
  function LowerDict(data: Dict<Json>): Dict<Json> {
    FromPairs(LowerItems(data))
  }

  /** What the lowered dict holds under `alias.lower()`: the value of the last key that
      lowers to it, or nothing when no key does. */
  lemma LowerDictLookup(data: Dict<Json>, alias: string)
    ensures Get(LowerDict(data), Lower(alias)).None? <==> !CaseMatch(data, alias)
    ensures CaseMatch(data, alias) ==>
              exists j :: LastCaseKey(data, alias, j) && Get(LowerDict(data), Lower(alias)) == Some(data[j].1)
  {
    var items := LowerItems(data);
    FromPairsKeys(items);
    if CaseMatch(data, alias) {
      var j0 :| 0 <= j0 < |data| && Lower(data[j0].0) == Lower(alias);
      var j := LastIndexOf(items, Lower(alias), j0);
      GetFromPairs(items, j);
      assert LastCaseKey(data, alias, j) by {
        forall j' | j < j' < |data|
          ensures Lower(data[j'].0) != Lower(alias)
        {
          assert items[j'].0 != items[j].0;
        }
      }
    } else {
      assert Lower(alias) !in Keys(items) by {
        forall j | 0 <= j < |items|
          ensures Keys(items)[j] != Lower(alias)
        {
          assert Keys(items)[j] == Lower(data[j].0);
        }
      }
    }
  }

  /** The last position whose key is `k`, given one at `j0`. */
  lemma LastIndexOf(items: seq<(string, Json)>, k: string, j0: int) returns (j: int)
    requires 0 <= j0 < |items| && items[j0].0 == k
    ensures j0 <= j < |items| && items[j].0 == k && LastOf(items, j)
    decreases |items| - j0
  {
    if exists j' :: j0 < j' < |items| && items[j'].0 == k {
      var j' :| j0 < j' < |items| && items[j'].0 == k;
      j := LastIndexOf(items, k, j');
    } else {
      j := j0;
    }
  }

  function CaseTier(data: Dict<Json>, aliases: seq<string>): (r: Option<Json>)
    ensures r.None? <==> forall i :: 0 <= i < |aliases| ==> !CaseMatch(data, aliases[i])
    ensures r.Some? ==> exists i, j :: FirstCase(data, aliases, i) && LastCaseKey(data, aliases[i], j)
                                      && r == Some(data[j].1)
    decreases |aliases|
  {
    if aliases == [] then None
    else
      LowerDictLookup(data, aliases[0]);
      match Get(LowerDict(data), Lower(aliases[0]))
      case Some(v) =>
        assert FirstCase(data, aliases, 0);
        Some(v)
      case None =>
        var r := CaseTier(data, aliases[1..]);
        if r.Some? then
          var i, j :| FirstCase(data, aliases[1..], i) && LastCaseKey(data, aliases[1..][i], j)
                      && r == Some(data[j].1);
          assert FirstCase(data, aliases, i + 1);
          r
        else
          r
  }

  // -------------------------------------------------------------- tier 3: partial

  /** Python's `alias.lower() in key.lower() or key.lower() in alias.lower()`. */
  predicate Related(alias: string, key: string) {
    Contains(Lower(key), Lower(alias)) || Contains(Lower(alias), Lower(key))
  }

  predicate PartialMatch(data: Dict<Json>, alias: string) {
    exists j :: 0 <= j < |data| && Related(alias, data[j].0)
  }

  predicate FirstPartial(data: Dict<Json>, aliases: seq<string>, i: int) {
    && 0 <= i < |aliases|
    && PartialMatch(data, aliases[i])
    && forall j :: 0 <= j < i ==> !PartialMatch(data, aliases[j])
  }

  /** `data[j]` is the first key, in insertion order, related to `alias`. */
  predicate FirstRelatedKey(data: Dict<Json>, alias: string, j: int) {
    && 0 <= j < |data|
    && Related(alias, data[j].0)
    && forall j' :: 0 <= j' < j ==> !Related(alias, data[j'].0)
  }

  /** The value of the first key related to `alias`. */
  function RelatedValue(data: Dict<Json>, alias: string): (r: Option<Json>)
    ensures r.None? <==> !PartialMatch(data, alias)
    ensures r.Some? ==> exists j :: FirstRelatedKey(data, alias, j) && r == Some(data[j].1)
    decreases |data|
  {
    if data == [] then None
    else if Related(alias, data[0].0) then
      assert FirstRelatedKey(data, alias, 0);
      Some(data[0].1)
    else
      var r := RelatedValue(data[1..], alias);
      if r.Some? then
        var j :| FirstRelatedKey(data[1..], alias, j) && r == Some(data[1..][j].1);
        assert FirstRelatedKey(data, alias, j + 1);
        r
      else
        r
  }

  function PartialTier(data: Dict<Json>, aliases: seq<string>): (r: Option<Json>)
    ensures r.None? <==> forall i :: 0 <= i < |aliases| ==> !PartialMatch(data, aliases[i])
    ensures r.Some? ==> exists i, j :: FirstPartial(data, aliases, i) && FirstRelatedKey(data, aliases[i], j)
                                      && r == Some(data[j].1)
    decreases |aliases|
  {
    if aliases == [] then None
    else
      match RelatedValue(data, aliases[0])
      case Some(v) =>
        assert FirstPartial(data, aliases, 0);
        Some(v)
      case None =>
        var r := PartialTier(data, aliases[1..]);
        if r.Some? then
          var i, j :| FirstPartial(data, aliases[1..], i) && FirstRelatedKey(data, aliases[1..][i], j)
                      && r == Some(data[j].1);
          assert FirstPartial(data, aliases, i + 1);
          r
        else
          r
  }

  // ---------------------------------------------------------------- all tiers

  /** `_find_value_by_keys`: the first tier that finds something decides; `JNull`
      when none does. */
  function FindValue(data: Dict<Json>, aliases: seq<string>): Json {
    match ExactTier(data, aliases)
    case Some(v) => v
    case None =>
      match CaseTier(data, aliases)
      case Some(v) => v
      case None => PartialTier(data, aliases).GetOr(JNull)
  }

  /** The exact tier wins: when `aliases[i]` is the first alias that is a key, the
      result is that key's value, whatever earlier aliases would match loosely. */
  lemma ExactWins(data: Dict<Json>, aliases: seq<string>, i: int)
    requires FirstExact(data, aliases, i)
    ensures Get(data, aliases[i]).Some?
    ensures FindValue(data, aliases) == Get(data, aliases[i]).value
  {
    var r := ExactTier(data, aliases);
    var i' :| FirstExact(data, aliases, i') && Get(data, aliases[i']) == r;
    assert i' == i;
  }

  /** A JSON null under the winning exact key makes the field absent, even when other
      keys would have matched in a later tier. */
  lemma ExactNullIsAbsent(data: Dict<Json>, aliases: seq<string>, i: int)
    requires FirstExact(data, aliases, i) && Get(data, aliases[i]) == Some(JNull)
    ensures FindValue(data, aliases) == JNull
  {
    ExactWins(data, aliases, i);
  }

  /** With no exact key, the case-insensitive tier decides: the first alias matching a
      key case-insensitively, valued by the last such key in insertion order. */
  lemma CaseTierDecides(data: Dict<Json>, aliases: seq<string>, i: int, j: int)
    requires forall k :: 0 <= k < |aliases| ==> aliases[k] !in Keys(data)
    requires FirstCase(data, aliases, i) && LastCaseKey(data, aliases[i], j)
    ensures FindValue(data, aliases) == data[j].1
  {
    var r := CaseTier(data, aliases);
    var i', j' :| FirstCase(data, aliases, i') && LastCaseKey(data, aliases[i'], j') && r == Some(data[j'].1);
    assert i' == i;
    assert j' == j;
  }

  /** With neither exact nor case-insensitive matches, the partial tier decides: the
      first alias related to some key, valued by the first such key. */
  lemma PartialTierDecides(data: Dict<Json>, aliases: seq<string>, i: int, j: int)
    requires forall k :: 0 <= k < |aliases| ==> aliases[k] !in Keys(data)
    requires forall k :: 0 <= k < |aliases| ==> !CaseMatch(data, aliases[k])
    requires FirstPartial(data, aliases, i) && FirstRelatedKey(data, aliases[i], j)
    ensures FindValue(data, aliases) == data[j].1
  {
    var r := PartialTier(data, aliases);
    var i', j' :| FirstPartial(data, aliases, i') && FirstRelatedKey(data, aliases[i'], j') && r == Some(data[j'].1);
    assert i' == i;
    assert j' == j;
  }

  /** No tier matching means `None`. */
  lemma NothingMatches(data: Dict<Json>, aliases: seq<string>)
    requires forall k :: 0 <= k < |aliases| ==> !PartialMatch(data, aliases[k])
    ensures FindValue(data, aliases) == JNull
  {
  }

  /** Resolution never invents a value: whatever it finds other than `None` is one of
      the document's values. */
  lemma FoundValueIsStored(data: Dict<Json>, aliases: seq<string>)
    requires FindValue(data, aliases) != JNull
    ensures exists j :: 0 <= j < |data| && data[j].1 == FindValue(data, aliases)
  {
    if ExactTier(data, aliases).Some? {
      var i :| FirstExact(data, aliases, i) && Get(data, aliases[i]) == ExactTier(data, aliases);
      assert (aliases[i], FindValue(data, aliases)) in data;
    }
  }
}
