/**
 * Python's `dict` with string keys, as the field mapper uses it: an insertion-ordered
 * sequence of key/value pairs with distinct keys. `FromPairs` is `dict(items)`: a key
 * keeps the position of its first occurrence and the value of its last.
 */
module OrderedDict {
  import opened Options

  type Dict<V> = seq<(string, V)>

  function Keys<V>(d: seq<(string, V)>): (ks: seq<string>)
    ensures |ks| == |d|
    ensures forall i :: 0 <= i < |d| ==> ks[i] == d[i].0
  {
    seq(|d|, i requires 0 <= i < |d| => d[i].0)
  }

  predicate UniqueKeys<V>(d: seq<(string, V)>) {
    forall i, j :: 0 <= i < j < |d| ==> d[i].0 != d[j].0
  }

  /** `d.get(k)`: the value stored under `k`, if any. */
  function Get<V>(d: Dict<V>, k: string): (r: Option<V>)
    ensures r.None? <==> k !in Keys(d)
    ensures r.Some? ==> (k, r.value) in d
  {
    if d == [] then None
    else if d[0].0 == k then Some(d[0].1)
    else Get(d[1..], k)
  }

  /** With distinct keys, the pair at position `i` is what a lookup of its key finds. */
  lemma {:induction false} GetAt<V>(d: Dict<V>, i: int)
    requires UniqueKeys(d)
    requires 0 <= i < |d|
    ensures Get(d, d[i].0) == Some(d[i].1)
  {
    if i > 0 {
      GetAt(d[1..], i - 1);
    }
  }

  /** `d[k] = v`: overwrite in place when `k` is present, append otherwise. */
  function Insert<V>(d: Dict<V>, k: string, v: V): (r: Dict<V>)
    requires UniqueKeys(d)
    ensures |r| == |d| + (if k in Keys(d) then 0 else 1)
    ensures forall i :: 0 <= i < |d| ==> r[i] == (if d[i].0 == k then (k, v) else d[i])
    ensures k !in Keys(d) ==> r[|d|] == (k, v)
    ensures Keys(r) == if k in Keys(d) then Keys(d) else Keys(d) + [k]
    ensures UniqueKeys(r)
  {
    if k in Keys(d) then
      var r := seq(|d|, i requires 0 <= i < |d| => if d[i].0 == k then (k, v) else d[i]);
      assert Keys(r) == Keys(d);
      r
    else
      var r := d + [(k, v)];
      assert Keys(r) == Keys(d) + [k];
      r
  }

  /** The distinct entries of `ks`, each where it first occurs. */
  function Distinct(ks: seq<string>): (r: seq<string>)
    ensures forall i, j :: 0 <= i < j < |r| ==> r[i] != r[j]
    ensures forall k :: k in r <==> k in ks
  {
    if ks == [] then []
    else
      var d := Distinct(ks[..|ks| - 1]);
      if ks[|ks| - 1] in d then d else d + [ks[|ks| - 1]]
  }

  /** Position `j` holds the last occurrence of its key. */
  predicate LastOf<V>(items: seq<(string, V)>, j: int)
    requires 0 <= j < |items|
  {
    forall j' :: j < j' < |items| ==> items[j'].0 != items[j].0
  }

  /** `dict(items)`: distinct keys in order of first occurrence (each pair being the
      last occurrence of its key, see `FromPairsLast`). */
  function FromPairs<V>(items: seq<(string, V)>): (r: Dict<V>)
    ensures UniqueKeys(r)
    ensures forall i :: 0 <= i < |r| ==> r[i] in items
    decreases |items|
  {
    if items == [] then []
    else
      var n := |items| - 1;
      Insert(FromPairs(items[..n]), items[n].0, items[n].1)
  }

  /** The keys of `dict(items)` are the distinct keys of `items`, in order of first
      occurrence. */
  lemma {:induction false} FromPairsKeys<V>(items: seq<(string, V)>)
    ensures Keys(FromPairs(items)) == Distinct(Keys(items))
    decreases |items|
  {
    if items != [] {
      var n := |items| - 1;
      FromPairsKeys(items[..n]);
      assert Keys(items[..n]) == Keys(items)[..n];
    }
  }

  /** `p` is the last occurrence of its key in `items`. */
  ghost predicate IsLastPair<V>(items: seq<(string, V)>, p: (string, V)) {
    exists j :: 0 <= j < |items| && items[j] == p && LastOf(items, j)
  }

  /** Each pair of `dict(items)` is the last occurrence of its key in `items`. */
  lemma {:induction false} FromPairsLast<V>(items: seq<(string, V)>, i: int)
    requires 0 <= i < |FromPairs(items)|
    ensures IsLastPair(items, FromPairs(items)[i])
    decreases |items|
  {
    var n := |items| - 1;
    var pre := items[..n];
    var d := FromPairs(pre);
    var r := FromPairs(items);
    assert r == Insert(d, items[n].0, items[n].1);
    if r[i].0 == items[n].0 {
      assert items[n] == r[i] && LastOf(items, n);
    } else {
      assert i < |d| && r[i] == d[i];
      FromPairsLast(pre, i);
      LastPairExtend(items, d[i]);
    }
  }

  lemma LastPairExtend<V>(items: seq<(string, V)>, q: (string, V))
    requires |items| > 0
    requires IsLastPair(items[..|items| - 1], q) && items[|items| - 1].0 != q.0
    ensures IsLastPair(items, q)
  {
    var pre := items[..|items| - 1];
    var j :| 0 <= j < |pre| && pre[j] == q && LastOf(pre, j);
    assert items[j] == q;
  }

  /** Looking up a key in `dict(items)` finds the value of that key's last occurrence. */
  lemma GetFromPairs<V>(items: seq<(string, V)>, j: int)
    requires 0 <= j < |items| && LastOf(items, j)
    ensures Get(FromPairs(items), items[j].0) == Some(items[j].1)
  {
    var r := FromPairs(items);
    var k := items[j].0;
    assert k in Keys(items);
    FromPairsKeys(items);
    assert k in Keys(r);
    var i :| 0 <= i < |r| && r[i].0 == k;
    FromPairsLast(items, i);
    var j' :| 0 <= j' < |items| && items[j'] == r[i] && LastOf(items, j');
    assert j' == j;
    GetAt(r, i);
  }

  /** A pair of a key-distinct middle run keeps its value in `dict(a + c + b)` when no
      pair after the run reuses its key: the earlier pairs of `a` are overwritten. */
  lemma GetFromRun<V>(a: seq<(string, V)>, c: seq<(string, V)>, b: seq<(string, V)>, ci: int)
    requires UniqueKeys(c) && 0 <= ci < |c|
    requires forall i :: 0 <= i < |b| ==> b[i].0 != c[ci].0
    ensures Get(FromPairs(a + c + b), c[ci].0) == Some(c[ci].1)
  {
    var items := a + c + b;
    var n := |a| + ci;
    assert items[n] == c[ci];
    forall j | n < j < |items|
      ensures items[j].0 != c[ci].0
    {
      if j < |a| + |c| {
        assert items[j] == c[j - |a|];
      } else {
        assert items[j] == b[j - |a| - |c|];
      }
    }
    GetFromPairs(items, n);
  }

  /** Every pair of `dict(items)` is one of `items`. */
  lemma FromPairsSubset<V>(items: seq<(string, V)>, i: int)
    requires 0 <= i < |FromPairs(items)|
    ensures FromPairs(items)[i] in items
  {
    FromPairsLast(items, i);
  }

  lemma InsertFresh<V>(d: Dict<V>, k: string, v: V)
    requires UniqueKeys(d) && k !in Keys(d)
    ensures Insert(d, k, v) == d + [(k, v)]
  {
    var r := Insert(d, k, v);
    assert forall i :: 0 <= i < |d| ==> d[i].0 != k by {
      forall i | 0 <= i < |d| ensures d[i].0 != k {
        assert Keys(d)[i] == d[i].0;
      }
    }
  }

  lemma LastSplit<T>(s: seq<T>)
    requires |s| > 0
    ensures s[..|s| - 1] + [s[|s| - 1]] == s
  {
  }

  /** `dict()` of a dict is that dict. */
  lemma {:induction false} FromPairsOfDict<V>(d: Dict<V>)
    requires UniqueKeys(d)
    ensures FromPairs(d) == d
    decreases |d|
  {
    if d != [] {
      var n := |d| - 1;
      var pre := d[..n];
      FromPairsOfDict(pre);
      assert FromPairs(d) == Insert(pre, d[n].0, d[n].1);
      assert d[n].0 !in Keys(pre) by {
        forall i | 0 <= i < n
          ensures Keys(pre)[i] != d[n].0
        {
          assert Keys(pre)[i] == d[i].0;
        }
      }
      InsertFresh(pre, d[n].0, d[n].1);
      LastSplit(d);
    }
  }
}
