/** Python dicts whose insertion order matters, as association lists over
    any key type with equality.
    Assigning to a key that is already present keeps its position; a new key
    goes to the end. */
module Dict {
  import opened Wrappers

  type Dict<K, V> = seq<(K, V)>

  function Keys<K(==,!new), V>(d: Dict<K, V>): (ks: seq<K>)
    ensures |ks| == |d| && forall i :: 0 <= i < |d| ==> ks[i] == d[i].0
  {
    if |d| == 0 then [] else Keys(d[..|d| - 1]) + [d[|d| - 1].0]
  }

  function Values<K(==,!new), V>(d: Dict<K, V>): (vs: seq<V>)
    ensures |vs| == |d| && forall i :: 0 <= i < |d| ==> vs[i] == d[i].1
  {
    if |d| == 0 then [] else Values(d[..|d| - 1]) + [d[|d| - 1].1]
  }

  predicate HasKey<K(==,!new), V>(d: Dict<K, V>, k: K)
  {
    exists i :: 0 <= i < |d| && d[i].0 == k
  }

  /** No key appears twice, as in a real dict. */
  predicate DistinctKeys<K(==,!new), V>(d: Dict<K, V>)
  {
    forall i, j :: 0 <= i < j < |d| ==> d[i].0 != d[j].0
  }

  /** Position of the first entry for k. */
  function IndexOf<K(==,!new), V>(d: Dict<K, V>, k: K): (i: int)
    ensures -1 <= i < |d|
    ensures i == -1 <==> !HasKey(d, k)
    ensures i == -1 ==> forall j :: 0 <= j < |d| ==> d[j].0 != k
    ensures 0 <= i ==> d[i].0 == k && forall j :: 0 <= j < i ==> d[j].0 != k
  {
    if |d| == 0 then -1
    else if d[0].0 == k then 0
    else
      var j := IndexOf(d[1..], k);
      assert forall m :: 1 <= m < |d| ==> d[m] == d[1..][m - 1];
      if j == -1 then -1 else j + 1
  }

  /** `d[k]` as a lookup that may miss (`d.get(k)`). */
  function Get<K(==,!new), V>(d: Dict<K, V>, k: K): (r: Option<V>)
    ensures r.None? <==> !HasKey(d, k)
    ensures r.Some? ==> exists i :: 0 <= i < |d| && d[i] == (k, r.value)
  {
    var i := IndexOf(d, k);
    if i == -1 then None else Some(d[i].1)
  }

  /** `d[k] = v`. */
  function Put<K(==,!new), V>(d: Dict<K, V>, k: K, v: V): (r: Dict<K, V>)
    ensures HasKey(d, k) ==> |r| == |d|
    ensures !HasKey(d, k) ==> r == d + [(k, v)]
    ensures Get(r, k) == Some(v)
    ensures forall k' :: k' != k ==> Get(r, k') == Get(d, k')
    ensures HasKey(d, k) ==> Keys(r) == Keys(d)
    ensures DistinctKeys(d) ==> DistinctKeys(r)
  {
    var i := IndexOf(d, k);
    if i == -1 then
      AppendFresh(d, k, v);
      d + [(k, v)]
    else
      ReplaceAt(d, i, k, v);
      d[i := (k, v)]
  }

  /** Appending an entry for an absent key. */
  lemma AppendFresh<K(!new), V>(d: Dict<K, V>, k: K, v: V)
    requires !HasKey(d, k)
    ensures Get(d + [(k, v)], k) == Some(v)
    ensures forall k' :: k' != k ==> Get(d + [(k, v)], k') == Get(d, k')
    ensures DistinctKeys(d) ==> DistinctKeys(d + [(k, v)])
  {
    var r := d + [(k, v)];
    forall k' | k' != k
      ensures IndexOf(r, k') == IndexOf(d, k')
    {
      IndexOfPrefix(d, [(k, v)], k');
    }
    IndexOfFirst(r, |d|, k);
  }

  /** Overwriting the first entry for a present key. */
  lemma ReplaceAt<K(!new), V>(d: Dict<K, V>, i: int, k: K, v: V)
    requires 0 <= i < |d| && i == IndexOf(d, k)
    ensures Get(d[i := (k, v)], k) == Some(v)
    ensures forall k' :: k' != k ==> Get(d[i := (k, v)], k') == Get(d, k')
    ensures Keys(d[i := (k, v)]) == Keys(d)
    ensures DistinctKeys(d) ==> DistinctKeys(d[i := (k, v)])
  {
    var r := d[i := (k, v)];
    forall k' | k' != k
      ensures IndexOf(r, k') == IndexOf(d, k')
    {
      IndexOfUpdate(d, i, (k, v), k');
    }
    IndexOfFirst(r, i, k);
  }

  lemma PutHasKey<K(!new), V>(d: Dict<K, V>, k: K, v: V, k': K)
    ensures HasKey(Put(d, k, v), k') <==> HasKey(d, k') || k' == k
  {
    if k' != k {
      assert Get(Put(d, k, v), k') == Get(d, k');
    }
  }

  lemma HasKeyAppend<K(!new), V>(d: Dict<K, V>, e: (K, V), k: K)
    ensures HasKey(d + [e], k) <==> HasKey(d, k) || e.0 == k
  {
    if HasKey(d, k) {
      var i :| 0 <= i < |d| && d[i].0 == k;
      assert (d + [e])[i].0 == k;
    }
    if e.0 == k {
      assert (d + [e])[|d|].0 == k;
    }
  }

  lemma IndexOfFirst<K(!new), V>(d: Dict<K, V>, i: int, k: K)
    requires 0 <= i < |d| && d[i].0 == k
    requires forall j :: 0 <= j < i ==> d[j].0 != k
    ensures IndexOf(d, k) == i
  {
  }

  /** An entry whose key appears nowhere before it is what `d.get` finds. */
  lemma GetAt<K(!new), V>(d: Dict<K, V>, i: int)
    requires 0 <= i < |d|
    requires forall j :: 0 <= j < i ==> d[j].0 != d[i].0
    ensures Get(d, d[i].0) == Some(d[i].1)
  {
    IndexOfFirst(d, i, d[i].0);
  }

  /** In a dict without repeated keys every entry is what `d.get` finds. */
  lemma GetDistinct<K(!new), V>(d: Dict<K, V>, i: int)
    requires DistinctKeys(d) && 0 <= i < |d|
    ensures Get(d, d[i].0) == Some(d[i].1)
  {
    GetAt(d, i);
  }

  /** Assigning a new key appends it. */
  lemma PutFresh<K(!new), V>(d: Dict<K, V>, k: K, v: V)
    requires !HasKey(d, k)
    ensures Put(d, k, v) == d + [(k, v)]
  {
  }

  /** Entries appended under other keys do not change a lookup. */
  lemma GetExtend<K(!new), V>(d: Dict<K, V>, ext: Dict<K, V>, k: K)
    requires !HasKey(ext, k)
    ensures Get(d + ext, k) == Get(d, k)
  {
    IndexOfPrefix(d, ext, k);
  }

  lemma IndexOfPrefix<K(!new), V>(d: Dict<K, V>, e: Dict<K, V>, k: K)
    requires !HasKey(e, k) || HasKey(d, k)
    ensures IndexOf(d + e, k) == IndexOf(d, k)
  {
    var i := IndexOf(d, k);
    if i >= 0 {
      IndexOfFirst(d + e, i, k);
    } else {
      assert !HasKey(e, k);
      forall m | 0 <= m < |d + e|
        ensures (d + e)[m].0 != k
      {
        if m >= |d| {
          assert (d + e)[m] == e[m - |d|];
        }
      }
    }
  }

  lemma IndexOfUpdate<K(!new), V>(d: Dict<K, V>, i: int, e: (K, V), k: K)
    requires 0 <= i < |d| && d[i].0 == e.0 && e.0 != k
    ensures IndexOf(d[i := e], k) == IndexOf(d, k)
  {
    var r := d[i := e];
    var j := IndexOf(d, k);
    if j >= 0 {
      IndexOfFirst(r, j, k);
    } else {
      forall m | 0 <= m < |r|
        ensures r[m].0 != k
      {
      }
    }
  }

  /** Builds a dict from (key, value) pairs inserted in order. */
  function FromPairs<K(==,!new), V>(ps: seq<(K, V)>): (r: Dict<K, V>)
    ensures DistinctKeys(r)
    ensures forall k :: HasKey(r, k) <==> HasKey(ps, k)
  {
    if |ps| == 0 then []
    else
      var init := ps[..|ps| - 1];
      var last := ps[|ps| - 1];
      var prev := FromPairs(init);
      var r := Put(prev, last.0, last.1);
      forall k
        ensures HasKey(r, k) <==> HasKey(ps, k)
      {
        PutHasKey(prev, last.0, last.1, k);
        assert ps == init + [last];
        HasKeyAppend(init, last, k);
      }
      r
  }

  /** With distinct keys, the front of a list keeps them distinct and
      lacks the last key. */
  lemma DistinctLast<K(!new), V>(init: seq<(K, V)>, last: (K, V))
    requires DistinctKeys(init + [last])
    ensures DistinctKeys(init)
    ensures !HasKey(init, last.0)
  {
    var ps := init + [last];
    forall i, j | 0 <= i < j < |init| ensures init[i].0 != init[j].0 {
      assert ps[i] == init[i] && ps[j] == init[j];
    }
    forall i | 0 <= i < |init| ensures init[i].0 != last.0 {
      assert ps[i] == init[i] && ps[|init|] == last;
    }
  }

  /** Pairs with distinct keys build the dict that lists them as given. */
  lemma {:induction false} FromPairsDistinct<K(!new), V>(ps: seq<(K, V)>)
    requires DistinctKeys(ps)
    ensures FromPairs(ps) == ps
  {
    if |ps| > 0 {
      var init := ps[..|ps| - 1];
      var last := ps[|ps| - 1];
      assert ps == init + [last];
      DistinctLast(init, last);
      PutFresh(init, last.0, last.1);
      FromPairsDistinct(init);
    }
  }

  /** Every value of the built dict is the value of one of the pairs, so a
      property all values have carries over. */
  lemma {:induction false} FromPairsValues<K(!new), V>(ps: seq<(K, V)>, p: V -> bool)
    requires forall i :: 0 <= i < |ps| ==> p(ps[i].1)
    ensures forall i :: 0 <= i < |FromPairs(ps)| ==> p(FromPairs(ps)[i].1)
  {
    if |ps| > 0 {
      var init := ps[..|ps| - 1];
      var last := ps[|ps| - 1];
      FromPairsValues(init, p);
      var prev := FromPairs(init);
      var j := IndexOf(prev, last.0);
      assert FromPairs(ps) == if j == -1 then prev + [last] else prev[j := last];
    }
  }
}
