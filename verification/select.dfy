/** Python's selection idioms over lists: `max`/`min` with a key (the first
    extreme element wins a tie), the first element passing a test, list
    comprehensions with a condition, and the stable `sorted(..., key=...,
    reverse=True)`. */
module Select {
  import opened Wrappers

  /** Index of `max(xs, key=key)`: Python keeps the first maximal element,
      replacing the running maximum only on a strictly larger key. */
  function ArgMax<T>(xs: seq<T>, key: T -> real): (i: nat)
    requires |xs| > 0
    ensures i < |xs|
    ensures forall j :: 0 <= j < |xs| ==> key(xs[j]) <= key(xs[i])
    ensures forall j :: 0 <= j < i ==> key(xs[j]) < key(xs[i])
  {
    if |xs| == 1 then 0
    else
      var k := ArgMax(xs[..|xs| - 1], key);
      if key(xs[|xs| - 1]) > key(xs[k]) then |xs| - 1 else k
  }

  /** Index of `min(xs, key=key)`, again the first minimal element. */
  function ArgMin<T>(xs: seq<T>, key: T -> real): (i: nat)
    requires |xs| > 0
    ensures i < |xs|
    ensures forall j :: 0 <= j < |xs| ==> key(xs[i]) <= key(xs[j])
    ensures forall j :: 0 <= j < i ==> key(xs[i]) < key(xs[j])
  {
    if |xs| == 1 then 0
    else
      var k := ArgMin(xs[..|xs| - 1], key);
      if key(xs[|xs| - 1]) < key(xs[k]) then |xs| - 1 else k
  }

  /** `min([(key(x), x) for x in xs if p(x)], key=lambda t: t[0])`: the
      index of the first passing element with the least key, or None when
      no element passes. */
  function ArgMinWhere<T>(xs: seq<T>, p: T -> bool, key: T -> real): (r: Option<nat>)
    ensures r.None? <==> forall j :: 0 <= j < |xs| ==> !p(xs[j])
    ensures r.Some? ==> r.value < |xs| && p(xs[r.value])
    ensures r.Some? ==> forall j :: 0 <= j < |xs| && p(xs[j]) ==> key(xs[r.value]) <= key(xs[j])
    ensures r.Some? ==> forall j :: 0 <= j < r.value && p(xs[j]) ==> key(xs[r.value]) < key(xs[j])
  {
    if |xs| == 0 then None
    else
      var n := |xs| - 1;
      var init := xs[..n];
      assert forall j :: 0 <= j < n ==> init[j] == xs[j];
      var k := ArgMinWhere(init, p, key);
      if !p(xs[n]) then k
      else if k.None? then Some(n)
      else if key(xs[n]) < key(xs[k.value]) then Some(n)
      else k
  }

  /** The first index whose element passes `p`: a `for ... if ...: break`
      search. */
  function FirstWhere<T>(xs: seq<T>, p: T -> bool): (r: Option<nat>)
    ensures r.None? <==> forall j :: 0 <= j < |xs| ==> !p(xs[j])
    ensures r.Some? ==> r.value < |xs| && p(xs[r.value])
    ensures r.Some? ==> forall j :: 0 <= j < r.value ==> !p(xs[j])
  {
    if |xs| == 0 then None
    else if p(xs[0]) then Some(0)
    else
      match FirstWhere(xs[1..], p)
      case None => None
      case Some(j) => Some(j + 1)
  }

  /** `reversed(xs)`. */
  function Reverse<T>(xs: seq<T>): (r: seq<T>)
    ensures |r| == |xs|
    ensures forall i :: 0 <= i < |xs| ==> r[i] == xs[|xs| - 1 - i]
  {
    if |xs| == 0 then [] else [xs[|xs| - 1]] + Reverse(xs[..|xs| - 1])
  }

  /** `[x for x in xs if p(x)]`, order kept. */
  function Filter<T(==)>(xs: seq<T>, p: T -> bool): (r: seq<T>)
    ensures |r| <= |xs|
    ensures forall i :: 0 <= i < |r| ==> r[i] in xs && p(r[i])
    ensures forall i :: 0 <= i < |xs| && p(xs[i]) ==> xs[i] in r
  {
    if |xs| == 0 then []
    else
      var init := Filter(xs[..|xs| - 1], p);
      assert forall i :: 0 <= i < |xs| - 1 ==> xs[i] == xs[..|xs| - 1][i];
      if p(xs[|xs| - 1]) then init + [xs[|xs| - 1]] else init
  }

  /** Keys never increase along the sequence. */
  predicate SortedDown<T>(xs: seq<T>, key: T -> real)
  {
    forall i, j :: 0 <= i < j < |xs| ==> key(xs[j]) <= key(xs[i])
  }

  /** Places x after every leading element whose key is at least x's, so
      that an element inserted later stays behind its equals. */
  function Insert<T>(s: seq<T>, x: T, key: T -> real): seq<T>
  {
    if |s| == 0 then [x]
    else if key(s[0]) >= key(x) then [s[0]] + Insert(s[1..], x, key)
    else [x] + s
  }

  /** Inserting adds exactly x to the contents. */
  lemma {:induction false} InsertContents<T>(s: seq<T>, x: T, key: T -> real)
    ensures multiset(Insert(s, x, key)) == multiset(s) + multiset{x}
    ensures |Insert(s, x, key)| == |s| + 1
  {
    if |s| > 0 && key(s[0]) >= key(x) {
      InsertContents(s[1..], x, key);
      assert s == [s[0]] + s[1..];
    }
  }

  /** A bound on every key of s and on x bounds every key after insertion. */
  lemma {:induction false} InsertBounded<T>(s: seq<T>, x: T, key: T -> real, b: real)
    requires forall i :: 0 <= i < |s| ==> key(s[i]) <= b
    requires key(x) <= b
    ensures forall j :: 0 <= j < |Insert(s, x, key)| ==> key(Insert(s, x, key)[j]) <= b
  {
    if |s| > 0 && key(s[0]) >= key(x) {
      InsertBounded(s[1..], x, key, b);
    }
  }

  /** Inserting keeps a sorted sequence sorted. */
  lemma {:induction false} InsertSorted<T>(s: seq<T>, x: T, key: T -> real)
    requires SortedDown(s, key)
    ensures SortedDown(Insert(s, x, key), key)
  {
    if |s| == 0 {
    } else if key(s[0]) >= key(x) {
      var t := s[1..];
      InsertSorted(t, x, key);
      InsertBounded(t, x, key, key(s[0]));
      var u := Insert(t, x, key);
      var r := [s[0]] + u;
      forall i, j | 0 <= i < j < |r|
        ensures key(r[j]) <= key(r[i])
      {
        assert r[j] == u[j - 1];
        if i > 0 {
          assert r[i] == u[i - 1];
        }
      }
    } else {
      var r := [x] + s;
      forall i, j | 0 <= i < j < |r|
        ensures key(r[j]) <= key(r[i])
      {
        assert r[j] == s[j - 1];
        if i > 0 {
          assert r[i] == s[i - 1];
        } else {
          assert key(s[j - 1]) <= key(s[0]);
        }
      }
    }
  }

  /** `sorted(xs, key=key, reverse=True)` as a stable insertion sort. */
  function SortDown<T>(xs: seq<T>, key: T -> real): seq<T>
  {
    if |xs| == 0 then []
    else Insert(SortDown(xs[..|xs| - 1], key), xs[|xs| - 1], key)
  }

  /** The sorted list is a permutation of the input, keys non-increasing. */
  lemma {:induction false} SortDownCorrect<T>(xs: seq<T>, key: T -> real)
    ensures SortedDown(SortDown(xs, key), key)
    ensures multiset(SortDown(xs, key)) == multiset(xs)
    ensures |SortDown(xs, key)| == |xs|
  {
    if |xs| > 0 {
      var init := xs[..|xs| - 1];
      SortDownCorrect(init, key);
      InsertSorted(SortDown(init, key), xs[|xs| - 1], key);
      InsertContents(SortDown(init, key), xs[|xs| - 1], key);
      assert xs == init + [xs[|xs| - 1]];
    }
  }

  /** Filtering a concatenation filters each part. */
  lemma {:induction false} FilterAppend<T>(a: seq<T>, b: seq<T>, p: T -> bool)
    ensures Filter(a + b, p) == Filter(a, p) + Filter(b, p)
    decreases |b|
  {
    if |b| == 0 {
      assert a + b == a;
    } else {
      var b' := b[..|b| - 1];
      assert (a + b)[..|a + b| - 1] == a + b';
      assert (a + b)[|a + b| - 1] == b[|b| - 1];
      FilterAppend(a, b', p);
    }
  }

  /** A test selecting only elements of one key: the elements a stable sort
      must keep in their input order. */
  ghost predicate OneKey<T(!new)>(p: T -> bool, key: T -> real)
  {
    forall a, b :: p(a) && p(b) ==> key(a) == key(b)
  }

  /** Inserting into a sorted sequence keeps the selected elements in the
      order they would have if x were appended. */
  lemma {:induction false} InsertStable<T(!new)>(s: seq<T>, x: T, key: T -> real, p: T -> bool)
    requires SortedDown(s, key)
    requires OneKey(p, key)
    ensures Filter(Insert(s, x, key), p) == Filter(s + [x], p)
  {
    if |s| == 0 {
    } else if key(s[0]) >= key(x) {
      var t := s[1..];
      assert SortedDown(t, key) by {
        forall i, j | 0 <= i < j < |t| ensures key(t[j]) <= key(t[i]) {
          assert t[i] == s[i + 1] && t[j] == s[j + 1];
        }
      }
      InsertStable(t, x, key, p);
      FilterAppend([s[0]], Insert(t, x, key), p);
      FilterAppend([s[0]], t + [x], p);
      assert [s[0]] + (t + [x]) == s + [x];
    } else {
      // Every element of s has a smaller key than x, so none is selected
      // together with x.
      FilterAppend([x], s, p);
      FilterAppend(s, [x], p);
      assert [x][..0] == [] && [x][..|[x]| - 1] == [];
      if p(x) {
        forall i | 0 <= i < |s| ensures !p(s[i]) {
          assert key(s[i]) <= key(s[0]) < key(x);
        }
        FilterNone(s, p);
      }
    }
  }

  /** Nothing passes, so nothing is kept. */
  lemma {:induction false} FilterNone<T>(xs: seq<T>, p: T -> bool)
    requires forall i :: 0 <= i < |xs| ==> !p(xs[i])
    ensures Filter(xs, p) == []
  {
    if |xs| > 0 {
      var init := xs[..|xs| - 1];
      assert forall i :: 0 <= i < |init| ==> init[i] == xs[i];
      FilterNone(init, p);
    }
  }

  /** `sorted` is stable: the elements of any one key appear in the output
      in the same order as in the input. */
  lemma {:induction false} SortDownStable<T(!new)>(xs: seq<T>, key: T -> real, p: T -> bool)
    requires OneKey(p, key)
    ensures Filter(SortDown(xs, key), p) == Filter(xs, p)
  {
    if |xs| > 0 {
      var init := xs[..|xs| - 1];
      var x := xs[|xs| - 1];
      SortDownStable(init, key, p);
      SortDownCorrect(init, key);
      InsertStable(SortDown(init, key), x, key, p);
      FilterAppend(SortDown(init, key), [x], p);
      FilterAppend(init, [x], p);
      assert xs == init + [x];
    }
  }
}
