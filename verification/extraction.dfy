/** Dominant-colour extraction: the quality presets, and the deterministic
    half of the k-means clustering (assignment, centroid update, counting
    and shaping of the result). Image decoding, thumbnailing and the random
    choices of sampling and k-means++ seeding are parameters. */
module Extraction {
  import opened Wrappers
  import opened Numeric
  import opened Colors
  import Select
  import Dict

  // ---- Presets --------------------------------------------------------

  /** The thumbnail bound, the number of pixels sampled and the number of
      k-means rounds a preset selects. */
  datatype Settings = Settings(resizeWidth: nat, resizeHeight: nat, sampleCount: nat, iterations: nat)

  const PresetNames: seq<string> := ["high", "balanced", "fast"]

  /** The settings of `get_colors` for a preset name. */
  function PresetSettings(preset: string): (r: Result<Settings>)
  {
    if preset !in PresetNames then
      Err(ValueError(preset + " is not a valid Preset. Select something from high, balanced, fast"))
    else if preset == "fast" then Ok(Settings(100, 100, 1000, 5))
    else if preset == "high" then Ok(Settings(300, 300, 10000, 20))
    else Ok(Settings(150, 150, 4000, 10))
  }

  /** Whether every setting of s is at most the matching one of t. */
  predicate NoFinerThan(s: Settings, t: Settings)
  {
    && s.resizeWidth <= t.resizeWidth && s.resizeHeight <= t.resizeHeight
    && s.sampleCount <= t.sampleCount && s.iterations <= t.iterations
  }

  /** Exactly the three preset names are accepted; anything else is a
      ValueError. */
  lemma PresetAccepted(preset: string)
    ensures PresetSettings(preset).Ok? <==> preset == "high" || preset == "balanced" || preset == "fast"
    ensures PresetSettings(preset).Err? ==> PresetSettings(preset).fault.ValueError?
  {
  }

  /** The presets are ordered: fast is no finer than balanced and balanced
      no finer than high, and each samples at least one pixel. */
  lemma PresetOrder()
    ensures PresetSettings("fast").Ok? && PresetSettings("balanced").Ok? && PresetSettings("high").Ok?
    ensures NoFinerThan(PresetSettings("fast").value, PresetSettings("balanced").value)
    ensures NoFinerThan(PresetSettings("balanced").value, PresetSettings("high").value)
    ensures PresetSettings("fast").value != PresetSettings("balanced").value
    ensures PresetSettings("balanced").value != PresetSettings("high").value
    ensures PresetSettings("fast").value.sampleCount > 0
  {
  }

  // ---- Points and the assignment step ---------------------------------

  /** A pixel or a centroid: three float channels. */
  datatype Point = Point(r: real, g: real, b: real)

  function Square(x: real): real
  {
    Mul(x, x)
  }

  /** Squared Euclidean distance, the quantity the source minimises. */
  function Dist2(p: Point, q: Point): real
  {
    Square(p.r - q.r) + Square(p.g - q.g) + Square(p.b - q.b)
  }

  /** `np.argmin` over the distances to the centroids: the closest
      centroid, the first one on ties. */
  function Nearest(p: Point, cs: seq<Point>): (k: nat)
    requires |cs| > 0
    ensures k < |cs|
    ensures forall j :: 0 <= j < |cs| ==> Dist2(p, cs[k]) <= Dist2(p, cs[j])
    ensures forall j :: 0 <= j < k ==> Dist2(p, cs[k]) < Dist2(p, cs[j])
  {
    Select.ArgMin(cs, (c: Point) => Dist2(p, c))
  }

  /** Squared distance from p to its nearest centroid (`distances_sq.min(axis=1)`). */
  function NearestDist(p: Point, cs: seq<Point>): (d: real)
    requires |cs| > 0
    ensures forall j :: 0 <= j < |cs| ==> d <= Dist2(p, cs[j])
    ensures exists j :: 0 <= j < |cs| && d == Dist2(p, cs[j])
  {
    Dist2(p, cs[Nearest(p, cs)])
  }

  /** The cluster of every pixel. */
  function Assign(ps: seq<Point>, cs: seq<Point>): (labels: seq<nat>)
    requires |cs| > 0
    ensures |labels| == |ps|
    ensures forall i :: 0 <= i < |ps| ==> labels[i] < |cs|
    ensures forall i, j :: 0 <= i < |ps| && 0 <= j < |cs| ==> Dist2(ps[i], cs[labels[i]]) <= Dist2(ps[i], cs[j])
    ensures forall i, j :: 0 <= i < |ps| && 0 <= j < labels[i] ==> Dist2(ps[i], cs[labels[i]]) < Dist2(ps[i], cs[j])
  {
    seq(|ps|, i requires 0 <= i < |ps| => Nearest(ps[i], cs))
  }

  // ---- Counting -------------------------------------------------------

  /** How many entries of `labels` equal k. */
  function Count(labels: seq<nat>, k: nat): nat
  {
    if |labels| == 0 then 0
    else Count(labels[..|labels| - 1], k) + (if labels[|labels| - 1] == k then 1 else 0)
  }

  /** `np.bincount(labels, minlength=n)` for assignments below n: a tally
      bumped once per entry. */
  function BinCount(labels: seq<nat>, n: nat): (counts: seq<nat>)
    requires forall i :: 0 <= i < |labels| ==> labels[i] < n
    ensures |counts| == n
  {
    if |labels| == 0 then seq(n, (_: int) => 0)
    else
      var counts := BinCount(labels[..|labels| - 1], n);
      var a := labels[|labels| - 1];
      counts[a := counts[a] + 1]
  }

  /** The tally agrees with counting each cluster separately. */
  lemma {:induction false} BinCountIsCount(labels: seq<nat>, n: nat)
    requires forall i :: 0 <= i < |labels| ==> labels[i] < n
    ensures forall k :: 0 <= k < n ==> BinCount(labels, n)[k] == Count(labels, k)
  {
    if |labels| > 0 {
      BinCountIsCount(labels[..|labels| - 1], n);
    }
  }

  function Total(s: seq<nat>): nat
  {
    if |s| == 0 then 0 else s[0] + Total(s[1..])
  }

  lemma {:induction false} TotalUpdate(s: seq<nat>, i: nat, v: nat)
    requires i < |s|
    ensures Total(s[i := v]) + s[i] == Total(s) + v
  {
    if i == 0 {
      assert s[i := v][1..] == s[1..];
    } else {
      TotalUpdate(s[1..], i - 1, v);
      assert s[i := v][1..] == s[1..][i - 1 := v];
    }
  }

  lemma {:induction false} TotalZeros(n: nat)
    ensures Total(seq(n, (_: int) => 0)) == 0
  {
    if n > 0 {
      assert seq(n, (_: int) => 0)[1..] == seq(n - 1, (_: int) => 0);
      TotalZeros(n - 1);
    }
  }

  /** The counts add up to the number of sampled pixels. */
  lemma {:induction false} BinCountTotal(labels: seq<nat>, n: nat)
    requires forall i :: 0 <= i < |labels| ==> labels[i] < n
    ensures Total(BinCount(labels, n)) == |labels|
  {
    if |labels| == 0 {
      TotalZeros(n);
    } else {
      var init := labels[..|labels| - 1];
      BinCountTotal(init, n);
      var counts := BinCount(init, n);
      var a := labels[|labels| - 1];
      TotalUpdate(counts, a, counts[a] + 1);
    }
  }

  // ---- The update step ------------------------------------------------

  /** The pixels assigned to cluster k, in order (`sampled_pixels[mask]`). */
  function Members(ps: seq<Point>, labels: seq<nat>, k: nat): (m: seq<Point>)
    requires |labels| == |ps|
    ensures |m| == Count(labels, k)
    ensures forall j :: 0 <= j < |m| ==> m[j] in ps
    ensures forall i :: 0 <= i < |ps| && labels[i] == k ==> ps[i] in m
  {
    if |ps| == 0 then []
    else
      var n := |ps| - 1;
      var init := Members(ps[..n], labels[..n], k);
      assert forall i :: 0 <= i < n ==> ps[..n][i] == ps[i] && labels[..n][i] == labels[i];
      assert labels[..n] == labels[..|labels| - 1];
      if labels[n] == k then init + [ps[n]] else init
  }

  /** One channel of a point: 0 red, 1 green, anything else blue. */
  function Channel(p: Point, c: nat): real
  {
    if c == 0 then p.r else if c == 1 then p.g else p.b
  }

  function ChannelSum(m: seq<Point>, c: nat): real
  {
    if |m| == 0 then 0.0 else ChannelSum(m[..|m| - 1], c) + Channel(m[|m| - 1], c)
  }

  /** `mean(axis=0)` of a non-empty list of points. */
  function Mean(m: seq<Point>): Point
    requires |m| > 0
  {
    var n := |m| as real;
    Point(ChannelSum(m, 0) / n, ChannelSum(m, 1) / n, ChannelSum(m, 2) / n)
  }

  /** Every channel of p lies in [lo, hi]. */
  predicate InBox(p: Point, lo: real, hi: real)
  {
    lo <= p.r <= hi && lo <= p.g <= hi && lo <= p.b <= hi
  }

  predicate AllInBox(ps: seq<Point>, lo: real, hi: real)
  {
    forall i :: 0 <= i < |ps| ==> InBox(ps[i], lo, hi)
  }

  lemma {:induction false} ChannelSumBounds(m: seq<Point>, c: nat, lo: real, hi: real)
    requires AllInBox(m, lo, hi)
    ensures Mul(|m| as real, lo) <= ChannelSum(m, c) <= Mul(|m| as real, hi)
  {
    if |m| == 0 {
      MulZero(lo);
      MulZero(hi);
    } else {
      var n := |m| as real;
      ChannelSumBounds(m[..|m| - 1], c, lo, hi);
      assert InBox(m[|m| - 1], lo, hi);
      MulDistributes(lo, n, 1.0);
      MulDistributes(hi, n, 1.0);
      MulOne(lo);
      MulOne(hi);
    }
  }

  /** A quotient by a positive count of a sum between count times the
      bounds lies between the bounds. */
  lemma QuotientBetween(s: real, n: real, lo: real, hi: real)
    requires 0.0 < n && Mul(n, lo) <= s <= Mul(n, hi)
    ensures lo <= s / n <= hi
  {
    QuotientBelow(s, n, lo);
    MulCommutes(lo, n);
    QuotientAbove(s, n, hi);
    MulCommutes(hi, n);
  }

  /** The mean of points inside a box is inside the box. */
  lemma MeanInBox(m: seq<Point>, lo: real, hi: real)
    requires |m| > 0 && AllInBox(m, lo, hi)
    ensures InBox(Mean(m), lo, hi)
  {
    var n := |m| as real;
    ChannelSumBounds(m, 0, lo, hi);
    ChannelSumBounds(m, 1, lo, hi);
    ChannelSumBounds(m, 2, lo, hi);
    QuotientBetween(ChannelSum(m, 0), n, lo, hi);
    QuotientBetween(ChannelSum(m, 1), n, lo, hi);
    QuotientBetween(ChannelSum(m, 2), n, lo, hi);
  }

  /** `np.argmax(distances_sq.min(axis=1))`: the pixel farthest from its
      nearest centroid, the first one on ties. */
  function Farthest(ps: seq<Point>, cs: seq<Point>): (i: nat)
    requires |ps| > 0 && |cs| > 0
    ensures i < |ps|
    ensures forall j :: 0 <= j < |ps| ==> NearestDist(ps[j], cs) <= NearestDist(ps[i], cs)
  {
    Select.ArgMax(ps, (p: Point) => NearestDist(p, cs))
  }

  /** One k-means round: each cluster moves to the mean of its pixels, an
      empty one to the farthest pixel. */
  function Update(ps: seq<Point>, cs: seq<Point>): (next: seq<Point>)
    requires |ps| > 0 && |cs| > 0
    ensures |next| == |cs|
  {
    var labels := Assign(ps, cs);
    var far := ps[Farthest(ps, cs)];
    seq(|cs|, k requires 0 <= k < |cs| =>
      var m := Members(ps, labels, k);
      if |m| > 0 then Mean(m) else far)
  }

  /** After an update every centroid lies in any box holding all pixels,
      whatever the centroids were before. */
  lemma UpdateInBox(ps: seq<Point>, cs: seq<Point>, lo: real, hi: real)
    requires |ps| > 0 && |cs| > 0
    requires AllInBox(ps, lo, hi)
    ensures AllInBox(Update(ps, cs), lo, hi)
  {
    var labels := Assign(ps, cs);
    var next := Update(ps, cs);
    forall k | 0 <= k < |cs|
      ensures InBox(next[k], lo, hi)
    {
      var m := Members(ps, labels, k);
      if |m| > 0 {
        assert AllInBox(m, lo, hi) by {
          forall j | 0 <= j < |m| ensures InBox(m[j], lo, hi) {
            var i :| 0 <= i < |ps| && ps[i] == m[j];
          }
        }
        MeanInBox(m, lo, hi);
      }
    }
  }

  /** `np.allclose(a, b, atol=1e-4)`: every channel within 1e-4 plus the
      default relative tolerance 1e-5 of b's magnitude. */
  predicate AllClose(a: seq<Point>, b: seq<Point>)
  {
    && |a| == |b|
    && forall i, c :: 0 <= i < |a| && 0 <= c < 3 ==>
         Abs(Channel(a[i], c) - Channel(b[i], c)) <= 0.0001 + 0.00001 * Abs(Channel(b[i], c))
  }

  /** At most `rounds` applications of `step`, stopping at the first
      whose result `done` judges close enough to its predecessor. */
  function Converge<T>(step: T -> T, done: (T, T) -> bool, x: T, rounds: nat): T
    decreases rounds
  {
    if rounds == 0 then x
    else
      var next := step(x);
      if done(x, next) then next else Converge(step, done, next, rounds - 1)
  }

  /** A property every step preserves holds of the loop's result. */
  lemma {:induction false} ConvergeKeeps<T>(step: T -> T, done: (T, T) -> bool, x: T, rounds: nat, inv: T -> bool)
    requires inv(x)
    requires forall y :: inv(y) ==> inv(step(y))
    ensures inv(Converge(step, done, x, rounds))
    decreases rounds
  {
    if rounds > 0 {
      ConvergeKeeps(step, done, step(x), rounds - 1, inv);
    }
  }

  /** The k-means round on centroid lists of any length (an empty list
      has nothing to update). */
  function Round(ps: seq<Point>, cs: seq<Point>): seq<Point>
  {
    if |ps| > 0 && |cs| > 0 then Update(ps, cs) else cs
  }

  /** The k-means loop: at most `rounds` updates, stopping at the first
      that leaves the centroids all-close to the previous ones. */
  function KMeans(ps: seq<Point>, cs: seq<Point>, rounds: nat): (res: seq<Point>)
    ensures |res| == |cs|
  {
    var step := (c: seq<Point>) => Round(ps, c);
    ConvergeKeeps(step, AllClose, cs, rounds, (c: seq<Point>) => |c| == |cs|);
    Converge(step, AllClose, cs, rounds)
  }

  /** Centroids that start inside a box holding every pixel stay there. */
  lemma KMeansInBox(ps: seq<Point>, cs: seq<Point>, rounds: nat, lo: real, hi: real)
    requires AllInBox(ps, lo, hi) && AllInBox(cs, lo, hi)
    ensures AllInBox(KMeans(ps, cs, rounds), lo, hi)
  {
    var step := (c: seq<Point>) => Round(ps, c);
    var inv := (c: seq<Point>) => |c| == |cs| && AllInBox(c, lo, hi);
    forall c | inv(c)
      ensures inv(step(c))
    {
      if |ps| > 0 && |c| > 0 {
        UpdateInBox(ps, c, lo, hi);
      }
    }
    ConvergeKeeps(step, AllClose, cs, rounds, inv);
  }

  /** Centroids an update leaves in place are a fixed point: the loop
      stops at once and returns them. */
  lemma KMeansFixed(ps: seq<Point>, cs: seq<Point>, rounds: nat)
    requires Round(ps, cs) == cs
    ensures KMeans(ps, cs, rounds) == cs
  {
    assert AllClose(cs, cs);
  }

  /** What an update does to one cluster: a non-empty cluster moves to the
      mean of exactly its pixels, an empty one to a pixel no nearer its
      closest centroid than any other pixel. */
  lemma UpdateCluster(ps: seq<Point>, cs: seq<Point>, k: nat)
    requires |ps| > 0 && k < |cs|
    ensures var labels := Assign(ps, cs);
      Count(labels, k) > 0 ==> Update(ps, cs)[k] == Mean(Members(ps, labels, k))
    ensures Count(Assign(ps, cs), k) == 0 ==>
      && Update(ps, cs)[k] in ps
      && forall j :: 0 <= j < |ps| ==> NearestDist(ps[j], cs) <= NearestDist(Update(ps, cs)[k], cs)
  {
  }

  // ---- Shaping the result ---------------------------------------------

  /** Cluster k's place in `np.argsort(counts)[::-1]` as one number: by
      count, ties broken by the higher index. */
  function Rank(counts: seq<nat>, k: nat): int
  {
    if k < |counts| then counts[k] * |counts| + k else -1
  }

  function Indices(n: nat): (ks: seq<nat>)
    ensures |ks| == n && forall i :: 0 <= i < n ==> ks[i] == i
  {
    seq(n, i requires 0 <= i < n => i)
  }

  /** `np.argsort(counts)[::-1]`: the cluster indices by descending count,
      the higher index first among equal counts (the order a stable
      ascending sort, reversed, gives). Every cluster appears once. */
  function DominanceOrder(counts: seq<nat>): (order: seq<nat>)
    ensures |order| == |counts|
    ensures multiset(order) == multiset(Indices(|counts|))
    ensures forall a :: 0 <= a < |order| ==> order[a] < |counts|
    ensures forall a, b :: 0 <= a < b < |order| ==> order[a] != order[b]
  {
    var key := (k: nat) => Rank(counts, k) as real;
    Select.SortDownCorrect(Indices(|counts|), key);
    var order := Select.SortDown(Indices(|counts|), key);
    OnceEach(order, |counts|);
    order
  }

  /** A permutation of the indices below n holds each of them once. */
  lemma OnceEach(order: seq<nat>, n: nat)
    requires multiset(order) == multiset(Indices(n))
    ensures forall a :: 0 <= a < |order| ==> order[a] < n
    ensures forall a, b :: 0 <= a < b < |order| ==> order[a] != order[b]
  {
    forall a | 0 <= a < |order|
      ensures order[a] < n
    {
      assert order[a] in multiset(order);
      IndicesOnce(n, order[a]);
    }
    forall a, b | 0 <= a < b < |order|
      ensures order[a] != order[b]
    {
      if order[a] == order[b] {
        TwiceCounted(order, a, b);
        IndicesOnce(n, order[a]);
      }
    }
  }

  lemma {:induction false} IndicesOnce(n: nat, x: nat)
    ensures multiset(Indices(n))[x] == if x < n then 1 else 0
  {
    if n > 0 {
      IndicesOnce(n - 1, x);
      assert Indices(n) == Indices(n - 1) + [n - 1];
    }
  }

  /** An element found at two positions occurs at least twice. */
  lemma TwiceCounted<T>(s: seq<T>, a: nat, b: nat)
    requires a < b < |s| && s[a] == s[b]
    ensures multiset(s)[s[a]] >= 2
  {
    assert s == s[..b] + s[b..];
    assert s[a] in s[..b];
    assert s[b] in s[b..];
  }

  /** Comparing ranks compares counts, then indices. */
  lemma RankOrder(counts: seq<nat>, x: nat, y: nat)
    requires x < |counts| && y < |counts| && Rank(counts, y) < Rank(counts, x)
    ensures counts[y] < counts[x] || (counts[y] == counts[x] && y < x)
  {
    RankCompare(counts[x], counts[y], x, y, |counts|);
  }

  lemma RankCompare(c: nat, d: nat, x: nat, y: nat, n: nat)
    requires x < n && y < n && d * n + y < c * n + x
    ensures d < c || (d == c && y < x)
  {
    if c < d {
      MulStep(c, d - c, n);
    }
  }

  lemma MulStep(c: nat, k: nat, n: nat)
    requires k >= 1
    ensures (c + k) * n >= c * n + n
  {
    assert (c + k) * n == c * n + k * n;
    assert k * n >= n;
  }

  /** Distinct clusters have distinct ranks. */
  lemma RankDistinct(counts: seq<nat>, x: nat, y: nat)
    requires x < |counts| && y < |counts| && x != y
    ensures Rank(counts, x) != Rank(counts, y)
  {
    var n := |counts|;
    var c, d := counts[x], counts[y];
    if c < d {
      MulStep(c, d - c, n);
    } else if d < c {
      MulStep(d, c - d, n);
    }
  }

  /** Along the order counts never increase, and among equal counts the
      indices decrease. */
  lemma DominanceOrderSorted(counts: seq<nat>)
    ensures forall a, b :: 0 <= a < b < |DominanceOrder(counts)| ==>
      var order := DominanceOrder(counts);
      counts[order[b]] < counts[order[a]] || (counts[order[b]] == counts[order[a]] && order[b] < order[a])
  {
    var key := (k: nat) => Rank(counts, k) as real;
    var order := DominanceOrder(counts);
    Select.SortDownCorrect(Indices(|counts|), key);
    forall a, b | 0 <= a < b < |order|
      ensures counts[order[b]] < counts[order[a]] || (counts[order[b]] == counts[order[a]] && order[b] < order[a])
    {
      assert key(order[b]) <= key(order[a]);
      RankDistinct(counts, order[a], order[b]);
      RankOrder(counts, order[a], order[b]);
    }
  }

  /** `tuple(int(c) for c in np.clip(centroid, 0, 255))`, one channel. */
  function ClipChannel(x: real): (c: Channel)
    ensures 0.0 <= x <= 255.0 ==> c == Floor(x)
    ensures x < 0.0 ==> c == 0
    ensures x > 255.0 ==> c == 255
  {
    Trunc(Clamp(x, 0.0, 255.0))
  }

  function ToColour(p: Point): Rgb
  {
    Rgb(ClipChannel(p.r), ClipChannel(p.g), ClipChannel(p.b))
  }

  /** The clusters of `order` that received a pixel, order kept. */
  function KeepNonEmpty(order: seq<nat>, counts: seq<nat>): (kept: seq<nat>)
    requires forall a :: 0 <= a < |order| ==> order[a] < |counts|
    ensures forall j :: 0 <= j < |kept| ==> kept[j] < |counts| && counts[kept[j]] > 0
    ensures forall k :: k in kept <==> k in order && counts[k] > 0
    ensures (forall a, b :: 0 <= a < b < |order| ==> order[a] != order[b]) ==>
      forall a, b :: 0 <= a < b < |kept| ==> kept[a] != kept[b]
  {
    if |order| == 0 then []
    else
      var init := order[..|order| - 1];
      var last := order[|order| - 1];
      assert order == init + [last];
      var prev := KeepNonEmpty(init, counts);
      if counts[last] > 0 then prev + [last] else prev
  }

  /** The (colour, coverage) pairs of the kept clusters, in order. */
  function Entries(cs: seq<Point>, counts: seq<nat>, kept: seq<nat>, total: nat): seq<(Rgb, real)>
    requires |cs| == |counts| && total > 0
    requires forall j :: 0 <= j < |kept| ==> kept[j] < |counts|
  {
    seq(|kept|, j requires 0 <= j < |kept| => (ToColour(cs[kept[j]]), counts[kept[j]] as real / total as real))
  }

  /** The result dict: `result[color] = coverage` over the clusters in
      dominance order, skipping empty ones; a later cluster with the same
      colour overwrites the value in place. */
  function Shape(cs: seq<Point>, counts: seq<nat>, total: nat): Dict.Dict<Rgb, real>
    requires |cs| == |counts| && total > 0
  {
    Dict.FromPairs(Entries(cs, counts, KeepNonEmpty(DominanceOrder(counts), counts), total))
  }

  /** The colours of the clusters that received a pixel are pairwise distinct. */
  predicate DistinctColours(cs: seq<Point>, counts: seq<nat>)
    requires |cs| == |counts|
  {
    forall x, y :: 0 <= x < |cs| && 0 <= y < |cs| && x != y && counts[x] > 0 && counts[y] > 0 ==>
      ToColour(cs[x]) != ToColour(cs[y])
  }

  /** The keys are exactly the colours of the clusters that received a
      pixel. */
  lemma ShapeKeys(cs: seq<Point>, counts: seq<nat>, total: nat, colour: Rgb)
    requires |cs| == |counts| && total > 0
    ensures Dict.HasKey(Shape(cs, counts, total), colour)
      <==> exists k :: 0 <= k < |counts| && counts[k] > 0 && ToColour(cs[k]) == colour
  {
    ShapeKeysSound(cs, counts, total, colour);
    ShapeKeysComplete(cs, counts, total, colour);
  }

  /** Every key comes from a cluster that received a pixel. */
  lemma ShapeKeysSound(cs: seq<Point>, counts: seq<nat>, total: nat, colour: Rgb)
    requires |cs| == |counts| && total > 0
    ensures Dict.HasKey(Shape(cs, counts, total), colour) ==>
      exists k :: 0 <= k < |counts| && counts[k] > 0 && ToColour(cs[k]) == colour
  {
    var kept := KeepNonEmpty(DominanceOrder(counts), counts);
    var es := Entries(cs, counts, kept, total);
    if Dict.HasKey(es, colour) {
      var j :| 0 <= j < |es| && es[j].0 == colour;
      assert counts[kept[j]] > 0 && ToColour(cs[kept[j]]) == colour;
    }
  }

  /** Every cluster that received a pixel gives a key. */
  lemma ShapeKeysComplete(cs: seq<Point>, counts: seq<nat>, total: nat, colour: Rgb)
    requires |cs| == |counts| && total > 0
    ensures (exists k :: 0 <= k < |counts| && counts[k] > 0 && ToColour(cs[k]) == colour) ==>
      Dict.HasKey(Shape(cs, counts, total), colour)
  {
    var order := DominanceOrder(counts);
    var kept := KeepNonEmpty(order, counts);
    var es := Entries(cs, counts, kept, total);
    if exists k :: 0 <= k < |counts| && counts[k] > 0 && ToColour(cs[k]) == colour {
      var k :| 0 <= k < |counts| && counts[k] > 0 && ToColour(cs[k]) == colour;
      assert k in multiset(Indices(|counts|)) by {
        IndicesOnce(|counts|, k);
      }
      assert k in order;
      var j :| 0 <= j < |kept| && kept[j] == k;
      assert es[j].0 == colour;
    }
  }

  lemma {:induction false} TotalAppend(s: seq<nat>, x: nat)
    ensures Total(s + [x]) == Total(s) + x
  {
    if |s| > 0 {
      TotalAppend(s[1..], x);
      assert (s + [x])[1..] == s[1..] + [x];
    }
  }

  /** No single count exceeds the total. */
  lemma {:induction false} TotalBound(s: seq<nat>, k: nat)
    requires k < |s|
    ensures s[k] <= Total(s)
  {
    if k > 0 {
      TotalBound(s[1..], k - 1);
    }
  }

  /** Every coverage is a positive share of at most one. */
  lemma ShapeValues(cs: seq<Point>, counts: seq<nat>, total: nat)
    requires |cs| == |counts| && total > 0 && Total(counts) == total
    ensures forall i :: 0 <= i < |Shape(cs, counts, total)| ==> 0.0 < Shape(cs, counts, total)[i].1 <= 1.0
  {
    var kept := KeepNonEmpty(DominanceOrder(counts), counts);
    var es := Entries(cs, counts, kept, total);
    forall j | 0 <= j < |es|
      ensures 0.0 < es[j].1 <= 1.0
    {
      TotalBound(counts, kept[j]);
      RatioInUnit(counts[kept[j]] as real, total as real);
    }
    Dict.FromPairsValues(es, (v: real) => 0.0 < v <= 1.0);
  }

  // ---- Coverage sums --------------------------------------------------

  /** The counts of the listed clusters added up. */
  function SumOver(counts: seq<nat>, ks: seq<nat>): nat
    requires forall j :: 0 <= j < |ks| ==> ks[j] < |counts|
  {
    if |ks| == 0 then 0 else SumOver(counts, ks[..|ks| - 1]) + counts[ks[|ks| - 1]]
  }

  lemma {:induction false} SumOverConcat(counts: seq<nat>, a: seq<nat>, b: seq<nat>)
    requires forall j :: 0 <= j < |a| ==> a[j] < |counts|
    requires forall j :: 0 <= j < |b| ==> b[j] < |counts|
    ensures SumOver(counts, a + b) == SumOver(counts, a) + SumOver(counts, b)
  {
    if |b| == 0 {
      assert a + b == a;
    } else {
      var init := b[..|b| - 1];
      var ab := a + b;
      SumOverConcat(counts, a, init);
      assert ab[..|ab| - 1] == a + init;
      assert ab[|ab| - 1] == b[|b| - 1];
    }
  }

  /** Taking one element out of the middle of a list. */
  lemma SumOverSplit(counts: seq<nat>, ys: seq<nat>, i: nat)
    requires i < |ys|
    requires forall j :: 0 <= j < |ys| ==> ys[j] < |counts|
    ensures SumOver(counts, ys) == SumOver(counts, ys[..i] + ys[i + 1..]) + counts[ys[i]]
  {
    var left, right := ys[..i], ys[i + 1..];
    assert ys == left + ([ys[i]] + right);
    SumOverConcat(counts, left, [ys[i]] + right);
    SumOverConcat(counts, [ys[i]], right);
    SumOverConcat(counts, left, right);
    assert SumOver(counts, [ys[i]]) == counts[ys[i]] by {
      assert [ys[i]][..0] == [];
    }
  }

  /** Removing the last element of xs and a matching element of ys keeps
      the two lists permutations of each other. */
  lemma RemoveMatching<T>(xs: seq<T>, ys: seq<T>, i: nat)
    requires multiset(xs) == multiset(ys) && |xs| > 0
    requires i < |ys| && ys[i] == xs[|xs| - 1]
    ensures multiset(xs[..|xs| - 1]) == multiset(ys[..i] + ys[i + 1..])
  {
    var init, x := xs[..|xs| - 1], xs[|xs| - 1];
    var left, right := ys[..i], ys[i + 1..];
    assert xs == init + [x];
    assert ys == left + [x] + right;
    var mi, mr := multiset(init), multiset(left + right);
    assert mi + multiset{x} == mr + multiset{x};
    forall e
      ensures mi[e] == mr[e]
    {
      assert (mi + multiset{x})[e] == (mr + multiset{x})[e];
    }
  }

  /** Listing the same clusters in another order gives the same sum. */
  lemma {:induction false} SumOverPerm(counts: seq<nat>, xs: seq<nat>, ys: seq<nat>)
    requires forall j :: 0 <= j < |xs| ==> xs[j] < |counts|
    requires forall j :: 0 <= j < |ys| ==> ys[j] < |counts|
    requires multiset(xs) == multiset(ys)
    ensures SumOver(counts, xs) == SumOver(counts, ys)
    decreases |xs|
  {
    if |xs| == 0 {
      assert |multiset(ys)| == 0;
    } else {
      var init := xs[..|xs| - 1];
      var x := xs[|xs| - 1];
      assert x in multiset(xs);
      var i :| 0 <= i < |ys| && ys[i] == x;
      var rest := ys[..i] + ys[i + 1..];
      RemoveMatching(xs, ys, i);
      assert forall j :: 0 <= j < |rest| ==> rest[j] in ys;
      SumOverPerm(counts, init, rest);
      SumOverSplit(counts, ys, i);
    }
  }

  /** Summing over all indices in order is the total. */
  lemma {:induction false} SumOverIndices(counts: seq<nat>, m: nat)
    requires m <= |counts|
    ensures SumOver(counts, Indices(m)) == Total(counts[..m])
  {
    if m > 0 {
      SumOverIndices(counts, m - 1);
      assert Indices(m)[..m - 1] == Indices(m - 1);
      assert counts[..m] == counts[..m - 1] + [counts[m - 1]];
      TotalAppend(counts[..m - 1], counts[m - 1]);
    }
  }

  /** Dropping the empty clusters does not change the sum. */
  lemma {:induction false} SumOverKept(order: seq<nat>, counts: seq<nat>)
    requires forall a :: 0 <= a < |order| ==> order[a] < |counts|
    ensures SumOver(counts, KeepNonEmpty(order, counts)) == SumOver(counts, order)
  {
    if |order| > 0 {
      var init := order[..|order| - 1];
      SumOverKept(init, counts);
      var prev := KeepNonEmpty(init, counts);
      if counts[order[|order| - 1]] > 0 {
        assert (prev + [order[|order| - 1]])[..|prev|] == prev;
      }
    }
  }

  function ValueSum(es: seq<(Rgb, real)>): real
  {
    if |es| == 0 then 0.0 else ValueSum(es[..|es| - 1]) + es[|es| - 1].1
  }

  lemma DivAdd(a: real, b: real, t: real)
    requires t > 0.0
    ensures a / t + b / t == (a + b) / t
  {
  }

  lemma DivSelf(t: real)
    requires t > 0.0
    ensures t / t == 1.0
  {
  }

  /** The coverages of the entries add up to their counts over the total. */
  lemma {:induction false} EntriesSum(cs: seq<Point>, counts: seq<nat>, kept: seq<nat>, total: nat)
    requires |cs| == |counts| && total > 0
    requires forall j :: 0 <= j < |kept| ==> kept[j] < |counts|
    ensures ValueSum(Entries(cs, counts, kept, total)) == SumOver(counts, kept) as real / total as real
  {
    if |kept| > 0 {
      var init := kept[..|kept| - 1];
      EntriesSum(cs, counts, init, total);
      var es := Entries(cs, counts, kept, total);
      assert es[..|es| - 1] == Entries(cs, counts, init, total);
      DivAdd(SumOver(counts, init) as real, counts[kept[|kept| - 1]] as real, total as real);
    }
  }

  /** When the clusters with pixels have distinct colours, the result has
      one entry per such cluster, in dominance order. */
  lemma ShapeDistinct(cs: seq<Point>, counts: seq<nat>, total: nat)
    requires |cs| == |counts| && total > 0
    requires DistinctColours(cs, counts)
    ensures var kept := KeepNonEmpty(DominanceOrder(counts), counts);
      Shape(cs, counts, total) == Entries(cs, counts, kept, total)
  {
    var order := DominanceOrder(counts);
    var kept := KeepNonEmpty(order, counts);
    var es := Entries(cs, counts, kept, total);
    forall a, b | 0 <= a < b < |es|
      ensures es[a].0 != es[b].0
    {
      assert kept[a] != kept[b];
      assert es[a].0 == ToColour(cs[kept[a]]) && es[b].0 == ToColour(cs[kept[b]]);
    }
    Dict.FromPairsDistinct(es);
  }

  /** Then the coverages add up to exactly 1. */
  lemma CoverageSum(cs: seq<Point>, counts: seq<nat>, total: nat)
    requires |cs| == |counts| && total > 0 && Total(counts) == total
    requires DistinctColours(cs, counts)
    ensures ValueSum(Shape(cs, counts, total)) == 1.0
  {
    var order := DominanceOrder(counts);
    var kept := KeepNonEmpty(order, counts);
    var n := |counts|;
    var es := Entries(cs, counts, kept, total);
    ShapeDistinct(cs, counts, total);
    EntriesSum(cs, counts, kept, total);
    assert ValueSum(Shape(cs, counts, total)) == ValueSum(es);
    DivSelf(total as real);
    assert SumOver(counts, kept) == total by {
      SumOverKept(order, counts);
      SumOverPerm(counts, order, Indices(n));
      SumOverIndices(counts, n);
      assert counts[..n] == counts;
    }
  }

  // ---- extract_colors and get_colors -----------------------------------

  /** `len(np.unique(pixels, axis=0))`. */
  function UniqueCount(ps: seq<Point>): nat
  {
    |set p | p in ps|
  }

  /** The number of clusters: the request capped by the pixel count, and
      by the number of distinct pixels when that check is asked for. */
  function ClusterCount(pixels: seq<Point>, numColors: int, validateUnique: bool): int
  {
    if validateUnique then MinInt(MinInt(numColors, UniqueCount(pixels)), |pixels|)
    else MinInt(numColors, |pixels|)
  }

  /** The pixels clustered: `sampleCount` of them chosen by `pick` when
      there are more, otherwise all. */
  function Sample(pixels: seq<Point>, sampleCount: nat, pick: nat -> nat): (sampled: seq<Point>)
    ensures |pixels| <= sampleCount ==> sampled == pixels
    ensures |pixels| > sampleCount ==> |sampled| == sampleCount
    ensures forall j :: 0 <= j < |sampled| ==> sampled[j] in pixels
  {
    if |pixels| > sampleCount then seq(sampleCount, i requires 0 <= i < sampleCount => pixels[pick(i) % |pixels|])
    else pixels
  }

  /** The initial centroids: n sampled pixels chosen by `seed`. */
  function Seeds(sampled: seq<Point>, n: nat, seed: nat -> nat): (cs: seq<Point>)
    requires |sampled| > 0
    ensures |cs| == n
    ensures forall j :: 0 <= j < n ==> cs[j] in sampled
  {
    seq(n, i requires 0 <= i < n => sampled[seed(i) % |sampled|])
  }

  /** The final centroids and their pixel counts. */
  function Cluster(sampled: seq<Point>, n: nat, rounds: nat, seed: nat -> nat): (res: (seq<Point>, seq<nat>))
    requires |sampled| > 0 && n > 0
    ensures |res.0| == n && |res.1| == n
    ensures Total(res.1) == |sampled|
  {
    var centroids := KMeans(sampled, Seeds(sampled, n, seed), rounds);
    var labels := Assign(sampled, centroids);
    BinCountTotal(labels, n);
    (centroids, BinCount(labels, n))
  }

  /** `extract_colors` on decoded pixels. The random sample and the
      k-means++ seeding are the index choices `pick` and `seed`; every
      exception inside is re-raised as a RuntimeError. */
  function ExtractColors(pixels: seq<Point>, numColors: int, sampleCount: nat, rounds: nat, validateUnique: bool,
                         pick: nat -> nat, seed: nat -> nat): Result<Dict.Dict<Rgb, real>>
  {
    var n := ClusterCount(pixels, numColors, validateUnique);
    if n < 1 then Err(RuntimeError("Error extracting colors: Image must contain at least one color"))
    else
      var sampled := Sample(pixels, sampleCount, pick);
      if |sampled| == 0 then Err(RuntimeError("Error extracting colors: a must be greater than 0 unless no samples are taken"))
      else
        var (centroids, counts) := Cluster(sampled, n, rounds, seed);
        Ok(Shape(centroids, counts, |sampled|))
  }

  /** Extraction fails exactly when no cluster is left to fit or nothing
      is sampled, always with a RuntimeError. */
  lemma ExtractOutcome(pixels: seq<Point>, numColors: int, sampleCount: nat, rounds: nat, validateUnique: bool,
                       pick: nat -> nat, seed: nat -> nat)
    ensures ExtractColors(pixels, numColors, sampleCount, rounds, validateUnique, pick, seed).Ok?
      <==> ClusterCount(pixels, numColors, validateUnique) >= 1 && sampleCount > 0
    ensures ExtractColors(pixels, numColors, sampleCount, rounds, validateUnique, pick, seed).Err? ==>
      ExtractColors(pixels, numColors, sampleCount, rounds, validateUnique, pick, seed).fault.RuntimeError?
  {
  }

  /** The cluster count never exceeds the request or the pixel count,
      and without the distinct-pixel check it is the smaller of the two. */
  lemma ClusterCountBounds(pixels: seq<Point>, numColors: int, validateUnique: bool)
    ensures ClusterCount(pixels, numColors, validateUnique) <= numColors
    ensures ClusterCount(pixels, numColors, validateUnique) <= |pixels|
    ensures !validateUnique ==> ClusterCount(pixels, numColors, validateUnique) == MinInt(numColors, |pixels|)
  {
  }

  /** A produced result has distinct colour keys, at most one per
      cluster, each the clipped colour of a cluster that received a pixel,
      with a coverage in (0, 1]. */
  lemma ExtractShape(pixels: seq<Point>, numColors: int, sampleCount: nat, rounds: nat, validateUnique: bool,
                     pick: nat -> nat, seed: nat -> nat)
    requires ExtractColors(pixels, numColors, sampleCount, rounds, validateUnique, pick, seed).Ok?
    ensures var r := ExtractColors(pixels, numColors, sampleCount, rounds, validateUnique, pick, seed).value;
      && Dict.DistinctKeys(r)
      && |r| <= ClusterCount(pixels, numColors, validateUnique)
      && forall i :: 0 <= i < |r| ==> 0.0 < r[i].1 <= 1.0
  {
    var n := ClusterCount(pixels, numColors, validateUnique);
    var sampled := Sample(pixels, sampleCount, pick);
    var (centroids, counts) := Cluster(sampled, n, rounds, seed);
    ShapeValues(centroids, counts, |sampled|);
    var order := DominanceOrder(counts);
    var kept := KeepNonEmpty(order, counts);
    var es := Entries(centroids, counts, kept, |sampled|);
    assert |kept| <= n by {
      KeptAtMost(order, counts);
    }
    FromPairsAtMost(es);
  }

  lemma {:induction false} KeptAtMost(order: seq<nat>, counts: seq<nat>)
    requires forall a :: 0 <= a < |order| ==> order[a] < |counts|
    ensures |KeepNonEmpty(order, counts)| <= |order|
  {
    if |order| > 0 {
      KeptAtMost(order[..|order| - 1], counts);
    }
  }

  lemma {:induction false} FromPairsAtMost<K(!new), V>(ps: seq<(K, V)>)
    ensures |Dict.FromPairs(ps)| <= |ps|
  {
    if |ps| > 0 {
      FromPairsAtMost(ps[..|ps| - 1]);
    }
  }

  /** With pixels and no two clusters sharing a clipped colour, the
      coverages add up to 1. */
  lemma ExtractCoverageSum(pixels: seq<Point>, numColors: int, sampleCount: nat, rounds: nat, validateUnique: bool,
                           pick: nat -> nat, seed: nat -> nat)
    requires ExtractColors(pixels, numColors, sampleCount, rounds, validateUnique, pick, seed).Ok?
    requires var sampled := Sample(pixels, sampleCount, pick);
      var res := Cluster(sampled, ClusterCount(pixels, numColors, validateUnique), rounds, seed);
      DistinctColours(res.0, res.1)
    ensures ValueSum(ExtractColors(pixels, numColors, sampleCount, rounds, validateUnique, pick, seed).value) == 1.0
  {
    var sampled := Sample(pixels, sampleCount, pick);
    var res := Cluster(sampled, ClusterCount(pixels, numColors, validateUnique), rounds, seed);
    CoverageSum(res.0, res.1, |sampled|);
  }

  /** Pixels inside the channel range keep every centroid there, so the
      clipping never changes a channel and each key is the centroid's
      channels rounded down. */
  lemma ClusterInRange(sampled: seq<Point>, n: nat, rounds: nat, seed: nat -> nat)
    requires |sampled| > 0 && n > 0
    requires AllInBox(sampled, 0.0, 255.0)
    ensures var cs := Cluster(sampled, n, rounds, seed).0;
      && AllInBox(cs, 0.0, 255.0)
      && forall k :: 0 <= k < n ==>
           ToColour(cs[k]).r == Floor(cs[k].r) && ToColour(cs[k]).g == Floor(cs[k].g) && ToColour(cs[k]).b == Floor(cs[k].b)
  {
    var initial := Seeds(sampled, n, seed);
    assert AllInBox(initial, 0.0, 255.0) by {
      forall j | 0 <= j < n ensures InBox(initial[j], 0.0, 255.0) {
        var i :| 0 <= i < |sampled| && sampled[i] == initial[j];
      }
    }
    KMeansInBox(sampled, initial, rounds, 0.0, 255.0);
  }

  /** `get_colors`: the preset's settings, then extraction of the pixels
      `decode` yields for the preset's thumbnail bound, without the
      distinct-pixel check. */
  function GetColors(preset: string, decode: (nat, nat) -> seq<Point>, numColors: int,
                     pick: nat -> nat, seed: nat -> nat): Result<Dict.Dict<Rgb, real>>
  {
    var s :- PresetSettings(preset);
    ExtractColors(decode(s.resizeWidth, s.resizeHeight), numColors, s.sampleCount, s.iterations, false, pick, seed)
  }

  /** An unknown preset is a ValueError raised before any extraction; with
      a known one the call fails only when there are no pixels or no
      colours are asked for. */
  lemma GetColorsOutcome(preset: string, decode: (nat, nat) -> seq<Point>, numColors: int,
                         pick: nat -> nat, seed: nat -> nat)
    ensures PresetSettings(preset).Err? ==> GetColors(preset, decode, numColors, pick, seed) == Err(PresetSettings(preset).fault)
    ensures PresetSettings(preset).Ok? ==>
      var s := PresetSettings(preset).value;
      var pixels := decode(s.resizeWidth, s.resizeHeight);
      GetColors(preset, decode, numColors, pick, seed).Ok? <==> numColors >= 1 && |pixels| >= 1
  {
    var r := PresetSettings(preset);
    if r.Ok? {
      var s := r.value;
      assert s.sampleCount > 0 by {
        PresetAccepted(preset);
      }
      assert GetColors(preset, decode, numColors, pick, seed)
          == ExtractColors(decode(s.resizeWidth, s.resizeHeight), numColors, s.sampleCount, s.iterations, false, pick, seed);
      ExtractOutcome(decode(s.resizeWidth, s.resizeHeight), numColors, s.sampleCount, s.iterations, false, pick, seed);
    } else {
      assert GetColors(preset, decode, numColors, pick, seed) == Err(r.fault);
    }
  }
}
