/**
 Producers of summary statistics and the strict consumers that accept them, in
 exact arithmetic.
 */
module Statistics {
  import opened Prelude

  // ----- Samples -----

  predicate Sorted(xs: seq<real>) {
    forall i, j | 0 <= i <= j < |xs| :: xs[i] <= xs[j]
  }

  function Insert(x: real, xs: seq<real>): seq<real> {
    if xs == [] || x <= xs[0] then [x] + xs else [xs[0]] + Insert(x, xs[1..])
  }

  function Sort(xs: seq<real>): seq<real> {
    if xs == [] then [] else Insert(Last(xs), Sort(DropLast(xs)))
  }

  lemma {:induction false} InsertPermutes(x: real, xs: seq<real>)
    ensures multiset(Insert(x, xs)) == multiset(xs) + multiset{x}
  {
    if xs != [] && xs[0] < x {
      InsertPermutes(x, xs[1..]);
      assert xs == [xs[0]] + xs[1..];
    }
  }

  lemma {:induction false} InsertAbove(x: real, xs: seq<real>, lo: real)
    requires lo <= x && forall i | 0 <= i < |xs| :: lo <= xs[i]
    ensures forall i | 0 <= i < |Insert(x, xs)| :: lo <= Insert(x, xs)[i]
  {
    if xs != [] && xs[0] < x {
      InsertAbove(x, xs[1..], lo);
    }
  }

  lemma {:induction false} InsertSorted(x: real, xs: seq<real>)
    requires Sorted(xs)
    ensures Sorted(Insert(x, xs))
  {
    if xs != [] && xs[0] < x {
      InsertSorted(x, xs[1..]);
      InsertAbove(x, xs[1..], xs[0]);
    }
  }

  lemma {:induction false} SortFacts(xs: seq<real>)
    ensures Sorted(Sort(xs)) && multiset(Sort(xs)) == multiset(xs) && |Sort(xs)| == |xs|
  {
    if xs != [] {
      SortFacts(DropLast(xs));
      InsertSorted(Last(xs), Sort(DropLast(xs)));
      InsertPermutes(Last(xs), Sort(DropLast(xs)));
      assert xs == DropLast(xs) + [Last(xs)];
      assert |multiset(Sort(xs))| == |multiset(xs)|;
    }
  }

  lemma {:induction false} SumAppend(a: seq<real>, b: seq<real>)
    ensures Sum(a + b) == Sum(a) + Sum(b)
    decreases |b|
  {
    if b == [] {
      assert a + b == a;
    } else {
      SumAppend(a, DropLast(b));
      assert DropLast(a + b) == a + DropLast(b);
    }
  }

  lemma SumCons(x: real, xs: seq<real>)
    ensures Sum([x] + xs) == x + Sum(xs)
  {
    SumAppend([x], xs);
    assert DropLast([x]) == [];
  }

  lemma {:induction false} SumInsert(x: real, xs: seq<real>)
    ensures Sum(Insert(x, xs)) == x + Sum(xs)
  {
    SumCons(x, xs);
    if xs != [] && xs[0] < x {
      SumInsert(x, xs[1..]);
      SumCons(xs[0], Insert(x, xs[1..]));
      SumCons(xs[0], xs[1..]);
      assert xs == [xs[0]] + xs[1..];
    }
  }

  /** Sorting does not change the sum. */
  lemma {:induction false} SumSort(xs: seq<real>)
    ensures Sum(Sort(xs)) == Sum(xs)
  {
    if xs != [] {
      SumSort(DropLast(xs));
      SumInsert(Last(xs), Sort(DropLast(xs)));
    }
  }

  datatype Stats = Stats(n: nat, mean: real, median: real, p95: real, min: real, max: real)

  function Mean(xs: seq<real>): real
    requires xs != []
  {
    Sum(xs) / |xs| as real
  }

  function Median(xs: seq<real>): real
    requires xs != []
  {
    var n := |xs|;
    if n % 2 == 1 then xs[n / 2] else (xs[n / 2 - 1] + xs[n / 2]) / 2.0
  }

  /** Interpolation at rank 0.95 (n - 1). */
  function P95(xs: seq<real>): real
    requires xs != []
  {
    var rank := (|xs| - 1) as real * 0.95;
    var lower := 19 * (|xs| - 1) / 20;
    var upper := if lower + 1 < |xs| then lower + 1 else |xs| - 1;
    xs[lower] + (xs[upper] - xs[lower]) * (rank - lower as real)
  }

  function Summarize(values: seq<real>): Stats
    requires values != []
  {
    SortFacts(values);
    var xs := Sort(values);
    Stats(|xs|, Mean(xs), Median(xs), P95(xs), xs[0], Last(xs))
  }

  lemma {:induction false} SumBounds(xs: seq<real>, lo: real, hi: real)
    requires forall i | 0 <= i < |xs| :: lo <= xs[i] <= hi
    ensures lo * |xs| as real <= Sum(xs) <= hi * |xs| as real
  {
    if xs != [] {
      SumBounds(DropLast(xs), lo, hi);
      assert |xs| as real == (|xs| - 1) as real + 1.0;
      assert lo * |xs| as real == lo * (|xs| - 1) as real + lo;
      assert hi * |xs| as real == hi * (|xs| - 1) as real + hi;
    }
  }

  lemma MeanBounds(xs: seq<real>, lo: real, hi: real)
    requires xs != [] && forall i | 0 <= i < |xs| :: lo <= xs[i] <= hi
    ensures lo <= Mean(xs) <= hi
  {
    SumBounds(xs, lo, hi);
    Quotient(Sum(xs), |xs| as real, lo, hi);
  }

  lemma Quotient(x: real, n: real, lo: real, hi: real)
    requires n > 0.0 && lo * n <= x <= hi * n
    ensures lo <= x / n <= hi
  {
    assert (x / n) * n == x;
  }

  /** The rank lies between two neighbouring positions. */
  lemma RankBetween(n: nat)
    requires n > 0
    ensures var lower := 19 * (n - 1) / 20;
            0 <= lower < n && 0.0 <= (n - 1) as real * 0.95 - lower as real < 1.0
  {
    var rank, lower := (n - 1) as real * 0.95, 19 * (n - 1) / 20;
    assert 20.0 * rank == (19 * (n - 1)) as real;
    assert 20 * lower <= 19 * (n - 1) < 20 * lower + 20;
    assert (20 * lower) as real <= 20.0 * rank < (20 * lower + 20) as real;
  }

  /** The interpolated quantile lies between its two neighbours. */
  lemma P95Between(xs: seq<real>)
    requires xs != [] && Sorted(xs)
    ensures var lower := 19 * (|xs| - 1) / 20;
            var upper := if lower + 1 < |xs| then lower + 1 else |xs| - 1;
            0 <= lower <= upper < |xs| && xs[lower] <= P95(xs) <= xs[upper]
  {
    RankBetween(|xs|);
    var lower := 19 * (|xs| - 1) / 20;
    var upper := if lower + 1 < |xs| then lower + 1 else |xs| - 1;
    var w := (|xs| - 1) as real * 0.95 - lower as real;
    assert P95(xs) == xs[lower] + (xs[upper] - xs[lower]) * w;
    Weighted(xs[lower], xs[upper], w);
  }

  /** In a sample of two its weight is 0.95. */
  lemma P95OfTwo(xs: seq<real>)
    requires |xs| == 2
    ensures P95(xs) == xs[0] + (xs[1] - xs[0]) * 0.95
  {
    assert 19 * (|xs| - 1) / 20 == 0;
    assert (|xs| - 1) as real * 0.95 - 0 as real == 0.95;
  }

  lemma Product(x: real, y: real)
    requires 0.0 <= x && 0.0 <= y
    ensures 0.0 <= x * y
  {
  }

  lemma Weighted(a: real, b: real, w: real)
    requires a <= b && 0.0 <= w <= 1.0
    ensures a <= a + (b - a) * w <= b
  {
    Product(b - a, w);
    Product(b - a, 1.0 - w);
    assert (b - a) * w + (b - a) * (1.0 - w) == b - a;
  }

  lemma MedianBelowP95(xs: seq<real>)
    requires xs != [] && Sorted(xs)
    ensures xs[0] <= Median(xs) <= P95(xs) <= Last(xs)
  {
    P95Between(xs);
    var n := |xs|;
    if n == 2 {
      P95OfTwo(xs);
    } else if n > 2 {
      assert n / 2 <= 19 * (n - 1) / 20;
      assert Median(xs) <= xs[n / 2] <= xs[19 * (n - 1) / 20];
    }
  }

  /** The median lies midway between the two middle values, which coincide in
      a sample of odd size. */
  lemma MedianIsMiddle(xs: seq<real>)
    requires xs != []
    ensures 2.0 * Median(xs) == xs[(|xs| - 1) / 2] + xs[|xs| / 2]
  {
    var n := |xs|;
    if n % 2 == 1 {
      assert (n - 1) / 2 == n / 2;
    } else {
      assert (n - 1) / 2 == n / 2 - 1;
    }
  }

  /** On evenly spaced samples the quantile is exact: 95 % of the way along. */
  lemma P95OfEvenlySpaced(xs: seq<real>, first: real, gap: real)
    requires xs != [] && forall i | 0 <= i < |xs| :: xs[i] == first + gap * i as real
    ensures P95(xs) == first + gap * ((|xs| - 1) as real * 0.95)
  {
    RankBetween(|xs|);
    var n, lower := |xs|, 19 * (|xs| - 1) / 20;
    var upper := if lower + 1 < n then lower + 1 else n - 1;
    var w := (n - 1) as real * 0.95 - lower as real;
    assert P95(xs) == xs[lower] + (xs[upper] - xs[lower]) * w;
    if lower + 1 < n {
      Spaced(first, gap, lower as real, w);
    } else {
      assert lower == n - 1 == 0;
    }
  }

  lemma Spaced(first: real, gap: real, lower: real, w: real)
    ensures (first + gap * lower) + ((first + gap * (lower + 1.0)) - (first + gap * lower)) * w
            == first + gap * (lower + w)
  {
    assert gap * (lower + 1.0) == gap * lower + gap;
    assert gap * (lower + w) == gap * lower + gap * w;
  }

  /** What a consumer of timing statistics insists on: the values are positive
      and in their natural order. */
  predicate TimingConsistent(s: Stats) {
    && s.n > 0
    && s.mean > 0.0 && s.median > 0.0 && s.p95 > 0.0 && s.min > 0.0 && s.max > 0.0
    && s.min <= s.mean <= s.max && s.min <= s.median <= s.p95 <= s.max
  }

  /** The mean of a summary is the sum of the sample over its size. */
  lemma SummaryMean(values: seq<real>)
    requires values != []
    ensures Summarize(values).mean == Sum(values) / |values| as real
  {
    SortFacts(values);
    SumSort(values);
  }

  /** The quantiles of a summary are read off the sample in order: the median
      midway between the two middle values, and the 95th percentile between its
      two neighbours, and exactly so if the sample is evenly spaced. */
  lemma SummaryQuantiles(values: seq<real>) returns (xs: seq<real>)
    requires values != []
    ensures Sorted(xs) && multiset(xs) == multiset(values) && |xs| == |values|
    ensures 2.0 * Summarize(values).median == xs[(|xs| - 1) / 2] + xs[|xs| / 2]
    ensures var lower := 19 * (|xs| - 1) / 20;
            && 0 <= lower < |xs| && xs[lower] <= Summarize(values).p95
            && Summarize(values).p95 <= xs[if lower + 1 < |xs| then lower + 1 else |xs| - 1]
    ensures forall gap: real | EvenlySpaced(xs, gap) ::
              Summarize(values).p95 == xs[0] + gap * ((|xs| - 1) as real * 0.95)
  {
    SortFacts(values);
    xs := Sort(values);
    MedianIsMiddle(xs);
    P95Between(xs);
    forall gap: real | EvenlySpaced(xs, gap)
      ensures P95(xs) == xs[0] + gap * ((|xs| - 1) as real * 0.95)
    {
      P95OfEvenlySpaced(xs, xs[0], gap);
    }
  }

  ghost predicate EvenlySpaced(xs: seq<real>, gap: real) {
    xs != [] && forall i | 0 <= i < |xs| :: xs[i] == xs[0] + gap * i as real
  }

  /** Every nonempty sample's summary is in order, with the sample's own
      extremes, and it passes its consumer if and only if every measurement in
      the sample is positive. */
  lemma SummaryPasses(values: seq<real>)
    requires values != []
    ensures var s := Summarize(values);
            && s.n == |values|
            && s.min <= s.mean <= s.max && s.min <= s.median <= s.p95 <= s.max
            && s.min in values && s.max in values
            && (forall v | v in values :: s.min <= v <= s.max)
    ensures TimingConsistent(Summarize(values)) <==> forall v | v in values :: v > 0.0
  {
    SortFacts(values);
    var xs := Sort(values);
    MedianBelowP95(xs);
    MeanBounds(xs, xs[0], Last(xs));
    assert xs[0] in multiset(values) && Last(xs) in multiset(values);
    forall v | v in values
      ensures xs[0] <= v <= Last(xs)
    {
      assert v in multiset(xs);
    }
  }

  // ----- Histograms -----

  /** Bin i of the edges holds v; the last bin includes its upper edge. */
  predicate InBin(edges: seq<real>, i: nat, v: real)
    requires i + 1 < |edges|
  {
    (edges[i] <= v < edges[i + 1]) || (i == |edges| - 2 && v == edges[i + 1])
  }

  predicate Ascending(edges: seq<real>) {
    |edges| >= 2 && forall i, j | 0 <= i < j < |edges| :: edges[i] < edges[j]
  }

  /** How many of the values lie in bin i. */
  function Count(values: seq<real>, edges: seq<real>, i: nat): nat
    requires i + 1 < |edges|
  {
    if values == [] then 0
    else Count(DropLast(values), edges, i) + if InBin(edges, i, Last(values)) then 1 else 0
  }

  function Total(counts: seq<nat>): nat {
    if counts == [] then 0 else Total(DropLast(counts)) + Last(counts)
  }

  function Above(values: seq<real>, edge: real): nat {
    if values == [] then 0 else Above(DropLast(values), edge) + if Last(values) > edge then 1 else 0
  }

  function Below(values: seq<real>, edge: real): nat {
    if values == [] then 0 else Below(DropLast(values), edge) + if Last(values) < edge then 1 else 0
  }

  lemma {:induction false} TotalUpdate(counts: seq<nat>, i: nat)
    requires i < |counts|
    ensures Total(counts[i := counts[i] + 1]) == Total(counts) + 1
  {
    var more := counts[i := counts[i] + 1];
    if i < |counts| - 1 {
      TotalUpdate(DropLast(counts), i);
      assert DropLast(more) == DropLast(counts)[i := counts[i] + 1];
    } else {
      assert DropLast(more) == DropLast(counts);
    }
  }

  lemma {:induction false} TotalZeros(counts: seq<nat>)
    requires forall i | 0 <= i < |counts| :: counts[i] == 0
    ensures Total(counts) == 0
  {
    if counts != [] {
      TotalZeros(DropLast(counts));
    }
  }

  /** A value from the first edge to the last lies in exactly one bin. */
  lemma OneBin(edges: seq<real>, v: real, i: nat, j: nat)
    requires Ascending(edges) && i + 1 < |edges| && j + 1 < |edges| && InBin(edges, i, v) && InBin(edges, j, v)
    ensures i == j
  {
  }

  /** A value on an inner edge counts in the bin above it, one on the last edge
      in the last bin. */
  lemma EdgeGoesUp(edges: seq<real>, k: nat)
    requires Ascending(edges) && k < |edges|
    ensures forall i: nat | i + 1 < |edges| ::
              InBin(edges, i, edges[k]) <==> i == if k == |edges| - 1 then k - 1 else k
  {
  }

  /** Values that no bin takes lie beyond the last edge or below the first. */
  lemma {:induction false} SomeBin(edges: seq<real>, v: real, k: nat)
    requires Ascending(edges) && k + 1 < |edges| && edges[0] <= v
    requires forall i: nat | i <= k :: !InBin(edges, i, v)
    ensures edges[k + 1] <= v && (k == |edges| - 2 ==> edges[k + 1] < v)
  {
    if k > 0 {
      SomeBin(edges, v, k - 1);
    }
    assert !InBin(edges, k, v);
  }

  /** The counts after k values: each bin has its own, and every value that no
      bin counts lies above the last edge or below the first. */
  ghost predicate Tallied(counts: seq<nat>, values: seq<real>, k: nat, edges: seq<real>)
    requires |edges| >= 2 && k <= |values|
  {
    && |counts| == |edges| - 1
    && (forall i | 0 <= i < |counts| :: counts[i] == Count(values[..k], edges, i))
    && Total(counts) + Above(values[..k], Last(edges)) + Below(values[..k], edges[0]) == k
  }

  /** A value counted in its bin is counted in no other. */
  lemma TallyIn(counts: seq<nat>, values: seq<real>, k: nat, edges: seq<real>, i: nat, more: seq<nat>)
    requires Ascending(edges) && k < |values| && Tallied(counts, values, k, edges)
    requires i < |counts| && InBin(edges, i, values[k]) && more == counts[i := counts[i] + 1]
    ensures Tallied(more, values, k + 1, edges)
  {
    var v := values[k];
    assert DropLast(values[..k + 1]) == values[..k];
    TotalUpdate(counts, i);
    assert edges[0] <= edges[i] <= v <= edges[i + 1] <= Last(edges);
    forall j | 0 <= j < |more|
      ensures more[j] == Count(values[..k + 1], edges, j)
    {
      if InBin(edges, j, v) {
        OneBin(edges, v, i, j);
      }
    }
  }

  lemma TallyOut(counts: seq<nat>, values: seq<real>, k: nat, edges: seq<real>)
    requires Ascending(edges) && k < |values| && Tallied(counts, values, k, edges)
    requires forall i: nat | i < |counts| :: !InBin(edges, i, values[k])
    ensures Tallied(counts, values, k + 1, edges)
  {
    assert DropLast(values[..k + 1]) == values[..k];
    if edges[0] <= values[k] {
      SomeBin(edges, values[k], |edges| - 2);
    }
  }

  /** The counting loops fill each bin with its own values; a value that no bin
      counts lies above the last edge or below the first. */
  method Histogram(values: seq<real>, edges: seq<real>) returns (counts: seq<nat>)
    requires Ascending(edges)
    ensures |counts| == |edges| - 1
    ensures forall i | 0 <= i < |counts| :: counts[i] == Count(values, edges, i)
    ensures Total(counts) + Above(values, Last(edges)) + Below(values, edges[0]) == |values|
  {
    counts := seq(|edges| - 1, _ => 0);
    TotalZeros(counts);
    var k := 0;
    while k < |values|
      invariant 0 <= k <= |values| && Tallied(counts, values, k, edges)
    {
      var i := 0;
      while i < |counts| && !InBin(edges, i, values[k])
        invariant 0 <= i <= |counts|
        invariant forall j: nat | j < i :: !InBin(edges, j, values[k])
      {
        i := i + 1;
      }
      if i < |counts| {
        TallyIn(counts, values, k, edges, i, counts[i := counts[i] + 1]);
        counts := counts[i := counts[i] + 1];
      } else {
        TallyOut(counts, values, k, edges);
      }
      k := k + 1;
    }
    assert values[..|values|] == values;
  }

  function Clamp(values: seq<real>, lo: real): (r: seq<real>)
    ensures |r| == |values| && forall i | 0 <= i < |r| :: r[i] == if values[i] < lo then lo else values[i]
  {
    if values == [] then [] else Clamp(DropLast(values), lo) + [if Last(values) < lo then lo else Last(values)]
  }

  lemma {:induction false} AboveClamp(values: seq<real>, lo: real, edge: real)
    requires lo <= edge
    ensures Above(Clamp(values, lo), edge) == Above(values, edge)
  {
    if values != [] {
      AboveClamp(DropLast(values), lo, edge);
      assert DropLast(Clamp(values, lo)) == Clamp(DropLast(values), lo);
    }
  }

  lemma {:induction false} NothingBelow(values: seq<real>, edge: real)
    requires forall i | 0 <= i < |values| :: edge <= values[i]
    ensures Below(values, edge) == 0
  {
    if values != [] {
      NothingBelow(DropLast(values), edge);
    }
  }

  /** What the consumer of a histogram checks against the population. */
  predicate HistogramCloses(counts: seq<nat>, overflow: nat, events: nat) {
    events == Total(counts) + overflow
  }

  /** The published histogram: values are clamped to the first edge before they
      are counted, and the overflow is counted on the values themselves. */
  method CheckpointHistogram(values: seq<real>, edges: seq<real>) returns (counts: seq<nat>, overflow: nat)
    requires Ascending(edges)
    ensures HistogramCloses(counts, overflow, |values|)
    ensures overflow == Above(values, Last(edges))
    ensures |counts| == |edges| - 1
    ensures forall i | 0 <= i < |counts| :: counts[i] == Count(Clamp(values, edges[0]), edges, i)
  {
    counts := Histogram(Clamp(values, edges[0]), edges);
    overflow := Above(values, Last(edges));
    AboveClamp(values, edges[0], Last(edges));
    NothingBelow(Clamp(values, edges[0]), edges[0]);
  }

  // ----- Occupation -----

  function MaxReal(a: real, b: real): real {
    if a < b then b else a
  }

  /** The model's ratio, computed on scaled durations. */
  function Occupation(s: real, g: real, t: real): real
    requires s >= 0.0 && g >= 0.0 && t > 0.0
  {
    var scale := MaxReal(s, MaxReal(g, t));
    ScaledSum(s, g, t, scale);
    (g / scale + t / scale) / (s / scale + g / scale + t / scale)
  }

  lemma ScaledSum(s: real, g: real, t: real, scale: real)
    requires scale > 0.0 && s >= 0.0 && g >= 0.0 && t > 0.0
    ensures g / scale + t / scale == (g + t) / scale
    ensures s / scale + g / scale + t / scale == (s + g + t) / scale
    ensures (s + g + t) / scale > 0.0
  {
    Positive(s + g + t, scale);
  }

  lemma Positive(x: real, y: real)
    requires x > 0.0 && y > 0.0
    ensures x / y > 0.0
  {
    assert (x / y) * y == x;
  }

  /** Scaling changes nothing: the ratio is (g + t) / (s + g + t), and lies in (0, 1]. */
  lemma OccupationIsRatio(s: real, g: real, t: real)
    requires s >= 0.0 && g >= 0.0 && t > 0.0
    ensures Occupation(s, g, t) == (g + t) / (s + g + t)
    ensures 0.0 < Occupation(s, g, t) <= 1.0
  {
    var scale := MaxReal(s, MaxReal(g, t));
    var x, y := g + t, s + g + t;
    ScaledSum(s, g, t, scale);
    Rescale(x, y, scale);
    Positive(x, y);
    Quotient(x, y, 0.0, 1.0);
  }

  lemma Rescale(x: real, y: real, scale: real)
    requires y > 0.0 && scale > 0.0
    ensures (y / scale) > 0.0 && (x / scale) / (y / scale) == x / y
  {
    Positive(y, scale);
    var a, b := x / scale, y / scale;
    assert a * scale == x && b * scale == y;
    var q := a / b;
    assert q * b == a;
    assert q * y == x by {
      assert q * y == q * (b * scale) == (q * b) * scale;
    }
  }

  // ----- The occupation grid -----

  type Point = (string, nat)

  datatype Timing = Timing(gen: real, train: real)

  datatype Inputs = Inputs(
    backends: seq<string>, batches: seq<nat>, gpu: map<nat, Timing>,
    sandbox: map<Point, real>, unavailable: seq<Point>)

  /** What the producer demands of its inputs. */
  predicate InputsOk(x: Inputs) {
    && NoRepeats(x.backends) && NoRepeats(x.batches) && NoRepeats(x.unavailable)
    && (forall n | n in x.gpu :: x.gpu[n].gen >= 0.0 && x.gpu[n].train > 0.0)
    && (forall p | p in x.sandbox :: x.sandbox[p] >= 0.0 && p.0 in x.backends)
    && (forall p | p in x.unavailable :: p.0 in x.backends && p.1 in x.batches && p !in x.sandbox)
    && (forall n | n in x.batches :: n in x.gpu)
    && (forall b, n | b in x.backends && n in x.batches :: (b, n) in x.sandbox || (b, n) in x.unavailable)
  }

  datatype Row = Row(point: Point, occupation: real, percent: real, staleness: real)

  function RowOf(x: Inputs, p: Point): Row
    requires InputsOk(x) && p in x.sandbox && p.1 in x.gpu
  {
    var s, g, t := x.sandbox[p], x.gpu[p.1].gen, x.gpu[p.1].train;
    var o := Occupation(s, g, t);
    Row(p, o, 100.0 * o, s / t + g / t)
  }

  /** What a row says: training and generation as a share of everything, in
      percent too, and how many training times the other two phases last. */
  ghost predicate RowRight(x: Inputs, r: Row) {
    && r.point in x.sandbox && r.point.1 in x.gpu
    && var sandbox, gen, train := x.sandbox[r.point], x.gpu[r.point.1].gen, x.gpu[r.point.1].train;
       && r.occupation * (sandbox + gen + train) == gen + train
       && r.percent == 100.0 * r.occupation
       && r.staleness * train == sandbox + gen
  }

  lemma RowIsRight(x: Inputs, p: Point)
    requires InputsOk(x) && p in x.sandbox && p.1 in x.gpu
    ensures RowRight(x, RowOf(x, p))
  {
    var s, g, t := x.sandbox[p], x.gpu[p.1].gen, x.gpu[p.1].train;
    OccupationShare(s, g, t);
    StalenessShare(s, g, t);
  }

  lemma OccupationShare(s: real, g: real, t: real)
    requires s >= 0.0 && g >= 0.0 && t > 0.0
    ensures Occupation(s, g, t) * (s + g + t) == g + t
  {
    OccupationIsRatio(s, g, t);
    TimesQuotient(g + t, s + g + t);
  }

  lemma StalenessShare(s: real, g: real, t: real)
    requires t > 0.0
    ensures (s / t + g / t) * t == s + g
  {
    TimesQuotient(s, t);
    TimesQuotient(g, t);
    assert (s / t + g / t) * t == (s / t) * t + (g / t) * t;
  }

  lemma TimesQuotient(x: real, y: real)
    requires y > 0.0
    ensures (x / y) * y == x
  {
  }

  /** Rows of measured points for these backends and batches, each point once. */
  ghost predicate RowsFor(x: Inputs, rows: seq<Row>, backends: seq<string>, batches: seq<nat>)
    requires InputsOk(x)
  {
    && (forall r | r in rows ::
          && r.point in x.sandbox && r.point.0 in backends && r.point.1 in batches
          && r.point.1 in x.gpu && r == RowOf(x, r.point))
    && (forall b, n | b in backends && n in batches && n in x.gpu && (b, n) in x.sandbox :: RowOf(x, (b, n)) in rows)
    && (forall i, j | 0 <= i < j < |rows| :: rows[i].point != rows[j].point)
  }

  method RowsOfBackend(x: Inputs, backend: string) returns (rows: seq<Row>)
    requires InputsOk(x) && backend in x.backends
    ensures RowsFor(x, rows, [backend], x.batches)
  {
    rows := [];
    for j := 0 to |x.batches|
      invariant RowsFor(x, rows, [backend], x.batches[..j])
    {
      var n := x.batches[j];
      assert x.batches[..j + 1] == x.batches[..j] + [n];
      assert n !in x.batches[..j];
      if (backend, n) in x.sandbox {
        assert n in x.batches;
        rows := rows + [RowOf(x, (backend, n))];
      }
    }
    assert x.batches[..|x.batches|] == x.batches;
  }

  lemma RowsJoin(x: Inputs, rows: seq<Row>, more: seq<Row>, backends: seq<string>, backend: string)
    requires InputsOk(x) && backend !in backends
    requires RowsFor(x, rows, backends, x.batches) && RowsFor(x, more, [backend], x.batches)
    ensures RowsFor(x, rows + more, backends + [backend], x.batches)
  {
    var all := rows + more;
    forall i, j | 0 <= i < j < |all|
      ensures all[i].point != all[j].point
    {
      if i < |rows| <= j {
        assert all[i] in rows && all[j] in more;
      }
    }
  }

  /** A row for every measured point of the grid, and for no other. */
  method CalculateOccupation(x: Inputs) returns (rows: seq<Row>)
    requires InputsOk(x)
    ensures RowsFor(x, rows, x.backends, x.batches)
    ensures forall r | r in rows :: RowRight(x, r)
  {
    rows := [];
    for i := 0 to |x.backends|
      invariant RowsFor(x, rows, x.backends[..i], x.batches)
    {
      var backend := x.backends[i];
      var more := RowsOfBackend(x, backend);
      assert x.backends[..i + 1] == x.backends[..i] + [backend];
      RowsJoin(x, rows, more, x.backends[..i], backend);
      rows := rows + more;
    }
    assert x.backends[..|x.backends|] == x.backends;
    forall r | r in rows
      ensures RowRight(x, r)
    {
      RowIsRight(x, r.point);
    }
  }

  /** What the consumer of an occupation model insists on. */
  ghost predicate GridAccepted(x: Inputs, rows: seq<Row>) {
    && (forall r | r in rows :: r.point.0 in x.backends && r.point.1 in x.batches)
    && (forall i, j | 0 <= i < j < |rows| :: rows[i].point != rows[j].point)
    && (forall r | r in rows ::
          && 0.0 <= r.occupation <= 1.0 && 0.0 <= r.percent <= 100.0
          && r.percent == 100.0 * r.occupation && r.staleness >= 0.0)
    && NoRepeats(x.unavailable)
    && (forall r | r in rows :: r.point !in x.unavailable)
    && (forall b, n | b in x.backends && n in x.batches ::
          (b, n) in x.unavailable || exists r :: r in rows && r.point == (b, n))
  }

  /** Every grid point is covered exactly once, as a row or as unavailable, and
      every row carries a ratio the consumer accepts. */
  lemma OccupationPasses(x: Inputs, rows: seq<Row>)
    requires InputsOk(x)
    requires RowsFor(x, rows, x.backends, x.batches)
    ensures GridAccepted(x, rows)
  {
    forall r | r in rows
      ensures 0.0 < r.occupation <= 1.0 && r.staleness >= 0.0
    {
      var s, g, t := x.sandbox[r.point], x.gpu[r.point.1].gen, x.gpu[r.point.1].train;
      OccupationIsRatio(s, g, t);
      NotNegative(s, t);
      NotNegative(g, t);
    }
    forall b, n | b in x.backends && n in x.batches
      ensures (b, n) in x.unavailable || exists r :: r in rows && r.point == (b, n)
    {
      if (b, n) in x.sandbox {
        assert RowOf(x, (b, n)) in rows;
      }
    }
  }

  lemma NotNegative(x: real, y: real)
    requires x >= 0.0 && y > 0.0
    ensures x / y >= 0.0
  {
    assert (x / y) * y == x;
  }
}
