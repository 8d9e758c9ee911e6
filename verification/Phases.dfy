/**
 Attribution of a time window to phase categories. The sweep walks over span
 boundaries; its meaning is a count of nanoseconds, instant by instant.
 */
module Phases {
  import opened Prelude

  datatype Category = Filesystem | Process | GuestReadiness | ControlPlane | Overlapping | Unclassified

  datatype Span = Span(name: string, start: int, end: int)

  type Names = map<string, Category>

  /** A span clipped to the window and resolved to its category. */
  datatype Interval = Interval(left: int, right: int, category: Category)

  // ----- The pointwise meaning -----

  /** The categories of the spans that cover instant t. */
  function ActiveAt(spans: seq<Span>, names: Names, t: int): set<Category> {
    set s | s in spans && s.name in names && s.start <= t < s.end :: names[s.name]
  }

  /** One category alone claims the time; several overlap; none leaves it unclassified. */
  function Verdict(active: set<Category>): Category {
    if active == {} then Unclassified
    else if exists c: Category :: active == {c} then
      var c: Category :| active == {c}; c
    else Overlapping
  }

  /** The number of instants in [lo, hi) that go to category c. */
  function Instants(spans: seq<Span>, names: Names, lo: int, hi: int, c: Category): nat
    decreases hi - lo
  {
    if hi <= lo then 0
    else Instants(spans, names, lo, hi - 1, c) + if Verdict(ActiveAt(spans, names, hi - 1)) == c then 1 else 0
  }

  lemma {:induction false} InstantsSplit(spans: seq<Span>, names: Names, lo: int, mid: int, hi: int, c: Category)
    requires lo <= mid <= hi
    ensures Instants(spans, names, lo, hi, c) == Instants(spans, names, lo, mid, c) + Instants(spans, names, mid, hi, c)
    decreases hi - lo
  {
    if mid < hi {
      InstantsSplit(spans, names, lo, mid, hi - 1, c);
    }
  }

  /** Every instant goes to exactly one category. */
  lemma {:induction false} InstantsClose(spans: seq<Span>, names: Names, lo: int, hi: int)
    requires lo <= hi
    ensures Instants(spans, names, lo, hi, Filesystem) + Instants(spans, names, lo, hi, Process) +
            Instants(spans, names, lo, hi, GuestReadiness) + Instants(spans, names, lo, hi, ControlPlane) +
            Instants(spans, names, lo, hi, Overlapping) + Instants(spans, names, lo, hi, Unclassified) == hi - lo
    decreases hi - lo
  {
    if lo < hi {
      InstantsClose(spans, names, lo, hi - 1);
    }
  }

  lemma {:induction false} InstantsConstant(spans: seq<Span>, names: Names, lo: int, hi: int, c: Category,
                                            active: set<Category>)
    requires lo <= hi && forall t | lo <= t < hi :: ActiveAt(spans, names, t) == active
    ensures Instants(spans, names, lo, hi, c) == if Verdict(active) == c then hi - lo else 0
    decreases hi - lo
  {
    if lo < hi {
      InstantsConstant(spans, names, lo, hi - 1, c, active);
    }
  }

  // ----- What the counts mean -----

  /** The number of instants in [lo, hi) at which p holds. */
  ghost function Among(lo: int, hi: int, p: int -> bool): nat {
    |set t | lo <= t < hi && p(t)|
  }

  lemma AmongMore(lo: int, hi: int, p: int -> bool)
    requires lo <= hi
    ensures Among(lo, hi + 1, p) == Among(lo, hi, p) + if p(hi) then 1 else 0
  {
    var less, more := set t | lo <= t < hi && p(t), set t | lo <= t < hi + 1 && p(t);
    if p(hi) {
      assert more == less + {hi};
    } else {
      assert more == less;
    }
  }

  lemma {:induction false} InstantsAre(spans: seq<Span>, names: Names, lo: int, hi: int, c: Category, p: int -> bool)
    requires lo <= hi && forall t | lo <= t < hi :: p(t) <==> Verdict(ActiveAt(spans, names, t)) == c
    ensures Instants(spans, names, lo, hi, c) == Among(lo, hi, p)
    decreases hi - lo
  {
    if lo == hi {
      assert (set t | lo <= t < hi && p(t)) == {};
    } else {
      InstantsAre(spans, names, lo, hi - 1, c, p);
      AmongMore(lo, hi - 1, p);
    }
  }

  lemma SizeOfOne(active: set<Category>)
    requires active != {} && |active| < 2
    ensures exists c: Category :: active == {c}
  {
    var c: Category :| c in active;
    assert |active - {c}| == 0;
    assert active == {c};
  }

  /** An instant goes to the one active category, or to the overlap if there are
      several, or is unclassified if there is none. */
  lemma VerdictMeans(active: set<Category>, c: Category)
    ensures c != Overlapping && c != Unclassified ==> (Verdict(active) == c <==> active == {c})
    ensures Overlapping !in active && Unclassified !in active ==>
              && (Verdict(active) == Overlapping <==> |active| >= 2)
              && (Verdict(active) == Unclassified <==> active == {})
  {
    if active != {} && |active| < 2 {
      SizeOfOne(active);
    }
    if d: Category :| active == {d} {
      assert |active| == 1 && d in active;
    }
  }

  /** Spans are named for proper categories only. */
  predicate ProperNames(names: Names) {
    forall n | n in names :: names[n] != Overlapping && names[n] != Unclassified
  }

  /** Totals in plain terms: a category has the instants at which it alone is
      active, the overlap those with several, and the rest those with none. */
  ghost predicate CountsTime(totals: map<Category, int>, spans: seq<Span>, names: Names, start: int, end: int) {
    && (forall c: Category | c != Overlapping && c != Unclassified ::
          c in totals && totals[c] == Among(start, end, t => ActiveAt(spans, names, t) == {c}))
    && (ProperNames(names) ==>
          && Overlapping in totals && Unclassified in totals
          && totals[Overlapping] == Among(start, end, t => |ActiveAt(spans, names, t)| >= 2)
          && totals[Unclassified] == Among(start, end, t => ActiveAt(spans, names, t) == {}))
  }

  lemma TallyCounts(totals: map<Category, int>, spans: seq<Span>, names: Names, start: int, end: int)
    requires start <= end && Tally(totals, spans, names, start, end)
    ensures CountsTime(totals, spans, names, start, end)
  {
    forall c: Category | c != Overlapping && c != Unclassified
      ensures totals[c] == Among(start, end, t => ActiveAt(spans, names, t) == {c})
    {
      forall t
        ensures Verdict(ActiveAt(spans, names, t)) == c <==> ActiveAt(spans, names, t) == {c}
      {
        VerdictMeans(ActiveAt(spans, names, t), c);
      }
      InstantsAre(spans, names, start, end, c, t => ActiveAt(spans, names, t) == {c});
    }
    if ProperNames(names) {
      ResidualCounts(spans, names, start, end);
    }
  }

  lemma ResidualCounts(spans: seq<Span>, names: Names, start: int, end: int)
    requires start <= end && ProperNames(names)
    ensures Instants(spans, names, start, end, Overlapping) == Among(start, end, t => |ActiveAt(spans, names, t)| >= 2)
    ensures Instants(spans, names, start, end, Unclassified) == Among(start, end, t => ActiveAt(spans, names, t) == {})
  {
    forall t
      ensures Verdict(ActiveAt(spans, names, t)) == Overlapping <==> |ActiveAt(spans, names, t)| >= 2
      ensures Verdict(ActiveAt(spans, names, t)) == Unclassified <==> ActiveAt(spans, names, t) == {}
    {
      VerdictMeans(ActiveAt(spans, names, t), Process);
    }
    InstantsAre(spans, names, start, end, Overlapping, t => |ActiveAt(spans, names, t)| >= 2);
    InstantsAre(spans, names, start, end, Unclassified, t => ActiveAt(spans, names, t) == {});
  }

  // ----- Clipping -----

  function Clip(start: int, end: int, names: Names, s: Span): seq<Interval> {
    var a, b := Max(s.start, start), Min(s.end, end);
    if s.name in names && a < b then [Interval(a, b, names[s.name])] else []
  }

  function ClipAll(start: int, end: int, names: Names, spans: seq<Span>): seq<Interval> {
    if spans == [] then [] else ClipAll(start, end, names, DropLast(spans)) + Clip(start, end, names, Last(spans))
  }

  function Covering(ivs: seq<Interval>, a: int, b: int): set<Category> {
    set iv | iv in ivs && iv.left <= a && b <= iv.right :: iv.category
  }

  lemma {:induction false} ClipMembers(start: int, end: int, names: Names, spans: seq<Span>, iv: Interval)
    ensures iv in ClipAll(start, end, names, spans) <==>
            exists s :: s in spans && Clip(start, end, names, s) == [iv]
  {
    if spans != [] {
      ClipMembers(start, end, names, DropLast(spans), iv);
      assert spans == DropLast(spans) + [Last(spans)];
    }
  }

  /** Inside the window, the clipped intervals around an instant say which spans cover it. */
  lemma CoveringIsActive(start: int, end: int, names: Names, spans: seq<Span>, t: int)
    requires start <= t < end
    ensures Covering(ClipAll(start, end, names, spans), t, t + 1) == ActiveAt(spans, names, t)
  {
    var ivs := ClipAll(start, end, names, spans);
    forall c
      ensures c in Covering(ivs, t, t + 1) <==> c in ActiveAt(spans, names, t)
    {
      if c in Covering(ivs, t, t + 1) {
        var iv :| iv in ivs && iv.left <= t && t + 1 <= iv.right && iv.category == c;
        ClipMembers(start, end, names, spans, iv);
        var s :| s in spans && Clip(start, end, names, s) == [iv];
      }
      if c in ActiveAt(spans, names, t) {
        var s :| s in spans && s.name in names && s.start <= t < s.end && names[s.name] == c;
        var iv := Clip(start, end, names, s)[0];
        assert Clip(start, end, names, s) == [iv];
        ClipMembers(start, end, names, spans, iv);
      }
    }
  }

  // ----- Boundaries -----

  predicate Increasing(xs: seq<int>) {
    forall i, j | 0 <= i < j < |xs| :: xs[i] < xs[j]
  }

  function Insert(x: int, xs: seq<int>): seq<int> {
    if xs == [] || x < xs[0] then [x] + xs
    else if x == xs[0] then xs
    else [xs[0]] + Insert(x, xs[1..])
  }

  lemma {:induction false} InsertMembers(x: int, xs: seq<int>, y: int)
    ensures y in Insert(x, xs) <==> y == x || y in xs
  {
    if xs != [] && x > xs[0] {
      InsertMembers(x, xs[1..], y);
      assert xs == [xs[0]] + xs[1..];
    }
  }

  lemma {:induction false} InsertIncreasing(x: int, xs: seq<int>)
    requires Increasing(xs)
    ensures Increasing(Insert(x, xs))
  {
    if xs != [] && x > xs[0] {
      InsertIncreasing(x, xs[1..]);
      var tail := Insert(x, xs[1..]);
      forall j | 0 <= j < |tail|
        ensures xs[0] < tail[j]
      {
        InsertMembers(x, xs[1..], tail[j]);
      }
    }
  }

  /** The window's ends and every interval's ends, sorted without repeats. */
  function Boundaries(start: int, end: int, ivs: seq<Interval>): seq<int> {
    if ivs == [] then Insert(start, [end])
    else Insert(Last(ivs).left, Insert(Last(ivs).right, Boundaries(start, end, DropLast(ivs))))
  }

  lemma InsertFacts(x: int, xs: seq<int>)
    requires Increasing(xs)
    ensures Increasing(Insert(x, xs))
    ensures forall y :: y in Insert(x, xs) <==> y == x || y in xs
  {
    InsertIncreasing(x, xs);
    forall y
      ensures y in Insert(x, xs) <==> y == x || y in xs
    {
      InsertMembers(x, xs, y);
    }
  }

  /** Boundaries of the window and of all these intervals. */
  ghost predicate Bounds(start: int, end: int, ivs: seq<Interval>, bs: seq<int>) {
    && Increasing(bs) && start in bs && end in bs
    && (forall x | x in bs :: start <= x <= end)
    && (forall iv | iv in ivs :: iv.left in bs && iv.right in bs)
  }

  lemma BoundsGrow(start: int, end: int, ivs: seq<Interval>, bs: seq<int>, iv: Interval)
    requires Bounds(start, end, ivs, bs) && start <= iv.left < iv.right <= end
    ensures Bounds(start, end, ivs + [iv], Insert(iv.left, Insert(iv.right, bs)))
  {
    InsertFacts(iv.right, bs);
    InsertFacts(iv.left, Insert(iv.right, bs));
  }

  lemma {:induction false} BoundariesFacts(start: int, end: int, ivs: seq<Interval>)
    requires start < end && forall iv | iv in ivs :: start <= iv.left < iv.right <= end
    ensures Bounds(start, end, ivs, Boundaries(start, end, ivs))
  {
    if ivs == [] {
      InsertFacts(start, [end]);
    } else {
      assert Last(ivs) in ivs;
      BoundariesFacts(start, end, DropLast(ivs));
      BoundsGrow(start, end, DropLast(ivs), Boundaries(start, end, DropLast(ivs)), Last(ivs));
      assert ivs == DropLast(ivs) + [Last(ivs)];
    }
  }

  lemma BoundaryEnds(start: int, end: int, bs: seq<int>)
    requires start < end && Increasing(bs) && start in bs && end in bs && forall x | x in bs :: start <= x <= end
    ensures |bs| >= 2 && bs[0] == start && Last(bs) == end
  {
    var i :| 0 <= i < |bs| && bs[i] == start;
    var j :| 0 <= j < |bs| && bs[j] == end;
    assert bs[0] in bs && Last(bs) in bs;
  }

  /** Between two neighbouring boundaries nothing starts or ends. */
  lemma SlabSame(iv: Interval, bs: seq<int>, k: nat, t: int)
    requires Increasing(bs) && iv.left in bs && iv.right in bs
    requires k + 1 < |bs| && bs[k] <= t < bs[k + 1]
    ensures iv.left <= t && t + 1 <= iv.right <==> iv.left <= bs[k] && bs[k + 1] <= iv.right
  {
    var i :| 0 <= i < |bs| && bs[i] == iv.left;
    var j :| 0 <= j < |bs| && bs[j] == iv.right;
    assert i <= k || k + 1 <= i;
    assert j <= k || k + 1 <= j;
  }

  lemma SlabCovering(ivs: seq<Interval>, bs: seq<int>, k: nat, t: int)
    requires Increasing(bs) && forall iv | iv in ivs :: iv.left in bs && iv.right in bs
    requires k + 1 < |bs| && bs[k] <= t < bs[k + 1]
    ensures Covering(ivs, t, t + 1) == Covering(ivs, bs[k], bs[k + 1])
  {
    forall iv | iv in ivs
      ensures iv.left <= t && t + 1 <= iv.right <==> iv.left <= bs[k] && bs[k + 1] <= iv.right
    {
      SlabSame(iv, bs, k, t);
    }
  }

  lemma SlabActive(start: int, end: int, names: Names, spans: seq<Span>, ivs: seq<Interval>, bs: seq<int>, k: nat,
                   t: int)
    requires ivs == ClipAll(start, end, names, spans) && Bounds(start, end, ivs, bs)
    requires k + 1 < |bs| && bs[k] <= t < bs[k + 1]
    ensures ActiveAt(spans, names, t) == Covering(ivs, bs[k], bs[k + 1])
  {
    assert bs[k] in bs && bs[k + 1] in bs;
    CoveringIsActive(start, end, names, spans, t);
    SlabCovering(ivs, bs, k, t);
  }

  lemma {:induction false} ClipInside(start: int, end: int, names: Names, spans: seq<Span>)
    ensures forall iv | iv in ClipAll(start, end, names, spans) :: start <= iv.left < iv.right <= end
  {
    if spans != [] {
      ClipInside(start, end, names, DropLast(spans));
    }
  }

  // ----- The sweep -----

  const ZERO: map<Category, int> :=
    map[Filesystem := 0, Process := 0, GuestReadiness := 0, ControlPlane := 0, Overlapping := 0, Unclassified := 0]

  /** These totals are the pointwise counts over [lo, hi). */
  ghost predicate Tally(totals: map<Category, int>, spans: seq<Span>, names: Names, lo: int, hi: int) {
    forall c: Category :: c in totals && totals[c] == Instants(spans, names, lo, hi, c)
  }

  /** One slab adds its whole length to one category. */
  lemma TallySlab(totals: map<Category, int>, spans: seq<Span>, names: Names, lo: int, a: int, b: int,
                  active: set<Category>)
    requires lo <= a <= b && Tally(totals, spans, names, lo, a)
    requires forall t | a <= t < b :: ActiveAt(spans, names, t) == active
    ensures var v := Verdict(active); Tally(totals[v := totals[v] + (b - a)], spans, names, lo, b)
  {
    forall c: Category
      ensures Instants(spans, names, lo, b, c) ==
              Instants(spans, names, lo, a, c) + if Verdict(active) == c then b - a else 0
    {
      InstantsSplit(spans, names, lo, a, b, c);
      InstantsConstant(spans, names, a, b, c, active);
    }
  }

  method Sweep(start: int, end: int, ghost spans: seq<Span>, ghost names: Names, ivs: seq<Interval>, bs: seq<int>)
    returns (totals: map<Category, int>)
    requires start < end && ivs == ClipAll(start, end, names, spans) && Bounds(start, end, ivs, bs)
    ensures Tally(totals, spans, names, start, end)
  {
    BoundaryEnds(start, end, bs);
    totals := ZERO;
    forall c: Category
      ensures c in ZERO && ZERO[c] == 0
    {
      match c {
        case Filesystem => case Process => case GuestReadiness =>
        case ControlPlane => case Overlapping => case Unclassified =>
      }
    }
    var k := 0;
    while k + 1 < |bs|
      invariant 0 <= k < |bs|
      invariant Tally(totals, spans, names, start, bs[k])
    {
      var a, b := bs[k], bs[k + 1];
      var active := Covering(ivs, a, b);
      var category := Verdict(active);
      forall t | a <= t < b
        ensures ActiveAt(spans, names, t) == active
      {
        SlabActive(start, end, names, spans, ivs, bs, k, t);
      }
      assert bs[k] in bs;
      TallySlab(totals, spans, names, start, a, b, active);
      totals := totals[category := totals[category] + (b - a)];
      k := k + 1;
    }
  }

  /** The totals of the sweep are the pointwise counts, in nanoseconds. It
      fails exactly when the window or some span is empty or reversed. */
  method Partition(start: int, end: int, spans: seq<Span>, names: Names) returns (r: Result<map<Category, int>, ()>)
    ensures r.Ok? <==> start < end && forall s | s in spans :: s.start < s.end
    ensures r.Ok? ==> Tally(r.value, spans, names, start, end)
    ensures r.Ok? ==> CountsTime(r.value, spans, names, start, end)
  {
    if start >= end {
      return Err(());
    }
    var ivs: seq<Interval> := [];
    var i := 0;
    while i < |spans|
      invariant 0 <= i <= |spans|
      invariant forall s | s in spans[..i] :: s.start < s.end
      invariant ivs == ClipAll(start, end, names, spans[..i])
    {
      if spans[i].start >= spans[i].end {
        assert spans[i] in spans;
        return Err(());
      }
      assert DropLast(spans[..i + 1]) == spans[..i];
      ivs := ivs + Clip(start, end, names, spans[i]);
      i := i + 1;
    }
    assert spans[..|spans|] == spans;
    ClipInside(start, end, names, spans);
    BoundariesFacts(start, end, ivs);
    var totals := Sweep(start, end, spans, names, ivs, Boundaries(start, end, ivs));
    TallyCounts(totals, spans, names, start, end);
    return Ok(totals);
  }

  /** The six totals of a partition sum to the window. */
  lemma PartitionCloses(start: int, end: int, spans: seq<Span>, names: Names, totals: map<Category, int>)
    requires start < end && Tally(totals, spans, names, start, end)
    ensures totals[Filesystem] + totals[Process] + totals[GuestReadiness] + totals[ControlPlane] +
            totals[Overlapping] + totals[Unclassified] == end - start
  {
    InstantsClose(spans, names, start, end);
  }
}
