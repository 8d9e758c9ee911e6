/**
 The memory bound of a sparse read-only image: the pages that hold data,
 counted from the extents that lseek reports.
 */
module Extents {
  import opened Prelude

  /** The outcome of one lseek. */
  datatype Seek = At(pos: int) | NoMoreData | Unsupported | Broken

  datatype Method = LogicalSize | DataExtents

  datatype Capacity = Capacity(bytes: nat, how: Method)

  datatype ScanError = InvalidExtentMap | SeekFailed

  function Ceil(x: nat, page: nat): nat
    requires page > 0
  {
    (x + page - 1) / page
  }

  // ----- The meaning -----

  /** Page p holds a data byte. */
  ghost predicate HoldsData(size: nat, page: nat, data: nat -> bool, p: nat)
    requires page > 0
  {
    exists b: nat :: b < size && data(b) && b / page == p
  }

  /** The number of the first n pages that hold data. */
  ghost function DataPages(size: nat, page: nat, data: nat -> bool, n: nat): nat
    requires page > 0
  {
    if n == 0 then 0 else DataPages(size, page, data, n - 1) + if HoldsData(size, page, data, n - 1) then 1 else 0
  }

  /** No data in [a, b). */
  ghost predicate NoData(data: nat -> bool, a: nat, b: nat) {
    forall x: nat | a <= x < b :: !data(x)
  }

  ghost predicate AllData(data: nat -> bool, a: nat, b: nat) {
    forall x: nat | a <= x < b :: data(x)
  }

  /** The seeks tell the truth about this data. */
  ghost predicate Truthful(size: nat, data: nat -> bool, seekData: int -> Seek, seekHole: int -> Seek) {
    forall c: nat | c < size ::
      match seekData(c)
      case At(s) => c <= s < size && NoData(data, c, s) && data(s) && Extent(size, data, s, seekHole(s))
      case NoMoreData => NoData(data, c, size)
      case Unsupported => true
      case Broken => true
  }

  /** From s, data runs up to the reported hole or the end of the file. */
  ghost predicate Extent(size: nat, data: nat -> bool, s: nat, hole: Seek) {
    match hole
    case At(e) => s < e && AllData(data, s, if e < size then e else size)
    case NoMoreData => true
    case Unsupported => true
    case Broken => true
  }

  // ----- Pages and bytes -----

  lemma MulLe(a: nat, b: nat, page: nat)
    requires a <= b
    ensures a * page <= b * page
  {
  }

  lemma Distribute(a: nat, b: nat, page: nat)
    ensures (a + b) * page == a * page + b * page
  {
  }

  lemma DivFacts(x: nat, page: nat)
    requires page > 0
    ensures (x / page) * page <= x < (x / page) * page + page
  {
  }

  lemma CeilFacts(x: nat, page: nat)
    requires page > 0
    ensures x <= Ceil(x, page) * page < x + page
  {
    DivFacts(x + page - 1, page);
  }

  lemma DivUnique(x: nat, page: nat, q: nat)
    requires page > 0 && q * page <= x < q * page + page
    ensures x / page == q
  {
    DivFacts(x, page);
    var d := x / page;
    if d < q {
      MulLe(d + 1, q, page);
    } else if d > q {
      MulLe(q + 1, d, page);
    }
  }

  lemma DivMono(x: nat, y: nat, page: nat)
    requires page > 0 && x <= y
    ensures x / page <= y / page
  {
    DivFacts(x, page);
    DivFacts(y, page);
    if y / page < x / page {
      MulLe(y / page + 1, x / page, page);
    }
  }

  /** Rounding up counts the page of the last byte below x. */
  lemma CeilAfterLast(x: nat, page: nat)
    requires page > 0 && x > 0
    ensures Ceil(x, page) == (x - 1) / page + 1
  {
    var q := (x - 1) / page;
    DivFacts(x - 1, page);
    DivUnique(x + page - 1, page, q + 1);
  }

  /** A byte lies below x exactly when, if on another page, its page does. */
  lemma BelowCeil(b: nat, x: nat, page: nat)
    requires page > 0
    ensures b < x ==> b / page < Ceil(x, page)
    ensures b / page >= Ceil(x, page) ==> b >= x
  {
    if b < x {
      DivMono(b, x - 1, page);
      CeilAfterLast(x, page);
    }
  }

  lemma CeilMono(x: nat, y: nat, page: nat)
    requires page > 0 && x <= y
    ensures Ceil(x, page) <= Ceil(y, page)
  {
    DivMono(x + page - 1, y + page - 1, page);
  }

  /** Every page from the extent's first to its last has a byte of the extent. */
  lemma PageMeetsExtent(start: nat, end: nat, page: nat, q: nat) returns (b: nat)
    requires page > 0 && start < end && start / page <= q < Ceil(end, page)
    ensures start <= b < end && b / page == q
  {
    if q == start / page {
      b := start;
    } else {
      b := q * page;
      DivUnique(b, page, q);
      DivFacts(start, page);
      MulLe(start / page + 1, q, page);
      CeilFacts(end, page);
      MulLe(q + 1, Ceil(end, page), page);
    }
  }

  // ----- Counting -----

  lemma {:induction false} NoPages(size: nat, page: nat, data: nat -> bool, lo: nat, hi: nat)
    requires page > 0 && lo <= hi
    requires forall q: nat | lo <= q < hi :: !HoldsData(size, page, data, q)
    ensures DataPages(size, page, data, hi) == DataPages(size, page, data, lo)
    decreases hi
  {
    if lo < hi {
      NoPages(size, page, data, lo, hi - 1);
    }
  }

  lemma {:induction false} AllPages(size: nat, page: nat, data: nat -> bool, lo: nat, hi: nat)
    requires page > 0 && lo <= hi
    requires forall q: nat | lo <= q < hi :: HoldsData(size, page, data, q)
    ensures DataPages(size, page, data, hi) == DataPages(size, page, data, lo) + (hi - lo)
    decreases hi
  {
    if lo < hi {
      AllPages(size, page, data, lo, hi - 1);
    }
  }

  lemma {:induction false} DataPagesBound(size: nat, page: nat, data: nat -> bool, n: nat)
    requires page > 0
    ensures DataPages(size, page, data, n) <= n
  {
    if n > 0 {
      DataPagesBound(size, page, data, n - 1);
    }
  }

  /** Pages between the last one counted and the extent hold nothing. */
  lemma GapEmpty(size: nat, page: nat, data: nat -> bool, cursor: nat, start: nat, q: nat)
    requires page > 0 && cursor <= start && NoData(data, cursor, start)
    requires Ceil(cursor, page) <= q < start / page
    ensures !HoldsData(size, page, data, q)
  {
    forall b: nat | b < size && b / page == q
      ensures !data(b)
    {
      BelowCeil(b, cursor, page);
      if start <= b {
        DivMono(start, b, page);
      }
    }
  }

  /** One extent adds exactly the pages it is the first to reach. */
  lemma ExtentCounts(size: nat, page: nat, data: nat -> bool, cursor: nat, start: nat, end: nat)
    requires page > 0 && cursor <= start < end <= size
    requires NoData(data, cursor, start) && AllData(data, start, end)
    ensures var done, first, last := Ceil(cursor, page), start / page, Ceil(end, page);
            && done <= last
            && DataPages(size, page, data, last)
               == DataPages(size, page, data, done) + (last - if first < done then done else first)
  {
    var done, first, last := Ceil(cursor, page), start / page, Ceil(end, page);
    CeilMono(cursor, end, page);
    BelowCeil(start, end, page);
    var mid := if first < done then done else first;
    forall q: nat | done <= q < mid
      ensures !HoldsData(size, page, data, q)
    {
      GapEmpty(size, page, data, cursor, start, q);
    }
    NoPages(size, page, data, done, mid);
    forall q: nat | mid <= q < last
      ensures HoldsData(size, page, data, q)
    {
      var b := PageMeetsExtent(start, end, page, q);
      assert data(b);
    }
    AllPages(size, page, data, mid, last);
  }

  /** Past the last extent nothing is left to count. */
  lemma RestEmpty(size: nat, page: nat, data: nat -> bool, cursor: nat)
    requires page > 0 && cursor <= size && NoData(data, cursor, size)
    ensures DataPages(size, page, data, Ceil(size, page)) == DataPages(size, page, data, Ceil(cursor, page))
  {
    CeilMono(cursor, size, page);
    forall q: nat | Ceil(cursor, page) <= q < Ceil(size, page)
      ensures !HoldsData(size, page, data, q)
    {
      forall b: nat | b < size && b / page == q
        ensures !data(b)
      {
        BelowCeil(b, cursor, page);
      }
    }
    NoPages(size, page, data, Ceil(cursor, page), Ceil(size, page));
  }

  // ----- The scan -----

  /** Account for the extent [start, end): pages shared with the extent before
      it are already in the total. */
  method AddExtent(size: nat, page: nat, total: nat, cursor: nat, endPage: nat, start: nat, end: nat,
                   ghost data: nat -> bool, ghost pages: nat, ghost truthful: bool)
    returns (total': nat, endPage': nat, ghost pages': nat)
    requires page > 0 && cursor <= start < end <= size && endPage == Ceil(cursor, page)
    requires pages <= endPage && total == pages * page
    requires truthful ==> NoData(data, cursor, start) && AllData(data, start, end)
    requires truthful ==> pages == DataPages(size, page, data, endPage)
    ensures endPage' == Ceil(end, page) && pages' <= endPage' && total' == pages' * page
    ensures truthful ==> pages' == DataPages(size, page, data, endPage')
  {
    var first, last := start / page, Ceil(end, page);
    CeilMono(cursor, end, page);
    if truthful {
      ExtentCounts(size, page, data, cursor, start, end);
    }
    var from := if first < endPage then endPage else first;
    var added := if from < last then last - from else 0;
    Distribute(pages, added, page);
    BelowCeil(start, end, page);
    pages', total', endPage' := pages + added, total + added * page, last;
  }

  /** Some seek within the image is not supported. */
  ghost predicate SomeUnsupported(size: nat, seekData: int -> Seek, seekHole: int -> Seek) {
    exists c: nat :: c < size &&
      (seekData(c).Unsupported? || (seekData(c).At? && seekHole(seekData(c).pos).Unsupported?))
  }

  /** Some seek within the image fails outright, or finds no end of an extent. */
  ghost predicate SomeBroken(size: nat, seekData: int -> Seek, seekHole: int -> Seek) {
    exists c: nat :: c < size &&
      (seekData(c).Broken? ||
       (seekData(c).At? && (seekHole(seekData(c).pos).Broken? || seekHole(seekData(c).pos).NoMoreData?)))
  }

  /** The scan ends on every sequence of seek results and never exceeds the
      page-rounded logical size. On seeks that tell the truth it counts every
      page that holds data exactly once. */
  method ReadonlyImageCapacity(size: nat, page: nat, seekData: int -> Seek, seekHole: int -> Seek,
                               ghost data: nat -> bool)
    returns (r: Result<Capacity, ScanError>)
    requires page > 0
    ensures r.Ok? && r.value.how.LogicalSize? ==>
              r.value.bytes == Ceil(size, page) * page && SomeUnsupported(size, seekData, seekHole)
    ensures r == Err(SeekFailed) ==> SomeBroken(size, seekData, seekHole)
    ensures r.Ok? ==> r.value.bytes <= Ceil(size, page) * page
    ensures r.Ok? && r.value.how.DataExtents? && Truthful(size, data, seekData, seekHole) ==>
              r.value.bytes == DataPages(size, page, data, Ceil(size, page)) * page
    ensures Truthful(size, data, seekData, seekHole) ==> r != Err(InvalidExtentMap)
  {
    var logical := Ceil(size, page) * page;
    var total, cursor, endPage := 0, 0, 0;
    ghost var pages: nat := 0;
    while cursor < size
      invariant 0 <= cursor <= size
      invariant endPage == Ceil(cursor, page) && pages <= endPage && total == pages * page
      invariant Truthful(size, data, seekData, seekHole) ==> pages == DataPages(size, page, data, endPage)
      decreases size - cursor
    {
      var s := seekData(cursor);
      if s.NoMoreData? {
        break;
      }
      if s.Unsupported? {
        return Ok(Capacity(logical, LogicalSize));
      }
      if s.Broken? {
        return Err(SeekFailed);
      }
      var start := s.pos;
      var h := seekHole(start);
      if h.Unsupported? {
        return Ok(Capacity(logical, LogicalSize));
      }
      if !h.At? {
        return Err(SeekFailed);
      }
      var end := if h.pos < size then h.pos else size;
      if !(cursor <= start < end <= size) {
        return Err(InvalidExtentMap);
      }
      total, endPage, pages := AddExtent(size, page, total, cursor, endPage, start, end, data, pages,
                                         Truthful(size, data, seekData, seekHole));
      cursor := end;
    }
    CeilMono(cursor, size, page);
    MulLe(pages, Ceil(size, page), page);
    if Truthful(size, data, seekData, seekHole) {
      RestEmpty(size, page, data, cursor);
    }
    return Ok(Capacity(total, DataExtents));
  }
}
