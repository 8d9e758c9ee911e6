/** Byte buffers and the lines they hold. */
module Lines {
  import opened Prelude

  type Byte = x: int | 0 <= x < 256

  const NEWLINE: Byte := 10

  /** The bytes that a sequence of reads delivers. */
  function Concat(chunks: seq<seq<Byte>>): seq<Byte> {
    if chunks == [] then [] else Concat(DropLast(chunks)) + Last(chunks)
  }

  lemma ConcatSnoc(chunks: seq<seq<Byte>>, chunk: seq<Byte>)
    ensures Concat(chunks + [chunk]) == Concat(chunks) + chunk
  {
    assert DropLast(chunks + [chunk]) == chunks;
  }

  lemma {:induction false} ConcatGrows(chunks: seq<seq<Byte>>, n: nat)
    requires n <= |chunks|
    ensures Concat(chunks[..n]) <= Concat(chunks)
  {
    if n == |chunks| {
      assert chunks[..n] == chunks;
    } else {
      ConcatGrows(DropLast(chunks), n);
      assert DropLast(chunks)[..n] == chunks[..n];
    }
  }

  /** One more byte of text: it ends the last line or extends it. */
  function Extend(lines: seq<seq<Byte>>, b: Byte): (r: seq<seq<Byte>>)
    requires lines != []
    ensures r != []
  {
    if b == NEWLINE then lines + [[]] else DropLast(lines) + [Last(lines) + [b]]
  }

  /** The pieces between newlines; the last one is not terminated. */
  function Split(s: seq<Byte>): (lines: seq<seq<Byte>>)
    ensures lines != []
  {
    if s == [] then [[]] else Extend(Split(DropLast(s)), Last(s))
  }

  /** Where line i starts in the text that was split. */
  function Start(lines: seq<seq<Byte>>, i: nat): nat
    requires i <= |lines|
  {
    if i == 0 then 0 else Start(lines, i - 1) + |lines[i - 1]| + 1
  }

  lemma {:induction false} StartOfPrefix(a: seq<seq<Byte>>, b: seq<seq<Byte>>, i: nat)
    requires i <= |a| && i <= |b| && a[..i] == b[..i]
    ensures Start(a, i) == Start(b, i)
  {
    if i > 0 {
      assert a[..i - 1] == a[..i][..i - 1] == b[..i][..i - 1] == b[..i - 1];
      assert a[i - 1] == a[..i][i - 1] == b[i - 1];
      StartOfPrefix(a, b, i - 1);
    }
  }

  /** Line i is the text at its start, holds no newline, and all but the last are terminated. */
  ghost predicate LineOf(s: seq<Byte>, lines: seq<seq<Byte>>, i: nat)
    requires i < |lines|
  {
    var from, to := Start(lines, i), Start(lines, i) + |lines[i]|;
    && to <= |s| && lines[i] == s[from..to] && NEWLINE !in lines[i]
    && if i == |lines| - 1 then to == |s| else to < |s| && s[to] == NEWLINE
  }

  ghost predicate LinesOf(s: seq<Byte>, lines: seq<seq<Byte>>) {
    lines != [] && forall i: nat {:trigger LineOf(s, lines, i)} | i < |lines| :: LineOf(s, lines, i)
  }

  /** A line that the next byte leaves alone. */
  lemma EarlierLine(s: seq<Byte>, lines: seq<seq<Byte>>, b: Byte, i: nat)
    requires LinesOf(s, lines) && i < |lines| - 1
    ensures LineOf(s + [b], Extend(lines, b), i)
  {
    var more := Extend(lines, b);
    assert more[..i] == lines[..i];
    StartOfPrefix(more, lines, i);
    assert LineOf(s, lines, i);
    var from, to := Start(lines, i), Start(lines, i) + |lines[i]|;
    assert (s + [b])[from..to] == s[from..to];
  }

  /** The line that the next byte ends or extends, and the one it opens. */
  lemma LatestLines(s: seq<Byte>, lines: seq<seq<Byte>>, b: Byte)
    requires LinesOf(s, lines)
    ensures forall i: nat | |lines| - 1 <= i < |Extend(lines, b)| :: LineOf(s + [b], Extend(lines, b), i)
  {
    var more, n := Extend(lines, b), |lines| - 1;
    assert more[..n] == lines[..n];
    StartOfPrefix(more, lines, n);
    assert LineOf(s, lines, n);
    var from := Start(lines, n);
    assert s[from..] == lines[n];
    if b == NEWLINE {
      assert more[n] == lines[n];
      assert (s + [b])[from..|s|] == s[from..];
    } else {
      assert (s + [b])[from..] == s[from..] + [b];
    }
  }

  lemma {:induction false} SplitFacts(s: seq<Byte>)
    ensures LinesOf(s, Split(s))
  {
    if s != [] {
      var prefix, lines := DropLast(s), Split(DropLast(s));
      assert s == prefix + [Last(s)];
      SplitFacts(prefix);
      LatestLines(prefix, lines, Last(s));
      forall i: nat | i < |lines| - 1
        ensures LineOf(s, Split(s), i)
      {
        EarlierLine(prefix, lines, Last(s), i);
      }
    }
  }

  /** A stretch of text without a newline lies within one line. */
  lemma InOneLine(s: seq<Byte>, lines: seq<seq<Byte>>, i: nat, j: nat) returns (k: nat)
    requires LinesOf(s, lines) && i <= j <= |s| && NEWLINE !in s[i..j]
    ensures k < |lines| && Start(lines, k) <= i && j <= Start(lines, k) + |lines[k]|
  {
    forall x | i <= x < j
      ensures s[x] != NEWLINE
    {
      assert s[x] == s[i..j][x - i];
    }
    k := |lines| - 1;
    while Start(lines, k) > i
      invariant k < |lines|
      invariant k == |lines| - 1 || i < Start(lines, k + 1)
    {
      k := k - 1;
    }
    assert LineOf(s, lines, k);
  }

  /** A line starts at the beginning or right after a newline. */
  lemma StartsAfterNewline(s: seq<Byte>, lines: seq<seq<Byte>>, i: nat, from: nat)
    requires LinesOf(s, lines) && i < |lines| && from == Start(lines, i)
    ensures from <= |s| && (from == 0 || s[from - 1] == NEWLINE)
  {
    if i == 0 {
      assert Start(lines, 0) == 0;
    } else {
      assert LineOf(s, lines, i - 1);
      assert from - 1 == Start(lines, i - 1) + |lines[i - 1]|;
    }
  }

  /** The unterminated line runs to the end of the text. */
  lemma LastToEnd(s: seq<Byte>, lines: seq<seq<Byte>>)
    requires LinesOf(s, lines)
    ensures var from := Start(lines, |lines| - 1);
            from <= |s| && Last(lines) == s[from..] && NEWLINE !in Last(lines)
  {
    assert LineOf(s, lines, |lines| - 1);
  }

  lemma ExtendAppend(front: seq<seq<Byte>>, lines: seq<seq<Byte>>, b: Byte)
    requires lines != []
    ensures Extend(front + lines, b) == front + Extend(lines, b)
  {
    assert DropLast(front + lines) == front + DropLast(lines);
  }

  lemma SplitSnoc(s: seq<Byte>, b: Byte)
    ensures Split(s + [b]) == Extend(Split(s), b)
  {
    assert DropLast(s + [b]) == s;
  }

  /** The unterminated line is one line. */
  lemma SplitTail(s: seq<Byte>)
    ensures Split(Last(Split(s))) == [Last(Split(s))]
  {
    SplitFacts(s);
    assert LineOf(s, Split(s), |Split(s)| - 1);
    OneLine(Last(Split(s)));
  }

  /** Splitting can resume from the unterminated line. */
  lemma {:induction false} SplitAppend(a: seq<Byte>, b: seq<Byte>)
    ensures Split(a + b) == DropLast(Split(a)) + Split(Last(Split(a)) + b)
    decreases |b|
  {
    var front, tail := DropLast(Split(a)), Last(Split(a));
    if b == [] {
      SplitTail(a);
      assert a + b == a && tail + b == tail;
    } else {
      var init, last := DropLast(b), Last(b);
      assert a + b == (a + init) + [last] && tail + b == (tail + init) + [last];
      SplitAppend(a, init);
      SplitSnoc(a + init, last);
      SplitSnoc(tail + init, last);
      ExtendAppend(front, Split(tail + init), last);
    }
  }

  lemma {:induction false} OneLine(s: seq<Byte>)
    requires NEWLINE !in s
    ensures Split(s) == [s]
  {
    if s != [] {
      assert s == DropLast(s) + [Last(s)];
      OneLine(DropLast(s));
    }
  }
}
