/**
 The monitor of a guest's serial log. It reads only new bytes, keeps the
 unfinished line, cut to a bounded window, and reports the first fatal match.

 The fatal pattern has no context: whether a stretch of bytes matches depends
 on those bytes alone, so the pattern is a predicate on byte strings.
 */
module SerialMonitor {
  import opened Prelude
  import opened Lines

  const WINDOW := 65536
  const READS_PER_POLL := 16

  /** The longest match that no cutting of the log can hide. */
  const SPAN := WINDOW + 1

  type Pattern = seq<Byte> -> bool

  // ----- Searching a line -----

  predicate MatchesFrom(fatal: Pattern, line: seq<Byte>, i: nat)
    requires i <= |line|
  {
    exists j :: i <= j <= |line| && fatal(line[i..j])
  }

  /** The leftmost position at which the pattern matches. */
  function Search(fatal: Pattern, line: seq<Byte>, from: nat): (r: Option<nat>)
    requires from <= |line|
    ensures r.Some? ==> from <= r.value <= |line| && MatchesFrom(fatal, line, r.value)
    ensures forall i | from <= i <= |line| && (r.Some? ==> i < r.value) :: !MatchesFrom(fatal, line, i)
    decreases |line| - from
  {
    if MatchesFrom(fatal, line, from) then Some(from)
    else if from == |line| then None
    else Search(fatal, line, from + 1)
  }

  // ----- What the log says -----

  /** The bytes at [i, j) match and stay within one line. */
  ghost predicate FatalAt(fatal: Pattern, log: seq<Byte>, i: nat, j: nat) {
    i <= j <= |log| && NEWLINE !in log[i..j] && fatal(log[i..j])
  }

  /** No match of bounded span among the first n bytes. */
  ghost predicate Clean(fatal: Pattern, log: seq<Byte>, n: nat) {
    forall i: nat, j: nat | i <= j <= n && j - i <= SPAN :: !FatalAt(fatal, log, i, j)
  }

  // ----- One read -----

  datatype Monitor = Monitor(pending: seq<Byte>, offset: nat)

  /** The absolute position of the first match in lines k onward, where line k
      starts at byte `at`. */
  function ScanLines(fatal: Pattern, lines: seq<seq<Byte>>, k: nat, at: nat): Option<nat>
    requires k <= |lines|
    decreases |lines| - k
  {
    if k == |lines| then None
    else
      match Search(fatal, lines[k], 0)
      case Some(i) => Some(at + i)
      case None => ScanLines(fatal, lines, k + 1, at + |lines[k]| + 1)
  }

  /** Keep at most a window's worth of the unfinished line. */
  function Trim(tail: seq<Byte>, at: nat): Monitor {
    if |tail| > WINDOW then Monitor(tail[|tail| - WINDOW..], at + |tail| - WINDOW) else Monitor(tail, at)
  }

  /** What to keep of lines that start at byte `at`: the unfinished one. */
  function Unfinished(lines: seq<seq<Byte>>, at: nat): Monitor
    requires lines != []
  {
    Trim(Last(lines), at + Start(lines, |lines| - 1))
  }

  /** A fatal position in these lines, or what to keep of them. */
  function FeedLines(fatal: Pattern, lines: seq<seq<Byte>>, at: nat): Result<Monitor, nat>
    requires lines != []
  {
    var hit := ScanLines(fatal, lines, 0, at);
    if hit.Some? then Err(hit.value) else Ok(Unfinished(lines, at))
  }

  /** Feed one chunk: a fatal position, or the monitor's next state. */
  function Feed(fatal: Pattern, m: Monitor, chunk: seq<Byte>): Result<Monitor, nat> {
    FeedLines(fatal, Split(m.pending + chunk), m.offset)
  }

  lemma {:induction false} ScanSound(fatal: Pattern, lines: seq<seq<Byte>>, k: nat, at: nat) returns (l: nat)
    requires k <= |lines|
    ensures var r := ScanLines(fatal, lines, k, at);
            if r.Some? then HitInLine(fatal, lines, k, at, l, r.value)
            else forall i: nat | k <= i < |lines| :: Search(fatal, lines[i], 0).None?
    decreases |lines| - k
  {
    l := k;
    if k < |lines| && Search(fatal, lines[k], 0).None? {
      l := ScanSound(fatal, lines, k + 1, at + |lines[k]| + 1);
    }
  }

  ghost predicate HitInLine(fatal: Pattern, lines: seq<seq<Byte>>, k: nat, at: nat, l: nat, o: nat) {
    && k <= l < |lines|
    && var i := o - at + Start(lines, k) - Start(lines, l);
       0 <= i <= |lines[l]| && MatchesFrom(fatal, lines[l], i)
  }

  // ----- The monitor's invariant -----

  /** The monitor holds the end of the log's first n bytes: all of the
      unfinished line, or a full window of it. */
  ghost predicate Follows(m: Monitor, log: seq<Byte>, n: nat) {
    && m.offset <= n <= |log|
    && m.pending == log[m.offset..n]
    && NEWLINE !in m.pending
    && (|m.pending| == WINDOW || m.offset == 0 || log[m.offset - 1] == NEWLINE)
    && |m.pending| <= WINDOW
  }

  /** A reported position is the start of a real match within one line. */
  lemma FeedSound(fatal: Pattern, m: Monitor, log: seq<Byte>, n: nat, n': nat) returns (end: nat)
    requires Follows(m, log, n) && n <= n' <= |log|
    requires Feed(fatal, m, log[n..n']).Err?
    ensures end <= n' && FatalAt(fatal, log, Feed(fatal, m, log[n..n']).error, end)
  {
    var text := m.pending + log[n..n'];
    var lines, o := Split(text), Feed(fatal, m, log[n..n']).error;
    SliceJoin(log, m.offset, n, n');
    SplitFacts(text);
    var l := ScanSound(fatal, lines, 0, m.offset);
    end := HitIsFatal(fatal, log, m.offset, n', lines, l, o);
  }

  /** The lines before the hit have no match, and the hit is the leftmost in its line. */
  ghost predicate FirstHit(fatal: Pattern, lines: seq<seq<Byte>>, at: nat, l: nat, o: nat) {
    && l < |lines| && at + Start(lines, l) <= o
    && Search(fatal, lines[l], 0) == Some(o - at - Start(lines, l))
    && forall k: nat | k < l :: Search(fatal, lines[k], 0).None?
  }

  lemma {:induction false} ScanFirst(fatal: Pattern, lines: seq<seq<Byte>>, k: nat, at: nat, from: nat) returns (l: nat)
    requires k <= |lines| && from == at + Start(lines, k) && ScanLines(fatal, lines, k, from).Some?
    requires forall i: nat | i < k :: Search(fatal, lines[i], 0).None?
    ensures FirstHit(fatal, lines, at, l, ScanLines(fatal, lines, k, from).value)
    decreases |lines| - k
  {
    if Search(fatal, lines[k], 0).Some? {
      l := k;
    } else {
      l := ScanFirst(fatal, lines, k + 1, at, from + |lines[k]| + 1);
    }
  }

  /** A match that begins before a first hit would have been a hit itself. */
  lemma NothingBeforeFirstHit(fatal: Pattern, log: seq<Byte>, at: nat, n: nat, lines: seq<seq<Byte>>, l: nat, o: nat,
                              i: nat, j: nat)
    requires at <= i <= j <= n <= |log| && LinesOf(log[at..n], lines) && FirstHit(fatal, lines, at, l, o) && i < o
    ensures !FatalAt(fatal, log, i, j)
  {
    if FatalAt(fatal, log, i, j) {
      var k := MatchInLine(fatal, log, at, n, lines, i, j);
      if k > l {
        LaterLine(lines, l, k);
      }
    }
  }

  /** A later line starts after an earlier one has ended. */
  lemma {:induction false} LaterLine(lines: seq<seq<Byte>>, l: nat, k: nat)
    requires l < k < |lines|
    ensures Start(lines, l) + |lines[l]| < Start(lines, k)
    decreases k
  {
    if k > l + 1 {
      LaterLine(lines, l, k - 1);
    }
  }

  /** The line in which a match lies, and its place there. */
  lemma MatchInLine(fatal: Pattern, log: seq<Byte>, at: nat, n: nat, lines: seq<seq<Byte>>, i: nat, j: nat)
    returns (k: nat)
    requires at <= i <= j <= n <= |log| && LinesOf(log[at..n], lines) && FatalAt(fatal, log, i, j)
    ensures k < |lines| && Start(lines, k) <= i - at <= Start(lines, k) + |lines[k]|
    ensures MatchesFrom(fatal, lines[k], i - at - Start(lines, k))
  {
    var text, a, b := log[at..n], i - at, j - at;
    Slice(log, at, n, a, b);
    k := InOneLine(text, lines, a, b);
    var s := Start(lines, k);
    assert LineOf(text, lines, k);
    Slice(text, s, s + |lines[k]|, a - s, b - s);
    assert lines[k][a - s..b - s] == log[i..j];
  }

  /** A report names the first match: none begins before it in what the monitor held. */
  lemma FeedFirst(fatal: Pattern, m: Monitor, log: seq<Byte>, n: nat, n': nat, i: nat, j: nat)
    requires Follows(m, log, n) && n <= n' <= |log| && Feed(fatal, m, log[n..n']).Err?
    requires m.offset <= i < Feed(fatal, m, log[n..n']).error && i <= j <= n'
    ensures !FatalAt(fatal, log, i, j)
  {
    var lines, o := Split(log[m.offset..n']), Feed(fatal, m, log[n..n']).error;
    FeedIs(fatal, m, log, n, n');
    SplitFacts(log[m.offset..n']);
    var l := ScanFirst(fatal, lines, 0, m.offset, m.offset);
    NothingBeforeFirstHit(fatal, log, m.offset, n', lines, l, o, i, j);
  }

  /** A hit in line l of the text at [at, n) is a match in the log. */
  lemma HitIsFatal(fatal: Pattern, log: seq<Byte>, at: nat, n: nat, lines: seq<seq<Byte>>, l: nat, o: nat)
    returns (end: nat)
    requires at <= n <= |log| && LinesOf(log[at..n], lines) && HitInLine(fatal, lines, 0, at, l, o)
    ensures end <= n && FatalAt(fatal, log, o, end)
  {
    var s := Start(lines, l);
    var i := o - at - s;
    var j :| i <= j <= |lines[l]| && fatal(lines[l][i..j]);
    assert LineOf(log[at..n], lines, l);
    Slice(log, at, n, s, s + |lines[l]|);
    Slice(log, at + s, at + s + |lines[l]|, i, j);
    end := at + s + j;
    assert log[o..end] == lines[l][i..j];
  }

  /** A match that ends in the new bytes starts within what the monitor holds. */
  lemma NewMatchIsHeld(fatal: Pattern, m: Monitor, log: seq<Byte>, n: nat, i: nat, j: nat)
    requires Follows(m, log, n) && n < j && j - i <= SPAN && FatalAt(fatal, log, i, j)
    ensures m.offset <= i
  {
    forall x | i <= x < j
      ensures log[x] != NEWLINE
    {
      assert log[x] == log[i..j][x - i];
    }
  }

  /** A match within the text at [at, n) shows in the lines of that text. */
  lemma MatchShows(fatal: Pattern, log: seq<Byte>, at: nat, n: nat, lines: seq<seq<Byte>>, i: nat, j: nat)
    returns (k: nat)
    requires at <= i <= j <= n <= |log| && LinesOf(log[at..n], lines) && FatalAt(fatal, log, i, j)
    ensures k < |lines| && Search(fatal, lines[k], 0).Some?
  {
    k := MatchInLine(fatal, log, at, n, lines, i, j);
  }

  /** Silence means there was nothing to report: no bounded match ends in the new bytes. */
  lemma FeedComplete(fatal: Pattern, m: Monitor, log: seq<Byte>, n: nat, n': nat)
    requires Follows(m, log, n) && n <= n' <= |log| && Clean(fatal, log, n)
    requires Feed(fatal, m, log[n..n']).Ok?
    ensures Clean(fatal, log, n')
  {
    var text := m.pending + log[n..n'];
    var lines := Split(text);
    SliceJoin(log, m.offset, n, n');
    SplitFacts(text);
    var l := ScanSound(fatal, lines, 0, m.offset);
    forall i: nat, j: nat | i <= j <= n' && j - i <= SPAN
      ensures !FatalAt(fatal, log, i, j)
    {
      if n < j && FatalAt(fatal, log, i, j) {
        NewMatchIsHeld(fatal, m, log, n, i, j);
        var k := MatchShows(fatal, log, m.offset, n', lines, i, j);
      }
    }
  }

  /** Trimming a line that starts afresh, or already fills the window, keeps enough of it. */
  lemma TrimFollows(log: seq<Byte>, at: nat, n: nat)
    requires at <= n <= |log| && NEWLINE !in log[at..n]
    requires at == 0 || log[at - 1] == NEWLINE || WINDOW <= n - at
    ensures Follows(Trim(log[at..n], at), log, n)
  {
    if n - at > WINDOW {
      Slice(log, at, n, n - at - WINDOW, n - at);
      assert log[at..n][n - at - WINDOW..] == log[at..n][n - at - WINDOW..n - at];
      forall x | x in log[n - WINDOW..n]
        ensures x in log[at..n]
      {
        var i :| 0 <= i < WINDOW && log[n - WINDOW..n][i] == x;
        assert log[at..n][n - WINDOW - at + i] == x;
      }
    }
  }

  /** The unfinished line's start: a fresh one, or that of the line already held. */
  lemma TailStarts(m: Monitor, log: seq<Byte>, n: nat, n': nat, from: nat)
    requires Follows(m, log, n) && n <= n' <= |log| && from <= n' - m.offset
    requires from == 0 || log[m.offset..n'][from - 1] == NEWLINE
    ensures var at := m.offset + from; at == 0 || log[at - 1] == NEWLINE || WINDOW <= n' - at
  {
    if from > 0 {
      assert log[m.offset..n'][from - 1] == log[m.offset + from - 1];
    }
  }

  /** The unfinished line of the text at [at, n). */
  lemma TailText(log: seq<Byte>, at: nat, n: nat, lines: seq<seq<Byte>>)
    requires at <= n <= |log| && LinesOf(log[at..n], lines)
    ensures var from := Start(lines, |lines| - 1);
            at + from <= n && Last(lines) == log[at + from..n] && NEWLINE !in Last(lines)
  {
    LastToEnd(log[at..n], lines);
    SliceTail(log, at, n, Start(lines, |lines| - 1));
  }

  /** Feeding the new bytes searches the lines of everything held. */
  lemma FeedIs(fatal: Pattern, m: Monitor, log: seq<Byte>, n: nat, n': nat)
    requires Follows(m, log, n) && n <= n' <= |log|
    ensures Feed(fatal, m, log[n..n']) == FeedLines(fatal, Split(log[m.offset..n']), m.offset)
  {
    SliceJoin(log, m.offset, n, n');
  }

  lemma LinesFollow(m: Monitor, log: seq<Byte>, n: nat, n': nat, lines: seq<seq<Byte>>)
    requires Follows(m, log, n) && n <= n' <= |log| && LinesOf(log[m.offset..n'], lines)
    ensures Follows(Unfinished(lines, m.offset), log, n')
  {
    var from := Start(lines, |lines| - 1);
    TailText(log, m.offset, n', lines);
    StartsAfterNewline(log[m.offset..n'], lines, |lines| - 1, from);
    TailStarts(m, log, n, n', from);
    TrimFollows(log, m.offset + from, n');
  }

  /** The next state follows the log that much further. */
  lemma FeedFollows(fatal: Pattern, m: Monitor, log: seq<Byte>, n: nat, n': nat)
    requires Follows(m, log, n) && n <= n' <= |log|
    requires Feed(fatal, m, log[n..n']).Ok?
    ensures Follows(Feed(fatal, m, log[n..n']).value, log, n')
  {
    FeedIs(fatal, m, log, n, n');
    SplitFacts(log[m.offset..n']);
    LinesFollow(m, log, n, n', Split(log[m.offset..n']));
    FeedLinesKeeps(fatal, Split(log[m.offset..n']), m.offset);
  }

  lemma FeedLinesKeeps(fatal: Pattern, lines: seq<seq<Byte>>, at: nat)
    requires lines != [] && FeedLines(fatal, lines, at).Ok?
    ensures FeedLines(fatal, lines, at).value == Unfinished(lines, at)
  {
  }

  // ----- Any way of cutting the log into reads -----

  function FeedAll(fatal: Pattern, chunks: seq<seq<Byte>>): Result<Monitor, nat> {
    if chunks == [] then Ok(Monitor([], 0))
    else
      match FeedAll(fatal, DropLast(chunks))
      case Err(at) => Err(at)
      case Ok(m) => Feed(fatal, m, Last(chunks))
  }

  lemma ClearerLog(fatal: Pattern, log: seq<Byte>, more: seq<Byte>, i: nat, j: nat)
    requires j <= |log|
    ensures FatalAt(fatal, log + more, i, j) <==> FatalAt(fatal, log, i, j)
  {
    if i <= j {
      assert (log + more)[i..j] == log[i..j];
    }
  }

  /** What a monitor may say of a log it has read. */
  ghost predicate Faithful(fatal: Pattern, log: seq<Byte>, r: Result<Monitor, nat>) {
    match r
    case Err(at) => exists end: nat :: FatalAt(fatal, log, at, end)
    case Ok(m) => Follows(m, log, |log|) && Clean(fatal, log, |log|)
  }

  lemma StillClean(fatal: Pattern, log: seq<Byte>, n: nat, more: seq<Byte>)
    requires n <= |log| && Clean(fatal, log, n)
    ensures Clean(fatal, log + more, n)
  {
    forall i: nat, j: nat | i <= j <= n && j - i <= SPAN
      ensures !FatalAt(fatal, log + more, i, j)
    {
      ClearerLog(fatal, log, more, i, j);
    }
  }

  lemma FaithfulStep(fatal: Pattern, log: seq<Byte>, m: Monitor, chunk: seq<Byte>)
    requires Faithful(fatal, log, Ok(m))
    ensures Faithful(fatal, log + chunk, Feed(fatal, m, chunk))
  {
    var more, n := log + chunk, |log|;
    assert more[n..|more|] == chunk;
    FollowsMore(m, log, n, chunk);
    StillClean(fatal, log, n, chunk);
    if Feed(fatal, m, chunk).Err? {
      var end := FeedSound(fatal, m, more, n, |more|);
    } else {
      FeedComplete(fatal, m, more, n, |more|);
      FeedFollows(fatal, m, more, n, |more|);
    }
  }

  /** For every way of cutting a log into reads: a report is a real match at its
      true offset, and without a report no match of bounded span was there. */
  lemma {:induction false} AnyCutting(fatal: Pattern, chunks: seq<seq<Byte>>)
    requires !fatal([])
    ensures Faithful(fatal, Concat(chunks), FeedAll(fatal, chunks))
  {
    if chunks == [] {
      var empty: seq<Byte> := [];
      forall i: nat, j: nat | i <= j <= 0
        ensures !FatalAt(fatal, empty, i, j)
      {
        assert empty[i..j] == empty;
      }
    } else {
      var before, r := Concat(DropLast(chunks)), FeedAll(fatal, DropLast(chunks));
      AnyCutting(fatal, DropLast(chunks));
      match r
      case Err(at) =>
        var end: nat :| FatalAt(fatal, before, at, end);
        ClearerLog(fatal, before, Last(chunks), at, end);
      case Ok(m) => FaithfulStep(fatal, before, m, Last(chunks));
    }
  }

  // ----- The pattern that the monitor searches for -----

  const OPEN: Byte := 91   // [
  const CLOSE: Byte := 93  // ]
  const COLON: Byte := 58  // :
  const PAREN: Byte := 40  // (
  const POINT: Byte := 46  // .
  const SPACE: Byte := 32
  const ZERO: Byte := 48

  // "Kernel panic - not syncing:"
  const PANIC: seq<Byte> :=
    [75, 101, 114, 110, 101, 108, 32, 112, 97, 110, 105, 99, 32, 45, 32, 110, 111, 116] +
    [32, 115, 121, 110, 99, 105, 110, 103, 58]
  // "Out of memory"
  const OUT_OF_MEMORY: seq<Byte> := [79, 117, 116, 32, 111, 102, 32, 109, 101, 109, 111, 114, 121]
  // "Memory cgroup out of memory"
  const CGROUP_OUT_OF_MEMORY: seq<Byte> :=
    [77, 101, 109, 111, 114, 121, 32, 99, 103, 114, 111, 117, 112, 32] +
    [111, 117, 116, 32, 111, 102, 32, 109, 101, 109, 111, 114, 121]
  // "Killed process"
  const KILLED: seq<Byte> := [75, 105, 108, 108, 101, 100, 32, 112, 114, 111, 99, 101, 115, 115]

  predicate AllBlank(s: seq<Byte>) {
    forall i | 0 <= i < |s| :: s[i] == SPACE || 9 <= s[i] <= 13
  }

  predicate AllDigits(s: seq<Byte>) {
    forall i | 0 <= i < |s| :: ZERO <= s[i] <= 57
  }

  /** Digits, and possibly a point and more digits. */
  predicate Decimal(s: seq<Byte>) {
    exists k ::
      && 0 < k <= |s| && AllDigits(s[..k])
      && (k == |s| || (s[k] == POINT && k + 1 < |s| && AllDigits(s[k + 1..])))
  }

  /** An out-of-memory message, up to the bracket before the process's name. */
  ghost predicate Killing(s: seq<Byte>) {
    exists a, b, pid, c ::
      && AllBlank(a) && AllBlank(b) && AllDigits(pid) && AllBlank(c) && a != [] && b != [] && pid != [] && c != []
      && (s == OUT_OF_MEMORY + [COLON] + a + KILLED + b + pid + c + [PAREN] ||
          s == CGROUP_OUT_OF_MEMORY + [COLON] + a + KILLED + b + pid + c + [PAREN])
  }

  ghost predicate Message(s: seq<Byte>) {
    s == PANIC || Killing(s)
  }

  /** A kernel time stamp in brackets and one of the fatal messages. */
  ghost predicate GuestFatal(s: seq<Byte>) {
    exists a, stamp, b, message ::
      && AllBlank(a) && Decimal(stamp) && AllBlank(b) && Message(message)
      && s == [OPEN] + a + stamp + [CLOSE] + b + message
  }

  lemma MessageEnds(s: seq<Byte>)
    requires Message(s)
    ensures s != [] && Last(s) in [COLON, PAREN]
  {
  }

  lemma FatalDelimited(s: seq<Byte>)
    requires GuestFatal(s)
    ensures s != [] && s[0] == OPEN && Last(s) in [COLON, PAREN]
  {
    var a, stamp, b, message :|
      && AllBlank(a) && Decimal(stamp) && AllBlank(b) && Message(message)
      && s == [OPEN] + a + stamp + [CLOSE] + b + message;
    MessageEnds(message);
    assert Last(s) == Last(message);
  }

  // ----- The bound is exact -----

  /** Reads of the log as the monitor makes them. */
  ghost predicate Reads(chunks: seq<seq<Byte>>) {
    forall c | c in chunks :: 0 < |c| <= WINDOW
  }

  /** However the log is read, silence rules out every in-line match of this span. */
  ghost predicate NeverHides(fatal: Pattern, span: nat) {
    forall chunks | Reads(chunks) && FeedAll(fatal, chunks).Ok? ::
      forall i: nat, j: nat | FatalAt(fatal, Concat(chunks), i, j) :: j - i != span
  }

  /** Without an opening bracket, or without an end, there is no match. */
  ghost predicate Harmless(text: seq<Byte>) {
    OPEN !in text || (COLON !in text && PAREN !in text)
  }

  lemma FatalPart(text: seq<Byte>, i: nat, j: nat)
    requires i <= j <= |text| && GuestFatal(text[i..j])
    ensures !Harmless(text)
  {
    var part := text[i..j];
    FatalDelimited(part);
    assert part[0] in text && Last(part) in text;
  }

  lemma HarmlessSilent(text: seq<Byte>)
    requires Harmless(text)
    ensures Search(GuestFatal, text, 0) == None
  {
    forall i: nat, j: nat | i <= j <= |text|
      ensures !GuestFatal(text[i..j])
    {
      if GuestFatal(text[i..j]) {
        FatalPart(text, i, j);
      }
    }
  }

  lemma HarmlessFeed(m: Monitor, chunk: seq<Byte>)
    requires NEWLINE !in m.pending + chunk && Harmless(m.pending + chunk)
    ensures Feed(GuestFatal, m, chunk) == Ok(Trim(m.pending + chunk, m.offset))
  {
    var text := m.pending + chunk;
    OneLine(text);
    HarmlessSilent(text);
    assert ScanLines(GuestFatal, [text], 1, m.offset + |text| + 1) == None;
  }

  /** The log read one byte at a time. */
  function Bytewise(s: seq<Byte>): seq<seq<Byte>> {
    if s == [] then [] else Bytewise(DropLast(s)) + [[Last(s)]]
  }

  lemma BytewiseSnoc(s: seq<Byte>, b: Byte)
    ensures Bytewise(s + [b]) == Bytewise(s) + [[b]]
  {
    assert DropLast(s + [b]) == s;
  }

  lemma {:induction false} BytewiseFacts(s: seq<Byte>)
    ensures Concat(Bytewise(s)) == s && Reads(Bytewise(s))
  {
    if s != [] {
      var init, b := DropLast(s), Last(s);
      assert s == init + [b];
      BytewiseFacts(init);
      BytewiseSnoc(init, b);
      ConcatSnoc(Bytewise(init), [b]);
      ReadsSnoc(Bytewise(init), [b]);
    }
  }

  lemma ReadsSnoc(chunks: seq<seq<Byte>>, chunk: seq<Byte>)
    requires Reads(chunks) && 0 < |chunk| <= WINDOW
    ensures Reads(chunks + [chunk])
  {
  }

  /** A long line that opens at its first byte only, and ends a match at its last only. */
  ghost predicate Stretched(log: seq<Byte>) {
    && |log| > SPAN && NEWLINE !in log
    && (forall i | 0 < i < |log| :: log[i] != OPEN)
    && (forall i | 0 <= i < |log| - 1 :: log[i] != COLON && log[i] != PAREN)
  }

  /** The byte before which the monitor, having read n, has forgotten everything. */
  function Kept(n: nat): nat {
    if n > WINDOW then n - WINDOW else 0
  }

  lemma TrimIs(log: seq<Byte>, at: nat, n: nat)
    requires at <= n <= |log| && at <= Kept(n)
    ensures Trim(log[at..n], at) == Monitor(log[Kept(n)..n], Kept(n))
  {
    if n - at > WINDOW {
      SliceTail(log, at, n, n - at - WINDOW);
    }
  }

  lemma StretchedHarmless(log: seq<Byte>, n: nat)
    requires Stretched(log) && n < |log|
    ensures NEWLINE !in log[Kept(n)..n + 1] && Harmless(log[Kept(n)..n + 1])
  {
    var at := Kept(n);
    var text := log[at..n + 1];
    assert forall i | 0 <= i < |text| :: text[i] == log[at + i] && text[i] in log;
  }

  /** One byte more moves the window, and nothing is noticed. */
  lemma FeedByte(log: seq<Byte>, k: nat, m: Monitor, one: seq<Byte>)
    requires Stretched(log) && k < |log| && m == Monitor(log[Kept(k)..k], Kept(k)) && one == [log[k]]
    ensures Feed(GuestFatal, m, one) == Ok(Monitor(log[Kept(k + 1)..k + 1], Kept(k + 1)))
  {
    StretchedHarmless(log, k);
    assert m.pending + one == log[Kept(k)..k + 1];
    HarmlessFeed(m, one);
    TrimIs(log, Kept(k), k + 1);
  }

  /** Byte by byte, a stretched line passes unnoticed. */
  lemma {:induction false} FeedBytewise(log: seq<Byte>, n: nat)
    requires Stretched(log) && n <= |log|
    ensures FeedAll(GuestFatal, Bytewise(log[..n])) == Ok(Monitor(log[Kept(n)..n], Kept(n)))
  {
    if n > 0 {
      var k := n - 1;
      var m := Monitor(log[Kept(k)..k], Kept(k));
      FeedBytewise(log, k);
      assert log[..n] == log[..k] + [log[k]];
      BytewiseSnoc(log[..k], log[k]);
      FeedAllSnoc(GuestFatal, Bytewise(log[..k]), m, [log[k]]);
      FeedByte(log, k, m, [log[k]]);
    }
  }

  lemma FeedAllSnoc(fatal: Pattern, chunks: seq<seq<Byte>>, m: Monitor, chunk: seq<Byte>)
    requires FeedAll(fatal, chunks) == Ok(m)
    ensures FeedAll(fatal, chunks + [chunk]) == Feed(fatal, m, chunk)
  {
    assert DropLast(chunks + [chunk]) == chunks;
  }

  /** A kernel panic whose time stamp is padded with n blanks. */
  ghost predicate PaddedPanic(log: seq<Byte>, n: nat) {
    && |log| == n + 30 && log[0] == OPEN && log[n + 1] == ZERO && log[n + 2] == CLOSE && log[n + 3..] == PANIC
    && forall i | 0 < i <= n :: log[i] == SPACE
  }

  lemma PaddedPanicExists(n: nat) returns (log: seq<Byte>)
    ensures PaddedPanic(log, n) && GuestFatal(log)
  {
    var blanks: seq<Byte>, stamp: seq<Byte>, none: seq<Byte> := seq(n, _ => SPACE), [ZERO], [];
    assert stamp[..1] == stamp;
    assert AllBlank(blanks) && Decimal(stamp) && AllBlank(none) && Message(PANIC);
    log := [OPEN] + blanks + stamp + [CLOSE] + none + PANIC;
  }

  lemma PanicBytes(i: nat)
    requires i < |PANIC|
    ensures |PANIC| == 27 && PANIC[i] !in [NEWLINE, OPEN, PAREN] && (PANIC[i] == COLON ==> i == 26)
  {
  }

  lemma PaddedPanicStretched(log: seq<Byte>, n: nat)
    requires PaddedPanic(log, n) && n + 30 > SPAN
    ensures Stretched(log)
  {
    forall i | 0 <= i < |log|
      ensures log[i] != NEWLINE && log[i] != PAREN
      ensures (log[i] == OPEN ==> i == 0) && (log[i] == COLON ==> i == |log| - 1)
    {
      if i >= n + 3 {
        assert log[i] == PANIC[i - (n + 3)];
        PanicBytes(i - (n + 3));
      }
    }
  }

  lemma HiddenBytewise(log: seq<Byte>, span: nat) returns (chunks: seq<seq<Byte>>)
    requires Stretched(log) && GuestFatal(log) && span == |log|
    ensures Reads(chunks) && FeedAll(GuestFatal, chunks).Ok?
    ensures FatalAt(GuestFatal, Concat(chunks), 0, span)
  {
    chunks := Bytewise(log);
    assert log[..|log|] == log;
    FeedBytewise(log, |log|);
    BytewiseFacts(log);
    assert log[0..|log|] == log;
  }

  /** Every longer match can be hidden, by reading it byte by byte. */
  lemma LongerMatchHidden(span: nat) returns (chunks: seq<seq<Byte>>)
    requires span > SPAN
    ensures Reads(chunks) && FeedAll(GuestFatal, chunks).Ok?
    ensures FatalAt(GuestFatal, Concat(chunks), 0, span)
  {
    var log := PaddedPanicExists(span - 30);
    PaddedPanicStretched(log, span - 30);
    chunks := HiddenBytewise(log, span);
  }

  /** The monitor never hides a match of this span if and only if the span is at
      most SPAN: for the kernel messages it searches for, and for any pattern. */
  lemma SpanExact(span: nat)
    ensures NeverHides(GuestFatal, span) <==> span <= SPAN
    ensures (forall fatal: Pattern | !fatal([]) :: NeverHides(fatal, span)) <==> span <= SPAN
  {
    if GuestFatal([]) {
      FatalDelimited([]);
    }
    if span <= SPAN {
      forall fatal: Pattern | !fatal([])
        ensures NeverHides(fatal, span)
      {
        ShorterMatchSeen(fatal, span);
      }
    } else {
      var chunks := LongerMatchHidden(span);
    }
  }

  lemma ShorterMatchSeen(fatal: Pattern, span: nat)
    requires !fatal([]) && span <= SPAN
    ensures NeverHides(fatal, span)
  {
    forall chunks | Reads(chunks) && FeedAll(fatal, chunks).Ok?
      ensures forall i: nat, j: nat | FatalAt(fatal, Concat(chunks), i, j) :: j - i != span
    {
      AnyCutting(fatal, chunks);
    }
  }

  lemma FollowsMore(m: Monitor, log: seq<Byte>, n: nat, more: seq<Byte>)
    requires Follows(m, log, n)
    ensures Follows(m, log + more, n)
  {
    assert (log + more)[m.offset..n] == log[m.offset..n];
  }

  // ----- The monitor as an object -----

  datatype Outcome = More | Idle | Fatal(at: nat)

  class GuestSerialMonitor {
    var pending: seq<Byte>
    var offset: nat
    var position: nat  // the stream's own position

    ghost predicate Valid(fatal: Pattern, log: seq<Byte>)
      reads this
    {
      Follows(Monitor(pending, offset), log, position) && Clean(fatal, log, position)
    }

    constructor (fatal: Pattern)
      requires !fatal([])
      ensures position == 0 && forall log :: Valid(fatal, log)
    {
      pending, offset, position := [], 0, 0;
      new;
      forall log: seq<Byte>, i: nat, j: nat | i <= j <= 0
        ensures !FatalAt(fatal, log, i, j)
      {
        assert log[i..j] == [];
      }
    }

    /** The log may grow between polls, wherever the monitor stands in it. */
    lemma ValidMore(fatal: Pattern, log: seq<Byte>, more: seq<Byte>)
      requires Valid(fatal, log)
      ensures Valid(fatal, log + more)
    {
      FollowsMore(Monitor(pending, offset), log, position, more);
      StillClean(fatal, log, position, more);
    }

    /** Search the lines that one chunk completes or extends. */
    method Consume(fatal: Pattern, chunk: seq<Byte>) returns (hit: Option<nat>)
      modifies this
      ensures position == old(position)
      ensures var r := Feed(fatal, Monitor(old(pending), old(offset)), chunk);
              hit == (if r.Err? then Some(r.error) else None) && (r.Ok? ==> Monitor(pending, offset) == r.value)
    {
      pending := pending + chunk;
      var lines := Split(pending);
      hit := SearchLines(fatal, lines);
      if hit.Some? {
        return;
      }
      pending := Last(lines);
      if |pending| > WINDOW {
        offset := offset + |pending| - WINDOW;
        pending := pending[|pending| - WINDOW..];
      }
    }

    /** Walk over the lines, moving the offset past each finished one. */
    method SearchLines(fatal: Pattern, lines: seq<seq<Byte>>) returns (hit: Option<nat>)
      requires lines != []
      modifies this`offset
      ensures hit == ScanLines(fatal, lines, 0, old(offset))
      ensures hit.None? ==> offset == old(offset) + Start(lines, |lines| - 1)
    {
      var k := 0;
      while k < |lines|
        invariant 0 <= k <= |lines|
        invariant offset == old(offset) + Start(lines, if k < |lines| then k else |lines| - 1)
        invariant ScanLines(fatal, lines, 0, old(offset)) == ScanLines(fatal, lines, k, old(offset) + Start(lines, k))
      {
        var found := Search(fatal, lines[k], 0);
        if found.Some? {
          return Some(offset + found.value);
        }
        if k < |lines| - 1 {
          offset := offset + |lines[k]| + 1;
        }
        k := k + 1;
      }
      return None;
    }

    /** One poll over a log that stands at `log`, up to an optional limit. A
        read returns any nonempty part of what is asked for and there, and
        nothing only at the end of the log. */
    method Check(fatal: Pattern, log: seq<Byte>, limit: Option<nat>) returns (r: Outcome)
      requires Valid(fatal, log)
      modifies this
      ensures old(position) <= position <= |log|
      ensures limit.Some? ==> position <= old(position) || position <= limit.value
      ensures r.Fatal? ==> exists end: nat :: end <= position && FatalAt(fatal, log, r.at, end)
      ensures !r.Fatal? ==> Valid(fatal, log)
      ensures r.More? ==> old(position) < position
      ensures r.Idle? ==> position == |log| || (limit.Some? && limit.value <= position)
    {
      var polls := 0;
      while polls < READS_PER_POLL
        invariant 0 <= polls <= READS_PER_POLL && Valid(fatal, log)
        invariant old(position) <= position && (polls > 0 ==> old(position) < position)
        invariant limit.Some? ==> position <= old(position) || position <= limit.value
      {
        var size := if limit.None? || limit.value - position > WINDOW then WINDOW else limit.value - position;
        if size <= 0 {
          return Idle;
        }
        if position == |log| {
          return Idle;
        }
        var count :| 1 <= count <= size && count <= |log| - position;
        var from, to := position, position + count;
        ghost var m := Monitor(pending, offset);
        position := to;
        var hit := Consume(fatal, log[from..to]);
        if hit.Some? {
          ghost var end := FeedSound(fatal, m, log, from, to);
          return Fatal(hit.value);
        }
        FeedComplete(fatal, m, log, from, to);
        FeedFollows(fatal, m, log, from, to);
        polls := polls + 1;
      }
      return More;
    }

    /** The final drain ends, having reported a real match or scanned every
        byte up to the size the log had when the guest stopped. */
    method Drain(fatal: Pattern, log: seq<Byte>, serialEnd: nat) returns (r: Outcome)
      requires Valid(fatal, log) && serialEnd <= |log|
      modifies this
      ensures r.Fatal? ==> exists end: nat :: FatalAt(fatal, log, r.at, end)
      ensures !r.Fatal? ==> serialEnd <= position && Clean(fatal, log, serialEnd)
    {
      r := Check(fatal, log, Some(serialEnd));
      while r.More?
        invariant position <= |log|
        invariant r.More? ==> Valid(fatal, log) && position <= serialEnd
        invariant r.Fatal? ==> exists end: nat :: FatalAt(fatal, log, r.at, end)
        invariant r.Idle? ==> Valid(fatal, log) && serialEnd <= position
        decreases |log| - position, r.More?
      {
        r := Check(fatal, log, Some(serialEnd));
      }
    }

    /** The whole watch: the log grows, each growth followed by one poll that may
        leave bytes unread, and at the end the rest is drained. It reports a real
        match, or there is none of bounded span in the whole log. */
    method Watch(fatal: Pattern, growth: seq<seq<Byte>>) returns (r: Outcome)
      requires Valid(fatal, [])
      modifies this
      ensures r.Fatal? ==> exists end: nat :: FatalAt(fatal, Concat(growth), r.at, end)
      ensures !r.Fatal? ==> Clean(fatal, Concat(growth), |Concat(growth)|)
    {
      var log: seq<Byte> := [];
      for i := 0 to |growth|
        invariant log == Concat(growth[..i]) && Valid(fatal, log)
      {
        ValidMore(fatal, log, growth[i]);
        assert growth[..i + 1] == growth[..i] + [growth[i]];
        ConcatSnoc(growth[..i], growth[i]);
        log := log + growth[i];
        r := Check(fatal, log, None);
        if r.Fatal? {
          FatalInTheEnd(fatal, growth, i + 1, r.at);
          return;
        }
      }
      assert growth[..|growth|] == growth;
      r := Drain(fatal, log, |log|);
    }
  }

  /** A match in what was read so far is a match in the whole log. */
  lemma FatalInTheEnd(fatal: Pattern, growth: seq<seq<Byte>>, n: nat, at: nat)
    requires n <= |growth| && exists end: nat :: FatalAt(fatal, Concat(growth[..n]), at, end)
    ensures exists end: nat :: FatalAt(fatal, Concat(growth), at, end)
  {
    ConcatGrows(growth, n);
    FatalInLonger(fatal, Concat(growth[..n]), Concat(growth), at);
  }

  lemma FatalInLonger(fatal: Pattern, log: seq<Byte>, whole: seq<Byte>, at: nat)
    requires log <= whole && exists end: nat :: FatalAt(fatal, log, at, end)
    ensures exists end: nat :: FatalAt(fatal, whole, at, end)
  {
    var end: nat :| FatalAt(fatal, log, at, end);
    assert whole == log + whole[|log|..];
    ClearerLog(fatal, log, whole[|log|..], at, end);
  }
}
