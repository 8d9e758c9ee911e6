/**
 Request IDs on the wire: the epoch they carry, and the line framing that
 delivers them whatever the chunks a pipe is read in.
 */
module RequestIds {
  import opened Prelude
  import opened Lines

  // ----- Epochs -----

  function Digit(d: nat): char
    requires d < 10
  {
    '0' + d as char
  }

  predicate IsDigit(c: char) {
    '0' <= c <= '9'
  }

  function Decimal(n: nat): (s: string)
    ensures s != [] && forall i | 0 <= i < |s| :: IsDigit(s[i])
  {
    if n < 10 then [Digit(n)] else Decimal(n / 10) + [Digit(n % 10)]
  }

  /** Digits, with single underscores allowed between them. */
  function Digits(s: string): Option<nat> {
    if s == [] || !IsDigit(Last(s)) then None
    else
      var d := (Last(s) - '0') as nat;
      var front := DropLast(s);
      if front == [] then Some(d)
      else
        var rest := if Last(front) == '_' then DropLast(front) else front;
        match Digits(rest)
        case None => None
        case Some(v) => Some(10 * v + d)
  }

  predicate IsSpace(c: char) {
    c == ' ' || '\t' <= c <= '\r' || 28 <= c as int <= 31
  }

  function StripLeft(s: string): string {
    if s != [] && IsSpace(s[0]) then StripLeft(s[1..]) else s
  }

  function StripRight(s: string): string {
    if s != [] && IsSpace(Last(s)) then StripRight(DropLast(s)) else s
  }

  /** Python's int() on ASCII text. */
  function ParseInt(text: string): Option<int> {
    var s := StripRight(StripLeft(text));
    if s != [] && s[0] == '-' then
      match Digits(s[1..])
      case None => None
      case Some(v) => Some(-(v as int))
    else
      match Digits(if s != [] && s[0] == '+' then s[1..] else s)
      case None => None
      case Some(v) => Some(v)
  }

  /** The position of the first c, or -1. */
  function Find(s: string, c: char): int {
    if s == [] then -1
    else if s[0] == c then 0
    else
      var i := Find(s[1..], c);
      if i < 0 then -1 else i + 1
  }

  lemma {:induction false} FindRange(s: string, c: char)
    ensures -1 <= Find(s, c) < |s|
    ensures Find(s, c) >= 0 ==> s[Find(s, c)] == c
  {
    if s != [] {
      FindRange(s[1..], c);
    }
  }

  function EpochOf(rid: string): Option<int> {
    if !StartsWith(rid, "ep") then None
    else
      var dot := Find(rid, '.');
      if dot < 3 then None
      else
        FindRange(rid, '.');
        ParseInt(rid[2..dot])
  }

  function TaggedId(epoch: nat, uuid: string): string {
    "ep" + Decimal(epoch) + "." + uuid
  }

  lemma {:induction false} DigitsOfDecimal(n: nat)
    ensures Digits(Decimal(n)) == Some(n)
  {
    if n >= 10 {
      DigitsOfDecimal(n / 10);
      var s := Decimal(n);
      assert DropLast(s) == Decimal(n / 10);
      assert IsDigit(Last(DropLast(s)));
    }
  }

  /** The number v moved n decimal places to the left. */
  function Shifted(v: nat, n: nat): nat {
    if n == 0 then v else 10 * Shifted(v, n - 1)
  }

  lemma DigitsSnoc(s: string, v: nat, c: char)
    requires IsDigit(c) && s != [] && IsDigit(Last(s)) && Digits(s) == Some(v)
    ensures Digits(s + [c]) == Some(10 * v + (c - '0') as nat)
  {
    assert DropLast(s + [c]) == s;
  }

  predicate AllDigits(s: string) {
    s != [] && forall i | 0 <= i < |s| :: IsDigit(s[i])
  }

  /** One digit more on the right. */
  lemma PlaceStep(a: string, shifted: nat, b: string, vb: nat, c: char)
    requires AllDigits(a) && AllDigits(b) && IsDigit(c) && Digits(a + b) == Some(shifted + vb)
    ensures Digits(a + (b + [c])) == Some(10 * shifted + (10 * vb + (c - '0') as nat))
  {
    assert a + (b + [c]) == (a + b) + [c] && Last(a + b) == Last(b);
    DigitsSnoc(a + b, shifted + vb, c);
  }

  /** Digits count by their place, the most significant first. */
  lemma {:induction false} DigitsByPlace(a: string, va: nat, b: string)
    requires AllDigits(a) && AllDigits(b) && Digits(a) == Some(va)
    ensures Digits(b).Some? && Digits(a + b) == Some(Shifted(va, |b|) + Digits(b).value)
    decreases |b|
  {
    var init, c := DropLast(b), Last(b);
    assert Shifted(va, |b|) == 10 * Shifted(va, |init|);
    if init == [] {
      assert b == [c];
      DigitsSnoc(a, va, c);
    } else {
      assert b == init + [c];
      DigitsByPlace(a, va, init);
      PlaceStep(a, Shifted(va, |init|), init, Digits(init).value, c);
      DigitsSnoc(init, Digits(init).value, c);
    }
  }

  /** A single underscore between digits is ignored. */
  lemma UnderscoreIgnored(a: string, c: char)
    requires AllDigits(a) && IsDigit(c)
    ensures Digits(a + "_" + [c]) == Digits(a + [c])
  {
    assert DropLast(a + "_" + [c]) == a + "_" && DropLast(a + "_") == a;
    assert DropLast(a + [c]) == a;
  }

  lemma DecimalParses(n: nat)
    ensures ParseInt(Decimal(n)) == Some(n)
  {
    var s := Decimal(n);
    assert IsDigit(s[0]) && IsDigit(Last(s));
    assert StripLeft(s) == s && StripRight(s) == s;
    DigitsOfDecimal(n);
  }

  lemma {:induction false} FindFirst(front: string, c: char, back: string)
    requires c !in front
    ensures Find(front + [c] + back, c) == |front|
  {
    var s := front + [c] + back;
    if front != [] {
      assert s[0] == front[0] && s[1..] == front[1..] + [c] + back;
      assert front[0] in front;
      FindFirst(front[1..], c, back);
    }
  }

  /** The epoch of a tagged ID can be read back, for every epoch and suffix. */
  lemma EpochRoundTrip(epoch: nat, uuid: string)
    ensures EpochOf(TaggedId(epoch, uuid)) == Some(epoch)
  {
    var rid, digits := TaggedId(epoch, uuid), Decimal(epoch);
    var front := "ep" + digits;
    assert '.' !in digits by {
      forall c | c in digits
        ensures c != '.'
      {
        var i :| 0 <= i < |digits| && digits[i] == c;
      }
    }
    assert rid == front + ['.'] + uuid;
    FindFirst(front, '.', uuid);
    assert rid[..2] == "ep";
    assert rid[2..|front|] == digits;
    DecimalParses(epoch);
  }

  /** A request without the prefix, without a dot or with nothing between them has no epoch. */
  lemma NoEpoch(rid: string)
    requires !StartsWith(rid, "ep") || '.' !in rid || (|rid| > 2 && rid[2] == '.')
    ensures EpochOf(rid) == None
  {
    FindRange(rid, '.');
    if StartsWith(rid, "ep") && |rid| > 2 && rid[2] == '.' {
      assert rid[..2] == "ep" && rid == rid[..2] + ['.'] + rid[3..];
      FindFirst(rid[..2], '.', rid[3..]);
    }
  }

  /** Signs are read as Python reads them. */
  lemma SignedParses(n: nat)
    ensures ParseInt("-" + Decimal(n)) == Some(0 - n as int) && ParseInt("+" + Decimal(n)) == Some(n)
  {
    var digits := Decimal(n);
    DigitsOfDecimal(n);
    forall sign: char | sign == '-' || sign == '+'
      ensures StripRight(StripLeft([sign] + digits)) == [sign] + digits && ([sign] + digits)[1..] == digits
    {
      var s := [sign] + digits;
      assert IsDigit(Last(s));
      assert StripLeft(s) == s && StripRight(s) == s;
    }
    assert "-" + digits == ['-'] + digits && "+" + digits == ['+'] + digits;
  }

  /** White space around a number does not matter. */
  lemma SpacesIgnored(c: char, text: string)
    requires c == ' ' || 9 <= c as int <= 13 || 28 <= c as int <= 31
    ensures ParseInt([c] + text) == ParseInt(text) && ParseInt(text + [c]) == ParseInt(text)
  {
    assert ([c] + text)[1..] == text;
    StripBoth(text, c);
  }

  lemma {:induction false} StripBoth(text: string, c: char)
    requires IsSpace(c)
    ensures StripRight(StripLeft(text + [c])) == StripRight(StripLeft(text))
  {
    var more := text + [c];
    if text == [] {
      assert more[1..] == [];
    } else if IsSpace(text[0]) {
      assert more[0] == text[0] && more[1..] == text[1..] + [c];
      StripBoth(text[1..], c);
    } else {
      assert more[0] == text[0] && DropLast(more) == text;
    }
  }

  predicate IsHex(s: string) {
    forall i | 0 <= i < |s| :: IsDigit(s[i]) || 'a' <= s[i] <= 'f'
  }

  /** A bare hexadecimal ID carries no epoch and is exempt from the filter. */
  lemma HexIsExempt(uuid: string)
    requires IsHex(uuid)
    ensures EpochOf(uuid) == None
  {
    if |uuid| >= 2 {
      assert uuid[..2][1] == uuid[1];
    }
  }

  /** Distinct tagged requests have distinct IDs: epoch and suffix can be told apart. */
  lemma TaggedIdInjective(e: nat, u: string, f: nat, v: string)
    requires TaggedId(e, u) == TaggedId(f, v)
    ensures e == f && u == v
  {
    EpochRoundTrip(e, u);
    EpochRoundTrip(f, v);
    var n := |"ep" + Decimal(e) + "."|;
    assert TaggedId(e, u)[n..] == u && TaggedId(f, v)[n..] == v;
  }

  // ----- Framing -----

  /** Decoding and stripping one line; an empty result is no ID. */
  type Decoder = seq<Byte> -> string

  function IdsOf(decode: Decoder, lines: seq<seq<Byte>>): seq<string> {
    if lines == [] then []
    else IdsOf(decode, DropLast(lines)) + if decode(Last(lines)) == "" then [] else [decode(Last(lines))]
  }

  lemma {:induction false} IdsOfAppend(decode: Decoder, a: seq<seq<Byte>>, b: seq<seq<Byte>>)
    ensures IdsOf(decode, a + b) == IdsOf(decode, a) + IdsOf(decode, b)
  {
    if b == [] {
      assert a + b == a;
    } else {
      var init, line := DropLast(b), Last(b);
      assert a + b == (a + init) + [line] && b == init + [line];
      IdsOfAppend(decode, a, init);
      IdsOfSnoc(decode, a + init, line);
      IdsOfSnoc(decode, init, line);
    }
  }

  lemma SplitLine(head: seq<Byte>)
    requires head != [] && Last(head) == NEWLINE && NEWLINE !in DropLast(head)
    ensures Split(head) == [DropLast(head)] + [[]]
  {
    OneLine(DropLast(head));
  }

  /** The first newline cuts off the first line. */
  lemma SplitAtFirst(s: seq<Byte>, k: nat)
    requires k < |s| && s[k] == NEWLINE && NEWLINE !in s[..k]
    ensures Split(s) == [s[..k]] + Split(s[k + 1..])
  {
    var head, rest := s[..k + 1], s[k + 1..];
    assert s == head + rest;
    SplitLine(head);
    SplitAppend(head, rest);
    assert DropLast(head) == s[..k] && [] + rest == rest;
  }

  function FirstNewline(s: seq<Byte>, from: nat): (k: nat)
    requires from <= |s| && NEWLINE in s[from..]
    ensures from <= k < |s| && s[k] == NEWLINE && NEWLINE !in s[from..k]
    decreases |s| - from
  {
    if s[from] == NEWLINE then from
    else
      assert s[from..] == [s[from]] + s[from + 1..];
      var k := FirstNewline(s, from + 1);
      assert s[from..k] == [s[from]] + s[from + 1..k];
      k
  }

  lemma IdsOfSnoc(decode: Decoder, lines: seq<seq<Byte>>, line: seq<Byte>)
    ensures IdsOf(decode, lines + [line]) == IdsOf(decode, lines) + if decode(line) == "" then [] else [decode(line)]
  {
    assert DropLast(lines + [line]) == lines;
  }

  lemma TakeLine(done: seq<seq<Byte>>, rest: seq<Byte>, k: nat)
    requires k < |rest| && rest[k] == NEWLINE && NEWLINE !in rest[..k]
    ensures done + Split(rest) == (done + [rest[..k]]) + Split(rest[k + 1..])
  {
    SplitAtFirst(rest, k);
  }

  lemma NoMoreLines(done: seq<seq<Byte>>, rest: seq<Byte>)
    requires NEWLINE !in rest
    ensures DropLast(done + Split(rest)) == done && Last(done + Split(rest)) == rest
  {
    OneLine(rest);
  }

  /** One read of the request pipe: the IDs it completes, and the rest. */
  method Receive(decode: Decoder, buf: seq<Byte>, chunk: seq<Byte>) returns (ids: seq<string>, rest: seq<Byte>)
    ensures ids == IdsOf(decode, DropLast(Split(buf + chunk)))
    ensures rest == Last(Split(buf + chunk))
  {
    ids, rest := [], buf + chunk;
    ghost var whole, done: seq<seq<Byte>> := Split(buf + chunk), [];
    assert done + Split(rest) == whole;
    while NEWLINE in rest
      invariant whole == done + Split(rest)
      invariant ids == IdsOf(decode, done)
      decreases |rest|
    {
      assert rest[0..] == rest;
      var k := FirstNewline(rest, 0);
      var line := rest[..k];
      assert rest[0..k] == line;
      TakeLine(done, rest, k);
      IdsOfSnoc(decode, done, line);
      if decode(line) != "" {
        ids := ids + [decode(line)];
      }
      done := done + [line];
      rest := rest[k + 1..];
    }
    NoMoreLines(done, rest);
  }

  /** The reader after any number of reads: all IDs so far, and the rest. */
  function ReceiveAll(decode: Decoder, chunks: seq<seq<Byte>>): (seq<string>, seq<Byte>) {
    if chunks == [] then ([], [])
    else
      var (ids, buf) := ReceiveAll(decode, DropLast(chunks));
      var lines := Split(buf + Last(chunks));
      (ids + IdsOf(decode, DropLast(lines)), Last(lines))
  }

  /** The IDs received depend on the bytes written, never on how they were cut into reads. */
  lemma {:induction false} AnyChunking(decode: Decoder, chunks: seq<seq<Byte>>)
    ensures var lines := Split(Concat(chunks));
            ReceiveAll(decode, chunks) == (IdsOf(decode, DropLast(lines)), Last(lines))
  {
    if chunks != [] {
      var before, chunk := Concat(DropLast(chunks)), Last(chunks);
      AnyChunking(decode, DropLast(chunks));
      SplitAppend(before, chunk);
      var front, more := DropLast(Split(before)), Split(Last(Split(before)) + chunk);
      assert DropLast(front + more) == front + DropLast(more);
      IdsOfAppend(decode, front, DropLast(more));
    }
  }

  /** What writers put on the pipe: each ID's bytes and a newline. */
  function Written(encode: string -> seq<Byte>, ids: seq<string>): seq<Byte> {
    if ids == [] then [] else Written(encode, DropLast(ids)) + (encode(Last(ids)) + [NEWLINE])
  }

  /** A whole line written after whole lines. */
  lemma WholeLine(before: seq<Byte>, line: seq<Byte>)
    requires NEWLINE !in line && Last(Split(before)) == []
    ensures Split(before + (line + [NEWLINE])) == DropLast(Split(before)) + [line] + [[]]
  {
    var text := line + [NEWLINE];
    SplitAppend(before, text);
    assert [] + text == text && DropLast(text) == line;
    OneLine(line);
    assert Split(text) == [line] + [[]];
  }

  /** These bytes are whole lines that hold exactly these IDs. */
  ghost predicate Delivers(decode: Decoder, bytes: seq<Byte>, ids: seq<string>) {
    var lines := Split(bytes);
    IdsOf(decode, DropLast(lines)) == ids && Last(lines) == []
  }

  lemma DeliversMore(decode: Decoder, before: seq<Byte>, line: seq<Byte>, ids: seq<string>)
    requires NEWLINE !in line && decode(line) != "" && Delivers(decode, before, ids)
    ensures Delivers(decode, before + (line + [NEWLINE]), ids + [decode(line)])
  {
    var done := DropLast(Split(before));
    WholeLine(before, line);
    IdsOfSnoc(decode, done, line);
    assert DropLast(done + [line] + [[]]) == done + [line];
  }

  lemma {:induction false} WrittenDelivers(decode: Decoder, encode: string -> seq<Byte>, ids: seq<string>)
    requires forall id | id in ids :: id != "" && NEWLINE !in encode(id) && decode(encode(id)) == id
    ensures Delivers(decode, Written(encode, ids), ids)
  {
    if ids != [] {
      var front, id := DropLast(ids), Last(ids);
      assert id in ids;
      assert forall x | x in front :: x in ids;
      WrittenDelivers(decode, encode, front);
      DeliversMore(decode, Written(encode, front), encode(id), front);
      assert front + [id] == ids;
    }
  }

  /** Every ID written arrives, once and in order, however the pipe is read. */
  lemma EveryIdArrives(decode: Decoder, encode: string -> seq<Byte>, ids: seq<string>, chunks: seq<seq<Byte>>)
    requires forall id | id in ids :: id != "" && NEWLINE !in encode(id) && decode(encode(id)) == id
    requires Concat(chunks) == Written(encode, ids)
    ensures ReceiveAll(decode, chunks) == (ids, [])
  {
    AnyChunking(decode, chunks);
    WrittenDelivers(decode, encode, ids);
  }
}
