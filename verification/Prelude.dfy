/** Failure-free and failing results shared by every component. */
module Prelude {
  datatype Option<+T> = None | Some(value: T)

  datatype Result<+T, +E> = Ok(value: T) | Err(error: E)

  function DropLast<T>(s: seq<T>): (r: seq<T>)
    requires s != []
  {
    s[..|s| - 1]
  }

  function Last<T>(s: seq<T>): (r: T)
    requires s != []
  {
    s[|s| - 1]
  }

  function Min(a: int, b: int): int {
    if a < b then a else b
  }

  function Max(a: int, b: int): int {
    if a < b then b else a
  }

  function Sum(xs: seq<real>): real {
    if xs == [] then 0.0 else Sum(DropLast(xs)) + Last(xs)
  }

  predicate NoRepeats<T(==)>(s: seq<T>) {
    forall i, j | 0 <= i < j < |s| :: s[i] != s[j]
  }

  /** The results of f, one after the other. */
  function FlatMap<A, B>(f: A -> seq<B>, xs: seq<A>): seq<B> {
    if xs == [] then [] else FlatMap(f, DropLast(xs)) + f(Last(xs))
  }

  lemma FlatMapSnoc<A, B>(f: A -> seq<B>, xs: seq<A>, x: A)
    ensures FlatMap(f, xs + [x]) == FlatMap(f, xs) + f(x)
  {
    assert DropLast(xs + [x]) == xs;
  }

  lemma {:induction false} FlatMapAppend<A, B>(f: A -> seq<B>, a: seq<A>, b: seq<A>)
    ensures FlatMap(f, a + b) == FlatMap(f, a) + FlatMap(f, b)
    decreases |b|
  {
    if b == [] {
      assert a + b == a;
    } else {
      var init, x := DropLast(b), Last(b);
      assert a + b == (a + init) + [x] && b == init + [x];
      FlatMapAppend(f, a, init);
      FlatMapSnoc(f, a + init, x);
      FlatMapSnoc(f, init, x);
    }
  }

  /** The texts that are not empty, in order. */
  function NonemptyTexts(texts: seq<string>): seq<string> {
    FlatMap((t: string) => if t == "" then [] else [t], texts)
  }

  lemma NonemptyTextsSnoc(texts: seq<string>, t: string)
    ensures NonemptyTexts(texts + [t]) == NonemptyTexts(texts) + if t == "" then [] else [t]
  {
    FlatMapSnoc((t: string) => if t == "" then [] else [t], texts, t);
  }

  lemma NonemptyTextsAppend(a: seq<string>, b: seq<string>)
    ensures NonemptyTexts(a + b) == NonemptyTexts(a) + NonemptyTexts(b)
  {
    FlatMapAppend((t: string) => if t == "" then [] else [t], a, b);
  }

  predicate StartsWith(s: string, prefix: string) {
    |prefix| <= |s| && s[..|prefix|] == prefix
  }

  predicate EndsWith(s: string, suffix: string) {
    |suffix| <= |s| && s[|s| - |suffix|..] == suffix
  }

  /** Neighbouring slices join. */
  lemma SliceJoin<T>(s: seq<T>, a: nat, b: nat, c: nat)
    requires a <= b <= c <= |s|
    ensures s[a..b] + s[b..c] == s[a..c]
  {
  }

  /** A slice of a slice is a slice. */
  lemma Slice<T>(s: seq<T>, a: nat, b: nat, c: nat, d: nat)
    requires c <= d <= b - a && a <= b <= |s|
    ensures s[a..b][c..d] == s[a + c..a + d]
  {
    var x, y := s[a..b][c..d], s[a + c..a + d];
    assert forall i | 0 <= i < d - c :: x[i] == s[a..b][c + i] == s[a + c + i] == y[i];
  }

  lemma SliceTail<T>(s: seq<T>, a: nat, b: nat, c: nat)
    requires c <= b - a && a <= b <= |s|
    ensures s[a..b][c..] == s[a + c..b]
  {
    Slice(s, a, b, c, b - a);
  }
}
