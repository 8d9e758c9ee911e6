/**
 Recorded orders: tables built from what a trace recorded, kept only where all
 recordings agree, and the reorderings that they drive.
 */
module RecordedOrder {
  import opened Prelude

  // ----- One specification for both builders -----

  datatype Recording<K, V> = Recording(key: K, value: V)

  /** Every recording of k says v, and there is one. */
  ghost predicate Agreed<K, V>(recs: seq<Recording<K, V>>, k: K, v: V) {
    Recording(k, v) in recs && forall r | r in recs :: r.key == k ==> r.value == v
  }

  /** The table holds exactly the keys on which all recordings agree. */
  ghost predicate Keeps<K(!new), V(!new)>(table: map<K, V>, recs: seq<Recording<K, V>>) {
    forall k, v :: k in table && table[k] == v <==> Agreed(recs, k, v)
  }

  /** Any two tables kept from the same recordings are equal, in whatever order
      and however often the recordings were met. */
  lemma KeptTablesEqual<K(!new), V(!new)>(t: map<K, V>, u: map<K, V>, recs: seq<Recording<K, V>>,
                                          others: seq<Recording<K, V>>)
    requires Keeps(t, recs) && Keeps(u, others)
    requires forall r :: r in recs <==> r in others
    ensures t == u
  {
    forall k, v
      ensures Agreed(recs, k, v) <==> Agreed(others, k, v)
    {
    }
    forall k | k in t
      ensures k in u && u[k] == t[k]
    {
      assert Agreed(others, k, t[k]);
    }
    forall k | k in u
      ensures k in t
    {
      assert Agreed(recs, k, u[k]);
    }
  }

  /** How one more recording changes what is agreed. */
  lemma AgreedSnoc<K, V>(recs: seq<Recording<K, V>>, r: Recording<K, V>, k: K, v: V)
    ensures Agreed(recs + [r], k, v) <==>
            if r.key == k then r.value == v && forall q | q in recs :: q.key == k ==> q.value == v
            else Agreed(recs, k, v)
  {
    if Agreed(recs + [r], k, v) {
      assert forall q | q in recs :: q in recs + [r];
      assert r in recs + [r];
    }
  }

  // ----- The builder that compares with the last recording -----

  datatype Draft<K, V> = Draft(orders: map<K, V>, ambiguous: set<K>)

  function Overwrite<K(==), V(==)>(d: Draft<K, V>, r: Recording<K, V>): Draft<K, V> {
    Draft(d.orders[r.key := r.value],
          if r.key in d.orders && d.orders[r.key] != r.value then d.ambiguous + {r.key} else d.ambiguous)
  }

  /** A key is in the draft once recorded, ambiguous once two recordings of it
      differed, and until then holds what all of them said. */
  ghost predicate Drafted<K(!new), V(!new)>(d: Draft<K, V>, recs: seq<Recording<K, V>>) {
    && (forall r | r in recs :: r.key in d.orders)
    && (forall k | k in d.orders :: Recording(k, d.orders[k]) in recs)
    && (forall k | k in d.orders && k !in d.ambiguous :: Agreed(recs, k, d.orders[k]))
    && (forall k | k in d.ambiguous :: Disputed(recs, k))
  }

  ghost predicate Disputed<K, V>(recs: seq<Recording<K, V>>, k: K) {
    exists q, r :: q in recs && r in recs && q.key == k && r.key == k && q.value != r.value
  }

  ghost predicate AnyDispute<K(!new), V>(recs: seq<Recording<K, V>>) {
    exists k :: Disputed(recs, k)
  }

  lemma DisputedGrows<K, V>(recs: seq<Recording<K, V>>, r: Recording<K, V>, k: K)
    requires Disputed(recs, k)
    ensures Disputed(recs + [r], k)
  {
    var p, q :| p in recs && q in recs && p.key == k && q.key == k && p.value != q.value;
    assert p in recs + [r] && q in recs + [r];
  }

  lemma OverwriteDrafted<K(!new), V(!new)>(d: Draft<K, V>, recs: seq<Recording<K, V>>, r: Recording<K, V>)
    requires Drafted(d, recs)
    ensures Drafted(Overwrite(d, r), recs + [r])
  {
    var d' := Overwrite(d, r);
    assert r in recs + [r];
    forall k | k in d'.orders && k !in d'.ambiguous
      ensures Agreed(recs + [r], k, d'.orders[k])
    {
      AgreedSnoc(recs, r, k, d'.orders[k]);
      if k == r.key && k in d.orders {
        assert Agreed(recs, k, d.orders[k]);
      }
    }
    forall k | k in d'.ambiguous
      ensures Disputed(recs + [r], k)
    {
      if k in d.ambiguous {
        DisputedGrows(recs, r, k);
      } else {
        assert Recording(k, d.orders[k]) in recs + [r];
      }
    }
  }

  /** What is drafted and not ambiguous is exactly what is agreed. */
  lemma DraftKeeps<K(!new), V(!new)>(d: Draft<K, V>, recs: seq<Recording<K, V>>)
    requires Drafted(d, recs)
    ensures Keeps(d.orders - d.ambiguous, recs)
  {
    forall k, v
      ensures k in d.orders - d.ambiguous && (d.orders - d.ambiguous)[k] == v <==> Agreed(recs, k, v)
    {
      if Agreed(recs, k, v) {
        assert Recording(k, v).key in d.orders;
        assert Recording(k, d.orders[k]) in recs;
      }
    }
  }

  /** The text searched for, and the file pattern if one was given. */
  type Query = (string, Option<string>)

  /** The recordings that list files at all. */
  function Nonempty<K, T>(recs: seq<Recording<K, seq<T>>>): seq<Recording<K, seq<T>>> {
    if recs == [] then []
    else Nonempty(DropLast(recs)) + if Last(recs).value == [] then [] else [Last(recs)]
  }

  /** None of the first n recordings repeats a file. */
  ghost predicate DistinctUpTo<K, T>(recs: seq<Recording<K, seq<T>>>, n: nat)
    requires n <= |recs|
  {
    forall j | 0 <= j < n :: NoRepeats(recs[j].value)
  }

  lemma DistinctMore<K, T>(recs: seq<Recording<K, seq<T>>>, i: nat)
    requires i < |recs| && DistinctUpTo(recs, i) && (recs[i].value != [] ==> NoRepeats(recs[i].value))
    ensures DistinctUpTo(recs, i + 1)
  {
    assert NoRepeats(recs[i].value);
  }

  lemma RepeatFound<K, T>(recs: seq<Recording<K, seq<T>>>, i: nat)
    requires i < |recs| && !NoRepeats(recs[i].value)
    ensures !DistinctUpTo(recs, |recs|)
  {
  }

  /** The search table: recordings with a repeated file are refused, empty ones
      skipped, and of the rest the agreed ones are kept. */
  method BuildSearchTable(recs: seq<Recording<Query, seq<string>>>) returns (r: Result<map<Query, seq<string>>, ()>)
    ensures r.Err? <==> !DistinctUpTo(recs, |recs|)
    ensures r.Ok? ==> Keeps(r.value, Nonempty(recs))
    ensures r.Ok? ==> forall q | q in r.value :: NoRepeats(r.value[q])
  {
    var d: Draft<Query, seq<string>> := Draft(map[], {});
    ghost var listed: seq<Recording<Query, seq<string>>> := [];
    var i := 0;
    while i < |recs|
      invariant 0 <= i <= |recs|
      invariant DistinctUpTo(recs, i)
      invariant listed == Nonempty(recs[..i])
      invariant Drafted(d, listed)
    {
      var rec := recs[i];
      NonemptySnoc(recs, i);
      if rec.value != [] {
        if !NoRepeats(rec.value) {
          RepeatFound(recs, i);
          return Err(());
        }
        OverwriteDrafted(d, listed, rec);
        d, listed := Overwrite(d, rec), listed + [rec];
      }
      DistinctMore(recs, i);
      i := i + 1;
    }
    assert recs[..|recs|] == recs;
    DraftKeeps(d, listed);
    KeptNoRepeats(d.orders - d.ambiguous, recs);
    return Ok(d.orders - d.ambiguous);
  }

  lemma KeptNoRepeats<K(!new), T(!new)>(table: map<K, seq<T>>, recs: seq<Recording<K, seq<T>>>)
    requires Keeps(table, Nonempty(recs)) && DistinctUpTo(recs, |recs|)
    ensures forall q | q in table :: NoRepeats(table[q])
  {
    forall q | q in table
      ensures NoRepeats(table[q])
    {
      assert Agreed(Nonempty(recs), q, table[q]);
      NonemptyMember(recs, Recording(q, table[q]));
    }
  }

  lemma NonemptySnoc<K, T>(recs: seq<Recording<K, seq<T>>>, i: nat)
    requires i < |recs|
    ensures Nonempty(recs[..i + 1]) == Nonempty(recs[..i]) + if recs[i].value == [] then [] else [recs[i]]
  {
    assert DropLast(recs[..i + 1]) == recs[..i];
  }

  lemma {:induction false} NonemptyMember<K, T>(recs: seq<Recording<K, seq<T>>>, r: Recording<K, seq<T>>)
    ensures r in Nonempty(recs) <==> r in recs && r.value != []
  {
    if recs != [] {
      NonemptyMember(DropLast(recs), r);
      assert recs == DropLast(recs) + [Last(recs)];
    }
  }

  // ----- The builder that deletes conflicts -----

  /** A file's path and its spans, with multiplicity and without order. */
  type Signature = (string, multiset<string>)

  function Sign(path: string, spans: seq<string>): Signature {
    (path, multiset(spans))
  }

  function Delete<K(==), V(==)>(d: Draft<K, V>, r: Recording<K, V>): Draft<K, V> {
    if r.key in d.ambiguous then d
    else if r.key in d.orders && d.orders[r.key] != r.value then
      Draft(d.orders - {r.key}, d.ambiguous + {r.key})
    else d.(orders := d.orders[r.key := r.value])
  }

  ghost predicate Weeded<K(!new), V(!new)>(d: Draft<K, V>, recs: seq<Recording<K, V>>) {
    && d.orders.Keys !! d.ambiguous
    && (forall r | r in recs :: r.key in d.orders || r.key in d.ambiguous)
    && (forall k | k in d.orders :: Agreed(recs, k, d.orders[k]))
    && (forall k | k in d.ambiguous :: Disputed(recs, k))
  }

  lemma DeleteWeeded<K(!new), V(!new)>(d: Draft<K, V>, recs: seq<Recording<K, V>>, r: Recording<K, V>)
    requires Weeded(d, recs)
    ensures Weeded(Delete(d, r), recs + [r])
  {
    var d' := Delete(d, r);
    assert r in recs + [r];
    forall k | k in d'.orders
      ensures Agreed(recs + [r], k, d'.orders[k])
    {
      AgreedSnoc(recs, r, k, d'.orders[k]);
      if k in d.orders {
        assert Agreed(recs, k, d.orders[k]);
      }
    }
    forall k | k in d'.ambiguous
      ensures Disputed(recs + [r], k)
    {
      if k in d.ambiguous {
        DisputedGrows(recs, r, k);
      } else {
        assert Agreed(recs, k, d.orders[k]);
        assert Recording(k, d.orders[k]) in recs + [r];
      }
    }
  }

  lemma WeededKeeps<K(!new), V(!new)>(d: Draft<K, V>, recs: seq<Recording<K, V>>)
    requires Weeded(d, recs)
    ensures Keeps(d.orders, recs)
  {
    forall k, v
      ensures k in d.orders && d.orders[k] == v <==> Agreed(recs, k, v)
    {
      if Agreed(recs, k, v) {
        assert Recording(k, v) in recs;
        assert k !in d.ambiguous;
      }
    }
  }

  /** Every order is one of exactly its signature's spans. */
  ghost predicate Consistent(table: map<Signature, seq<string>>) {
    forall k | k in table :: k.1 == multiset(table[k])
  }

  /** The recordings of a file's span order. */
  datatype SpanRow = SpanRow(path: string, spans: seq<string>)

  function Signed(rows: seq<SpanRow>): seq<Recording<Signature, seq<string>>> {
    if rows == [] then []
    else
      Signed(DropLast(rows)) +
      if Last(rows).spans == [] then [] else [Recording(Sign(Last(rows).path, Last(rows).spans), Last(rows).spans)]
  }

  lemma SignedSnoc(rows: seq<SpanRow>, i: nat)
    requires i < |rows|
    ensures Signed(rows[..i + 1]) ==
            Signed(rows[..i]) +
            if rows[i].spans == [] then [] else [Recording(Sign(rows[i].path, rows[i].spans), rows[i].spans)]
  {
    assert DropLast(rows[..i + 1]) == rows[..i];
  }

  /** Every row that lists spans is recorded under its own signature, and nothing else is. */
  lemma {:induction false} SignedMember(rows: seq<SpanRow>, r: Recording<Signature, seq<string>>)
    ensures r in Signed(rows) <==>
            r.value != [] && r.key.1 == multiset(r.value) && SpanRow(r.key.0, r.value) in rows
  {
    if rows != [] {
      SignedMember(DropLast(rows), r);
      assert rows == DropLast(rows) + [Last(rows)];
    }
  }

  lemma {:induction false} SignedConsistent(rows: seq<SpanRow>)
    ensures forall r | r in Signed(rows) :: r.key.1 == multiset(r.value)
  {
    if rows != [] {
      SignedConsistent(DropLast(rows));
    }
  }

  /** One recording more; a conflict only matters in strict mode. */
  method AddRecording<K(==, !new), V(==, !new)>(d: Draft<K, V>, rec: Recording<K, V>, strict: bool,
                                                ghost recs: seq<Recording<K, V>>)
    returns (conflict: bool, d': Draft<K, V>)
    requires Weeded(d, recs) && (strict ==> d.ambiguous == {})
    ensures conflict ==> strict && rec.key in d.orders && d.orders[rec.key] != rec.value
    ensures !conflict ==> Weeded(d', recs + [rec]) && (strict ==> d'.ambiguous == {})
  {
    DeleteWeeded(d, recs, rec);
    if rec.key in d.ambiguous {
      return false, d;
    }
    if rec.key in d.orders && d.orders[rec.key] != rec.value {
      if strict {
        return true, d;
      }
      return false, Draft(d.orders - {rec.key}, d.ambiguous + {rec.key});
    }
    return false, d.(orders := d.orders[rec.key := rec.value]);
  }

  /** The builder's state after the first n rows. */
  ghost predicate Building(d: Draft<Signature, seq<string>>, rows: seq<SpanRow>, n: nat, strict: bool) {
    n <= |rows| && Weeded(d, Signed(rows[..n])) && (strict ==> d.ambiguous == {})
  }

  method AddRow(d: Draft<Signature, seq<string>>, row: SpanRow, strict: bool, ghost rows: seq<SpanRow>, ghost i: nat)
    returns (conflict: bool, d': Draft<Signature, seq<string>>)
    requires Building(d, rows, i, strict) && i < |rows| && row == rows[i]
    ensures conflict ==> strict && AnyDispute(Signed(rows))
    ensures !conflict ==> Building(d', rows, i + 1, strict)
  {
    SignedSnoc(rows, i);
    if row.spans == [] {
      return false, d;
    }
    var rec := Recording(Sign(row.path, row.spans), row.spans);
    conflict, d' := AddRecording(d, rec, strict, Signed(rows[..i]));
    if conflict {
      StrictDispute(d, rows, i, rec);
    }
  }

  /** The span-order table. In audit mode disputed signatures are dropped; in
      strict mode the first dispute refuses the trace. */
  method BuildOrderTable(rows: seq<SpanRow>, strict: bool) returns (r: Result<map<Signature, seq<string>>, ()>)
    ensures r.Ok? ==> Keeps(r.value, Signed(rows))
    ensures r.Ok? ==> Consistent(r.value)
    ensures r.Err? <==> strict && AnyDispute(Signed(rows))
  {
    var d: Draft<Signature, seq<string>> := Draft(map[], {});
    var i := 0;
    NothingBuilt(rows, strict);
    while i < |rows|
      invariant 0 <= i <= |rows| && Building(d, rows, i, strict)
    {
      var conflict, d' := AddRow(d, rows[i], strict, rows, i);
      if conflict {
        return Err(());
      }
      d, i := d', i + 1;
    }
    WeededTable(d, rows, strict);
    return Ok(d.orders);
  }

  lemma NothingBuilt(rows: seq<SpanRow>, strict: bool)
    ensures Building(Draft(map[], {}), rows, 0, strict)
  {
  }

  lemma WeededTable(d: Draft<Signature, seq<string>>, rows: seq<SpanRow>, strict: bool)
    requires Building(d, rows, |rows|, strict)
    ensures Keeps(d.orders, Signed(rows))
    ensures Consistent(d.orders)
    ensures strict ==> !AnyDispute(Signed(rows))
  {
    assert rows[..|rows|] == rows;
    WeededKeeps(d, Signed(rows));
    SignedConsistent(rows);
    forall k | k in d.orders
      ensures k.1 == multiset(d.orders[k])
    {
      assert Agreed(Signed(rows), k, d.orders[k]);
    }
    if strict {
      forall k
        ensures !Disputed(Signed(rows), k)
      {
        NoDispute(d, Signed(rows), k);
      }
    }
  }

  /** A conflict met in strict mode is a dispute in the whole trace. */
  lemma StrictDispute(d: Draft<Signature, seq<string>>, rows: seq<SpanRow>, i: nat,
                      rec: Recording<Signature, seq<string>>)
    requires i < |rows| && Weeded(d, Signed(rows[..i])) && Signed(rows[..i + 1]) == Signed(rows[..i]) + [rec]
    requires rec.key in d.orders && d.orders[rec.key] != rec.value
    ensures AnyDispute(Signed(rows))
  {
    var recs := Signed(rows[..i]);
    assert Agreed(recs, rec.key, d.orders[rec.key]);
    assert Recording(rec.key, d.orders[rec.key]) in recs + [rec] && rec in recs + [rec];
    SignedGrows(rows, i + 1);
    DisputedInAll(recs + [rec], Signed(rows), rec.key);
  }

  lemma NoDispute<K(!new), V(!new)>(d: Draft<K, V>, recs: seq<Recording<K, V>>, k: K)
    requires Weeded(d, recs) && d.ambiguous == {}
    ensures !Disputed(recs, k)
  {
    forall q, r | q in recs && r in recs && q.key == k && r.key == k
      ensures q.value == r.value
    {
      assert Agreed(recs, k, d.orders[k]);
    }
  }

  lemma DisputedInAll<K, V>(part: seq<Recording<K, V>>, all: seq<Recording<K, V>>, k: K)
    requires Disputed(part, k) && forall r | r in part :: r in all
    ensures Disputed(all, k)
  {
    var p, q :| p in part && q in part && p.key == k && q.key == k && p.value != q.value;
    assert p in all && q in all;
  }

  lemma {:induction false} SignedGrows(rows: seq<SpanRow>, n: nat)
    requires n <= |rows|
    ensures forall r | r in Signed(rows[..n]) :: r in Signed(rows)
  {
    if n == |rows| {
      assert rows[..n] == rows;
    } else {
      SignedGrows(DropLast(rows), n);
      assert DropLast(rows)[..n] == rows[..n];
    }
  }

  // ----- Saving, loading and restoring span orders -----

  /** The rows of a saved table, in any order. */
  ghost predicate Saves(rows: seq<SpanRow>, table: map<Signature, seq<string>>) {
    && (forall row | row in rows :: Sign(row.path, row.spans) in table && table[Sign(row.path, row.spans)] == row.spans)
    && (forall k | k in table :: SpanRow(k.0, table[k]) in rows)
  }

  /** Two rows give one signature different orders. */
  ghost predicate Conflicting(rows: seq<SpanRow>) {
    exists a, b :: a in rows && b in rows && Sign(a.path, a.spans) == Sign(b.path, b.spans) && a.spans != b.spans
  }

  /** What has been loaded from these rows. */
  ghost predicate Loaded(rows: seq<SpanRow>, orders: map<Signature, seq<string>>) {
    Saves(rows, orders) && Consistent(orders)
  }

  lemma LoadRow(rows: seq<SpanRow>, orders: map<Signature, seq<string>>, row: SpanRow)
    requires Loaded(rows, orders)
    requires var key := Sign(row.path, row.spans); key in orders ==> orders[key] == row.spans
    ensures Loaded(rows + [row], orders[Sign(row.path, row.spans) := row.spans])
  {
  }

  lemma LoadConflict(rows: seq<SpanRow>, i: nat, orders: map<Signature, seq<string>>)
    requires i < |rows| && Loaded(rows[..i], orders)
    requires var key := Sign(rows[i].path, rows[i].spans); key in orders && orders[key] != rows[i].spans
    ensures Conflicting(rows)
  {
    var key := Sign(rows[i].path, rows[i].spans);
    var other := SpanRow(key.0, orders[key]);
    assert other in rows[..i] && other in rows && rows[i] in rows;
    assert Sign(other.path, other.spans) == key;
  }

  /** Loading refuses exactly the files that give a signature two orders, and
      otherwise gives back the one table that the file saves. */
  method LoadTable(rows: seq<SpanRow>) returns (r: Result<map<Signature, seq<string>>, ()>)
    ensures r.Err? <==> Conflicting(rows)
    ensures r.Ok? ==> Loaded(rows, r.value)
    ensures forall table: map<Signature, seq<string>> :: Loaded(rows, table) ==> r == Ok(table)
  {
    var orders: map<Signature, seq<string>> := map[];
    var i := 0;
    while i < |rows|
      invariant 0 <= i <= |rows| && Loaded(rows[..i], orders)
    {
      var row := rows[i];
      var key := Sign(row.path, row.spans);
      if key in orders && orders[key] != row.spans {
        LoadConflict(rows, i, orders);
        ConflictNeverSaved(rows);
        return Err(());
      }
      LoadRow(rows[..i], orders, row);
      assert rows[..i + 1] == rows[..i] + [row];
      orders := orders[key := row.spans];
      i := i + 1;
    }
    assert rows[..|rows|] == rows;
    ConflictNeverSaved(rows);
    forall table: map<Signature, seq<string>> | Loaded(rows, table)
      ensures orders == table
    {
      LoadedOnce(rows, orders, table);
    }
    return Ok(orders);
  }

  /** No table saves two orders of one signature. */
  lemma ConflictNeverSaved(rows: seq<SpanRow>)
    ensures Conflicting(rows) ==> forall table: map<Signature, seq<string>> :: !Loaded(rows, table)
  {
  }

  lemma LoadedOnce(rows: seq<SpanRow>, orders: map<Signature, seq<string>>, table: map<Signature, seq<string>>)
    requires Loaded(rows, orders) && Loaded(rows, table)
    ensures orders == table
  {
    forall k | k in orders
      ensures k in table && table[k] == orders[k]
    {
      assert SpanRow(k.0, orders[k]) in rows && Sign(k.0, orders[k]) == k;
    }
    forall k | k in table
      ensures k in orders
    {
      assert SpanRow(k.0, table[k]) in rows && Sign(k.0, table[k]) == k;
    }
  }

  /** The adapter at the point of use, with its counters. */
  class SpanAdapter {
    const orders: map<Signature, seq<string>>
    var lookups: nat
    var reordered: nat
    var misses: nat

    constructor (orders: map<Signature, seq<string>>)
      ensures this.orders == orders && lookups == reordered == misses == 0
    {
      this.orders := orders;
      lookups, reordered, misses := 0, 0, 0;
    }

    /** Live spans in recorded order: the same spans with the same multiplicity,
        in the recorded order where there is one. */
    method RestoreSpanOrder(path: string, spans: seq<string>, strict: bool) returns (r: Result<seq<string>, ()>)
      requires Consistent(orders)
      modifies this
      ensures r.Err? <==> strict && Sign(path, spans) !in orders
      ensures r.Ok? ==> multiset(r.value) == multiset(spans)
      ensures r.Ok? ==> r.value == if Sign(path, spans) in orders then orders[Sign(path, spans)] else spans
      ensures lookups == old(lookups) + 1
      ensures misses == old(misses) + if Sign(path, spans) in orders then 0 else 1
      ensures reordered == old(reordered) + if r.Ok? && r.value != spans then 1 else 0
    {
      var key := Sign(path, spans);
      lookups := lookups + 1;
      if key !in orders {
        misses := misses + 1;
        return if strict then Err(()) else Ok(spans);
      }
      var ordered := orders[key];
      if ordered != spans {
        reordered := reordered + 1;
      }
      return Ok(ordered);
    }
  }

  // ----- Restoring the order of search results -----

  datatype Match = Match(path: string, line: int)

  /** Stable insertion: after every element of no larger key. */
  function InsertStable<T>(key: T -> nat, sorted: seq<T>, x: T): seq<T> {
    if sorted == [] then [x]
    else if key(Last(sorted)) <= key(x) then sorted + [x]
    else InsertStable(key, DropLast(sorted), x) + [Last(sorted)]
  }

  function SortStable<T>(key: T -> nat, s: seq<T>): seq<T> {
    if s == [] then [] else InsertStable(key, SortStable(key, DropLast(s)), Last(s))
  }

  /** The elements of key k, in their original order. */
  function Bucket<T>(key: T -> nat, s: seq<T>, k: nat): seq<T> {
    if s == [] then [] else Bucket(key, DropLast(s), k) + if key(Last(s)) == k then [Last(s)] else []
  }

  /** The buckets of keys lo up to hi, one after the other. */
  function Buckets<T>(key: T -> nat, s: seq<T>, lo: nat, hi: nat): seq<T>
    requires lo <= hi
    decreases hi - lo
  {
    if lo == hi then [] else Bucket(key, s, lo) + Buckets(key, s, lo + 1, hi)
  }

  lemma {:induction false} BucketKeys<T>(key: T -> nat, s: seq<T>, k: nat)
    ensures forall i | 0 <= i < |Bucket(key, s, k)| :: key(Bucket(key, s, k)[i]) == k
  {
    if s != [] {
      BucketKeys(key, DropLast(s), k);
    }
  }

  lemma {:induction false} BucketsKeys<T>(key: T -> nat, s: seq<T>, lo: nat, hi: nat)
    requires lo <= hi
    ensures forall i | 0 <= i < |Buckets(key, s, lo, hi)| :: lo <= key(Buckets(key, s, lo, hi)[i]) < hi
    decreases hi - lo
  {
    if lo < hi {
      BucketKeys(key, s, lo);
      BucketsKeys(key, s, lo + 1, hi);
    }
  }

  lemma {:induction false} BucketsSplit<T>(key: T -> nat, s: seq<T>, lo: nat, mid: nat, hi: nat)
    requires lo <= mid <= hi
    ensures Buckets(key, s, lo, hi) == Buckets(key, s, lo, mid) + Buckets(key, s, mid, hi)
    decreases mid - lo
  {
    if lo < mid {
      BucketsSplit(key, s, lo + 1, mid, hi);
    }
  }

  lemma BucketSkip<T>(key: T -> nat, s: seq<T>, k: nat)
    requires s != [] && key(Last(s)) != k
    ensures Bucket(key, s, k) == Bucket(key, DropLast(s), k)
  {
  }

  lemma {:induction false} BucketsEqual<T>(key: T -> nat, s: seq<T>, t: seq<T>, lo: nat, hi: nat)
    requires lo <= hi && forall k: nat | lo <= k < hi :: Bucket(key, s, k) == Bucket(key, t, k)
    ensures Buckets(key, s, lo, hi) == Buckets(key, t, lo, hi)
    decreases hi - lo
  {
    if lo < hi {
      BucketsEqual(key, s, t, lo + 1, hi);
    }
  }

  /** Buckets that do not take the last element are those of the rest. */
  lemma BucketsWithout<T>(key: T -> nat, s: seq<T>, lo: nat, hi: nat)
    requires s != [] && lo <= hi && !(lo <= key(Last(s)) < hi)
    ensures Buckets(key, s, lo, hi) == Buckets(key, DropLast(s), lo, hi)
  {
    forall k: nat | lo <= k < hi
      ensures Bucket(key, s, k) == Bucket(key, DropLast(s), k)
    {
      BucketSkip(key, s, k);
    }
    BucketsEqual(key, s, DropLast(s), lo, hi);
  }

  lemma {:induction false} InsertBetween<T>(key: T -> nat, low: seq<T>, high: seq<T>, x: T)
    requires forall i | 0 <= i < |low| :: key(low[i]) <= key(x)
    requires forall i | 0 <= i < |high| :: key(x) < key(high[i])
    ensures InsertStable(key, low + high, x) == low + [x] + high
  {
    if high == [] {
      assert low + high == low;
    } else {
      assert DropLast(low + high) == low + DropLast(high);
      InsertBetween(key, low, DropLast(high), x);
      assert high == DropLast(high) + [Last(high)];
    }
  }

  /** Inserting an element lays it at the end of its own bucket. */
  lemma InsertIntoBuckets<T>(key: T -> nat, s: seq<T>, n: nat)
    requires s != [] && key(Last(s)) < n
    ensures InsertStable(key, Buckets(key, DropLast(s), 0, n), Last(s)) == Buckets(key, s, 0, n)
  {
    var init, x, k := DropLast(s), Last(s), key(Last(s));
    var low, own, high := Buckets(key, init, 0, k), Bucket(key, init, k), Buckets(key, init, k + 1, n);
    ThreeWays(key, init, k, n);
    ThreeWays(key, s, k, n);
    BucketsWithout(key, s, 0, k);
    BucketsWithout(key, s, k + 1, n);
    BucketsKeys(key, init, 0, k);
    BucketKeys(key, init, k);
    BucketsKeys(key, init, k + 1, n);
    assert Bucket(key, s, k) == own + [x];
    PlacedBetween(key, low, own, high, x);
  }

  lemma PlacedBetween<T>(key: T -> nat, low: seq<T>, own: seq<T>, high: seq<T>, x: T)
    requires forall i | 0 <= i < |low| :: key(low[i]) < key(x)
    requires forall i | 0 <= i < |own| :: key(own[i]) == key(x)
    requires forall i | 0 <= i < |high| :: key(x) < key(high[i])
    ensures InsertStable(key, low + own + high, x) == low + (own + [x]) + high
  {
    InsertBetween(key, low + own, high, x);
  }

  lemma ThreeWays<T>(key: T -> nat, s: seq<T>, k: nat, n: nat)
    requires k < n
    ensures Buckets(key, s, 0, n) == Buckets(key, s, 0, k) + Bucket(key, s, k) + Buckets(key, s, k + 1, n)
  {
    BucketsSplit(key, s, 0, k, n);
  }

  /** A stable sort lays out the buckets in order. */
  lemma {:induction false} SortIsBuckets<T>(key: T -> nat, s: seq<T>, n: nat)
    requires forall i | 0 <= i < |s| :: key(s[i]) < n
    ensures SortStable(key, s) == Buckets(key, s, 0, n)
  {
    if s == [] {
      EmptyBuckets(key, s, 0, n);
    } else {
      SortIsBuckets(key, DropLast(s), n);
      InsertIntoBuckets(key, s, n);
    }
  }

  lemma OneBucket<T>(key: T -> nat, s: seq<T>, k: nat)
    ensures Buckets(key, s, k, k + 1) == Bucket(key, s, k)
  {
    assert Buckets(key, s, k + 1, k + 1) == [];
  }

  lemma {:induction false} EmptyBuckets<T>(key: T -> nat, s: seq<T>, lo: nat, hi: nat)
    requires s == [] && lo <= hi
    ensures Buckets(key, s, lo, hi) == []
    decreases hi - lo
  {
    if lo < hi {
      EmptyBuckets(key, s, lo + 1, hi);
    }
  }

  lemma {:induction false} InsertPermutes<T>(key: T -> nat, sorted: seq<T>, x: T)
    ensures multiset(InsertStable(key, sorted, x)) == multiset(sorted) + multiset{x}
  {
    if sorted != [] {
      assert sorted == DropLast(sorted) + [Last(sorted)];
      InsertPermutes(key, DropLast(sorted), x);
    }
  }

  lemma {:induction false} SortPermutes<T>(key: T -> nat, s: seq<T>)
    ensures multiset(SortStable(key, s)) == multiset(s)
  {
    if s != [] {
      assert s == DropLast(s) + [Last(s)];
      SortPermutes(key, DropLast(s));
      InsertPermutes(key, SortStable(key, DropLast(s)), Last(s));
    }
  }

  /** A recorded file's position, or one past the last for the others. */
  function Priority(files: seq<string>, path: string): (p: nat)
    ensures p <= |files|
    ensures path !in files <==> p == |files|
    ensures p < |files| ==> files[p] == path
  {
    if files == [] then 0
    else if Last(files) == path then |files| - 1
    else
      var p := Priority(DropLast(files), path);
      if p == |files| - 1 then |files| else p
  }

  predicate Covered(files: seq<string>, matches: seq<Match>) {
    forall f | f in files :: exists m | m in matches :: m.path == f
  }

  function RestoreSearchOrder(table: map<Query, seq<string>>, query: Query, matches: seq<Match>): seq<Match> {
    if query !in table || !Covered(table[query], matches) then matches
    else SortStable((m: Match) => Priority(table[query], m.path), matches)
  }

  /** The matches of one path, in their original order. */
  function OfPath(matches: seq<Match>, path: string): seq<Match> {
    if matches == [] then []
    else OfPath(DropLast(matches), path) + if Last(matches).path == path then [Last(matches)] else []
  }

  function OfOthers(matches: seq<Match>, files: seq<string>): seq<Match> {
    if matches == [] then []
    else OfOthers(DropLast(matches), files) + if Last(matches).path in files then [] else [Last(matches)]
  }

  /** The matches of the recorded files from the i-th on, file by file. */
  function FileByFile(matches: seq<Match>, files: seq<string>, i: nat): seq<Match>
    requires i <= |files|
    decreases |files| - i
  {
    if i == |files| then [] else OfPath(matches, files[i]) + FileByFile(matches, files, i + 1)
  }

  lemma {:induction false} BucketOfFile(matches: seq<Match>, files: seq<string>, i: nat)
    requires NoRepeats(files) && i < |files|
    ensures Bucket((m: Match) => Priority(files, m.path), matches, i) == OfPath(matches, files[i])
  {
    if matches != [] {
      BucketOfFile(DropLast(matches), files, i);
      var p := Priority(files, Last(matches).path);
      assert p == i <==> Last(matches).path == files[i];
    }
  }

  lemma {:induction false} BucketOfOthers(matches: seq<Match>, files: seq<string>)
    ensures Bucket((m: Match) => Priority(files, m.path), matches, |files|) == OfOthers(matches, files)
  {
    if matches != [] {
      BucketOfOthers(DropLast(matches), files);
    }
  }

  lemma FirstBucket<T>(key: T -> nat, s: seq<T>, lo: nat, hi: nat)
    requires lo < hi
    ensures Buckets(key, s, lo, hi) == Bucket(key, s, lo) + Buckets(key, s, lo + 1, hi)
  {
  }

  lemma {:induction false} BucketsAreFiles(matches: seq<Match>, files: seq<string>, i: nat)
    requires NoRepeats(files) && i <= |files|
    ensures Buckets((m: Match) => Priority(files, m.path), matches, i, |files|) == FileByFile(matches, files, i)
    decreases |files| - i
  {
    if i < |files| {
      BucketsAreFiles(matches, files, i + 1);
      BucketOfFile(matches, files, i);
      FirstBucket((m: Match) => Priority(files, m.path), matches, i, |files|);
    }
  }

  /** Search restoration is the identity, or the matches of the recorded files
      in recorded order followed by the others, each file's matches and the
      others in their live order; in every case a permutation. */
  lemma RestoreOnlyPermutes(table: map<Query, seq<string>>, query: Query, matches: seq<Match>)
    requires forall q | q in table :: NoRepeats(table[q])
    ensures multiset(RestoreSearchOrder(table, query, matches)) == multiset(matches)
    ensures RestoreSearchOrder(table, query, matches) ==
            if query in table && Covered(table[query], matches)
            then FileByFile(matches, table[query], 0) + OfOthers(matches, table[query]) else matches
  {
    if query in table && Covered(table[query], matches) {
      var files := table[query];
      var key := (m: Match) => Priority(files, m.path);
      var n := |files|;
      SortPermutes(key, matches);
      SortIsBuckets(key, matches, n + 1);
      BucketsSplit(key, matches, 0, n, n + 1);
      BucketsAreFiles(matches, files, 0);
      OneBucket(key, matches, n);
      BucketOfOthers(matches, files);
    }
  }
}
