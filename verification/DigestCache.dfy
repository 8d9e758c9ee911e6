/**
 The image digest cache. A stored digest is reused only while the file's stat
 fields match it and the digest was begun more than a second after the file's
 last timestamp.

 The clock is a nondecreasing integer of nanoseconds. Whatever changes a file
 stamps it with a ctime less than one second old. Lookups are serialized by a
 lock; file changes interleave with every step of a lookup.
 */
module DigestCache {
  import opened Prelude
  import opened Lines

  const VERSION := 2
  const RACY_STAT_NS := 1_000_000_000
  const CHUNK := 8388608

  datatype File = File(bytes: seq<Byte>, device: int, inode: int, mtime: int, ctime: int)

  datatype Signature = Signature(path: string, device: int, inode: int, size: nat, mtime: int, ctime: int)

  datatype Record = Record(sig: Signature, sha: string)

  /** A cache entry, or whatever else a cache file may hold under a key. */
  datatype Entry = Junk | Entry(version: int, hashStarted: Option<int>, digest: Option<Record>)

  type Disk = map<string, File>
  type Cache = map<string, Entry>
  type Hash = seq<Byte> -> string

  function Stat(path: string, f: File): Signature {
    Signature(path, f.device, f.inode, |f.bytes|, f.mtime, f.ctime)
  }

  function Stamp(sig: Signature): int {
    if sig.mtime < sig.ctime then sig.ctime else sig.mtime
  }

  predicate Hex64(s: string) {
    |s| == 64 && forall i | 0 <= i < 64 :: '0' <= s[i] <= '9' || 'a' <= s[i] <= 'f'
  }

  /** The test that lets a lookup answer from the cache. */
  predicate Reusable(entry: Entry, sig: Signature, now: int) {
    && entry.Entry? && entry.version == VERSION
    && entry.hashStarted.Some? && entry.digest.Some?
    && Stamp(sig) + RACY_STAT_NS < entry.hashStarted.value
    && entry.hashStarted.value <= now
    && entry.digest.value.sig == sig
    && Hex64(entry.digest.value.sha)
  }

  /** An entry that can be reused for one file cannot be for another path, or
      once the device, inode, size or a timestamp is another. */
  lemma AnyChangeForcesRehash(entry: Entry, path: string, f: File, path': string, f': File, now: int, now': int)
    requires Reusable(entry, Stat(path, f), now)
    requires || path' != path || f'.device != f.device || f'.inode != f.inode || |f'.bytes| != |f.bytes|
             || f'.mtime != f.mtime || f'.ctime != f.ctime
    ensures !Reusable(entry, Stat(path', f'), now')
  {
  }

  /** A file with either timestamp within a second of the start of the digest is
      always rehashed, and so is one whose digest claims to start in the future. */
  lemma RecentIsRehashed(entry: Entry, path: string, f: File, now: int)
    requires entry.Entry? && entry.hashStarted.Some?
    requires var started := entry.hashStarted.value;
             || started <= f.mtime + 1_000_000_000 || started <= f.ctime + 1_000_000_000 || now < started
    ensures !Reusable(entry, Stat(path, f), now)
  {
  }

  /** A stored digest that is not 64 lower-case hexadecimal digits is never reused. */
  lemma MalformedIsRehashed(entry: Entry, sig: Signature, now: int)
    requires entry.Entry? && entry.digest.Some?
    requires var sha := entry.digest.value.sha;
             |sha| != 64 || exists c :: c in sha && c !in "0123456789abcdef"
    ensures !Reusable(entry, sig, now)
  {
    forall c: char | '0' <= c <= '9' || 'a' <= c <= 'f'
      ensures c in "0123456789abcdef"
    {
      HexListed(c);
    }
  }

  lemma HexListed(c: char)
    requires '0' <= c <= '9' || 'a' <= c <= 'f'
    ensures c in "0123456789abcdef"
  {
    var digits := "0123456789abcdef";
    var i := if c <= '9' then c as int - '0' as int else c as int - 'a' as int + 10;
    assert digits[i] == c;
  }

  // ----- The interleaved machine -----

  /** Where the one lookup in progress stands. `touched` says that the file
      changed since it was opened; what is read from then on is arbitrary. */
  datatype Lookup =
    | Idle
    | Missed(path: string)
    | Started(path: string, started: int)
    | Reading(path: string, started: int, before: Signature, read: seq<Byte>, touched: bool)

  datatype World = World(now: int, disk: Disk, cache: Cache, lookup: Lookup)

  datatype Action =
    | Tick(to: int)
    | Change(path: string, file: File)
    | Remove(path: string)
    | Hit(path: string, record: Record)
    | Miss(path: string)
    | Begin
    | Open
    | Read(chunk: seq<Byte>)
    | Store
    | Abort

  predicate Enabled(w: World, a: Action) {
    match a
    case Tick(to) => w.now <= to
    case Change(path, file) => w.now - RACY_STAT_NS < file.ctime <= w.now
    case Remove(path) => path in w.disk
    case Hit(path, record) =>
      && w.lookup.Idle? && path in w.disk && path in w.cache
      && Reusable(w.cache[path], Stat(path, w.disk[path]), w.now)
      && record == w.cache[path].digest.value
    case Miss(path) =>
      && w.lookup.Idle? && path in w.disk
      && !(path in w.cache && Reusable(w.cache[path], Stat(path, w.disk[path]), w.now))
    case Begin => w.lookup.Missed?
    case Open => w.lookup.Started? && w.lookup.path in w.disk
    case Read(chunk) =>
      && w.lookup.Reading?
      && (!w.lookup.touched ==>
            && w.lookup.path in w.disk
            && var bytes, pos := w.disk[w.lookup.path].bytes, |w.lookup.read|;
               pos <= |bytes| && chunk == bytes[pos..Min(pos + CHUNK, |bytes|)])
    case Store =>
      && w.lookup.Reading? && w.lookup.path in w.disk
      && (!w.lookup.touched ==> |w.lookup.read| == |w.disk[w.lookup.path].bytes|)
      && Stat(w.lookup.path, w.disk[w.lookup.path]) == w.lookup.before
    case Abort => !w.lookup.Idle?
  }

  /** A change of the file under an open lookup. */
  function Touch(lookup: Lookup, path: string): Lookup {
    if lookup.Reading? && lookup.path == path then lookup.(touched := true) else lookup
  }

  function Apply(hash: Hash, w: World, a: Action): World
    requires Enabled(w, a)
  {
    match a
    case Tick(to) => w.(now := to)
    case Change(path, file) => w.(disk := w.disk[path := file], lookup := Touch(w.lookup, path))
    case Remove(path) => w.(disk := w.disk - {path}, lookup := Touch(w.lookup, path))
    case Hit(_, _) => w
    case Miss(path) => w.(lookup := Missed(path))
    case Begin => w.(lookup := Started(w.lookup.path, w.now))
    case Open =>
      w.(lookup := Reading(w.lookup.path, w.lookup.started, Stat(w.lookup.path, w.disk[w.lookup.path]), [], false))
    case Read(chunk) => w.(lookup := w.lookup.(read := w.lookup.read + chunk))
    case Store =>
      var record := Record(w.lookup.before, hash(w.lookup.read));
      w.(cache := w.cache[w.lookup.path := Entry(VERSION, Some(w.lookup.started), Some(record))], lookup := Idle)
    case Abort => w.(lookup := Idle)
  }

  /** The run of a sequence of actions, if each is enabled in turn. */
  function Run(hash: Hash, w: World, actions: seq<Action>): Option<World> {
    if actions == [] then Some(w)
    else
      match Run(hash, w, DropLast(actions))
      case None => None
      case Some(v) => if Enabled(v, Last(actions)) then Some(Apply(hash, v, Last(actions))) else None
  }

  /** A cache may start with anything but entries of the current version. */
  predicate Initial(w: World) {
    && w.lookup.Idle?
    && forall p | p in w.cache :: w.cache[p].Entry? ==> w.cache[p].version != VERSION
  }

  // ----- The invariant -----

  /** An entry begun in the past which, if it were reused now, would be right. */
  ghost predicate Truthful(hash: Hash, w: World, path: string, entry: Entry) {
    entry.Entry? && entry.version == VERSION && entry.hashStarted.Some? && entry.digest.Some? ==>
      && entry.hashStarted.value <= w.now
      && (path in w.disk && entry.digest.value.sig == Stat(path, w.disk[path]) &&
          w.disk[path].ctime + RACY_STAT_NS < entry.hashStarted.value ==>
            entry.digest.value.sha == hash(w.disk[path].bytes))
  }

  /** A digest in progress: either nothing changed since the file was opened,
      or the file's ctime is too recent for this digest ever to be reused. */
  ghost predicate Sound(w: World) {
    match w.lookup
    case Idle => true
    case Missed(_) => true
    case Started(_, started) => started <= w.now
    case Reading(path, started, before, read, touched) =>
      && started <= w.now
      && if touched then path in w.disk ==> started < w.disk[path].ctime + RACY_STAT_NS
         else path in w.disk && Stat(path, w.disk[path]) == before && read <= w.disk[path].bytes
  }

  ghost predicate Inv(hash: Hash, w: World) {
    Sound(w) && forall p | p in w.cache :: Truthful(hash, w, p, w.cache[p])
  }

  lemma SoundStep(hash: Hash, w: World, a: Action)
    requires Inv(hash, w) && Enabled(w, a)
    ensures Sound(Apply(hash, w, a))
  {
    if a.Read? && !w.lookup.touched {
      var bytes, pos := w.disk[w.lookup.path].bytes, |w.lookup.read|;
      assert w.lookup.read + a.chunk == bytes[..Min(pos + CHUNK, |bytes|)];
    }
  }

  /** A change made at or after the start of a digest leaves a ctime that the
      digest's reuse test refuses. */
  lemma TruthfulStep(hash: Hash, w: World, a: Action, path: string)
    requires Inv(hash, w) && Enabled(w, a)
    requires path in Apply(hash, w, a).cache
    ensures var w' := Apply(hash, w, a); Truthful(hash, w', path, w'.cache[path])
  {
    if a.Store? && path == w.lookup.path {
      if !w.lookup.touched {
        assert w.lookup.read == w.disk[path].bytes;
      }
    } else {
      assert Truthful(hash, w, path, w.cache[path]);
    }
  }

  lemma InvStep(hash: Hash, w: World, a: Action)
    requires Inv(hash, w) && Enabled(w, a)
    ensures Inv(hash, Apply(hash, w, a))
  {
    SoundStep(hash, w, a);
    forall p | p in Apply(hash, w, a).cache {
      TruthfulStep(hash, w, a, p);
    }
  }

  lemma {:induction false} InvRun(hash: Hash, w: World, actions: seq<Action>)
    requires Initial(w) && Run(hash, w, actions).Some?
    ensures Inv(hash, Run(hash, w, actions).value)
  {
    if actions != [] {
      InvRun(hash, w, DropLast(actions));
      InvStep(hash, Run(hash, w, DropLast(actions)).value, Last(actions));
    }
  }

  /** In every run of interleaved changes, clock steps and lookups, a cache hit
      returns the digest of the bytes the file holds at that moment. */
  lemma HitsAreCurrent(hash: Hash, w: World, actions: seq<Action>, path: string, record: Record)
    requires Initial(w) && Run(hash, w, actions).Some?
    requires Enabled(Run(hash, w, actions).value, Hit(path, record))
    ensures var v := Run(hash, w, actions).value;
            record == Record(Stat(path, v.disk[path]), hash(v.disk[path].bytes))
  {
    InvRun(hash, w, actions);
    var v := Run(hash, w, actions).value;
    assert Truthful(hash, v, path, v.cache[path]);
  }

  // ----- The lookup without interference -----

  method FileDigest(hash: Hash, disk: Disk, path: string) returns (r: Option<Record>)
    ensures r.Some? <==> path in disk
    ensures r.Some? ==> r.value == Record(Stat(path, disk[path]), hash(disk[path].bytes))
  {
    if path !in disk {
      return None;
    }
    var before, bytes := Stat(path, disk[path]), disk[path].bytes;
    var read: seq<Byte> := [];
    while |read| < |bytes|
      invariant |read| <= |bytes| && read == bytes[..|read|]
    {
      read := read + bytes[|read|..Min(|read| + CHUNK, |bytes|)];
    }
    assert bytes[..|bytes|] == bytes;
    return Some(Record(before, hash(read)));
  }

  /** The stored records, as an object. */
  class Store {
    var records: Cache

    constructor (initial: Cache)
      ensures records == initial
    {
      records := initial;
    }

    /** Entries of the current version tell the truth about this disk. */
    ghost predicate Valid(hash: Hash, now: int, disk: Disk)
      reads this
    {
      Inv(hash, World(now, disk, records, Idle))
    }

    /** One lookup during which the disk stands still. It always answers with
        the file's current digest, changes nothing on a hit, and otherwise
        replaces this path's entry alone. Once the file's stamps are more than
        a second old, the next lookup is a hit. */
    method CachedDigest(hash: Hash, now: int, disk: Disk, path: string) returns (r: Option<Record>)
      requires Valid(hash, now, disk)
      modifies this
      ensures Valid(hash, now, disk)
      ensures r.Some? <==> path in disk
      ensures r.Some? ==> r.value == Record(Stat(path, disk[path]), hash(disk[path].bytes))
      ensures path !in disk ==> records == old(records)
      ensures path in disk ==>
                var sig := Stat(path, disk[path]);
                && records == (if path in old(records) && Reusable(old(records)[path], sig, now) then old(records)
                               else old(records)[path := Entry(VERSION, Some(now), Some(r.value))])
                && (Stamp(sig) + RACY_STAT_NS < now && Hex64(hash(disk[path].bytes)) ==>
                      path in records && Reusable(records[path], sig, now))
    {
      if path !in disk {
        return None;
      }
      var sig := Stat(path, disk[path]);
      if path in records && Reusable(records[path], sig, now) {
        assert Truthful(hash, World(now, disk, records, Idle), path, records[path]);
        return Some(records[path].digest.value);
      }
      var hashStarted := now;
      r := FileDigest(hash, disk, path);
      ghost var was := records;
      records := records[path := Entry(VERSION, Some(hashStarted), r)];
      forall p | p in records
        ensures Truthful(hash, World(now, disk, records, Idle), p, records[p])
      {
        if p != path {
          assert Truthful(hash, World(now, disk, was, Idle), p, was[p]);
        }
      }
    }
  }
}
