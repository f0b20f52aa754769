/**
 * The file watcher of supasync.py: every tick it fingerprints the two tracked
 * files, pushes a file whose fingerprint changed to the bot_files table, and
 * restores a file that is missing or empty from that table unless a push
 * happened less than 20 seconds earlier. The clock, the HTTP replies, MD5 and
 * the json module are parameters; the local files are a map from path to bytes.
 */
module Sync {
  import opened Wrappers

  type Bytes = seq<bv8>
  type Name = string
  type Path = string
  /** hexdigest() of a file's bytes. */
  type Digest = string

  /** A JSON value, as json.load returns it and json.dump writes it. */
  datatype Json =
    | JsonNull
    | JsonBool(b: bool)
    | JsonNumber(n: int)
    | JsonString(s: string)
    | JsonArray(items: seq<Json>)
    | JsonObject(fields: map<string, Json>)

  /** `{}`, what read_json falls back to. */
  const EmptyObject: Json := JsonObject(map[])

  /** The tracked files, in the order the FILES dictionary lists them. */
  const Files: seq<(Name, Path)> := [("database", "/tmp/database.json"), ("userdata", "userdata.json")]

  /** Seconds after a push during which no restore is attempted. */
  const Guard: real := 20.0

  /** One POST to the table: the row {name, data} it upserts. */
  datatype Payload = Payload(name: Name, data: Json)

  /** The answer to the GET for one name: its status code and the rows it lists. */
  datatype Reply = Reply(status: int, rows: seq<Json>)

  /**
   * What the outside world does during one file's turn of a tick: the clock
   * reading push_to_supabase takes, the one restore_from_supabase takes, and
   * the reply the GET would receive.
   */
  datatype Moment = Moment(pushAt: real, checkAt: real, reply: Reply)

  /**
   * The library code the module calls: MD5 as a fingerprint of bytes,
   * json.load (None when it raises) and json.dump.
   */
  datatype Library = Library(digest: Bytes -> Digest, parse: Bytes -> Option<Json>, dump: Json -> Bytes)

  /** json.load rejects an empty document, as it does in Python. */
  predicate RejectsEmpty(lib: Library) {
    lib.parse([]) == None
  }

  ghost predicate InjectiveDigest(lib: Library) {
    forall a: Bytes, b: Bytes :: lib.digest(a) == lib.digest(b) ==> a == b
  }

  /**
   * Everything the module changes: the local files, last_hash,
   * last_local_write, and the POSTs sent so far.
   */
  datatype State = State(files: map<Path, Bytes>, lastHash: map<Name, Option<Digest>>, lastLocalWrite: real, sent: seq<Payload>)

  /** The state at import: the files as found, nothing hashed, no push yet. */
  function Initial(files: map<Path, Bytes>): (s: State)
    ensures s.files == files && s.lastHash == map[] && s.sent == []
    ensures Get(s.lastHash, "database") == None && Get(s.lastHash, "userdata") == None
  {
    State(files, map[], 0.0, [])
  }

  /** last_hash.get(name). */
  function Get(lastHash: map<Name, Option<Digest>>, name: Name): (h: Option<Digest>)
    ensures name !in lastHash ==> h == None
  {
    if name in lastHash then lastHash[name] else None
  }

  // ---------------------------------------------------------------------------
  // file_hash and read_json
  // ---------------------------------------------------------------------------

  /** file_hash(path): None exactly when the file does not exist. */
  function FileHash(files: map<Path, Bytes>, path: Path, lib: Library): (h: Option<Digest>)
    ensures h == None <==> path !in files
  {
    if path !in files then None else Some(lib.digest(files[path]))
  }

  /**
   * With a fingerprint that tells contents apart, two file systems give a
   * path the same hash exactly when the file is missing in both or holds the
   * same bytes in both: a change is always seen.
   */
  lemma HashSeesChange(f: map<Path, Bytes>, g: map<Path, Bytes>, path: Path, lib: Library)
    requires InjectiveDigest(lib)
    ensures FileHash(f, path, lib) == FileHash(g, path, lib) <==>
      (path in f <==> path in g) && (path in f && path in g ==> f[path] == g[path])
  {
  }

  /** read_json(path): the parsed document, or {} when the file is missing or does not parse. */
  function ReadJson(files: map<Path, Bytes>, path: Path, lib: Library): (j: Json)
    ensures path !in files ==> j == EmptyObject
    ensures path in files && lib.parse(files[path]) == None ==> j == EmptyObject
    ensures path in files && lib.parse(files[path]).Some? ==> j == lib.parse(files[path]).value
  {
    if path !in files then EmptyObject
    else match lib.parse(files[path])
      case None => EmptyObject
      case Some(j) => j
  }

  /** An empty file reads as {}, the same as a missing one. */
  lemma EmptyFileReadsEmpty(files: map<Path, Bytes>, path: Path, lib: Library)
    requires RejectsEmpty(lib) && path in files && files[path] == []
    ensures ReadJson(files, path, lib) == EmptyObject == ReadJson(files - {path}, path, lib)
  {
  }

  // ---------------------------------------------------------------------------
  // push_to_supabase and restore_from_supabase
  // ---------------------------------------------------------------------------

  /** push_to_supabase: the POST goes out and last_local_write is stamped, whatever the reply. */
  function Pushed(s: State, name: Name, data: Json, now: real): (t: State)
    ensures t.sent == s.sent + [Payload(name, data)] && t.lastLocalWrite == now
    ensures t.files == s.files && t.lastHash == s.lastHash
  {
    s.(sent := s.sent + [Payload(name, data)], lastLocalWrite := now)
  }

  /** The conditions under which restore_from_supabase writes the file. */
  predicate RestoreWrites(s: State, m: Moment) {
    && m.checkAt - s.lastLocalWrite >= Guard
    && m.reply.status == 200
    && m.reply.rows != []
  }

  /**
   * restore_from_supabase: within 20 seconds of a push, on a status other
   * than 200 or with no row, nothing happens; otherwise the file is
   * overwritten with the first row's data. It never pushes.
   */
  function Restored(s: State, path: Path, m: Moment, lib: Library): (t: State)
    ensures t.lastHash == s.lastHash && t.lastLocalWrite == s.lastLocalWrite && t.sent == s.sent
    ensures !RestoreWrites(s, m) ==> t == s
    ensures RestoreWrites(s, m) ==> t.files == s.files[path := lib.dump(m.reply.rows[0])]
  {
    if m.checkAt - s.lastLocalWrite < Guard then s
    else if m.reply.status != 200 then s
    else if m.reply.rows == [] then s
    else s.(files := s.files[path := lib.dump(m.reply.rows[0])])
  }

  // ---------------------------------------------------------------------------
  // One file's turn of a watcher tick
  // ---------------------------------------------------------------------------

  /** A missing or zero-length file: the condition for a restore attempt. */
  predicate MissingOrEmpty(files: map<Path, Bytes>, path: Path) {
    path !in files || files[path] == []
  }

  /** The push check of one file's turn: a changed fingerprint pushes the content and records the fingerprint. */
  function PushCheck(s: State, name: Name, path: Path, m: Moment, lib: Library): (t: State)
    ensures t.files == s.files
    ensures Get(t.lastHash, name) == FileHash(s.files, path, lib)
  {
    var h := FileHash(s.files, path, lib);
    if h != Get(s.lastHash, name) then
      var p := Pushed(s, name, ReadJson(s.files, path, lib), m.pushAt);
      p.(lastHash := p.lastHash[name := h])
    else s
  }

  /** The restore check of one file's turn, made on the files as the push check left them. */
  function RestoreCheck(s: State, path: Path, m: Moment, lib: Library): (t: State)
    ensures t.lastHash == s.lastHash && t.sent == s.sent
  {
    if MissingOrEmpty(s.files, path) then Restored(s, path, m, lib) else s
  }

  /** The body of the watcher's inner loop for one (name, path): the push check, then the restore check. */
  function Step(s: State, name: Name, path: Path, m: Moment, lib: Library): (t: State)
    ensures Get(t.lastHash, name) == FileHash(s.files, path, lib)
  {
    RestoreCheck(PushCheck(s, name, path, m, lib), path, m, lib)
  }

  /**
   * A turn pushes exactly when the fingerprint differs from the recorded one,
   * and then pushes what read_json gives; it records the fingerprint taken
   * before any restore, and other names' records stay.
   */
  lemma StepPushesOnChange(s: State, name: Name, path: Path, m: Moment, lib: Library)
    ensures var t := Step(s, name, path, m, lib);
      && (FileHash(s.files, path, lib) != Get(s.lastHash, name) ==>
            t.sent == s.sent + [Payload(name, ReadJson(s.files, path, lib))])
      && (FileHash(s.files, path, lib) == Get(s.lastHash, name) ==> t.sent == s.sent)
      && (forall n :: n != name ==> Get(t.lastHash, n) == Get(s.lastHash, n))
  {
  }

  /**
   * A file that was hashed while present and is then deleted is pushed as
   * {}; that push stamps the clock, so the restore check of the same turn,
   * made within 20 seconds, is skipped and the file stays missing.
   */
  lemma WipedFilePushesEmpty(s: State, name: Name, path: Path, m: Moment, lib: Library)
    requires Get(s.lastHash, name).Some? && path !in s.files
    requires m.checkAt - m.pushAt < Guard
    ensures var t := Step(s, name, path, m, lib);
      && t.sent == s.sent + [Payload(name, EmptyObject)]
      && t.files == s.files && path !in t.files
      && Get(t.lastHash, name) == None
  {
    var p := PushCheck(s, name, path, m, lib);
    assert p.lastLocalWrite == m.pushAt && !RestoreWrites(p, m);
  }

  /**
   * A file emptied to zero bytes is pushed as {} as soon as its fingerprint
   * changes, and the restore check of that turn is skipped: the empty
   * document reaches the table and the file is not refilled.
   */
  lemma EmptiedFilePushesEmpty(s: State, name: Name, path: Path, m: Moment, lib: Library)
    requires RejectsEmpty(lib) && path in s.files && s.files[path] == []
    requires Get(s.lastHash, name) != Some(lib.digest([]))
    requires m.checkAt - m.pushAt < Guard
    ensures var t := Step(s, name, path, m, lib);
      && t.sent == s.sent + [Payload(name, EmptyObject)]
      && t.files == s.files
  {
    var p := PushCheck(s, name, path, m, lib);
    assert p.lastLocalWrite == m.pushAt && !RestoreWrites(p, m);
  }

  /**
   * A file never hashed and missing has the fingerprint None, which is what
   * last_hash.get gives for it: nothing is pushed, and the file is restored
   * when the guard, the status and the rows allow it.
   */
  lemma NeverHashedMissingIsRestored(s: State, name: Name, path: Path, m: Moment, lib: Library)
    requires name !in s.lastHash && path !in s.files
    ensures var t := Step(s, name, path, m, lib);
      && t.sent == s.sent && t.lastLocalWrite == s.lastLocalWrite
      && (RestoreWrites(s, m) ==> t.files == s.files[path := lib.dump(m.reply.rows[0])])
      && (!RestoreWrites(s, m) ==> t == s)
  {
    assert PushCheck(s, name, path, m, lib) == s;
  }

  /** A present, non-empty file whose fingerprint is the recorded one leaves the whole state as it was. */
  lemma UnchangedFileIsLeftAlone(s: State, name: Name, path: Path, m: Moment, lib: Library)
    requires path in s.files && s.files[path] != []
    requires Get(s.lastHash, name) == Some(lib.digest(s.files[path]))
    ensures Step(s, name, path, m, lib) == s
  {
  }

  /**
   * A restore records nothing: last_hash still holds the fingerprint of the
   * missing file, so the next turn sees the restored file as changed and
   * pushes its contents back to the table.
   */
  lemma RestoredFileIsPushedBack(s: State, name: Name, path: Path, m: Moment, m2: Moment, lib: Library)
    requires path !in s.files && RestoreWrites(PushCheck(s, name, path, m, lib), m)
    ensures var t := Step(s, name, path, m, lib);
      var data := m.reply.rows[0];
      && path in t.files && t.files[path] == lib.dump(data)
      && Step(t, name, path, m2, lib).sent == t.sent + [Payload(name, ReadJson(t.files, path, lib))]
  {
    var t := Step(s, name, path, m, lib);
    assert Get(t.lastHash, name) == None;
    assert FileHash(t.files, path, lib) != None;
    StepPushesOnChange(t, name, path, m2, lib);
  }

  // ---------------------------------------------------------------------------
  // A watcher tick and initial_restore
  // ---------------------------------------------------------------------------

  /** The state after the turns of the first |fs| files of a tick, in order. */
  function Ticked(s: State, fs: seq<(Name, Path)>, world: seq<Moment>, lib: Library): State
    requires |world| == |fs|
  {
    if fs == [] then s
    else
      var n := |fs| - 1;
      Step(Ticked(s, fs[..n], world[..n], lib), fs[n].0, fs[n].1, world[n], lib)
  }

  /**
   * A tick only appends to the POSTs sent, at most one per file, each for a
   * tracked name.
   */
  lemma {:induction false} TickedSends(s: State, fs: seq<(Name, Path)>, world: seq<Moment>, lib: Library)
    requires |world| == |fs|
    ensures var t := Ticked(s, fs, world, lib);
      && s.sent <= t.sent && |t.sent| <= |s.sent| + |fs|
      && forall i :: |s.sent| <= i < |t.sent| ==> exists f :: f in fs && t.sent[i].name == f.0
  {
    if fs != [] {
      var n := |fs| - 1;
      TickedSends(s, fs[..n], world[..n], lib);
      var u := Ticked(s, fs[..n], world[..n], lib);
      var t := Step(u, fs[n].0, fs[n].1, world[n], lib);
      StepPushesOnChange(u, fs[n].0, fs[n].1, world[n], lib);
      forall i | |s.sent| <= i < |t.sent| ensures exists f :: f in fs && t.sent[i].name == f.0 {
        if i < |u.sent| {
          var f :| f in fs[..n] && u.sent[i].name == f.0;
          assert f in fs;
        } else {
          assert t.sent[i].name == fs[n].0 && fs[n] in fs;
        }
      }
    }
  }

  /** initial_restore over the first |fs| files: a restore attempt for each missing or empty one. */
  function InitiallyRestored(s: State, fs: seq<(Name, Path)>, world: seq<Moment>, lib: Library): State
    requires |world| == |fs|
  {
    if fs == [] then s
    else
      var n := |fs| - 1;
      RestoreCheck(InitiallyRestored(s, fs[..n], world[..n], lib), fs[n].1, world[n], lib)
  }

  /**
   * initial_restore never pushes and records nothing, and it touches only
   * tracked paths that were missing or empty.
   */
  lemma {:induction false} InitialRestoreNeverPushes(s: State, fs: seq<(Name, Path)>, world: seq<Moment>, lib: Library)
    requires |world| == |fs|
    ensures var t := InitiallyRestored(s, fs, world, lib);
      && t.sent == s.sent && t.lastHash == s.lastHash && t.lastLocalWrite == s.lastLocalWrite
      && forall p :: p in s.files && s.files[p] != [] ==> p in t.files && t.files[p] == s.files[p]
  {
    if fs != [] {
      var n := |fs| - 1;
      InitialRestoreNeverPushes(s, fs[..n], world[..n], lib);
    }
  }

  // ---------------------------------------------------------------------------
  // The module's globals and its functions that change them
  // ---------------------------------------------------------------------------

  class Watcher {
    /** The local file system, restricted to what the module reads and writes. */
    var files: map<Path, Bytes>
    var lastHash: map<Name, Option<Digest>>
    var lastLocalWrite: real
    /** The POST requests made so far. */
    var sent: seq<Payload>
    const lib: Library

    function Current(): State
      reads this
    {
      State(files, lastHash, lastLocalWrite, sent)
    }

    constructor (found: map<Path, Bytes>, lib: Library)
      ensures Current() == Initial(found) && this.lib == lib
    {
      files := found;
      lastHash := map[];
      lastLocalWrite := 0.0;
      sent := [];
      this.lib := lib;
    }

    /** push_to_supabase(name, data) with `now` from time.time(). */
    method Push(name: Name, data: Json, now: real)
      modifies this`sent, this`lastLocalWrite
      ensures Current() == Pushed(old(Current()), name, data, now)
    {
      sent := sent + [Payload(name, data)];
      lastLocalWrite := now;
    }

    /** restore_from_supabase(name, path) with the clock reading and reply of `m`. */
    method Restore(path: Path, m: Moment)
      modifies this`files
      ensures Current() == Restored(old(Current()), path, m, lib)
    {
      if m.checkAt - lastLocalWrite < Guard {
        return;
      }
      if m.reply.status != 200 {
        return;
      }
      var rows := m.reply.rows;
      if rows == [] {
        return;
      }
      files := files[path := lib.dump(rows[0])];
    }

    /** One (name, path) turn of the watcher loop. */
    method Turn(name: Name, path: Path, m: Moment)
      modifies this`files, this`lastHash, this`lastLocalWrite, this`sent
      ensures Current() == Step(old(Current()), name, path, m, lib)
    {
      var h := FileHash(files, path, lib);
      if h != Get(lastHash, name) {
        var data := ReadJson(files, path, lib);
        Push(name, data, m.pushAt);
        lastHash := lastHash[name := h];
      }
      if path !in files || |files[path]| == 0 {
        Restore(path, m);
      }
    }

    /** One pass of watcher's `while True` body over FILES; the sleep is not modelled. */
    method Tick(world: seq<Moment>)
      requires |world| == |Files|
      modifies this`files, this`lastHash, this`lastLocalWrite, this`sent
      ensures Current() == Ticked(old(Current()), Files, world, lib)
    {
      for i := 0 to |Files|
        invariant Current() == Ticked(old(Current()), Files[..i], world[..i], lib)
      {
        var (name, path) := Files[i];
        assert Files[..i + 1][..i] == Files[..i] && world[..i + 1][..i] == world[..i];
        Turn(name, path, world[i]);
      }
      assert Files[..|Files|] == Files && world[..|world|] == world;
    }

    /** initial_restore(). */
    method InitialRestore(world: seq<Moment>)
      requires |world| == |Files|
      modifies this`files
      ensures Current() == InitiallyRestored(old(Current()), Files, world, lib)
    {
      for i := 0 to |Files|
        invariant Current() == InitiallyRestored(old(Current()), Files[..i], world[..i], lib)
      {
        var path := Files[i].1;
        assert Files[..i + 1][..i] == Files[..i] && world[..i + 1][..i] == world[..i];
        if path !in files || |files[path]| == 0 {
          Restore(path, world[i]);
        }
      }
      assert Files[..|Files|] == Files && world[..|world|] == world;
    }
  }
}
