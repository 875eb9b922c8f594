// Writing a backup and restoring one (backup.go), step by step on a filesystem
// that can fail or die at any call. A backup appears under its name complete or
// not at all; a restored folder appears complete and checked or not at all; and
// neither ever touches what is already there.
module Backup {
  import opened FaultyFs
  import opened Wrappers
  import opened Bytes
  import opened BackupArchive

  /** Nothing but one path differs. */
  ghost predicate OnlyAt<P(!new), C>(f: map<P, C>, g: map<P, C>, at: P) {
    forall p: P :: p != at ==> Same(f, g, p)
  }

  lemma OnlyAtTwice<P(!new), C>(f: map<P, C>, g: map<P, C>, h: map<P, C>, at: P)
    requires OnlyAt(f, g, at) && OnlyAt(g, h, at)
    ensures OnlyAt(f, h, at)
  {
    forall p: P | p != at ensures Same(f, h, p) {
      assert Same(f, g, p) && Same(g, h, p);
    }
  }

  /** With the scratch path removed, at most the final one is new. */
  lemma ScratchGone<P(!new), C>(f: map<P, C>, g: map<P, C>, h: map<P, C>, scratch: P, final: P)
    requires scratch !in f && final !in f && scratch != final && scratch in g && g - {scratch} == f
    requires forall p: P :: p != scratch && p != final ==> Same(g, h, p)
    ensures h - {scratch} == if final in h then f[final := h[final]] else f
  {
    var left, wanted := h - {scratch}, if final in h then f[final := h[final]] else f;
    forall p: P ensures (p in left <==> p in wanted) && (p in left ==> left[p] == wanted[p]) {
      if p != scratch && p != final {
        assert Same(g, h, p);
        assert p in f <==> p in g - {scratch};
      }
    }
  }

  // ---- Writing ---------------------------------------------------------------------------

  datatype BackupPath = Archived | Temporary(n: nat)

  type Shelf = World<BackupPath, Archive>

  /** What a backup of the folder starts from. */
  datatype Request = Request(destinationInside: bool, pendingUpdate: bool, items: seq<Item>)

  /** A hard link: a second name, which must be free. */
  function Link(o: Oracle, w: Shelf, from: BackupPath, to: BackupPath): (Shelf, bool) {
    if w.Permits(o) && from in w.files && to !in w.files then
      (w.Tick(o).(files := w.files[to := w.files[from]]), true)
    else
      (w.Tick(o), false)
  }

  // One member after another; a file that is not as long as it was when it was
  // listed stops the backup.
  function CopyMembers(o: Oracle, w: Shelf, at: BackupPath, items: seq<Item>, k: nat): (Shelf, bool)
    requires k <= |items|
    decreases |items| - k
  {
    if k == |items| then (w, true)
    else
      var (w, going) := w.Check(o);
      if !going then (w, false) else
      var read := Head(items[k].copied, items[k].size + 1);
      var (w, copied) := w.Replace(o, at, Members(items[..k]) + [Member(items[k].name, true, |read|, Some(read))]);
      if !copied || |read| != items[k].size then (w, false) else CopyMembers(o, w, at, items, k + 1)
  }

  function WriteArchive(o: Oracle, w: Shelf, c: Codec, at: BackupPath, items: seq<Item>): (Shelf, bool) {
    var (w, copied) := CopyMembers(o, w, at, items, 0);
    if !copied then (w, false) else
    var (w, finished) := w.Replace(o, at, Packed(c, items));
    if !finished then (w, false) else
    var (w, flushed) := w.Check(o);
    if !flushed then (w, false) else
    Link(o, w, at, Archived)
  }

  ghost function WriteBackup(o: Oracle, w: Shelf, c: Codec, r: Request): (Shelf, bool) {
    if r.destinationInside || r.pendingUpdate then (w, false)
    else
      var (w, disk) := w.Check(o);
      if !disk || !Collectable(r.items) then (w, false) else
      var (w, room) := w.Check(o);
      if !room then (w, false) else
      var (w, there) := w.Stat(o, Archived);
      if there != Absent then (w, false) else
      var at := Temporary(w.clock);
      var (w, created) := w.Replace(o, at, []);
      if !created then (w, false) else
      var (w, ok) := WriteArchive(o, w, c, at, r.items);
      (w.Remove(o, at).0, ok)
  }

  lemma {:induction false} CopyMembersOutcome(o: Oracle, w: Shelf, at: BackupPath, items: seq<Item>, k: nat)
    requires k <= |items| && at in w.files
    ensures var (r, ok) := CopyMembers(o, w, at, items, k);
      && at in r.files && OnlyAt(w.files, r.files, at)
      && (ok ==> forall i :: k <= i < |items| ==> |items[i].copied| == items[i].size)
      && (w.alive && Healthy(o) ==> r.alive && (Steady(items) ==> ok))
    decreases |items| - k
  {
    if k < |items| {
      var w1 := w.Check(o).0;
      var read := Head(items[k].copied, items[k].size + 1);
      var w2 := w1.Replace(o, at, Members(items[..k]) + [Member(items[k].name, true, |read|, Some(read))]).0;
      CopyMembersOutcome(o, w2, at, items, k + 1);
      OnlyAtTwice(w.files, w2.files, CopyMembers(o, w2, at, items, k + 1).0.files, at);
    }
  }

  lemma WriteArchiveOutcome(o: Oracle, w: Shelf, c: Codec, at: BackupPath, items: seq<Item>)
    requires at in w.files && at != Archived
    ensures var (r, ok) := WriteArchive(o, w, c, at, items);
      && (Archived in w.files ==> Same(w.files, r.files, Archived) && !ok)
      && (Archived !in w.files && Archived in r.files ==> r.files[Archived] == Packed(c, items) && Steady(items))
      && (ok ==> Archived in r.files)
      && (forall p: BackupPath :: p != at && p != Archived ==> Same(w.files, r.files, p))
      && (w.alive && Healthy(o) ==> r.alive && (ok <==> Steady(items) && Archived !in w.files) && (Archived in r.files ==> ok || Archived in w.files))
  {
    hide CopyMembers, Packed;
    CopyMembersOutcome(o, w, at, items, 0);
    var w1 := CopyMembers(o, w, at, items, 0).0;
    assert Same(w.files, w1.files, Archived);
    var r := WriteArchive(o, w, c, at, items).0;
    forall p: BackupPath | p != at && p != Archived ensures Same(w.files, r.files, p) {
      assert Same(w.files, w1.files, p);
    }
  }

  /** An existing backup is never replaced; a new one is complete and was made
      of a folder that held still. */
  lemma BackupOutcome(o: Oracle, w: Shelf, c: Codec, request: Request)
    ensures var (r, ok) := WriteBackup(o, w, c, request);
      && (Archived in w.files ==> Same(w.files, r.files, Archived) && !ok)
      && (Archived !in w.files && Archived in r.files ==>
            r.files[Archived] == Packed(c, request.items) && Collectable(request.items) && Steady(request.items))
      && (ok ==> Archived in r.files)
  {
    hide WriteArchive, Packed, Collectable, Steady;
    var w3 := w.Tick(o).Tick(o).Tick(o);
    var at := Temporary(w3.clock);
    var (w4, created) := w3.Replace(o, at, []);
    if created {
      WriteArchiveOutcome(o, w4, c, at, request.items);
    }
  }

  /** In a healthy run a backup is written exactly when the folder allows it,
      and nothing else is left behind, either way. */
  lemma HealthyBackup(o: Oracle, w: Shelf, c: Codec, request: Request)
    requires Healthy(o) && w.alive && Archived !in w.files && forall n: nat :: n >= w.clock ==> Temporary(n) !in w.files
    ensures var (r, ok) := WriteBackup(o, w, c, request);
      && (ok <==> !request.destinationInside && !request.pendingUpdate && Collectable(request.items) && Steady(request.items))
      && r.files == if ok then w.files[Archived := Packed(c, request.items)] else w.files
  {
    hide WriteArchive, Packed, Collectable, Steady, OnlyAt;
    BackupOutcome(o, w, c, request);
    if !request.destinationInside && !request.pendingUpdate && Collectable(request.items) {
      var w3 := w.Tick(o).Tick(o).Tick(o);
      var at := Temporary(w3.clock);
      var w4 := w3.Replace(o, at, []).0;
      WriteArchiveOutcome(o, w4, c, at, request.items);
      var w5 := WriteArchive(o, w4, c, at, request.items).0;
      ScratchGone(w.files, w4.files, w5.files, at, Archived);
      assert w5.alive;
    }
  }

  // ---- Restoring -------------------------------------------------------------------------

  /** A folder: its files by name. */
  type Tree = map<string, seq<byte>>

  datatype Path = Destination | Staging(n: nat)

  type Disk = World<Path, Tree>

  /** Two names that cannot both be files on a filesystem that ignores case. */
  predicate Clash(a: string, b: string) {
    a == b || a + "/" <= b || b + "/" <= a
  }

  predicate Blocked(c: Codec, tree: Tree, name: string) {
    exists other :: other in tree && Clash(c.fold(other), c.fold(name))
  }

  /** What is read of a member: one byte more than its entry says would show. */
  function Data(a: Archive, e: Entry): (data: seq<byte>) {
    match Lookup(a, e.name)
    case None => []
    case Some(m) => if m.content.None? || e.size < 0 then [] else Head(m.content.value, e.size + 1)
  }

  predicate Readable(a: Archive, e: Entry) {
    Lookup(a, e.name).Some? && Lookup(a, e.name).value.content.Some?
  }

  predicate Verified(c: Codec, e: Entry, data: seq<byte>) {
    |data| == e.size && c.sha(data) == e.sha
  }

  function RestoreFile(o: Oracle, w: Disk, c: Codec, at: Path, a: Archive, e: Entry): (Disk, bool)
    requires at in w.files
  {
    var tree := w.files[at];
    var (w, parents) := w.Check(o);
    if !parents || !Readable(a, e) || Blocked(c, tree, e.name) then (w, false) else
    var (w, created) := w.Replace(o, at, tree[e.name := []]);
    if !created then (w, false) else
    var (w, copied) := w.Replace(o, at, tree[e.name := Data(a, e)]);
    if !copied || !Verified(c, e, Data(a, e)) then (w, false) else w.Check(o)
  }

  function RestoreFiles(o: Oracle, w: Disk, c: Codec, at: Path, a: Archive, files: seq<Entry>): (Disk, bool)
    requires at in w.files
    decreases |files|
  {
    if files == [] then (w, true)
    else
      var (w, ok) := RestoreFile(o, w, c, at, a, files[0]);
      if !ok then (w, false) else RestoreFiles(o, w, c, at, a, files[1..])
  }

  function PublishRestored(o: Oracle, w: Disk, c: Codec, at: Path, a: Archive, files: seq<Entry>): (Disk, bool)
    requires at in w.files
  {
    var (w, ok) := RestoreFiles(o, w, c, at, a, files);
    if !ok then (w, false) else
    var (w, restamped) := w.Check(o);
    if !restamped then (w, false) else
    var (w, there) := w.Stat(o, Destination);
    if there != Absent then (w, false) else
    w.RenameDir(o, at, Destination)
  }

  ghost function Restore(o: Oracle, w: Disk, c: Codec, a: Archive): (Disk, bool) {
    var (w, there) := w.Stat(o, Destination);
    if there != Absent then (w, false) else
    var (w, unzipped) := w.Check(o);
    var m := Read(c, a);
    if !unzipped || m.None? then (w, false) else
    var (w, room) := w.Check(o);
    if !room then (w, false) else
    var at := Staging(w.clock);
    var (w, made) := w.Replace(o, at, map[]);
    if !made then (w, false) else
    var (w, ok) := PublishRestored(o, w, c, at, a, m.value.files);
    (w.Remove(o, at).0, ok)
  }

  /** A tree with entries put into it in turn. */
  function Filled(tree: Tree, a: Archive, files: seq<Entry>): Tree
    decreases |files|
  {
    if files == [] then tree else Filled(tree[files[0].name := Data(a, files[0])], a, files[1..])
  }

  ghost predicate AllVerified(c: Codec, a: Archive, files: seq<Entry>) {
    forall k :: 0 <= k < |files| ==> Readable(a, files[k]) && Verified(c, files[k], Data(a, files[k]))
  }

  lemma RestoreFileOutcome(o: Oracle, w: Disk, c: Codec, at: Path, a: Archive, e: Entry)
    requires at in w.files
    ensures var (r, ok) := RestoreFile(o, w, c, at, a, e);
      && at in r.files && OnlyAt(w.files, r.files, at)
      && (ok ==> Readable(a, e) && Verified(c, e, Data(a, e)) && r.files[at] == w.files[at][e.name := Data(a, e)])
      && (w.alive && Healthy(o) && !Blocked(c, w.files[at], e.name) && Readable(a, e) && Verified(c, e, Data(a, e)) ==>
            ok && r.alive)
      && (w.alive && Healthy(o) ==> r.alive)
  {
    hide Data, Readable, Verified, Blocked;
  }

  lemma {:induction false} RestoreFilesOutcome(o: Oracle, w: Disk, c: Codec, at: Path, a: Archive, files: seq<Entry>)
    requires at in w.files
    ensures var (r, ok) := RestoreFiles(o, w, c, at, a, files);
      && at in r.files && OnlyAt(w.files, r.files, at)
      && (ok ==> AllVerified(c, a, files) && r.files[at] == Filled(w.files[at], a, files))
      && (w.alive && Healthy(o) ==> r.alive)
    decreases |files|
  {
    hide RestoreFile, Data, Readable, Verified, Blocked, OnlyAt;
    if files == [] {
      NothingChanged(w.files, at);
    } else {
      RestoreFileOutcome(o, w, c, at, a, files[0]);
      var (w1, ok) := RestoreFile(o, w, c, at, a, files[0]);
      if ok {
        RestoreFilesOutcome(o, w1, c, at, a, files[1..]);
        var (w2, all) := RestoreFiles(o, w1, c, at, a, files[1..]);
        OnlyAtTwice(w.files, w1.files, w2.files, at);
        if all {
          forall k | 0 <= k < |files| ensures Readable(a, files[k]) && Verified(c, files[k], Data(a, files[k])) {
            assert k > 0 ==> files[k] == files[1..][k - 1];
          }
        }
      }
    }
  }

  lemma NothingChanged<P(!new), C>(f: map<P, C>, at: P)
    ensures OnlyAt(f, f, at)
  {
  }

  /** Filling keeps what is there and adds each entry under its name. */
  lemma {:induction false} FilledHolds(tree: Tree, a: Archive, files: seq<Entry>)
    requires forall i, j :: 0 <= i < j < |files| ==> files[i].name != files[j].name
    ensures Filled(tree, a, files).Keys == tree.Keys + Names(files)
    ensures forall k :: 0 <= k < |files| ==> Filled(tree, a, files)[files[k].name] == Data(a, files[k])
    ensures forall name :: name in tree && name !in Names(files) ==> Filled(tree, a, files)[name] == tree[name]
    decreases |files|
  {
    hide Data, Names;
    if files == [] {
      NoNames();
    } else {
      var e, rest := files[0], files[1..];
      FilledHolds(tree[e.name := Data(a, e)], a, rest);
      assert files == [e] + rest;
      FirstName(e, rest);
      forall k | 0 <= k < |rest| ensures rest[k].name != e.name {
        assert rest[k] == files[k + 1];
      }
      assert e.name !in Names(rest) by { NotNamed(rest, e.name); }
      forall k | 0 <= k < |files| ensures Filled(tree, a, files)[files[k].name] == Data(a, files[k]) {
        assert k > 0 ==> files[k] == rest[k - 1];
      }
    }
  }

  lemma FirstName(e: Entry, rest: seq<Entry>)
    ensures Names([e] + rest) == {e.name} + Names(rest)
  {
    var files := [e] + rest;
    assert files[0] == e;
    forall name | name in Names(rest) ensures name in Names(files) {
      var k :| 0 <= k < |rest| && rest[k].name == name;
      assert files[k + 1].name == name;
    }
    forall name | name in Names(files) ensures name in {e.name} + Names(rest) {
      var k :| 0 <= k < |files| && files[k].name == name;
      assert k > 0 ==> rest[k - 1].name == name;
    }
  }

  /** Exactly the manifest's files, each with its recorded size and hash. */
  ghost predicate Complete(c: Codec, m: Manifest, tree: Tree) {
    && tree.Keys == Names(m.files)
    && forall k :: 0 <= k < |m.files| ==> m.files[k].name in tree && Verified(c, m.files[k], tree[m.files[k].name])
  }

  lemma FilledIsComplete(c: Codec, a: Archive, m: Manifest)
    requires AllVerified(c, a, m.files)
    requires forall i, j :: 0 <= i < j < |m.files| ==> m.files[i].name != m.files[j].name
    ensures Complete(c, m, Filled(map[], a, m.files))
  {
    FilledHolds(map[], a, m.files);
  }

  lemma PublishOutcome(o: Oracle, w: Disk, c: Codec, at: Path, a: Archive, m: Manifest)
    requires at in w.files && w.files[at] == map[] && at != Destination && Read(c, a) == Some(m)
    ensures var (r, ok) := PublishRestored(o, w, c, at, a, m.files);
      && (Destination in w.files ==> Same(w.files, r.files, Destination) && !ok)
      && (Destination !in w.files && Destination in r.files ==> Complete(c, m, r.files[Destination]))
      && (ok ==> Destination in r.files)
      && (forall p: Path :: p != at && p != Destination ==> Same(w.files, r.files, p))
      && (w.alive && Healthy(o) ==> r.alive && (Destination in r.files ==> ok || Destination in w.files))
  {
    hide RestoreFiles, Read, Complete, Filled, AllVerified;
    RestoreFilesOutcome(o, w, c, at, a, m.files);
    var (w1, ok) := RestoreFiles(o, w, c, at, a, m.files);
    assert Same(w.files, w1.files, Destination);
    if ok {
      AcceptedIsDistinct(c, a);
      FilledIsComplete(c, a, m);
    }
    var r := PublishRestored(o, w, c, at, a, m.files).0;
    forall p: Path | p != at && p != Destination ensures Same(w.files, r.files, p) {
      assert Same(w.files, w1.files, p);
    }
  }

  /** For any archive and any failure: an existing destination is untouched, a
      new one is complete and checked, and success means it is there. */
  lemma RestoreOutcome(o: Oracle, w: Disk, c: Codec, a: Archive)
    ensures var (r, ok) := Restore(o, w, c, a);
      && (Destination in w.files ==> Same(w.files, r.files, Destination) && !ok)
      && (Destination !in w.files && Destination in r.files ==>
            Read(c, a).Some? && Complete(c, Read(c, a).value, r.files[Destination]))
      && (ok ==> Destination in r.files)
      && (forall n: nat :: n < w.clock ==> Same(w.files, r.files, Staging(n)))
  {
    hide PublishRestored, Read, Complete;
    var w3 := w.Tick(o).Tick(o).Tick(o);
    var at := Staging(w3.clock);
    var (w4, made) := w3.Replace(o, at, map[]);
    var m := Read(c, a);
    if m.Some? && made {
      PublishOutcome(o, w4, c, at, a, m.value);
      var w5 := PublishRestored(o, w4, c, at, a, m.value.files).0;
      var r := Restore(o, w, c, a).0;
      forall n: nat | n < w.clock ensures Same(w.files, r.files, Staging(n)) {
        assert Same(w4.files, w5.files, Staging(n));
      }
    }
  }

  /** In a healthy run nothing else is left behind, whether the restore succeeds or not. */
  lemma HealthyRestoreLeavesNothing(o: Oracle, w: Disk, c: Codec, a: Archive)
    requires Healthy(o) && w.alive && forall n: nat :: n >= w.clock ==> Staging(n) !in w.files
    ensures var (r, ok) := Restore(o, w, c, a);
      if ok then Destination in r.files && r.files == w.files[Destination := r.files[Destination]] else r.files == w.files
  {
    hide PublishRestored, Read, Complete;
    if Destination !in w.files && Read(c, a).Some? {
      var w3 := w.Tick(o).Tick(o).Tick(o);
      var at := Staging(w3.clock);
      var w4 := w3.Replace(o, at, map[]).0;
      PublishOutcome(o, w4, c, at, a, Read(c, a).value);
      var w5 := PublishRestored(o, w4, c, at, a, Read(c, a).value.files).0;
      ScratchGone(w.files, w4.files, w5.files, at, Destination);
    }
  }

  lemma AcceptedIsDistinct(c: Codec, a: Archive)
    requires Read(c, a).Some?
    ensures var files := Read(c, a).value.files; forall i, j :: 0 <= i < j < |files| ==> files[i].name != files[j].name
  {
  }

  // ---- There and back ----------------------------------------------------------------------

  /** The walk met exactly the files of a folder, and they kept their contents. */
  ghost predicate Lists(items: seq<Item>, folder: Tree) {
    && folder.Keys == ItemNames(items)
    && (forall k :: 0 <= k < |items| ==> items[k].name in folder && items[k].copied == folder[items[k].name])
    && (forall i, j :: 0 <= i < j < |items| ==> items[i].name != items[j].name)
  }

  /** No two of the names clash on a filesystem that ignores case. */
  ghost predicate Clashless(c: Codec, items: seq<Item>) {
    forall i, j :: 0 <= i < |items| && 0 <= j < |items| && i != j ==> !Clash(c.fold(items[i].name), c.fold(items[j].name))
  }

  /** A healthy restore succeeds when every file can be read, checks out and gets its place. */
  lemma {:induction false} RestoreFilesSucceed(o: Oracle, w: Disk, c: Codec, at: Path, a: Archive, files: seq<Entry>)
    requires at in w.files && w.alive && Healthy(o) && AllVerified(c, a, files)
    requires forall i, j :: 0 <= i < |files| && 0 <= j < |files| && i != j ==> !Clash(c.fold(files[i].name), c.fold(files[j].name))
    requires forall k :: 0 <= k < |files| ==> !Blocked(c, w.files[at], files[k].name)
    ensures var (r, ok) := RestoreFiles(o, w, c, at, a, files); ok && r.alive
    decreases |files|
  {
    hide RestoreFile, Data, Readable, Verified, Clash;
    if files != [] {
      var e, rest := files[0], files[1..];
      RestoreFileOutcome(o, w, c, at, a, e);
      var w1 := RestoreFile(o, w, c, at, a, e).0;
      assert AllVerified(c, a, rest) by {
        assert forall k :: 0 <= k < |rest| ==> rest[k] == files[k + 1];
      }
      forall k | 0 <= k < |rest| ensures !Blocked(c, w1.files[at], rest[k].name) {
        assert rest[k] == files[k + 1];
        StillFree(c, w.files[at], e.name, Data(a, e), rest[k].name);
      }
      RestoreFilesSucceed(o, w1, c, at, a, rest);
    }
  }

  lemma StillFree(c: Codec, tree: Tree, name: string, data: seq<byte>, other: string)
    requires !Blocked(c, tree, other) && !Clash(c.fold(name), c.fold(other))
    ensures !Blocked(c, tree[name := data], other)
  {
  }

  lemma PackedVerifies(c: Codec, items: seq<Item>)
    requires c.Lossless() && Steady(items) && DistinctFolded(c, Packed(c, items))
    ensures AllVerified(c, Packed(c, items), Entries(c, items))
    ensures forall k :: 0 <= k < |items| ==> Data(Packed(c, items), Entries(c, items)[k]) == items[k].copied
  {
    hide Lookup, Packed;
    var a, files := Packed(c, items), Entries(c, items);
    forall k | 0 <= k < |items|
      ensures Readable(a, files[k]) && Verified(c, files[k], Data(a, files[k])) && Data(a, files[k]) == items[k].copied
    {
      ItemIsFound(c, items, k);
      assert |items[k].copied| == items[k].size;
    }
  }

  /** A healthy restore that gets through every file found no clash among them. */
  lemma {:induction false} RestoredFilesAreClashless(o: Oracle, w: Disk, c: Codec, at: Path, a: Archive, files: seq<Entry>)
    requires at in w.files && RestoreFiles(o, w, c, at, a, files).1
    ensures forall k, name :: 0 <= k < |files| && name in w.files[at] ==> !Clash(c.fold(name), c.fold(files[k].name))
    ensures forall i, j :: 0 <= i < j < |files| ==> !Clash(c.fold(files[i].name), c.fold(files[j].name))
    decreases |files|
  {
    hide Data, Readable, Verified, Clash;
    if files != [] {
      var e, rest := files[0], files[1..];
      RestoreFileOutcome(o, w, c, at, a, e);
      assert !Blocked(c, w.files[at], e.name);
      hide RestoreFile, Blocked;
      var w1 := RestoreFile(o, w, c, at, a, e).0;
      RestoredFilesAreClashless(o, w1, c, at, a, rest);
      NotBlocked(c, w.files[at], e.name);
      forall k, name | 0 <= k < |files| && name in w.files[at] ensures !Clash(c.fold(name), c.fold(files[k].name)) {
        if k > 0 {
          assert name in w1.files[at] && files[k] == rest[k - 1];
        }
      }
      forall i, j | 0 <= i < j < |files| ensures !Clash(c.fold(files[i].name), c.fold(files[j].name)) {
        assert files[j] == rest[j - 1];
        if i == 0 {
          assert e.name in w1.files[at];
        } else {
          assert files[i] == rest[i - 1];
        }
      }
    }
  }

  lemma NotBlocked(c: Codec, tree: Tree, name: string)
    requires !Blocked(c, tree, name)
    ensures forall other :: other in tree ==> !Clash(c.fold(other), c.fold(name))
  {
  }

  lemma ClashIsSymmetric(a: string, b: string)
    ensures Clash(a, b) == Clash(b, a)
  {
  }

  /** A healthy restore of a backup of a folder succeeds if and only if the names
      are distinct ignoring case, none is a folder of another, and the manifest is
      within its limit; and then it gives the folder back. */
  lemma RoundTripIff(o: Oracle, w: Disk, c: Codec, items: seq<Item>, folder: Tree)
    requires Healthy(o) && w.alive && Destination !in w.files
    requires c.Lossless() && Collectable(items) && Steady(items) && Lists(items, folder)
    ensures var (r, ok) := Restore(o, w, c, Packed(c, items));
      && (ok <==> DistinctFolded(c, Packed(c, items)) && |ManifestText(c, items)| <= MANIFEST_LIMIT && Clashless(c, items))
      && (ok ==> Destination in r.files && r.files[Destination] == folder)
  {
    hide Packed, Read, RestoreFiles, Filled, DistinctFolded, ManifestText, AllVerified, Collectable, Clash;
    var a, files := Packed(c, items), Entries(c, items);
    ReadsBackIff(c, items);
    if Read(c, a).Some? {
      if Clashless(c, items) {
        RoundTrip(o, w, c, items, folder);
      } else {
        var w3 := w.Tick(o).Tick(o).Tick(o);
        var at := Staging(w3.clock);
        var w4 := w3.Replace(o, at, map[]).0;
        if RestoreFiles(o, w4, c, at, a, files).1 {
          RestoredFilesAreClashless(o, w4, c, at, a, files);
          forall i, j | 0 <= i < |items| && 0 <= j < |items| && i != j ensures !Clash(c.fold(items[i].name), c.fold(items[j].name)) {
            assert files[i].name == items[i].name && files[j].name == items[j].name;
            ClashIsSymmetric(c.fold(items[i].name), c.fold(items[j].name));
          }
          assert false;
        }
      }
    }
  }

  /** Restoring a backup of a folder gives the folder back. */
  lemma RoundTrip(o: Oracle, w: Disk, c: Codec, items: seq<Item>, folder: Tree)
    requires Healthy(o) && w.alive && Destination !in w.files
    requires c.Lossless() && Collectable(items) && Steady(items) && Lists(items, folder) && Clashless(c, items)
    requires DistinctFolded(c, Packed(c, items)) && |ManifestText(c, items)| <= MANIFEST_LIMIT
    ensures var (r, ok) := Restore(o, w, c, Packed(c, items)); ok && Destination in r.files && r.files[Destination] == folder
  {
    hide Packed, Read, RestoreFiles, Filled, DistinctFolded, ManifestText, AllVerified, Collectable;
    var a, files := Packed(c, items), Entries(c, items);
    ReadsBackIff(c, items);
    assert Read(c, a) == Some(Manifest(1, files));
    PackedVerifies(c, items);
    RestoredIsFolder(c, items, folder);
    var w3 := w.Tick(o).Tick(o).Tick(o);
    var at := Staging(w3.clock);
    var w4 := w3.Replace(o, at, map[]).0;
    forall i, j | 0 <= i < |files| && 0 <= j < |files| && i != j ensures !Clash(c.fold(files[i].name), c.fold(files[j].name)) {
      assert files[i].name == items[i].name && files[j].name == items[j].name;
    }
    RestoreFilesSucceed(o, w4, c, at, a, files);
    RestoreFilesOutcome(o, w4, c, at, a, files);
    var w5 := RestoreFiles(o, w4, c, at, a, files).0;
    assert Same(w4.files, w5.files, Destination);
  }

  lemma RestoredIsFolder(c: Codec, items: seq<Item>, folder: Tree)
    requires Lists(items, folder)
    requires forall k :: 0 <= k < |items| ==> Data(Packed(c, items), Entries(c, items)[k]) == items[k].copied
    ensures Filled(map[], Packed(c, items), Entries(c, items)) == folder
  {
    hide Packed, Data, Filled, Names, ItemNames;
    var a, files := Packed(c, items), Entries(c, items);
    forall i, j | 0 <= i < j < |files| ensures files[i].name != files[j].name {
      assert files[i].name == items[i].name && files[j].name == items[j].name;
    }
    FilledHolds(map[], a, files);
    SameNames(c, items);
    var restored := Filled(map[], a, files);
    assert restored.Keys == folder.Keys;
    forall name | name in folder ensures restored[name] == folder[name] {
      assert name in ItemNames(items);
      var k :| 0 <= k < |items| && items[k].name == name;
      assert restored[files[k].name] == Data(a, files[k]);
    }
  }

  // ---- The same, changed in place -------------------------------------------------------------

  method LinkArchive(m: Machine<BackupPath, Archive>, from: BackupPath, to: BackupPath) returns (ok: bool)
    modifies m
    ensures (m.View(), ok) == Link(m.oracle, old(m.View()), from, to)
  {
    var works := m.Pass();
    ok := works && from in m.files && to !in m.files;
    if ok {
      m.files := m.files[to := m.files[from]];
    }
  }

  method CopyIntoArchive(m: Machine<BackupPath, Archive>, at: BackupPath, items: seq<Item>) returns (ok: bool)
    modifies m
    ensures (m.View(), ok) == CopyMembers(m.oracle, old(m.View()), at, items, 0)
  {
    var k := 0;
    while k < |items|
      invariant k <= |items|
      invariant CopyMembers(m.oracle, m.View(), at, items, k) == CopyMembers(m.oracle, old(m.View()), at, items, 0)
    {
      var going := m.Pass();
      if !going {
        return false;
      }
      var item := items[k];
      var read := Head(item.copied, item.size + 1);
      var copied := m.Replace(at, Members(items[..k]) + [Member(item.name, true, |read|, Some(read))]);
      if !copied || |read| != item.size {
        return false;
      }
      k := k + 1;
    }
    ok := true;
  }

  method WriteVMBackup(m: Machine<BackupPath, Archive>, c: Codec, request: Request) returns (ok: bool)
    modifies m
    ensures (m.View(), ok) == WriteBackup(m.oracle, old(m.View()), c, request)
  {
    hide CopyMembers, Collectable;
    if request.destinationInside || request.pendingUpdate {
      return false;
    }
    var disk := m.Pass();
    if !disk {
      return false;
    }
    var collected := Collect(request.items);
    if !collected {
      return false;
    }
    var room := m.Pass();
    if !room {
      return false;
    }
    var there := m.Stat(Archived);
    if there != Absent {
      return false;
    }
    var at := Temporary(m.clock);
    var created := m.Replace(at, []);
    if !created {
      return false;
    }
    ok := PublishArchive(m, c, at, request.items);
    var _ := m.Remove(at);
  }

  method PublishArchive(m: Machine<BackupPath, Archive>, c: Codec, at: BackupPath, items: seq<Item>) returns (ok: bool)
    modifies m
    ensures (m.View(), ok) == WriteArchive(m.oracle, old(m.View()), c, at, items)
  {
    hide CopyMembers;
    var copied := CopyIntoArchive(m, at, items);
    if !copied {
      return false;
    }
    var finished := m.Replace(at, Packed(c, items));
    if !finished {
      return false;
    }
    var flushed := m.Pass();
    if !flushed {
      return false;
    }
    ok := LinkArchive(m, at, Archived);
  }

  method RestoreBackupFile(m: Machine<Path, Tree>, c: Codec, at: Path, a: Archive, e: Entry) returns (ok: bool)
    requires at in m.files
    modifies m
    ensures at in m.files && (m.View(), ok) == RestoreFile(m.oracle, old(m.View()), c, at, a, e)
  {
    hide Data, Readable, Verified, Blocked;
    var tree := m.files[at];
    var parents := m.Pass();
    if !parents || !Readable(a, e) || Blocked(c, tree, e.name) {
      return false;
    }
    var created := m.Replace(at, tree[e.name := []]);
    if !created {
      return false;
    }
    var data := Data(a, e);
    var copied := m.Replace(at, tree[e.name := data]);
    if !copied || !Verified(c, e, data) {
      return false;
    }
    ok := m.Pass();
  }

  method RestoreBackupFiles(m: Machine<Path, Tree>, c: Codec, at: Path, a: Archive, files: seq<Entry>) returns (ok: bool)
    requires at in m.files
    modifies m
    ensures at in m.files && (m.View(), ok) == RestoreFiles(m.oracle, old(m.View()), c, at, a, files)
  {
    hide RestoreFile;
    var k := 0;
    assert files[0..] == files;
    while k < |files|
      invariant k <= |files| && at in m.files
      invariant RestoreFiles(m.oracle, m.View(), c, at, a, files[k..]) == RestoreFiles(m.oracle, old(m.View()), c, at, a, files)
    {
      assert files[k..][0] == files[k] && files[k..][1..] == files[k + 1..];
      var restored := RestoreBackupFile(m, c, at, a, files[k]);
      if !restored {
        return false;
      }
      k := k + 1;
    }
    ok := true;
  }

  method RestoreVMBackup(m: Machine<Path, Tree>, c: Codec, a: Archive) returns (ok: bool)
    modifies m
    ensures (m.View(), ok) == Restore(m.oracle, old(m.View()), c, a)
  {
    hide RestoreFiles, Read;
    var there := m.Stat(Destination);
    if there != Absent {
      return false;
    }
    var unzipped := m.Pass();
    if !unzipped {
      return false;
    }
    var manifest := ReadBackup(c, a);
    if manifest.None? {
      return false;
    }
    var room := m.Pass();
    if !room {
      return false;
    }
    var at := Staging(m.clock);
    var made := m.Replace(at, map[]);
    if !made {
      return false;
    }
    ok := PublishTree(m, c, at, a, manifest.value.files);
    var _ := m.Remove(at);
  }

  method PublishTree(m: Machine<Path, Tree>, c: Codec, at: Path, a: Archive, files: seq<Entry>) returns (ok: bool)
    requires at in m.files
    modifies m
    ensures (m.View(), ok) == PublishRestored(m.oracle, old(m.View()), c, at, a, files)
  {
    hide RestoreFiles;
    var restored := RestoreBackupFiles(m, c, at, a, files);
    if !restored {
      return false;
    }
    var restamped := m.Pass();
    if !restamped {
      return false;
    }
    var there := m.Stat(Destination);
    if there != Absent {
      return false;
    }
    ok := m.RenameDir(at, Destination);
  }
}
