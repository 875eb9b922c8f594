// When a restore of any archive at all succeeds, and what one failing call can do
// to a backup or a restore that would have succeeded.
module BackupOutcomes {
  import opened FaultyFs
  import opened Wrappers
  import opened Bytes
  import opened Strings
  import opened BackupArchive
  import opened Backup

  /** No entry's name is another's, or a folder of another, on a filesystem that ignores case. */
  ghost predicate Apart(c: Codec, files: seq<Entry>) {
    forall i, j :: 0 <= i < |files| && 0 <= j < |files| && i != j ==> !Clash(c.fold(files[i].name), c.fold(files[j].name))
  }

  ghost predicate Restorable(c: Codec, a: Archive) {
    && Read(c, a).Some?
    && AllVerified(c, a, Read(c, a).value.files) && Apart(c, Read(c, a).value.files)
  }

  /** Without faults a restore succeeds exactly when there is nothing in its way, the
      archive is read as a backup, every file is in it with the recorded size and hash,
      and no two of the names clash. */
  lemma RestoreSucceedsIff(o: Oracle, w: Disk, c: Codec, a: Archive)
    requires Healthy(o) && w.alive
    ensures Restore(o, w, c, a).1 <==> Destination !in w.files && Restorable(c, a)
  {
    hide Read, RestoreFiles, AllVerified, Clash;
    if Destination !in w.files && Read(c, a).Some? {
      var files := Read(c, a).value.files;
      var w3 := w.Tick(o).Tick(o).Tick(o);
      var at := Staging(w3.clock);
      var w4 := w3.Replace(o, at, map[]).0;
      RestoreFilesOutcome(o, w4, c, at, a, files);
      var (w5, ok) := RestoreFiles(o, w4, c, at, a, files);
      assert Same(w4.files, w5.files, Destination);
      if AllVerified(c, a, files) && Apart(c, files) {
        RestoreFilesSucceed(o, w4, c, at, a, files);
      }
      if ok {
        RestoredFilesAreClashless(o, w4, c, at, a, files);
        forall i, j | 0 <= i < |files| && 0 <= j < |files| && i != j ensures !Clash(c.fold(files[i].name), c.fold(files[j].name)) {
          ClashIsSymmetric(c.fold(files[i].name), c.fold(files[j].name));
        }
      }
    }
  }

  /** Two names clash exactly if the parts of one begin the parts of the other. */
  lemma ClashIff(a: string, b: string)
    ensures Clash(a, b) <==> Split(a, '/') <= Split(b, '/') || Split(b, '/') <= Split(a, '/')
  {
    hide Split;
    PartsBegin(a, b);
    PartsBegin(b, a);
  }

  lemma {:induction false} PartsBegin(a: string, b: string)
    ensures Split(a, '/') <= Split(b, '/') <==> a == b || a + "/" <= b
  {
    if a == [] {
      assert b != [] && b[0] == '/' <==> a + "/" <= b;
    } else if b != [] && a[0] == b[0] {
      var s, t := Split(a[1..], '/'), Split(b[1..], '/');
      PartsBegin(a[1..], b[1..]);
      assert a == [a[0]] + a[1..] && b == [b[0]] + b[1..] && a + "/" == [a[0]] + (a[1..] + "/");
      if a[0] == '/' {
        OneBefore([], s, t);
      } else {
        FirstGrows(a[0], s, t);
      }
    } else {
      StartOf(a);
      StartOf(b);
    }
  }

  /** What the first part of a name shows of its first character. */
  lemma StartOf(name: string)
    ensures var first := Split(name, '/')[0];
      if name == [] then Split(name, '/') == [[]]
      else if name[0] == '/' then first == [] && |Split(name, '/')| > 1
      else first != [] && first[0] == name[0]
  {
  }

  lemma OneBefore(p: string, s: seq<string>, t: seq<string>)
    ensures [p] + s <= [p] + t <==> s <= t
  {
    var s', t' := [p] + s, [p] + t;
    assert s' <= t' ==> s'[1..] == s && t'[1..] == t && s' == t'[..|s'|];
  }

  lemma FirstGrows(c: char, s: seq<string>, t: seq<string>)
    requires s != [] && t != []
    ensures [[c] + s[0]] + s[1..] <= [[c] + t[0]] + t[1..] <==> s <= t
  {
    var s', t' := [[c] + s[0]] + s[1..], [[c] + t[0]] + t[1..];
    if s' <= t' {
      assert ([c] + s[0])[1..] == s[0] && ([c] + t[0])[1..] == t[0];
      assert s'[0] == t'[0];
      forall i | 0 <= i < |s| ensures s[i] == t[i] {
        assert i > 0 ==> s[i] == s'[i] == t'[i] == t[i];
      }
    }
    if s <= t {
      forall i | 0 <= i < |s| ensures s'[i] == t'[i] {
        assert s[i] == t[i];
      }
    }
  }

  /** A restored file is the whole of its member: a member longer than its entry says is
      never cut to fit. */
  lemma RestoredIsArchived(o: Oracle, w: Disk, c: Codec, a: Archive)
    requires Restore(o, w, c, a).1
    ensures Read(c, a).Some? && Destination in Restore(o, w, c, a).0.files
    ensures var tree, files := Restore(o, w, c, a).0.files[Destination], Read(c, a).value.files;
      forall k :: 0 <= k < |files| ==>
        && Lookup(a, files[k].name).Some? && files[k].name in tree
        && Lookup(a, files[k].name).value.content == Some(tree[files[k].name])
  {
    hide Read, RestoreFiles, Filled, AllVerified, Lookup, Data, Verified;
    var files := Read(c, a).value.files;
    var w3 := w.Tick(o).Tick(o).Tick(o);
    var at := Staging(w3.clock);
    var w4 := w3.Replace(o, at, map[]).0;
    RestoreFilesOutcome(o, w4, c, at, a, files);
    var (w5, ok) := RestoreFiles(o, w4, c, at, a, files);
    assert Same(w4.files, w5.files, Destination);
    var tree := Restore(o, w, c, a).0.files[Destination];
    assert tree == Filled(map[], a, files);
    AcceptedIsDistinct(c, a);
    FilledHolds(map[], a, files);
    forall k | 0 <= k < |files|
      ensures Lookup(a, files[k].name).Some? && files[k].name in tree && Lookup(a, files[k].name).value.content == Some(tree[files[k].name])
    {
      EntryIsWhole(c, a, files, k);
      assert files[k].name in Names(files);
    }
  }

  lemma EntryIsWhole(c: Codec, a: Archive, files: seq<Entry>, k: nat)
    requires AllVerified(c, a, files) && k < |files|
    ensures Lookup(a, files[k].name).Some? && Lookup(a, files[k].name).value.content == Some(Data(a, files[k]))
  {
    hide Lookup;
    assert Readable(a, files[k]) && Verified(c, files[k], Data(a, files[k]));
  }

  // ---- One failing call --------------------------------------------------------------------

  lemma {:induction false} CopyMembersWithOneFault(o: Oracle, w: Shelf, at: BackupPath, items: seq<Item>, k: nat, n: nat)
    requires k <= |items| && w.alive && FailsOnceAt(o, n) && Steady(items)
    ensures var (r, ok) := CopyMembers(o, w, at, items, k);
      && r.alive
      && (ok <==> n < w.clock || w.clock + 2 * (|items| - k) <= n)
      && (if ok then r.clock == w.clock + 2 * (|items| - k) else n < r.clock)
    decreases |items| - k
  {
    if k < |items| {
      var (w1, going) := w.Check(o);
      var read := Head(items[k].copied, items[k].size + 1);
      var (w2, copied) := w1.Replace(o, at, Members(items[..k]) + [Member(items[k].name, true, |read|, Some(read))]);
      assert |read| == items[k].size;
      if going && copied {
        CopyMembersWithOneFault(o, w2, at, items, k + 1, n);
      }
    }
  }

  lemma WriteArchiveWithOneFault(o: Oracle, w: Shelf, c: Codec, at: BackupPath, items: seq<Item>, n: nat)
    requires w.alive && FailsOnceAt(o, n) && Steady(items) && at in w.files && at != Archived && Archived !in w.files
    ensures var (r, ok) := WriteArchive(o, w, c, at, items);
      && r.alive
      && (ok <==> n < w.clock || w.clock + 2 * |items| + 3 <= n)
      && (if ok then r.clock == w.clock + 2 * |items| + 3 else n < r.clock)
      && (ok <==> Archived in r.files)
  {
    hide CopyMembers, Packed;
    CopyMembersOutcome(o, w, at, items, 0);
    CopyMembersWithOneFault(o, w, at, items, 0, n);
    var (w1, copied) := CopyMembers(o, w, at, items, 0);
    assert Same(w.files, w1.files, Archived);
  }

  /** A backup makes two calls for each file, and eight more. If one of them fails, there is no backup and nothing left of it; only
      where it is the last call, the removal of the temporary name, is that name left. */
  lemma BackupWithOneFault(o: Oracle, w: Shelf, c: Codec, request: Request, n: nat)
    requires FailsOnceAt(o, n) && w.alive && Archived !in w.files && forall i: nat :: i >= w.clock ==> Temporary(i) !in w.files
    requires !request.destinationInside && !request.pendingUpdate && Collectable(request.items) && Steady(request.items)
    ensures var (r, ok) := WriteBackup(o, w, c, request);
      && (ok <==> n < w.clock || w.clock + 2 * |request.items| + 7 <= n)
      && (!ok ==> r.files == w.files)
      && (ok && n != w.clock + 2 * |request.items| + 7 ==> r.files == w.files[Archived := Packed(c, request.items)])
      && (ok ==> Archived in r.files && r.files[Archived] == Packed(c, request.items))
  {
    hide WriteArchive, Packed, Collectable, Steady;
    BackupOutcome(o, w, c, request);
    var w3 := w.Tick(o).Tick(o).Tick(o);
    var at := Temporary(w3.clock);
    var (w4, created) := w3.Replace(o, at, []);
    if created && !(w.clock <= n < w3.clock) {
      WriteArchiveOutcome(o, w4, c, at, request.items);
      WriteArchiveWithOneFault(o, w4, c, at, request.items, n);
      var w5 := WriteArchive(o, w4, c, at, request.items).0;
      ScratchGone(w.files, w4.files, w5.files, at, Archived);
    }
  }

  lemma {:induction false} RestoreFilesWithOneFault(o: Oracle, w: Disk, c: Codec, at: Path, a: Archive, files: seq<Entry>, n: nat)
    requires at in w.files && w.alive && FailsOnceAt(o, n) && AllVerified(c, a, files) && Apart(c, files)
    requires forall k :: 0 <= k < |files| ==> !Blocked(c, w.files[at], files[k].name)
    ensures var (r, ok) := RestoreFiles(o, w, c, at, a, files);
      && r.alive
      && (ok <==> n < w.clock || w.clock + 4 * |files| <= n)
      && (if ok then r.clock == w.clock + 4 * |files| else n < r.clock)
    decreases |files|
  {
    hide Data, Readable, Verified, Clash, Blocked;
    if files != [] {
      var e, rest := files[0], files[1..];
      var (w1, ok) := RestoreFile(o, w, c, at, a, e);
      if ok {
        assert AllVerified(c, a, rest) && Apart(c, rest) by {
          assert forall k :: 0 <= k < |rest| ==> rest[k] == files[k + 1];
        }
        forall k | 0 <= k < |rest| ensures !Blocked(c, w1.files[at], rest[k].name) {
          assert rest[k] == files[k + 1];
          StillFree(c, w.files[at], e.name, Data(a, e), rest[k].name);
        }
        RestoreFilesWithOneFault(o, w1, c, at, a, rest, n);
      }
    }
  }

  lemma PublishRestoredWithOneFault(o: Oracle, w: Disk, c: Codec, at: Path, a: Archive, files: seq<Entry>, n: nat)
    requires at in w.files && at != Destination && w.files[at] == map[] && Destination !in w.files
    requires w.alive && FailsOnceAt(o, n) && AllVerified(c, a, files) && Apart(c, files)
    ensures var (r, ok) := PublishRestored(o, w, c, at, a, files);
      && r.alive
      && (ok <==> n < w.clock || w.clock + 4 * |files| + 3 <= n)
      && (if ok then r.clock == w.clock + 4 * |files| + 3 else n < r.clock)
      && (ok <==> Destination in r.files) && OnlyTwo(w.files, r.files, at)
  {
    hide RestoreFiles, AllVerified, Clash;
    RestoreFilesOutcome(o, w, c, at, a, files);
    RestoreFilesWithOneFault(o, w, c, at, a, files, n);
    var w1 := RestoreFiles(o, w, c, at, a, files).0;
    assert Same(w.files, w1.files, Destination);
    var r := PublishRestored(o, w, c, at, a, files).0;
    forall p: Path | p != at && p != Destination ensures Same(w.files, r.files, p) {
      assert Same(w.files, w1.files, p);
    }
  }

  ghost predicate OnlyTwo(f: map<Path, Tree>, g: map<Path, Tree>, at: Path) {
    forall p: Path :: p != at && p != Destination ==> Same(f, g, p)
  }

  /** A restore makes four calls for each file, and eight more. If one of them fails, nothing is restored and nothing is left of it;
      only the last call, the removal of the staging name, does not matter. */
  lemma RestoreWithOneFault(o: Oracle, w: Disk, c: Codec, a: Archive, n: nat)
    requires FailsOnceAt(o, n) && w.alive && Destination !in w.files && Restorable(c, a)
    requires forall i: nat :: i >= w.clock ==> Staging(i) !in w.files
    ensures var (r, ok) := Restore(o, w, c, a);
      && (ok <==> n < w.clock || w.clock + 4 * |Read(c, a).value.files| + 7 <= n)
      && (ok <==> Destination in r.files)
      && r.files == if ok then w.files[Destination := r.files[Destination]] else w.files
  {
    hide PublishRestored, Read, AllVerified, Apart;
    var files := Read(c, a).value.files;
    var w3 := w.Tick(o).Tick(o).Tick(o);
    var at := Staging(w3.clock);
    var (w4, made) := w3.Replace(o, at, map[]);
    if made && !(w.clock <= n < w3.clock) {
      PublishRestoredWithOneFault(o, w4, c, at, a, files, n);
      var (w5, ok) := PublishRestored(o, w4, c, at, a, files);
      ScratchGone(w.files, w4.files, w5.files, at, Destination);
      if ok {
        PublishedIsMoved(o, w4, c, at, a, files);
      }
    }
  }

  /** What is published is no longer under its staging name. */
  lemma PublishedIsMoved(o: Oracle, w: Disk, c: Codec, at: Path, a: Archive, files: seq<Entry>)
    requires at in w.files && at != Destination && PublishRestored(o, w, c, at, a, files).1
    ensures at !in PublishRestored(o, w, c, at, a, files).0.files
  {
    hide RestoreFiles;
  }
}
