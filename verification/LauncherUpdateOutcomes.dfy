// What the launcher update comes to when every call works, and when exactly one
// of them fails.
module LauncherUpdateOutcomes {
  import opened FaultyFs
  import opened LauncherUpdate

  // ---- Copying ---------------------------------------------------------------------------

  function Copied(f: Files, from: Path, to: Path): Files
    requires from in f
  {
    (f - {Part(to)})[to := f[from]]
  }

  lemma HealthyCopy(o: Oracle, w: Disk, from: Path, to: Path)
    requires w.alive && WorksFrom(o, w.clock) && !from.Part? && !to.Part? && from != to
    ensures var (v, ok) := CopyLauncher(o, w, from, to);
      && v.alive && (ok <==> from in w.files)
      && v == if ok then World(Copied(w.files, from, to), w.clock + 3, true) else w
  {
    if from in w.files {
      var w1 := w.Remove(o, Part(to)).0;
      var w2 := CopyBytes(o, w1, from, Part(to)).0;
      assert Moved(w2.files, Part(to), to) == Copied(w.files, from, to);
    }
  }

  /** A copy one of whose calls fails changes nothing, and takes its own leavings away. */
  lemma FailedCopy(o: Oracle, w: Disk, from: Path, to: Path, k: nat)
    requires w.alive && k < 3 && FailsOnceAt(o, w.clock + k) && !from.Part? && !to.Part? && from != to && from in w.files
    ensures var (v, ok) := CopyLauncher(o, w, from, to);
      && !ok && v.alive && w.clock + k < v.clock
      && v.files == if k == 0 then w.files else w.files - {Part(to)}
  {
    var w1 := w.Remove(o, Part(to)).0;
    if k == 2 {
      var w2 := CopyBytes(o, w1, from, Part(to)).0;
      assert w2.files - {Part(to)} == w.files - {Part(to)};
    } else if k == 1 {
      assert w1.files - {Part(to)} == w.files - {Part(to)};
    }
  }

  /** Under any faults, a launcher copied onto itself is left alone, and any other copy
      succeeds exactly if its three calls work. */
  lemma CopySucceedsIff(o: Oracle, w: Disk, from: Path, to: Path)
    requires w.alive && !from.Part? && !to.Part?
    ensures CopyLauncher(o, w, from, to).1 <==>
            from in w.files && (from == to || (o(w.clock).Works? && o(w.clock + 1).Works? && o(w.clock + 2).Works?))
    ensures from == to ==> CopyLauncher(o, w, from, to).0 == w
  {
  }

  /** The bytes are all there, or, in a process that lives, none are. */
  lemma CopyBytesOutcome(o: Oracle, w: Disk, from: Path, part: Path)
    ensures var (v, ok) := CopyBytes(o, w, from, part);
      && (ok <==> from in w.files && w.Permits(o))
      && (ok ==> v.files == w.files[part := w.files[from]])
      && (!ok && w.alive && v.alive && from in w.files ==> v.files == w.files - {part})
      && (!w.alive ==> v.files == w.files)
  {
  }

  // ---- Installing ------------------------------------------------------------------------

  ghost predicate Authentic(f: Files, self: Path) {
    self.Staged? && self in f && ReadRecord(f).Valid? && f[self] == ReadRecord(f).record.exe
  }

  function Mark(f: Files): Content
    requires ReadRecord(f).Valid?
  {
    State(ReadRecord(f).record.(hasPrevious := Stable in f || ReadRecord(f).record.hasPrevious))
  }

  /** Once everything is in place. */
  function Applied(f: Files, self: Path): Files
    requires self.Staged? && self in f && ReadRecord(f).Valid?
  {
    var saved := if Stable in f then Copied(f, Stable, Previous) else f;
    Copied(saved[Marker := Mark(f)], self, Stable)
  }

  /** On a healthy disk an application succeeds exactly when the staged launcher is the
      recorded one; the launcher that was there is saved, and the record says so. */
  lemma HealthyApply(o: Oracle, w: Disk, self: Path)
    requires w.alive && Healthy(o) && self.Staged?
    ensures var (v, ok) := ApplyUpdate(o, w, self);
      && v.alive && (ok <==> Authentic(w.files, self))
      && v.files == if ok then Applied(w.files, self) else w.files
  {
    hide CopyLauncher;
    if Authentic(w.files, self) {
      HealthyCopy(o, w, Stable, Previous);
      var w1 := if Stable in w.files then CopyLauncher(o, w, Stable, Previous).0 else w;
      var w2 := w1.Replace(o, Marker, Mark(w.files)).0;
      HealthyCopy(o, w2, self, Stable);
    }
  }

  /** An application that replaces a launcher makes eight calls: three to save it, one to
      record that, three to install the new one, one to start it. If one of them fails, the
      launcher that was there is installed at the end, and the record is as it was,
      withdrawn, or naming the saved launcher, according to how far the application had got. */
  lemma ApplyWithOneFault(o: Oracle, w: Disk, self: Path, k: nat)
    requires w.alive && FailsOnceAt(o, w.clock + k) && Authentic(w.files, self) && Stable in w.files
    ensures var (v, ok) := ApplyUpdate(o, w, self);
      && v.alive && (ok <==> 8 <= k)
      && (ok ==> v.files == Applied(w.files, self))
      && (!ok ==>
            && Same(w.files, v.files, Stable) && Same(w.files, v.files, self)
            && (if k < 3 then Same(w.files, v.files, Previous) else Previous in v.files && v.files[Previous] == w.files[Stable])
            && (if k < 4 then Same(w.files, v.files, Marker)
                else if k < 7 then Marker !in v.files
                else Marker in v.files && v.files[Marker] == Mark(w.files)))
  {
    hide CopyLauncher, ClearMarker;
    if k < 3 {
      FailedCopy(o, w, Stable, Previous, k);
    } else {
      CopyBefore(o, w, Stable, Previous, k);
      var w1 := CopyLauncher(o, w, Stable, Previous).0;
      var (w2, recorded) := w1.Replace(o, Marker, Mark(w.files));
      if k >= 4 {
        assert recorded && w2.clock == w.clock + 4 && w2.alive;
        InstallWithOneFault(o, w, w2, self, k);
      }
    }
  }

  /** A copy before the failing call. */
  lemma CopyBefore(o: Oracle, w: Disk, from: Path, to: Path, k: nat)
    requires w.alive && FailsOnceAt(o, w.clock + k) && 3 <= k && !from.Part? && !to.Part? && from != to && from in w.files
    ensures CopyLauncher(o, w, from, to) == (World(Copied(w.files, from, to), w.clock + 3, true), true)
  {
    var w1 := w.Remove(o, Part(to)).0;
    var w2 := CopyBytes(o, w1, from, Part(to)).0;
    assert Moved(w2.files, Part(to), to) == Copied(w.files, from, to);
  }

  lemma InstallWithOneFault(o: Oracle, w: Disk, w2: Disk, self: Path, k: nat)
    requires w.alive && FailsOnceAt(o, w.clock + k) && 4 <= k && Authentic(w.files, self) && Stable in w.files
    requires w2 == World(Copied(w.files, Stable, Previous)[Marker := Mark(w.files)], w.clock + 4, true)
    ensures var (w3, installed) := CopyLauncher(o, w2, self, Stable);
      && (installed <==> 7 <= k)
      && (k < 7 ==>
            var v := ClearMarker(o, CopyLauncher(o, w3, Previous, Stable).0).0;
            && v.alive && Marker !in v.files && Same(w.files, v.files, Stable) && Same(w.files, v.files, self)
            && Previous in v.files && v.files[Previous] == w.files[Stable])
      && (7 <= k ==>
            var (w4, startedIt) := w3.Check(o);
            var v := CopyLauncher(o, w4, Previous, Stable).0;
            && (startedIt <==> 8 <= k) && w4.alive && w4.files == Applied(w.files, self)
            && (k == 7 ==>
                  && v.alive && Same(w.files, v.files, Stable) && Same(w.files, v.files, self)
                  && Previous in v.files && v.files[Previous] == w.files[Stable]
                  && Marker in v.files && v.files[Marker] == Mark(w.files)))
  {
    hide CopyLauncher;
    if k < 7 {
      FailedCopy(o, w2, self, Stable, k - 4);
      HealthyCopy(o, CopyLauncher(o, w2, self, Stable).0, Previous, Stable);
    } else {
      CopyBefore(o, w2, self, Stable, k - 4);
      if k == 7 {
        HealthyCopy(o, CopyLauncher(o, w2, self, Stable).0.Check(o).0, Previous, Stable);
      }
    }
  }

  /** A first installation makes five calls: one to record it, three to install it, one to
      start it. If recording or installing fails, nothing is installed: not even a launcher
      that an older update saved. */
  lemma FirstInstallationWithOneFault(o: Oracle, w: Disk, self: Path, k: nat)
    requires w.alive && FailsOnceAt(o, w.clock + k) && Authentic(w.files, self)
    requires Stable !in w.files && !ReadRecord(w.files).record.hasPrevious
    ensures var (v, ok) := ApplyUpdate(o, w, self);
      && v.alive && (ok <==> 5 <= k)
      && (ok ==> v.files == Applied(w.files, self))
      && (k < 4 ==>
            && Stable !in v.files && Same(w.files, v.files, self) && Same(w.files, v.files, Previous)
            && if k == 0 then Same(w.files, v.files, Marker) else Marker !in v.files)
  {
    hide CopyLauncher;
    var (w1, recorded) := w.Replace(o, Marker, Mark(w.files));
    if 0 < k < 4 {
      FailedCopy(o, w1, self, Stable, k - 1);
    } else if k >= 4 {
      CopyBefore(o, w1, self, Stable, k - 1);
      if k == 4 {
        HealthyCopy(o, CopyLauncher(o, w1, self, Stable).0.Check(o).0, Previous, Stable);
      }
    }
  }

  // ---- Going back and confirming ---------------------------------------------------------------

  /** On a healthy disk the saved launcher, where there is one, puts itself back and
      withdraws the record; the copy it runs from stays. */
  lemma HealthyRollback(o: Oracle, w: Disk)
    requires w.alive && Healthy(o)
    ensures var (v, ok) := ApplyRollback(o, w);
      && v.alive && (ok <==> Previous in w.files)
      && v.files == if ok then Copied(w.files, Previous, Stable) - {Marker, Part(Marker)} else w.files
  {
    hide CopyLauncher;
    HealthyCopy(o, w, Previous, Stable);
    if Previous in w.files {
      var f := Copied(w.files, Previous, Stable);
      assert f - {Marker} - {Part(Marker)} == f - {Marker, Part(Marker)};
    }
  }

  /** Under any faults, going back succeeds exactly if there is a saved launcher and all six
      calls work: copying it, withdrawing the record, starting it. */
  lemma RollbackSucceedsIff(o: Oracle, w: Disk)
    requires w.alive
    ensures ApplyRollback(o, w).1 <==>
            && Previous in w.files
            && o(w.clock).Works? && o(w.clock + 1).Works? && o(w.clock + 2).Works?
            && o(w.clock + 3).Works? && o(w.clock + 4).Works? && o(w.clock + 5).Works?
  {
    hide CopyLauncher;
    CopySucceedsIff(o, w, Previous, Stable);
    if CopyLauncher(o, w, Previous, Stable).1 {
      CopyTakesThree(o, w, Previous, Stable);
    }
  }

  lemma CopyTakesThree(o: Oracle, w: Disk, from: Path, to: Path)
    requires CopyLauncher(o, w, from, to).1 && from != to && w.alive
    ensures CopyLauncher(o, w, from, to).0.clock == w.clock + 3 && CopyLauncher(o, w, from, to).0.alive
  {
  }

  /** On a healthy disk the first start of an installed launcher is only recorded, the
      second hands over to the saved one, and nothing but the record changes. */
  lemma StartsAreCounted(o: Oracle, w: Disk, current: Version)
    requires w.alive && Healthy(o) && ReadRecord(w.files).Valid? && ReadRecord(w.files).record.version == current
    ensures var record := ReadRecord(w.files).record;
      var (v, decision) := Recover(o, w, current);
      && v.alive
      && (!record.started ==> decision.GoOn? && v.files == w.files[Marker := State(record.(started := true))])
      && (record.started && record.hasPrevious ==>
            v.files == w.files && (decision.HandOver? <==> Previous in w.files))
      && (record.started && !record.hasPrevious ==>
            decision.GoOn? && v.files == w.files - {Marker, Part(Marker), Previous})
  {
    ClearedState(w.files);
  }

  lemma ClearedState(f: Files)
    ensures f - {Marker} - {Part(Marker)} - {Previous} == f - {Marker, Part(Marker), Previous}
  {
  }

  /** On a healthy disk a confirmed update leaves neither record, nor saved launcher,
      nor staged folder. */
  lemma HealthyCommit(o: Oracle, w: Disk, current: Version)
    requires w.alive && Healthy(o) && ReadRecord(w.files).Valid? && ReadRecord(w.files).record.version == current
    ensures Commit(o, w, current).alive
    ensures Commit(o, w, current).files == w.files - {Marker, Part(Marker), Previous, Staged(current)}
  {
    ClearedState(w.files);
    var f := w.files - {Marker, Part(Marker), Previous};
    assert f - {Staged(current)} == w.files - {Marker, Part(Marker), Previous, Staged(current)};
  }

  /** A commit that could not clear the record, or the saved launcher, keeps the staged folder. */
  lemma FailedCommitKeepsStaged(o: Oracle, w: Disk, current: Version)
    requires w.alive && ReadRecord(w.files).Valid? && ReadRecord(w.files).record.version == current
    requires !(o(w.clock).Works? && o(w.clock + 1).Works? && o(w.clock + 2).Works?)
    ensures Same(w.files, Commit(o, w, current).files, Staged(current))
  {
  }

  /** A launch of an updated launcher that gets ready, with nothing newer offered,
      ends the update. */
  lemma HealthyConfirmation(o: Oracle, w: Disk, plan: Plan)
    requires Healthy(o) && Stable in w.files && w.files[Stable].Exe? && plan.ready && plan.offered <= w.files[Stable].version
    requires ReadRecord(w.files).Valid? && ReadRecord(w.files).record.version == w.files[Stable].version
    requires !ReadRecord(w.files).record.started
    ensures Launch(o, w, plan).files == w.files - {Marker, Part(Marker), Previous, Staged(w.files[Stable].version)}
  {
    hide Recover, Commit;
    var current := w.files[Stable].version;
    StartsAreCounted(o, w.Restart(), current);
    var w1 := Recover(o, w.Restart(), current).0;
    HealthyCommit(o, w1, current);
    var gone := {Marker, Part(Marker), Previous, Staged(current)};
    assert w1.files - gone == w.files - gone;
  }

  /** A launch of an updated launcher that did not get ready before is its last: the
      saved launcher is installed again. */
  lemma HealthyHandOver(o: Oracle, w: Disk, plan: Plan)
    requires Healthy(o) && Stable in w.files && w.files[Stable].Exe? && Previous in w.files
    requires ReadRecord(w.files).Valid? && ReadRecord(w.files).record.version == w.files[Stable].version
    requires ReadRecord(w.files).record.started && ReadRecord(w.files).record.hasPrevious
    ensures Launch(o, w, plan).files == Copied(w.files, Previous, Stable) - {Marker, Part(Marker)}
  {
    hide Recover, ApplyRollback, Copied;
    StartsAreCounted(o, w.Restart(), w.files[Stable].version);
    HealthyRollback(o, Recover(o, w.Restart(), w.files[Stable].version).0.Restart());
  }

  /** Starting an update stages the release and records it as not yet started, with
      nothing saved; if either write fails there is no update. */
  lemma StartOutcome(o: Oracle, w: Disk, version: Version)
    requires w.alive
    ensures var (v, ok) := StartUpdate(o, w, version);
      && (ok <==> o(w.clock).Works? && o(w.clock + 1).Works? && o(w.clock + 2).Works?)
      && (ok ==> v.files == w.files[Staged(version) := Exe(version, true)][Marker := State(Record(version, Exe(version, true), false, false))])
      && (o(w.clock).Works? ==> Staged(version) in v.files && v.files[Staged(version)] == Exe(version, true))
      && (!(o(w.clock).Works? && o(w.clock + 1).Works?) ==> Same(w.files, v.files, Marker))
  {
  }
}
