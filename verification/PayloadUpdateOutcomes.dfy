// What the payload update's operations come to: exactly, when every call works,
// and under any faults what a failure can have cost.
module PayloadUpdateOutcomes {
  import opened FaultyFs
  import opened PayloadUpdate

  ghost predicate SameExcept(f: Files, g: Files, changed: set<Path>) {
    f - changed == g - changed
  }

  // ---- Publishing ------------------------------------------------------------------------

  ghost predicate Publishable(f: Files, c: Component) {
    Staged(c) in f && (Current(c) in f ==> f[Current(c)].Tree?)
  }

  /** The staged tree is current, and the tree it replaced, if there was one, is the previous one. */
  ghost predicate Published(f: Files, g: Files, c: Component) {
    && SameExcept(f, g, {Staged(c), Current(c), Previous(c)})
    && Staged(c) in f && Staged(c) !in g
    && Current(c) in g && g[Current(c)] == f[Staged(c)]
    && (Previous(c) in g <==> Current(c) in f) && (Current(c) in f ==> g[Previous(c)] == f[Current(c)])
  }

  /** On a healthy disk a publication succeeds exactly when there is a staged tree and
      nothing but a tree in its way; otherwise only the stale previous tree goes. */
  lemma HealthyPublish(o: Oracle, w: Disk, c: Component)
    requires w.alive && Healthy(o)
    ensures var (v, ok) := Publish(o, w, c);
      && v.alive && (ok <==> Publishable(w.files, c))
      && if ok then Published(w.files, v.files, c) else v.files == w.files - {Previous(c)}
  {
    var f := w.files - {Previous(c)};
    if Current(c) in f && f[Current(c)].Tree? {
      var g := Moved(f, Current(c), Previous(c));
      assert Moved(g, Previous(c), Current(c)) == f;
    }
  }

  /** The calls before a clock reading that all failed. */
  ghost predicate FailedRun(o: Oracle, until: nat, calls: nat) {
    calls <= until && forall n: nat :: until - calls <= n < until ==> o(n).Fails?
  }

  /** A rename given up on while the process lives has failed at every attempt. */
  lemma {:induction false} GaveUp(o: Oracle, w: Disk, from: Path, to: Path, deadline: nat)
    requires w.alive && from in w.files && to !in w.files && w.clock <= deadline
    ensures var (v, ok) := w.RenameDirUntil(o, from, to, deadline);
      !ok && v.alive ==> v.clock == deadline && forall n: nat :: w.clock <= n < deadline ==> o(n).Fails?
    decreases deadline - w.clock
  {
    if w.clock < deadline && !w.Permits(o) && w.Tick(o).alive {
      GaveUp(o, w.Tick(o), from, to, deadline);
    }
  }

  lemma RetryGaveUp(o: Oracle, w: Disk, from: Path, to: Path)
    requires w.alive && from in w.files && to !in w.files
    ensures var (v, ok) := w.RenameDirWithRetry(o, from, to);
      !ok && v.alive ==> v.clock == w.clock + RENAME_ATTEMPTS && FailedRun(o, v.clock, RENAME_ATTEMPTS)
  {
    GaveUp(o, w, from, to, w.clock + RENAME_ATTEMPTS);
  }

  /** Retrying a rename succeeds exactly when an attempt works before the last one has
      failed and before the process dies. */
  lemma {:induction false} RetrySucceedsIff(o: Oracle, w: Disk, from: Path, to: Path, deadline: nat)
    requires w.alive && from in w.files && to !in w.files
    ensures w.RenameDirUntil(o, from, to, deadline).1 <==>
            exists n: nat :: w.clock <= n < deadline && o(n).Works? && forall k: nat :: w.clock <= k < n ==> o(k).Fails?
    decreases deadline - w.clock
  {
    if w.clock < deadline && o(w.clock).Fails? {
      RetrySucceedsIff(o, w.Tick(o), from, to, deadline);
    }
  }

  /** A publication succeeds only if the stale tree could be cleared and the current one
      looked at. One that fails in a live process leaves the current tree current, unless
      the renames of the staged tree and back again all failed. */
  lemma FailedPublish(o: Oracle, w: Disk, c: Component)
    requires w.alive
    ensures var (v, ok) := Publish(o, w, c);
      && (ok ==> o(w.clock).Works? && o(w.clock + 1).Works?)
      && (!ok && v.alive && Current(c) in w.files ==>
            || (v.files == w.files && !o(w.clock).Works?) || v.files == w.files - {Previous(c)}
            || (v.files == Moved(w.files - {Previous(c)}, Current(c), Previous(c)) && FailedRun(o, v.clock, RENAME_ATTEMPTS)))
      && (!ok && Current(c) !in w.files ==> v.files == w.files || v.files == w.files - {Previous(c)})
  {
    var (w1, removed) := w.Remove(o, Previous(c));
    if removed {
      var (w2, current) := w1.Stat(o, Current(c));
      if current.Present? && w2.files[Current(c)].Tree? {
        var (w3, kept) := w2.RenameDirWithRetry(o, Current(c), Previous(c));
        if kept {
          assert w3.files == Moved(w1.files, Current(c), Previous(c));
          var (w4, published) := w3.RenameDirWithRetry(o, Staged(c), Current(c));
          if !published && w4.alive {
            RetryGaveUp(o, w4, Previous(c), Current(c));
            var w5 := w4.RenameDirWithRetry(o, Previous(c), Current(c)).0;
            assert w5.files == w4.files || w5.files == w1.files;
          }
        }
      }
    }
  }

  // ---- Rolling back -----------------------------------------------------------------------

  /** On a healthy disk a rollback puts the previous tree back and leaves no other copy. */
  lemma HealthyRollback(o: Oracle, w: Disk, c: Component)
    requires w.alive && Healthy(o)
    ensures var (v, ok) := Rollback(o, w, c);
      && ok && v.alive
      && v.files == if Previous(c) in w.files then Moved(w.files - {Current(c), Discarded(c)}, Previous(c), Current(c))
                    else w.files
  {
  }

  /** A rollback succeeds only if the previous tree could be looked for. One that fails in
      a live process leaves the current tree current, unless the renames that put it back
      all failed too; the previous tree is never lost. */
  lemma FailedRollback(o: Oracle, w: Disk, c: Component)
    requires w.alive
    ensures var (v, ok) := Rollback(o, w, c);
      && (ok ==> o(w.clock).Works?) && (ok && Previous(c) in w.files ==> o(w.clock + 2).Works?)
      && (!ok && v.alive && Current(c) in w.files && Previous(c) in w.files ==>
            || v.files == w.files || v.files == w.files - {Discarded(c)}
            || (v.files == Moved(w.files - {Discarded(c)}, Current(c), Discarded(c)) && FailedRun(o, v.clock, 2 * RENAME_ATTEMPTS)))
  {
    var (w1, previous) := w.Stat(o, Previous(c));
    if previous.Present? {
      var w2 := w1.Remove(o, Discarded(c)).0;
      var (w3, current) := w2.Stat(o, Current(c));
      if current.Present? {
        var (w4, moved) := w3.RenameDirWithRetry(o, Current(c), Discarded(c));
        if moved {
          assert w4.files == Moved(w2.files, Current(c), Discarded(c));
          RetryGaveUp(o, w4, Previous(c), Current(c));
          var (w5, restored) := w4.RenameDirWithRetry(o, Previous(c), Current(c));
          if !restored && w5.alive {
            RetryGaveUp(o, w5, Discarded(c), Current(c));
            var w6 := w5.RenameDirWithRetry(o, Discarded(c), Current(c)).0;
            assert w6.files == w5.files || w6.files == w2.files;
          }
        }
      }
    }
  }

  // ---- Recovering ---------------------------------------------------------------------------

  /** An update that was never started is only marked; the recovery after that undoes it. */
  lemma UnstartedIsMarkedFirst(o: Oracle, w: Disk)
    requires w.alive && ReadState(w.files).Valid? && !ReadState(w.files).state.started
    ensures var (v, r) := RollbackPending(o, w);
      && (r == Recovered(false) <==> o(w.clock).Works?) && (r.RecoveryFailed? <==> !o(w.clock).Works?)
      && (r.Recovered? ==> v.files == w.files[StateFile := Record(ReadState(w.files).state.(started := true))])
      && (r.RecoveryFailed? ==> v.files == w.files)
  {
  }

  /** A record nobody can read stops every launch, and nothing is touched. */
  lemma DamagedRecordStops(o: Oracle, w: Disk, plan: Plan)
    requires ReadState(w.files).Invalid?
    ensures Launch(o, w, plan).files == w.files && RollbackPending(o, w) == (w, RecoveryFailed)
  {
  }

  /** On a healthy disk recovery fails only at a damaged record, and otherwise ends with
      every pending component at its previous tree, where it has one, and no record. */
  lemma HealthyRecovery(o: Oracle, w: Disk)
    requires w.alive && Healthy(o) && (ReadState(w.files).Valid? ==> ReadState(w.files).state.started)
    ensures var (v, r) := RollbackPending(o, w);
      && (r.RecoveryFailed? <==> ReadState(w.files).Invalid?)
      && (r.Recovered? ==>
            && (r.rolledBack <==> PendingIn(w.files, Guest) || PendingIn(w.files, Runtime))
            && StateFile !in v.files
            && RolledBack(w.files, v.files, Guest) && RolledBack(w.files, v.files, Runtime))
  {
    hide Rollback;
    if ReadState(w.files).Valid? {
      var state := ReadState(w.files).state;
      RollbackIfPending(o, w, Guest, state.guestPending);
      var (w1, guestOk) := if state.guestPending then Rollback(o, w, Guest) else (w, true);
      RollbackIfPending(o, w1, Runtime, state.runtimePending);
      var (w2, runtimeOk) := if state.runtimePending then Rollback(o, w1, Runtime) else (w1, true);
      assert guestOk && runtimeOk && w2.alive;
    }
  }

  lemma RollbackIfPending(o: Oracle, w: Disk, c: Component, pending: bool)
    requires w.alive && Healthy(o)
    ensures var (v, ok) := if pending then Rollback(o, w, c) else (w, true);
      && ok && v.alive && SameElsewhere(w.files, v.files, c)
      && if pending && Previous(c) in w.files
         then Current(c) in v.files && v.files[Current(c)] == w.files[Previous(c)] && Previous(c) !in v.files && Discarded(c) !in v.files
         else v.files == w.files
  {
    hide Rollback;
    HealthyRollback(o, w, c);
  }

  /** One component is at the tree recovery should leave it at. */
  ghost predicate RolledBack(f: Files, g: Files, c: Component) {
    if PendingIn(f, c) && Previous(c) in f
    then Current(c) in g && g[Current(c)] == f[Previous(c)] && Previous(c) !in g && Discarded(c) !in g
    else Same(f, g, Current(c)) && Same(f, g, Previous(c)) && Same(f, g, Discarded(c))
  }

  /** A recovery that did not get through leaves its record, so that the next launch tries again. */
  lemma FailedRecoveryKeepsItsRecord(o: Oracle, w: Disk)
    requires RollbackPending(o, w).1.RecoveryFailed?
    ensures Same(w.files, RollbackPending(o, w).0.files, StateFile)
  {
    hide Rollback;
    RollbackOutcome(o, w, Guest);
    RollbackOutcome(o, w, Runtime);
    RollbackOutcome(o, Rollback(o, w, Guest).0, Runtime);
  }

  // ---- Recording, staging, committing ----------------------------------------------------------

  /** A record names its version, is started, and keeps what the same version already had pending. */
  lemma RecordOutcome(o: Oracle, w: Disk, version: string, c: Component)
    ensures var (v, ok) := RecordUpdate(o, w, version, c);
      && (ok <==> w.Permits(o)) && SameExcept(w.files, v.files, {StateFile})
      && if !ok then v.files == w.files
         else
           && ReadState(v.files).Valid? && ReadState(v.files).state.version == version && ReadState(v.files).state.started
           && PendingIn(v.files, c)
           && (PendingIn(v.files, Other(c)) <==> PendingIn(w.files, Other(c)) && ReadState(w.files).state.version == version)
  {
  }

  /** Staging succeeds exactly when the tree could be built, and for the guest when the
      name could be cleared; a failed build leaves a partial tree only if deleting it failed too. */
  lemma StageSucceedsIff(o: Oracle, w: Disk, c: Component, r: Release)
    requires w.alive
    ensures var (v, ok) := Stage(o, w, c, r);
      && (ok <==> o(w.clock + 1).Works? && (o(w.clock).Works? || (c.Runtime? && o(w.clock).Fails?)))
      && (ok ==> Staged(c) in v.files && v.files[Staged(c)] == Tree(r.name, true))
      && (!ok && o(w.clock).Works? && o(w.clock + 1).Fails? ==>
            if o(w.clock + 2).Works? then Staged(c) !in v.files
            else Staged(c) in v.files && v.files[Staged(c)] == Tree(r.name, false))
  {
  }

  /** On a healthy disk an update needs only that what it replaces is a tree: it is recorded,
      its tree is current, and the tree it replaced is kept. */
  lemma HealthyUpdate(o: Oracle, w: Disk, c: Component, r: Release)
    requires w.alive && Healthy(o)
    ensures var (v, ok) := Update(o, w, c, r);
      && v.alive && (ok <==> (Current(c) in w.files ==> w.files[Current(c)].Tree?))
      && PendingIn(v.files, c)
      && (ok ==>
            && Current(c) in v.files && v.files[Current(c)] == Tree(r.name, true) && Staged(c) !in v.files
            && (Previous(c) in v.files <==> Current(c) in w.files)
            && (Current(c) in w.files ==> v.files[Previous(c)] == w.files[Current(c)]))
  {
    hide Publish;
    var (w1, staged) := Stage(o, w, c, r);
    var (w2, recorded) := RecordUpdate(o, w1, r.version, c);
    HealthyPublish(o, w2, c);
    PublishKeepsRecord(w2.files, Publish(o, w2, c).0.files, c);
  }

  lemma PublishKeepsRecord(f: Files, g: Files, c: Component)
    requires Published(f, g, c) || g == f - {Previous(c)}
    ensures Same(f, g, StateFile)
  {
    if Published(f, g, c) {
      SameOutside(f, g, {Staged(c), Current(c), Previous(c)}, StateFile);
    }
  }

  lemma SameOutside(f: Files, g: Files, changed: set<Path>, p: Path)
    requires SameExcept(f, g, changed) && p !in changed
    ensures Same(f, g, p)
  {
    assert p in f <==> p in f - changed;
    assert p in g <==> p in g - changed;
  }

  /** On a healthy disk a commit drops the previous tree and the component's flag, and the
      record with it when nothing else is pending. */
  lemma HealthyCommit(o: Oracle, w: Disk, c: Component)
    requires w.alive && Healthy(o)
    ensures var v := Commit(o, w, c);
      && v.alive && SameExcept(w.files, v.files, {StateFile, Previous(c)})
      && if PendingIn(w.files, c) then
           && Previous(c) !in v.files && !PendingIn(v.files, c)
           && (StateFile in v.files <==> PendingIn(w.files, Other(c)))
           && (PendingIn(w.files, Other(c)) ==>
                 v.files[StateFile] == Record(ReadState(w.files).state.Clear(c)) && PendingIn(v.files, Other(c)))
         else v == w
  {
  }
}
