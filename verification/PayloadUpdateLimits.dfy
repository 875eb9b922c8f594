// Runs of payload_update.go in which its guarantees end, fault by fault: an old
// release that comes back, an engine that is lost, and a deletion cut short.
module PayloadUpdateLimits {
  import opened FaultyFs
  import opened PayloadUpdate

  /** An installation with no update under way. */
  predicate AtRest(w: Disk) {
    w.alive && Safe(w.files) && NoStalePrevious(w.files) && StateFile !in w.files
  }

  function Installation(guest: string, engine: string): Files {
    map[Current(Guest) := Tree(guest, true), Current(Runtime) := Tree(engine, true)]
  }

  lemma InstallationIsAtRest(guest: string, engine: string)
    ensures AtRest(World(Installation(guest, engine), 0, true))
  {
  }

  predicate WorksFor(o: Oracle, clock: nat, n: nat) {
    forall i :: clock <= i < clock + n ==> o(i) == Works
  }

  // ---- Steps without a fault ------------------------------------------------------------

  function WithStaged(f: Files, c: Component, r: Release): Files {
    f[Staged(c) := Tree(r.name, true)][StateFile := Record(UpdateState(r.version, c.Guest?, c.Runtime?, true))]
  }

  lemma StageAndRecord(o: Oracle, w: Disk, c: Component, r: Release)
    requires w.alive && WorksFor(o, w.clock, 3)
    requires !ReadState(w.files).Valid? || ReadState(w.files).state.version != r.version
    ensures var v := World(WithStaged(w.files, c, r), w.clock + 3, true);
      Update(o, w, c, r) == Publish(o, v, c)
  {
    hide Publish;
    var w1 := w.Remove(o, Staged(c)).0;
    var w2 := Build(o, w1, c, r).0;
    assert w2 == World(w.files[Staged(c) := Tree(r.name, true)], w.clock + 2, true);
    var (w3, recorded) := RecordUpdate(o, w2, r.version, c);
    assert w3 == World(WithStaged(w.files, c, r), w.clock + 3, true);
  }

  function Swapped(f: Files, c: Component): Files
    requires Current(c) in f && Staged(c) in f
  {
    Moved(Moved(f, Current(c), Previous(c)), Staged(c), Current(c))
  }

  lemma PublishWorks(o: Oracle, w: Disk, c: Component)
    requires w.alive && WorksFor(o, w.clock, 4)
    requires Current(c) in w.files && w.files[Current(c)].Tree? && Staged(c) in w.files && Previous(c) !in w.files
    ensures Publish(o, w, c) == (World(Swapped(w.files, c), w.clock + 4, true), true)
  {
    var w1 := w.Remove(o, Previous(c)).0;
    assert w1.files == w.files;
    var w2 := w1.Stat(o, Current(c)).0;
    var w3 := w2.RenameDirWithRetry(o, Current(c), Previous(c)).0;
    assert w3 == World(Moved(w.files, Current(c), Previous(c)), w.clock + 3, true);
    var w4 := w3.RenameDirWithRetry(o, Staged(c), Current(c)).0;
    assert w4.clock == w.clock + 4;
  }

  /** An update without a fault, from a component without a leftover. */
  lemma UpdateWorks(o: Oracle, w: Disk, c: Component, r: Release)
    requires w.alive && WorksFor(o, w.clock, 7) && Current(c) in w.files && w.files[Current(c)].Tree? && Previous(c) !in w.files
    requires !ReadState(w.files).Valid? || ReadState(w.files).state.version != r.version
    ensures Update(o, w, c, r) == (World(Swapped(WithStaged(w.files, c, r), c), w.clock + 7, true), true)
  {
    hide Update, Publish;
    StageAndRecord(o, w, c, r);
    PublishWorks(o, World(WithStaged(w.files, c, r), w.clock + 3, true), c);
  }

  /** An update that dies once its record is written. */
  lemma UpdateDies(o: Oracle, w: Disk, c: Component, r: Release)
    requires w.alive && WorksFor(o, w.clock, 3) && o(w.clock + 3) == Dies
    requires !ReadState(w.files).Valid? || ReadState(w.files).state.version != r.version
    ensures Update(o, w, c, r) == (World(WithStaged(w.files, c, r), w.clock + 4, false), false)
  {
    hide Update;
    StageAndRecord(o, w, c, r);
  }

  // ---- An old release comes back ----------------------------------------------------------

  /** A launch that updates the guest, boots it and sees it ready. */
  function GuestUpdate(r: Release): Plan {
    Plan(Keep, MoveTo(r), false, [Boot(false, true)])
  }

  lemma GuestUpdateIs(o: Oracle, w: Disk, r: Release)
    requires StateFile !in w.files
    ensures var (v, ok) := Update(o, w.Restart(), Guest, r);
      Launch(o, w, GuestUpdate(r)) == if ok then Lifetimes(o, v, false, [Boot(false, true)]) else v
  {
    hide Update, Lifetimes;
  }

  /** A confirmed update whose commit cannot delete the previous tree: no record
      is left, and the previous tree is. */
  lemma ConfirmedWithLeftover(o: Oracle, w: Disk, r: Release)
    requires AtRest(w) && WorksFor(o, w.clock, 7) && o(w.clock + 7) == Fails && o(w.clock + 8) == Works
    ensures var v := Launch(o, w, GuestUpdate(r));
      && v.alive && v.clock == w.clock + 9 && Safe(v.files) && StateFile !in v.files
      && Current(Guest) in v.files && v.files[Current(Guest)] == Tree(r.name, true)
      && Previous(Guest) in v.files && v.files[Previous(Guest)] == w.files[Current(Guest)]
  {
    hide Update, CommitAll;
    GuestUpdateIs(o, w, r);
    UpdateWorks(o, w, Guest, r);
    var w1 := World(Swapped(WithStaged(w.files, Guest, r), Guest), w.clock + 7, true);
    CommitKeepsLeftover(o, w1);
    assert [Boot(false, true)][1..] == [];
    assert Lifetimes(o, CommitAll(o, w1), false, []) == CommitAll(o, w1);
  }

  lemma CommitKeepsLeftover(o: Oracle, w: Disk)
    requires w.alive && o(w.clock) == Fails && o(w.clock + 1) == Works
    requires PendingIn(w.files, Guest) && !PendingIn(w.files, Runtime)
    ensures CommitAll(o, w) == World(w.files - {StateFile}, w.clock + 2, true)
  {
  }

  /** The next update dies with its record written: recovery goes back to the
      leftover tree, not to the one that was current. */
  lemma LeftoverIsRecovered(o: Oracle, w: Disk, r: Release, last: Oracle)
    requires Safe(w.files) && StateFile !in w.files && Current(Guest) in w.files && Previous(Guest) in w.files
    requires WorksFor(o, w.clock, 3) && o(w.clock + 3) == Dies && Healthy(last)
    ensures var (v, recovery) := RollbackPending(last, Launch(o, w, GuestUpdate(r)).Restart());
      recovery.Recovered? && Current(Guest) in v.files && v.files[Current(Guest)] == w.files[Previous(Guest)]
  {
    hide Update, RollbackPending;
    GuestUpdateIs(o, w, r);
    UpdateDies(o, w.Restart(), Guest, r);
    var v := Launch(o, w, GuestUpdate(r));
    assert Safe(v.files) && Goal(v.files, Guest) == w.files[Previous(Guest)];
    NoRecoveries(o, v);
    RecoveryConverges(o, v, 0, last);
  }

  /** Two faults undo a confirmed update: the failed delete of its commit, and a
      crash in the next update. The release from before it comes back. */
  lemma OldReleaseComesBack(o: Oracle, w: Disk, first: Release, second: Release, last: Oracle)
    requires AtRest(w) && WorksFor(o, w.clock, 7) && o(w.clock + 7) == Fails
    requires WorksFor(o, w.clock + 8, 4) && o(w.clock + 12) == Dies && Healthy(last)
    ensures var v1 := Launch(o, w, GuestUpdate(first));
      var v2 := Launch(o, v1, GuestUpdate(second));
      var v3 := RollbackPending(last, v2.Restart()).0;
      && StateFile !in v1.files && Current(Guest) in v1.files && v1.files[Current(Guest)] == Tree(first.name, true)
      && Current(Guest) in v3.files && v3.files[Current(Guest)] == w.files[Current(Guest)]
  {
    hide Launch, RollbackPending;
    ConfirmedWithLeftover(o, w, first);
    LeftoverIsRecovered(o, Launch(o, w, GuestUpdate(first)), second, last);
  }

  /** The same at one input: release 2 is confirmed, and release 1 comes back. */
  lemma OldReleaseWitness() returns (o: Oracle, w: Disk, v1: Disk, v2: Disk, v3: Disk)
    ensures AtRest(w) && w.files[Current(Guest)] == Tree("1", true)
    ensures v1 == Launch(o, w, GuestUpdate(Release("2", "v2"))) && v2 == Launch(o, v1, GuestUpdate(Release("3", "v3")))
    ensures v3 == RollbackPending(_ => Works, v2.Restart()).0
    ensures StateFile !in v1.files && Current(Guest) in v1.files && v1.files[Current(Guest)] == Tree("2", true)
    ensures Current(Guest) in v3.files && v3.files[Current(Guest)] == Tree("1", true)
  {
    hide Launch, RollbackPending;
    o := n => if n == 7 then Fails else if n == 12 then Dies else Works;
    w := World(Installation("1", "1"), 0, true);
    InstallationIsAtRest("1", "1");
    var last: Oracle := _ => Works;
    OldReleaseComesBack(o, w, Release("2", "v2"), Release("3", "v3"), last);
    v1 := Launch(o, w, GuestUpdate(Release("2", "v2")));
    v2 := Launch(o, v1, GuestUpdate(Release("3", "v3")));
    v3 := RollbackPending(last, v2.Restart()).0;
  }

  // ---- A flag is dropped --------------------------------------------------------------------

  /** A launch that updates both components. */
  function BothUpdates(engine: Release, guest: Release): Plan {
    Plan(MoveTo(engine), MoveTo(guest), false, [])
  }

  /** With two versions, a crash after the second record leaves an engine that
      was never confirmed and is not put back. */
  lemma DroppedFlagIsNotUndone(o: Oracle, w: Disk, engine: Release, guest: Release, last: Oracle)
    requires AtRest(w) && WorksFor(o, w.clock, 10) && o(w.clock + 10) == Dies && Healthy(last)
    requires engine.version != guest.version
    ensures var v := Launch(o, w, BothUpdates(engine, guest));
      var (u, recovery) := RollbackPending(last, v.Restart());
      recovery.Recovered? && Current(Runtime) in u.files && u.files[Current(Runtime)] == Tree(engine.name, true)
  {
    hide Update, RollbackPending, Lifetimes, Recoveries;
    UpdateWorks(o, w, Runtime, engine);
    var w1 := World(Swapped(WithStaged(w.files, Runtime, engine), Runtime), w.clock + 7, true);
    UpdateDies(o, w1, Guest, guest);
    var v := World(WithStaged(w1.files, Guest, guest), w.clock + 11, false);
    NothingToRecover(o, w);
    assert Launch(o, w, BothUpdates(engine, guest)) == v by { assert w.Restart() == w; }
    DroppedFlagFiles(w, engine, guest);
    hide WithStaged, Swapped, Launch;
    assert v == Recoveries(o, v, 0) by { NoRecoveries(o, v); }
    RecoveryConverges(o, v, 0, last);
  }

  lemma DroppedFlagFiles(w: Disk, engine: Release, guest: Release)
    requires AtRest(w)
    ensures var f := WithStaged(Swapped(WithStaged(w.files, Runtime, engine), Runtime), Guest, guest);
      Safe(f) && Goal(f, Runtime) == Tree(engine.name, true)
  {
  }

  lemma NoRecoveries(o: Oracle, w: Disk)
    ensures Recoveries(o, w, 0) == w
  {
  }

  lemma NothingToRecover(o: Oracle, w: Disk)
    requires StateFile !in w.files
    ensures RollbackPending(o, w) == (w, Recovered(false))
  {
  }

  /** The same at one input. */
  lemma DroppedFlagWitness() returns (o: Oracle, w: Disk, v: Disk)
    ensures AtRest(w) && w.files[Current(Runtime)] == Tree("1", true)
    ensures v == RollbackPending(_ => Works, Launch(o, w, BothUpdates(Release("2", "v2"), Release("3", "v3"))).Restart()).0
    ensures Current(Runtime) in v.files && v.files[Current(Runtime)] == Tree("2", true)
  {
    hide Launch, RollbackPending;
    o := n => if n == 10 then Dies else Works;
    w := World(Installation("1", "1"), 0, true);
    InstallationIsAtRest("1", "1");
    var last: Oracle := _ => Works;
    assert "v2"[1] != "v3"[1];
    DroppedFlagIsNotUndone(o, w, Release("2", "v2"), Release("3", "v3"), last);
    v := RollbackPending(last, Launch(o, w, BothUpdates(Release("2", "v2"), Release("3", "v3"))).Restart()).0;
  }

  // ---- An engine is lost ------------------------------------------------------------------

  /** Renames that fail until the deadline, both of the new tree and of the old
      one, strand a component without a current tree in a process that lives on. */
  lemma PublicationStrands(o: Oracle, w: Disk, c: Component)
    requires w.alive && WorksFor(o, w.clock, 3)
    requires forall n :: w.clock + 3 <= n < w.clock + 3 + 2 * RENAME_ATTEMPTS ==> o(n) == Fails
    requires Current(c) in w.files && w.files[Current(c)].Tree? && Previous(c) !in w.files
    ensures Publish(o, w, c) == (World(Moved(w.files, Current(c), Previous(c)), w.clock + 3 + 2 * RENAME_ATTEMPTS, true), false)
  {
    var w1 := w.Remove(o, Previous(c)).0;
    assert w1.files == w.files;
    var w2 := w1.Stat(o, Current(c)).0;
    var w3 := w2.RenameDirWithRetry(o, Current(c), Previous(c)).0;
    assert w3 == World(Moved(w.files, Current(c), Previous(c)), w.clock + 3, true);
    w3.NothingWorks(o, Staged(c), Current(c), w3.clock + RENAME_ATTEMPTS);
    var w4 := w3.RenameDirWithRetry(o, Staged(c), Current(c)).0;
    w4.NothingWorks(o, Previous(c), Current(c), w4.clock + RENAME_ATTEMPTS);
  }

  /** A launch that updates the engine, with stock QEMU to go on with. */
  function EngineUpdate(r: Release): Plan {
    Plan(MoveTo(r), Keep, true, [Boot(false, true)])
  }

  /** Such a launch, stranded, commits on stock QEMU: the engine is gone, and
      there is nothing to put it back from. */
  lemma StockBootLosesTheEngine(o: Oracle, w: Disk, r: Release)
    requires AtRest(w) && WorksFor(o, w.clock, 6) && WorksFor(o, w.clock + 36, 2)
    requires forall n :: w.clock + 6 <= n < w.clock + 36 ==> o(n) == Fails
    ensures var v := Launch(o, w, EngineUpdate(r));
      && Strands(o, w, EngineUpdate(r)) && !Safe(v.files)
      && Current(Runtime) !in v.files && Previous(Runtime) !in v.files && StateFile !in v.files
  {
    hide Publish, Lifetimes;
    var recorded := World(WithStaged(w.files, Runtime, r), w.clock + 3, true);
    var w1 := World(Moved(recorded.files, Current(Runtime), Previous(Runtime)), w.clock + 36, true);
    StageAndRecord(o, w, Runtime, r);
    PublicationStrands(o, recorded, Runtime);
    hide Update;
    assert w.Restart() == w;
    NothingToRecover(o, w);
    assert Launch(o, w, EngineUpdate(r)) == Lifetimes(o, w1, true, [Boot(false, true)]);
    CommitDropsEngine(o, w1);
  }

  lemma CommitDropsEngine(o: Oracle, w: Disk)
    requires w.alive && WorksFor(o, w.clock, 2) && PendingIn(w.files, Runtime) && !PendingIn(w.files, Guest) && Current(Guest) in w.files
    ensures CommitAll(o, w).files == w.files - {Previous(Runtime), StateFile}
    ensures Lifetimes(o, w, true, [Boot(false, true)]) == CommitAll(o, w)
  {
    assert [Boot(false, true)][1..] == [];
    assert CommitAll(o, w).files == w.files - {Previous(Runtime)} - {StateFile};
  }

  /** The same at one input. */
  lemma LostEngineWitness() returns (o: Oracle, w: Disk, plan: Plan)
    ensures Safe(w.files) && !Safe(Launch(o, w, plan).files)
    ensures Current(Runtime) in w.files && Current(Runtime) !in Launch(o, w, plan).files
  {
    hide Launch;
    o := n => if 6 <= n < 36 then Fails else Works;
    w := World(Installation("1", "1"), 0, true);
    InstallationIsAtRest("1", "1");
    StockBootLosesTheEngine(o, w, Release("2", "v2"));
    plan := EngineUpdate(Release("2", "v2"));
  }

  // ---- A deletion cut short -----------------------------------------------------------------

  /** A commit that dies in its delete of the previous tree, where deleting is
      not one step: part of that tree is left. */
  function TornCommit(o: Oracle, w: Disk, c: Component): Disk {
    var v := Commit(o, w, c);
    if PendingIn(w.files, c) && w.alive && o(w.clock) == Dies && Previous(c) in v.files && v.files[Previous(c)].Tree?
    then v.(files := v.files[Previous(c) := v.files[Previous(c)].(complete := false)])
    else v
  }

  /** Recovery gives the component a whole tree exactly when the commit did not
      die in that delete; if it did, the partial tree replaces the whole one. */
  lemma TornCommitIsRecoveredIff(o: Oracle, w: Disk, c: Component, last: Oracle)
    requires Unconfirmed(w, c) && Healthy(last)
    ensures var (v, recovery) := RollbackPending(last, TornCommit(o, w, c).Restart());
      && recovery.Recovered? && Current(c) in v.files
      && (Whole(v.files, Current(c)) <==> !(o(w.clock) == Dies && Previous(c) in w.files))
  {
    hide Rollback, Commit;
    CommitOutcome(o, w, c);
    var v := Commit(o, w, c);
    CommitKeepsSafe(w.files, v.files, c);
    var torn := TornCommit(o, w, c);
    if o(w.clock) == Dies && Previous(c) in w.files {
      DeadCommit(o, w, c);
      assert PendingIn(torn.files, c) && !PendingIn(torn.files, Other(c));
      RollbackOutcome(last, torn.Restart(), c);
      RollbackSucceedsWhenHealthy(last, torn.Restart(), c);
    } else {
      RecoveryKeepsGoals(last, torn.Restart());
    }
  }

  /** One published update, waiting for its guest to get ready. */
  predicate Unconfirmed(w: Disk, c: Component) {
    w.alive && Safe(w.files) && PendingIn(w.files, c) && !PendingIn(w.files, Other(c)) && Current(c) in w.files
  }

  lemma DeadCommit(o: Oracle, w: Disk, c: Component)
    requires w.alive && PendingIn(w.files, c) && o(w.clock) == Dies
    ensures Commit(o, w, c).files == w.files
  {
  }

  /** The same at one input: a confirmed guest is replaced by part of the old one. */
  lemma TornCommitWitness() returns (o: Oracle, w: Disk, v: Disk)
    ensures Safe(w.files) && Current(Guest) in w.files && w.files[Current(Guest)] == Tree("2", true)
    ensures v == RollbackPending(_ => Works, TornCommit(o, w, Guest).Restart()).0
    ensures Current(Guest) in v.files && !Whole(v.files, Current(Guest))
  {
    hide RollbackPending, TornCommit;
    o := _ => Dies;
    w := World(Installation("2", "1")[Previous(Guest) := Tree("1", true)][StateFile := Record(UpdateState("v2", true, false, true))], 0, true);
    var last: Oracle := _ => Works;
    TornCommitIsRecoveredIff(o, w, Guest, last);
    v := RollbackPending(last, TornCommit(o, w, Guest).Restart()).0;
  }
}
