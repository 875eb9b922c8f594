// Updating the guest and runtime trees so that a crash, or a tree that does not
// boot, can always be undone (payload_update.go, and its callers in fetch.go,
// setup.go and main.go). Each component has a current tree; an update builds
// the next tree beside it, records itself as pending, keeps the current tree as
// the previous one, and drops that only when the guest reports ready.
module PayloadUpdate {
  import opened FaultyFs

  datatype Component = Guest | Runtime

  datatype Path =
    | Current(c: Component)
    | Staged(c: Component)
    | Previous(c: Component)
    | Discarded(c: Component)
    | StateFile

  datatype UpdateState = UpdateState(version: string, guestPending: bool, runtimePending: bool, started: bool) {
    function Pending(c: Component): bool {
      if c.Guest? then guestPending else runtimePending
    }

    function Clear(c: Component): UpdateState {
      if c.Guest? then this.(guestPending := false) else this.(runtimePending := false)
    }
  }

  datatype Content = Tree(release: string, complete: bool) | Record(state: UpdateState)

  type Files = map<Path, Content>

  type Disk = World<Path, Content>

  datatype StateRead = NoState | Valid(state: UpdateState) | Invalid

  function ReadState(f: Files): StateRead {
    if StateFile !in f then NoState
    else if f[StateFile].Record? then Valid(f[StateFile].state)
    else Invalid
  }

  datatype Recovery = RecoveryFailed | Recovered(rolledBack: bool)

  // ---- What each operation does --------------------------------------------

  function Publish(o: Oracle, w: Disk, c: Component): (Disk, bool) {
    var (w, removed) := w.Remove(o, Previous(c));
    if !removed then (w, false) else
    var (w, current) := w.Stat(o, Current(c));
    if current.Unreadable? then (w, false)
    else if current.Present? && !w.files[Current(c)].Tree? then (w, false)
    else
      var (w, kept) := if current.Present?
                       then w.RenameDirWithRetry(o, Current(c), Previous(c))
                       else (w, true);
      if !kept then (w, false) else
      var (w, published) := w.RenameDirWithRetry(o, Staged(c), Current(c));
      if published then (w, true)
      else if current.Present? then
        (w.RenameDirWithRetry(o, Previous(c), Current(c)).0, false)
      else (w, false)
  }

  function Rollback(o: Oracle, w: Disk, c: Component): (Disk, bool) {
    var (w, previous) := w.Stat(o, Previous(c));
    if previous.Absent? then (w, true)
    else if previous.Unreadable? then (w, false)
    else
      var w := w.Remove(o, Discarded(c)).0;
      var (w, current) := w.Stat(o, Current(c));
      if current.Unreadable? then (w, false) else
      var (w, moved) := if current.Present?
                        then w.RenameDirWithRetry(o, Current(c), Discarded(c))
                        else (w, true);
      if !moved then (w, false) else
      var (w, restored) := w.RenameDirWithRetry(o, Previous(c), Current(c));
      if !restored then
        (w.RenameDirWithRetry(o, Discarded(c), Current(c)).0, false)
      else
        (w.Remove(o, Discarded(c)).0, true)
  }

  function RecordUpdate(o: Oracle, w: Disk, version: string, c: Component): (Disk, bool) {
    var read := ReadState(w.files);
    var state := if read.Valid? && read.state.version == version then read.state
                 else UpdateState(version, false, false, false);
    w.Replace(o, StateFile, Record(UpdateState(
      version, state.guestPending || c.Guest?, state.runtimePending || c.Runtime?, true)))
  }

  function RollbackPending(o: Oracle, w: Disk): (Disk, Recovery) {
    match ReadState(w.files)
    case Invalid => (w, RecoveryFailed)
    case NoState => (w, Recovered(false))
    case Valid(state) =>
      if !state.started then
        var (w, ok) := w.Replace(o, StateFile, Record(state.(started := true)));
        (w, if ok then Recovered(false) else RecoveryFailed)
      else
        var (w, guestOk) := if state.guestPending then Rollback(o, w, Guest) else (w, true);
        if !guestOk then (w, RecoveryFailed) else
        var (w, runtimeOk) := if state.runtimePending then Rollback(o, w, Runtime) else (w, true);
        if !runtimeOk then (w, RecoveryFailed) else
        var (w, removed) := w.Remove(o, StateFile);
        (w, if removed then Recovered(state.guestPending || state.runtimePending) else RecoveryFailed)
  }

  function Commit(o: Oracle, w: Disk, c: Component): Disk {
    var read := ReadState(w.files);
    if !read.Valid? || !read.state.Pending(c) then w
    else
      var w := w.Remove(o, Previous(c)).0;
      var state := read.state.Clear(c);
      if state.guestPending || state.runtimePending
      then w.Replace(o, StateFile, Record(state)).0
      else w.Remove(o, StateFile).0
  }

  function CommitAll(o: Oracle, w: Disk): Disk {
    Commit(o, Commit(o, w, Runtime), Guest)
  }

  function RollbackPendingRuntime(o: Oracle, w: Disk): (Disk, bool) {
    var read := ReadState(w.files);
    if !read.Valid? || !read.state.runtimePending then (w, false)
    else
      var (w, ok) := Rollback(o, w, Runtime);
      if !ok then (w, false)
      else if !read.state.guestPending then w.Remove(o, StateFile)
      else w.Replace(o, StateFile, Record(read.state.Clear(Runtime)))
  }

  /** A release to move a component to. */
  datatype Release = Release(name: string, version: string)

  // Building the next tree beside the current one. A build that fails or is cut
  // short leaves a partial tree under the staging name.
  function Build(o: Oracle, w: Disk, c: Component, r: Release): (Disk, bool) {
    var next := Tree(r.name, w.Permits(o));
    (if w.alive then w.Tick(o).(files := w.files[Staged(c) := next]) else w, w.Permits(o))
  }

  // Clearing the staging name and building there. Only the guest insists on a
  // name it could clear.
  function Stage(o: Oracle, w: Disk, c: Component, r: Release): (Disk, bool) {
    var (w, cleared) := w.Remove(o, Staged(c));
    if !cleared && c.Guest? then (w, false) else
    var (w, built) := Build(o, w, c, r);
    if !built then (w.Remove(o, Staged(c)).0, false) else (w, true)
  }

  function Update(o: Oracle, w: Disk, c: Component, r: Release): (Disk, bool) {
    var (w, staged) := Stage(o, w, c, r);
    if !staged then (w, false) else
    var (w, recorded) := RecordUpdate(o, w, r.version, c);
    if !recorded then (w, false) else Publish(o, w, c)
  }

  // ---- One launch ---------------------------------------------------------------

  datatype Choice = Keep | MoveTo(release: Release)

  /** One guest lifetime: whether its accelerated start fails, whether its userspace reports ready. */
  datatype Boot = Boot(startFails: bool, ready: bool)

  datatype Plan = Plan(runtime: Choice, guest: Choice, stockQemu: bool, boots: seq<Boot>)

  function Apply(o: Oracle, w: Disk, c: Component, choice: Choice): (Disk, bool) {
    if choice.Keep? then (w, true) else Update(o, w, c, choice.release)
  }

  // Guest lifetimes follow one another in one process; one needs a guest tree
  // and an engine, its own or the stock one.
  function Lifetimes(o: Oracle, w: Disk, stock: bool, boots: seq<Boot>): Disk
    decreases |boots|
  {
    if boots == [] then w
    else
      var w := if boots[0].startFails && !stock then RollbackPendingRuntime(o, w).0 else w;
      var runs := Current(Guest) in w.files && (stock || Current(Runtime) in w.files);
      var w := if boots[0].ready && runs then CommitAll(o, w) else w;
      Lifetimes(o, w, stock, boots[1..])
  }

  function Launch(o: Oracle, w: Disk, plan: Plan): Disk {
    var (w, recovery) := RollbackPending(o, w.Restart());
    if recovery.RecoveryFailed? then w
    else if recovery.rolledBack then Lifetimes(o, w, false, plan.boots)
    else
      var (w, runtimeOk) := Apply(o, w, Runtime, plan.runtime);
      if !runtimeOk && !plan.stockQemu then w else
      var (w, guestOk) := Apply(o, w, Guest, plan.guest);
      if !guestOk then w else Lifetimes(o, w, !runtimeOk, plan.boots)
  }

  // ---- The states each operation can leave behind --------------------------

  function Other(c: Component): Component {
    if c.Guest? then Runtime else Guest
  }

  ghost predicate SameElsewhere(f: Files, g: Files, c: Component) {
    && Same(f, g, StateFile)
    && Same(f, g, Current(Other(c))) && Same(f, g, Previous(Other(c))) && Same(f, g, Discarded(Other(c)))
  }

  /** From an installed component: untouched, the stale previous tree gone, the current tree set aside, or published. */
  ghost predicate PublishReaches(f: Files, g: Files, c: Component, ok: bool)
    requires Current(c) in f
  {
    if ok then Staged(c) in f && g == Moved(Moved(f, Current(c), Previous(c)), Staged(c), Current(c))
    else g == f || g == f - {Previous(c)} || g == Moved(f, Current(c), Previous(c))
  }

  lemma PublishOutcome(o: Oracle, w: Disk, c: Component)
    requires Current(c) in w.files && w.files[Current(c)].Tree?
    ensures PublishReaches(w.files, Publish(o, w, c).0.files, c, Publish(o, w, c).1)
    ensures Publish(o, w, c).0.alive ==> w.alive
    ensures w.alive && Healthy(o) && Staged(c) in w.files ==> Publish(o, w, c).1 && Publish(o, w, c).0.alive
  {
    var (w1, removed) := w.Remove(o, Previous(c));
    if removed {
      var (w2, current) := w1.Stat(o, Current(c));
      if current.Present? {
        var (w3, kept) := w2.RenameDirWithRetry(o, Current(c), Previous(c));
        if kept {
          assert w3.files == Moved(w.files, Current(c), Previous(c));
          var (w4, published) := w3.RenameDirWithRetry(o, Staged(c), Current(c));
          if !published {
            var w5 := w4.RenameDirWithRetry(o, Previous(c), Current(c)).0;
            assert w5.files == w4.files || w5.files == w.files - {Previous(c)};
          }
        }
      }
    }
  }

  /** The previous tree is back in place, or is still there to be put back. */
  ghost predicate RollbackReaches(f: Files, g: Files, c: Component, ok: bool) {
    && SameElsewhere(f, g, c)
    && if Previous(c) !in f then g == f
       else
         && (Discarded(c) in g ==>
               || (Discarded(c) in f && g[Discarded(c)] == f[Discarded(c)])
               || (Current(c) in f && g[Discarded(c)] == f[Current(c)]))
         && if ok then Current(c) in g && g[Current(c)] == f[Previous(c)] && Previous(c) !in g
            else
              && Same(f, g, Previous(c))
              && (Current(c) in g ==>
                    || (Discarded(c) in f && g[Current(c)] == f[Discarded(c)])
                    || (Current(c) in f && g[Current(c)] == f[Current(c)]))
  }

  lemma RollbackOutcome(o: Oracle, w: Disk, c: Component)
    ensures RollbackReaches(w.files, Rollback(o, w, c).0.files, c, Rollback(o, w, c).1)
  {
    var (w1, previous) := w.Stat(o, Previous(c));
    if previous.Present? {
      var w2 := w1.Remove(o, Discarded(c)).0;
      assert w2.files == w.files || w2.files == w.files - {Discarded(c)};
      var (w3, current) := w2.Stat(o, Current(c));
      if !current.Unreadable? {
        var (w4, moved) := if current.Present?
                           then w3.RenameDirWithRetry(o, Current(c), Discarded(c))
                           else (w3, true);
        if moved {
          RestoreOutcome(o, w.files, w4, c);
        }
      }
    }
  }

  lemma RollbackSucceedsWhenHealthy(o: Oracle, w: Disk, c: Component)
    requires w.alive && Healthy(o)
    ensures Rollback(o, w, c).1 && Rollback(o, w, c).0.alive
  {
  }

  /** The last stretch of a rollback, with the current tree out of the way. */
  lemma RestoreOutcome(o: Oracle, f: Files, v: Disk, c: Component)
    requires Previous(c) in f
    requires v.files == f || v.files == f - {Discarded(c)}
      || (Current(c) in f && v.files == Moved(f - {Discarded(c)}, Current(c), Discarded(c)))
    requires Current(c) !in v.files
    ensures var (v1, restored) := v.RenameDirWithRetry(o, Previous(c), Current(c));
      if restored then RollbackReaches(f, v1.Remove(o, Discarded(c)).0.files, c, true)
      else RollbackReaches(f, v1.RenameDirWithRetry(o, Discarded(c), Current(c)).0.files, c, false)
  {
    assert RollbackReaches(f, v.files, c, false);
    var (v1, restored) := v.RenameDirWithRetry(o, Previous(c), Current(c));
    if restored {
      assert RollbackReaches(f, v1.files, c, true);
    }
  }

  // ---- What holds at every point -------------------------------------------

  predicate Whole(f: Files, p: Path) {
    p in f ==> f[p].Tree? && f[p].complete
  }

  predicate PendingIn(f: Files, c: Component) {
    ReadState(f).Valid? && ReadState(f).state.Pending(c)
  }

  /** The component can run now, or recovery can put it back. */
  predicate Restorable(f: Files, c: Component) {
    && Whole(f, Current(c)) && Whole(f, Previous(c)) && Whole(f, Discarded(c))
    && (Current(c) in f || (PendingIn(f, c) && Previous(c) in f))
  }

  /** Both components are restorable, and a record on disk makes the next launch recover. */
  predicate Safe(f: Files) {
    && (StateFile in f ==> f[StateFile].Record? && f[StateFile].state.started)
    && Restorable(f, Guest) && Restorable(f, Runtime)
  }

  /** The tree recovery settles on. */
  function Goal(f: Files, c: Component): Content
    requires Restorable(f, c)
  {
    if PendingIn(f, c) && Previous(c) in f then f[Previous(c)] else f[Current(c)]
  }

  ghost predicate SameGoals(f: Files, g: Files)
    requires Safe(f) && Safe(g)
  {
    Goal(f, Guest) == Goal(g, Guest) && Goal(f, Runtime) == Goal(g, Runtime)
  }

  /** No leftover previous tree outside an update. */
  predicate NoStalePrevious(f: Files) {
    (Previous(Guest) in f ==> PendingIn(f, Guest)) && (Previous(Runtime) in f ==> PendingIn(f, Runtime))
  }

  lemma PublishKeepsSafe(f: Files, g: Files, c: Component, ok: bool)
    requires Safe(f) && PendingIn(f, c) && Current(c) in f && Whole(f, Staged(c))
    requires PublishReaches(f, g, c, ok)
    ensures Safe(g) && Same(f, g, StateFile) && Same(f, g, Current(Other(c)))
    ensures ok ==> Current(c) in g && g[Current(c)] == f[Staged(c)]
    ensures !ok && Current(c) in g ==> Same(f, g, Current(c))
    ensures Previous(c) !in f ==> SameGoals(f, g)
    ensures NoStalePrevious(f) ==> NoStalePrevious(g)
  {
  }

  lemma RollbackKeepsGoals(f: Files, g: Files, c: Component, ok: bool)
    requires Safe(f) && PendingIn(f, c) && RollbackReaches(f, g, c, ok)
    ensures Safe(g) && SameGoals(f, g) && ReadState(g) == ReadState(f)
    ensures ok ==> Current(c) in g && g[Current(c)] == Goal(f, c) && Previous(c) !in g
    ensures NoStalePrevious(f) ==> NoStalePrevious(g)
  {
  }

  // ---- Recovery at launch ---------------------------------------------------

  lemma RecoveryKeepsGoals(o: Oracle, w: Disk)
    requires Safe(w.files)
    ensures var (v, r) := RollbackPending(o, w);
      && Safe(v.files) && SameGoals(w.files, v.files)
      && (NoStalePrevious(w.files) ==> NoStalePrevious(v.files))
      && (r.Recovered? ==>
            && StateFile !in v.files
            && (r.rolledBack <==> PendingIn(w.files, Guest) || PendingIn(w.files, Runtime)))
      && (w.alive && Healthy(o) ==> r.Recovered? && v.alive)
  {
    hide Rollback;
    if StateFile in w.files {
      var state := w.files[StateFile].state;
      forall v: Disk, c | v.alive && Healthy(o) ensures Rollback(o, v, c).1 && Rollback(o, v, c).0.alive {
        RollbackSucceedsWhenHealthy(o, v, c);
      }
      var (w1, guestOk) := if state.guestPending then Rollback(o, w, Guest) else (w, true);
      if state.guestPending {
        RollbackOutcome(o, w, Guest);
        RollbackKeepsGoals(w.files, w1.files, Guest, guestOk);
      }
      if guestOk {
        var (w2, runtimeOk) := if state.runtimePending then Rollback(o, w1, Runtime) else (w1, true);
        if state.runtimePending {
          RollbackOutcome(o, w1, Runtime);
          RollbackKeepsGoals(w1.files, w2.files, Runtime, runtimeOk);
        }
      }
    }
  }

  /** Launches whose recovery was cut short or failed, one after another. */
  function Recoveries(o: Oracle, w: Disk, n: nat): Disk {
    if n == 0 then w else RollbackPending(o, Recoveries(o, w, n - 1).Restart()).0
  }

  lemma {:induction false} RecoveriesKeepGoals(o: Oracle, w: Disk, n: nat)
    requires Safe(w.files)
    ensures Safe(Recoveries(o, w, n).files) && SameGoals(w.files, Recoveries(o, w, n).files)
    ensures NoStalePrevious(w.files) ==> NoStalePrevious(Recoveries(o, w, n).files)
  {
    if n > 0 {
      RecoveriesKeepGoals(o, w, n - 1);
      RecoveryKeepsGoals(o, Recoveries(o, w, n - 1).Restart());
    }
  }

  /** However often recovery is interrupted, the first one that gets through
      ends in one and the same pair of trees, with no record left, and a launch
      on a healthy disk does get through. */
  lemma RecoveryConverges(o: Oracle, w: Disk, n: nat, last: Oracle)
    requires Safe(w.files)
    ensures var (v, r) := RollbackPending(last, Recoveries(o, w, n).Restart());
      && (r.Recovered? ==>
            && StateFile !in v.files
            && Current(Guest) in v.files && v.files[Current(Guest)] == Goal(w.files, Guest)
            && Current(Runtime) in v.files && v.files[Current(Runtime)] == Goal(w.files, Runtime))
      && (Healthy(last) ==> r.Recovered?)
  {
    RecoveriesKeepGoals(o, w, n);
    RecoveryKeepsGoals(last, Recoveries(o, w, n).Restart());
  }

  // ---- Starting an update -----------------------------------------------------

  /** What a record of a new update does to what recovery would do. It keeps the
      component's own tree exactly if no older previous tree is lying around,
      and the other component's exactly if it does not drop that one's flag. */
  lemma RecordKeepsGoalsIff(o: Oracle, w: Disk, version: string, c: Component)
    requires Safe(w.files) && !PendingIn(w.files, c) && w.Permits(o)
    ensures var g := RecordUpdate(o, w, version, c).0.files;
      var f := w.files;
      var keepsOther := !PendingIn(f, Other(c)) || ReadState(f).state.version == version;
      && RecordUpdate(o, w, version, c).1 && PendingIn(g, c)
      && (Safe(g) <==> keepsOther || Current(Other(c)) in f)
      && (Safe(g) ==>
            (SameGoals(f, g) <==>
               && (Previous(c) in f ==> f[Previous(c)] == f[Current(c)])
               && (keepsOther || Previous(Other(c)) !in f || f[Previous(Other(c))] == f[Current(Other(c))])))
  {
    var g := RecordUpdate(o, w, version, c).0.files;
    assert g == w.files[StateFile := g[StateFile]];
  }

  lemma StageOutcome(o: Oracle, w: Disk, c: Component, r: Release)
    ensures var (v, ok) := Stage(o, w, c, r);
      && v.files - {Staged(c)} == w.files - {Staged(c)}
      && (ok ==> v.alive && Staged(c) in v.files && v.files[Staged(c)] == Tree(r.name, true))
      && (w.alive && Healthy(o) ==> ok)
  {
    var w1 := w.Remove(o, Staged(c)).0;
    assert w1.files - {Staged(c)} == w.files - {Staged(c)};
    var (w2, built) := Build(o, w1, c, r);
    assert w2.files - {Staged(c)} == w1.files - {Staged(c)};
  }

  lemma StagingChangesNothingElse(f: Files, g: Files, c: Component)
    requires Safe(f) && g - {Staged(c)} == f - {Staged(c)}
    ensures Safe(g) && SameGoals(f, g) && ReadState(g) == ReadState(f)
    ensures forall d :: Same(f, g, Current(d)) && Same(f, g, Previous(d))
  {
    assert forall p :: p != Staged(c) ==> (p in f <==> p in f - {Staged(c)}) && (p in g <==> p in g - {Staged(c)});
    assert forall p :: p in f - {Staged(c)} ==> (f - {Staged(c)})[p] == f[p] == g[p];
  }

  predicate Updatable(f: Files, c: Component, version: string) {
    && Safe(f) && !PendingIn(f, c) && Current(c) in f
    && (Current(Other(c)) in f || ReadState(f).state.version == version)
  }

  /** Nothing lets the record of this update change what recovery would do. */
  predicate Undoable(f: Files, c: Component, version: string) {
    NoStalePrevious(f) && (PendingIn(f, Other(c)) ==> ReadState(f).state.version == version)
  }

  lemma RecordKeepsSafe(o: Oracle, w: Disk, version: string, c: Component)
    requires Updatable(w.files, c, version)
    ensures var (v, ok) := RecordUpdate(o, w, version, c);
      && Safe(v.files) && (ok == w.Permits(o)) && (if ok then v.alive else v.files == w.files)
      && (ok ==>
            && PendingIn(v.files, c) && ReadState(v.files).state.version == version
            && v.files == w.files[StateFile := v.files[StateFile]]
            && (PendingIn(v.files, Other(c)) ==> PendingIn(w.files, Other(c)))
            && (Undoable(w.files, c, version) ==>
                  SameGoals(w.files, v.files) && NoStalePrevious(v.files) && Previous(c) !in v.files))
  {
    if w.Permits(o) {
      RecordKeepsGoalsIff(o, w, version, c);
    }
  }

  lemma UpdateKeepsSafe(o: Oracle, w: Disk, c: Component, r: Release)
    requires Updatable(w.files, c, r.version)
    ensures var (v, ok) := Update(o, w, c, r);
      && Safe(v.files) && Same(w.files, v.files, Current(Other(c)))
      && (PendingIn(v.files, Other(c)) ==> PendingIn(w.files, Other(c)))
      && (PendingIn(v.files, c) ==> ReadState(v.files).state.version == r.version)
      && (ok ==> Current(c) in v.files && v.files[Current(c)] == Tree(r.name, true))
      && (!ok && Current(c) in v.files ==> Same(w.files, v.files, Current(c)))
      && (Undoable(w.files, c, r.version) ==> SameGoals(w.files, v.files) && NoStalePrevious(v.files))
      && (w.alive && Healthy(o) ==> ok && v.alive && PendingIn(v.files, c))
  {
    hide Publish, Stage, RecordUpdate, PublishReaches;
    StageOutcome(o, w, c, r);
    var (w2, staged) := Stage(o, w, c, r);
    StagingChangesNothingElse(w.files, w2.files, c);
    if staged {
      RecordKeepsSafe(o, w2, r.version, c);
      var (w3, recorded) := RecordUpdate(o, w2, r.version, c);
      if recorded {
        PublishOutcome(o, w3, c);
        PublishKeepsSafe(w3.files, Publish(o, w3, c).0.files, c, Publish(o, w3, c).1);
      }
    }
  }

  // ---- Confirming an update ------------------------------------------------------

  predicate Confirmable(f: Files, c: Component) {
    PendingIn(f, c) ==> Current(c) in f
  }

  /** Only the component's own previous tree and the record are touched. */
  ghost predicate CommitReaches(f: Files, g: Files, c: Component)
    requires ReadState(f).Valid?
  {
    var cleared := ReadState(f).state.Clear(c);
    g == f || g == f - {Previous(c)}
    || (cleared.Pending(Other(c)) && (g == f[StateFile := Record(cleared)] || g == (f - {Previous(c)})[StateFile := Record(cleared)]))
    || (!cleared.Pending(Other(c)) && (g == f - {StateFile} || g == f - {Previous(c), StateFile}))
  }

  lemma CommitOutcome(o: Oracle, w: Disk, c: Component)
    ensures var v := Commit(o, w, c);
      if !PendingIn(w.files, c) then v == w
      else
        && CommitReaches(w.files, v.files, c)
        && (w.alive && Healthy(o) ==>
              && v.alive && Previous(c) !in v.files
              && ReadState(v.files) == (if PendingIn(w.files, Other(c)) then Valid(ReadState(w.files).state.Clear(c)) else NoState))
  {
    if PendingIn(w.files, c) {
      var w1 := w.Remove(o, Previous(c)).0;
      assert w1.files == w.files || w1.files == w.files - {Previous(c)};
    }
  }

  /** The tree recovery settles on is the old one until the previous tree is
      gone, and the new one from then on. */
  lemma CommitKeepsSafe(f: Files, g: Files, c: Component)
    requires Safe(f) && PendingIn(f, c) && Current(c) in f && CommitReaches(f, g, c)
    ensures Safe(g) && Goal(g, Other(c)) == Goal(f, Other(c))
    ensures Same(f, g, Current(Guest)) && Same(f, g, Current(Runtime))
    ensures PendingIn(g, Other(c)) == PendingIn(f, Other(c))
    ensures Goal(g, c) == if Previous(c) in g && PendingIn(g, c) then Goal(f, c) else f[Current(c)]
    ensures NoStalePrevious(f) && Previous(c) !in g ==> NoStalePrevious(g)
  {
  }

  ghost predicate Confirmed(f: Files, g: Files, c: Component)
    requires Restorable(f, c) && Restorable(g, c)
  {
    && Same(f, g, Current(c))
    && (Goal(g, c) == Goal(f, c) || (Current(c) in f && Goal(g, c) == f[Current(c)]))
  }

  lemma CommitAllKeepsSafe(o: Oracle, w: Disk)
    requires Safe(w.files) && Confirmable(w.files, Guest) && Confirmable(w.files, Runtime)
    ensures var v := CommitAll(o, w);
      && Safe(v.files) && Confirmed(w.files, v.files, Guest) && Confirmed(w.files, v.files, Runtime)
      && (w.alive && Healthy(o) ==>
            && v.alive
            && (NoStalePrevious(w.files) ==> NoStalePrevious(v.files))
            && (PendingIn(w.files, Guest) || PendingIn(w.files, Runtime) ==> StateFile !in v.files))
  {
    hide Commit;
    var w1 := Commit(o, w, Runtime);
    CommitOutcome(o, w, Runtime);
    if PendingIn(w.files, Runtime) {
      CommitKeepsSafe(w.files, w1.files, Runtime);
    }
    CommitOutcome(o, w1, Guest);
    if PendingIn(w1.files, Guest) {
      CommitKeepsSafe(w1.files, Commit(o, w1, Guest).files, Guest);
    }
  }

  lemma RollbackPendingRuntimeKeepsGoals(o: Oracle, w: Disk)
    requires Safe(w.files)
    ensures var (v, ok) := RollbackPendingRuntime(o, w);
      && Safe(v.files) && SameGoals(w.files, v.files)
      && Same(w.files, v.files, Current(Guest)) 
      && (PendingIn(v.files, Guest) ==> PendingIn(w.files, Guest))
      && (NoStalePrevious(w.files) ==> NoStalePrevious(v.files))
      && (ok ==> !PendingIn(v.files, Runtime) && Current(Runtime) in v.files)
  {
    hide Rollback;
    if PendingIn(w.files, Runtime) {
      RollbackOutcome(o, w, Runtime);
      RollbackKeepsGoals(w.files, Rollback(o, w, Runtime).0.files, Runtime, Rollback(o, w, Runtime).1);
    }
  }

  /** Without faults the engine is given up exactly if its update is pending: the
      tree recovery would settle on is current, its flag is gone, and nothing of
      the guest has changed. */
  lemma RollbackPendingRuntimeSucceedsIff(o: Oracle, w: Disk)
    requires Safe(w.files) && w.alive && Healthy(o)
    ensures var (v, ok) := RollbackPendingRuntime(o, w);
      && v.alive && (ok <==> PendingIn(w.files, Runtime))
      && (!ok ==> v.files == w.files)
      && (ok ==>
            && Current(Runtime) in v.files && v.files[Current(Runtime)] == Goal(w.files, Runtime)
            && Previous(Runtime) !in v.files && !PendingIn(v.files, Runtime)
            && ReadState(v.files) == (if PendingIn(w.files, Guest) then Valid(ReadState(w.files).state.Clear(Runtime)) else NoState)
            && Same(w.files, v.files, Current(Guest)) && Same(w.files, v.files, Previous(Guest)))
  {
    hide Rollback;
    if PendingIn(w.files, Runtime) {
      RollbackOutcome(o, w, Runtime);
      RollbackSucceedsWhenHealthy(o, w, Runtime);
      RollbackKeepsGoals(w.files, Rollback(o, w, Runtime).0.files, Runtime, true);
    }
  }

  // ---- Whole launches --------------------------------------------------------------

  predicate AnyReady(boots: seq<Boot>) {
    exists i :: 0 <= i < |boots| && boots[i].ready
  }

  lemma {:induction false} LifetimesKeepSafe(o: Oracle, w: Disk, stock: bool, boots: seq<Boot>)
    requires Safe(w.files) && (stock && Current(Runtime) !in w.files ==> !AnyReady(boots))
    ensures Safe(Lifetimes(o, w, stock, boots).files)
    ensures !AnyReady(boots) ==> SameGoals(w.files, Lifetimes(o, w, stock, boots).files)
    ensures !AnyReady(boots) && NoStalePrevious(w.files) ==> NoStalePrevious(Lifetimes(o, w, stock, boots).files)
    decreases |boots|
  {
    hide RollbackPendingRuntime, CommitAll;
    if boots != [] {
      RollbackPendingRuntimeKeepsGoals(o, w);
      var w1 := if boots[0].startFails && !stock then RollbackPendingRuntime(o, w).0 else w;
      var runs := Current(Guest) in w1.files && (stock || Current(Runtime) in w1.files);
      assert AnyReady(boots[1..]) ==> AnyReady(boots) by {
        if i :| 0 <= i < |boots[1..]| && boots[1..][i].ready { assert boots[i + 1].ready; }
      }
      if boots[0].ready && runs {
        CommitAllKeepsSafe(o, w1);
        LifetimesKeepSafe(o, CommitAll(o, w1), stock, boots[1..]);
      } else {
        LifetimesKeepSafe(o, w1, stock, boots[1..]);
      }
    }
  }

  predicate OneVersion(plan: Plan) {
    plan.runtime.MoveTo? && plan.guest.MoveTo? ==> plan.runtime.release.version == plan.guest.release.version
  }

  /** The launch goes on to stock QEMU because publishing its own engine failed,
      and that failure has left no current engine. */
  predicate Strands(o: Oracle, w: Disk, plan: Plan) {
    var (w1, recovery) := RollbackPending(o, w.Restart());
    && recovery == Recovered(false) && plan.stockQemu
    && var (w2, runtimeOk) := Apply(o, w1, Runtime, plan.runtime);
    !runtimeOk && Current(Runtime) !in w2.files
  }

  /** The launches that can be undone, whatever happens to them. */
  predicate Covered(o: Oracle, w: Disk, plan: Plan) {
    Strands(o, w, plan) ==> OneVersion(plan) && !AnyReady(plan.boots)
  }

  /** Whatever fails, and wherever the launch dies, each component stays
      runnable or restorable. The one launch that is not covered goes on to a
      confirmed boot on stock QEMU, or to an update of another version, after a
      publication that has left it without its own engine. */
  lemma LaunchKeepsSafe(o: Oracle, w: Disk, plan: Plan)
    requires Safe(w.files) && Covered(o, w, plan)
    ensures Safe(Launch(o, w, plan).files)
    ensures NoStalePrevious(w.files) && OneVersion(plan) && !AnyReady(plan.boots) ==>
      SameGoals(w.files, Launch(o, w, plan).files) && NoStalePrevious(Launch(o, w, plan).files)
  {
    hide RollbackPending, Update, Lifetimes;
    RecoveryKeepsGoals(o, w.Restart());
    var (w1, recovery) := RollbackPending(o, w.Restart());
    if recovery.Recovered? {
      if recovery.rolledBack {
        LifetimesKeepSafe(o, w1, false, plan.boots);
      } else {
        if plan.runtime.MoveTo? {
          UpdateKeepsSafe(o, w1, Runtime, plan.runtime.release);
        }
        var (w2, runtimeOk) := Apply(o, w1, Runtime, plan.runtime);
        if runtimeOk || plan.stockQemu {
          if plan.guest.MoveTo? {
            UpdateKeepsSafe(o, w2, Guest, plan.guest.release);
          }
          var (w3, guestOk) := Apply(o, w2, Guest, plan.guest);
          if guestOk {
            LifetimesKeepSafe(o, w3, !runtimeOk, plan.boots);
          }
        }
      }
    }
  }

  // ---- What a launch settles on ------------------------------------------------------

  function ChoiceOf(plan: Plan, c: Component): Choice {
    if c.Guest? then plan.guest else plan.runtime
  }

  /** Whatever happens next, one of two trees: the one recovery settles on is one
      of them, and so is any that is current or would be put back as current. */
  ghost predicate OneOf(f: Files, c: Component, stock: bool, before: Content, offered: Content)
    requires Restorable(f, c)
  {
    && (Goal(f, c) == before || Goal(f, c) == offered)
    && (Current(c) in f ==> f[Current(c)] == before || f[Current(c)] == offered)
    && (c.Runtime? && !stock && Current(c) !in f && Discarded(c) in f ==> f[Discarded(c)] == before || f[Discarded(c)] == offered)
  }

  /** Where the trees of a rollback come from, and where they go. */
  ghost predicate TreesMove(f: Files, g: Files, c: Component) {
    && (Current(c) in g ==>
          || (Previous(c) in f && g[Current(c)] == f[Previous(c)])
          || (Current(c) in f && g[Current(c)] == f[Current(c)])
          || (Current(c) !in f && Discarded(c) in f && g[Current(c)] == f[Discarded(c)]))
    && (Current(c) !in g && Discarded(c) in g ==>
          if Current(c) in f then g[Discarded(c)] == f[Current(c)] else Discarded(c) in f && g[Discarded(c)] == f[Discarded(c)])
  }

  lemma RollbackMoves(o: Oracle, w: Disk, c: Component)
    ensures TreesMove(w.files, Rollback(o, w, c).0.files, c)
  {
    var (w1, previous) := w.Stat(o, Previous(c));
    if previous.Present? {
      var w2 := w1.Remove(o, Discarded(c)).0;
      var (w3, current) := w2.Stat(o, Current(c));
      if !current.Unreadable? {
        var (w4, moved) := if current.Present?
                           then w3.RenameDirWithRetry(o, Current(c), Discarded(c))
                           else (w3, true);
        if moved {
          RestoreMoves(o, w.files, w4, c);
        }
      }
    }
  }

  lemma RestoreMoves(o: Oracle, f: Files, v: Disk, c: Component)
    requires Previous(c) in f && Current(c) !in v.files && TreesMove(f, v.files, c) && Same(f, v.files, Previous(c))
    ensures var (v1, restored) := v.RenameDirWithRetry(o, Previous(c), Current(c));
      if restored then TreesMove(f, v1.Remove(o, Discarded(c)).0.files, c)
      else TreesMove(f, v1.RenameDirWithRetry(o, Discarded(c), Current(c)).0.files, c)
  {
  }

  lemma RollbackKeepsOneOf(o: Oracle, w: Disk, before: Content, offered: Content)
    requires Safe(w.files) && OneOf(w.files, Runtime, false, before, offered)
    ensures var v := RollbackPendingRuntime(o, w).0;
      Safe(v.files) && OneOf(v.files, Runtime, false, before, offered)
  {
    hide Rollback;
    RollbackPendingRuntimeKeepsGoals(o, w);
    RollbackMoves(o, w, Runtime);
    var v, u := RollbackPendingRuntime(o, w).0, Rollback(o, w, Runtime).0;
    if PendingIn(w.files, Runtime) {
      assert Same(u.files, v.files, Current(Runtime)) && Same(u.files, v.files, Discarded(Runtime));
    }
  }

  lemma {:induction false} LifetimesSettle(o: Oracle, w: Disk, stock: bool, boots: seq<Boot>, c: Component, before: Content, offered: Content)
    requires Safe(w.files) && (stock && Current(Runtime) !in w.files ==> !AnyReady(boots))
    requires OneOf(w.files, c, stock, before, offered)
    ensures var v := Lifetimes(o, w, stock, boots);
      Safe(v.files) && (Goal(v.files, c) == before || Goal(v.files, c) == offered)
    decreases |boots|
  {
    hide RollbackPendingRuntime, CommitAll;
    LifetimesKeepSafe(o, w, stock, boots);
    if boots != [] {
      RollbackPendingRuntimeKeepsGoals(o, w);
      var w1 := if boots[0].startFails && !stock then RollbackPendingRuntime(o, w).0 else w;
      if boots[0].startFails && !stock && c.Runtime? {
        RollbackKeepsOneOf(o, w, before, offered);
      }
      var runs := Current(Guest) in w1.files && (stock || Current(Runtime) in w1.files);
      assert AnyReady(boots[1..]) ==> AnyReady(boots) by {
        if i :| 0 <= i < |boots[1..]| && boots[1..][i].ready { assert boots[i + 1].ready; }
      }
      if boots[0].ready && runs {
        CommitAllKeepsSafe(o, w1);
        LifetimesSettle(o, CommitAll(o, w1), stock, boots[1..], c, before, offered);
      } else {
        LifetimesSettle(o, w1, stock, boots[1..], c, before, offered);
      }
    }
  }

  /** Confirmed or not, and whatever fails: after a launch each component settles
      on the tree it had, or on the release it was offered. */
  lemma LaunchSettlesOnOldOrOffered(o: Oracle, w: Disk, plan: Plan, c: Component)
    requires Safe(w.files) && Covered(o, w, plan) && NoStalePrevious(w.files) && OneVersion(plan)
    ensures var v := Launch(o, w, plan);
      && Safe(v.files)
      && (Goal(v.files, c) == Goal(w.files, c)
          || (ChoiceOf(plan, c).MoveTo? && Goal(v.files, c) == Tree(ChoiceOf(plan, c).release.name, true)))
  {
    hide RollbackPending, Update, Lifetimes, Covered;
    LaunchKeepsSafe(o, w, plan);
    RecoveryKeepsGoals(o, w.Restart());
    var (w1, recovery) := RollbackPending(o, w.Restart());
    var before := Goal(w.files, c);
    var offered := if ChoiceOf(plan, c).MoveTo? then Tree(ChoiceOf(plan, c).release.name, true) else before;
    if recovery.Recovered? {
      if recovery.rolledBack {
        LifetimesSettle(o, w1, false, plan.boots, c, before, offered);
      } else {
        if plan.runtime.MoveTo? {
          UpdateKeepsSafe(o, w1, Runtime, plan.runtime.release);
        }
        var (w2, runtimeOk) := Apply(o, w1, Runtime, plan.runtime);
        if runtimeOk || plan.stockQemu {
          SettleGuest(o, w, w1, w2, runtimeOk, plan, c, before, offered);
        }
      }
    }
  }

  /** The rest of a launch, with the engine updated or given up. */
  lemma SettleGuest(o: Oracle, w: Disk, w1: Disk, w2: Disk, runtimeOk: bool, plan: Plan, c: Component, before: Content, offered: Content)
    requires Covered(o, w, plan) && OneVersion(plan) && RollbackPending(o, w.Restart()) == (w1, Recovered(false))
    requires Apply(o, w1, Runtime, plan.runtime) == (w2, runtimeOk) && (runtimeOk || plan.stockQemu)
    requires Safe(w2.files) && NoStalePrevious(w2.files) && Goal(w2.files, c) == before && !PendingIn(w2.files, Guest) && Current(Guest) in w2.files
    requires PendingIn(w2.files, Runtime) ==> plan.runtime.MoveTo? && ReadState(w2.files).state.version == plan.runtime.release.version
    requires runtimeOk ==> Current(Runtime) in w2.files
    requires Current(c) in w2.files ==> w2.files[Current(c)] == before || (c.Runtime? && w2.files[Current(c)] == offered)
    requires offered == if ChoiceOf(plan, c).MoveTo? then Tree(ChoiceOf(plan, c).release.name, true) else before
    ensures var (w3, guestOk) := Apply(o, w2, Guest, plan.guest);
      var v := if guestOk then Lifetimes(o, w3, !runtimeOk, plan.boots) else w3;
      Safe(v.files) && (Goal(v.files, c) == before || Goal(v.files, c) == offered)
  {
    hide RollbackPending, Update, Lifetimes;
    if plan.guest.MoveTo? {
      UpdateKeepsSafe(o, w2, Guest, plan.guest.release);
    }
    var (w3, guestOk) := Apply(o, w2, Guest, plan.guest);
    if guestOk {
      LifetimesSettle(o, w3, !runtimeOk, plan.boots, c, before, offered);
    }
  }

  // ---- Runs ------------------------------------------------------------------------

  function Run(o: Oracle, w: Disk, plans: seq<Plan>): Disk
    decreases |plans|
  {
    if plans == [] then w else Run(o, Launch(o, w, plans[0]), plans[1..])
  }

  predicate AllCovered(o: Oracle, w: Disk, plans: seq<Plan>)
    decreases |plans|
  {
    plans != [] ==> Covered(o, w, plans[0]) && AllCovered(o, Launch(o, w, plans[0]), plans[1..])
  }

  lemma {:induction false} RunKeepsSafe(o: Oracle, w: Disk, plans: seq<Plan>)
    requires Safe(w.files) && AllCovered(o, w, plans)
    ensures Safe(Run(o, w, plans).files)
    decreases |plans|
  {
    if plans != [] {
      hide Launch, Covered;
      LaunchKeepsSafe(o, w, plans[0]);
      RunKeepsSafe(o, Launch(o, w, plans[0]), plans[1..]);
    }
  }

  /** All or nothing. A launch that updates either component and never sees the
      guest report ready leaves no trace once a later recovery gets through,
      wherever the launch died and however many recoveries were cut short. */
  lemma UnconfirmedUpdateIsUndone(o: Oracle, w: Disk, plan: Plan, n: nat, last: Oracle)
    requires Safe(w.files) && StateFile !in w.files && NoStalePrevious(w.files)
    requires OneVersion(plan) && !AnyReady(plan.boots)
    ensures var (v, r) := RollbackPending(last, Recoveries(o, Launch(o, w, plan), n).Restart());
      && (Healthy(last) ==> r.Recovered?)
      && (r.Recovered? ==>
            && StateFile !in v.files && NoStalePrevious(v.files)
            && Same(w.files, v.files, Current(Guest)) && Same(w.files, v.files, Current(Runtime)))
  {
    hide Launch, RollbackPending, Recoveries;
    LaunchKeepsSafe(o, w, plan);
    RecoveryConverges(o, Launch(o, w, plan), n, last);
    RecoveriesKeepGoals(o, Launch(o, w, plan), n);
    RecoveryKeepsGoals(last, Recoveries(o, Launch(o, w, plan), n).Restart());
  }

  /** On a healthy disk an update of both components that boots is permanent:
      the new trees are current, and nothing is left that recovery would undo. */
  lemma ConfirmedUpdateIsPermanent(o: Oracle, w: Disk, plan: Plan)
    requires Safe(w.files) && StateFile !in w.files && NoStalePrevious(w.files) && Healthy(o)
    requires plan.runtime.MoveTo? && plan.guest.MoveTo? && OneVersion(plan) && plan.boots == [Boot(false, true)]
    ensures var v := Launch(o, w, plan);
      && StateFile !in v.files && Safe(v.files) && NoStalePrevious(v.files)
      && v.files[Current(Runtime)] == Tree(plan.runtime.release.name, true)
      && v.files[Current(Guest)] == Tree(plan.guest.release.name, true)
  {
    hide RollbackPending, Update, CommitAll;
    var w1 := RollbackPending(o, w.Restart()).0;
    RecoveryKeepsGoals(o, w.Restart());
    UpdateKeepsSafe(o, w1, Runtime, plan.runtime.release);
    var w2 := Update(o, w1, Runtime, plan.runtime.release).0;
    UpdateKeepsSafe(o, w2, Guest, plan.guest.release);
    var w3 := Update(o, w2, Guest, plan.guest.release).0;
    assert Launch(o, w, plan) == Lifetimes(o, w3, false, plan.boots);
    CommitAllKeepsSafe(o, w3);
    assert plan.boots[1..] == [];
    assert Lifetimes(o, w3, false, plan.boots) == Lifetimes(o, CommitAll(o, w3), false, []);
  }

  /** On a healthy disk an engine update whose first start fails ends with the old
      engine current, whatever becomes of the guest. */
  lemma FailedEngineStartIsUndone(o: Oracle, w: Disk, plan: Plan, ready: bool)
    requires Safe(w.files) && StateFile !in w.files && NoStalePrevious(w.files) && Healthy(o)
    requires plan.runtime.MoveTo? && OneVersion(plan) && plan.boots == [Boot(true, ready)]
    ensures var v := Launch(o, w, plan);
      && Safe(v.files) && !PendingIn(v.files, Runtime) && Previous(Runtime) !in v.files
      && Same(w.files, v.files, Current(Runtime))
  {
    hide RollbackPending, Update, CommitAll, RollbackPendingRuntime;
    var w1 := RollbackPending(o, w.Restart()).0;
    RecoveryKeepsGoals(o, w.Restart());
    UpdateKeepsSafe(o, w1, Runtime, plan.runtime.release);
    var w2 := Update(o, w1, Runtime, plan.runtime.release).0;
    if plan.guest.MoveTo? {
      UpdateKeepsSafe(o, w2, Guest, plan.guest.release);
    }
    var (w3, guestOk) := Apply(o, w2, Guest, plan.guest);
    assert plan.boots[1..] == [];
    EnginePendingStays(o, w2, plan.guest);
    RollbackPendingRuntimeSucceedsIff(o, w3);
    RollbackPendingRuntimeKeepsGoals(o, w3);
    var w4 := RollbackPendingRuntime(o, w3).0;
    CommitAllKeepsSafe(o, w4);
    CommitOfGuestOnly(o, w4);
    assert Launch(o, w, plan) == Lifetimes(o, w3, false, plan.boots);
    assert Lifetimes(o, w3, false, plan.boots) == if ready then CommitAll(o, w4) else w4;
  }

  /** Updating the guest under the same version leaves the engine's flag and trees alone. */
  lemma EnginePendingStays(o: Oracle, w: Disk, choice: Choice)
    requires Safe(w.files) && w.alive && Healthy(o) && PendingIn(w.files, Runtime) && Current(Guest) in w.files && !PendingIn(w.files, Guest)
    requires choice.MoveTo? ==> ReadState(w.files).state.version == choice.release.version
    ensures var v := Apply(o, w, Guest, choice).0;
      PendingIn(v.files, Runtime) && Same(w.files, v.files, Previous(Runtime)) && Same(w.files, v.files, Current(Runtime))
  {
    hide Publish, Stage, PublishReaches;
    if choice.MoveTo? {
      var r := choice.release;
      StageOutcome(o, w, Guest, r);
      var (w1, staged) := Stage(o, w, Guest, r);
      StagingChangesNothingElse(w.files, w1.files, Guest);
      var (w2, recorded) := RecordUpdate(o, w1, r.version, Guest);
      assert Current(Guest) in w2.files && w2.files[Current(Guest)].Tree?;
      PublishOutcome(o, w2, Guest);
      PublishTouchesItsOwn(w2.files, Publish(o, w2, Guest).0.files, Publish(o, w2, Guest).1);
    }
  }

  lemma PublishTouchesItsOwn(f: Files, g: Files, ok: bool)
    requires Current(Guest) in f && PublishReaches(f, g, Guest, ok)
    ensures Same(f, g, StateFile) && Same(f, g, Previous(Runtime)) && Same(f, g, Current(Runtime))
  {
  }

  lemma CommitOfGuestOnly(o: Oracle, w: Disk)
    requires !PendingIn(w.files, Runtime)
    ensures var v := CommitAll(o, w);
      Same(w.files, v.files, Current(Runtime)) && Same(w.files, v.files, Previous(Runtime)) && !PendingIn(v.files, Runtime)
  {
  }

  // ---- Where the guarantees end ------------------------------------------------------

  /** A commit is safe exactly when the component's own tree is there to be
      kept, or neither of the commit's two calls gets through. */
  lemma CommitIsSafeIff(o: Oracle, w: Disk, c: Component)
    requires Safe(w.files) && PendingIn(w.files, c) && w.alive
    ensures Safe(Commit(o, w, c).files) <==>
            Current(c) in w.files || (o(w.clock) != Works && (o(w.clock) == Dies || o(w.clock + 1) != Works))
  {
    if Current(c) in w.files {
      CommitOutcome(o, w, c);
      CommitKeepsSafe(w.files, Commit(o, w, c).files, c);
    } else {
      var w1 := w.Remove(o, Previous(c)).0;
      assert w1.files == if o(w.clock) == Works then w.files - {Previous(c)} else w.files;
    }
  }

  /** Deleting a tree is one step in this model. If it is not, a previous tree
      that a commit was deleting when the process died counts as the tree to go
      back to: rollback ends with a whole tree exactly when that one is whole. */
  lemma RollbackRestoresWholeTreeIff(o: Oracle, w: Disk, c: Component)
    requires w.alive && Healthy(o)
    ensures var g := Rollback(o, w, c).0.files;
      (Current(c) in g && Whole(g, Current(c))) <==>
      (if Previous(c) in w.files then Whole(w.files, Previous(c)) else Current(c) in w.files && Whole(w.files, Current(c)))
  {
    hide Rollback;
    RollbackOutcome(o, w, c);
    RollbackSucceedsWhenHealthy(o, w, c);
  }

  // ---- The operations as the launcher runs them ----------------------------------------

  method PublishDirectoryUpdate(m: Machine<Path, Content>, c: Component) returns (ok: bool)
    modifies m
    ensures (m.View(), ok) == Publish(m.oracle, old(m.View()), c)
  {
    var removed := m.Remove(Previous(c));
    if !removed {
      return false;
    }
    var hadCurrent := false;
    var current := m.Stat(Current(c));
    if current.Present? {
      if !m.files[Current(c)].Tree? {
        return false;
      }
      var kept := m.RenameDirWithRetry(Current(c), Previous(c));
      if !kept {
        return false;
      }
      hadCurrent := true;
    } else if current.Unreadable? {
      return false;
    }
    ok := m.RenameDirWithRetry(Staged(c), Current(c));
    if !ok && hadCurrent {
      var _ := m.RenameDirWithRetry(Previous(c), Current(c));
    }
  }

  method RollbackDirectoryUpdate(m: Machine<Path, Content>, c: Component) returns (ok: bool)
    modifies m
    ensures (m.View(), ok) == Rollback(m.oracle, old(m.View()), c)
  {
    var previous := m.Stat(Previous(c));
    if previous.Absent? {
      return true;
    } else if previous.Unreadable? {
      return false;
    }
    var _ := m.Remove(Discarded(c));
    var current := m.Stat(Current(c));
    if current.Present? {
      var moved := m.RenameDirWithRetry(Current(c), Discarded(c));
      if !moved {
        return false;
      }
    } else if current.Unreadable? {
      return false;
    }
    ok := m.RenameDirWithRetry(Previous(c), Current(c));
    if !ok {
      var _ := m.RenameDirWithRetry(Discarded(c), Current(c));
      return;
    }
    var _ := m.Remove(Discarded(c));
  }

  method RecordPayloadUpdate(m: Machine<Path, Content>, version: string, c: Component) returns (ok: bool)
    modifies m
    ensures (m.View(), ok) == RecordUpdate(m.oracle, old(m.View()), version, c)
  {
    var read := ReadState(m.files);
    var state := UpdateState(version, false, false, false);
    if read.Valid? && read.state.version == version {
      state := read.state;
    }
    state := state.(guestPending := state.guestPending || c.Guest?);
    state := state.(runtimePending := state.runtimePending || c.Runtime?);
    state := state.(started := true);
    ok := m.Replace(StateFile, Record(state));
  }

  method RollbackPendingPayloadUpdates(m: Machine<Path, Content>) returns (r: Recovery)
    modifies m
    ensures (m.View(), r) == RollbackPending(m.oracle, old(m.View()))
  {
    var read := ReadState(m.files);
    if read.Invalid? {
      return RecoveryFailed;
    }
    if read.NoState? {
      return Recovered(false);
    }
    var state := read.state;
    if !state.started {
      state := state.(started := true);
      var written := m.Replace(StateFile, Record(state));
      return if written then Recovered(false) else RecoveryFailed;
    }
    var rolledBack := false;
    if state.guestPending {
      var ok := RollbackDirectoryUpdate(m, Guest);
      if !ok {
        return RecoveryFailed;
      }
      rolledBack := true;
    }
    if state.runtimePending {
      var ok := RollbackDirectoryUpdate(m, Runtime);
      if !ok {
        return RecoveryFailed;
      }
      rolledBack := true;
    }
    var removed := m.Remove(StateFile);
    return if removed then Recovered(rolledBack) else RecoveryFailed;
  }

  method CommitPayloadUpdate(m: Machine<Path, Content>, c: Component)
    modifies m
    ensures m.View() == Commit(m.oracle, old(m.View()), c)
  {
    var read := ReadState(m.files);
    if !read.Valid? || !read.state.Pending(c) {
      return;
    }
    var state := read.state;
    var _ := m.Remove(Previous(c));
    state := state.Clear(c);
    if state.Pending(Other(c)) {
      var _ := m.Replace(StateFile, Record(state));
      return;
    }
    var _ := m.Remove(StateFile);
  }

  method RollbackPendingRuntimeUpdate(m: Machine<Path, Content>) returns (ok: bool)
    modifies m
    ensures (m.View(), ok) == RollbackPendingRuntime(m.oracle, old(m.View()))
  {
    var read := ReadState(m.files);
    if !read.Valid? || !read.state.runtimePending {
      return false;
    }
    var state := read.state;
    ok := RollbackDirectoryUpdate(m, Runtime);
    if !ok {
      return false;
    }
    state := state.(runtimePending := false);
    if !state.guestPending {
      ok := m.Remove(StateFile);
    } else {
      ok := m.Replace(StateFile, Record(state));
    }
  }
}
