// Updating the launcher itself (update_windows.go, update_state.go,
// launcher_files.go). A staged launcher backs up the installed one, records
// that it did, and takes its place; the record makes the second unconfirmed
// start of the new launcher run the backup, which puts itself back.
module LauncherUpdate {
  import opened FaultyFs

  type Version = nat

  datatype Path = Stable | Previous | Staged(version: Version) | Marker | Part(of: Path)

  datatype Record = Record(version: Version, exe: Content, started: bool, hasPrevious: bool)

  datatype Content = Exe(version: Version, complete: bool) | State(record: Record)

  type Files = map<Path, Content>

  type Disk = World<Path, Content>

  datatype Read = NoRecord | Valid(record: Record) | Damaged

  function ReadRecord(f: Files): Read {
    if Marker !in f then NoRecord
    else if f[Marker].State? then Valid(f[Marker].record)
    else Damaged
  }

  // ---- What the code does ------------------------------------------------------------

  // Copying into the sibling staging name: complete, or absent after a failure,
  // or partial where the process died.
  function CopyBytes(o: Oracle, w: Disk, from: Path, part: Path): (Disk, bool) {
    if from !in w.files then (w, false)
    else if w.Permits(o) then (w.Tick(o).(files := w.files[part := w.files[from]]), true)
    else if w.Tick(o).alive || !w.alive then (w.Tick(o).(files := if w.alive then w.files - {part} else w.files), false)
    else (w.Tick(o).(files := w.files[part := Exe(0, false)]), false)
  }

  function CopyLauncher(o: Oracle, w: Disk, from: Path, to: Path): (Disk, bool) {
    if from !in w.files then (w, false)
    else if from == to then (w, true)
    else
      var (w, cleared) := w.Remove(o, Part(to));
      if !cleared then (w, false) else
      var (w, copied) := CopyBytes(o, w, from, Part(to));
      if !copied then (w, false) else
      var (w, replaced) := w.RenameFile(o, Part(to), to);
      if replaced then (w, true) else (w.Remove(o, Part(to)).0, false)
  }

  function ClearMarker(o: Oracle, w: Disk): (Disk, bool) {
    var (w, removed) := w.Remove(o, Marker);
    if !removed then (w, false) else w.Remove(o, Part(Marker))
  }

  function ClearState(o: Oracle, w: Disk): (Disk, bool) {
    var (w, cleared) := ClearMarker(o, w);
    if !cleared then (w, false) else w.Remove(o, Previous)
  }

  /** The staged launcher at work; the last step starts what it installed. */
  function ApplyUpdate(o: Oracle, w: Disk, self: Path): (Disk, bool) {
    var read := ReadRecord(w.files);
    if !read.Valid? || self !in w.files || w.files[self] != read.record.exe then (w, false)
    else
      var hasPrevious := Stable in w.files || read.record.hasPrevious;
      var (w, saved) := if Stable in w.files then CopyLauncher(o, w, Stable, Previous) else (w, true);
      if !saved then (w, false) else
      var (w, recorded) := w.Replace(o, Marker, State(read.record.(hasPrevious := hasPrevious)));
      if !recorded then (w, false) else
      var (w, installed) := CopyLauncher(o, w, self, Stable);
      if !installed then
        var w := if hasPrevious then CopyLauncher(o, w, Previous, Stable).0 else w;
        (ClearMarker(o, w).0, false)
      else
        var (w, startedIt) := w.Check(o);
        if startedIt then (w, true) else (CopyLauncher(o, w, Previous, Stable).0, false)
  }

  /** The backed-up launcher at work. */
  function ApplyRollback(o: Oracle, w: Disk): (Disk, bool) {
    var (w, restored) := CopyLauncher(o, w, Previous, Stable);
    if !restored then (w, false) else
    var (w, cleared) := ClearMarker(o, w);
    if !cleared then (w, false) else w.Check(o)
  }

  datatype Decision = GoOn | HandOver

  // A failure to record or to start the backup is logged, and the launch goes on.
  function Recover(o: Oracle, w: Disk, current: Version): (Disk, Decision) {
    match ReadRecord(w.files)
    case Damaged => (ClearState(o, w).0, GoOn)
    case NoRecord => (w, GoOn)
    case Valid(record) =>
      if record.version != current then (w, GoOn)
      else if !record.started then (w.Replace(o, Marker, State(record.(started := true))).0, GoOn)
      else if !record.hasPrevious then (ClearState(o, w).0, GoOn)
      else
        var (w, startedIt) := w.Check(o);
        (w, if startedIt && Previous in w.files then HandOver else GoOn)
  }

  function Commit(o: Oracle, w: Disk, current: Version): Disk {
    var read := ReadRecord(w.files);
    if !read.Valid? || read.record.version != current then w
    else
      var (w, cleared) := ClearState(o, w);
      if !cleared then w else w.Remove(o, Staged(current)).0
  }

  // Downloading is verified before the staging name is used; the record then
  // names a launcher that has not been installed yet.
  function StartUpdate(o: Oracle, w: Disk, version: Version): (Disk, bool) {
    var (w, staged) := w.Replace(o, Staged(version), Exe(version, true));
    if !staged then (w, false) else
    var (w, recorded) := w.Replace(o, Marker, State(Record(version, Exe(version, true), false, false)));
    if !recorded then (w, false) else w.Check(o)
  }

  /** What a launch that goes on finds: a newer release or not, a guest that gets ready or not. */
  datatype Plan = Plan(offered: Version, ready: bool)

  function GoOnLaunch(o: Oracle, w: Disk, current: Version, plan: Plan): Disk {
    var (w, updating) := if plan.offered > current then StartUpdate(o, w, plan.offered) else (w, false);
    if updating then ApplyUpdate(o, w.Restart(), Staged(plan.offered)).0
    else if plan.ready then Commit(o, w, current)
    else w
  }

  function Launch(o: Oracle, w: Disk, plan: Plan): Disk {
    if Stable !in w.files || !w.files[Stable].Exe? then w
    else
      var current := w.files[Stable].version;
      var (w, decision) := Recover(o, w.Restart(), current);
      if decision.HandOver? then ApplyRollback(o, w.Restart()).0 else GoOnLaunch(o, w, current, plan)
  }

  // ---- What holds at every point ---------------------------------------------------------

  predicate Whole(f: Files, p: Path) {
    p in f && f[p].Exe? && f[p].complete
  }

  /** The record names the launcher that is installed now. */
  predicate Named(f: Files)
    requires Whole(f, Stable)
  {
    ReadRecord(f).Valid? && ReadRecord(f).record.version == f[Stable].version
  }

  /** `back` is the launcher that the installed one replaced. */
  ghost predicate Recoverable(f: Files, back: Content) {
    && Whole(f, Stable)
    && (Previous in f ==> Whole(f, Previous))
    && (forall v :: Staged(v) in f ==> f[Staged(v)] == Exe(v, true))
    && (Marker in f ==> f[Marker].State? && f[Marker].record.exe == Exe(f[Marker].record.version, true))
    && (Named(f) ==>
          && ReadRecord(f).record.hasPrevious
          && Previous in f && f[Previous] == back && back.version < f[Stable].version)
  }

  /** Equal but for the staging names of copies. */
  ghost predicate SameVisible(f: Files, g: Files) {
    forall p: Path :: !p.Part? ==> Same(f, g, p)
  }

  lemma VisibleKeepsRecoverable(f: Files, g: Files, back: Content)
    requires Recoverable(f, back) && SameVisible(f, g)
    ensures Recoverable(g, back)
  {
    assert Same(f, g, Stable) && Same(f, g, Previous) && Same(f, g, Marker);
    assert forall v :: Same(f, g, Staged(v));
  }

  lemma VisibleTransitive(f: Files, g: Files, h: Files)
    requires SameVisible(f, g) && SameVisible(g, h)
    ensures SameVisible(f, h)
  {
    forall p: Path | !p.Part? ensures Same(f, h, p) {
      assert Same(f, g, p) && Same(g, h, p);
    }
  }

  /** A copy replaces its target by the whole source, or leaves it alone. */
  lemma CopyOutcome(o: Oracle, w: Disk, from: Path, to: Path)
    requires !from.Part? && !to.Part? && from != to
    ensures var (v, ok) := CopyLauncher(o, w, from, to);
      && (ok ==> from in w.files && v.alive && SameVisible(w.files[to := w.files[from]], v.files))
      && (!ok ==> SameVisible(w.files, v.files))
      && (w.alive && Healthy(o) && from in w.files ==> ok)
  {
    hide SameVisible;
    var (w1, cleared) := w.Remove(o, Part(to));
    PartIsInvisible(w.files, w1.files, to);
    if from in w.files && cleared {
      var (w2, copied) := CopyBytes(o, w1, from, Part(to));
      PartIsInvisible(w.files, w2.files, to);
      if copied {
        var (w3, replaced) := w2.RenameFile(o, Part(to), to);
        if replaced {
          assert w3.files == (w2.files - {Part(to)})[to := w.files[from]];
          PartIsInvisible(w.files[to := w.files[from]], w3.files, to);
        } else {
          PartIsInvisible(w.files, w3.Remove(o, Part(to)).0.files, to);
        }
      }
    } else {
      SameVisibleReflexive(w.files);
    }
  }

  lemma PartIsInvisible(f: Files, g: Files, to: Path)
    requires f - {Part(to)} == g - {Part(to)}
    ensures SameVisible(f, g)
  {
    forall p: Path | !p.Part? ensures Same(f, g, p) {
      assert p in f <==> p in f - {Part(to)};
      assert p in g <==> p in g - {Part(to)};
    }
  }

  lemma ClearMarkerOutcome(o: Oracle, w: Disk)
    ensures var (v, ok) := ClearMarker(o, w);
      && (SameVisible(w.files, v.files) || SameVisible(w.files - {Marker}, v.files))
      && (ok ==> v.alive && SameVisible(w.files - {Marker}, v.files))
      && (w.alive && Healthy(o) ==> ok)
  {
  }

  // ---- Installing, rolling back, confirming --------------------------------------------------

  function Saved(f: Files): Files
    requires Stable in f
  {
    f[Previous := f[Stable]]
  }

  function Recorded(f: Files): Files
    requires Stable in f && ReadRecord(f).Valid?
  {
    Saved(f)[Marker := State(ReadRecord(f).record.(hasPrevious := true))]
  }

  function Installed(f: Files, version: Version): Files
    requires Stable in f && ReadRecord(f).Valid?
  {
    Recorded(f)[Stable := Exe(version, true)]
  }

  /** Where an application can stop: before or after the backup, before or after
      the record, installed, or with the record withdrawn. */
  ghost predicate ApplyReaches(f: Files, g: Files, version: Version, ok: bool)
    requires Stable in f && ReadRecord(f).Valid?
  {
    || SameVisible(Installed(f, version), g)
    || (!ok && (SameVisible(f, g) || SameVisible(Saved(f), g) || SameVisible(Recorded(f), g)
                || SameVisible(Recorded(f) - {Marker}, g)))
  }

  lemma ApplyUpdateOutcome(o: Oracle, w: Disk, version: Version)
    requires Stable in w.files && ReadRecord(w.files).Valid?
    requires Staged(version) in w.files && w.files[Staged(version)] == ReadRecord(w.files).record.exe == Exe(version, true)
    ensures var (v, ok) := ApplyUpdate(o, w, Staged(version));
      ApplyReaches(w.files, v.files, version, ok) && (w.alive && Healthy(o) ==> ok)
  {
    hide CopyLauncher, ClearMarker, SameVisible;
    var f, self := w.files, Staged(version);
    SameVisibleReflexive(f);
    CopyOutcome(o, w, Stable, Previous);
    var (w1, saved) := CopyLauncher(o, w, Stable, Previous);
    if saved {
      var mark := State(ReadRecord(f).record.(hasPrevious := true));
      var (w2, recorded) := w1.Replace(o, Marker, mark);
      if recorded {
        VisibleUpdate(Saved(f), w1.files, Marker, mark);
        VisibleReads(Recorded(f), w2.files, self);
        VisibleReads(Recorded(f), w2.files, Previous);
        InstallOutcome(o, f, w2, version);
        var (w3, installed) := CopyLauncher(o, w2, self, Stable);
        if w.alive && Healthy(o) {
          assert installed && w3.Permits(o);
        }
      }
    }
  }

  lemma SameVisibleReflexive(f: Files)
    ensures SameVisible(f, f)
  {
  }

  lemma VisibleUpdate(f: Files, g: Files, p: Path, c: Content)
    requires SameVisible(f, g) && !p.Part?
    ensures SameVisible(f[p := c], g[p := c]) && SameVisible(f - {p}, g - {p})
  {
    forall q: Path | !q.Part? ensures Same(f[p := c], g[p := c], q) && Same(f - {p}, g - {p}, q) {
      assert Same(f, g, q);
    }
  }

  lemma VisibleReads(f: Files, g: Files, p: Path)
    requires SameVisible(f, g) && !p.Part?
    ensures Same(f, g, p)
  {
  }

  /** The last stretch of an application, with backup and record in place. */
  lemma InstallOutcome(o: Oracle, f: Files, w: Disk, version: Version)
    requires Stable in f && ReadRecord(f).Valid? && SameVisible(Recorded(f), w.files)
    requires Staged(version) in w.files && w.files[Staged(version)] == Exe(version, true)
    ensures var (w1, installed) := CopyLauncher(o, w, Staged(version), Stable);
      && (!installed ==>
            var w2 := CopyLauncher(o, w1, Previous, Stable).0;
            ApplyReaches(f, ClearMarker(o, w2).0.files, version, false))
      && (installed ==>
            && ApplyReaches(f, w1.files, version, true)
            && ApplyReaches(f, CopyLauncher(o, w1.Check(o).0, Previous, Stable).0.files, version, false))
      && (w.alive && Healthy(o) ==> installed && w1.alive)
  {
    hide CopyLauncher, ClearMarker, SameVisible;
    CopyOutcome(o, w, Staged(version), Stable);
    var (w1, installed) := CopyLauncher(o, w, Staged(version), Stable);
    if installed {
      VisibleUpdate(Recorded(f), w.files, Stable, Exe(version, true));
      VisibleTransitive(Installed(f, version), w.files[Stable := Exe(version, true)], w1.files);
      PutBack(o, f, w1.Check(o).0, version);
    } else {
      VisibleTransitive(Recorded(f), w.files, w1.files);
      PutBack(o, f, w1, version);
      var w2 := CopyLauncher(o, w1, Previous, Stable).0;
      assert SameVisible(Recorded(f), w2.files);
      ClearMarkerOutcome(o, w2);
      var w3 := ClearMarker(o, w2).0;
      VisibleUpdate(Recorded(f), w2.files, Marker, Exe(0, true));
      if SameVisible(w2.files, w3.files) {
        VisibleTransitive(Recorded(f), w2.files, w3.files);
      } else {
        VisibleTransitive(Recorded(f) - {Marker}, w2.files - {Marker}, w3.files);
      }
    }
  }

  /** Copying the backup over the installed launcher undoes the installation only. */
  lemma PutBack(o: Oracle, f: Files, w: Disk, version: Version)
    requires Stable in f && ReadRecord(f).Valid?
    requires SameVisible(Recorded(f), w.files) || SameVisible(Installed(f, version), w.files)
    ensures var v := CopyLauncher(o, w, Previous, Stable).0;
      && (SameVisible(Recorded(f), v.files) || SameVisible(Installed(f, version), v.files))
      && (SameVisible(Recorded(f), w.files) ==> SameVisible(Recorded(f), v.files))
  {
    hide CopyLauncher, SameVisible;
    CopyOutcome(o, w, Previous, Stable);
    var (v, ok) := CopyLauncher(o, w, Previous, Stable);
    var before := if SameVisible(Recorded(f), w.files) then Recorded(f) else Installed(f, version);
    VisibleReads(before, w.files, Previous);
    if ok {
      VisibleUpdate(before, w.files, Stable, f[Stable]);
      assert before[Stable := f[Stable]] == Recorded(f);
      VisibleTransitive(Recorded(f), w.files[Stable := f[Stable]], v.files);
    } else {
      VisibleTransitive(before, w.files, v.files);
    }
  }

  /** An interrupted application leaves the old launcher, or the new one with its backup named. */
  lemma ApplyKeepsRecoverable(f: Files, g: Files, version: Version, ok: bool, back: Content)
    requires Recoverable(f, back) && f[Stable].version < version
    requires ReadRecord(f).Valid? && ReadRecord(f).record.version == version
    requires ApplyReaches(f, g, version, ok)
    ensures || (Same(f, g, Stable) && Recoverable(g, back) && !Named(g) && !ok)
            || (Stable in g && g[Stable] == Exe(version, true) && Recoverable(g, f[Stable]) && Named(g))
  {
    hide SameVisible;
    if SameVisible(Installed(f, version), g) {
      VisibleReads(Installed(f, version), g, Marker);
      VisibleReads(Installed(f, version), g, Stable);
      VisibleKeepsRecoverable(Installed(f, version), g, f[Stable]);
    } else {
      var h := if SameVisible(f, g) then f else if SameVisible(Saved(f), g) then Saved(f)
               else if SameVisible(Recorded(f), g) then Recorded(f) else Recorded(f) - {Marker};
      VisibleReads(h, g, Stable);
      VisibleReads(h, g, Marker);
      VisibleKeepsRecoverable(h, g, back);
    }
  }

  lemma RollbackOutcome(o: Oracle, w: Disk, back: Content)
    requires Recoverable(w.files, back) && Named(w.files)
    ensures var (v, ok) := ApplyRollback(o, w);
      && ((SameVisible(w.files, v.files) && !ok)
          || (Stable in v.files && v.files[Stable] == back && Recoverable(v.files, back) && !Named(v.files)))
      && (ok ==> Marker !in v.files)
      && (w.alive && Healthy(o) ==> ok)
  {
    hide CopyLauncher, ClearMarker, SameVisible;
    CopyOutcome(o, w, Previous, Stable);
    var (w1, restored) := CopyLauncher(o, w, Previous, Stable);
    if restored {
      var f := w.files[Stable := back];
      ClearMarkerOutcome(o, w1);
      var (w2, cleared) := ClearMarker(o, w1);
      VisibleUpdate(f, w1.files, Marker, back);
      var gone := cleared || !SameVisible(w1.files, w2.files);
      var g := if gone then f - {Marker} else f;
      if gone {
        VisibleTransitive(f - {Marker}, w1.files - {Marker}, w2.files);
      } else {
        VisibleTransitive(f, w1.files, w2.files);
      }
      VisibleKeepsRecoverable(g, w2.files, back);
      VisibleReads(g, w2.files, Stable);
      VisibleReads(g, w2.files, Marker);
      if w.alive && Healthy(o) {
        assert w2.Permits(o);
      }
    }
  }

  lemma ClearStateKeepsRecoverable(o: Oracle, w: Disk, back: Content)
    requires Recoverable(w.files, back)
    ensures var (v, ok) := ClearState(o, w);
      && Recoverable(v.files, back) && Same(w.files, v.files, Stable)
      && (ok ==> v.alive && Marker !in v.files && Previous !in v.files)
      && (w.alive && Healthy(o) ==> ok)
  {
    hide ClearMarker, SameVisible;
    ClearMarkerOutcome(o, w);
    var (w1, cleared) := ClearMarker(o, w);
    var g := if cleared || !SameVisible(w.files, w1.files) then w.files - {Marker} else w.files;
    VisibleReads(g, w1.files, Stable);
    VisibleReads(g, w1.files, Marker);
    VisibleKeepsRecoverable(g, w1.files, back);
  }

  /** Handing over to the backup happens exactly for a started record of the
      installed launcher, unless starting the backup fails. */
  lemma RecoverOutcome(o: Oracle, w: Disk, back: Content)
    requires Recoverable(w.files, back) && w.alive
    ensures var (v, decision) := Recover(o, w, w.files[Stable].version);
      && Recoverable(v.files, back) && Same(w.files, v.files, Stable)
      && (decision.HandOver? ==> v.files == w.files && Named(w.files) && ReadRecord(w.files).record.started)
      && (!Named(w.files) ==> v == w && decision.GoOn?)
      && (Healthy(o) ==>
            && (decision.HandOver? <==> Named(w.files) && ReadRecord(w.files).record.started)
            && (Named(w.files) && !ReadRecord(w.files).record.started ==>
                  Named(v.files) && ReadRecord(v.files).record.started && Same(w.files, v.files, Previous)))
  {
  }

  lemma CommitKeepsRecoverable(o: Oracle, w: Disk, back: Content)
    requires Recoverable(w.files, back)
    ensures var v := Commit(o, w, w.files[Stable].version);
      && Recoverable(v.files, back) && Same(w.files, v.files, Stable)
      && (w.alive && Healthy(o) && Named(w.files) ==> Marker !in v.files && Previous !in v.files)
  {
    hide ClearState;
    ClearStateKeepsRecoverable(o, w, back);
  }

  lemma StartUpdateKeepsRecoverable(o: Oracle, w: Disk, version: Version, back: Content)
    requires Recoverable(w.files, back) && w.files[Stable].version < version
    ensures var (v, ok) := StartUpdate(o, w, version);
      && Recoverable(v.files, back) && Same(w.files, v.files, Stable)
      && (ok ==>
            && Staged(version) in v.files && ReadRecord(v.files).Valid? && ReadRecord(v.files).record.version == version
            && !Named(v.files))
      && (w.alive && Healthy(o) ==> ok)
  {
  }

  /** The launcher that the installed one replaced, after a launch. */
  function BackAfter(f: Files, g: Files, back: Content): Content
    requires Whole(f, Stable) && Whole(g, Stable)
  {
    if f[Stable].version < g[Stable].version then f[Stable] else back
  }

  lemma GoOnLaunchKeepsRecoverable(o: Oracle, w: Disk, plan: Plan, back: Content)
    requires Recoverable(w.files, back)
    ensures var v := GoOnLaunch(o, w, w.files[Stable].version, plan);
      && Whole(v.files, Stable) && Recoverable(v.files, BackAfter(w.files, v.files, back))
      && (v.files[Stable] == w.files[Stable]
          || (plan.offered > w.files[Stable].version && v.files[Stable] == Exe(plan.offered, true) && Named(v.files)))
  {
    hide StartUpdate, ApplyUpdate, Commit, ApplyReaches;
    var current := w.files[Stable].version;
    if plan.offered > current {
      StartUpdateKeepsRecoverable(o, w, plan.offered, back);
    }
    var (w1, updating) := if plan.offered > current then StartUpdate(o, w, plan.offered) else (w, false);
    if updating {
      ApplyUpdateOutcome(o, w1.Restart(), plan.offered);
      var (v, ok) := ApplyUpdate(o, w1.Restart(), Staged(plan.offered));
      ApplyKeepsRecoverable(w1.files, v.files, plan.offered, ok, back);
    } else if plan.ready {
      CommitKeepsRecoverable(o, w1, back);
    }
  }

  /** Whatever fails and wherever the launch dies: the installed launcher is a
      complete one, the same as before, the offered one, or the one that was
      replaced; and if the record names it, the backup is what it replaced. */
  lemma LaunchKeepsRecoverable(o: Oracle, w: Disk, plan: Plan, back: Content)
    requires Recoverable(w.files, back)
    ensures var v := Launch(o, w, plan);
      && Whole(v.files, Stable) && Recoverable(v.files, BackAfter(w.files, v.files, back))
      && (v.files[Stable] == w.files[Stable] || (Named(w.files) && v.files[Stable] == back)
          || (plan.offered > w.files[Stable].version && v.files[Stable] == Exe(plan.offered, true)))
  {
    hide Recover, ApplyRollback, GoOnLaunch;
    RecoverOutcome(o, w.Restart(), back);
    var (w1, decision) := Recover(o, w.Restart(), w.files[Stable].version);
    if decision.HandOver? {
      RollbackOutcome(o, w1.Restart(), back);
      var v := ApplyRollback(o, w1.Restart()).0;
      if SameVisible(w1.files, v.files) {
        VisibleKeepsRecoverable(w1.files, v.files, back);
        VisibleReads(w1.files, v.files, Stable);
      }
    } else {
      GoOnLaunchKeepsRecoverable(o, w1, plan, back);
    }
  }

  function Run(o: Oracle, w: Disk, plans: seq<Plan>): Disk
    decreases |plans|
  {
    if plans == [] then w else Run(o, Launch(o, w, plans[0]), plans[1..])
  }

  /** The launcher that the installed one replaced, after a run: each time a
      newer one got installed, the one before it. */
  ghost function Replaced(o: Oracle, w: Disk, plans: seq<Plan>, back: Content): Content
    requires Recoverable(w.files, back)
    decreases |plans|
  {
    if plans == [] then back
    else
      LaunchKeepsRecoverable(o, w, plans[0], back);
      var v := Launch(o, w, plans[0]);
      Replaced(o, v, plans[1..], BackAfter(w.files, v.files, back))
  }

  /** Over any run: the installed launcher is complete, and if the record names
      it, the saved launcher is the one it replaced. */
  lemma {:induction false} RunKeepsRecoverable(o: Oracle, w: Disk, plans: seq<Plan>, back: Content)
    requires Recoverable(w.files, back)
    ensures Recoverable(Run(o, w, plans).files, Replaced(o, w, plans, back))
    decreases |plans|
  {
    if plans != [] {
      hide Launch, Recoverable;
      LaunchKeepsRecoverable(o, w, plans[0], back);
      var v := Launch(o, w, plans[0]);
      RunKeepsRecoverable(o, v, plans[1..], BackAfter(w.files, v.files, back));
    }
  }

  // ---- An update that is never confirmed -----------------------------------------------------

  /** A launch that is offered nothing and whose guest never gets ready. */
  const IDLE := Plan(0, false)

  /** The new launcher has had its one start, or the old one is back. */
  ghost predicate Spent(f: Files, back: Content) {
    && Recoverable(f, back) && back.Exe?
    && (f[Stable] == back || (Named(f) && ReadRecord(f).record.started))
    && (f[Stable] == back ==> !Named(f))
  }

  ghost predicate IsInstalled(f: Files, exe: Content) {
    Stable in f && f[Stable] == exe
  }

  lemma IdleLaunchKeepsSpent(o: Oracle, w: Disk, back: Content)
    requires Spent(w.files, back)
    ensures var v := Launch(o, w, IDLE);
      && Spent(v.files, back)
      && (Healthy(o) ==> IsInstalled(v.files, back))
  {
    hide Recover, ApplyRollback;
    RecoverOutcome(o, w.Restart(), back);
    var (w1, decision) := Recover(o, w.Restart(), w.files[Stable].version);
    if decision.HandOver? {
      RollbackOutcome(o, w1.Restart(), back);
      var v := ApplyRollback(o, w1.Restart()).0;
      if SameVisible(w1.files, v.files) {
        VisibleKeepsRecoverable(w1.files, v.files, back);
        VisibleReads(w1.files, v.files, Stable);
        VisibleReads(w1.files, v.files, Marker);
      }
    } else {
      RecoverKeepsStarted(o, w.Restart(), back);
    }
  }

  lemma RecoverKeepsStarted(o: Oracle, w: Disk, back: Content)
    requires Recoverable(w.files, back)
    requires w.alive
    requires Named(w.files) ==> ReadRecord(w.files).record.started
    ensures ReadRecord(Recover(o, w, w.files[Stable].version).0.files) == ReadRecord(w.files)
  {
  }

  function Launches(o: Oracle, w: Disk, n: nat): Disk {
    if n == 0 then w else Launch(o, Launches(o, w, n - 1), IDLE)
  }

  lemma {:induction false} LaunchesKeepSpent(o: Oracle, w: Disk, n: nat, back: Content)
    requires Spent(w.files, back)
    ensures Spent(Launches(o, w, n).files, back)
  {
    if n > 0 {
      hide Launch, Spent;
      LaunchesKeepSpent(o, w, n - 1, back);
      IdleLaunchKeepsSpent(o, Launches(o, w, n - 1), back);
    }
  }

  /** A new launcher that is never confirmed runs once. The launch after that
      puts back the one it replaced, and however many such launches fail or are
      cut short in between, the first that gets through does. */
  lemma UnconfirmedLauncherRunsOnce(first: Oracle, o: Oracle, last: Oracle, w: Disk, n: nat, back: Content)
    requires Recoverable(w.files, back) && Named(w.files) && !ReadRecord(w.files).record.started
    requires Healthy(first) && Healthy(last)
    ensures var v := Launch(first, w, IDLE);
      && v.files[Stable] == w.files[Stable] && Spent(v.files, back)
      && IsInstalled(Launch(last, Launches(o, v, n), IDLE).files, back)
  {
    hide Recover;
    RecoverOutcome(first, w.Restart(), back);
    var v := Launch(first, w, IDLE);
    assert Spent(v.files, back);
    LaunchesKeepSpent(o, v, n, back);
    IdleLaunchKeepsSpent(last, Launches(o, v, n), back);
  }

  // ---- Exactly when it is undone ---------------------------------------------------------------

  predicate Started(f: Files) {
    ReadRecord(f).Valid? && ReadRecord(f).record.started
  }

  /** A launch records a newer release over the record of the installed
      launcher: recovery does not hand over, and both writes work. */
  predicate RecordsNewer(o: Oracle, w: Disk, plan: Plan) {
    && Stable in w.files && w.files[Stable].Exe? && plan.offered > w.files[Stable].version
    && (if Started(w.files) then o(w.clock) == Fails else o(w.clock) != Dies)
    && o(w.clock + 1) == Works && o(w.clock + 2) == Works
  }

  /** No launcher older than one version is installed or would be put back. */
  ghost predicate NoWayBack(f: Files, back: Content, version: Version) {
    Recoverable(f, back) && back.Exe? && version <= back.version && version <= f[Stable].version
  }

  lemma LaunchKeepsNoWayBack(o: Oracle, w: Disk, plan: Plan, back: Content, version: Version)
    requires NoWayBack(w.files, back, version)
    ensures Whole(w.files, Stable)
    ensures var v := Launch(o, w, plan); Whole(v.files, Stable) && NoWayBack(v.files, BackAfter(w.files, v.files, back), version)
  {
    hide Launch;
    LaunchKeepsRecoverable(o, w, plan, back);
  }

  /** Whatever later launches are offered, confirm or suffer. */
  lemma {:induction false} RunKeepsNoWayBack(o: Oracle, w: Disk, plans: seq<Plan>, back: Content, version: Version)
    requires NoWayBack(w.files, back, version)
    ensures var v := Run(o, w, plans); Whole(v.files, Stable) && version <= v.files[Stable].version
    decreases |plans|
  {
    if plans != [] {
      hide Launch, NoWayBack;
      LaunchKeepsNoWayBack(o, w, plans[0], back, version);
      var v := Launch(o, w, plans[0]);
      RunKeepsNoWayBack(o, v, plans[1..], BackAfter(w.files, v.files, back), version);
    } else {
      assert Recoverable(w.files, back);
    }
  }

  /** The record keeps one update only. Once a newer one is recorded, no later
      launch puts back what the installed launcher replaced, confirmed or not. */
  lemma NewerRecordSuppressesRollback(o: Oracle, later: Oracle, w: Disk, version: Version, plans: seq<Plan>, back: Content)
    requires Recoverable(w.files, back) && w.files[Stable].version < version && StartUpdate(o, w, version).1
    ensures var v := StartUpdate(o, w, version).0;
      && Recover(later, v, v.files[Stable].version) == (v, GoOn)
      && Whole(Run(later, v, plans).files, Stable)
      && w.files[Stable].version <= Run(later, v, plans).files[Stable].version
  {
    hide Run;
    StartUpdateKeepsRecoverable(o, w, version, back);
    var v := StartUpdate(o, w, version).0;
    assert NoWayBack(v.files, v.files[Stable], w.files[Stable].version);
    RunKeepsNoWayBack(later, v, plans, v.files[Stable], w.files[Stable].version);
  }

  /** What one launch makes of an unconfirmed launcher whose guest does not get
      ready: the way back is lost; or it is put back; or it stays, and is marked
      as started if the first call works. */
  ghost predicate UnconfirmedReaches(o: Oracle, w: Disk, plan: Plan, g: Files, back: Content)
    requires Recoverable(w.files, back)
  {
    if RecordsNewer(o, w, plan) then NoWayBack(g, w.files[Stable], w.files[Stable].version)
    else
      || (Started(w.files) && IsInstalled(g, back) && Recoverable(g, back))
      || (Recoverable(g, back) && g[Stable] == w.files[Stable] && Named(g) && (Started(g) <==> Started(w.files) || o(w.clock) == Works))
  }

  /** Recording a newer release takes two writes; with both, the way back is lost. */
  lemma OfferedLaunch(o: Oracle, w: Disk, plan: Plan, back: Content)
    requires Recoverable(w.files, back) && w.files[Stable].version < plan.offered && !plan.ready
    ensures var g := GoOnLaunch(o, w, w.files[Stable].version, plan).files;
      if w.alive && o(w.clock) == Works && o(w.clock + 1) == Works then NoWayBack(g, w.files[Stable], w.files[Stable].version)
      else Recoverable(g, back) && g[Stable] == w.files[Stable] && ReadRecord(g) == ReadRecord(w.files)
  {
    hide ApplyUpdate, ApplyReaches, Commit;
    StartUpdateKeepsRecoverable(o, w, plan.offered, back);
    var (w1, updating) := StartUpdate(o, w, plan.offered);
    if updating {
      ApplyUpdateOutcome(o, w1.Restart(), plan.offered);
      var (v, ok) := ApplyUpdate(o, w1.Restart(), Staged(plan.offered));
      ApplyKeepsRecoverable(w1.files, v.files, plan.offered, ok, w.files[Stable]);
    }
  }

  lemma UnconfirmedLaunch(o: Oracle, w: Disk, plan: Plan, back: Content)
    requires Recoverable(w.files, back) && Named(w.files) && back.Exe? && !plan.ready
    ensures UnconfirmedReaches(o, w, plan, Launch(o, w, plan).files, back)
  {
    hide ApplyRollback, GoOnLaunch, SameVisible;
    RecoverOutcome(o, w.Restart(), back);
    var (w1, decision) := Recover(o, w.Restart(), w.files[Stable].version);
    if decision.HandOver? {
      RollbackOutcome(o, w1.Restart(), back);
      var v := ApplyRollback(o, w1.Restart()).0;
      if SameVisible(w1.files, v.files) {
        VisibleKeepsRecoverable(w1.files, v.files, back);
        VisibleReads(w1.files, v.files, Stable);
        VisibleReads(w1.files, v.files, Marker);
      }
    } else if plan.offered > w.files[Stable].version {
      OfferedLaunch(o, w1, plan, back);
    } else {
      NothingOffered(o, w1, plan);
    }
  }

  lemma NothingOffered(o: Oracle, w: Disk, plan: Plan)
    requires Stable in w.files && w.files[Stable].Exe? && plan.offered <= w.files[Stable].version && !plan.ready
    ensures GoOnLaunch(o, w, w.files[Stable].version, plan) == w
  {
  }

  /** A run of launches, as long as the launcher that was replaced is not back. */
  ghost function Until(o: Oracle, w: Disk, plans: seq<Plan>, back: Content): Disk
    decreases |plans|
  {
    if plans == [] || IsInstalled(w.files, back) then w else Until(o, Launch(o, w, plans[0]), plans[1..], back)
  }

  /** Some launch of it records a newer release. */
  ghost predicate Forgets(o: Oracle, w: Disk, plans: seq<Plan>, back: Content)
    decreases |plans|
  {
    && plans != [] && !IsInstalled(w.files, back)
    && (RecordsNewer(o, w, plans[0]) || Forgets(o, Launch(o, w, plans[0]), plans[1..], back))
  }

  /** Some launch of it has its first call work: before that the record is not marked as started. */
  ghost predicate Marks(o: Oracle, w: Disk, plans: seq<Plan>, back: Content)
    decreases |plans|
  {
    && plans != [] && !IsInstalled(w.files, back)
    && (o(w.clock) == Works || Marks(o, Launch(o, w, plans[0]), plans[1..], back))
  }

  ghost predicate Unready(plans: seq<Plan>) {
    forall i :: 0 <= i < |plans| ==> !plans[i].ready
  }

  /** The run, and one more launch if that is still needed. */
  ghost function Settled(o: Oracle, last: Oracle, w: Disk, plans: seq<Plan>, back: Content): Disk {
    var v := Until(o, w, plans, back);
    if IsInstalled(v.files, back) then v else Launch(last, v, IDLE)
  }

  lemma {:induction false} UntilKeepsNoWayBack(o: Oracle, last: Oracle, w: Disk, plans: seq<Plan>, b: Content, version: Version, back: Content)
    requires NoWayBack(w.files, b, version) && back.Exe? && back.version < version
    ensures !IsInstalled(Settled(o, last, w, plans, back).files, back)
    decreases |plans|
  {
    hide Launch, NoWayBack;
    assert !IsInstalled(w.files, back) by { RunKeepsNoWayBack(o, w, [], b, version); }
    if plans == [] {
      LaunchKeepsNoWayBack(last, w, IDLE, b, version);
      var v := Launch(last, w, IDLE);
      RunKeepsNoWayBack(o, v, [], BackAfter(w.files, v.files, b), version);
    } else {
      LaunchKeepsNoWayBack(o, w, plans[0], b, version);
      var v := Launch(o, w, plans[0]);
      UntilKeepsNoWayBack(o, last, v, plans[1..], BackAfter(w.files, v.files, b), version, back);
      assert Until(o, w, plans, back) == Until(o, v, plans[1..], back);
    }
  }

  lemma LastLaunchUndoesIff(last: Oracle, w: Disk, back: Content)
    requires Recoverable(w.files, back) && Named(w.files) && Healthy(last)
    ensures IsInstalled(Launch(last, w, IDLE).files, back) <==> Started(w.files)
  {
    hide Recover, ApplyRollback, SameVisible;
    RecoverOutcome(last, w.Restart(), back);
    var (w1, decision) := Recover(last, w.Restart(), w.files[Stable].version);
    if decision.HandOver? {
      RollbackOutcome(last, w1.Restart(), back);
    }
  }

  /** A launcher whose guest never gets ready is undone, by the run or by the
      launch after it, if and only if some launch got to mark its record and none
      recorded a newer release before it was undone. */
  lemma {:induction false} UnconfirmedLauncherIsUndoneIff(o: Oracle, last: Oracle, w: Disk, plans: seq<Plan>, back: Content)
    requires Recoverable(w.files, back) && Named(w.files) && Unready(plans) && Healthy(last)
    ensures IsInstalled(Settled(o, last, w, plans, back).files, back) <==>
            (Started(w.files) || Marks(o, w, plans, back)) && !Forgets(o, w, plans, back)
    decreases |plans|
  {
    hide Launch, RecordsNewer, Started;
    assert back.Exe? && back.version < w.files[Stable].version && !IsInstalled(w.files, back);
    if plans == [] {
      LastLaunchUndoesIff(last, w, back);
    } else {
      var v := Launch(o, w, plans[0]);
      UnconfirmedLaunch(o, w, plans[0], back);
      assert Settled(o, last, w, plans, back) == Settled(o, last, v, plans[1..], back);
      if RecordsNewer(o, w, plans[0]) {
        UntilKeepsNoWayBack(o, last, v, plans[1..], w.files[Stable], w.files[Stable].version, back);
      } else if !IsInstalled(v.files, back) {
        UnconfirmedLauncherIsUndoneIff(o, last, v, plans[1..], back);
      }
    }
  }

  /** In particular a new launcher gets one launch and the next puts the old one
      back, if and only if that one launch marks the record and does not record a
      newer release. */
  lemma UnconfirmedLauncherRunsOnceIff(o: Oracle, last: Oracle, w: Disk, plan: Plan, back: Content)
    requires Recoverable(w.files, back) && Named(w.files) && !ReadRecord(w.files).record.started
    requires !plan.ready && Healthy(last)
    ensures IsInstalled(Launch(last, Launch(o, w, plan), IDLE).files, back) <==>
            && o(w.clock) == Works
            && !(plan.offered > w.files[Stable].version && o(w.clock + 1) == Works && o(w.clock + 2) == Works)
  {
    hide Launch;
    var v := Launch(o, w, plan);
    UnconfirmedLauncherIsUndoneIff(o, last, w, [plan], back);
    UnconfirmedLaunch(o, w, plan, back);
    assert [plan][1..] == [];
    assert Until(o, w, [plan], back) == v;
    assert !IsInstalled(v.files, back);
  }

  /** Version 2 installed over version 1, and not started yet. */
  function JustUpdated(): Disk {
    World(map[Stable := Exe(2, true), Previous := Exe(1, true), Marker := State(Record(2, Exe(2, true), false, true))], 0, true)
  }

  lemma JustUpdatedIsRecoverable()
    ensures var w := JustUpdated();
      && Recoverable(w.files, Exe(1, true)) && Named(w.files) && !ReadRecord(w.files).record.started && w.files[Stable].version == 2
  {
  }

  /** With a release 3 on offer and no fault at all, version 1 does not come back. */
  lemma NewerReleaseWitness()
    ensures var o: Oracle := _ => Works;
      !IsInstalled(Launch(o, Launch(o, JustUpdated(), Plan(3, false)), IDLE).files, Exe(1, true))
  {
    hide Launch, JustUpdated;
    JustUpdatedIsRecoverable();
    var o: Oracle := _ => Works;
    UnconfirmedLauncherRunsOnceIff(o, o, JustUpdated(), Plan(3, false), Exe(1, true));
  }

  /** With nothing on offer, one failed write of the record gives version 2 a second launch. */
  lemma FailedWriteWitness()
    ensures var o: Oracle := n => if n == 0 then Fails else Works;
      var last: Oracle := _ => Works;
      !IsInstalled(Launch(last, Launch(o, JustUpdated(), IDLE), IDLE).files, Exe(1, true))
  {
    hide Launch;
    JustUpdatedIsRecoverable();
    var o: Oracle := n => if n == 0 then Fails else Works;
    var last: Oracle := _ => Works;
    UnconfirmedLauncherRunsOnceIff(o, last, JustUpdated(), IDLE, Exe(1, true));
  }

  /** On a healthy disk an offered release is installed over the backup it named. */
  lemma HealthyUpdateIsInstalled(o: Oracle, w: Disk, version: Version, back: Content)
    requires Recoverable(w.files, back) && Healthy(o) && w.files[Stable].version < version && !Named(w.files)
    ensures var v := Launch(o, w, Plan(version, false));
      IsInstalled(v.files, Exe(version, true)) && Recoverable(v.files, w.files[Stable]) && Named(v.files)
  {
    hide Recover, StartUpdate, ApplyUpdate, Commit;
    RecoverOutcome(o, w.Restart(), back);
    var w1 := w.Restart();
    StartUpdateKeepsRecoverable(o, w1, version, back);
    var w2 := StartUpdate(o, w1, version).0;
    ApplyUpdateOutcome(o, w2.Restart(), version);
    var (v, ok) := ApplyUpdate(o, w2.Restart(), Staged(version));
    ApplyKeepsRecoverable(w2.files, v.files, version, ok, back);
  }

  // ---- What is not touched ------------------------------------------------------------------

  /** A staged launcher at work installs only what the record says it is: without
      a record, or with another executable, nothing changes. */
  lemma NotAuthenticChangesNothing(o: Oracle, w: Disk, self: Path)
    requires !ReadRecord(w.files).Valid? || self !in w.files || w.files[self] != ReadRecord(w.files).record.exe
    ensures ApplyUpdate(o, w, self) == (w, false)
  {
  }

  /** A damaged record, or one of an installed launcher that had nothing to back
      up, does not stop the launch: it is cleared, with the saved launcher. */
  lemma UselessRecordIsCleared(o: Oracle, w: Disk)
    requires Stable in w.files && w.files[Stable].Exe? && Healthy(o)
    requires ReadRecord(w.files).Damaged?
      || (ReadRecord(w.files).Valid? && ReadRecord(w.files).record.version == w.files[Stable].version
          && ReadRecord(w.files).record.started && !ReadRecord(w.files).record.hasPrevious)
    ensures var (v, decision) := Recover(o, w.Restart(), w.files[Stable].version);
      && decision.GoOn? && v.alive
      && Marker !in v.files && Previous !in v.files && Same(w.files, v.files, Stable)
  {
  }

  /** A record of another version, or none, leaves everything as it is. */
  lemma OtherRecordIsIgnored(o: Oracle, w: Disk, current: Version)
    requires ReadRecord(w.files).NoRecord? || (ReadRecord(w.files).Valid? && ReadRecord(w.files).record.version != current)
    ensures Recover(o, w, current) == (w, GoOn) && Commit(o, w, current) == w
  {
  }

  /** A first installation has nothing to save: the record then says so, and no
      saved launcher appears. */
  lemma FirstInstallation(o: Oracle, w: Disk, version: Version)
    requires Stable !in w.files && ReadRecord(w.files).Valid? && !ReadRecord(w.files).record.hasPrevious
    requires Staged(version) in w.files && w.files[Staged(version)] == ReadRecord(w.files).record.exe == Exe(version, true)
    requires w.alive && Healthy(o)
    ensures var (v, ok) := ApplyUpdate(o, w, Staged(version));
      && ok && Stable in v.files && v.files[Stable] == Exe(version, true)
      && ReadRecord(v.files) == ReadRecord(w.files) && Same(w.files, v.files, Previous)
  {
    hide CopyLauncher, ClearMarker, SameVisible;
    var w1 := w.Replace(o, Marker, State(ReadRecord(w.files).record)).0;
    CopyOutcome(o, w1, Staged(version), Stable);
    var v := CopyLauncher(o, w1, Staged(version), Stable).0;
    VisibleReads(w1.files[Stable := Exe(version, true)], v.files, Stable);
    VisibleReads(w1.files[Stable := Exe(version, true)], v.files, Marker);
    VisibleReads(w1.files[Stable := Exe(version, true)], v.files, Previous);
  }

  // ---- The operations as the launcher runs them -----------------------------------------------

  method CopyLauncherFile(m: Machine<Path, Content>, from: Path, to: Path) returns (ok: bool)
    modifies m
    ensures (m.View(), ok) == CopyLauncher(m.oracle, old(m.View()), from, to)
  {
    if from !in m.files {
      return false;
    }
    if from == to {
      return true;
    }
    var staged := Part(to);
    var cleared := m.Remove(staged);
    if !cleared {
      return false;
    }
    var copied := CopyStaged(m, from, staged);
    if !copied {
      return false;
    }
    ok := m.RenameFile(staged, to);
    if !ok {
      var _ := m.Remove(staged);
    }
  }

  method CopyStaged(m: Machine<Path, Content>, from: Path, part: Path) returns (ok: bool)
    modifies m
    ensures (m.View(), ok) == CopyBytes(m.oracle, old(m.View()), from, part)
  {
    if from !in m.files {
      return false;
    }
    var wasAlive := m.alive;
    ok := m.Pass();
    if ok {
      m.files := m.files[part := m.files[from]];
    } else if wasAlive {
      m.files := if m.alive then m.files - {part} else m.files[part := Exe(0, false)];
    }
  }

  method ClearLauncherUpdateMarker(m: Machine<Path, Content>) returns (ok: bool)
    modifies m
    ensures (m.View(), ok) == ClearMarker(m.oracle, old(m.View()))
  {
    ok := m.Remove(Marker);
    if ok {
      ok := m.Remove(Part(Marker));
    }
  }

  method ClearLauncherUpdateState(m: Machine<Path, Content>) returns (ok: bool)
    modifies m
    ensures (m.View(), ok) == ClearState(m.oracle, old(m.View()))
  {
    ok := ClearLauncherUpdateMarker(m);
    if ok {
      ok := m.Remove(Previous);
    }
  }

  method ApplyLauncherUpdate(m: Machine<Path, Content>, self: Path, rollback: bool) returns (ok: bool)
    modifies m
    ensures (m.View(), ok) == if rollback then ApplyRollback(m.oracle, old(m.View()))
                              else ApplyUpdate(m.oracle, old(m.View()), self)
  {
    if rollback {
      ok := CopyLauncherFile(m, Previous, Stable);
      if !ok {
        return false;
      }
      ok := ClearLauncherUpdateMarker(m);
      if !ok {
        return false;
      }
    } else {
      var read := ReadRecord(m.files);
      if !read.Valid? || self !in m.files || m.files[self] != read.record.exe {
        return false;
      }
      var record := read.record;
      if Stable in m.files {
        var saved := CopyLauncherFile(m, Stable, Previous);
        if !saved {
          return false;
        }
        record := record.(hasPrevious := true);
      }
      var recorded := m.Replace(Marker, State(record));
      if !recorded {
        return false;
      }
      ok := CopyLauncherFile(m, self, Stable);
      if !ok {
        if record.hasPrevious {
          var _ := CopyLauncherFile(m, Previous, Stable);
        }
        var _ := ClearLauncherUpdateMarker(m);
        return false;
      }
    }
    ok := m.Pass();
    if !ok && !rollback {
      var _ := CopyLauncherFile(m, Previous, Stable);
    }
  }

  method RecoverLauncherUpdate(m: Machine<Path, Content>, current: Version) returns (decision: Decision)
    modifies m
    ensures (m.View(), decision) == Recover(m.oracle, old(m.View()), current)
  {
    var read := ReadRecord(m.files);
    if read.Damaged? {
      var _ := ClearLauncherUpdateState(m);
      return GoOn;
    }
    if read.NoRecord? || read.record.version != current {
      return GoOn;
    }
    var record := read.record;
    if !record.started {
      record := record.(started := true);
      var _ := m.Replace(Marker, State(record));
      return GoOn;
    }
    if !record.hasPrevious {
      var _ := ClearLauncherUpdateState(m);
      return GoOn;
    }
    var startedIt := m.Pass();
    return if startedIt && Previous in m.files then HandOver else GoOn;
  }

  method CommitLauncherUpdate(m: Machine<Path, Content>, current: Version)
    modifies m
    ensures m.View() == Commit(m.oracle, old(m.View()), current)
  {
    var read := ReadRecord(m.files);
    if !read.Valid? || read.record.version != current {
      return;
    }
    var cleared := ClearLauncherUpdateState(m);
    if !cleared {
      return;
    }
    var _ := m.Remove(Staged(current));
  }
}
