// The writable disk of a standard installation (qemu.go, reset.go, storage.go):
// built from the factory image, grown in place, quarantined when it is shorter
// than the factory image, or set aside by a reset. Bytes of a disk that once
// stood under the final name are never destroyed.
module StandardDisk {
  import opened FaultyFs
  import opened Bytes
  import opened RenameTransaction

  datatype Place = Final | Stage(n: nat)

  datatype Path = DiskAt(place: Place) | PartAt(place: Place) | Quarantine(n: nat) | Retained(n: nat)

  type Files = map<Path, seq<byte>>

  type Disk = World<Path, seq<byte>>

  /** The factory image of the installed guest, if it can be read. */
  datatype Factory = NoFactory | Factory(image: seq<byte>)

  // ---- The requested capacity ------------------------------------------------------

  const MAXIMUM_GIB := 1024
  const BYTES_PER_MIB := 0x10_0000
  const INT64_MAX := 0x7fff_ffff_ffff_ffff

  datatype Capacity = Rejected | MiB(mib: nat)

  function RequestedMiB(factoryMiB: int, requestedGiB: int, portable: bool): Capacity {
    if factoryMiB <= 0 || factoryMiB > INT64_MAX / BYTES_PER_MIB then Rejected
    else if requestedGiB != 0 && (requestedGiB < 24 || requestedGiB > MAXIMUM_GIB) then Rejected
    else if portable && requestedGiB != 0 then Rejected
    else if requestedGiB * 1024 > factoryMiB then MiB(requestedGiB * 1024)
    else MiB(factoryMiB)
  }

  /** An accepted capacity is the larger of the two, its byte count does not
      overflow, and asking for it again changes nothing. */
  lemma RequestedCapacity(factoryMiB: int, requestedGiB: int, portable: bool)
    requires RequestedMiB(factoryMiB, requestedGiB, portable).MiB?
    ensures var mib := RequestedMiB(factoryMiB, requestedGiB, portable).mib;
      && mib >= factoryMiB && mib >= requestedGiB * 1024 && (mib == factoryMiB || mib == requestedGiB * 1024)
      && 0 < mib * BYTES_PER_MIB <= INT64_MAX
      && RequestedMiB(mib, requestedGiB, portable) == MiB(mib)
  {
  }

  /** Exactly these settings are accepted. */
  lemma CapacityAcceptedIff(factoryMiB: int, requestedGiB: int, portable: bool)
    ensures RequestedMiB(factoryMiB, requestedGiB, portable).MiB? <==>
            && 0 < factoryMiB && factoryMiB * BYTES_PER_MIB <= INT64_MAX
            && (requestedGiB == 0 || (24 <= requestedGiB <= 1024 && !portable))
  {
  }

  // ---- What the code does -------------------------------------------------------------

  /** What a built disk holds: the factory image, and zeros up to the capacity. */
  function Expanded(image: seq<byte>, capacity: nat): (disk: seq<byte>)
    requires |image| <= capacity
    ensures |disk| == capacity && image <= disk
  {
    image + Zeros(capacity - |image|)
  }

  // Creating, copying, extending and flushing the staging file. It is removed
  // on failure; a death leaves it half written.
  function WritePart(o: Oracle, w: Disk, place: Place, factory: Factory, capacity: nat): (Disk, bool) {
    if factory.NoFactory? then (w, false)
    else
      var (w, room) := w.Check(o);
      if !room then (w, false) else
      var (w, created) := w.Replace(o, PartAt(place), []);
      if !created then (w, false)
      else if |factory.image| > capacity then (w.Remove(o, PartAt(place)).0, false)
      else
        var (w, copied) := w.Replace(o, PartAt(place), factory.image);
        if !copied then (w.Remove(o, PartAt(place)).0, false) else
        var (w, extended) := w.Replace(o, PartAt(place), Expanded(factory.image, capacity));
        if !extended then (w.Remove(o, PartAt(place)).0, false) else (w, true)
  }

  function Build(o: Oracle, w: Disk, place: Place, factory: Factory, capacity: nat): (Disk, bool) {
    var (w, cleared) := w.Remove(o, PartAt(place));
    if !cleared then (w, false) else
    var (w, written) := WritePart(o, w, place, factory, capacity);
    if !written then (w, false) else
    var (w, published) := w.RenameFile(o, PartAt(place), DiskAt(place));
    if published then (w, true) else (w.Remove(o, PartAt(place)).0, false)
  }

  // Marking sparse, extending, flushing.
  function Grow(o: Oracle, w: Disk, place: Place, capacity: nat): (Disk, bool)
    requires DiskAt(place) in w.files && |w.files[DiskAt(place)]| <= capacity
  {
    var disk := w.files[DiskAt(place)];
    var (w, sparse) := w.Check(o);
    if !sparse then (w, false) else
    var (w, extended) := w.Replace(o, DiskAt(place), Expanded(disk, capacity));
    if !extended then (w, false) else w.Check(o)
  }

  function PrepareAt(o: Oracle, w: Disk, place: Place, factory: Factory, capacity: nat): (Disk, bool) {
    var (w, going) := w.Check(o);
    if !going then (w, false)
    else if DiskAt(place) !in w.files then Build(o, w, place, factory, capacity)
    else if |w.files[DiskAt(place)]| >= capacity then (w, true)
    else if factory.NoFactory? then (w, false)
    else if |w.files[DiskAt(place)]| < |factory.image| then
      var (w, quarantined) := w.RenameFile(o, DiskAt(place), Quarantine(w.clock));
      if !quarantined then (w, false) else Build(o, w, place, factory, capacity)
    else Grow(o, w, place, capacity)
  }

  function RemoveStage(o: Oracle, w: Disk, n: nat): Disk {
    if w.Permits(o) then w.Tick(o).(files := w.files - {DiskAt(Stage(n)), PartAt(Stage(n))}) else w.Tick(o)
  }

  // publishResetDisk: two renames, the first undone if the second fails.
  function ResetMoves(stage: nat, retained: nat): seq<Move<Path>> {
    [Move(DiskAt(Final), Retained(retained)), Move(DiskAt(Stage(stage)), DiskAt(Final))]
  }

  function Reset(o: Oracle, w: Disk, pendingUpdate: bool, factory: Factory, capacity: nat): (Disk, bool) {
    if pendingUpdate then (w, false)
    else if DiskAt(Final) !in w.files then PrepareAt(o, w, Final, factory, capacity)
    else
      var (w, locked) := w.Check(o);
      if !locked then (w, false) else
      var stage := w.clock;
      var (w, staged) := w.Check(o);
      if !staged then (w, false) else
      var (w, prepared) := PrepareAt(o, w, Stage(stage), factory, capacity);
      if !prepared then (RemoveStage(o, w, stage), false) else
      var retained := w.clock;
      var (w, going) := w.Check(o);
      if !going then (RemoveStage(o, w, stage), false) else
      var (w, ok) := Publish(o, w, ResetMoves(stage, retained), 0);
      (RemoveStage(o, w, stage), ok)
  }

  /** A launch with its settings. */
  datatype Request = Request(factoryMiB: int, requestedGiB: int, startFresh: bool, pendingUpdate: bool, factory: Factory)

  function PrepareDisk(o: Oracle, w: Disk, r: Request): (Disk, bool) {
    var capacity := RequestedMiB(r.factoryMiB, r.requestedGiB, false);
    if capacity.Rejected? then (w, false)
    else if r.startFresh then
      var (w, going) := w.Check(o);
      if !going then (w, false) else Reset(o, w, r.pendingUpdate, r.factory, capacity.mib * BYTES_PER_MIB)
    else PrepareAt(o, w, Final, r.factory, capacity.mib * BYTES_PER_MIB)
  }

  // ---- What holds at every point --------------------------------------------------------

  predicate Keeps(p: Path) {
    p == DiskAt(Final) || p.Quarantine? || p.Retained?
  }

  /** Every kept disk is still there: whole elsewhere, or at the start of the active one. */
  ghost predicate NothingDestroyed(f: Files, g: Files) {
    forall p :: p in f && Keeps(p) ==> exists q :: q in g && Keeps(q) && f[p] <= g[q]
  }

  predicate Numbered(n: nat, p: Path) {
    p == Quarantine(n) || p == Retained(n) || p == DiskAt(Stage(n)) || p == PartAt(Stage(n))
  }

  ghost predicate FreshNames(w: Disk) {
    forall n, p :: w.clock <= n && Numbered(n, p) ==> p !in w.files
  }

  lemma NothingDestroyedTransitive(f: Files, g: Files, h: Files)
    requires NothingDestroyed(f, g) && NothingDestroyed(g, h)
    ensures NothingDestroyed(f, h)
  {
    forall p | p in f && Keeps(p) ensures exists q :: q in h && Keeps(q) && f[p] <= h[q] {
      var q :| q in g && Keeps(q) && f[p] <= g[q];
      var r :| r in h && Keeps(r) && g[q] <= h[r];
      assert f[p] <= h[r];
    }
  }

  ghost predicate Elsewhere(f: Files, g: Files, place: Place) {
    forall p :: p != DiskAt(place) && p != PartAt(place) ==> Same(f, g, p)
  }

  lemma WritePartOutcome(o: Oracle, w: Disk, place: Place, factory: Factory, capacity: nat)
    ensures var (v, ok) := WritePart(o, w, place, factory, capacity);
      && Elsewhere(w.files, v.files, place) && Same(w.files, v.files, DiskAt(place)) && w.clock <= v.clock
      && (ok ==>
            && factory.Factory? && |factory.image| <= capacity && v.alive
            && PartAt(place) in v.files && v.files[PartAt(place)] == Expanded(factory.image, capacity))
    ensures var (v, ok) := WritePart(o, w, place, factory, capacity);
      w.alive && Healthy(o) ==> (ok <==> factory.Factory? && |factory.image| <= capacity)
  {
    hide Expanded, Elsewhere;
    var v := WritePart(o, w, place, factory, capacity).0;
    assert v.files - {PartAt(place)} == w.files - {PartAt(place)};
    OnlyPartDiffers(w.files, v.files, place);
  }

  lemma OnlyPartDiffers(f: Files, g: Files, place: Place)
    requires g - {PartAt(place)} == f - {PartAt(place)}
    ensures Elsewhere(f, g, place) && Same(f, g, DiskAt(place))
  {
    forall p: Path | p != PartAt(place) ensures Same(f, g, p) {
      assert p in g <==> p in g - {PartAt(place)};
      assert p in f <==> p in f - {PartAt(place)};
    }
  }

  /** With no disk in place, a build puts a complete one there or none. */
  lemma BuildOutcome(o: Oracle, w: Disk, place: Place, factory: Factory, capacity: nat)
    requires DiskAt(place) !in w.files
    ensures var (v, ok) := Build(o, w, place, factory, capacity);
      && Elsewhere(w.files, v.files, place) && w.clock <= v.clock
      && (if ok then
            && factory.Factory? && |factory.image| <= capacity && DiskAt(place) in v.files
            && v.files[DiskAt(place)] == Expanded(factory.image, capacity)
          else DiskAt(place) !in v.files)
      && (w.alive && Healthy(o) ==> (ok <==> factory.Factory? && |factory.image| <= capacity))
  {
    hide Expanded, WritePart;
    var (w1, cleared) := w.Remove(o, PartAt(place));
    WritePartOutcome(o, w1, place, factory, capacity);
    var w2 := WritePart(o, w1, place, factory, capacity).0;
    var v := Build(o, w, place, factory, capacity).0;
    forall p | p != DiskAt(place) && p != PartAt(place) ensures Same(w.files, v.files, p) {
      assert Same(w1.files, w2.files, p);
    }
  }

  // ---- Preparing ---------------------------------------------------------------------------

  lemma GrowOutcome(o: Oracle, w: Disk, place: Place, capacity: nat)
    requires DiskAt(place) in w.files && |w.files[DiskAt(place)]| <= capacity
    ensures var (v, ok) := Grow(o, w, place, capacity);
      && Elsewhere(w.files, v.files, place) && w.clock <= v.clock
      && DiskAt(place) in v.files && w.files[DiskAt(place)] <= v.files[DiskAt(place)]
      && (ok ==> |v.files[DiskAt(place)]| == capacity)
      && (w.alive && Healthy(o) ==> ok)
  {
  }

  /** The disk that stood in place: still there, not shorter and with its bytes
      at its start, or whole in quarantine. */
  ghost predicate DiskKept(f: Files, g: Files, place: Place, q: nat) {
    DiskAt(place) in f ==>
      || (DiskAt(place) in g && f[DiskAt(place)] <= g[DiskAt(place)])
      || (Quarantine(q) in g && g[Quarantine(q)] == f[DiskAt(place)])
  }

  lemma PrepareOutcome(o: Oracle, w: Disk, place: Place, factory: Factory, capacity: nat)
    requires Quarantine(w.clock + 1) !in w.files
    ensures var (v, ok) := PrepareAt(o, w, place, factory, capacity);
      && w.clock <= v.clock
      && (forall p :: p != DiskAt(place) && p != PartAt(place) && p != Quarantine(w.clock + 1) ==> Same(w.files, v.files, p))
      && (Quarantine(w.clock + 1) in v.files ==> w.clock + 1 < v.clock)
      && DiskKept(w.files, v.files, place, w.clock + 1)
    ensures var (v, ok) := PrepareAt(o, w, place, factory, capacity);
      && (ok ==> DiskAt(place) in v.files && capacity <= |v.files[DiskAt(place)]|)
      && (ok && DiskAt(place) !in w.files ==> factory.Factory? && v.files[DiskAt(place)] == Expanded(factory.image, capacity))
  {
    hide Build, Grow, Expanded;
    var (w1, going) := w.Check(o);
    if going {
      if DiskAt(place) !in w.files {
        BuildOutcome(o, w1, place, factory, capacity);
        assert Same(w1.files, Build(o, w1, place, factory, capacity).0.files, Quarantine(w.clock + 1));
      } else if |w.files[DiskAt(place)]| < capacity && factory.Factory? {
        if |w.files[DiskAt(place)]| < |factory.image| {
          var (w2, quarantined) := w1.RenameFile(o, DiskAt(place), Quarantine(w1.clock));
          if quarantined {
            BuildOutcome(o, w2, place, factory, capacity);
            var v := Build(o, w2, place, factory, capacity).0;
            assert Same(w2.files, v.files, Quarantine(w1.clock));
            forall p | p != DiskAt(place) && p != PartAt(place) && p != Quarantine(w1.clock) ensures Same(w.files, v.files, p) {
              assert Same(w2.files, v.files, p);
            }
          }
        } else {
          GrowOutcome(o, w1, place, capacity);
          assert Same(w1.files, Grow(o, w1, place, capacity).0.files, Quarantine(w.clock + 1));
        }
      }
    }
  }

  /** A preparation destroys nothing; on success the active disk has at least
      the capacity asked for, and a disk still in place has not shrunk. */
  lemma PrepareDestroysNothing(o: Oracle, w: Disk, factory: Factory, capacity: nat)
    requires FreshNames(w)
    ensures var (v, ok) := PrepareAt(o, w, Final, factory, capacity);
      && FreshNames(v) && NothingDestroyed(w.files, v.files)
      && (ok ==> DiskAt(Final) in v.files && capacity <= |v.files[DiskAt(Final)]|)
  {
    hide PrepareAt;
    var q := w.clock + 1;
    assert Numbered(q, Quarantine(q));
    PrepareOutcome(o, w, Final, factory, capacity);
    var v := PrepareAt(o, w, Final, factory, capacity).0;
    forall p | p in w.files && Keeps(p) ensures exists r :: r in v.files && Keeps(r) && w.files[p] <= v.files[r] {
      assert p != DiskAt(Final) ==> Same(w.files, v.files, p);
      assert Numbered(q, p) ==> p !in w.files;
      var r := if p == DiskAt(Final) && !(p in v.files && w.files[p] <= v.files[p]) then Quarantine(q) else p;
      assert r in v.files && Keeps(r) && w.files[p] <= v.files[r];
    }
    forall n, p | v.clock <= n && Numbered(n, p) ensures p !in v.files {
      assert p == Quarantine(q) || Same(w.files, v.files, p);
    }
  }

  // ---- Resetting -----------------------------------------------------------------------------

  /** A disk at least as long as the factory image may hold a guest: whatever
      happens, it stays the active disk and is not set aside. */
  lemma GuestDiskStaysActive(o: Oracle, w: Disk, factory: Factory, capacity: nat)
    requires DiskAt(Final) in w.files && (factory.Factory? ==> |factory.image| <= |w.files[DiskAt(Final)]|)
    ensures var v := PrepareAt(o, w, Final, factory, capacity).0;
      && DiskAt(Final) in v.files && w.files[DiskAt(Final)] <= v.files[DiskAt(Final)]
      && forall n :: Same(w.files, v.files, Quarantine(n))
  {
    hide Grow;
    var w1 := w.Check(o).0;
    if |w1.files[DiskAt(Final)]| < capacity {
      GrowOutcome(o, w1, Final, capacity);
      var v := Grow(o, w1, Final, capacity).0;
      forall n ensures Same(w.files, v.files, Quarantine(n)) {
        assert Same(w1.files, v.files, Quarantine(n));
      }
    }
  }

  /** In a healthy run a disk is set aside exactly when it is shorter than the
      capacity and than the factory image: an interrupted copy, or the disk of an
      older release whose factory image was smaller than the installed one. */
  lemma QuarantinedIff(o: Oracle, w: Disk, factory: Factory, capacity: nat)
    requires Healthy(o) && w.alive && FreshNames(w) && DiskAt(Final) in w.files
    ensures var v, disk := PrepareAt(o, w, Final, factory, capacity).0, w.files[DiskAt(Final)];
      (exists n :: Quarantine(n) in v.files && Quarantine(n) !in w.files)
      <==> |disk| < capacity && factory.Factory? && |disk| < |factory.image|
  {
    var v, disk := PrepareAt(o, w, Final, factory, capacity).0, w.files[DiskAt(Final)];
    if |disk| < capacity && factory.Factory? && |disk| < |factory.image| {
      hide Build;
      var w1 := w.Check(o).0;
      var w2 := w1.RenameFile(o, DiskAt(Final), Quarantine(w1.clock)).0;
      BuildOutcome(o, w2, Final, factory, capacity);
      assert Same(w2.files, v.files, Quarantine(w1.clock));
      assert Numbered(w1.clock, Quarantine(w1.clock));
    } else if |disk| >= capacity {
      assert v.files == w.files;
    } else {
      if factory.Factory? {
        GuestDiskStaysActive(o, w, factory, capacity);
      }
      assert forall n :: Same(w.files, v.files, Quarantine(n));
    }
  }

  // ---- Without faults ---------------------------------------------------------------------

  predicate LongEnough(f: Files, place: Place, capacity: nat) {
    DiskAt(place) in f && capacity <= |f[DiskAt(place)]|
  }

  predicate Fits(factory: Factory, capacity: nat) {
    factory.Factory? && |factory.image| <= capacity
  }

  lemma HealthyBuild(o: Oracle, w: Disk, place: Place, factory: Factory, capacity: nat)
    requires w.alive && Healthy(o) && DiskAt(place) !in w.files
    ensures var (v, ok) := Build(o, w, place, factory, capacity);
      && v.alive && (ok <==> Fits(factory, capacity))
      && v.files == if ok then (w.files - {PartAt(place)})[DiskAt(place) := Expanded(factory.image, capacity)] else w.files - {PartAt(place)}
  {
    hide Expanded;
    var w1 := w.Remove(o, PartAt(place)).0;
    if Fits(factory, capacity) {
      var w2 := WritePart(o, w1, place, factory, capacity).0;
      assert w2.files == w1.files[PartAt(place) := Expanded(factory.image, capacity)];
      var w3 := w2.RenameFile(o, PartAt(place), DiskAt(place)).0;
      assert w3.files == (w.files - {PartAt(place)})[DiskAt(place) := Expanded(factory.image, capacity)];
    }
  }

  /** Without faults a preparation succeeds exactly if the disk is long enough, or
      the factory image is there and fits. A disk that is long enough is left as
      it is, a shorter one grows if it is not shorter than the factory image. */
  lemma PrepareSucceedsIff(o: Oracle, w: Disk, place: Place, factory: Factory, capacity: nat)
    requires w.alive && Healthy(o) && Quarantine(w.clock + 1) !in w.files
    ensures var (v, ok) := PrepareAt(o, w, place, factory, capacity);
      && v.alive
      && (ok <==> LongEnough(w.files, place, capacity) || Fits(factory, capacity))
      && (LongEnough(w.files, place, capacity) ==> v.files == w.files)
      && (ok && !LongEnough(w.files, place, capacity) ==>
            && DiskAt(place) in v.files
            && v.files[DiskAt(place)] == (if DiskAt(place) in w.files && |factory.image| <= |w.files[DiskAt(place)]|
                                          then Expanded(w.files[DiskAt(place)], capacity)
                                          else Expanded(factory.image, capacity)))
      && (!ok && DiskAt(place) !in w.files ==> v.files == w.files - {PartAt(place)})
      && (PartAt(place) !in w.files ==> PartAt(place) !in v.files)
  {
    hide Build, Expanded;
    var w1 := w.Check(o).0;
    if DiskAt(place) !in w.files {
      HealthyBuild(o, w1, place, factory, capacity);
    } else if |w.files[DiskAt(place)]| < capacity && factory.Factory? && |w.files[DiskAt(place)]| < |factory.image| {
      var w2 := w1.RenameFile(o, DiskAt(place), Quarantine(w1.clock)).0;
      HealthyBuild(o, w2, place, factory, capacity);
    }
  }

  /** Without faults a reset succeeds exactly if no update is pending and the
      factory image is there and fits, or there is no disk and preparing would.
      A reset of a disk leaves the old one whole and the new one fresh, a refused
      one changes nothing; neither leaves anything staged. */
  lemma ResetSucceedsIff(o: Oracle, w: Disk, pendingUpdate: bool, factory: Factory, capacity: nat)
    requires FreshNames(w) && w.alive && Healthy(o)
    ensures var (v, ok) := Reset(o, w, pendingUpdate, factory, capacity);
      && (ok <==> !pendingUpdate && Fits(factory, capacity))
      && (!ok && DiskAt(Final) in w.files ==> v.files == w.files)
      && (ok ==> DiskAt(Final) in v.files && v.files[DiskAt(Final)] == Expanded(factory.image, capacity))
      && (ok && DiskAt(Final) in w.files ==> exists n :: Retained(n) in v.files && v.files[Retained(n)] == w.files[DiskAt(Final)])
      && (forall n :: DiskAt(Stage(n)) in v.files || PartAt(Stage(n)) in v.files ==> DiskAt(Stage(n)) in w.files || PartAt(Stage(n)) in w.files)
  {
    hide PrepareAt, Expanded, Publish;
    assert Numbered(w.clock + 1, Quarantine(w.clock + 1));
    if !pendingUpdate {
      if DiskAt(Final) !in w.files {
        PrepareSucceedsIff(o, w, Final, factory, capacity);
        assert forall n :: Same(w.files, PrepareAt(o, w, Final, factory, capacity).0.files, DiskAt(Stage(n))) && Same(w.files, PrepareAt(o, w, Final, factory, capacity).0.files, PartAt(Stage(n))) by {
          PrepareOutcome(o, w, Final, factory, capacity);
        }
      } else {
        HealthyReset(o, w, factory, capacity);
      }
    }
  }

  lemma HealthyReset(o: Oracle, w: Disk, factory: Factory, capacity: nat)
    requires FreshNames(w) && w.alive && Healthy(o) && DiskAt(Final) in w.files
    ensures var (v, ok) := Reset(o, w, false, factory, capacity);
      && (ok <==> Fits(factory, capacity))
      && (if ok then
            exists n :: v.files == w.files[Retained(n) := w.files[DiskAt(Final)]][DiskAt(Final) := Expanded(factory.image, capacity)]
          else v.files == w.files)
  {
    hide Build, Expanded, Publish, After;
    var w1 := w.Check(o).0;
    var stage, w2 := w1.clock, w1.Check(o).0;
    assert Numbered(stage, DiskAt(Stage(stage))) && Numbered(stage, PartAt(Stage(stage)));
    var w3 := w2.Check(o).0;
    HealthyBuild(o, w3, Stage(stage), factory, capacity);
    assert w3.files - {PartAt(Stage(stage))} == w.files;
    var (w4, prepared) := Build(o, w3, Stage(stage), factory, capacity);
    BuildTakesTime(o, w3, Stage(stage), factory, capacity);
    var retained := w4.clock;
    assert Numbered(retained, Retained(retained));
    if prepared {
      var w5 := w4.Check(o).0;
      ResetStates(w5.files, stage, retained);
      HealthyPublish(o, w5, ResetMoves(stage, retained));
      var w6 := Publish(o, w5, ResetMoves(stage, retained), 0).0;
      assert RemoveStage(o, w6, stage).files == w.files[Retained(retained) := w.files[DiskAt(Final)]][DiskAt(Final) := Expanded(factory.image, capacity)];
    } else {
      assert RemoveStage(o, w4, stage).files == w.files;
    }
  }

  lemma BuildTakesTime(o: Oracle, w: Disk, place: Place, factory: Factory, capacity: nat)
    ensures w.clock <= Build(o, w, place, factory, capacity).0.clock
  {
  }

  lemma RemoveStageIsHarmless(o: Oracle, w: Disk, stage: nat)
    requires FreshNames(w)
    ensures var v := RemoveStage(o, w, stage);
      && FreshNames(v) && NothingDestroyed(w.files, v.files) && Same(w.files, v.files, DiskAt(Final))
      && forall n :: Same(w.files, v.files, Retained(n))
  {
    var v := RemoveStage(o, w, stage);
    forall p | p in w.files && Keeps(p) ensures p in v.files && v.files[p] == w.files[p] {
    }
  }

  /** Staging touches only the staging folder. */
  lemma StageIsHarmless(o: Oracle, w: Disk, stage: nat, factory: Factory, capacity: nat)
    requires FreshNames(World(w.files, stage, w.alive)) && stage < w.clock
    ensures var (v, ok) := PrepareAt(o, w, Stage(stage), factory, capacity);
      && w.clock <= v.clock && FreshNames(v) && NothingDestroyed(w.files, v.files)
      && Same(w.files, v.files, DiskAt(Final))
      && (ok ==>
            && factory.Factory? && |factory.image| <= capacity && DiskAt(Stage(stage)) in v.files
            && v.files[DiskAt(Stage(stage))] == Expanded(factory.image, capacity))
  {
    hide PrepareAt, Expanded;
    assert Numbered(stage, DiskAt(Stage(stage)));
    assert Numbered(w.clock + 1, Quarantine(w.clock + 1));
    StagePrepares(o, w, stage, factory, capacity);
    var v := PrepareAt(o, w, Stage(stage), factory, capacity).0;
    forall p | p in w.files && Keeps(p) ensures p in v.files && w.files[p] <= v.files[p] {
      assert Same(w.files, v.files, p);
    }
    forall n, p | v.clock <= n && Numbered(n, p) ensures p !in v.files {
      assert Same(w.files, v.files, p);
    }
  }

  lemma StagePrepares(o: Oracle, w: Disk, stage: nat, factory: Factory, capacity: nat)
    requires DiskAt(Stage(stage)) !in w.files
    ensures var (v, ok) := PrepareAt(o, w, Stage(stage), factory, capacity);
      && Elsewhere(w.files, v.files, Stage(stage)) && w.clock <= v.clock
      && (ok ==>
            && factory.Factory? && |factory.image| <= capacity && DiskAt(Stage(stage)) in v.files
            && v.files[DiskAt(Stage(stage))] == Expanded(factory.image, capacity))
  {
    hide Build, Expanded;
    BuildOutcome(o, w.Check(o).0, Stage(stage), factory, capacity);
  }

  lemma ResetStates(f: Files, stage: nat, retained: nat)
    requires DiskAt(Final) in f && DiskAt(Stage(stage)) in f && Retained(retained) !in f
    ensures var moves := ResetMoves(stage, retained);
      var g := Moved(f, DiskAt(Final), Retained(retained));
      && Clear(f, moves) && DiskAt(Stage(stage)) in g
      && After(f, moves, 0) == f && After(f, moves, 1) == g
      && After(f, moves, 2) == Moved(g, DiskAt(Stage(stage)), DiskAt(Final))
  {
    var moves := ResetMoves(stage, retained);
    assert After(f, moves, 1) == Moved(After(f, moves, 0), DiskAt(Final), Retained(retained));
    assert After(f, moves, 2) == Moved(After(f, moves, 1), DiskAt(Stage(stage)), DiskAt(Final));
  }

  lemma ResetMovesKeepDisk(f: Files, stage: nat, retained: nat, k: nat)
    requires DiskAt(Final) in f && DiskAt(Stage(stage)) in f && Retained(retained) !in f && k <= 2
    ensures var g := After(f, ResetMoves(stage, retained), k);
      && Clear(f, ResetMoves(stage, retained))
      && NothingDestroyed(f, g)
      && (forall p :: p in g ==> p in f || p == Retained(retained))
      && (k == 2 ==>
            && Retained(retained) in g && g[Retained(retained)] == f[DiskAt(Final)]
            && DiskAt(Final) in g && g[DiskAt(Final)] == f[DiskAt(Stage(stage))])
  {
    var moves := ResetMoves(stage, retained);
    hide After, Clear, NothingDestroyed;
    ResetStates(f, stage, retained);
    ResetLosesNothing(f, stage, retained, k);
    var g1 := After(f, moves, 1);
    assert g1[DiskAt(Stage(stage))] == f[DiskAt(Stage(stage))] && DiskAt(Final) !in g1;
    assert forall p :: p in g1 ==> p in f || p == Retained(retained);
  }

  lemma ResetLosesNothing(f: Files, stage: nat, retained: nat, k: nat)
    requires Clear(f, ResetMoves(stage, retained)) && k <= 2
    ensures NothingDestroyed(f, After(f, ResetMoves(stage, retained), k))
  {
    hide After, Clear;
    var moves := ResetMoves(stage, retained);
    forall p | p in f && Keeps(p)
      ensures Keeps(Where(moves, k, p)) && Where(moves, k, p) in After(f, moves, k) && f[p] <= After(f, moves, k)[Where(moves, k, p)]
    {
      NothingIsLost(f, moves, k, p);
      MovesKeep(moves, stage, retained, k, p);
    }
  }

  lemma MovesKeep(moves: seq<Move<Path>>, stage: nat, retained: nat, k: nat, p: Path)
    requires moves == ResetMoves(stage, retained) && k <= 2 && Keeps(p)
    ensures Keeps(Where(moves, k, p))
  {
    var q0 := Where(moves, 0, p);
    var q1 := Where(moves, 1, p);
    var q2 := Where(moves, 2, p);
    assert q0 == p && Keeps(q1) && Keeps(q2);
  }

  ghost predicate ResetDone(f: Files, g: Files, factory: Factory, capacity: nat) {
    && factory.Factory? && |factory.image| <= capacity
    && DiskAt(Final) in g && g[DiskAt(Final)] == Expanded(factory.image, capacity)
    && (DiskAt(Final) in f ==> exists n :: Retained(n) in g && g[Retained(n)] == f[DiskAt(Final)])
  }

  lemma PublishReset(o: Oracle, w: Disk, stage: nat, retained: nat, factory: Factory, capacity: nat)
    requires DiskAt(Final) in w.files && DiskAt(Stage(stage)) in w.files && w.alive
    requires FreshNames(World(w.files, retained, true)) && retained < w.clock
    requires factory.Factory? && |factory.image| <= capacity
    requires w.files[DiskAt(Stage(stage))] == Expanded(factory.image, capacity)
    ensures var (v, ok) := Publish(o, w, ResetMoves(stage, retained), 0);
      FreshNames(v) && NothingDestroyed(w.files, v.files) && (ok ==> ResetDone(w.files, v.files, factory, capacity))
  {
    hide Publish, After, Clear, Expanded, NothingDestroyed;
    assert Numbered(retained, Retained(retained));
    var moves := ResetMoves(stage, retained);
    ResetMovesKeepDisk(w.files, stage, retained, 0);
    PublishLeavesPrefix(o, w, moves);
    var k := Kept(o, w.clock, |moves|);
    ResetMovesKeepDisk(w.files, stage, retained, k);
    var (v, ok) := Publish(o, w, moves, 0);
    if ok {
      assert Retained(retained) in v.files && v.files[Retained(retained)] == w.files[DiskAt(Final)];
    }
  }

  /** A reset destroys nothing, and a successful one leaves a factory disk of
      the capacity asked for and the old disk whole in a before-reset folder. */
  lemma ResetDestroysNothing(o: Oracle, w: Disk, pendingUpdate: bool, factory: Factory, capacity: nat)
    requires FreshNames(w)
    ensures var (v, ok) := Reset(o, w, pendingUpdate, factory, capacity);
      && FreshNames(v) && NothingDestroyed(w.files, v.files)
      && (ok ==> !pendingUpdate && DiskAt(Final) in v.files && capacity <= |v.files[DiskAt(Final)]|)
      && (ok && DiskAt(Final) in w.files ==> ResetDone(w.files, v.files, factory, capacity))
  {
    hide PrepareAt, Publish, RemoveStage, Expanded;
    if !pendingUpdate {
      if DiskAt(Final) !in w.files {
        PrepareDestroysNothing(o, w, factory, capacity);
      } else {
        var w1 := w.Check(o).0;
        StandingStill(w, w1);
        if w1.alive && w.Check(o).1 {
          ReplaceDisk(o, w, w1, factory, capacity);
        }
      }
    } else {
      StandingStill(w, w);
    }
  }

  lemma StandingStill(w: Disk, v: Disk)
    requires FreshNames(w) && v.files == w.files && w.clock <= v.clock
    ensures FreshNames(v) && NothingDestroyed(w.files, v.files)
  {
  }

  lemma ReplaceDisk(o: Oracle, w: Disk, w1: Disk, factory: Factory, capacity: nat)
    requires FreshNames(w) && DiskAt(Final) in w.files && (w1, true) == w.Check(o)
    ensures var (v, ok) := Reset(o, w, false, factory, capacity);
      && FreshNames(v) && NothingDestroyed(w.files, v.files)
      && (ok ==> ResetDone(w.files, v.files, factory, capacity))
  {
    hide PrepareAt, Publish, RemoveStage, Expanded, FreshNames, NothingDestroyed;
    StandingStill(w, w1);
    var stage := w1.clock;
    var (w2, staged) := w1.Check(o);
    StandingStill(w, w2);
    if staged {
      StageIsHarmless(o, w2, stage, factory, capacity);
      var (w3, prepared) := PrepareAt(o, w2, Stage(stage), factory, capacity);
      NothingDestroyedTransitive(w.files, w2.files, w3.files);
      var retained := w3.clock;
      var (w4, going) := w3.Check(o);
      StandingStill(w3, w4);
      if !prepared {
        RemoveStageIsHarmless(o, w3, stage);
        NothingDestroyedTransitive(w.files, w3.files, RemoveStage(o, w3, stage).files);
      } else if !going {
        RemoveStageIsHarmless(o, w4, stage);
        NothingDestroyedTransitive(w.files, w3.files, RemoveStage(o, w4, stage).files);
      } else {
        PublishReset(o, w4, stage, retained, factory, capacity);
        var (w5, ok) := Publish(o, w4, ResetMoves(stage, retained), 0);
        NothingDestroyedTransitive(w.files, w4.files, w5.files);
        RemoveStageIsHarmless(o, w5, stage);
        var v := RemoveStage(o, w5, stage);
        NothingDestroyedTransitive(w.files, w5.files, v.files);
        if ok {
          var n :| Retained(n) in w5.files && w5.files[Retained(n)] == w4.files[DiskAt(Final)];
          assert Same(w5.files, v.files, Retained(n));
        }
      }
    }
  }

  // ---- Any history of an installation -------------------------------------------------------

  /** Whatever is asked for and whatever fails, nothing is destroyed; a launch
      that gets its disk has at least the capacity asked for and the factory's. */
  lemma PrepareDiskDestroysNothing(o: Oracle, w: Disk, r: Request)
    requires FreshNames(w)
    ensures var (v, ok) := PrepareDisk(o, w, r);
      && FreshNames(v) && NothingDestroyed(w.files, v.files)
      && (ok ==>
            && DiskAt(Final) in v.files
            && r.factoryMiB * BYTES_PER_MIB <= |v.files[DiskAt(Final)]|
            && r.requestedGiB * 1024 * BYTES_PER_MIB <= |v.files[DiskAt(Final)]|)
  {
    hide PrepareAt, Reset, FreshNames, NothingDestroyed, RequestedMiB;
    StandingStill(w, w);
    var capacity := RequestedMiB(r.factoryMiB, r.requestedGiB, false);
    if capacity.MiB? {
      RequestedCapacity(r.factoryMiB, r.requestedGiB, false);
      if r.startFresh {
        var w1 := w.Check(o).0;
        StandingStill(w, w1);
        assert w1.files == w.files;
        ResetDestroysNothing(o, w1, r.pendingUpdate, r.factory, capacity.mib * BYTES_PER_MIB);
      } else {
        PrepareDestroysNothing(o, w, r.factory, capacity.mib * BYTES_PER_MIB);
      }
    }
  }

  /** Without faults a launch gets its disk exactly if its settings are accepted
      and the disk is long enough or can be built; a fresh start also needs that
      no update is pending, and always builds. */
  lemma PrepareDiskSucceedsIff(o: Oracle, w: Disk, r: Request)
    requires FreshNames(w) && w.alive && Healthy(o)
    ensures var capacity := RequestedMiB(r.factoryMiB, r.requestedGiB, false);
      PrepareDisk(o, w, r).1 <==>
      && capacity.MiB?
      && var bytes := capacity.mib * BYTES_PER_MIB;
      if r.startFresh then !r.pendingUpdate && Fits(r.factory, bytes)
      else LongEnough(w.files, Final, bytes) || Fits(r.factory, bytes)
  {
    hide PrepareAt, Reset, RequestedMiB;
    assert Numbered(w.clock + 1, Quarantine(w.clock + 1));
    var capacity := RequestedMiB(r.factoryMiB, r.requestedGiB, false);
    if capacity.MiB? {
      var w1 := w.Check(o).0;
      StandingStill(w, w1);
      ResetSucceedsIff(o, w1, r.pendingUpdate, r.factory, capacity.mib * BYTES_PER_MIB);
      PrepareSucceedsIff(o, w, Final, r.factory, capacity.mib * BYTES_PER_MIB);
    }
  }

  function Launches(o: Oracle, w: Disk, requests: seq<Request>): Disk
    decreases |requests|
  {
    if requests == [] then w else Launches(o, PrepareDisk(o, w.Restart(), requests[0]).0, requests[1..])
  }

  lemma {:induction false} LaunchesDestroyNothing(o: Oracle, w: Disk, requests: seq<Request>)
    requires FreshNames(w)
    ensures FreshNames(Launches(o, w, requests)) && NothingDestroyed(w.files, Launches(o, w, requests).files)
    decreases |requests|
  {
    hide PrepareDisk, NothingDestroyed;
    StandingStill(w, w);
    if requests != [] {
      PrepareDiskDestroysNothing(o, w.Restart(), requests[0]);
      var v := PrepareDisk(o, w.Restart(), requests[0]).0;
      LaunchesDestroyNothing(o, v, requests[1..]);
      NothingDestroyedTransitive(w.files, v.files, Launches(o, v, requests[1..]).files);
    }
  }

  // ---- The operations as the launcher runs them ------------------------------------------------

  method BuildDisk(m: Machine<Path, seq<byte>>, place: Place, factory: Factory, capacity: nat) returns (ok: bool)
    modifies m
    ensures (m.View(), ok) == Build(m.oracle, old(m.View()), place, factory, capacity)
  {
    var tmp := PartAt(place);
    ok := m.Remove(tmp);
    if !ok {
      return;
    }
    if factory.NoFactory? {
      return false;
    }
    ok := m.Pass();
    if !ok {
      return;
    }
    ok := m.Replace(tmp, []);
    if !ok {
      return;
    }
    ok := |factory.image| <= capacity;
    if ok {
      ok := m.Replace(tmp, factory.image);
    }
    if ok {
      ok := m.Replace(tmp, Expanded(factory.image, capacity));
    }
    if ok {
      ok := m.RenameFile(tmp, DiskAt(place));
    }
    if !ok {
      var _ := m.Remove(tmp);
    }
  }

  method PrepareWritableDisk(m: Machine<Path, seq<byte>>, place: Place, factory: Factory, capacity: nat) returns (ok: bool)
    modifies m
    ensures (m.View(), ok) == PrepareAt(m.oracle, old(m.View()), place, factory, capacity)
  {
    ok := m.Pass();
    if !ok {
      return;
    }
    var disk := DiskAt(place);
    if disk in m.files {
      var size := |m.files[disk]|;
      if size >= capacity {
        return true;
      }
      if factory.NoFactory? {
        return false;
      }
      if size < |factory.image| {
        ok := m.RenameFile(disk, Quarantine(m.clock));
        if !ok {
          return;
        }
      } else {
        var grown := Expanded(m.files[disk], capacity);
        ok := m.Pass();
        if ok {
          ok := m.Replace(disk, grown);
        }
        if ok {
          ok := m.Pass();
        }
        return;
      }
    }
    ok := BuildDisk(m, place, factory, capacity);
  }

  method PublishResetDisk(m: Machine<Path, seq<byte>>, stage: nat, retained: nat) returns (ok: bool)
    modifies m
    ensures (m.View(), ok) == Publish(m.oracle, old(m.View()), ResetMoves(stage, retained), 0)
  {
    ghost var o, moves := m.oracle, ResetMoves(stage, retained);
    ok := m.RenameFile(DiskAt(Final), Retained(retained));
    if !ok {
      return;
    }
    assert Publish(o, old(m.View()), moves, 0) == Publish(o, m.View(), moves, 1);
    ghost var between := m.View();
    ok := m.RenameFile(DiskAt(Stage(stage)), DiskAt(Final));
    if !ok {
      assert Publish(o, between, moves, 1) == (Undo(o, m.View(), moves, 1), false);
      var _ := m.RenameFile(Retained(retained), DiskAt(Final));
      assert Undo(o, m.View(), moves, 0) == m.View();
    } else {
      assert Publish(o, between, moves, 1) == Publish(o, m.View(), moves, 2);
    }
  }

  method RemoveStagingFolder(m: Machine<Path, seq<byte>>, n: nat)
    modifies m
    ensures m.View() == RemoveStage(m.oracle, old(m.View()), n)
  {
    var works := m.Pass();
    if works {
      m.files := m.files - {DiskAt(Stage(n)), PartAt(Stage(n))};
    }
  }

  method ResetStandardDisk(m: Machine<Path, seq<byte>>, pendingUpdate: bool, factory: Factory, capacity: nat)
    returns (ok: bool)
    modifies m
    ensures (m.View(), ok) == Reset(m.oracle, old(m.View()), pendingUpdate, factory, capacity)
  {
    if pendingUpdate {
      return false;
    }
    if DiskAt(Final) !in m.files {
      ok := PrepareWritableDisk(m, Final, factory, capacity);
      return;
    }
    var locked := m.Pass();
    if !locked {
      return false;
    }
    var stage := m.clock;
    var staged := m.Pass();
    if !staged {
      return false;
    }
    var prepared := PrepareWritableDisk(m, Stage(stage), factory, capacity);
    if !prepared {
      RemoveStagingFolder(m, stage);
      return false;
    }
    var retained := m.clock;
    var going := m.Pass();
    if !going {
      RemoveStagingFolder(m, stage);
      return false;
    }
    ok := PublishResetDisk(m, stage, retained);
    RemoveStagingFolder(m, stage);
  }

  method PrepareStandardDisk(m: Machine<Path, seq<byte>>, r: Request) returns (ok: bool)
    modifies m
    ensures (m.View(), ok) == PrepareDisk(m.oracle, old(m.View()), r)
  {
    hide Reset, PrepareAt, RequestedMiB;
    var capacity := RequestedMiB(r.factoryMiB, r.requestedGiB, false);
    if capacity.Rejected? {
      return false;
    }
    var bytes := capacity.mib * BYTES_PER_MIB;
    if !r.startFresh {
      ok := PrepareWritableDisk(m, Final, r.factory, bytes);
      return;
    }
    var going := m.Pass();
    if !going {
      return false;
    }
    ok := ResetStandardDisk(m, r.pendingUpdate, r.factory, bytes);
  }
}
