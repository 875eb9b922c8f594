// The portable disk: a QCOW2 overlay and, beside it, the digest of the factory
// image it was created over (qemu.go, qcow2.go, reset_portable.go). Running an
// overlay over any other image would corrupt it, so the two files have to stay
// a pair through preparation, reset, failures and crashes.
module PortableDisk {
  import opened FaultyFs
  import opened RenameTransaction
  import Qcow2

  type Digest = string

  /** A folder of the pair: where the guest runs from, a staging folder, or a before-reset folder. */
  datatype Place = Final | Stage(n: nat) | Retained(n: nat)

  datatype Path =
    | DiskAt(place: Place)
    | IdentityAt(place: Place)
    | PartAt(place: Place)
    | Quarantine(n: nat)

  /** An overlay knows its virtual size; the image it was created over and what
      the guest wrote into it are what has to be kept. */
  datatype Content = Overlay(size: int, over: Digest, guest: string) | Identity(digest: Digest) | Other

  type Files = map<Path, Content>

  type Disk = World<Path, Content>

  datatype Factory = Unverified | Verified(digest: Digest)

  predicate ValidSize(size: int) {
    Qcow2.Accepted(size)
  }

  /** qcow2OverlayMatches: every overlay here has the same relative backing path. */
  predicate Matches(f: Files, p: Path, size: int) {
    p in f && f[p].Overlay? && f[p].size == size
  }

  // ---- What the code does ----------------------------------------------------------

  // Creation is exclusive and removes what it could not finish; only a death
  // leaves a partial file, under the staging name.
  function CreateOverlay(o: Oracle, w: Disk, p: Path, size: int, over: Digest): (Disk, bool) {
    if !ValidSize(size) || p in w.files then (w, false)
    else if w.Permits(o) then (w.Tick(o).(files := w.files[p := Overlay(size, over, "")]), true)
    else if w.Tick(o).alive || !w.alive then (w.Tick(o), false)
    else (w.Tick(o).(files := w.files[p := Other]), false)
  }

  function WriteIdentity(o: Oracle, w: Disk, place: Place, digest: Digest): (Disk, bool) {
    if IdentityAt(place) in w.files then (w, w.files[IdentityAt(place)] == Identity(digest))
    else w.Replace(o, IdentityAt(place), Identity(digest))
  }

  // The staged overlay becomes the disk, after its identity.
  function PublishOverlay(o: Oracle, w: Disk, place: Place, digest: Digest): (Disk, bool) {
    var (w, going) := w.Check(o);
    if !going then (w, false) else
    var (w, written) := WriteIdentity(o, w, place, digest);
    if !written then (w, false) else w.RenameFile(o, PartAt(place), DiskAt(place))
  }

  // Building beside the free final name.
  function FillPlace(o: Oracle, w: Disk, place: Place, digest: Digest, size: int): (Disk, bool) {
    var (w, cleared) := w.Remove(o, PartAt(place));
    if !cleared then (w, false) else
    var (w, created) := CreateOverlay(o, w, PartAt(place), size, digest);
    if !created then (w, false) else
    var (w, published) := PublishOverlay(o, w, place, digest);
    if published then (w, true) else (w.Remove(o, PartAt(place)).0, false)
  }

  function BuildOverlay(o: Oracle, w: Disk, place: Place, digest: Digest, size: int): (Disk, bool) {
    var (w, quarantined) := if DiskAt(place) in w.files
                            then w.RenameFile(o, DiskAt(place), Quarantine(w.clock))
                            else (w, true);
    if !quarantined then (w, false) else FillPlace(o, w, place, digest, size)
  }

  function Prepare(o: Oracle, w: Disk, place: Place, factory: Factory, size: int): (Disk, bool) {
    if factory.Unverified? then (w, false)
    else if Matches(w.files, DiskAt(place), size) then
      (w, IdentityAt(place) in w.files && w.files[IdentityAt(place)] == Identity(factory.digest))
    else BuildOverlay(o, w, place, factory.digest, size)
  }

  function RemoveStage(o: Oracle, w: Disk, n: nat): Disk {
    if w.Permits(o)
    then w.Tick(o).(files := w.files - {DiskAt(Stage(n)), IdentityAt(Stage(n)), PartAt(Stage(n))})
    else w.Tick(o)
  }

  function ResetMoves(f: Files, stage: nat, retained: nat): seq<Move<Path>> {
    (if DiskAt(Final) in f then [Move(DiskAt(Final), DiskAt(Retained(retained)))] else [])
    + (if IdentityAt(Final) in f then [Move(IdentityAt(Final), IdentityAt(Retained(retained)))] else [])
    + [Move(IdentityAt(Stage(stage)), IdentityAt(Final)), Move(DiskAt(Stage(stage)), DiskAt(Final))]
  }

  // The staging folder is named after the time it was made, and so is the
  // before-reset folder.
  function ReplacePair(o: Oracle, w: Disk, factory: Factory, size: int): (Disk, bool) {
    var stage := w.clock;
    var (w, staged) := w.Check(o);
    if !staged then (w, false) else
    var (w, prepared) := Prepare(o, w, Stage(stage), factory, size);
    if !prepared then (RemoveStage(o, w, stage), false) else ReplaceByStaged(o, w, stage)
  }

  function ReplaceByStaged(o: Oracle, w: Disk, stage: nat): (Disk, bool) {
    var retained := w.clock;
    var (w, going) := w.Check(o);
    if !going then (RemoveStage(o, w, stage), false) else
    var (w, ok) := Publish(o, w, ResetMoves(w.files, stage, retained), 0);
    (RemoveStage(o, w, stage), ok)
  }

  function Reset(o: Oracle, w: Disk, factory: Factory, size: int): (Disk, bool) {
    if DiskAt(Final) !in w.files && IdentityAt(Final) !in w.files then Prepare(o, w, Final, factory, size)
    else
      var (w, locked) := if DiskAt(Final) in w.files then w.Check(o) else (w, true);
      if !locked then (w, false) else ReplacePair(o, w, factory, size)
  }

  // ---- What holds at every point -----------------------------------------------------

  /** An overlay under the final name has the digest of its own backing image beside it. */
  predicate Paired(f: Files) {
    DiskAt(Final) in f ==>
      f[DiskAt(Final)].Overlay? && IdentityAt(Final) in f && f[IdentityAt(Final)] == Identity(f[DiskAt(Final)].over)
  }

  predicate Numbered(n: nat, p: Path) {
    p == Quarantine(n) || (!p.Quarantine? && (p.place == Stage(n) || p.place == Retained(n)))
  }

  /** Names made from the current time on are unused. */
  ghost predicate FreshNames(f: Files, clock: nat) {
    forall n, p :: clock <= n && Numbered(n, p) ==> p !in f
  }

  /** The overlays a guest has run from, or may be asked to go back to. */
  predicate Keeps(p: Path) {
    p == DiskAt(Final) || p.Quarantine? || (p.DiskAt? && p.place.Retained?)
  }

  ghost predicate NothingLost(f: Files, g: Files) {
    forall p :: p in f && Keeps(p) ==> exists q :: q in g && Keeps(q) && g[q] == f[p]
  }

  // ---- The states building an overlay can leave behind ----------------------------------

  /** All files but the three of the place are as they were. */
  ghost predicate Elsewhere(f: Files, g: Files, place: Place) {
    forall p :: p != DiskAt(place) && p != IdentityAt(place) && p != PartAt(place) ==> Same(f, g, p)
  }

  /** With no disk in place: an identity that was there stays, one that was not
      may be written, and only a finished build puts a new pair in place. */
  ghost predicate Fills(f: Files, g: Files, place: Place, digest: Digest, size: int, ok: bool) {
    && Elsewhere(f, g, place)
    && (Same(f, g, IdentityAt(place))
        || (IdentityAt(place) !in f && IdentityAt(place) in g && g[IdentityAt(place)] == Identity(digest)))
    && if ok then
         && DiskAt(place) in g && g[DiskAt(place)] == Overlay(size, digest, "")
         && IdentityAt(place) in g && g[IdentityAt(place)] == Identity(digest)
       else DiskAt(place) !in g
  }

  lemma PublishOverlayOutcome(o: Oracle, w: Disk, place: Place, digest: Digest, size: int)
    requires DiskAt(place) !in w.files
    requires PartAt(place) in w.files && w.files[PartAt(place)] == Overlay(size, digest, "")
    ensures var (v, ok) := PublishOverlay(o, w, place, digest);
      Fills(w.files, v.files, place, digest, size, ok) && w.clock <= v.clock
  {
    var w1 := w.Check(o).0;
    var w2 := WriteIdentity(o, w1, place, digest).0;
    assert w2.files == w.files || w2.files == w.files[IdentityAt(place) := Identity(digest)];
  }

  lemma FillPlaceOutcome(o: Oracle, w: Disk, place: Place, digest: Digest, size: int)
    requires DiskAt(place) !in w.files
    ensures var (v, ok) := FillPlace(o, w, place, digest, size);
      Fills(w.files, v.files, place, digest, size, ok) && w.clock <= v.clock && (ok ==> ValidSize(size))
  {
    hide PublishOverlay;
    var (w2, cleared) := w.Remove(o, PartAt(place));
    if cleared {
      var (w3, created) := CreateOverlay(o, w2, PartAt(place), size, digest);
      assert Elsewhere(w.files, w3.files, place);
      if created {
        PublishOverlayOutcome(o, w3, place, digest, size);
        var (w4, published) := PublishOverlay(o, w3, place, digest);
        var w5 := if published then w4 else w4.Remove(o, PartAt(place)).0;
        assert Elsewhere(w4.files, w5.files, place);
        forall p | p != DiskAt(place) && p != IdentityAt(place) && p != PartAt(place)
          ensures Same(w.files, w5.files, p)
        {
          assert Same(w3.files, w4.files, p);
        }
      }
    }
  }

  /** The disk that was there, if any, is untouched or whole in quarantine. */
  ghost predicate Builds(f: Files, g: Files, place: Place, digest: Digest, size: int, q: nat, ok: bool) {
    if DiskAt(place) !in f then Fills(f, g, place, digest, size, ok)
    else if g == f then !ok
    else Quarantine(q) !in f && Fills(Moved(f, DiskAt(place), Quarantine(q)), g, place, digest, size, ok)
  }

  lemma BuildOverlayOutcome(o: Oracle, w: Disk, place: Place, digest: Digest, size: int)
    requires Quarantine(w.clock) !in w.files
    ensures var (v, ok) := BuildOverlay(o, w, place, digest, size);
      && Builds(w.files, v.files, place, digest, size, w.clock, ok)
      && w.clock <= v.clock && (v.files != w.files && DiskAt(place) in w.files ==> w.clock < v.clock)
      && (ok ==> ValidSize(size))
  {
    hide FillPlace;
    if DiskAt(place) in w.files {
      var (w1, quarantined) := w.RenameFile(o, DiskAt(place), Quarantine(w.clock));
      if quarantined {
        FillPlaceOutcome(o, w1, place, digest, size);
        var g := FillPlace(o, w1, place, digest, size).0.files;
        assert Same(w1.files, g, Quarantine(w.clock));
      }
    } else {
      FillPlaceOutcome(o, w, place, digest, size);
    }
  }

  // ---- Preparing the disk -----------------------------------------------------------------

  /** Preparing keeps the pair and every overlay, and succeeds only with an
      overlay of the asked size over the factory image that is installed now. One
      that matches is not touched. */
  lemma PrepareKeepsPair(o: Oracle, w: Disk, factory: Factory, size: int)
    requires Paired(w.files) && FreshNames(w.files, w.clock)
    ensures var (v, ok) := Prepare(o, w, Final, factory, size);
      && Paired(v.files) && FreshNames(v.files, v.clock) && NothingLost(w.files, v.files)
      && (ok ==> factory.Verified? && Matches(v.files, DiskAt(Final), size) && v.files[DiskAt(Final)].over == factory.digest)
      && (Matches(w.files, DiskAt(Final), size) ==> v.files == w.files)
  {
    hide BuildOverlay;
    if factory.Verified? && !Matches(w.files, DiskAt(Final), size) {
      assert Numbered(w.clock, Quarantine(w.clock));
      BuildOverlayOutcome(o, w, Final, factory.digest, size);
      var (v, ok) := BuildOverlay(o, w, Final, factory.digest, size);
      var h := if DiskAt(Final) in w.files && v.files != w.files then Moved(w.files, DiskAt(Final), Quarantine(w.clock)) else w.files;
      forall p | p in w.files && Keeps(p) ensures exists q :: q in v.files && Keeps(q) && v.files[q] == w.files[p] {
        var q := if p == DiskAt(Final) && v.files != w.files then Quarantine(w.clock) else p;
        assert Same(h, v.files, q);
      }
      forall n, p | v.clock <= n && Numbered(n, p) ensures p !in v.files {
        assert Same(h, v.files, p);
      }
    }
  }

  // ---- Resetting ------------------------------------------------------------------------------

  /** Preparing in a fresh staging folder touches nothing else. */
  lemma PrepareStage(o: Oracle, w: Disk, stage: nat, factory: Factory, size: int)
    requires FreshNames(w.files, stage)
    ensures var (v, ok) := Prepare(o, w, Stage(stage), factory, size);
      && Elsewhere(w.files, v.files, Stage(stage)) && w.clock <= v.clock
      && (ok ==>
            && factory.Verified?
            && DiskAt(Stage(stage)) in v.files && v.files[DiskAt(Stage(stage))] == Overlay(size, factory.digest, "")
            && IdentityAt(Stage(stage)) in v.files && v.files[IdentityAt(Stage(stage))] == Identity(factory.digest))
  {
    hide BuildOverlay;
    assert Numbered(stage, DiskAt(Stage(stage)));
    if factory.Verified? {
      assert Numbered(stage, IdentityAt(Stage(stage))) && Numbered(stage, PartAt(Stage(stage)));
      StageBuild(o, w, stage, factory.digest, size);
    }
  }

  lemma StageBuild(o: Oracle, w: Disk, stage: nat, digest: Digest, size: int)
    requires DiskAt(Stage(stage)) !in w.files
    ensures var (v, ok) := BuildOverlay(o, w, Stage(stage), digest, size);
      Fills(w.files, v.files, Stage(stage), digest, size, ok) && w.clock <= v.clock
  {
    hide FillPlace;
    FillPlaceOutcome(o, w, Stage(stage), digest, size);
  }

  /** The old pair is whole in a before-reset folder. */
  ghost predicate HeldAt(f: Files, g: Files, n: nat)
    requires DiskAt(Final) in f && IdentityAt(Final) in f
  {
    && DiskAt(Retained(n)) in g && g[DiskAt(Retained(n))] == f[DiskAt(Final)]
    && IdentityAt(Retained(n)) in g && g[IdentityAt(Retained(n))] == f[IdentityAt(Final)]
  }

  /** What staging leaves, at whatever point, keeps pair and overlays. */
  lemma StagedIsHarmless(f: Files, g: Files, stage: nat, clock: nat)
    requires Paired(f) && Elsewhere(f, g, Stage(stage)) && stage < clock && FreshNames(f, stage)
    ensures Paired(g) && FreshNames(g, clock) && NothingLost(f, g)
    ensures Same(f, g, DiskAt(Final)) && Same(f, g, IdentityAt(Final))
  {
    assert Same(f, g, DiskAt(Final)) && Same(f, g, IdentityAt(Final));
    forall p | p in f && Keeps(p) ensures exists q :: q in g && Keeps(q) && g[q] == f[p] {
      assert Same(f, g, p);
    }
    forall n, p | clock <= n && Numbered(n, p) ensures p !in g {
      assert Same(f, g, p);
    }
  }

  /** Where a reset stands after some of its moves: none has run into an existing
      file, and a pair or no disk is under the final names. */
  ghost predicate ResetReaches(f: Files, stage: nat, retained: nat, digest: Digest, size: int, k: nat)
    requires k <= |ResetMoves(f, stage, retained)| && IdentityAt(Final) in f
  {
    var moves := ResetMoves(f, stage, retained);
    var g := After(f, moves, k);
    && Clear(f, moves) && Paired(g)
    && (forall p :: Keeps(p) && p != DiskAt(Final) && p != DiskAt(Retained(retained)) ==> Same(f, g, p))
    && (forall p :: p in g ==> p in f || p == DiskAt(Final) || p == DiskAt(Retained(retained)) || p == IdentityAt(Retained(retained)))
    && (DiskAt(Final) in f ==>
          || Same(f, g, DiskAt(Final))
          || (DiskAt(Retained(retained)) in g && g[DiskAt(Retained(retained))] == f[DiskAt(Final)]))
    && (k == |moves| ==>
          && DiskAt(Final) in g && g[DiskAt(Final)] == Overlay(size, digest, "")
          && IdentityAt(Retained(retained)) in g && g[IdentityAt(Retained(retained))] == f[IdentityAt(Final)]
          && (DiskAt(Final) in f ==> HeldAt(f, g, retained)))
  }

  /** The list of moves a reset builds never runs into an existing file, and
      every prefix of it leaves a pair, or no disk, under the final names. */
  lemma ResetMovesKeepPair(f: Files, stage: nat, retained: nat, digest: Digest, size: int, k: nat)
    requires Paired(f) && IdentityAt(Final) in f
    requires DiskAt(Stage(stage)) in f && f[DiskAt(Stage(stage))] == Overlay(size, digest, "")
    requires IdentityAt(Stage(stage)) in f && f[IdentityAt(Stage(stage))] == Identity(digest)
    requires DiskAt(Retained(retained)) !in f && IdentityAt(Retained(retained)) !in f
    requires k <= |ResetMoves(f, stage, retained)|
    ensures ResetReaches(f, stage, retained, digest, size, k)
  {
    hide ResetReaches, Paired, ResetMoves;
    if DiskAt(Final) in f {
      ResetWithDisk(f, stage, retained, digest, size, k);
    } else {
      ResetWithoutDisk(f, stage, retained, digest, size, k);
    }
  }

  /** The four moves that set a disk aside, one state after the other. */
  lemma ResetWithDisk(f: Files, stage: nat, retained: nat, digest: Digest, size: int, k: nat)
    requires Paired(f) && IdentityAt(Final) in f && DiskAt(Final) in f
    requires DiskAt(Stage(stage)) in f && f[DiskAt(Stage(stage))] == Overlay(size, digest, "")
    requires IdentityAt(Stage(stage)) in f && f[IdentityAt(Stage(stage))] == Identity(digest)
    requires DiskAt(Retained(retained)) !in f && IdentityAt(Retained(retained)) !in f
    requires k <= |ResetMoves(f, stage, retained)|
    ensures ResetReaches(f, stage, retained, digest, size, k)
  {
    var moves := ResetMoves(f, stage, retained);
    assert |moves| == 4;
    hide ResetMoves;
    NoMoves(f, moves);
    MoveDone(f, moves, 0);
    MoveDone(f, moves, 1);
    MoveDone(f, moves, 2);
    MoveDone(f, moves, 3);
    hide After;
  }

  /** The three moves without one. */
  lemma ResetWithoutDisk(f: Files, stage: nat, retained: nat, digest: Digest, size: int, k: nat)
    requires Paired(f) && IdentityAt(Final) in f && DiskAt(Final) !in f
    requires DiskAt(Stage(stage)) in f && f[DiskAt(Stage(stage))] == Overlay(size, digest, "")
    requires IdentityAt(Stage(stage)) in f && f[IdentityAt(Stage(stage))] == Identity(digest)
    requires DiskAt(Retained(retained)) !in f && IdentityAt(Retained(retained)) !in f
    requires k <= |ResetMoves(f, stage, retained)|
    ensures ResetReaches(f, stage, retained, digest, size, k)
  {
    var moves := ResetMoves(f, stage, retained);
    assert |moves| == 3;
    NoMoves(f, moves);
    MoveDone(f, moves, 0);
    MoveDone(f, moves, 1);
    MoveDone(f, moves, 2);
  }

  /** The renames of a reset, with the staged pair ready. */
  lemma PublishStaged(o: Oracle, w: Disk, stage: nat, retained: nat, digest: Digest, size: int)
    requires Paired(w.files) && IdentityAt(Final) in w.files && FreshNames(w.files, retained)
    requires stage < retained < w.clock && w.alive
    requires DiskAt(Stage(stage)) in w.files && w.files[DiskAt(Stage(stage))] == Overlay(size, digest, "")
    requires IdentityAt(Stage(stage)) in w.files && w.files[IdentityAt(Stage(stage))] == Identity(digest)
    ensures var (v, ok) := Publish(o, w, ResetMoves(w.files, stage, retained), 0);
      && Paired(v.files) && FreshNames(v.files, v.clock) && NothingLost(w.files, v.files)
      && (ok ==>
            && DiskAt(Final) in v.files && v.files[DiskAt(Final)] == Overlay(size, digest, "")
            && (DiskAt(Final) in w.files ==> HeldAt(w.files, v.files, retained)))
  {
    hide Publish, After, Clear;
    assert Numbered(retained, DiskAt(Retained(retained))) && Numbered(retained, IdentityAt(Retained(retained)));
    var moves := ResetMoves(w.files, stage, retained);
    ResetMovesKeepPair(w.files, stage, retained, digest, size, 0);
    PublishLeavesPrefix(o, w, moves);
    var k := Kept(o, w.clock, |moves|);
    ResetMovesKeepPair(w.files, stage, retained, digest, size, k);
    var g := After(w.files, moves, k);
    forall p | p in w.files && Keeps(p) ensures exists q :: q in g && Keeps(q) && g[q] == w.files[p] {
      assert Same(w.files, g, p) || p == DiskAt(Final) || p == DiskAt(Retained(retained));
    }
  }

  ghost predicate Sound(w: Disk) {
    Paired(w.files) && FreshNames(w.files, w.clock)
  }

  lemma RemoveStageIsHarmless(o: Oracle, w: Disk, stage: nat)
    requires Sound(w)
    ensures var v := RemoveStage(o, w, stage);
      Sound(v) && NothingLost(w.files, v.files) && forall p: Path :: p.Quarantine? || p.place != Stage(stage) ==> Same(w.files, v.files, p)
  {
    var v := RemoveStage(o, w, stage);
    forall p | p in w.files && Keeps(p) ensures p in v.files && v.files[p] == w.files[p] {
    }
  }

  lemma StandingStill(f: Files, clock: nat, later: nat)
    requires FreshNames(f, clock) && clock <= later
    ensures FreshNames(f, later) && NothingLost(f, f)
  {
  }

  lemma NothingLostTransitive(f: Files, g: Files, h: Files)
    requires NothingLost(f, g) && NothingLost(g, h)
    ensures NothingLost(f, h)
  {
    forall p | p in f && Keeps(p) ensures exists q :: q in h && Keeps(q) && h[q] == f[p] {
      var q :| q in g && Keeps(q) && g[q] == f[p];
    }
  }

  ghost predicate FreshPair(f: Files, g: Files, factory: Factory, size: int) {
    && factory.Verified?
    && DiskAt(Final) in g && g[DiskAt(Final)] == Overlay(size, factory.digest, "")
    && (DiskAt(Final) in f && IdentityAt(Final) in f ==> exists n :: HeldAt(f, g, n))
  }

  lemma PublishAndClean(o: Oracle, w: Disk, stage: nat, retained: nat, factory: Factory, size: int)
    requires Paired(w.files) && IdentityAt(Final) in w.files && FreshNames(w.files, retained) && factory.Verified?
    requires stage < retained < w.clock && w.alive
    requires DiskAt(Stage(stage)) in w.files && w.files[DiskAt(Stage(stage))] == Overlay(size, factory.digest, "")
    requires IdentityAt(Stage(stage)) in w.files && w.files[IdentityAt(Stage(stage))] == Identity(factory.digest)
    ensures var (w1, ok) := Publish(o, w, ResetMoves(w.files, stage, retained), 0);
      var v := RemoveStage(o, w1, stage);
      Sound(v) && NothingLost(w.files, v.files) && (ok ==> FreshPair(w.files, v.files, factory, size))
  {
    hide Publish, RemoveStage, FreshNames, NothingLost, Paired, ResetMoves;
    PublishStaged(o, w, stage, retained, factory.digest, size);
    var (w1, ok) := Publish(o, w, ResetMoves(w.files, stage, retained), 0);
    RemoveStageIsHarmless(o, w1, stage);
    var v := RemoveStage(o, w1, stage);
    NothingLostTransitive(w.files, w1.files, v.files);
    if ok {
      assert Same(w1.files, v.files, DiskAt(Final));
      assert Same(w1.files, v.files, DiskAt(Retained(retained)));
      assert Same(w1.files, v.files, IdentityAt(Retained(retained)));
      assert DiskAt(Final) in w.files ==> HeldAt(w.files, v.files, retained);
    }
  }

  lemma SamePairHeld(f: Files, f': Files, g: Files, factory: Factory, size: int)
    requires Same(f, f', DiskAt(Final)) && Same(f, f', IdentityAt(Final)) && FreshPair(f', g, factory, size)
    ensures FreshPair(f, g, factory, size)
  {
    if DiskAt(Final) in f && IdentityAt(Final) in f {
      var n :| HeldAt(f', g, n);
      assert HeldAt(f, g, n);
    }
  }

  lemma ReplaceStaged(o: Oracle, f: Files, w: Disk, stage: nat, retained: nat, factory: Factory, size: int)
    requires Same(f, w.files, DiskAt(Final)) && Same(f, w.files, IdentityAt(Final)) && NothingLost(f, w.files)
    requires Paired(w.files) && IdentityAt(Final) in w.files && FreshNames(w.files, retained) && factory.Verified?
    requires stage < retained < w.clock && w.alive
    requires DiskAt(Stage(stage)) in w.files && w.files[DiskAt(Stage(stage))] == Overlay(size, factory.digest, "")
    requires IdentityAt(Stage(stage)) in w.files && w.files[IdentityAt(Stage(stage))] == Identity(factory.digest)
    ensures var (w1, ok) := Publish(o, w, ResetMoves(w.files, stage, retained), 0);
      var v := RemoveStage(o, w1, stage);
      Sound(v) && NothingLost(f, v.files) && (ok ==> FreshPair(f, v.files, factory, size))
  {
    hide Publish, RemoveStage, FreshNames, NothingLost, Paired, ResetMoves, FreshPair, Sound;
    PublishAndClean(o, w, stage, retained, factory, size);
    var (w1, ok) := Publish(o, w, ResetMoves(w.files, stage, retained), 0);
    NothingLostTransitive(f, w.files, RemoveStage(o, w1, stage).files);
    if ok {
      SamePairHeld(f, w.files, RemoveStage(o, w1, stage).files, factory, size);
    }
  }

  lemma CleanAfterFailure(o: Oracle, f: Files, w: Disk, stage: nat)
    requires Sound(w) && NothingLost(f, w.files)
    ensures Sound(RemoveStage(o, w, stage)) && NothingLost(f, RemoveStage(o, w, stage).files)
  {
    hide RemoveStage, NothingLost, Sound;
    RemoveStageIsHarmless(o, w, stage);
    NothingLostTransitive(f, w.files, RemoveStage(o, w, stage).files);
  }

  lemma ReplaceByStagedOutcome(o: Oracle, f: Files, w: Disk, stage: nat, factory: Factory, size: int)
    requires Same(f, w.files, DiskAt(Final)) && Same(f, w.files, IdentityAt(Final)) && NothingLost(f, w.files)
    requires Sound(w) && IdentityAt(Final) in w.files && factory.Verified? && stage < w.clock
    requires DiskAt(Stage(stage)) in w.files && w.files[DiskAt(Stage(stage))] == Overlay(size, factory.digest, "")
    requires IdentityAt(Stage(stage)) in w.files && w.files[IdentityAt(Stage(stage))] == Identity(factory.digest)
    ensures var (v, ok) := ReplaceByStaged(o, w, stage);
      Sound(v) && NothingLost(f, v.files) && (ok ==> FreshPair(f, v.files, factory, size))
  {
    hide Publish, RemoveStage, FreshNames, NothingLost, Paired, ResetMoves, FreshPair;
    var (w1, going) := w.Check(o);
    if going {
      ReplaceStaged(o, f, w1, stage, w.clock, factory, size);
    } else {
      StandingStill(w.files, w.clock, w1.clock);
      CleanAfterFailure(o, f, w1, stage);
    }
  }

  lemma ReplacePairOutcome(o: Oracle, w: Disk, factory: Factory, size: int)
    requires Sound(w) && IdentityAt(Final) in w.files
    ensures var (v, ok) := ReplacePair(o, w, factory, size);
      Sound(v) && NothingLost(w.files, v.files) && (ok ==> FreshPair(w.files, v.files, factory, size))
  {
    hide Prepare, ReplaceByStaged, RemoveStage, Elsewhere, FreshNames, NothingLost, Paired, FreshPair;
    var stage := w.clock;
    var (w2, staged) := w.Check(o);
    StandingStill(w.files, stage, w2.clock);
    if staged {
      PrepareStage(o, w2, stage, factory, size);
      var (w3, prepared) := Prepare(o, w2, Stage(stage), factory, size);
      StagedIsHarmless(w.files, w3.files, stage, w3.clock);
      if prepared {
        ReplaceByStagedOutcome(o, w.files, w3, stage, factory, size);
      } else {
        CleanAfterFailure(o, w.files, w3, stage);
      }
    }
  }

  /** A reset keeps the pair and every overlay at every point. A successful one
      leaves a new overlay of the current factory image, and the old pair whole
      in a before-reset folder. */
  lemma ResetKeepsPair(o: Oracle, w: Disk, factory: Factory, size: int)
    requires Sound(w)
    ensures var (v, ok) := Reset(o, w, factory, size);
      && Sound(v) && NothingLost(w.files, v.files)
      && (ok ==> factory.Verified? && Matches(v.files, DiskAt(Final), size) && v.files[DiskAt(Final)].over == factory.digest)
      && (ok && DiskAt(Final) in w.files ==> FreshPair(w.files, v.files, factory, size))
  {
    hide Prepare, ReplacePair;
    if DiskAt(Final) !in w.files && IdentityAt(Final) !in w.files {
      PrepareKeepsPair(o, w, factory, size);
    } else {
      var (w1, locked) := if DiskAt(Final) in w.files then w.Check(o) else (w, true);
      ReplacePairOutcome(o, w1, factory, size);
    }
  }

  /** When nothing fails, preparing succeeds exactly on a matching pair of the
      current factory image, or where a new pair may be built. */
  lemma PrepareSucceedsIff(o: Oracle, w: Disk, place: Place, factory: Factory, size: int)
    requires w.alive && Healthy(o) && Quarantine(w.clock) !in w.files
    ensures var foreign := IdentityAt(place) in w.files && (factory.Verified? ==> w.files[IdentityAt(place)] != Identity(factory.digest));
      Prepare(o, w, place, factory, size).1 <==>
      && factory.Verified? && !foreign
      && if Matches(w.files, DiskAt(place), size) then IdentityAt(place) in w.files else ValidSize(size)
  {
  }

  // ---- Without faults ---------------------------------------------------------------------

  /** Preparing where there is neither disk nor identity. */
  lemma HealthyFirstPrepare(o: Oracle, w: Disk, place: Place, factory: Factory, size: int)
    requires w.alive && Healthy(o)
    requires DiskAt(place) !in w.files && IdentityAt(place) !in w.files
    ensures var (v, ok) := Prepare(o, w, place, factory, size);
      && v.alive && w.clock <= v.clock && (ok <==> factory.Verified? && ValidSize(size))
      && (if ok then
            v.files == (w.files - {PartAt(place)})[IdentityAt(place) := Identity(factory.digest)][DiskAt(place) := Overlay(size, factory.digest, "")]
          else v.files == w.files || v.files == w.files - {PartAt(place)})
  {
    if factory.Verified? {
      var w1 := w.Remove(o, PartAt(place)).0;
      if ValidSize(size) {
        var w2 := CreateOverlay(o, w1, PartAt(place), size, factory.digest).0;
        assert w2.files == w1.files[PartAt(place) := Overlay(size, factory.digest, "")];
        var w3 := WriteIdentity(o, w2.Check(o).0, place, factory.digest).0;
        var w4 := w3.RenameFile(o, PartAt(place), DiskAt(place)).0;
        assert w4.files == (w.files - {PartAt(place)})[IdentityAt(place) := Identity(factory.digest)][DiskAt(place) := Overlay(size, factory.digest, "")];
      }
    }
  }

  lemma HealthyReplaceByStaged(o: Oracle, w: Disk, stage: nat, digest: Digest, size: int)
    requires Sound(w) && IdentityAt(Final) in w.files && stage < w.clock && w.alive && Healthy(o)
    requires DiskAt(Stage(stage)) in w.files && w.files[DiskAt(Stage(stage))] == Overlay(size, digest, "")
    requires IdentityAt(Stage(stage)) in w.files && w.files[IdentityAt(Stage(stage))] == Identity(digest)
    ensures var (v, ok) := ReplaceByStaged(o, w, stage);
      ok && v.alive && Replaced(w.files, v.files, digest, size)
      && forall p: Path :: p in v.files && !p.Quarantine? && p.place.Stage? ==> p in w.files && p.place != Stage(stage)
  {
    hide After, Clear, ResetMoves, Publish;
    var retained, w1 := w.clock, w.Check(o).0;
    assert Numbered(retained, DiskAt(Retained(retained))) && Numbered(retained, IdentityAt(Retained(retained)));
    var moves := ResetMoves(w1.files, stage, retained);
    ResetMovesKeepPair(w1.files, stage, retained, digest, size, |moves|);
    HealthyPublish(o, w1, moves);
    var g, v := After(w1.files, moves, |moves|), ReplaceByStaged(o, w, stage).0;
    assert v.files == g - {DiskAt(Stage(stage)), IdentityAt(Stage(stage)), PartAt(Stage(stage))};
    assert HoldsOld(w.files, v.files, retained);
  }

  /** The new pair is in place, and what was there is whole in a before-reset folder. */
  ghost predicate Replaced(f: Files, g: Files, digest: Digest, size: int)
    requires IdentityAt(Final) in f
  {
    && DiskAt(Final) in g && g[DiskAt(Final)] == Overlay(size, digest, "")
    && IdentityAt(Final) in g && g[IdentityAt(Final)] == Identity(digest)
    && exists n :: HoldsOld(f, g, n)
  }

  ghost predicate HoldsOld(f: Files, g: Files, n: nat)
    requires IdentityAt(Final) in f
  {
    && IdentityAt(Retained(n)) in g && g[IdentityAt(Retained(n))] == f[IdentityAt(Final)]
    && (DiskAt(Final) in f ==> DiskAt(Retained(n)) in g && g[DiskAt(Retained(n))] == f[DiskAt(Final)])
  }

  /** Without faults a reset succeeds exactly for a verified factory image and a
      valid size. Then the new pair is in place and what was there is whole in a
      before-reset folder; if not, neither disk nor identity has changed. */
  lemma ResetSucceedsIff(o: Oracle, w: Disk, factory: Factory, size: int)
    requires Sound(w) && w.alive && Healthy(o)
    ensures var (v, ok) := Reset(o, w, factory, size);
      && (ok <==> factory.Verified? && ValidSize(size))
      && (!ok ==> Same(w.files, v.files, DiskAt(Final)) && Same(w.files, v.files, IdentityAt(Final)))
      && (ok ==>
            && DiskAt(Final) in v.files && v.files[DiskAt(Final)] == Overlay(size, factory.digest, "")
            && IdentityAt(Final) in v.files && v.files[IdentityAt(Final)] == Identity(factory.digest)
            && (IdentityAt(Final) in w.files ==> Replaced(w.files, v.files, factory.digest, size)))
      && (forall p: Path :: p in v.files && !p.Quarantine? && p.place.Stage? ==> p in w.files)
  {
    hide Prepare, ReplaceByStaged, Reset;
    if DiskAt(Final) !in w.files && IdentityAt(Final) !in w.files {
      FirstResetPrepares(o, w, factory, size);
      HealthyFirstPrepare(o, w, Final, factory, size);
    } else {
      HealthyResetOfPair(o, w, factory, size);
    }
  }

  lemma FirstResetPrepares(o: Oracle, w: Disk, factory: Factory, size: int)
    requires DiskAt(Final) !in w.files && IdentityAt(Final) !in w.files
    ensures Reset(o, w, factory, size) == Prepare(o, w, Final, factory, size)
  {
  }

  ghost predicate Replaces(f: Files, g: Files, factory: Factory, size: int, ok: bool)
    requires IdentityAt(Final) in f
  {
    && (ok <==> factory.Verified? && ValidSize(size))
    && (if ok then Replaced(f, g, factory.digest, size) else Same(f, g, DiskAt(Final)) && Same(f, g, IdentityAt(Final)))
    && (forall p: Path :: p in g && !p.Quarantine? && p.place.Stage? ==> p in f)
  }

  lemma HealthyResetOfPair(o: Oracle, w: Disk, factory: Factory, size: int)
    requires Sound(w) && w.alive && Healthy(o) && IdentityAt(Final) in w.files
    ensures var (v, ok) := Reset(o, w, factory, size);
      Replaces(w.files, v.files, factory, size, ok)
  {
    hide ReplacePair, Replaces, FreshNames, Paired;
    var w1 := if DiskAt(Final) in w.files then w.Check(o).0 else w;
    StandingStill(w.files, w.clock, w1.clock);
    HealthyReplacePair(o, w1, factory, size);
  }

  lemma HealthyReplacePair(o: Oracle, w: Disk, factory: Factory, size: int)
    requires Sound(w) && w.alive && Healthy(o) && IdentityAt(Final) in w.files
    ensures var (v, ok) := ReplacePair(o, w, factory, size);
      Replaces(w.files, v.files, factory, size, ok)
  {
    hide Prepare, ReplaceByStaged, Replaces, FreshNames, Paired, NothingLost, Elsewhere, Replaced;
    var stage, w2 := w.clock, w.Check(o).0;
    StageIsFree(w.files, w.clock, stage);
    StandingStill(w.files, w.clock, w2.clock);
    HealthyFirstPrepare(o, w2, Stage(stage), factory, size);
    var (w3, prepared) := Prepare(o, w2, Stage(stage), factory, size);
    if prepared {
      PrepareStage(o, w2, stage, factory, size);
      StagedIsHarmless(w.files, w3.files, stage, w3.clock);
      HealthyReplaceByStaged(o, w3, stage, factory.digest, size);
      StillReplaced(w.files, w3.files, ReplaceByStaged(o, w3, stage).0.files, stage, factory, size);
    } else {
      assert w3.files == w.files by { NothingToClear(w.files, w3.files, PartAt(Stage(stage))); }
      NothingReplaced(w.files, RemoveStage(o, w3, stage).files, stage, factory, size);
    }
  }

  lemma NothingToClear(f: Files, g: Files, p: Path)
    requires p !in f && (g == f || g == f - {p})
    ensures g == f
  {
  }

  lemma NothingReplaced(f: Files, g: Files, stage: nat, factory: Factory, size: int)
    requires IdentityAt(Final) in f && !(factory.Verified? && ValidSize(size))
    requires g == f - {DiskAt(Stage(stage)), IdentityAt(Stage(stage)), PartAt(Stage(stage))}
    ensures Replaces(f, g, factory, size, false)
  {
  }

  lemma StageIsFree(f: Files, clock: nat, stage: nat)
    requires FreshNames(f, clock) && clock <= stage
    ensures DiskAt(Stage(stage)) !in f && IdentityAt(Stage(stage)) !in f && PartAt(Stage(stage)) !in f
  {
    assert Numbered(stage, DiskAt(Stage(stage))) && Numbered(stage, IdentityAt(Stage(stage))) && Numbered(stage, PartAt(Stage(stage)));
  }

  lemma StillReplaced(f: Files, staged: Files, g: Files, stage: nat, factory: Factory, size: int)
    requires Same(f, staged, DiskAt(Final)) && Same(f, staged, IdentityAt(Final)) && IdentityAt(Final) in f
    requires factory.Verified? && ValidSize(size) && Replaced(staged, g, factory.digest, size)
    requires Elsewhere(f, staged, Stage(stage))
    requires forall p: Path :: p in g && !p.Quarantine? && p.place.Stage? ==> p in staged && p.place != Stage(stage)
    ensures Replaces(f, g, factory, size, true)
  {
    var n :| HoldsOld(staged, g, n);
    assert HoldsOld(f, g, n);
    forall p: Path | p in g && !p.Quarantine? && p.place.Stage? ensures p in f {
      assert Same(f, staged, p);
    }
  }

  // ---- Any history of a portable installation ----------------------------------------------------

  /** A launch with some size setting, the guest running and writing, a reset,
      or another payload replacing the factory image. */
  datatype Event = Start(size: int) | Run(guest: string) | StartFresh(size: int) | ReplaceFactory(factory: Factory)

  datatype Stick = Stick(w: Disk, factory: Factory)

  function Step(o: Oracle, s: Stick, e: Event): Stick {
    match e
    case Start(size) => s.(w := Prepare(o, s.w.Restart(), Final, s.factory, size).0)
    case StartFresh(size) => s.(w := Reset(o, s.w.Restart(), s.factory, size).0)
    case ReplaceFactory(factory) => s.(factory := factory)
    case Run(guest) =>
      if DiskAt(Final) in s.w.files && s.w.files[DiskAt(Final)].Overlay?
      then s.(w := s.w.(files := s.w.files[DiskAt(Final) := s.w.files[DiskAt(Final)].(guest := guest)]))
      else s
  }

  function History(o: Oracle, s: Stick, events: seq<Event>): Stick
    decreases |events|
  {
    if events == [] then s else History(o, Step(o, s, events[0]), events[1..])
  }

  lemma StepKeepsPair(o: Oracle, s: Stick, e: Event)
    requires Sound(s.w)
    ensures Sound(Step(o, s, e).w) && (!e.Run? ==> NothingLost(s.w.files, Step(o, s, e).w.files))
  {
    hide Prepare, Reset;
    match e
    case Start(size) => PrepareKeepsPair(o, s.w.Restart(), s.factory, size);
    case StartFresh(size) => ResetKeepsPair(o, s.w.Restart(), s.factory, size);
    case ReplaceFactory(factory) =>
    case Run(guest) =>
  }

  lemma {:induction false} HistoryKeepsPair(o: Oracle, s: Stick, events: seq<Event>)
    requires Sound(s.w)
    ensures Sound(History(o, s, events).w)
    ensures (forall e :: e in events ==> !e.Run?) ==> NothingLost(s.w.files, History(o, s, events).w.files)
    decreases |events|
  {
    hide Step, Sound, NothingLost;
    if events == [] {
      SoundStandsStill(s.w);
    } else {
      var t := Step(o, s, events[0]);
      StepKeepsPair(o, s, events[0]);
      HistoryKeepsPair(o, t, events[1..]);
      if forall e :: e in events ==> !e.Run? {
        assert forall e :: e in events[1..] ==> e in events;
        NothingLostTransitive(s.w.files, t.w.files, History(o, t, events[1..]).w.files);
      }
    }
  }

  lemma {:induction false} HistoryContinues(o: Oracle, s: Stick, before: seq<Event>, after: seq<Event>)
    ensures History(o, s, before + after) == History(o, History(o, s, before), after)
    decreases |before|
  {
    hide Step;
    if before == [] {
      assert before + after == after;
    } else {
      assert (before + after)[0] == before[0] && (before + after)[1..] == before[1..] + after;
      HistoryContinues(o, Step(o, s, before[0]), before[1..], after);
    }
  }

  /** Whatever came before, what the guest has written by its last run is never
      lost: launches, resets and factory changes after it keep every overlay. */
  lemma LastWriteSurvives(o: Oracle, s: Stick, before: seq<Event>, after: seq<Event>)
    requires Sound(s.w) && forall e :: e in after ==> !e.Run?
    ensures NothingLost(History(o, s, before).w.files, History(o, s, before + after).w.files)
  {
    hide History, Sound, NothingLost;
    HistoryKeepsPair(o, s, before);
    HistoryKeepsPair(o, History(o, s, before), after);
    HistoryContinues(o, s, before, after);
  }

  lemma SoundStandsStill(w: Disk)
    requires Sound(w)
    ensures NothingLost(w.files, w.files)
  {
    StandingStill(w.files, w.clock, w.clock);
  }

  // ---- The operations as the launcher runs them ---------------------------------------------------

  method WritePortableBackingState(m: Machine<Path, Content>, place: Place, digest: Digest) returns (ok: bool)
    modifies m
    ensures (m.View(), ok) == WriteIdentity(m.oracle, old(m.View()), place, digest)
  {
    if IdentityAt(place) in m.files {
      return m.files[IdentityAt(place)] == Identity(digest);
    }
    ok := m.Replace(IdentityAt(place), Identity(digest));
  }

  method CreateQcow2Overlay(m: Machine<Path, Content>, p: Path, size: int, over: Digest) returns (ok: bool)
    modifies m
    ensures (m.View(), ok) == CreateOverlay(m.oracle, old(m.View()), p, size, over)
  {
    if !ValidSize(size) || p in m.files {
      return false;
    }
    var wasAlive := m.alive;
    ok := m.Pass();
    if ok {
      m.files := m.files[p := Overlay(size, over, "")];
    } else if wasAlive && !m.alive {
      m.files := m.files[p := Other];
    }
  }

  method PreparePortableDisk(m: Machine<Path, Content>, place: Place, factory: Factory, size: int) returns (ok: bool)
    modifies m
    ensures (m.View(), ok) == Prepare(m.oracle, old(m.View()), place, factory, size)
  {
    if factory.Unverified? {
      return false;
    }
    var disk, tmp := DiskAt(place), PartAt(place);
    if Matches(m.files, disk, size) {
      return IdentityAt(place) in m.files && m.files[IdentityAt(place)] == Identity(factory.digest);
    }
    if disk in m.files {
      var quarantined := m.RenameFile(disk, Quarantine(m.clock));
      if !quarantined {
        return false;
      }
    }
    var cleared := m.Remove(tmp);
    if !cleared {
      return false;
    }
    var created := CreateQcow2Overlay(m, tmp, size, factory.digest);
    if !created {
      return false;
    }
    ok := m.Pass();
    if ok {
      ok := WritePortableBackingState(m, place, factory.digest);
    }
    if ok {
      ok := m.RenameFile(tmp, disk);
    }
    if !ok {
      var _ := m.Remove(tmp);
    }
  }

  method RemoveStagingFolder(m: Machine<Path, Content>, n: nat)
    modifies m
    ensures m.View() == RemoveStage(m.oracle, old(m.View()), n)
  {
    var works := m.Pass();
    if works {
      m.files := m.files - {DiskAt(Stage(n)), IdentityAt(Stage(n)), PartAt(Stage(n))};
    }
  }

  /** The pair aside, then the staged one into its place. */
  method BuildMoves(files: Files, stage: nat, retained: nat) returns (moves: seq<Move<Path>>)
    ensures moves == ResetMoves(files, stage, retained)
  {
    moves := [];
    if DiskAt(Final) in files {
      moves := moves + [Move(DiskAt(Final), DiskAt(Retained(retained)))];
    }
    if IdentityAt(Final) in files {
      moves := moves + [Move(IdentityAt(Final), IdentityAt(Retained(retained)))];
    }
    moves := moves + [Move(IdentityAt(Stage(stage)), IdentityAt(Final)), Move(DiskAt(Stage(stage)), DiskAt(Final))];
  }

  method PublishStagedPair(m: Machine<Path, Content>, stage: nat) returns (ok: bool)
    modifies m
    ensures (m.View(), ok) == ReplaceByStaged(m.oracle, old(m.View()), stage)
  {
    hide ResetMoves, Publish, RemoveStage;
    var retained := m.clock;
    var going := m.Pass();
    if !going {
      RemoveStagingFolder(m, stage);
      return false;
    }
    var moves := BuildMoves(m.files, stage, retained);
    ok := PublishMoves(m, moves);
    RemoveStagingFolder(m, stage);
  }

  method ResetPortableDisk(m: Machine<Path, Content>, factory: Factory, size: int) returns (ok: bool)
    modifies m
    ensures (m.View(), ok) == Reset(m.oracle, old(m.View()), factory, size)
  {
    hide Prepare, ReplaceByStaged, RemoveStage;
    if DiskAt(Final) !in m.files && IdentityAt(Final) !in m.files {
      ok := PreparePortableDisk(m, Final, factory, size);
      return;
    }
    if DiskAt(Final) in m.files {
      var locked := m.Pass();
      if !locked {
        return false;
      }
    }
    var stage := m.clock;
    var staged := m.Pass();
    if !staged {
      return false;
    }
    var prepared := PreparePortableDisk(m, Stage(stage), factory, size);
    if !prepared {
      RemoveStagingFolder(m, stage);
      return false;
    }
    ok := PublishStagedPair(m, stage);
  }
}
