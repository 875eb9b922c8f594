// What preparing and resetting the portable disk come to when every call works,
// and when exactly one of them fails.
module PortableDiskOutcomes {
  import opened FaultyFs
  import opened RenameTransaction
  import opened PortableDisk

  /** The files once a disk in the way has been set aside. */
  function SetAside(f: Files, place: Place, q: nat): Files {
    if DiskAt(place) in f then Moved(f, DiskAt(place), Quarantine(q)) else f
  }

  function Filled(f: Files, place: Place, digest: Digest, size: int): Files {
    (f - {PartAt(place)})[IdentityAt(place) := Identity(digest)][DiskAt(place) := Overlay(size, digest, "")]
  }

  ghost predicate Foreign(f: Files, place: Place, digest: Digest) {
    IdentityAt(place) in f && f[IdentityAt(place)] != Identity(digest)
  }

  /** A disk that can be kept: an overlay of the size asked for. */
  ghost predicate Keepable(f: Files, place: Place, size: int) {
    DiskAt(place) in f && f[DiskAt(place)].Overlay? && f[DiskAt(place)].size == size
  }

  /** Without faults: nothing changes for an image that is not verified or a disk that
      matches. Any other disk is set aside, and a new pair takes its place, unless the
      size is not valid or the identity there is of another image. */
  lemma HealthyPrepare(o: Oracle, w: Disk, place: Place, factory: Factory, size: int)
    requires w.alive && Healthy(o) && Quarantine(w.clock) !in w.files
    ensures var v := Prepare(o, w, place, factory, size).0;
      && v.alive
      && v.files ==
         if factory.Unverified? || Keepable(w.files, place, size) then w.files
         else
           var f := SetAside(w.files, place, w.clock);
           if ValidSize(size) && !Foreign(w.files, place, factory.digest) then Filled(f, place, factory.digest, size)
           else f - {PartAt(place)}
  {
    if factory.Verified? && !Matches(w.files, DiskAt(place), size) {
      var w1 := if DiskAt(place) in w.files then w.RenameFile(o, DiskAt(place), Quarantine(w.clock)).0 else w;
      assert w1.files == SetAside(w.files, place, w.clock);
      HealthyFill(o, w1, place, factory.digest, size);
    }
  }

  lemma HealthyFill(o: Oracle, w: Disk, place: Place, digest: Digest, size: int)
    requires w.alive && Healthy(o) && DiskAt(place) !in w.files
    ensures var v := FillPlace(o, w, place, digest, size).0;
      && v.alive
      && v.files == if ValidSize(size) && !Foreign(w.files, place, digest) then Filled(w.files, place, digest, size)
                    else w.files - {PartAt(place)}
  {
    var w1 := w.Remove(o, PartAt(place)).0;
    if ValidSize(size) {
      var w2 := CreateOverlay(o, w1, PartAt(place), size, digest).0;
      assert w2.files == w1.files[PartAt(place) := Overlay(size, digest, "")];
      assert w2.files - {PartAt(place)} == w1.files;
      var w3 := WriteIdentity(o, w2.Check(o).0, place, digest).0;
      if !Foreign(w.files, place, digest) {
        assert Moved(w3.files, PartAt(place), DiskAt(place)) == Filled(w.files, place, digest, size);
      }
    }
  }

  /** Filling an empty place makes five calls. If one of them fails there is no disk, and
      what was staged is gone; only an identity can have been written. */
  lemma FillWithOneFault(o: Oracle, w: Disk, place: Place, digest: Digest, size: int, k: nat)
    requires w.alive && FailsOnceAt(o, w.clock + k) && ValidSize(size)
    requires DiskAt(place) !in w.files && IdentityAt(place) !in w.files
    ensures var (v, ok) := FillPlace(o, w, place, digest, size);
      && v.alive && (ok <==> 5 <= k)
      && (if ok then v.clock == w.clock + 5 else w.clock + k < v.clock)
      && v.files == if ok then Filled(w.files, place, digest, size)
                    else if k == 0 then w.files
                    else if k == 4 then (w.files - {PartAt(place)})[IdentityAt(place) := Identity(digest)]
                    else w.files - {PartAt(place)}
  {
    var w1 := w.Remove(o, PartAt(place)).0;
    if k > 1 {
      var w2 := CreateOverlay(o, w1, PartAt(place), size, digest).0;
      assert w2.files == w1.files[PartAt(place) := Overlay(size, digest, "")];
      assert w2.files - {PartAt(place)} == w1.files;
      if k > 3 {
        var f := w2.files[IdentityAt(place) := Identity(digest)];
        assert f - {PartAt(place)} == w1.files[IdentityAt(place) := Identity(digest)];
        assert Moved(f, PartAt(place), DiskAt(place)) == Filled(w.files, place, digest, size);
      }
    }
  }

  ghost predicate Unstaged(f: Files, n: nat) {
    DiskAt(Stage(n)) !in f && IdentityAt(Stage(n)) !in f && PartAt(Stage(n)) !in f
  }

  /** Replacing a pair makes thirteen calls. Whichever of them fails, either all of it
      has happened or nothing has, with no folder left behind. */
  lemma ResetWithOneFault(o: Oracle, w: Disk, factory: Factory, size: int, k: nat)
    requires Sound(w) && w.alive && FailsOnceAt(o, w.clock + k) && DiskAt(Final) in w.files
    requires factory.Verified? && ValidSize(size)
    ensures var (v, ok) := Reset(o, w, factory, size);
      && v.alive && (ok <==> 12 <= k)
      && (if ok then PortableDisk.Replaced(w.files, v.files, factory.digest, size) && Unstaged(v.files, w.clock + 1)
          else v.files == w.files)
  {
    hide FillPlace, ReplaceByStaged, Filled;
    var stage, digest := w.clock + 1, factory.digest;
    var gone := {DiskAt(Stage(stage)), IdentityAt(Stage(stage)), PartAt(Stage(stage))};
    assert Numbered(stage, DiskAt(Stage(stage))) && Numbered(stage, IdentityAt(Stage(stage))) && Numbered(stage, PartAt(Stage(stage)));
    assert w.files - gone == w.files && w.files - {PartAt(Stage(stage))} == w.files;
    if k > 1 {
      var w2 := World(w.files, w.clock + 2, true);
      FillWithOneFault(o, w2, Stage(stage), digest, size, k - 2);
      var (w3, filled) := FillPlace(o, w2, Stage(stage), digest, size);
      assert w.files[IdentityAt(Stage(stage)) := Identity(digest)] - gone == w.files;
      if filled {
        StagedPair(w.files, stage, digest, size);
        ReplaceWithOneFault(o, w, w3, digest, size, k);
      }
    }
  }

  lemma StagedPair(f: Files, stage: nat, digest: Digest, size: int)
    requires Unstaged(f, stage)
    ensures var g := Filled(f, Stage(stage), digest, size);
      && g - {DiskAt(Stage(stage)), IdentityAt(Stage(stage)), PartAt(Stage(stage))} == f
      && DiskAt(Stage(stage)) in g && g[DiskAt(Stage(stage))] == Overlay(size, digest, "")
      && IdentityAt(Stage(stage)) in g && g[IdentityAt(Stage(stage))] == Identity(digest)
      && PartAt(Stage(stage)) !in g
      && Same(f, g, DiskAt(Final)) && Same(f, g, IdentityAt(Final))
      && forall n :: Same(f, g, DiskAt(Retained(n))) && Same(f, g, IdentityAt(Retained(n)))
  {
    var g := Filled(f, Stage(stage), digest, size);
    assert g - {DiskAt(Stage(stage)), IdentityAt(Stage(stage)), PartAt(Stage(stage))} == f;
  }

  lemma ReplaceWithOneFault(o: Oracle, w: Disk, u: Disk, digest: Digest, size: int, k: nat)
    requires Sound(w) && w.alive && FailsOnceAt(o, w.clock + k) && 7 <= k && DiskAt(Final) in w.files
    requires u == World(Filled(w.files, Stage(w.clock + 1), digest, size), w.clock + 7, true) && Unstaged(w.files, w.clock + 1)
    ensures var (v, ok) := ReplaceByStaged(o, u, w.clock + 1);
      && v.alive && (ok <==> 12 <= k)
      && (if ok then PortableDisk.Replaced(w.files, v.files, digest, size) && Unstaged(v.files, w.clock + 1)
          else v.files == w.files)
  {
    hide Publish, After, Clear, Filled, ResetMoves;
    var stage, retained := w.clock + 1, w.clock + 7;
    StagedPair(w.files, stage, digest, size);
    assert Numbered(retained, DiskAt(Retained(retained))) && Numbered(retained, IdentityAt(Retained(retained)));
    if k > 7 {
      var u1 := u.Check(o).0;
      var moves := ResetMoves(u1.files, stage, retained);
      FourMoves(u1.files, stage, retained);
      ResetMovesKeepPair(u1.files, stage, retained, digest, size, |moves|);
      PublishWithOneFault(o, u1, moves, k - 8);
      MovedOut(u1.files, stage, retained, digest, size);
      var (u2, ok) := Publish(o, u1, moves, 0);
      if ok {
        var v := RemoveStage(o, u2, stage);
        assert HoldsOld(w.files, v.files, retained);
      }
    }
  }

  lemma FourMoves(f: Files, stage: nat, retained: nat)
    requires DiskAt(Final) in f && IdentityAt(Final) in f
    ensures |ResetMoves(f, stage, retained)| == 4
  {
  }

  /** The moves empty the staging folder. */
  lemma MovedOut(f: Files, stage: nat, retained: nat, digest: Digest, size: int)
    requires DiskAt(Final) in f && IdentityAt(Final) in f && PartAt(Stage(stage)) !in f
    requires DiskAt(Stage(stage)) in f && IdentityAt(Stage(stage)) in f && f[IdentityAt(Stage(stage))] == Identity(digest)
    requires DiskAt(Retained(retained)) !in f && IdentityAt(Retained(retained)) !in f
    ensures var moves := ResetMoves(f, stage, retained);
      var g := After(f, moves, |moves|);
      Unstaged(g, stage) && IdentityAt(Final) in g && g[IdentityAt(Final)] == Identity(digest)
  {
    var moves := ResetMoves(f, stage, retained);
    assert |moves| == 4;
    NoMoves(f, moves);
    MoveDone(f, moves, 0);
    MoveDone(f, moves, 1);
    MoveDone(f, moves, 2);
    MoveDone(f, moves, 3);
    hide After;
  }

  // ---- Creating, and a disk without an identity ------------------------------------------------

  /** An overlay is only created under a free name and in a valid size; a creation that
      fails in a live process leaves nothing. */
  lemma CreationOutcome(o: Oracle, w: Disk, p: Path, size: int, over: Digest)
    ensures var (v, ok) := CreateOverlay(o, w, p, size, over);
      && (ok <==> ValidSize(size) && p !in w.files && w.Permits(o))
      && v.files == if ok then w.files[p := Overlay(size, over, "")]
                    else if v.alive || !w.alive then w.files
                    else if ValidSize(size) && p !in w.files then w.files[p := Other]
                    else w.files
  {
  }

  /** A disk of the right size is not run without its identity, and it is not touched. */
  lemma NoIdentityNoRun(o: Oracle, w: Disk, factory: Factory, size: int)
    requires IdentityAt(Final) !in w.files && Keepable(w.files, Final, size)
    ensures Prepare(o, w, Final, factory, size) == (w, false)
  {
  }

  /** A reset still sets such a disk aside. */
  lemma ResetWithoutIdentity(o: Oracle, w: Disk, factory: Factory, size: int)
    requires FreshNames(w.files, w.clock) && w.alive && Healthy(o)
    requires DiskAt(Final) in w.files && IdentityAt(Final) !in w.files
    ensures var (v, ok) := Reset(o, w, factory, size);
      && v.alive && (ok <==> factory.Verified? && ValidSize(size))
      && (if ok then
            && DiskAt(Final) in v.files && v.files[DiskAt(Final)] == Overlay(size, factory.digest, "")
            && IdentityAt(Final) in v.files && v.files[IdentityAt(Final)] == Identity(factory.digest)
            && (exists n :: DiskAt(Retained(n)) in v.files && v.files[DiskAt(Retained(n))] == w.files[DiskAt(Final)])
            && Unstaged(v.files, w.clock + 1)
          else v.files == w.files)
  {
    hide Prepare, ReplaceByStaged, Filled;
    var stage := w.clock + 1;
    var gone := {DiskAt(Stage(stage)), IdentityAt(Stage(stage)), PartAt(Stage(stage))};
    assert Numbered(stage, DiskAt(Stage(stage))) && Numbered(stage, IdentityAt(Stage(stage))) && Numbered(stage, PartAt(Stage(stage)));
    assert w.files - gone == w.files && w.files - {PartAt(Stage(stage))} == w.files;
    var w2 := World(w.files, w.clock + 2, true);
    HealthyFirstPrepare(o, w2, Stage(stage), factory, size);
    var (w3, prepared) := Prepare(o, w2, Stage(stage), factory, size);
    if prepared {
      assert w3.files == Filled(w.files, Stage(stage), factory.digest, size) by { StagedIsFilled(w.files, w3.files, stage, factory.digest, size); }
      StagedPair(w.files, stage, factory.digest, size);
      ReplaceWithoutIdentity(o, w, w3, factory.digest, size);
    }
  }

  lemma StagedIsFilled(f: Files, g: Files, stage: nat, digest: Digest, size: int)
    requires g == (f - {PartAt(Stage(stage))})[IdentityAt(Stage(stage)) := Identity(digest)][DiskAt(Stage(stage)) := Overlay(size, digest, "")]
    ensures g == Filled(f, Stage(stage), digest, size)
  {
  }

  lemma ReplaceWithoutIdentity(o: Oracle, w: Disk, u: Disk, digest: Digest, size: int)
    requires FreshNames(w.files, w.clock) && w.clock + 1 < u.clock && u.alive && Healthy(o)
    requires DiskAt(Final) in w.files && IdentityAt(Final) !in w.files && Unstaged(w.files, w.clock + 1)
    requires u.files == Filled(w.files, Stage(w.clock + 1), digest, size)
    ensures var (v, ok) := ReplaceByStaged(o, u, w.clock + 1);
      && ok && v.alive && Unstaged(v.files, w.clock + 1)
      && DiskAt(Final) in v.files && v.files[DiskAt(Final)] == Overlay(size, digest, "")
      && IdentityAt(Final) in v.files && v.files[IdentityAt(Final)] == Identity(digest)
      && (exists n :: DiskAt(Retained(n)) in v.files && v.files[DiskAt(Retained(n))] == w.files[DiskAt(Final)])
  {
    hide Publish, Filled, After;
    var stage, retained, u1 := w.clock + 1, u.clock, u.Check(o).0;
    StagedPair(w.files, stage, digest, size);
    assert Numbered(retained, DiskAt(Retained(retained))) && Numbered(retained, IdentityAt(Retained(retained)));
    var moves := ResetMoves(u1.files, stage, retained);
    assert |moves| == 3;
    NoMoves(u1.files, moves);
    MoveDone(u1.files, moves, 0);
    MoveDone(u1.files, moves, 1);
    MoveDone(u1.files, moves, 2);
    HealthyPublish(o, u1, moves);
    var v := ReplaceByStaged(o, u, stage).0;
    assert DiskAt(Retained(retained)) in v.files;
  }

  // ---- What the guest wrote ----------------------------------------------------------------------

  /** What the guest wrote in its last run is in some kept overlay, whatever happens after. */
  lemma WrittenIsKept(o: Oracle, s: Stick, guest: string, after: seq<Event>)
    requires Sound(s.w) && DiskAt(Final) in s.w.files && forall e :: e in after ==> !e.Run?
    ensures var g := History(o, Step(o, s, Run(guest)), after).w.files;
      exists p :: p in g && Keeps(p) && g[p].Overlay? && g[p].guest == guest && g[p].over == s.w.files[DiskAt(Final)].over
  {
    hide History, Sound, NothingLost;
    var t := Step(o, s, Run(guest));
    assert Sound(t.w) by { StepKeepsPair(o, s, Run(guest)); }
    assert s.w.files[DiskAt(Final)].Overlay? by { PairIsOverlay(s.w); }
    HistoryKeepsPair(o, t, after);
    KeptSomewhere(t.w.files, History(o, t, after).w.files, DiskAt(Final));
  }

  lemma PairIsOverlay(w: Disk)
    requires Sound(w) && DiskAt(Final) in w.files
    ensures w.files[DiskAt(Final)].Overlay?
  {
  }

  lemma KeptSomewhere(f: Files, g: Files, p: Path)
    requires NothingLost(f, g) && p in f && Keeps(p)
    ensures exists q :: q in g && Keeps(q) && g[q] == f[p]
  {
  }
}
