// What building and resetting the standard disk come to when exactly one call fails:
// all of it or nothing of it.
module StandardDiskOutcomes {
  import opened FaultyFs
  import opened Bytes
  import opened RenameTransaction
  import opened StandardDisk

  lemma WritePartWithOneFault(o: Oracle, w: Disk, place: Place, factory: Factory, capacity: nat, k: nat)
    requires w.alive && FailsOnceAt(o, w.clock + k) && Fits(factory, capacity) && PartAt(place) !in w.files
    ensures var (v, ok) := WritePart(o, w, place, factory, capacity);
      && (ok <==> 4 <= k)
      && v == if ok then World(w.files[PartAt(place) := Expanded(factory.image, capacity)], w.clock + 4, true)
              else World(w.files, w.clock + (if k < 2 then k + 1 else k + 2), true)
  {
    hide Expanded;
    var part, disk := PartAt(place), Expanded(factory.image, capacity);
    var w2 := World(w.files[part := []], w.clock + 2, true);
    var w3 := World(w.files[part := factory.image], w.clock + 3, true);
    if k == 2 {
      assert w.Check(o).0.Replace(o, part, []) == (w2, true);
      StagedGone(w.files, part, []);
    } else if k >= 3 {
      assert w2.files[part := factory.image] == w3.files;
      assert w3.files[part := disk] == w.files[part := disk];
      StagedGone(w.files, part, factory.image);
    }
  }

  lemma StagedGone(f: Files, part: Path, s: seq<byte>)
    requires part !in f
    ensures f[part := s] - {part} == f
  {
  }

  /** A build makes six calls. If one of them fails there is no new disk, and the
      staging file is gone, unless it was already there and could not be cleared. */
  lemma BuildWithOneFault(o: Oracle, w: Disk, place: Place, factory: Factory, capacity: nat, k: nat)
    requires w.alive && FailsOnceAt(o, w.clock + k) && Fits(factory, capacity)
    ensures var (v, ok) := Build(o, w, place, factory, capacity);
      && v.alive && (ok <==> 6 <= k)
      && v.clock == w.clock + (if 6 <= k then 6 else if k <= 2 then k + 1 else k + 2)
      && v.files == if ok then (w.files - {PartAt(place)})[DiskAt(place) := Expanded(factory.image, capacity)]
                    else if k == 0 then w.files else w.files - {PartAt(place)}
  {
    hide Expanded, WritePart;
    if k > 0 {
      var w1 := w.Remove(o, PartAt(place)).0;
      WritePartWithOneFault(o, w1, place, factory, capacity, k - 1);
      var disk := Expanded(factory.image, capacity);
      assert w1.files[PartAt(place) := disk] - {PartAt(place)} == w1.files;
      assert Moved(w1.files[PartAt(place) := disk], PartAt(place), DiskAt(place)) == w1.files[DiskAt(place) := disk];
    }
  }

  /** Growing a disk keeps its bytes whichever call fails, and success means that it has grown. */
  lemma GrowWithOneFault(o: Oracle, w: Disk, place: Place, capacity: nat, k: nat)
    requires w.alive && FailsOnceAt(o, w.clock + k) && DiskAt(place) in w.files && |w.files[DiskAt(place)]| <= capacity
    ensures var (v, ok) := Grow(o, w, place, capacity);
      && v.alive && (ok <==> 3 <= k)
      && v.files == if k < 2 then w.files else w.files[DiskAt(place) := Expanded(w.files[DiskAt(place)], capacity)]
  {
  }

  /** The new disk in place, the old one kept. */
  function Replaced(f: Files, retained: nat, factory: Factory, capacity: nat): Files
    requires DiskAt(Final) in f && Fits(factory, capacity)
  {
    f[Retained(retained) := f[DiskAt(Final)]][DiskAt(Final) := Expanded(factory.image, capacity)]
  }

  /** Replacing a disk makes thirteen calls. Whichever of them fails, either all of it
      has happened or nothing has: no folder is left behind, and the disk is the one
      that was there. */
  lemma ResetWithOneFault(o: Oracle, w: Disk, factory: Factory, capacity: nat, k: nat)
    requires FreshNames(w) && w.alive && FailsOnceAt(o, w.clock + k) && DiskAt(Final) in w.files && Fits(factory, capacity)
    ensures var (v, ok) := Reset(o, w, false, factory, capacity);
      && v.alive && (ok <==> 12 <= k)
      && v.files == if ok then Replaced(w.files, w.clock + 9, factory, capacity) else w.files
  {
    hide Build, Publish, Expanded;
    var stage := w.clock + 1;
    assert Numbered(stage, DiskAt(Stage(stage))) && Numbered(stage, PartAt(Stage(stage)));
    assert w.files - {DiskAt(Stage(stage)), PartAt(Stage(stage))} == w.files;
    if k > 2 {
      var w3 := World(w.files, w.clock + 3, true);
      BuildWithOneFault(o, w3, Stage(stage), factory, capacity, k - 3);
      var (w4, built) := Build(o, w3, Stage(stage), factory, capacity);
      assert w.files - {PartAt(Stage(stage))} == w.files;
      assert w.files[DiskAt(Stage(stage)) := Expanded(factory.image, capacity)] - {DiskAt(Stage(stage)), PartAt(Stage(stage))} == w.files;
      if 9 < k {
        ReplaceWithOneFault(o, w, World(w4.files, w.clock + 10, true), factory, capacity, k);
      }
    }
  }

  lemma ReplaceWithOneFault(o: Oracle, w: Disk, u: Disk, factory: Factory, capacity: nat, k: nat)
    requires FreshNames(w) && w.alive && FailsOnceAt(o, w.clock + k) && 9 < k && DiskAt(Final) in w.files && Fits(factory, capacity)
    requires u == World(w.files[DiskAt(Stage(w.clock + 1)) := Expanded(factory.image, capacity)], w.clock + 10, true)
    ensures var (u1, ok) := Publish(o, u, ResetMoves(w.clock + 1, w.clock + 9), 0);
      var v := RemoveStage(o, u1, w.clock + 1);
      && v.alive && (ok <==> 12 <= k)
      && v.files == if ok then Replaced(w.files, w.clock + 9, factory, capacity) else w.files
  {
    hide Expanded;
    var stage, retained := w.clock + 1, w.clock + 9;
    var moves := ResetMoves(stage, retained);
    assert Numbered(stage, DiskAt(Stage(stage))) && Numbered(stage, PartAt(Stage(stage))) && Numbered(retained, Retained(retained));
    var gone := {DiskAt(Stage(stage)), PartAt(Stage(stage))};
    assert u.files - gone == w.files;
    ResetStates(u.files, stage, retained);
    hide ResetMoves, Publish, Clear, After;
    PublishWithOneFault(o, u, moves, k - 10);
    var g := After(u.files, moves, 2);
    assert |moves| == 2 && g - gone == Replaced(w.files, retained, factory, capacity);
  }
}
