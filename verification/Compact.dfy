// Giving the zero blocks of a stopped guest's disk back to the host
// (punchZeroBlocks in compact.go).
module Compact {
  import opened Bytes

  const BLOCK := 0x10_0000

  /** A stretch of the disk handed to the host as a hole. */
  datatype Hole = Hole(offset: nat, length: nat) {
    predicate Covers(i: int) {
      offset <= i < offset + length
    }
  }

  /** The block an offset lies in is all zeros, up to the size looked at. */
  ghost predicate InZeroBlock(disk: seq<byte>, size: nat, i: nat)
    requires size <= |disk|
  {
    ZeroBlock(disk, size, i / BLOCK * BLOCK)
  }

  ghost predicate ZeroBlock(disk: seq<byte>, size: nat, start: nat)
    requires size <= |disk|
  {
    forall j :: start <= j < Least(start + BLOCK, size) ==> disk[j] == 0
  }

  /** In order, not empty, and with something between any two: no two holes could be one. */
  ghost predicate Separated(holes: seq<Hole>) {
    && (forall k :: 0 <= k < |holes| ==> 0 < holes[k].length)
    && (forall j, k :: 0 <= j < k < |holes| ==> holes[j].offset + holes[j].length < holes[k].offset)
  }

  ghost predicate Covered(holes: seq<Hole>, i: int) {
    exists k :: 0 <= k < |holes| && holes[k].Covers(i)
  }

  /** Exactly the zero blocks below an offset. */
  ghost predicate CoversZeroBlocks(disk: seq<byte>, size: nat, holes: seq<Hole>, off: nat)
    requires size <= |disk|
  {
    && (forall k :: 0 <= k < |holes| ==> holes[k].offset + holes[k].length <= off)
    && forall i :: 0 <= i < off ==> (Covered(holes, i) <==> InZeroBlock(disk, size, i))
  }

  /** Only zero blocks. */
  ghost predicate OnlyZeroBlocks(disk: seq<byte>, size: nat, holes: seq<Hole>)
    requires size <= |disk|
  {
    forall k :: 0 <= k < |holes| ==> ZeroHole(disk, size, holes[k])
  }

  ghost predicate ZeroHole(disk: seq<byte>, size: nat, h: Hole)
    requires size <= |disk|
  {
    forall i :: h.Covers(i) ==> i < size && disk[i] == 0
  }

  function Total(holes: seq<Hole>): nat {
    if holes == [] then 0 else Total(holes[..|holes| - 1]) + holes[|holes| - 1].length
  }

  lemma OneMoreRun(holes: seq<Hole>, run: Hole)
    ensures Total(holes + [run]) == Total(holes) + run.length
  {
    assert (holes + [run])[..|holes|] == holes;
  }

  // ---- Holes read as zeros -----------------------------------------------------------

  function PunchedBy(disk: seq<byte>, h: Hole): (r: seq<byte>)
    ensures |r| == |disk|
  {
    seq(|disk|, i requires 0 <= i < |disk| => if h.Covers(i) then 0 else disk[i])
  }

  function PunchedByAll(disk: seq<byte>, holes: seq<Hole>): seq<byte> {
    if holes == [] then disk else PunchedBy(PunchedByAll(disk, holes[..|holes| - 1]), holes[|holes| - 1])
  }

  lemma {:induction false} ReadsAreUnchanged(disk: seq<byte>, size: nat, holes: seq<Hole>)
    requires size <= |disk| && OnlyZeroBlocks(disk, size, holes)
    ensures PunchedByAll(disk, holes) == disk
  {
    if holes != [] {
      var n := |holes| - 1;
      var shorter := holes[..n];
      ReadsAreUnchanged(disk, size, shorter);
      assert ZeroHole(disk, size, holes[n]);
      assert PunchedBy(disk, holes[n]) == disk;
    }
  }

  /** A byte in a hole reads as zero, and any other as it was. */
  lemma {:induction false} HolesReadAsZeros(disk: seq<byte>, holes: seq<Hole>, i: nat)
    requires i < |disk|
    ensures |PunchedByAll(disk, holes)| == |disk|
    ensures PunchedByAll(disk, holes)[i] == if exists k :: 0 <= k < |holes| && holes[k].Covers(i) then 0 else disk[i]
  {
    if holes != [] {
      var n := |holes| - 1;
      HolesReadAsZeros(disk, holes[..n], i);
      assert forall k :: 0 <= k < n ==> holes[..n][k] == holes[k];
    }
  }

  lemma CoveredIsZero(disk: seq<byte>, size: nat, holes: seq<Hole>, off: nat)
    requires size <= |disk| && off <= size && CoversZeroBlocks(disk, size, holes, off)
    ensures OnlyZeroBlocks(disk, size, holes)
  {
    forall k | 0 <= k < |holes| ensures ZeroHole(disk, size, holes[k]) {
      forall i | holes[k].Covers(i) ensures i < size && disk[i] == 0 {
        assert Covered(holes, i);
        assert InZeroBlock(disk, size, i);
      }
    }
  }

  /** Two lists of separated holes that cover the same offsets are the same list. */
  lemma {:induction false} HolesAreUnique(a: seq<Hole>, b: seq<Hole>)
    requires Separated(a) && Separated(b) && forall i :: Covered(a, i) <==> Covered(b, i)
    ensures a == b
    decreases |a|
  {
    if a == [] {
      if b != [] {
        NotEmptyCovers(b);
        assert false;
      }
    } else {
      assert a[0].Covers(a[0].offset);
      assert Covered(a, a[0].offset);
      assert b[0].Covers(b[0].offset) && Covered(b, b[0].offset);
      FirstHoles(a, b);
      FirstHoles(b, a);
      forall i ensures Covered(a[1..], i) <==> Covered(b[1..], i) {
        TailCovers(a, i);
        TailCovers(b, i);
      }
      HolesAreUnique(a[1..], b[1..]);
    }
  }

  lemma NotEmptyCovers(a: seq<Hole>)
    requires a != [] && Separated(a)
    ensures Covered(a, a[0].offset)
  {
    assert a[0].Covers(a[0].offset);
  }

  lemma FirstHoles(a: seq<Hole>, b: seq<Hole>)
    requires a != [] && b != [] && Separated(a) && Separated(b) && forall i :: Covered(a, i) <==> Covered(b, i)
    ensures a[0].offset <= b[0].offset && (a[0].offset == b[0].offset ==> a[0].length <= b[0].length)
  {
    assert b[0].Covers(b[0].offset);
    assert Covered(b, b[0].offset);
    if a[0].offset == b[0].offset {
      var end := b[0].offset + b[0].length;
      forall k | 0 <= k < |b| ensures !b[k].Covers(end) {
        assert k > 0 ==> b[0].offset + b[0].length < b[k].offset;
      }
      assert !Covered(b, end);
      assert Covered(a, end) || !a[0].Covers(end);
    }
  }

  lemma TailCovers(a: seq<Hole>, i: int)
    requires a != [] && Separated(a)
    ensures Covered(a[1..], i) <==> Covered(a, i) && !a[0].Covers(i)
  {
    if Covered(a, i) && !a[0].Covers(i) {
      var k :| 0 <= k < |a| && a[k].Covers(i);
      assert a[1..][k - 1].Covers(i);
    }
    if Covered(a[1..], i) {
      var k :| 0 <= k < |a[1..]| && a[1..][k].Covers(i);
      assert a[k + 1].Covers(i);
    }
  }

  /** Nothing but zeros from one offset to another. */
  ghost predicate Zeroed(disk: seq<byte>, off: nat, next: nat)
    requires next <= |disk|
  {
    forall j :: off <= j < next ==> disk[j] == 0
  }

  // ---- One block more -------------------------------------------------------------------

  ghost predicate EndsBefore(holes: seq<Hole>, off: nat) {
    forall k :: 0 <= k < |holes| ==> holes[k].offset + holes[k].length < off
  }

  lemma BlockOf(disk: seq<byte>, size: nat, off: nat, next: nat, i: nat)
    requires size <= |disk| && off % BLOCK == 0 && off < size && next == Least(off + BLOCK, size) && off <= i < next
    ensures InZeroBlock(disk, size, i) <==> Zeroed(disk, off, next)
  {
    assert i / BLOCK * BLOCK == off;
  }

  /** A block with data ends the run. */
  lemma DataBlock(disk: seq<byte>, size: nat, holes: seq<Hole>, off: nat, next: nat)
    requires size <= |disk| && off % BLOCK == 0 && off < size && next == Least(off + BLOCK, size)
    requires CoversZeroBlocks(disk, size, holes, off) && !Zeroed(disk, off, next)
    ensures CoversZeroBlocks(disk, size, holes, next) && EndsBefore(holes, next)
  {
    forall i | off <= i < next ensures !InZeroBlock(disk, size, i) && !Covered(holes, i) {
      BlockOf(disk, size, off, next, i);
    }
  }

  /** A zero block starts a run. */
  lemma FirstZeroBlock(disk: seq<byte>, size: nat, holes: seq<Hole>, off: nat, next: nat)
    requires size <= |disk| && off % BLOCK == 0 && off < size && next == Least(off + BLOCK, size)
    requires Separated(holes) && EndsBefore(holes, off) && CoversZeroBlocks(disk, size, holes, off)
    requires Zeroed(disk, off, next)
    ensures var more := holes + [Hole(off, next - off)];
      Separated(more) && CoversZeroBlocks(disk, size, more, next)
  {
    var more := holes + [Hole(off, next - off)];
    assert more[|holes|] == Hole(off, next - off);
    forall i | 0 <= i < next ensures Covered(more, i) <==> InZeroBlock(disk, size, i) {
      if off <= i {
        BlockOf(disk, size, off, next, i);
        assert more[|holes|].Covers(i);
      } else {
        SameBefore(holes, more, i);
      }
    }
  }

  lemma SameBefore(holes: seq<Hole>, more: seq<Hole>, i: int)
    requires holes != more ==> |more| == |holes| + 1 && more[..|holes|] == holes && !more[|holes|].Covers(i)
    ensures Covered(more, i) <==> Covered(holes, i)
  {
    if Covered(holes, i) {
      var k :| 0 <= k < |holes| && holes[k].Covers(i);
      assert more[k] == holes[k];
    }
    if Covered(more, i) && holes != more {
      var k :| 0 <= k < |more| && more[k].Covers(i);
      assert more[..|holes|][k] == holes[k];
    }
  }

  /** A zero block extends the run. */
  lemma NextZeroBlock(disk: seq<byte>, size: nat, holes: seq<Hole>, run: Hole, off: nat, next: nat)
    requires size <= |disk| && off % BLOCK == 0 && off < size && next == Least(off + BLOCK, size)
    requires run.offset + run.length == off
    requires Separated(holes + [run]) && CoversZeroBlocks(disk, size, holes + [run], off)
    requires Zeroed(disk, off, next)
    ensures var more := holes + [Hole(run.offset, next - run.offset)];
      Separated(more) && CoversZeroBlocks(disk, size, more, next)
  {
    var was, more := holes + [run], holes + [Hole(run.offset, next - run.offset)];
    assert was[|holes|] == run && more[|holes|] == Hole(run.offset, next - run.offset);
    forall j, k | 0 <= j < k < |more| ensures more[j].offset + more[j].length < more[k].offset {
      assert was[j] == more[j] && was[k].offset == more[k].offset;
    }
    forall k | 0 <= k < |more| ensures more[k].offset + more[k].length <= next && 0 < more[k].length {
      assert k < |holes| ==> was[k] == more[k];
    }
    forall i | 0 <= i < next ensures Covered(more, i) <==> InZeroBlock(disk, size, i) {
      if off <= i {
        BlockOf(disk, size, off, next, i);
        assert more[|holes|].Covers(i);
      } else if run.Covers(i) {
        assert was[|holes|].Covers(i) && more[|holes|].Covers(i);
      } else {
        SameBefore(holes, was, i);
        SameBefore(holes, more, i);
      }
    }
  }

  // ---- The scan ------------------------------------------------------------------------

  datatype Verdict = Complete | Unreadable | Unpunchable

  /** The scan of one disk, with the run of zero blocks it is in. */
  class Scan {
    const disk: seq<byte>
    const size: nat
    const readable: nat -> bool // whether a block can be read
    const punchable: nat -> bool // whether the n-th hole can be punched
    var holes: seq<Hole>
    var reclaimed: nat
    var runStart: nat
    var runLength: nat

    constructor (disk: seq<byte>, size: nat, readable: nat -> bool, punchable: nat -> bool)
      requires size <= |disk|
      ensures this.disk == disk && this.size == size && this.readable == readable && this.punchable == punchable
      ensures At(0)
    {
      this.disk, this.size, this.readable, this.punchable := disk, size, readable, punchable;
      holes, reclaimed, runStart, runLength := [], 0, 0, 0;
    }

    /** The holes and the current run cover exactly the zero blocks so far. */
    ghost predicate At(off: nat)
      reads this
    {
      && size <= |disk| && off <= size && (off % BLOCK == 0 || off == size)
      && reclaimed == Total(holes)
      && (runLength > 0 ==> runStart + runLength == off)
      && (runLength == 0 ==> EndsBefore(holes, off))
      && Separated(Pending()) && CoversZeroBlocks(disk, size, Pending(), off)
    }

    ghost function Pending(): seq<Hole>
      reads this
    {
      if runLength > 0 then holes + [Hole(runStart, runLength)] else holes
    }

    method Flush() returns (ok: bool)
      modifies this`holes, this`reclaimed, this`runLength
      ensures ok ==> runLength == 0 && holes == old(Pending()) && reclaimed == old(reclaimed) + old(runLength)
      ensures !ok ==> holes == old(holes) && reclaimed == old(reclaimed) && runLength == old(runLength)
      ensures ok <==> old(runLength) == 0 || punchable(|old(holes)|)
    {
      if runLength == 0 {
        return true;
      }
      if !punchable(|holes|) {
        return false;
      }
      holes := holes + [Hole(runStart, runLength)];
      reclaimed := reclaimed + runLength;
      runLength := 0;
      return true;
    }

    /** A zero block joins the run or starts one. */
    method Extend(offset: nat, n: nat)
      requires At(offset) && offset < size && n == Least(BLOCK, size - offset)
      requires Zeroed(disk, offset, offset + n)
      modifies this`runStart, this`runLength
      ensures At(offset + n)
    {
      hide Separated, CoversZeroBlocks, Zeroed, Total;
      assert offset % BLOCK == 0;
      if runLength == 0 {
        FirstZeroBlock(disk, size, holes, offset, offset + n);
        runStart := offset;
      } else {
        NextZeroBlock(disk, size, holes, Hole(runStart, runLength), offset, offset + n);
      }
      runLength := runLength + n;
    }

    method ReadsZero(offset: nat, n: nat) returns (zero: bool)
      requires offset + n <= |disk|
      ensures zero <==> Zeroed(disk, offset, offset + n)
    {
      var buf := disk[offset..offset + n];
      zero := IsZero(buf);
      assert forall j :: offset <= j < offset + n ==> buf[j - offset] == disk[j];
    }

    /** A block with data ends the run. */
    method EndRun(offset: nat, n: nat) returns (ok: bool)
      requires At(offset) && offset < size && n == Least(BLOCK, size - offset)
      requires !Zeroed(disk, offset, offset + n)
      modifies this`holes, this`reclaimed, this`runLength
      ensures ok ==> At(offset + n)
      ensures !ok ==> Sound()
      ensures (forall n :: punchable(n)) ==> ok
    {
      hide Separated, OnlyZeroBlocks, CoversZeroBlocks, PunchedByAll, Zeroed, Total;
      assert offset % BLOCK == 0;
      DataBlock(disk, size, Pending(), offset, offset + n);
      PendingIsSound(offset);
      OneMoreRun(holes, Hole(runStart, runLength));
      ok := Flush();
    }

    /** What has been punched so far changes nothing, and is counted. */
    ghost predicate Sound()
      requires size <= |disk|
      reads this
    {
      Separated(holes) && OnlyZeroBlocks(disk, size, holes) && PunchedByAll(disk, holes) == disk && reclaimed == Total(holes)
    }

    /** One block joins the run or ends it. */
    method Block(offset: nat, n: nat) returns (ok: bool)
      requires At(offset) && offset < size && n == Least(BLOCK, size - offset)
      modifies this
      ensures ok ==> At(offset + n)
      ensures !ok ==> Sound()
      ensures (forall n :: punchable(n)) ==> ok
    {
      hide At, Sound, Zeroed;
      assert offset + n <= |disk| by { AtIsInside(offset); }
      var zero := ReadsZero(offset, n);
      if zero {
        Extend(offset, n);
        ok := true;
      } else {
        ok := EndRun(offset, n);
      }
    }

    lemma AtIsInside(off: nat)
      requires At(off)
      ensures off <= size <= |disk|
    {
    }

    method Run() returns (verdict: Verdict)
      requires At(0) && holes == [] && size <= |disk|
      modifies this
      ensures Separated(holes) && OnlyZeroBlocks(disk, size, holes) && reclaimed == Total(holes)
      ensures PunchedByAll(disk, holes) == disk
      ensures verdict.Complete? ==> CoversZeroBlocks(disk, size, holes, size)
      ensures (forall n :: readable(n)) && (forall n :: punchable(n)) ==> verdict.Complete?
    {
      hide Separated, OnlyZeroBlocks, CoversZeroBlocks, PunchedByAll;
      var offset := 0;
      while offset < size
        invariant At(offset)
      {
        var n := Least(BLOCK, size - offset);
        if !readable(offset) {
          PendingIsSound(offset);
          return Unreadable;
        }
        var ok := Block(offset, n);
        if !ok {
          return Unpunchable;
        }
        offset := offset + n;
      }
      PendingIsSound(offset);
      var ok := Flush();
      if !ok {
        return Unpunchable;
      }
      CoveredIsZero(disk, size, holes, size);
      ReadsAreUnchanged(disk, size, holes);
      return Complete;
    }

    lemma PendingIsSound(off: nat)
      requires At(off)
      ensures Separated(holes) && OnlyZeroBlocks(disk, size, holes) && PunchedByAll(disk, holes) == disk
    {
      CoveredIsZero(disk, size, Pending(), off);
      assert forall j, k :: 0 <= j < k < |holes| ==> Pending()[j] == holes[j] && Pending()[k] == holes[k];
      assert forall k :: 0 <= k < |holes| ==> Pending()[k] == holes[k];
      forall k | 0 <= k < |holes| ensures ZeroHole(disk, size, holes[k]) {
        assert Pending()[k] == holes[k];
      }
      ReadsAreUnchanged(disk, size, holes);
    }
  }
}
