// Copying with holes: the three copiers that skip zeros (sparseCopy in
// winapi.go, sparseCopyStream in fetch.go, backupSparseWriter in backup.go),
// proved to be plain copies.
module SparseCopy {
  import opened Bytes

  const BLOCK := 0x10_0000

  /** Whether a source offset lies in a block of zeros. */
  ghost predicate Skipped(src: seq<byte>, i: nat) {
    var start := i / BLOCK * BLOCK;
    start <= |src| && AllZero(src[start..Least(start + BLOCK, |src|)])
  }

  /** What copying block by block makes of a target: the source, but for the
      zero blocks, which keep what the target had there. */
  ghost predicate CopiedOver(src: seq<byte>, before: seq<byte>, after: seq<byte>) {
    && |after| == |src|
    && forall i :: 0 <= i < |src| ==>
         after[i] == if Skipped(src, i) && i < |before| then before[i] else src[i]
  }

  /** The copy is exact on an empty target, and in general exactly when no
      skipped block has anything else than zeros in it. */
  lemma ExactIff(src: seq<byte>, before: seq<byte>, after: seq<byte>)
    requires CopiedOver(src, before, after)
    ensures after == src <==> forall i :: 0 <= i < |src| && i < |before| && Skipped(src, i) ==> before[i] == 0
    ensures before == [] ==> after == src
  {
    forall i | 0 <= i < |src| && Skipped(src, i) ensures src[i] == 0 {
      var start := i / BLOCK * BLOCK;
      var s := src[start..Least(start + BLOCK, |src|)];
      assert s[i - start] == src[i];
    }
    if after == src {
      forall i | 0 <= i < |src| && i < |before| && Skipped(src, i) ensures before[i] == 0 {
        assert after[i] == before[i];
      }
    }
  }

  /** Blocks up to an offset are copied, the rest of the target is untouched. */
  ghost predicate CopiedUpTo(src: seq<byte>, before: seq<byte>, target: seq<byte>, off: nat) {
    && (off == |src| || (off < |src| && off % BLOCK == 0))
    && (forall i :: 0 <= i < off ==>
          (if i < |target| then target[i] else 0) == if Skipped(src, i) && i < |before| then before[i] else src[i])
    && (off < |before| ==> |before| <= |target|)
    && (forall i :: off <= i && i < |before| && i < |target| ==> target[i] == before[i])
    && (forall i :: off <= i && |before| <= i && i < |target| ==> target[i] == 0)
  }

  /** The blocks reach from one offset to the next. */
  predicate BlockAt(src: seq<byte>, off: nat, next: nat) {
    off < |src| && off % BLOCK == 0 && next == Least(off + BLOCK, |src|)
  }

  lemma SkippedInBlock(src: seq<byte>, off: nat, next: nat, i: nat)
    requires BlockAt(src, off, next) && off <= i < next
    ensures Skipped(src, i) == AllZero(src[off..next])
    ensures src[off..next][i - off] == src[i] && (AllZero(src[off..next]) ==> src[i] == 0)
  {
    assert i / BLOCK * BLOCK == off;
  }

  lemma CopyBlock(src: seq<byte>, before: seq<byte>, target: seq<byte>, off: nat, next: nat, after: seq<byte>)
    requires CopiedUpTo(src, before, target, off) && off < |src| && next == Least(off + BLOCK, |src|)
    requires after == if AllZero(src[off..next]) then target else WriteAt(target, src[off..next], off)
    ensures CopiedUpTo(src, before, after, next)
  {
    hide CopiedUpTo, AllZero, WriteAt;
    assert BlockAt(src, off, next) by { BlockStarts(src, before, target, off); }
    if AllZero(src[off..next]) {
      SkipBlock(src, before, target, off, next);
    } else {
      WriteBlock(src, before, target, off, next);
    }
  }

  lemma BlockStarts(src: seq<byte>, before: seq<byte>, target: seq<byte>, off: nat)
    requires CopiedUpTo(src, before, target, off) && off < |src|
    ensures off % BLOCK == 0
  {
  }

  lemma SkipBlock(src: seq<byte>, before: seq<byte>, target: seq<byte>, off: nat, next: nat)
    requires CopiedUpTo(src, before, target, off) && BlockAt(src, off, next) && AllZero(src[off..next])
    ensures CopiedUpTo(src, before, target, next)
  {
    hide AllZero, Skipped;
    forall i | off <= i < next ensures Skipped(src, i) && src[i] == 0 {
      SkippedInBlock(src, off, next, i);
    }
  }

  lemma WriteBlock(src: seq<byte>, before: seq<byte>, target: seq<byte>, off: nat, next: nat)
    requires CopiedUpTo(src, before, target, off) && BlockAt(src, off, next) && !AllZero(src[off..next])
    ensures CopiedUpTo(src, before, WriteAt(target, src[off..next], off), next)
  {
    hide AllZero, Skipped, WriteAt;
    var after := WriteAt(target, src[off..next], off);
    forall i | off <= i < next ensures !Skipped(src, i) && after[i] == src[i] {
      SkippedInBlock(src, off, next, i);
    }
  }

  lemma CopyDone(src: seq<byte>, before: seq<byte>, target: seq<byte>)
    requires CopiedUpTo(src, before, target, |src|)
    ensures CopiedOver(src, before, Truncate(target, |src|))
    ensures before == [] ==> Truncate(target, |src|) == src
  {
    hide Skipped, Truncate;
    ExactIff(src, before, Truncate(target, |src|));
  }

  lemma CopyBegins(src: seq<byte>, before: seq<byte>)
    ensures CopiedUpTo(src, before, before, 0)
  {
  }

  /** One block into the target, unless it is all zeros. */
  method PutBlock(ghost src: seq<byte>, ghost before: seq<byte>, target: seq<byte>, off: nat, buf: seq<byte>, broken: bool)
    returns (after: seq<byte>, ok: bool)
    requires CopiedUpTo(src, before, target, off) && off < |src| && buf == src[off..Least(off + BLOCK, |src|)]
    ensures ok ==> CopiedUpTo(src, before, after, off + |buf|)
    ensures !broken ==> ok
  {
    hide CopiedUpTo, AllZero, WriteAt;
    var zero := IsZero(buf);
    if zero {
      after, ok := target, true;
    } else if broken {
      return target, false;
    } else {
      after, ok := WriteAt(target, buf, off), true;
    }
    CopyBlock(src, before, target, off, off + |buf|, after);
  }

  /** From a file. The host decides which reads and writes break off. */
  method CopyFile(src: seq<byte>, before: seq<byte>, broken: nat -> bool) returns (target: seq<byte>, ok: bool)
    ensures ok ==> CopiedOver(src, before, target)
    ensures ok && before == [] ==> target == src
    ensures (forall n :: !broken(n)) ==> ok
  {
    hide CopiedUpTo, CopiedOver;
    target, ok := before, true;
    var off := 0;
    var calls := 0;
    CopyBegins(src, before);
    while true
      invariant ok && off <= |src| && CopiedUpTo(src, before, target, off)
      decreases |src| - off
    {
      if broken(calls) {
        return target, false;
      }
      var n := Least(BLOCK, |src| - off);
      if n > 0 {
        target, ok := PutBlock(src, before, target, off, src[off..off + n], broken(calls + 1));
        if !ok {
          return;
        }
        off := off + n;
      }
      calls := calls + 2;
      if n < BLOCK {
        CopyDone(src, before, target);
        return Truncate(target, off), true;
      }
    }
  }

  lemma NextChunk(chunks: seq<seq<byte>>, k: nat)
    requires k < |chunks|
    ensures Flatten(chunks[k..]) == chunks[k] + Flatten(chunks[k + 1..])
  {
    assert chunks[k..][1..] == chunks[k + 1..];
  }

  lemma NothingLeft(chunks: seq<seq<byte>>, k: nat)
    requires k == |chunks|
    ensures Flatten(chunks[k..]) == []
  {
  }

  lemma Shifted(buf: seq<byte>, rest: seq<byte>, k: nat, more: seq<byte>)
    requires k <= |rest|
    ensures buf + (rest + more) == (buf + rest[..k]) + (rest[k..] + more)
  {
    assert rest == rest[..k] + rest[k..];
  }

  /** A stream that gives its bytes in whatever pieces it likes. */
  class Reader {
    const chunks: seq<seq<byte>>
    var next: nat
    var rest: seq<byte>

    ghost predicate Valid()
      reads this
    {
      next <= |chunks|
    }

    ghost function Remaining(): seq<byte>
      reads this
      requires Valid()
    {
      rest + Flatten(chunks[next..])
    }

    constructor (chunks: seq<seq<byte>>)
      ensures Valid() && Remaining() == Flatten(chunks)
    {
      this.chunks := chunks;
      next := 0;
      rest := [];
      new;
      assert chunks[0..] == chunks;
    }

    /** Reading until the buffer is full or the stream is at its end. */
    method ReadFull(n: nat) returns (buf: seq<byte>)
      requires Valid()
      modifies this
      ensures Valid() && old(Remaining()) == buf + Remaining()
      ensures |buf| == Least(n, |old(Remaining())|)
    {
      hide Flatten;
      buf := [];
      while |buf| < n && (rest != [] || next < |chunks|)
        invariant Valid() && |buf| <= n && old(Remaining()) == buf + Remaining()
        decreases |chunks| - next, |rest|
      {
        if rest == [] {
          NextChunk(chunks, next);
          rest := chunks[next];
          next := next + 1;
        } else {
          var k := Least(n - |buf|, |rest|);
          Shifted(buf, rest, k, Flatten(chunks[next..]));
          buf := buf + rest[..k];
          rest := rest[k..];
        }
      }
      if |buf| < n {
        NothingLeft(chunks, next);
      }
    }
  }

  /** From a stream: the same copy, whatever the pieces it arrives in. */
  method CopyStream(reader: Reader, before: seq<byte>, broken: nat -> bool) returns (target: seq<byte>, ok: bool)
    requires reader.Valid()
    modifies reader
    ensures ok ==> CopiedOver(old(reader.Remaining()), before, target)
    ensures ok && before == [] ==> target == old(reader.Remaining())
    ensures (forall n :: !broken(n)) ==> ok
  {
    hide CopiedUpTo, CopiedOver, Truncate, Flatten, Reader.Remaining, Reader.Valid;
    ghost var src := reader.Remaining();
    target, ok := before, true;
    var off := 0;
    var calls := 0;
    var last := false;
    CopyBegins(src, before);
    while !last
      invariant reader.Valid() && ok && off <= |src| && CopiedUpTo(src, before, target, off)
      invariant src[off..] == reader.Remaining()
      invariant last ==> off == |src|
      decreases |src| - off, !last
    {
      if broken(calls) {
        return target, false;
      }
      var n;
      target, n, last, ok := CopyNext(reader, src, before, target, off, broken(calls + 1));
      if !ok {
        return;
      }
      off := off + n;
      calls := calls + 2;
    }
    CopyDone(src, before, target);
    target := Truncate(target, off);
  }

  /** One buffer from the stream into the target; a short one is the last. */
  method CopyNext(reader: Reader, ghost src: seq<byte>, ghost before: seq<byte>, target: seq<byte>, off: nat, broken: bool)
    returns (after: seq<byte>, n: nat, last: bool, ok: bool)
    requires reader.Valid() && off <= |src| && CopiedUpTo(src, before, target, off) && src[off..] == reader.Remaining()
    modifies reader
    ensures reader.Valid() && off + n <= |src| && src[off + n..] == reader.Remaining()
    ensures if last then off + n == |src| else n > 0
    ensures ok ==> CopiedUpTo(src, before, after, off + n)
    ensures !broken ==> ok
  {
    hide CopiedUpTo, Flatten, Reader.Remaining, Reader.Valid;
    var buf := reader.ReadFull(BLOCK);
    n, last := |buf|, |buf| < BLOCK;
    BufferIsSlice(src, off, buf, reader.Remaining());
    after, ok := target, true;
    if n > 0 {
      after, ok := PutBlock(src, before, target, off, buf, broken);
    }
  }

  lemma BufferIsSlice(src: seq<byte>, off: nat, buf: seq<byte>, rest: seq<byte>)
    requires off <= |src| && src[off..] == buf + rest
    ensures off + |buf| <= |src| && buf == src[off..off + |buf|] && rest == src[off + |buf|..]
  {
    assert src[off..][..|buf|] == buf && src[off..][|buf|..] == rest;
  }

  /** Restoring from an archive: seeking over pieces of zeros. */
  class BackupSparseWriter {
    var file: seq<byte>
    var position: nat

    constructor ()
      ensures Valid() && Written() == []
    {
      file, position := [], 0;
    }

    /** What the file will hold once its length is set to the position. */
    ghost function Written(): seq<byte>
      reads this
    {
      Truncate(file, position)
    }

    ghost predicate Valid()
      reads this
    {
      |file| <= position
    }

    method Write(p: seq<byte>)
      requires Valid()
      modifies this
      ensures Valid() && Written() == old(Written()) + p
    {
      var zero := IsZero(p);
      if zero {
        position := position + |p|;
      } else {
        file := WriteAt(file, p, position);
        position := position + |p|;
      }
    }

    method Finish() returns (target: seq<byte>)
      requires Valid()
      ensures target == Written()
    {
      target := Truncate(file, position);
    }
  }

  /** Any cutting of the bytes into writes restores the same file. */
  method RestoreFile(chunks: seq<seq<byte>>) returns (target: seq<byte>)
    ensures target == Flatten(chunks)
  {
    var w := new BackupSparseWriter();
    var i := 0;
    assert chunks[..0] == [];
    while i < |chunks|
      invariant i <= |chunks| && w.Valid() && w.Written() == Flatten(chunks[..i])
    {
      w.Write(chunks[i]);
      FlattenAppend(chunks[..i], chunks[i]);
      assert chunks[..i + 1] == chunks[..i] + [chunks[i]];
      i := i + 1;
    }
    assert chunks[..i] == chunks;
    target := w.Finish();
  }
}
