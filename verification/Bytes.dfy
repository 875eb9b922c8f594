// Bytes, fixed-width integers in both byte orders, and files written at offsets.
module Bytes {

  newtype byte = x: int | 0 <= x < 256

  function Zeros(n: nat): seq<byte> {
    seq(n, _ => 0)
  }

  // ---- Fixed-width integers ----------------------------------------------------

  function BigEndian(v: nat, width: nat): (s: seq<byte>)
    ensures |s| == width
  {
    if width == 0 then [] else BigEndian(v / 256, width - 1) + [(v % 256) as byte]
  }

  function FromBigEndian(s: seq<byte>): nat {
    if s == [] then 0 else FromBigEndian(s[..|s| - 1]) * 256 + s[|s| - 1] as nat
  }

  /** The big-endian value in a buffer. */
  function At(s: seq<byte>, off: nat, width: nat): nat
    requires off + width <= |s|
  {
    FromBigEndian(s[off..off + width])
  }

  function LittleEndian(v: nat, width: nat): (s: seq<byte>)
    ensures |s| == width
  {
    if width == 0 then [] else [(v % 256) as byte] + LittleEndian(v / 256, width - 1)
  }

  function FromLittleEndian(s: seq<byte>): nat {
    if s == [] then 0 else s[0] as nat + FromLittleEndian(s[1..]) * 256
  }

  /** Values that fit the width. */
  function Capacity(width: nat): nat {
    if width == 0 then 1 else 256 * Capacity(width - 1)
  }

  lemma {:induction false} BigEndianRoundTrip(v: nat, width: nat)
    requires v < Capacity(width)
    ensures FromBigEndian(BigEndian(v, width)) == v
  {
    if width > 0 {
      var s := BigEndian(v, width);
      assert s[..|s| - 1] == BigEndian(v / 256, width - 1);
      BigEndianRoundTrip(v / 256, width - 1);
    }
  }

  /** Bytes of one length are the same if they read as the same number. */
  lemma {:induction false} BigEndianInjective(s: seq<byte>, t: seq<byte>)
    requires |s| == |t| && FromBigEndian(s) == FromBigEndian(t)
    ensures s == t
  {
    if s != [] {
      var n := |s| - 1;
      LastDigit(FromBigEndian(s[..n]), s[n], FromBigEndian(t[..n]), t[n]);
      BigEndianInjective(s[..n], t[..n]);
      assert s == s[..n] + [s[n]] && t == t[..n] + [t[n]];
    }
  }

  lemma LastDigit(p: nat, a: byte, q: nat, b: byte)
    requires p * 256 + a as nat == q * 256 + b as nat
    ensures p == q && a == b
  {
  }

  lemma {:induction false} LittleEndianRoundTrip(v: nat, width: nat)
    requires v < Capacity(width)
    ensures FromLittleEndian(LittleEndian(v, width)) == v
  {
    if width > 0 {
      var s := LittleEndian(v, width);
      assert s[1..] == LittleEndian(v / 256, width - 1);
      LittleEndianRoundTrip(v / 256, width - 1);
    }
  }

  lemma {:induction false} ZerosDecode(n: nat)
    ensures FromBigEndian(Zeros(n)) == 0
  {
    if n > 0 {
      assert Zeros(n)[..n - 1] == Zeros(n - 1);
      ZerosDecode(n - 1);
    }
  }

  lemma Capacities()
    ensures Capacity(1) == 0x100 && Capacity(2) == 0x1_0000 && Capacity(4) == 0x1_0000_0000
    ensures Capacity(8) == 0x1_0000_0000_0000_0000
  {
    assert Capacity(8) == 0x1_0000_0000 * Capacity(4);
  }

  // ---- Filling a buffer field by field ---------------------------------------------

  datatype Field = Field(off: nat, width: nat, value: nat) {
    predicate Fits(size: nat) {
      off + width <= size && value < Capacity(width)
    }
  }

  predicate AllFit(size: nat, fields: seq<Field>) {
    forall k :: 0 <= k < |fields| ==> fields[k].Fits(size)
  }

  /** A zeroed buffer after the fields have been put into it in turn. */
  function PutAll(size: nat, fields: seq<Field>): (s: seq<byte>)
    requires AllFit(size, fields)
    ensures |s| == size
  {
    if fields == [] then Zeros(size)
    else
      var last := fields[|fields| - 1];
      assert last.Fits(size);
      var s := PutAll(size, fields[..|fields| - 1]);
      s[..last.off] + BigEndian(last.value, last.width) + s[last.off + last.width..]
  }

  lemma NothingPut(size: nat)
    ensures AllFit(size, []) && PutAll(size, []) == Zeros(size)
  {
  }

  predicate Apart(f: Field, off: nat, width: nat) {
    f.off + f.width <= off || off + width <= f.off
  }

  lemma PutElsewhere(s: seq<byte>, f: Field, off: nat, width: nat)
    requires f.Fits(|s|) && Apart(f, off, width) && off + width <= |s|
    ensures (s[..f.off] + BigEndian(f.value, f.width) + s[f.off + f.width..])[off..off + width] == s[off..off + width]
  {
  }

  lemma {:induction false} UntouchedReadsZero(size: nat, fields: seq<Field>, off: nat, width: nat)
    requires AllFit(size, fields) && forall k :: 0 <= k < |fields| ==> Apart(fields[k], off, width)
    requires off + width <= size
    ensures At(PutAll(size, fields), off, width) == 0
  {
    hide BigEndian, FromBigEndian, Capacity;
    if fields == [] {
      assert Zeros(size)[off..off + width] == Zeros(width);
      ZerosDecode(width);
    } else {
      var last, shorter := fields[|fields| - 1], fields[..|fields| - 1];
      assert AllFit(size, shorter) && last.Fits(size) && Apart(last, off, width);
      var s := PutAll(size, shorter);
      UntouchedReadsZero(size, shorter, off, width);
      PutElsewhere(s, last, off, width);
    }
  }

  /** A field that no later one overlaps reads back. */
  lemma {:induction false} FieldReads(size: nat, fields: seq<Field>, i: nat)
    requires i < |fields| && AllFit(size, fields)
    requires forall k :: i < k < |fields| ==> Apart(fields[k], fields[i].off, fields[i].width)
    ensures At(PutAll(size, fields), fields[i].off, fields[i].width) == fields[i].value
  {
    hide BigEndian, FromBigEndian, Capacity;
    var n := |fields| - 1;
    var f, shorter := fields[i], fields[..n];
    assert fields[n].Fits(size) && AllFit(size, shorter);
    if i == n {
      OnePutReads(PutAll(size, shorter), f);
    } else {
      assert Apart(fields[n], f.off, f.width);
      FieldReads(size, shorter, i);
      PutElsewhere(PutAll(size, shorter), fields[n], f.off, f.width);
    }
  }

  lemma OnePutReads(s: seq<byte>, f: Field)
    requires f.Fits(|s|)
    ensures At(s[..f.off] + BigEndian(f.value, f.width) + s[f.off + f.width..], f.off, f.width) == f.value
  {
    hide BigEndian, FromBigEndian, Capacity;
    BigEndianRoundTrip(f.value, f.width);
    var bytes := BigEndian(f.value, f.width);
    assert (s[..f.off] + bytes + s[f.off + f.width..])[f.off..f.off + f.width] == bytes;
  }

  /** Putting a big-endian value into a buffer, the low byte first. */
  method FillBigEndian(a: array<byte>, off: nat, v: nat, width: nat)
    requires off + width <= a.Length
    modifies a
    ensures a[..off] == old(a[..])[..off]
    ensures a[off..off + width] == BigEndian(v, width)
    ensures a[off + width..] == old(a[..])[off + width..]
  {
    var rest: nat := v;
    var i: nat := width;
    while i > 0
      invariant i <= width
      invariant BigEndian(v, width) == BigEndian(rest, i) + a[off + i..off + width]
      invariant a[..off] == old(a[..])[..off]
      invariant a[off + width..] == old(a[..])[off + width..]
    {
      i := i - 1;
      a[off + i] := (rest % 256) as byte;
      assert a[off + i..off + width] == [(rest % 256) as byte] + a[off + i + 1..off + width];
      rest := rest / 256;
    }
  }

  /** Putting one more big-endian value into a buffer. */
  method PutBigEndian(a: array<byte>, off: nat, v: nat, width: nat, ghost done: seq<Field>)
    returns (ghost fields: seq<Field>)
    requires off + width <= a.Length && v < Capacity(width)
    requires AllFit(a.Length, done)
    requires a[..] == PutAll(a.Length, done)
    modifies a
    ensures fields == done + [Field(off, width, v)]
    ensures AllFit(a.Length, fields)
    ensures a[..] == PutAll(a.Length, fields)
  {
    hide BigEndian, Capacity, PutAll;
    fields := done + [Field(off, width, v)];
    OneMorePut(a.Length, done, Field(off, width, v));
    FillBigEndian(a, off, v, width);
    assert a[..] == a[..off] + a[off..off + width] + a[off + width..];
  }

  lemma OneMorePut(size: nat, done: seq<Field>, f: Field)
    requires AllFit(size, done) && f.Fits(size)
    ensures AllFit(size, done + [f])
    ensures var s := PutAll(size, done);
      PutAll(size, done + [f]) == s[..f.off] + BigEndian(f.value, f.width) + s[f.off + f.width..]
  {
    assert (done + [f])[..|done|] == done;
  }

  /** Putting a little-endian value into a buffer. */
  method PutLittleEndian(a: array<byte>, off: nat, v: nat, width: nat)
    requires off + width <= a.Length
    modifies a
    ensures a[..off] == old(a[..])[..off]
    ensures a[off..off + width] == LittleEndian(v, width)
    ensures a[off + width..] == old(a[..])[off + width..]
  {
    var rest: nat := v;
    var i: nat := 0;
    while i < width
      invariant i <= width
      invariant LittleEndian(v, width) == a[off..off + i] + LittleEndian(rest, width - i)
      invariant a[..off] == old(a[..])[..off]
      invariant a[off + width..] == old(a[..])[off + width..]
    {
      a[off + i] := (rest % 256) as byte;
      assert a[off..off + i + 1] == a[off..off + i] + [(rest % 256) as byte];
      rest := rest / 256;
      i := i + 1;
    }
  }

  /** A slice of a slice is a slice. */
  lemma SliceOfSlice<T>(s: seq<T>, lo: nat, hi: nat, from: nat, to: nat)
    requires lo <= from <= to <= hi <= |s|
    ensures s[from..to] == s[lo..hi][from - lo..to - lo]
  {
    forall i | 0 <= i < to - from ensures s[from..to][i] == s[lo..hi][from - lo..to - lo][i] {
    }
  }

  // ---- Machine integers ----------------------------------------------------------

  const INT64_LIMIT := 0x8000_0000_0000_0000

  /** A 64-bit two's complement result. */
  function Int64(x: int): (r: int)
    ensures -INT64_LIMIT <= r < INT64_LIMIT
    ensures -INT64_LIMIT <= x < INT64_LIMIT ==> r == x
  {
    var m := x % (2 * INT64_LIMIT);
    if m >= INT64_LIMIT then m - 2 * INT64_LIMIT else m
  }

  /** Division rounding toward zero. */
  function TruncatedDiv(a: int, b: int): int
    requires b > 0
  {
    if a >= 0 then a / b else -(-a / b)
  }

  // ---- Zeros -----------------------------------------------------------------------

  ghost predicate AllZero(s: seq<byte>) {
    forall i :: 0 <= i < |s| ==> s[i] == 0
  }

  method IsZero(s: seq<byte>) returns (zero: bool)
    ensures zero <==> AllZero(s)
  {
    var i := 0;
    while i < |s|
      invariant i <= |s| && AllZero(s[..i])
    {
      if s[i] != 0 {
        return false;
      }
      assert s[..i + 1] == s[..i] + [s[i]];
      i := i + 1;
    }
    assert s[..i] == s;
    return true;
  }

  function Least(a: int, b: int): int {
    if a < b then a else b
  }

  // ---- Bytes in pieces ------------------------------------------------------------

  function Flatten(chunks: seq<seq<byte>>): seq<byte> {
    if chunks == [] then [] else chunks[0] + Flatten(chunks[1..])
  }

  lemma {:induction false} FlattenAppend(chunks: seq<seq<byte>>, p: seq<byte>)
    ensures Flatten(chunks + [p]) == Flatten(chunks) + p
  {
    if chunks == [] {
      assert Flatten([p]) == p + Flatten([]);
    } else {
      assert (chunks + [p])[1..] == chunks[1..] + [p];
      FlattenAppend(chunks[1..], p);
    }
  }

  // ---- Files -----------------------------------------------------------------------

  /** Writing at an offset; a gap before it reads as zeros. */
  function WriteAt(f: seq<byte>, data: seq<byte>, off: nat): (g: seq<byte>)
    ensures |g| == if |f| < off + |data| then off + |data| else |f|
    ensures forall i :: 0 <= i < |g| ==>
      g[i] == if off <= i < off + |data| then data[i - off] else if i < |f| then f[i] else 0
  {
    var p := if |f| < off then f + Zeros(off - |f|) else f;
    p[..off] + data + (if off + |data| < |p| then p[off + |data|..] else [])
  }

  /** Setting the length; what is added reads as zeros. */
  function Truncate(f: seq<byte>, n: nat): (g: seq<byte>)
    ensures |g| == n
    ensures forall i :: 0 <= i < n ==> g[i] == if i < |f| then f[i] else 0
  {
    if n <= |f| then f[..n] else f + Zeros(n - |f|)
  }
}
