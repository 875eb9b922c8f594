// Writing an empty QCOW2 version 3 overlay (qcow2.go). The image is described
// here from the reader's side, by the QCOW2 image format (sections "Header",
// "Host cluster management" and "Cluster mapping"), and what the writer
// produces is proved to be a consistent image in that sense.
module Qcow2 {
  import opened Bytes

  const CLUSTER := 0x1_0000
  const HEADER := 104
  const MAGIC := 0x514649fb

  // ---- Reading an image ------------------------------------------------------------

  type Image = seq<byte>

  function U16(f: Image, off: nat): nat {
    FromBigEndian(Part(f, off, 2))
  }

  function U32(f: Image, off: nat): nat {
    FromBigEndian(Part(f, off, 4))
  }

  function U64(f: Image, off: nat): nat {
    FromBigEndian(Part(f, off, 8))
  }

  /** Bytes of the image; past its end it reads as zeros. */
  function Part(f: Image, off: nat, n: nat): (s: seq<byte>)
    ensures |s| == n
  {
    seq(n, i requires 0 <= i < n => if off + i < |f| then f[off + i] else 0)
  }

  function VirtualSize(f: Image): nat { U64(f, 24) }
  function L1Entries(f: Image): nat { U32(f, 36) }
  function L1Table(f: Image): nat { U64(f, 40) }
  function RefcountTable(f: Image): nat { U64(f, 48) }
  function RefcountTableClusters(f: Image): nat { U32(f, 56) }
  function BackingName(f: Image): seq<byte> { Part(f, U64(f, 8), U32(f, 16)) }

  /** A version 3 image with 64 KiB clusters, 16-bit refcounts, no encryption,
      no snapshots and no feature bits. */
  predicate PlainHeader(f: Image) {
    && U32(f, 0) == MAGIC && U32(f, 4) == 3
    && U32(f, 20) == 16 && U32(f, 96) == 4 && U32(f, 100) == HEADER
    && U32(f, 32) == 0
    && U32(f, 60) == 0 && U64(f, 64) == 0
    && U64(f, 72) == 0 && U64(f, 80) == 0 && U64(f, 88) == 0
  }

  /** The refcount block that counts the cluster; 0 when there is none. */
  function RefcountBlock(f: Image, cluster: nat): nat {
    var index := cluster / (CLUSTER / 2);
    if index < RefcountTableClusters(f) * (CLUSTER / 8) then U64(f, RefcountTable(f) + 8 * index) else 0
  }

  function Refcount(f: Image, cluster: nat): nat {
    var block := RefcountBlock(f, cluster);
    if block == 0 then 0 else U16(f, block + 2 * (cluster % (CLUSTER / 2)))
  }

  function L1Entry(f: Image, index: nat): nat {
    U64(f, L1Table(f) + 8 * index)
  }

  predicate Overlaps(cluster: nat, start: nat, length: nat) {
    cluster * CLUSTER < start + length && start < (cluster + 1) * CLUSTER
  }

  /** The structures of the image that occupy a host cluster: the header with
      the backing name, the refcount table, refcount blocks, the L1 table. */
  function References(f: Image, cluster: nat): nat {
    (if Overlaps(cluster, 0, U64(f, 8) + U32(f, 16)) then 1 else 0)
    + (if Overlaps(cluster, RefcountTable(f), RefcountTableClusters(f) * CLUSTER) then 1 else 0)
    + |set i | 0 <= i < RefcountTableClusters(f) * (CLUSTER / 8) && U64(f, RefcountTable(f) + 8 * i) == cluster * CLUSTER && cluster > 0|
    + (if Overlaps(cluster, L1Table(f), 8 * L1Entries(f)) then 1 else 0)
  }

  const GUEST_SPAN := 0x2000_0000 // guest bytes under one L1 entry

  datatype GuestByte = FromBacking(b: byte) | Allocated(l2: nat)

  /** Reading a guest offset. Without an L2 table the byte is the backing
      file's, and zero past the end of that. */
  function GuestRead(f: Image, backing: seq<byte>, off: nat): GuestByte {
    var entry := L1Entry(f, off / GUEST_SPAN);
    if entry == 0 then FromBacking(if off < |backing| then backing[off] else 0) else Allocated(entry)
  }

  // ---- Writing one -------------------------------------------------------------------

  const NAME_LIMIT := CLUSTER - HEADER

  /** The largest accepted size: 32765 L1 clusters of 8192 entries each. */
  const SIZE_LIMIT := 32765 * 0x400_0000_0000

  predicate Accepted(size: int) {
    0 < size <= SIZE_LIMIT
  }

  function L1SizeFor(size: nat): nat {
    (size + GUEST_SPAN - 1) / GUEST_SPAN
  }

  function L1ClustersFor(size: nat): nat {
    (8 * L1SizeFor(size) + CLUSTER - 1) / CLUSTER
  }

  /** The size computation as the machine does it, wrapping and truncating. */
  function L1SizeComputed(size: int): int {
    TruncatedDiv(Int64(Int64(size + GUEST_SPAN) - 1), GUEST_SPAN)
  }

  function L1ClustersComputed(size: int): int {
    TruncatedDiv(Int64(Int64(Int64(L1SizeComputed(size) * 8) + CLUSTER) - 1), CLUSTER)
  }

  lemma SizeAcceptedIff(size: int)
    requires 0 < size < INT64_LIMIT
    ensures Accepted(size) <==> 0 < L1ClustersComputed(size) <= CLUSTER / 2 - 3
    ensures Accepted(size) ==>
      L1SizeComputed(size) == L1SizeFor(size) && L1ClustersComputed(size) == L1ClustersFor(size) && L1SizeFor(size) < 0x1_0000_0000
  {
  }

  /** Every byte of the image the writer makes. */
  ghost predicate IsEmptyOverlay(f: Image, backing: seq<byte>, size: nat) {
    var counted := 3 + L1ClustersFor(size);
    && 0 < |backing| <= NAME_LIMIT && Accepted(size)
    && |f| == 3 * CLUSTER + 8 * L1SizeFor(size)
    && HasHeader(f, |backing|, size, L1SizeFor(size))
    && f[HEADER..HEADER + |backing|] == backing
    && U64(f, CLUSTER) == 2 * CLUSTER
    && 2 * counted <= CLUSTER
    && RefcountsOne(f, counted)
    && ZeroElsewhere(f, |backing|, counted)
  }

  ghost predicate RefcountsOne(f: Image, counted: nat) {
    forall k :: 0 <= k < counted ==> U16(f, 2 * CLUSTER + 2 * k) == 1
  }

  /** The header says so, and where the tables are. */
  ghost predicate HasHeader(f: Image, nameLength: nat, size: nat, l1Size: nat) {
    && PlainHeader(f) && VirtualSize(f) == size && U64(f, 8) == HEADER && U32(f, 16) == nameLength
    && L1Entries(f) == l1Size && L1Table(f) == 3 * CLUSTER
    && RefcountTable(f) == CLUSTER && RefcountTableClusters(f) == 1
  }

  /** Zeros after the name, the first table entry and the refcounts. */
  ghost predicate ZeroElsewhere(f: Image, nameLength: nat, counted: nat)
    requires 3 * CLUSTER <= |f|
  {
    && (forall i :: HEADER + nameLength <= i < CLUSTER ==> f[i] == 0)
    && (forall i :: CLUSTER + 8 <= i < 2 * CLUSTER ==> f[i] == 0)
    && (forall i :: 2 * CLUSTER + 2 * counted <= i < |f| ==> f[i] == 0)
  }

  // ---- The image is consistent -----------------------------------------------------------

  lemma ZeroPart(f: Image, off: nat, n: nat)
    requires forall i :: off <= i < off + n && i < |f| ==> f[i] == 0
    ensures FromBigEndian(Part(f, off, n)) == 0
  {
    assert Part(f, off, n) == Zeros(n);
    ZerosDecode(n);
  }

  lemma OneRefcountBlock(f: Image, backing: seq<byte>, size: nat, cluster: nat)
    requires IsEmptyOverlay(f, backing, size)
    ensures var blocks := set i | 0 <= i < CLUSTER / 8 && U64(f, CLUSTER + 8 * i) == cluster * CLUSTER && cluster > 0;
      blocks == if cluster == 2 then {0} else {}
    ensures RefcountBlock(f, cluster) == if cluster < CLUSTER / 2 then 2 * CLUSTER else 0
  {
    forall i | 0 < i < CLUSTER / 8 ensures U64(f, CLUSTER + 8 * i) == 0 {
      ZeroPart(f, CLUSTER + 8 * i, 8);
    }
  }

  lemma ReferencesAre(f: Image, backing: seq<byte>, size: nat, cluster: nat)
    requires IsEmptyOverlay(f, backing, size)
    ensures References(f, cluster) == if cluster < 3 + L1ClustersFor(size) then 1 else 0
  {
    hide U64, U32, U16, PlainHeader;
    OneRefcountBlock(f, backing, size, cluster);
    assert Overlaps(cluster, 3 * CLUSTER, 8 * L1SizeFor(size)) <==> 3 <= cluster < 3 + L1ClustersFor(size);
  }

  lemma RefcountsAre(f: Image, backing: seq<byte>, size: nat, cluster: nat)
    requires IsEmptyOverlay(f, backing, size)
    ensures Refcount(f, cluster) == if cluster < 3 + L1ClustersFor(size) then 1 else 0
  {
    OneRefcountBlock(f, backing, size, cluster);
    if cluster < CLUSTER / 2 {
      BlockCounts(f, 3 + L1ClustersFor(size), cluster);
    }
  }

  lemma BlockCounts(f: Image, counted: nat, cluster: nat)
    requires 2 * counted <= CLUSTER && cluster < CLUSTER / 2
    requires forall k :: 0 <= k < counted ==> U16(f, 2 * CLUSTER + 2 * k) == 1
    requires forall i :: 2 * CLUSTER + 2 * counted <= i < |f| ==> f[i] == 0
    ensures U16(f, 2 * CLUSTER + 2 * (cluster % (CLUSTER / 2))) == if cluster < counted then 1 else 0
  {
    assert cluster % (CLUSTER / 2) == cluster;
    if counted <= cluster {
      ZeroPart(f, 2 * CLUSTER + 2 * cluster, 2);
    }
  }

  /** Each host cluster's refcount is the number of structures that occupy it,
      and no two structures share one. */
  lemma RefcountsAreExact(f: Image, backing: seq<byte>, size: nat, cluster: nat)
    requires IsEmptyOverlay(f, backing, size)
    ensures Refcount(f, cluster) == References(f, cluster) <= 1
    ensures References(f, cluster) == 1 <==> cluster < 3 + L1ClustersFor(size)
  {
    hide Refcount, References;
    ReferencesAre(f, backing, size, cluster);
    RefcountsAre(f, backing, size, cluster);
  }

  /** Every guest offset reads from the backing file, and as zero past its end. */
  lemma ReadsAsBacking(f: Image, backing: seq<byte>, size: nat, data: seq<byte>, off: nat)
    requires IsEmptyOverlay(f, backing, size) && off < VirtualSize(f)
    ensures off / GUEST_SPAN < L1Entries(f)
    ensures BackingName(f) == backing
    ensures GuestRead(f, data, off) == FromBacking(if off < |data| then data[off] else 0)
  {
    assert Part(f, HEADER, |backing|) == backing;
    ZeroPart(f, 3 * CLUSTER + 8 * (off / GUEST_SPAN), 8);
  }

  // ---- The writer ----------------------------------------------------------------------------

  datatype Created = Image(file: Image) | Refused

  lemma SamePart(f: Image, h: seq<byte>, start: nat, off: nat, n: nat)
    requires off + n <= |h| && start + |h| <= |f| && f[start..start + |h|] == h
    ensures FromBigEndian(Part(f, start + off, n)) == At(h, off, n)
  {
    assert Part(f, start + off, n) == h[off..off + n];
  }

  /** The fields of a header, read from its bytes. */
  ghost predicate HeaderFields(h: seq<byte>, nameLength: nat, size: nat, l1Size: nat) {
    && |h| == HEADER
    && At(h, 0, 4) == MAGIC && At(h, 4, 4) == 3 && At(h, 8, 8) == HEADER && At(h, 16, 4) == nameLength
    && At(h, 20, 4) == 16 && At(h, 24, 8) == size && At(h, 32, 4) == 0 && At(h, 36, 4) == l1Size
    && At(h, 40, 8) == 3 * CLUSTER && At(h, 48, 8) == CLUSTER && At(h, 56, 4) == 1 && At(h, 60, 4) == 0
    && At(h, 64, 8) == 0 && At(h, 72, 8) == 0 && At(h, 80, 8) == 0 && At(h, 88, 8) == 0
    && At(h, 96, 4) == 4 && At(h, 100, 4) == HEADER
  }

  lemma HeaderReads(f: Image, nameLength: nat, size: nat, l1Size: nat)
    requires HEADER <= |f| && HeaderFields(f[..HEADER], nameLength, size, l1Size)
    ensures HasHeader(f, nameLength, size, l1Size)
  {
    forall off: nat, n: nat | off + n <= HEADER ensures FromBigEndian(Part(f, off, n)) == At(f[..HEADER], off, n) {
      SamePart(f, f[..HEADER], 0, off, n);
    }
  }

  /** What the writer puts into the header, in its order. */
  function HeaderPuts(nameLength: nat, size: nat, l1Size: nat): seq<Field> {
    [Field(0, 4, MAGIC), Field(4, 4, 3), Field(8, 8, HEADER), Field(16, 4, nameLength), Field(20, 4, 16),
     Field(24, 8, size), Field(36, 4, l1Size), Field(40, 8, 3 * CLUSTER), Field(48, 8, CLUSTER),
     Field(56, 4, 1), Field(96, 4, 4), Field(100, 4, HEADER)]
  }

  lemma HeaderPutReads(nameLength: nat, size: nat, l1Size: nat, k: nat)
    requires nameLength <= NAME_LIMIT && size < INT64_LIMIT && l1Size < 0x1_0000_0000 && k < 12
    ensures var fields := HeaderPuts(nameLength, size, l1Size);
      && AllFit(HEADER, fields)
      && At(PutAll(HEADER, fields), fields[k].off, fields[k].width) == fields[k].value
  {
    hide PutAll;
    Capacities();
    FieldReads(HEADER, HeaderPuts(nameLength, size, l1Size), k);
  }

  lemma HeaderGapReads(nameLength: nat, size: nat, l1Size: nat, off: nat, width: nat)
    requires nameLength <= NAME_LIMIT && size < INT64_LIMIT && l1Size < 0x1_0000_0000
    requires (off == 32 && width == 4) || 60 <= off <= off + width <= 96
    ensures var fields := HeaderPuts(nameLength, size, l1Size);
      && AllFit(HEADER, fields)
      && At(PutAll(HEADER, fields), off, width) == 0
  {
    hide PutAll;
    Capacities();
    UntouchedReadsZero(HEADER, HeaderPuts(nameLength, size, l1Size), off, width);
  }

  lemma HeaderPutsRead(nameLength: nat, size: nat, l1Size: nat)
    requires nameLength <= NAME_LIMIT && size < INT64_LIMIT && l1Size < 0x1_0000_0000
    ensures var fields := HeaderPuts(nameLength, size, l1Size);
      && AllFit(HEADER, fields)
      && HeaderFields(PutAll(HEADER, fields), nameLength, size, l1Size)
  {
    hide PutAll, At;
    forall k | 0 <= k < 12 {
      HeaderPutReads(nameLength, size, l1Size, k);
    }
    var fields := HeaderPuts(nameLength, size, l1Size);
    assert fields[0].value == MAGIC && fields[1].value == 3 && fields[2].value == HEADER && fields[3].value == nameLength;
    assert fields[4].value == 16 && fields[5].value == size && fields[6].value == l1Size && fields[7].value == 3 * CLUSTER;
    assert fields[8].value == CLUSTER && fields[9].value == 1 && fields[10].value == 4 && fields[11].value == HEADER;
    HeaderGapReads(nameLength, size, l1Size, 32, 4);
    HeaderGapReads(nameLength, size, l1Size, 60, 4);
    HeaderGapReads(nameLength, size, l1Size, 64, 8);
    HeaderGapReads(nameLength, size, l1Size, 72, 8);
    HeaderGapReads(nameLength, size, l1Size, 80, 8);
    HeaderGapReads(nameLength, size, l1Size, 88, 8);
  }

  /** The header buffer, filled in place: what the image is, then where its tables are. */
  method WriteHeader(nameLength: nat, size: nat, l1Size: nat) returns (header: array<byte>)
    requires nameLength <= NAME_LIMIT && size < INT64_LIMIT && l1Size < 0x1_0000_0000
    ensures fresh(header) && HeaderFields(header[..], nameLength, size, l1Size)
  {
    hide PutAll, AllFit;
    NothingPut(HEADER);
    header := new byte[HEADER](_ => 0);
    assert header[..] == Zeros(HEADER);
    ghost var done := WriteKind(header, nameLength, size);
    done := WriteTables(header, l1Size, done);
    assert done == HeaderPuts(nameLength, size, l1Size);
    HeaderPutsRead(nameLength, size, l1Size);
  }

  method WriteKind(header: array<byte>, nameLength: nat, size: nat) returns (ghost done: seq<Field>)
    requires header.Length == HEADER && AllFit(HEADER, []) && header[..] == PutAll(HEADER, [])
    requires nameLength <= NAME_LIMIT && size < INT64_LIMIT
    modifies header
    ensures done == HeaderPuts(nameLength, size, 0)[..6]
    ensures AllFit(HEADER, done) && header[..] == PutAll(HEADER, done)
  {
    hide PutAll, AllFit;
    Capacities();
    done := PutBigEndian(header, 0, MAGIC, 4, []);
    done := PutBigEndian(header, 4, 3, 4, done);
    done := PutBigEndian(header, 8, HEADER, 8, done);
    done := PutBigEndian(header, 16, nameLength, 4, done);
    done := PutBigEndian(header, 20, 16, 4, done);
    done := PutBigEndian(header, 24, size, 8, done);
  }

  method WriteTables(header: array<byte>, l1Size: nat, ghost before: seq<Field>) returns (ghost done: seq<Field>)
    requires header.Length == HEADER && AllFit(HEADER, before) && header[..] == PutAll(HEADER, before)
    requires l1Size < 0x1_0000_0000
    modifies header
    ensures done == before + HeaderPuts(0, 0, l1Size)[6..]
    ensures AllFit(HEADER, done) && header[..] == PutAll(HEADER, done)
  {
    hide PutAll, AllFit;
    Capacities();
    done := PutBigEndian(header, 36, l1Size, 4, before);
    done := PutBigEndian(header, 40, 3 * CLUSTER, 8, done);
    done := PutBigEndian(header, 48, CLUSTER, 8, done);
    done := PutBigEndian(header, 56, 1, 4, done);
    done := PutBigEndian(header, 96, 4, 4, done);
    done := PutBigEndian(header, 100, HEADER, 4, done);
  }

  /** The refcount buffer: one for every cluster in use. */
  method WriteRefcounts(counted: nat) returns (refcount: array<byte>)
    ensures fresh(refcount) && refcount.Length == 2 * counted
    ensures forall k :: 0 <= k < counted ==> refcount[2 * k] == 0 && refcount[2 * k + 1] == 1
  {
    refcount := new byte[2 * counted](_ => 0);
    var i := 0;
    while i < counted
      invariant i <= counted
      invariant forall k :: 0 <= k < i ==> refcount[2 * k] == 0 && refcount[2 * k + 1] == 1
    {
      refcount[2 * i], refcount[2 * i + 1] := 0, 1;
      i := i + 1;
    }
  }

  lemma OneIs(f: Image, off: nat)
    requires off + 2 <= |f| && f[off] == 0 && f[off + 1] == 1
    ensures U16(f, off) == 1
  {
    assert Part(f, off, 2)[..1] == [0] && [0 as byte][..0] == [];
    assert FromBigEndian([0 as byte]) == 0;
  }

  /** The file after its five writes. */
  function Assemble(header: seq<byte>, backing: seq<byte>, entry: seq<byte>, refcount: seq<byte>, length: nat): Image {
    Truncate(WriteAt(WriteAt(WriteAt(WriteAt([], header, 0), backing, HEADER), entry, CLUSTER), refcount, 2 * CLUSTER), length)
  }

  lemma AssembledRegions(header: seq<byte>, backing: seq<byte>, entry: seq<byte>, refcount: seq<byte>, length: nat)
    requires |header| == HEADER && |backing| <= NAME_LIMIT && |entry| == 8 && |refcount| <= CLUSTER && 3 * CLUSTER <= length
    ensures var f := Assemble(header, backing, entry, refcount, length);
      && |f| == length
      && f[..HEADER] == header && f[HEADER..HEADER + |backing|] == backing && f[CLUSTER..CLUSTER + 8] == entry
  {
  }

  /** A refcount of one for each of the first clusters. */
  ghost predicate CountsOne(refcount: seq<byte>, counted: nat) {
    |refcount| == 2 * counted && forall k :: 0 <= k < counted ==> refcount[2 * k] == 0 && refcount[2 * k + 1] == 1
  }

  lemma AssembledCounts(header: seq<byte>, backing: seq<byte>, entry: seq<byte>, refcount: seq<byte>, length: nat, counted: nat)
    requires |header| == HEADER && |backing| <= NAME_LIMIT && |entry| == 8 && |refcount| <= CLUSTER && 3 * CLUSTER <= length
    requires CountsOne(refcount, counted)
    ensures var f := Assemble(header, backing, entry, refcount, length);
      RefcountsOne(f, counted) && |f| == length && ZeroElsewhere(f, |backing|, counted)
  {
    hide U16;
    var f := Assemble(header, backing, entry, refcount, length);
    assert forall i :: 0 <= i < |refcount| ==> f[2 * CLUSTER + i] == refcount[i];
    RefcountsRead(f, refcount, counted);
  }

  lemma RefcountsRead(f: Image, refcount: seq<byte>, counted: nat)
    requires CountsOne(refcount, counted) && 2 * CLUSTER + |refcount| <= |f|
    requires forall i :: 0 <= i < |refcount| ==> f[2 * CLUSTER + i] == refcount[i]
    ensures RefcountsOne(f, counted)
  {
    hide U16;
    forall k | 0 <= k < counted ensures U16(f, 2 * CLUSTER + 2 * k) == 1 {
      assert f[2 * CLUSTER + (2 * k)] == refcount[2 * k] && f[2 * CLUSTER + (2 * k + 1)] == refcount[2 * k + 1];
      OneIs(f, 2 * CLUSTER + 2 * k);
    }
  }

  lemma HeaderIsWhole(header: seq<byte>, nameLength: nat, size: nat, l1Size: nat)
    requires HeaderFields(header, nameLength, size, l1Size)
    ensures |header| == HEADER
  {
  }

  lemma AssembledIsOverlay(header: seq<byte>, backing: seq<byte>, entry: seq<byte>, refcount: seq<byte>, size: nat)
    requires HeaderFields(header, |backing|, size, L1SizeFor(size)) && entry == BigEndian(2 * CLUSTER, 8)
    requires Accepted(size) && 0 < |backing| <= NAME_LIMIT
    requires |refcount| == 2 * (3 + L1ClustersFor(size)) <= CLUSTER
    requires CountsOne(refcount, 3 + L1ClustersFor(size))
    ensures IsEmptyOverlay(Assemble(header, backing, entry, refcount, 3 * CLUSTER + 8 * L1SizeFor(size)), backing, size)
  {
    hide L1SizeFor, L1ClustersFor, Accepted, Assemble, U16, HasHeader, ZeroElsewhere, RefcountsOne, HeaderFields, U64, U32, CountsOne, BigEndian;
    var counted := 3 + L1ClustersFor(size);
    var length := 3 * CLUSTER + 8 * L1SizeFor(size);
    var f := Assemble(header, backing, entry, refcount, length);
    HeaderIsWhole(header, |backing|, size, L1SizeFor(size));
    AssembledRegions(header, backing, entry, refcount, length);
    AssembledCounts(header, backing, entry, refcount, length, counted);
    HeaderReads(f, |backing|, size, L1SizeFor(size));
    EntryReads(f, entry);
  }

  lemma EntryReads(f: Image, entry: seq<byte>)
    requires CLUSTER + 8 <= |f| && entry == BigEndian(2 * CLUSTER, 8) && f[CLUSTER..CLUSTER + 8] == entry
    ensures U64(f, CLUSTER) == 2 * CLUSTER
  {
    Capacities();
    BigEndianRoundTrip(2 * CLUSTER, 8);
    SamePart(f, entry, CLUSTER, 0, 8);
    assert entry[0..8] == entry;
  }

  /** Refuses exactly the sizes and names outside the limits, also where the
      64-bit rounding of the size wraps, and otherwise writes the empty overlay. */
  method CreateOverlay(backing: seq<byte>, size: int) returns (r: Created)
    requires -INT64_LIMIT <= size < INT64_LIMIT
    ensures r.Image? <==> Accepted(size) && 0 < |backing| <= NAME_LIMIT
    ensures r.Image? ==> IsEmptyOverlay(r.file, backing, size)
  {
    if size <= 0 {
      return Refused;
    }
    if |backing| == 0 || |backing| > NAME_LIMIT {
      return Refused;
    }
    var l1Size := L1SizeComputed(size);
    var l1Clusters := L1ClustersComputed(size);
    SizeAcceptedIff(size);
    hide L1SizeComputed, L1ClustersComputed, HeaderFields, IsEmptyOverlay, WriteAt, Truncate;
    if l1Clusters <= 0 || l1Clusters > CLUSTER / 2 - 3 {
      return Refused;
    }
    var header := WriteHeader(|backing|, size, l1Size);
    var entry := BigEndian(2 * CLUSTER, 8);
    var refcount := WriteRefcounts(3 + l1Clusters);
    AssembledIsOverlay(header[..], backing, entry, refcount[..], size);
    var file := WriteAt([], header[..], 0);
    file := WriteAt(file, backing, HEADER);
    file := WriteAt(file, entry, CLUSTER);
    file := WriteAt(file, refcount[..], 2 * CLUSTER);
    file := Truncate(file, 3 * CLUSTER + 8 * l1Size);
    return Image(file);
  }

  // ---- Recognising one --------------------------------------------------------------------------

  function UnsignedSize(size: int): nat {
    size % (2 * INT64_LIMIT)
  }

  predicate OverlayMatches(f: Image, backing: seq<byte>, size: int) {
    && HEADER <= |f|
    && U32(f, 0) == MAGIC && U32(f, 4) == 3 && U64(f, 8) == HEADER && U32(f, 20) == 16
    && U64(f, 24) == UnsignedSize(size)
    && U32(f, 16) == |backing|
    && HEADER + |backing| <= |f|
    && Part(f, HEADER, |backing|) == backing
  }

  /** A written overlay is recognised for its own backing name and size, and for no other. */
  lemma OverlayMatchesIff(f: Image, backing: seq<byte>, size: nat, askedName: seq<byte>, askedSize: int)
    requires IsEmptyOverlay(f, backing, size) && -INT64_LIMIT <= askedSize < INT64_LIMIT
    ensures OverlayMatches(f, askedName, askedSize) <==> askedName == backing && askedSize == size
  {
    assert Part(f, HEADER, |backing|) == backing;
  }

  /** Any file at all is recognised exactly if its first 32 bytes and the backing name
      after its header are those of the overlay that would be written now. */
  lemma RecognisedIff(f: Image, g: Image, backing: seq<byte>, size: nat)
    requires IsEmptyOverlay(g, backing, size)
    ensures OverlayMatches(f, backing, size) <==>
            HEADER + |backing| <= |f| && f[..32] == g[..32] && f[HEADER..HEADER + |backing|] == backing
  {
    hide IsEmptyOverlay, HasHeader, ZeroElsewhere, RefcountsOne, U32, U64;
    OverlayStart(g, backing, size);
    if HEADER + |backing| <= |f| {
      assert Part(f, HEADER, |backing|) == f[HEADER..HEADER + |backing|];
      FieldsAre(f, g);
    }
  }

  lemma OverlayStart(g: Image, backing: seq<byte>, size: nat)
    requires IsEmptyOverlay(g, backing, size)
    ensures HEADER + |backing| <= |g| && U32(g, 0) == MAGIC && U32(g, 4) == 3 && U64(g, 8) == HEADER
    ensures U32(g, 16) == |backing| && U32(g, 20) == 16 && U64(g, 24) == UnsignedSize(size)
  {
    hide ZeroElsewhere, RefcountsOne, U32, U64;
  }

  lemma FieldsAre(f: Image, g: Image)
    requires 32 <= |f| && 32 <= |g|
    ensures f[..32] == g[..32] <==>
            && U32(f, 0) == U32(g, 0) && U32(f, 4) == U32(g, 4) && U64(f, 8) == U64(g, 8)
            && U32(f, 16) == U32(g, 16) && U32(f, 20) == U32(g, 20) && U64(f, 24) == U64(g, 24)
  {
    hide FromBigEndian;
    if U32(f, 0) == U32(g, 0) && U32(f, 4) == U32(g, 4) && U64(f, 8) == U64(g, 8)
       && U32(f, 16) == U32(g, 16) && U32(f, 20) == U32(g, 20) && U64(f, 24) == U64(g, 24) {
      SameField(f, g, 0, 4);
      SameField(f, g, 4, 4);
      SameField(f, g, 8, 8);
      SameField(f, g, 16, 4);
      SameField(f, g, 20, 4);
      SameField(f, g, 24, 8);
      assert f[..32] == f[0..4] + f[4..8] + f[8..16] + f[16..20] + f[20..24] + f[24..32];
      assert g[..32] == g[0..4] + g[4..8] + g[8..16] + g[16..20] + g[20..24] + g[24..32];
    }
    if f[..32] == g[..32] {
      forall off: nat, n: nat | off + n <= 32 ensures Part(f, off, n) == Part(g, off, n) {
        forall i | off <= i < off + n ensures f[i] == g[i] {
          assert f[..32][i] == g[..32][i];
        }
      }
    }
  }

  lemma SameField(f: Image, g: Image, off: nat, n: nat)
    requires off + n <= |f| && off + n <= |g| && FromBigEndian(Part(f, off, n)) == FromBigEndian(Part(g, off, n))
    ensures f[off..off + n] == g[off..off + n]
  {
    BigEndianInjective(Part(f, off, n), Part(g, off, n));
    assert Part(f, off, n) == f[off..off + n] && Part(g, off, n) == g[off..off + n];
  }
}
