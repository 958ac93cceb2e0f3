/** Converting a qcow2 image to a sparse raw image: a walk over the two table levels
    that must produce, byte for byte, what a guest reads. */
module Qcow2 {
  import opened Bytes

  const QCOW_MAGIC := 0x5146_49FB
  const HEADER_BYTES := 104
  /** Bit 62 marks a compressed cluster. */
  const COMPRESSED_UNIT := 0x4000_0000_0000_0000

  datatype Error =
    | ShortRead
    | NotQcow2
    | UnsupportedVersion
    | BackingFile
    | Encrypted
    | IncompatibleFeatures
    | BadTable
    | Compressed

  datatype Header = Header(version: nat, clusterSize: nat, virtualSize: nat, l1Size: nat, l1Offset: nat)

  function Pow2(n: nat): (r: nat)
    ensures r > 0
  {
    if n == 0 then 1 else 2 * Pow2(n - 1)
  }

  function Field(src: seq<byte>, lo: nat, hi: nat): nat
    requires lo <= hi <= |src|
  {
    FromBigEndian(src[lo..hi])
  }

  function ParseHeader(src: seq<byte>): (r: Outcome<Header, Error>)
    ensures r.Ok? ==> r.value.clusterSize > 0
  {
    if |src| < HEADER_BYTES then Err(ShortRead)
    else if Field(src, 0, 4) != QCOW_MAGIC then Err(NotQcow2)
    else if Field(src, 4, 8) != 2 && Field(src, 4, 8) != 3 then Err(UnsupportedVersion)
    else if Field(src, 8, 16) != 0 || Field(src, 16, 20) != 0 then Err(BackingFile)
    else if Field(src, 32, 36) != 0 then Err(Encrypted)
    else if Field(src, 72, 80) != 0 then Err(IncompatibleFeatures)
    else Ok(Header(Field(src, 4, 8), Pow2(Field(src, 20, 24)), Field(src, 24, 32), Field(src, 36, 40), Field(src, 40, 48)))
  }

  /** A header with these fields, and nothing in the fields that have to be zero. */
  function HeaderBytes(version: nat, bits: nat, size: nat, l1Size: nat, l1Offset: nat): (s: seq<byte>)
    ensures |s| == HEADER_BYTES
  {
    BigEndian(QCOW_MAGIC, 4) + BigEndian(version, 4) + Zeros(12) + BigEndian(bits, 4) + BigEndian(size, 8) + Zeros(4)
    + BigEndian(l1Size, 4) + BigEndian(l1Offset, 8) + Zeros(56)
  }

  lemma HeaderFields(version: nat, bits: nat, size: nat, l1Size: nat, l1Offset: nat, tail: seq<byte>)
    ensures var s := HeaderBytes(version, bits, size, l1Size, l1Offset) + tail;
      && s[0..4] == BigEndian(QCOW_MAGIC, 4) && s[4..8] == BigEndian(version, 4)
      && s[8..16] == Zeros(8) && s[16..20] == Zeros(4) && s[20..24] == BigEndian(bits, 4)
      && s[24..32] == BigEndian(size, 8) && s[32..36] == Zeros(4) && s[36..40] == BigEndian(l1Size, 4)
      && s[40..48] == BigEndian(l1Offset, 8) && s[72..80] == Zeros(8)
  {
    hide BigEndian;
  }

  lemma {:induction false} ZeroValue(n: nat)
    ensures FromBigEndian(Zeros(n)) == 0
  {
    assert Reverse(Zeros(n)) == Zeros(n);
    ZeroLittle(n);
  }

  lemma {:induction false} ZeroLittle(n: nat)
    ensures FromLittleEndian(Zeros(n)) == 0
  {
    if n > 0 {
      ZeroLittle(n - 1);
      assert Zeros(n)[1..] == Zeros(n - 1);
    }
  }

  /** A header that uses no backing file, encryption or incompatible feature is read back
      field by field, for every value of the fields. */
  lemma HeaderRoundTrip(version: nat, bits: nat, size: nat, l1Size: nat, l1Offset: nat, tail: seq<byte>)
    requires version == 2 || version == 3
    requires bits < 0x1_0000_0000 && l1Size < 0x1_0000_0000
    requires size < 0x1_0000_0000_0000_0000 && l1Offset < 0x1_0000_0000_0000_0000
    ensures ParseHeader(HeaderBytes(version, bits, size, l1Size, l1Offset) + tail)
            == Ok(Header(version, Pow2(bits), size, l1Size, l1Offset))
  {
    hide BigEndian, FromBigEndian, HeaderBytes, Pow2;
    HeaderFields(version, bits, size, l1Size, l1Offset, tail);
    Widths();
    RoundTrip(QCOW_MAGIC, 4);
    RoundTrip(version, 4);
    RoundTrip(bits, 4);
    RoundTrip(size, 8);
    RoundTrip(l1Size, 4);
    RoundTrip(l1Offset, 8);
    ZeroValue(8);
    ZeroValue(4);
  }

  /** Exactly which headers are refused. */
  lemma HeaderRefused(src: seq<byte>)
    ensures ParseHeader(src).Err? <==>
              || |src| < HEADER_BYTES
              || Field(src, 0, 4) != QCOW_MAGIC
              || Field(src, 4, 8) !in {2, 3}
              || Field(src, 8, 16) + Field(src, 16, 20) + Field(src, 32, 36) + Field(src, 72, 80) > 0
  {
    hide Field;
  }

  // ------------------------------------------------------------- table entries

  predicate IsCompressed(entry: nat) {
    entry / COMPRESSED_UNIT % 2 == 1
  }

  /** Bits 9 to 55 of an entry. */
  function Masked(entry: nat): nat {
    entry / 512 % 0x8000_0000_0000 * 512
  }

  /** The layout of an entry: eight flag bits on top, 47 bits of the offset in units of 512
      bytes, nine low bits. Only the offset is followed, and bit 6 of the flags refuses. */
  lemma EntryBits(top: nat, sectors: nat, low: nat)
    requires top < 256 && sectors < 0x8000_0000_0000 && low < 512
    ensures var entry := top * 0x100_0000_0000_0000 + sectors * 512 + low;
      && Masked(entry) == sectors * 512 && (IsCompressed(entry) <==> top / 64 % 2 == 1) && entry % 2 == low % 2
  {
    var entry := top * 0x100_0000_0000_0000 + sectors * 512 + low;
    var units := top * 0x8000_0000_0000 + sectors;
    assert entry == units * 512 + low;
    QuotientUnique(entry, 512, units, low);
    QuotientUnique(units, 0x8000_0000_0000, top, sectors);
    var rest := top % 64 * 0x100_0000_0000_0000 + sectors * 512 + low;
    assert entry == top / 64 * COMPRESSED_UNIT + rest;
    QuotientUnique(entry, COMPRESSED_UNIT, top / 64, rest);
  }

  /** Every 64-bit entry has that layout. */
  lemma EntryParts(entry: nat) returns (top: nat, sectors: nat, low: nat)
    requires entry < 0x1_0000_0000_0000_0000
    ensures top < 256 && sectors < 0x8000_0000_0000 && low < 512
    ensures entry == top * 0x100_0000_0000_0000 + sectors * 512 + low
  {
    top, sectors, low := entry / 0x100_0000_0000_0000, entry / 512 % 0x8000_0000_0000, entry % 512;
  }

  /** Eight bytes of a table; zero where the file has ended. */
  function WordAt(src: seq<byte>, off: nat): nat {
    if off + 8 <= |src| then FromBigEndian(src[off..off + 8]) else 0
  }

  function ByteAt(src: seq<byte>, off: nat): byte {
    if off < |src| then src[off] else 0
  }

  function PerTable(h: Header): nat {
    h.clusterSize / 8
  }

  /** The guest cluster that holds position v, and the position inside it. */
  function ClusterOf(h: Header, v: nat): nat
    requires h.clusterSize > 0
  {
    v / h.clusterSize
  }

  function OffsetIn(h: Header, v: nat): nat
    requires h.clusterSize > 0
  {
    v % h.clusterSize
  }

  function Start(h: Header, cluster: nat): nat {
    cluster * h.clusterSize
  }

  /** The table for a guest cluster, and its place in that table. */
  function TableOf(h: Header, cluster: nat): nat
    requires PerTable(h) > 0
  {
    cluster / PerTable(h)
  }

  function SlotOf(h: Header, cluster: nat): nat
    requires PerTable(h) > 0
  {
    cluster % PerTable(h)
  }

  function FirstCluster(h: Header, i: nat): nat {
    i * PerTable(h)
  }

  function L1Entry(src: seq<byte>, h: Header, i: nat): nat {
    if i < h.l1Size then WordAt(src, h.l1Offset + 8 * i) else 0
  }

  /** The second-level entry of a guest cluster, zero if there is no table for it. */
  function L2Entry(src: seq<byte>, h: Header, cluster: nat): nat
    requires PerTable(h) > 0
  {
    var l1 := L1Entry(src, h, TableOf(h, cluster));
    if l1 == 0 then 0 else WordAt(src, Masked(l1) + 8 * SlotOf(h, cluster))
  }

  /** What the converter puts at position v. */
  function ConvertedByte(src: seq<byte>, h: Header, v: nat): byte
    requires h.clusterSize > 0
  {
    if PerTable(h) == 0 then 0
    else
      var entry := L2Entry(src, h, ClusterOf(h, v));
      if entry == 0 then 0 else ByteAt(src, Masked(entry) + OffsetIn(h, v))
  }

  // -------------------------------------------------------------- what a guest reads

  /** From version 3 on, bit 0 of a second-level entry means that the cluster is zero. */
  predicate ZeroFlag(h: Header, entry: nat) {
    h.version == 3 && entry % 2 == 1
  }

  /** The byte that the format defines for position v: an offset of zero means that
      nothing is allocated. */
  function GuestByte(src: seq<byte>, h: Header, v: nat): byte
    requires h.clusterSize > 0
  {
    if PerTable(h) == 0 then 0
    else
      var cluster := ClusterOf(h, v);
      var l1 := L1Entry(src, h, TableOf(h, cluster));
      if Masked(l1) == 0 then 0
      else
        var entry := WordAt(src, Masked(l1) + 8 * SlotOf(h, cluster));
        if ZeroFlag(h, entry) || Masked(entry) == 0 then 0 else ByteAt(src, Masked(entry) + OffsetIn(h, v))
  }

  /** The entries of the cluster use nothing that the converter does not know: entries
      that are not zero have an offset, and the zero flag is not set. */
  predicate Standard(src: seq<byte>, h: Header, cluster: nat)
    requires PerTable(h) > 0
  {
    var l1 := L1Entry(src, h, TableOf(h, cluster));
    var entry := L2Entry(src, h, cluster);
    (l1 != 0 ==> Masked(l1) != 0) && (entry != 0 ==> Masked(entry) != 0 && !ZeroFlag(h, entry))
  }

  /** The converter gives the guest's byte exactly where the entries are standard or the
      byte it copies happens to be zero. */
  lemma ConvertedIsGuest(src: seq<byte>, h: Header, v: nat)
    requires h.clusterSize > 0
    ensures PerTable(h) == 0 ==> GuestByte(src, h, v) == 0
    ensures PerTable(h) > 0 ==>
              (ConvertedByte(src, h, v) == GuestByte(src, h, v) <==>
               Standard(src, h, ClusterOf(h, v)) || ConvertedByte(src, h, v) == 0)
  {
    hide Masked, WordAt, ClusterOf, OffsetIn, TableOf, SlotOf, L1Entry;
    assert Masked(0) == 0 by {
      MaskedZero();
    }
  }

  lemma MaskedZero()
    ensures Masked(0) == 0
  {
  }

  // ------------------------------------------------------------- what can be read

  ghost predicate CopyOk(src: seq<byte>, h: Header, cluster: nat, entry: nat) {
    && !IsCompressed(entry)
    && (Start(h, cluster) < h.virtualSize ==>
          Masked(entry) + Min(h.clusterSize, h.virtualSize - Start(h, cluster)) <= |src|)
  }

  function Min(a: int, b: int): int {
    if a <= b then a else b
  }

  ghost predicate EntryOk(src: seq<byte>, h: Header, i: nat, j: nat)
    requires i < h.l1Size
  {
    var entry := WordAt(src, Masked(L1Entry(src, h, i)) + 8 * j);
    entry != 0 ==> CopyOk(src, h, FirstCluster(h, i) + j, entry)
  }

  /** The table of a first-level entry is uncompressed, readable, and so are its clusters. */
  ghost predicate TableOk(src: seq<byte>, h: Header, i: nat)
    requires i < h.l1Size
  {
    var l1 := L1Entry(src, h, i);
    l1 != 0 ==>
      && !IsCompressed(l1) && h.clusterSize % 8 == 0 && Masked(l1) + h.clusterSize <= |src|
      && forall j :: 0 <= j < PerTable(h) ==> EntryOk(src, h, i, j)
  }

  /** The images that the converter accepts. */
  ghost predicate Convertible(src: seq<byte>) {
    && ParseHeader(src).Ok?
    && var h := ParseHeader(src).value;
    && h.l1Offset + 8 * h.l1Size <= |src|
    && forall i :: 0 <= i < h.l1Size ==> TableOk(src, h, i)
  }

  // ------------------------------------------------------------------- the copy

  predicate AllZero(data: seq<byte>) {
    forall k :: 0 <= k < |data| ==> data[k] == 0
  }

  /** The first n clusters are converted, the rest is still zero. */
  ghost predicate Done(src: seq<byte>, h: Header, dst: seq<byte>, n: nat)
    requires h.clusterSize > 0
  {
    && |dst| == h.virtualSize
    && forall v :: 0 <= v < |dst| ==> dst[v] == if v < Start(h, n) then ConvertedByte(src, h, v) else 0
  }

  lemma InCluster(h: Header, n: nat, v: nat)
    requires h.clusterSize > 0 && Start(h, n) <= v < Start(h, n) + h.clusterSize
    ensures ClusterOf(h, v) == n && OffsetIn(h, v) == v - Start(h, n)
  {
    QuotientUnique(v, h.clusterSize, n, v - Start(h, n));
  }

  lemma NextCluster(h: Header, n: nat)
    ensures Start(h, n + 1) == Start(h, n) + h.clusterSize
  {
    Distribute(n, 1, h.clusterSize);
  }

  /** Clusters that read as zero need not be written. */
  lemma Skipped(src: seq<byte>, h: Header, dst: seq<byte>, n: nat, m: nat)
    requires h.clusterSize > 0 && Done(src, h, dst, n) && n <= m
    requires forall v :: Start(h, n) <= v < Start(h, m) && v < h.virtualSize ==> ConvertedByte(src, h, v) == 0
    ensures Done(src, h, dst, m)
  {
    Ordered(n, m, h.clusterSize);
  }

  lemma Ordered(n: nat, m: nat, size: nat)
    requires n <= m
    ensures n * size <= m * size
    ensures n < m ==> n * size + size <= m * size
  {
    Distribute(n, m - n, size);
    if n < m {
      Distribute(m - n - 1, 1, size);
    }
  }

  lemma Distribute(a: nat, b: nat, size: nat)
    ensures (a + b) * size == a * size + b * size
    ensures a * size >= 0 && b * size >= 0
  {
  }

  lemma MappedBytes(src: seq<byte>, h: Header, n: nat, entry: nat)
    requires h.clusterSize > 0 && PerTable(h) > 0
    requires entry != 0 && entry == L2Entry(src, h, n) && Start(h, n) < h.virtualSize
    requires CopyOk(src, h, n, entry)
    ensures forall v :: Start(h, n) <= v < Start(h, n) + Min(h.clusterSize, h.virtualSize - Start(h, n)) ==>
              ConvertedByte(src, h, v) == src[Masked(entry) + (v - Start(h, n))]
  {
    hide L2Entry, Masked, IsCompressed, ClusterOf, OffsetIn, Start;
    var count := Min(h.clusterSize, h.virtualSize - Start(h, n));
    forall v | Start(h, n) <= v < Start(h, n) + count
      ensures ConvertedByte(src, h, v) == src[Masked(entry) + (v - Start(h, n))]
    {
      InCluster(h, n, v);
    }
  }

  /** Writing the data of one cluster, cut off at the end of the disk, converts it and
      reaches no other cluster; data that is all zero need not be written. */
  lemma Copied(src: seq<byte>, h: Header, dst: seq<byte>, n: nat, entry: nat)
    requires h.clusterSize > 0 && PerTable(h) > 0 && Done(src, h, dst, n)
    requires entry != 0 && entry == L2Entry(src, h, n) && Start(h, n) < h.virtualSize
    requires CopyOk(src, h, n, entry)
    ensures var count := Min(h.clusterSize, h.virtualSize - Start(h, n));
            var data := src[Masked(entry)..Masked(entry) + count];
      && Done(src, h, Splice(dst, Start(h, n), data), n + 1)
      && (AllZero(data) ==> Done(src, h, dst, n + 1))
  {
    hide L2Entry, Masked, IsCompressed, ConvertedByte, Start, Splice, Done, CopyOk, PerTable;
    var off, count := Start(h, n), Min(h.clusterSize, h.virtualSize - Start(h, n));
    CopyInRange(src, h, n, entry);
    MappedBytes(src, h, n, entry);
    Filled(src, h, dst, n, src[Masked(entry)..Masked(entry) + count]);
  }

  lemma CopyInRange(src: seq<byte>, h: Header, n: nat, entry: nat)
    requires h.clusterSize > 0 && Start(h, n) < h.virtualSize && CopyOk(src, h, n, entry)
    ensures Masked(entry) + Min(h.clusterSize, h.virtualSize - Start(h, n)) <= |src|
  {
  }

  lemma Filled(src: seq<byte>, h: Header, dst: seq<byte>, n: nat, data: seq<byte>)
    requires h.clusterSize > 0 && Done(src, h, dst, n) && Start(h, n) < h.virtualSize
    requires |data| == Min(h.clusterSize, h.virtualSize - Start(h, n))
    requires forall v :: Start(h, n) <= v < Start(h, n) + |data| ==> ConvertedByte(src, h, v) == data[v - Start(h, n)]
    ensures Done(src, h, Splice(dst, Start(h, n), data), n + 1)
    ensures AllZero(data) ==> Done(src, h, dst, n + 1)
  {
    hide ConvertedByte, Start, Splice;
    NextCluster(h, n);
  }

  lemma UnmappedIsZero(src: seq<byte>, h: Header, n: nat)
    requires h.clusterSize > 0 && PerTable(h) > 0 && L2Entry(src, h, n) == 0
    ensures forall v :: Start(h, n) <= v < Start(h, n + 1) ==> ConvertedByte(src, h, v) == 0
  {
    hide L2Entry, ClusterOf, OffsetIn, Start;
    NextCluster(h, n);
    forall v | Start(h, n) <= v < Start(h, n + 1)
      ensures ConvertedByte(src, h, v) == 0
    {
      InCluster(h, n, v);
    }
  }

  lemma NextTable(h: Header, i: nat)
    ensures FirstCluster(h, i + 1) == FirstCluster(h, i) + PerTable(h)
  {
    Distribute(i, 1, PerTable(h));
  }

  /** The cluster number determines both table indices, so no cluster is visited twice. */
  lemma IndexInjective(h: Header, i: nat, j: nat)
    requires j < PerTable(h)
    ensures TableOf(h, FirstCluster(h, i) + j) == i && SlotOf(h, FirstCluster(h, i) + j) == j
  {
    QuotientUnique(FirstCluster(h, i) + j, PerTable(h), i, j);
  }

  method ReadAt(src: seq<byte>, offset: nat, size: nat) returns (r: Outcome<seq<byte>, Error>)
    ensures r == if offset + size <= |src| then Ok(src[offset..offset + size]) else Err(ShortRead)
  {
    if offset + size > |src| {
      return Err(ShortRead);
    }
    r := Ok(src[offset..offset + size]);
  }

  lemma SliceOfSlice(s: seq<byte>, off: nat, size: nat, lo: nat, hi: nat)
    requires off + size <= |s| && lo <= hi <= size
    ensures s[off..off + size][lo..hi] == s[off + lo..off + hi]
  {
    var t := s[off..off + size];
    forall i | 0 <= i < hi - lo
      ensures t[lo..hi][i] == s[off + lo..off + hi][i]
    {
      assert t[lo + i] == s[off + (lo + i)];
    }
  }

  lemma TableWord(src: seq<byte>, off: nat, size: nat, j: nat)
    requires off + size <= |src| && 8 * j + 8 <= size
    ensures FromBigEndian(src[off..off + size][8 * j..8 * j + 8]) == WordAt(src, off + 8 * j)
  {
    SliceOfSlice(src, off, size, 8 * j, 8 * j + 8);
  }

  /** One mapped cluster: data is read, and written only if it is not all zero. */
  method ConvertCluster(src: seq<byte>, h: Header, cluster: nat, entry: nat, before: seq<byte>)
    returns (ok: bool, error: Error, dst: seq<byte>)
    requires h.clusterSize > 0 && PerTable(h) > 0 && Done(src, h, before, cluster)
    requires entry != 0 && entry == L2Entry(src, h, cluster)
    ensures ok <==> CopyOk(src, h, cluster, entry)
    ensures ok ==> Done(src, h, dst, cluster + 1)
  {
    hide L2Entry, IsCompressed, Masked, Start;
    ok, error, dst := false, Compressed, before;
    if IsCompressed(entry) {
      return;
    }
    var offset := Start(h, cluster);
    if offset >= h.virtualSize {
      Skipped(src, h, dst, cluster, cluster + 1);
      ok := true;
      return;
    }
    var count := Min(h.clusterSize, h.virtualSize - offset);
    var data := ReadAt(src, Masked(entry), count);
    if data.Err? {
      error := data.error;
      return;
    }
    Copied(src, h, dst, cluster, entry);
    if !AllZero(data.value) {
      dst := Splice(dst, offset, data.value);
    }
    ok := true;
  }

  /** The inner loop: the clusters of one second-level table. */
  method ConvertTable(src: seq<byte>, h: Header, i: nat, l1: nat, before: seq<byte>)
    returns (ok: bool, error: Error, dst: seq<byte>)
    requires h.clusterSize > 0 && i < h.l1Size && l1 == L1Entry(src, h, i) != 0
    requires PerTable(h) > 0 ==> Done(src, h, before, FirstCluster(h, i))
    ensures ok <==> TableOk(src, h, i)
    ensures ok ==> PerTable(h) > 0 && Done(src, h, dst, FirstCluster(h, i + 1))
  {
    hide Done, L1Entry, IsCompressed, Masked, CopyOk, FromBigEndian, WordAt, Start, FirstCluster, TableOf, SlotOf;
    ok, error, dst := false, Compressed, before;
    if IsCompressed(l1) {
      return;
    }
    var table := ReadAt(src, Masked(l1), h.clusterSize);
    if table.Err? {
      error := table.error;
      return;
    }
    var per := PerTable(h);
    if h.clusterSize != 8 * per {
      error := BadTable;
      return;
    }
    var j := 0;
    while j < per
      invariant 0 <= j <= per && Done(src, h, dst, FirstCluster(h, i) + j)
      invariant forall k :: 0 <= k < j ==> EntryOk(src, h, i, k)
    {
      TableWord(src, Masked(l1), h.clusterSize, j);
      var entry := FromBigEndian(table.value[8 * j..8 * j + 8]);
      IndexInjective(h, i, j);
      if entry != 0 {
        ok, error, dst := ConvertCluster(src, h, FirstCluster(h, i) + j, entry, dst);
        if !ok {
          assert !EntryOk(src, h, i, j);
          return;
        }
      } else {
        UnmappedIsZero(src, h, FirstCluster(h, i) + j);
        Skipped(src, h, dst, FirstCluster(h, i) + j, FirstCluster(h, i) + j + 1);
      }
      j := j + 1;
    }
    NextTable(h, i);
    ok := true;
  }

  lemma NoTableIsZero(src: seq<byte>, h: Header, i: nat)
    requires h.clusterSize > 0 && PerTable(h) > 0 && L1Entry(src, h, i) == 0
    ensures forall v :: Start(h, FirstCluster(h, i)) <= v < Start(h, FirstCluster(h, i + 1)) ==> ConvertedByte(src, h, v) == 0
  {
    var per := PerTable(h);
    forall v | Start(h, FirstCluster(h, i)) <= v < Start(h, FirstCluster(h, i + 1))
      ensures ConvertedByte(src, h, v) == 0
    {
      var n := ClusterOf(h, v);
      ClusterBetween(FirstCluster(h, i), FirstCluster(h, i + 1), h.clusterSize, v);
      NextTable(h, i);
      IndexInjective(h, i, n - FirstCluster(h, i));
    }
  }

  lemma ClusterBetween(lo: nat, hi: nat, size: nat, v: nat)
    requires size > 0 && lo * size <= v < hi * size
    ensures lo <= v / size < hi
  {
    var q := v / size;
    assert v == q * size + v % size;
    if q < lo {
      Ordered(q, lo, size);
    }
    if q >= hi {
      Ordered(hi, q, size);
    }
  }

  /** The whole conversion: it succeeds on exactly the convertible images, and the result
      is as long as the virtual disk and holds the mapped byte, or zero, everywhere. */
  method Convert(src: seq<byte>) returns (r: Outcome<seq<byte>, Error>)
    ensures r.Ok? <==> Convertible(src)
    ensures r.Ok? ==> var h := ParseHeader(src).value;
      && |r.value| == h.virtualSize
      && forall v :: 0 <= v < h.virtualSize ==> r.value[v] == ConvertedByte(src, h, v)
  {
    hide L1Entry, ConvertedByte, PerTable, TableOk;
    var header := ParseHeader(src);
    if header.Err? {
      return Err(header.error);
    }
    var h := header.value;
    var l1 := ReadAt(src, h.l1Offset, 8 * h.l1Size);
    if l1.Err? {
      return Err(l1.error);
    }
    var dst := Zeros(h.virtualSize);
    var i := 0;
    assert Done(src, h, dst, 0);
    while i < h.l1Size
      invariant 0 <= i <= h.l1Size && |dst| == h.virtualSize
      invariant PerTable(h) > 0 ==> Done(src, h, dst, FirstCluster(h, i))
      invariant PerTable(h) == 0 ==> Done(src, h, dst, 0)
      invariant forall k :: 0 <= k < i ==> TableOk(src, h, k)
    {
      FirstLevel(src, h, i);
      var entry := FromBigEndian(l1.value[8 * i..8 * i + 8]);
      if entry != 0 {
        var ok, error, dst' := ConvertTable(src, h, i, entry, dst);
        if !ok {
          return Err(error);
        }
        dst := dst';
      } else {
        EmptyTableOk(src, h, i);
        if PerTable(h) > 0 {
          NoTableIsZero(src, h, i);
          NextTable(h, i);
          Skipped(src, h, dst, FirstCluster(h, i), FirstCluster(h, i + 1));
        }
      }
      i := i + 1;
    }
    BehindTables(src, h);
    r := Ok(dst);
  }

  lemma FirstLevel(src: seq<byte>, h: Header, i: nat)
    requires h.l1Offset + 8 * h.l1Size <= |src| && i < h.l1Size
    ensures FromBigEndian(src[h.l1Offset..h.l1Offset + 8 * h.l1Size][8 * i..8 * i + 8]) == L1Entry(src, h, i)
  {
    TableWord(src, h.l1Offset, 8 * h.l1Size, i);
  }

  lemma EmptyTableOk(src: seq<byte>, h: Header, i: nat)
    requires i < h.l1Size && L1Entry(src, h, i) == 0
    ensures TableOk(src, h, i)
  {
  }

  /** Behind the last table, and on images too small for tables, everything reads as zero. */
  lemma BehindTables(src: seq<byte>, h: Header)
    requires h.clusterSize > 0
    ensures forall v :: v >= Start(h, FirstCluster(h, h.l1Size)) ==> ConvertedByte(src, h, v) == 0
    ensures PerTable(h) == 0 ==> forall v :: v >= 0 ==> ConvertedByte(src, h, v) == 0
  {
    if PerTable(h) > 0 {
      var per := PerTable(h);
      forall v | v >= Start(h, FirstCluster(h, h.l1Size))
        ensures ConvertedByte(src, h, v) == 0
      {
        var n := ClusterOf(h, v);
        NotBefore(FirstCluster(h, h.l1Size), h.clusterSize, v);
        NotBefore(h.l1Size, per, n);
      }
    }
  }

  lemma NotBefore(lo: nat, size: nat, v: nat)
    requires size > 0 && v >= lo * size
    ensures v / size >= lo
  {
    var q := v / size;
    assert v == q * size + v % size;
    if q < lo {
      Ordered(q, lo, size);
    }
  }

  /** The source bytes that are copied for a guest cluster, cut off at the end of the disk. */
  function SourceData(src: seq<byte>, h: Header, cluster: nat): (data: seq<byte>)
    requires PerTable(h) > 0 && Start(h, cluster) < h.virtualSize
    ensures |data| == Min(h.clusterSize, h.virtualSize - Start(h, cluster))
    ensures forall o :: 0 <= o < |data| ==> data[o] == ByteAt(src, Masked(L2Entry(src, h, cluster)) + o)
  {
    var from := Masked(L2Entry(src, h, cluster));
    seq<byte>(Min(h.clusterSize, h.virtualSize - Start(h, cluster)), o requires o >= 0 => ByteAt(src, from + o))
  }

  /** A cluster that is converted faithfully: its entries are standard, or it has none, or
      there are only zeros to copy. */
  predicate Faithful(src: seq<byte>, h: Header, cluster: nat)
    requires PerTable(h) > 0 && Start(h, cluster) < h.virtualSize
  {
    Standard(src, h, cluster) || L2Entry(src, h, cluster) == 0 || AllZero(SourceData(src, h, cluster))
  }

  lemma Located(h: Header, v: nat)
    requires h.clusterSize > 0 && v < h.virtualSize
    ensures v == Start(h, ClusterOf(h, v)) + OffsetIn(h, v) && Start(h, ClusterOf(h, v)) <= v
    ensures OffsetIn(h, v) < Min(h.clusterSize, h.virtualSize - Start(h, ClusterOf(h, v)))
  {
  }

  lemma ByteAgrees(src: seq<byte>, h: Header, v: nat)
    requires PerTable(h) > 0 && h.clusterSize > 0 && v < h.virtualSize && Start(h, ClusterOf(h, v)) <= v
    requires OffsetIn(h, v) < Min(h.clusterSize, h.virtualSize - Start(h, ClusterOf(h, v)))
    ensures var c := ClusterOf(h, v);
      ConvertedByte(src, h, v) == GuestByte(src, h, v) <==>
      Standard(src, h, c) || L2Entry(src, h, c) == 0 || SourceData(src, h, c)[OffsetIn(h, v)] == 0
  {
    hide Standard, GuestByte, ByteAt, Start, ClusterOf, OffsetIn, L2Entry, Masked;
    ConvertedIsGuest(src, h, v);
  }

  /** Exactly which clusters read the same in the raw image and in the guest. */
  lemma ClusterAgrees(src: seq<byte>, h: Header, c: nat)
    requires PerTable(h) > 0 && h.clusterSize > 0 && Start(h, c) < h.virtualSize
    ensures Faithful(src, h, c) <==>
            forall v: nat :: v < h.virtualSize && ClusterOf(h, v) == c ==> ConvertedByte(src, h, v) == GuestByte(src, h, v)
  {
    hide Standard, GuestByte, ConvertedByte, ByteAt, Start, ClusterOf, OffsetIn, PerTable, L2Entry, Masked, SourceData;
    var data := SourceData(src, h, c);
    forall v: nat | v < h.virtualSize && ClusterOf(h, v) == c
      ensures 0 <= OffsetIn(h, v) < |data|
      ensures ConvertedByte(src, h, v) == GuestByte(src, h, v)
              <==> Standard(src, h, c) || L2Entry(src, h, c) == 0 || data[OffsetIn(h, v)] == 0
    {
      Located(h, v);
      ByteAgrees(src, h, v);
    }
    if !AllZero(data) {
      var o :| 0 <= o < |data| && data[o] != 0;
      var v := Start(h, c) + o;
      InCluster(h, c, v);
      assert v < h.virtualSize && ClusterOf(h, v) == c && OffsetIn(h, v) == o;
    }
  }

  /** Exactly when sparse conversion refines guest reads: a raw image as Convert returns it
      reads like the virtual disk everywhere if and only if every cluster that begins before
      the end of the disk is converted faithfully. */
  lemma ConvertRefinesGuest(src: seq<byte>, dst: seq<byte>)
    requires ParseHeader(src).Ok?
    requires var h := ParseHeader(src).value;
      |dst| == h.virtualSize && forall v :: 0 <= v < |dst| ==> dst[v] == ConvertedByte(src, h, v)
    ensures var h := ParseHeader(src).value;
      (forall v :: 0 <= v < |dst| ==> dst[v] == GuestByte(src, h, v)) <==>
      (PerTable(h) > 0 ==> forall c: nat :: Start(h, c) < h.virtualSize ==> Faithful(src, h, c))
  {
    hide ConvertedByte, GuestByte, Faithful, PerTable, ParseHeader, Start, ClusterOf, OffsetIn;
    var h := ParseHeader(src).value;
    if PerTable(h) == 0 {
      forall v: nat | v < |dst|
        ensures dst[v] == GuestByte(src, h, v)
      {
        ConvertedIsGuest(src, h, v);
        NoTables(src, h, v);
      }
    } else {
      if forall v :: 0 <= v < |dst| ==> dst[v] == GuestByte(src, h, v) {
        forall c: nat | Start(h, c) < h.virtualSize
          ensures Faithful(src, h, c)
        {
          ClusterAgrees(src, h, c);
        }
      }
      if forall c: nat :: Start(h, c) < h.virtualSize ==> Faithful(src, h, c) {
        forall v: nat | v < |dst|
          ensures dst[v] == GuestByte(src, h, v)
        {
          Located(h, v);
          ClusterAgrees(src, h, ClusterOf(h, v));
        }
      }
    }
  }

  lemma NoTables(src: seq<byte>, h: Header, v: nat)
    requires h.clusterSize > 0
    ensures PerTable(h) == 0 ==> ConvertedByte(src, h, v) == 0
  {
  }

  // ------------------------------------------------------------------ one cluster

  /** A version 3 image of one cluster that begins with the byte 1 at offset 1536, with these
      entries in the two tables at 512 and 1024. */
  function OneCluster(l1: nat, l2: nat): (s: seq<byte>)
    ensures |s| == 2048
  {
    PadRight(HeaderBytes(3, 9, 512, 1, 512), 512) + PadRight(BigEndian(l1, 8), 512) + PadRight(BigEndian(l2, 8), 512)
    + PadRight([1], 512)
  }

  lemma FourParts(a: seq<byte>, b: seq<byte>, c: seq<byte>, d: seq<byte>)
    requires |a| == |b| == |c| == |d| == 512
    ensures var s := a + b + c + d;
      s == a + (b + c + d) && s[512..520] == b[..8] && s[1024..1032] == c[..8] && s[1536] == d[0]
    ensures forall i :: 1032 <= i < 1536 ==> (a + b + c + d)[i] == c[i - 1024]
  {
    var s := a + b + c + d;
    assert s == a + (b + c + d);
  }

  const ONE_CLUSTER: Header := Header(3, 512, 512, 1, 512)

  lemma OneClusterParts(l1: nat, l2: nat)
    requires l1 < 0x1_0000_0000_0000_0000 && l2 < 0x1_0000_0000_0000_0000
    ensures var src := OneCluster(l1, l2);
      && ParseHeader(src) == Ok(ONE_CLUSTER)
      && WordAt(src, 512) == l1 && WordAt(src, 1024) == l2 && src[1536] == 1
      && forall i :: 1032 <= i < 1536 ==> src[i] == 0
  {
    hide BigEndian, FromBigEndian, HeaderBytes, ParseHeader, Pow2, PadRight;
    var header := HeaderBytes(3, 9, 512, 1, 512);
    var a, b, c, d := PadRight(header, 512), PadRight(BigEndian(l1, 8), 512), PadRight(BigEndian(l2, 8), 512), PadRight([1], 512);
    FourParts(a, b, c, d);
    PaddedTail(BigEndian(l2, 8), 512);
    assert a == header + a[HEADER_BYTES..];
    assert a + (b + c + d) == header + (a[HEADER_BYTES..] + (b + c + d));
    HeaderRoundTrip(3, 9, 512, 1, 512, a[HEADER_BYTES..] + (b + c + d));
    NineBits();
    Widths();
    RoundTrip(l1, 8);
    RoundTrip(l2, 8);
    assert b[..8] == BigEndian(l1, 8) && c[..8] == BigEndian(l2, 8);
  }

  lemma OtherWords(src: seq<byte>, j: nat)
    requires |src| == 2048 && 1 <= j < 64 && forall i :: 1032 <= i < 1536 ==> src[i] == 0
    ensures WordAt(src, 1024 + 8 * j) == 0
  {
    var off := 1024 + 8 * j;
    assert src[off..off + 8] == Zeros(8);
    ZeroValue(8);
  }

  lemma FirstByte(src: seq<byte>, l1: nat, l2: nat)
    requires WordAt(src, 512) == l1 && WordAt(src, 1024) == l2 && l1 != 0 && l2 != 0
    requires |src| > 1536 && src[1536] == 1 && Masked(l1) == 1024 && Masked(l2) == 1536
    ensures ConvertedByte(src, ONE_CLUSTER, 0) == 1
    ensures GuestByte(src, ONE_CLUSTER, 0) == if l2 % 2 == 1 then 0 else 1
  {
    hide WordAt, Masked;
    var h := ONE_CLUSTER;
    assert ClusterOf(h, 0) == 0 && OffsetIn(h, 0) == 0 && TableOf(h, 0) == 0 && SlotOf(h, 0) == 0;
    assert L1Entry(src, h, 0) == l1;
  }

  /** The guest reads zero from a cluster whose entry carries the zero flag while its offset
      still points to data, but the converter copies the data. */
  lemma ZeroFlagIsCopied()
    ensures var src := OneCluster(1024, 1537);
      && ParseHeader(src).Ok? && ParseHeader(src).value.virtualSize > 0
      && GuestByte(src, ParseHeader(src).value, 0) == 0 && ConvertedByte(src, ParseHeader(src).value, 0) == 1
  {
    hide ParseHeader, WordAt, OneCluster, FromBigEndian, BigEndian, GuestByte, ConvertedByte, Pow2, Field, Masked;
    OneClusterParts(1024, 1537);
    EntryBits(0, 2, 0);
    EntryBits(0, 3, 1);
    FirstByte(OneCluster(1024, 1537), 1024, 1537);
  }

  lemma OneClusterOk(src: seq<byte>, l1: nat, l2: nat)
    requires |src| == 2048 && WordAt(src, 512) == l1 && WordAt(src, 1024) == l2 && l1 != 0 && l2 != 0
    requires Masked(l1) == 1024 && Masked(l2) == 1536
    requires forall j :: 1 <= j < 64 ==> WordAt(src, 1024 + 8 * j) == 0
    ensures TableOk(src, ONE_CLUSTER, 0) <==> !IsCompressed(l1) && !IsCompressed(l2)
  {
    hide WordAt, Masked, IsCompressed;
    var h := ONE_CLUSTER;
    assert L1Entry(src, h, 0) == l1 && PerTable(h) == 64 && FirstCluster(h, 0) == 0 && Start(h, 0) == 0;
    assert CopyOk(src, h, 0, l2) <==> !IsCompressed(l2);
    assert EntryOk(src, h, 0, 0) <==> !IsCompressed(l2);
    forall j | 1 <= j < 64
      ensures EntryOk(src, h, 0, j)
    {
      assert WordAt(src, 1024 + 8 * j) == 0;
    }
  }

  /** Whatever flags the two entries carry, the copied flag that qemu sets among them, the
      image is converted unless one of the flags is that of compression, and the guest's
      byte is found. */
  lemma FlagsAreIgnored(top1: nat, top2: nat)
    requires top1 < 256 && top2 < 256
    ensures var src := OneCluster(top1 * 0x100_0000_0000_0000 + 1024, top2 * 0x100_0000_0000_0000 + 1536);
      && (Convertible(src) <==> top1 / 64 % 2 == 0 && top2 / 64 % 2 == 0)
      && ParseHeader(src).Ok? && ParseHeader(src).value.virtualSize > 0
      && ConvertedByte(src, ParseHeader(src).value, 0) == GuestByte(src, ParseHeader(src).value, 0) == 1
  {
    hide ParseHeader, WordAt, OneCluster, FromBigEndian, BigEndian, GuestByte, ConvertedByte, Pow2, Field, Masked,
         IsCompressed, TableOk;
    var l1, l2 := top1 * 0x100_0000_0000_0000 + 1024, top2 * 0x100_0000_0000_0000 + 1536;
    var src := OneCluster(l1, l2);
    OneClusterParts(l1, l2);
    EntryBits(top1, 2, 0);
    EntryBits(top2, 3, 0);
    FirstByte(src, l1, l2);
    forall j | 1 <= j < 64
      ensures WordAt(src, 1024 + 8 * j) == 0
    {
      OtherWords(src, j);
    }
    OneClusterOk(src, l1, l2);
  }

  lemma NineBits()
    ensures Pow2(9) == 512
  {
    assert Pow2(4) == 16;
  }
}
