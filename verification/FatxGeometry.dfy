/** Where the allocation table and the clusters of a FATX partition lie in the image,
    and the volume that the image bytes represent. */
module FatxGeometry {
  import opened Bytes
  import opened FatAlloc
  import opened FatxVolume

  const PARTITION_E_OFFSET := 0x0055F400 * 512
  const PARTITION_E_SIZE := 0x1_31F0_0000
  const HEADER_SIZE := 0x1000
  const FATX_MAGIC: seq<byte> := [0x46, 0x41, 0x54, 0x58]

  datatype OpenError = UnsupportedPartition | ShortHeader | BadMagic | BadRootCluster | DivisionByZero

  datatype Geometry = Geometry(
    partitionOffset: nat,
    partitionSize: nat,
    clusterSize: nat,
    clusterCount: nat,
    entrySize: nat,
    fatOffset: nat,
    fatSize: nat,
    cluster1Offset: nat)
  {
    function ClusterOffset(c: nat): nat
      requires c >= 1
    {
      cluster1Offset + (c - 1) * clusterSize
    }

    function FatEntryOffset(c: nat): nat {
      fatOffset + c * entrySize
    }

    predicate Ok() {
      && clusterSize > 0 && clusterSize % 512 == 0
      && clusterCount < 0xFFFF_FFF8
      && entrySize == (if clusterCount >= 0xFFF4 then 4 else 2)
      && fatOffset + clusterCount * entrySize <= cluster1Offset
    }

    /** The first byte behind the last cluster. */
    function End(): nat {
      if clusterCount <= 1 then cluster1Offset else ClusterOffset(clusterCount)
    }
  }

  function CeilTo(n: nat, unit: nat): (r: nat)
    requires unit > 0
    ensures n <= r
  {
    (n + unit - 1) / unit * unit
  }

  function OpenPartition(image: seq<byte>, name: string): (r: Outcome<Geometry, OpenError>)
    ensures r.Ok? ==> r.value.Ok()
  {
    if name != "E" && name != "e" then Err(UnsupportedPartition)
    else if |image| < PARTITION_E_OFFSET + HEADER_SIZE then Err(ShortHeader)
    else
      var header := image[PARTITION_E_OFFSET..PARTITION_E_OFFSET + HEADER_SIZE];
      if header[..4] != FATX_MAGIC then Err(BadMagic)
      else if FromLittleEndian(header[12..16]) != ROOT_CLUSTER then Err(BadRootCluster)
      else
        var clusterSize := FromLittleEndian(header[8..12]) * 512;
        if clusterSize == 0 then Err(DivisionByZero)
        else
          var clusterCount := PARTITION_E_SIZE / clusterSize;
          var entrySize := if clusterCount >= 0xFFF4 then 4 else 2;
          var fatSize := CeilTo(clusterCount * entrySize, 4096);
          AtMostSectors(clusterSize);
          Ok(Geometry(PARTITION_E_OFFSET, PARTITION_E_SIZE, clusterSize, clusterCount, entrySize,
                      PARTITION_E_OFFSET + HEADER_SIZE, fatSize, PARTITION_E_OFFSET + HEADER_SIZE + fatSize))
  }

  /** When opening succeeds, and where the parts of the opened partition lie: the count is
      the whole quotient of the partition size, the table is rounded up to the next multiple
      of 4096 bytes and follows the header, and the clusters follow the table. */
  lemma OpenedGeometry(image: seq<byte>, name: string)
    ensures OpenPartition(image, name).Ok? <==>
              && (name == "E" || name == "e") && |image| >= PARTITION_E_OFFSET + HEADER_SIZE
              && var header := image[PARTITION_E_OFFSET..PARTITION_E_OFFSET + HEADER_SIZE];
              && header[..4] == FATX_MAGIC && FromLittleEndian(header[12..16]) == ROOT_CLUSTER
              && FromLittleEndian(header[8..12]) != 0
    ensures OpenPartition(image, name).Ok? ==>
              var g := OpenPartition(image, name).value;
              && g.clusterSize == 512 * FromLittleEndian(image[PARTITION_E_OFFSET + 8..PARTITION_E_OFFSET + 12])
              && g.clusterCount * g.clusterSize <= PARTITION_E_SIZE < (g.clusterCount + 1) * g.clusterSize
              && g.fatSize % 4096 == 0 && g.clusterCount * g.entrySize <= g.fatSize < g.clusterCount * g.entrySize + 4096
              && g.partitionOffset == PARTITION_E_OFFSET && g.partitionSize == PARTITION_E_SIZE
              && g.fatOffset == PARTITION_E_OFFSET + HEADER_SIZE && g.cluster1Offset == g.fatOffset + g.fatSize
              && g.FatEntryOffset(0) == PARTITION_E_OFFSET + HEADER_SIZE && g.ClusterOffset(1) == g.fatOffset + g.fatSize
              && Adjacent(g)
  {
    hide FromLittleEndian, CeilTo, Adjacent;
    if OpenPartition(image, name).Ok? {
      var g := OpenPartition(image, name).value;
      var header := image[PARTITION_E_OFFSET..PARTITION_E_OFFSET + HEADER_SIZE];
      assert header[8..12] == image[PARTITION_E_OFFSET + 8..PARTITION_E_OFFSET + 12];
      WholeQuotient(PARTITION_E_SIZE, g.clusterSize);
      Rounded(g.clusterCount * g.entrySize, 4096);
      InOrder(g);
    }
  }

  /** All clusters of an opened partition begin and end with a sector. */
  lemma OpenedAligned(image: seq<byte>, name: string)
    requires OpenPartition(image, name).Ok?
    ensures OpenPartition(image, name).value.cluster1Offset % 512 == 0
  {
    hide OpenPartition;
    OpenedGeometry(image, name);
    var g := OpenPartition(image, name).value;
    assert g.fatSize == 512 * (8 * (g.fatSize / 4096));
  }

  /** The table entries, and likewise the clusters, follow each other without a gap. */
  ghost predicate Adjacent(g: Geometry) {
    && (forall c: nat :: g.FatEntryOffset(c + 1) == g.FatEntryOffset(c) + g.entrySize)
    && (forall c: nat :: c >= 1 ==> g.ClusterOffset(c + 1) == g.ClusterOffset(c) + g.clusterSize)
  }

  /** On every geometry entry 0 begins where the table does, cluster 1 where the clusters do. */
  lemma InOrder(g: Geometry)
    ensures g.FatEntryOffset(0) == g.fatOffset && g.ClusterOffset(1) == g.cluster1Offset && Adjacent(g)
  {
    forall c: nat
      ensures g.FatEntryOffset(c + 1) == g.FatEntryOffset(c) + g.entrySize
      ensures c >= 1 ==> g.ClusterOffset(c + 1) == g.ClusterOffset(c) + g.clusterSize
    {
      assert (c + 1) * g.entrySize == c * g.entrySize + g.entrySize;
      assert c * g.clusterSize == (c - 1) * g.clusterSize + g.clusterSize;
    }
  }

  lemma WholeQuotient(n: nat, d: nat)
    requires d > 0
    ensures n / d * d <= n < (n / d + 1) * d
  {
    assert n == n / d * d + n % d;
    assert (n / d + 1) * d == n / d * d + d;
  }

  lemma Rounded(n: nat, unit: nat)
    requires unit > 0
    ensures CeilTo(n, unit) % unit == 0 && n <= CeilTo(n, unit) < n + unit
  {
    WholeQuotient(n + unit - 1, unit);
    var q := (n + unit - 1) / unit;
    QuotientUnique(q * unit, unit, q, 0);
  }

  /** An image that ends with the header of partition E. */
  function HeaderOnly(sectorsPerCluster: nat): seq<byte> {
    Zeros(PARTITION_E_OFFSET)
    + (FATX_MAGIC + Zeros(4) + LittleEndian(sectorsPerCluster, 4) + LittleEndian(ROOT_CLUSTER, 4) + Zeros(HEADER_SIZE - 16))
  }

  lemma HeaderOpens(sectorsPerCluster: nat)
    requires 0 < sectorsPerCluster < 0x1_0000_0000
    ensures var r := OpenPartition(HeaderOnly(sectorsPerCluster), "E"); r.Ok? && r.value.clusterSize == 512 * sectorsPerCluster
  {
    hide LittleEndian, FromLittleEndian, CeilTo;
    var image := HeaderOnly(sectorsPerCluster);
    var header := image[PARTITION_E_OFFSET..PARTITION_E_OFFSET + HEADER_SIZE];
    Widths();
    RoundTrip(sectorsPerCluster, 4);
    RoundTrip(ROOT_CLUSTER, 4);
    assert header == FATX_MAGIC + Zeros(4) + LittleEndian(sectorsPerCluster, 4) + LittleEndian(ROOT_CLUSTER, 4) + Zeros(HEADER_SIZE - 16);
    assert header[..4] == FATX_MAGIC;
    assert header[8..12] == LittleEndian(sectorsPerCluster, 4);
    assert header[12..16] == LittleEndian(ROOT_CLUSTER, 4);
  }

  lemma AtMostSectors(clusterSize: nat)
    requires clusterSize > 0
    ensures PARTITION_E_SIZE / clusterSize <= PARTITION_E_SIZE
  {
    var q := PARTITION_E_SIZE / clusterSize;
    assert q * clusterSize <= PARTITION_E_SIZE;
    Monotone(1, clusterSize, q);
  }

  lemma Monotone(a: nat, b: nat, n: nat)
    requires a <= b
    ensures a * n <= b * n
    ensures n * a <= n * b
  {
  }

  /** The last clusters lie behind the end of the partition exactly when the header and
      the table take more room than one cluster and the remainder of the division: the
      cluster count is computed from the whole partition. */
  lemma ClustersPassTheEnd(image: seq<byte>, name: string)
    requires OpenPartition(image, name).Ok? && OpenPartition(image, name).value.clusterCount > 1
    ensures var g := OpenPartition(image, name).value;
      g.End() > g.partitionOffset + g.partitionSize <==>
      HEADER_SIZE + g.fatSize > g.clusterSize + g.partitionSize % g.clusterSize
  {
    hide FromLittleEndian, CeilTo;
    var g := OpenPartition(image, name).value;
    LastCluster(g);
  }

  /** With 16 KiB clusters partition E has 313280 of them, and they pass its end. */
  lemma SixteenKilobytePassTheEnd()
    ensures var r := OpenPartition(HeaderOnly(32), "E");
      r.Ok? && r.value.clusterCount == 313280 && r.value.End() > r.value.partitionOffset + r.value.partitionSize
  {
    hide HeaderOnly, FromLittleEndian, LittleEndian;
    HeaderOpens(32);
    OpenedGeometry(HeaderOnly(32), "E");
    ClustersPassTheEnd(HeaderOnly(32), "E");
  }

  lemma LastCluster(g: Geometry)
    requires g.clusterSize > 0 && g.clusterCount == g.partitionSize / g.clusterSize > 1
    ensures g.End() == g.cluster1Offset + g.partitionSize - g.partitionSize % g.clusterSize - g.clusterSize
  {
    assert g.partitionSize == g.clusterCount * g.clusterSize + g.partitionSize % g.clusterSize;
    assert (g.clusterCount - 1) * g.clusterSize == g.clusterCount * g.clusterSize - g.clusterSize;
  }

  // --------------------------------------------------- regions do not overlap

  lemma ClusterInside(g: Geometry, c: nat)
    requires g.Ok() && 1 <= c < g.clusterCount
    ensures g.cluster1Offset <= g.ClusterOffset(c)
    ensures g.ClusterOffset(c) + g.clusterSize <= g.End()
  {
    Monotone(c, g.clusterCount - 1, g.clusterSize);
    Monotone(0, c - 1, g.clusterSize);
    assert c * g.clusterSize == (c - 1) * g.clusterSize + g.clusterSize;
  }

  /** Different clusters occupy different bytes. */
  lemma ClustersDisjoint(g: Geometry, c: nat, d: nat)
    requires g.Ok() && 1 <= c < d < g.clusterCount
    ensures g.ClusterOffset(c) + g.clusterSize <= g.ClusterOffset(d)
  {
    Monotone(c, d - 1, g.clusterSize);
    assert c * g.clusterSize == (c - 1) * g.clusterSize + g.clusterSize;
  }

  /** Every table entry lies before the first cluster. */
  lemma EntryInside(g: Geometry, c: nat)
    requires g.Ok() && c < g.clusterCount
    ensures g.fatOffset <= g.FatEntryOffset(c)
    ensures g.FatEntryOffset(c) + g.entrySize <= g.cluster1Offset
    ensures g.FatEntryOffset(c) + g.entrySize <= g.End()
  {
    Monotone(c + 1, g.clusterCount, g.entrySize);
    assert (c + 1) * g.entrySize == c * g.entrySize + g.entrySize;
    if g.clusterCount > 1 {
      ClusterInside(g, 1);
    }
  }

  lemma EntriesDisjoint(g: Geometry, c: nat, d: nat)
    requires g.Ok() && c < d < g.clusterCount
    ensures g.FatEntryOffset(c) + g.entrySize <= g.FatEntryOffset(d)
  {
  }

  // ------------------------------------------------ the volume behind the bytes

  predicate Fits(image: seq<byte>, g: Geometry) {
    g.Ok() && g.End() <= |image|
  }

  function EntryBytes(image: seq<byte>, g: Geometry, c: nat): seq<byte>
    requires Fits(image, g) && c < g.clusterCount
  {
    EntryInside(g, c);
    image[g.FatEntryOffset(c)..g.FatEntryOffset(c) + g.entrySize]
  }

  function ClusterBytes(image: seq<byte>, g: Geometry, c: nat): (r: seq<byte>)
    requires Fits(image, g) && 1 <= c < g.clusterCount
    ensures |r| == g.clusterSize
  {
    ClusterInside(g, c);
    image[g.ClusterOffset(c)..g.ClusterOffset(c) + g.clusterSize]
  }

  function VolumeOf(image: seq<byte>, g: Geometry): (v: Volume)
    requires Fits(image, g)
    ensures v.Valid() && |v.fat| == g.clusterCount && v.clusterSize == g.clusterSize
    ensures forall c :: 0 <= c < g.clusterCount ==> v.fat[c] == FromLittleEndian(EntryBytes(image, g, c))
    ensures forall c :: 1 <= c < g.clusterCount ==> v.data[c] == ClusterBytes(image, g, c)
    ensures g.clusterCount > 0 ==> v.data[0] == []
  {
    Volume(g.clusterSize,
           seq(g.clusterCount, c requires 0 <= c < g.clusterCount => FromLittleEndian(EntryBytes(image, g, c))),
           seq(g.clusterCount, c requires 0 <= c < g.clusterCount => if c == 0 then [] else ClusterBytes(image, g, c)))
  }

  /** Nothing outside the table and the clusters differs. */
  ghost predicate SameOutside(image: seq<byte>, image': seq<byte>, g: Geometry) {
    |image'| == |image| && forall i :: 0 <= i < |image| && (i < g.fatOffset || g.End() <= i) ==> image'[i] == image[i]
  }

  lemma EntryFits(g: Geometry, value: nat)
    requires g.Ok() && value <= 0xFFFF_FFFF
    ensures FromLittleEndian(LittleEndian(value, g.entrySize))
            == if g.clusterCount >= 0xFFF4 then value else value % 0x1_0000
  {
    Widths();
    UnpackPack(value, g.entrySize);
    if g.entrySize == 4 {
      RoundTrip(value, 4);
    }
  }

  /** Writing one table entry changes that entry and no cluster. */
  lemma EntryWritten(image: seq<byte>, g: Geometry, c: nat, value: nat)
    requires Fits(image, g) && c < g.clusterCount
    requires value <= 0xFFFF_FFFF
    ensures g.FatEntryOffset(c) + g.entrySize <= |image|
    ensures var image' := Splice(image, g.FatEntryOffset(c), LittleEndian(value, g.entrySize));
            var v := VolumeOf(image, g);
      && SameOutside(image, image', g)
      && VolumeOf(image', g) == v.(fat := v.fat[c := v.Fit(value)])
  {
    hide VolumeOf, LittleEndian, FromLittleEndian;
    EntryInside(g, c);
    var image' := Splice(image, g.FatEntryOffset(c), LittleEndian(value, g.entrySize));
    var v, v' := VolumeOf(image, g), VolumeOf(image', g);
    EntryFits(g, value);
    assert EntryBytes(image', g, c) == LittleEndian(value, g.entrySize);
    forall d | 0 <= d < g.clusterCount && d != c
      ensures EntryBytes(image', g, d) == EntryBytes(image, g, d)
    {
      EntryInside(g, d);
      if d < c {
        EntriesDisjoint(g, d, c);
      } else {
        EntriesDisjoint(g, c, d);
      }
    }
    forall d | 1 <= d < g.clusterCount
      ensures ClusterBytes(image', g, d) == ClusterBytes(image, g, d)
    {
      ClusterInside(g, d);
    }
    assert v'.data == v.data;
    assert v'.fat == v.fat[c := v.Fit(value)];
  }

  /** Writing one cluster changes that cluster and no table entry. */
  lemma ClusterWritten(image: seq<byte>, g: Geometry, c: nat, bytes: seq<byte>)
    requires Fits(image, g) && 1 <= c < g.clusterCount && |bytes| == g.clusterSize
    ensures g.ClusterOffset(c) + g.clusterSize <= |image|
    ensures var image' := Splice(image, g.ClusterOffset(c), bytes);
            var v := VolumeOf(image, g);
      && SameOutside(image, image', g)
      && VolumeOf(image', g) == v.(data := v.data[c := bytes])
  {
    ClusterInside(g, c);
    var image' := Splice(image, g.ClusterOffset(c), bytes);
    var v, v' := VolumeOf(image, g), VolumeOf(image', g);
    assert ClusterBytes(image', g, c) == bytes;
    forall d | 0 <= d < g.clusterCount
      ensures EntryBytes(image', g, d) == EntryBytes(image, g, d)
    {
      EntryInside(g, d);
    }
    forall d | 1 <= d < g.clusterCount && d != c
      ensures ClusterBytes(image', g, d) == ClusterBytes(image, g, d)
    {
      ClusterInside(g, d);
      if d < c {
        ClustersDisjoint(g, d, c);
      } else {
        ClustersDisjoint(g, c, d);
      }
    }
    EntryInside(g, 0);
    assert v'.fat == v.fat;
    assert v'.data == v.data[c := bytes];
  }

  lemma NextCluster(g: Geometry, c: nat)
    requires c >= 1
    ensures g.ClusterOffset(c + 1) == g.ClusterOffset(c) + g.clusterSize
  {
  }

  lemma LaterCluster(g: Geometry, c: nat, n: nat)
    requires c >= 1
    ensures g.ClusterOffset(c + n) == g.ClusterOffset(c) + n * g.clusterSize
  {
    assert (c + n - 1) * g.clusterSize == (c - 1) * g.clusterSize + n * g.clusterSize;
  }

  /** The clusters start, start + 1, ... of a contiguous file are one byte range of the image. */
  lemma {:induction false} RunIsFlat(image: seq<byte>, g: Geometry, start: nat, n: nat)
    requires Fits(image, g) && 1 <= start && start + n <= g.clusterCount && n >= 1
    ensures g.ClusterOffset(start) <= g.ClusterOffset(start + n) <= |image|
    ensures Content(VolumeOf(image, g).data, Consecutive(start, n)) == image[g.ClusterOffset(start)..g.ClusterOffset(start + n)]
    decreases n
  {
    hide VolumeOf, Consecutive, Geometry.ClusterOffset;
    var data := VolumeOf(image, g).data;
    ClusterInside(g, start);
    NextCluster(g, start);
    assert data[start] == ClusterBytes(image, g, start);
    if n == 1 {
      assert Content(data, Consecutive(start, 1)[1..]) == [];
    } else {
      RunIsFlat(image, g, start + 1, n - 1);
      assert Consecutive(start, n)[1..] == Consecutive(start + 1, n - 1);
    }
  }
}
