/** Directories and files on the image: lookup, removal, insertion, path resolution,
    reading and writing, each proved against the volume functions. */
module FatxFiles {
  import opened Bytes
  import opened FatTable
  import opened FatAlloc
  import opened FatDirectory
  import opened FatSlot
  import opened FatxVolume
  import opened FatxText
  import opened FatxGeometry
  import opened FatxImage
  import opened FatxStager

  // ---------------------------------------------------------------- directories

  function DecodeName(s: Slot): Option<string> {
    if IsTerminator(s[0]) || s[0] == DELETED then None else Some(NameOf(s))
  }

  /** The slots up to and including the first terminator. */
  ghost function Listed(d: seq<byte>): (r: seq<Slot>) {
    var n := Min(End(Cells(d), 0) + 1, |Cells(d)|);
    seq(n, i requires 0 <= i < n => SlotAt(d, i))
  }

  method DirectoryEntries(p: FatxPartition, d: nat) returns (r: Outcome<seq<Slot>, Error>)
    requires p.Valid()
    ensures !InTable(p.vol.fat, d) ==> r == Err(ClusterRange)
    ensures InTable(p.vol.fat, d) ==> r == Ok(Listed(p.vol.data[d]))
  {
    var cluster := p.ReadCluster(d);
    if cluster.Err? {
      return Err(cluster.error);
    }
    var root := cluster.value;
    var entries: seq<Slot> := [];
    ghost var end := End(Cells(root), 0);
    var i := 0;
    while i < |root| / SLOT_SIZE
      invariant i <= |root| / SLOT_SIZE && i <= end
      invariant entries == seq(i, j requires 0 <= j < i => SlotAt(root, j))
    {
      var entry := SlotAt(root, i);
      entries := entries + [entry];
      assert Cells(root)[i] == View(entry);
      if IsTerminator(entry[0]) {
        break;
      }
      i := i + 1;
    }
    assert entries == Listed(root);
    r := Ok(entries);
  }

  method FindDirectoryEntry(p: FatxPartition, d: nat, name: string) returns (r: Outcome<Option<Meta>, Error>)
    requires p.Valid()
    ensures r == FindEntry(p.vol, d, name)
  {
    hide VolumeOf, Fits, NameOf, Lower, MetaOf, FromLittleEndian, Cells;
    var target := Lower(name);
    var entries := DirectoryEntries(p, d);
    if entries.Err? {
      return Err(entries.error);
    }
    ghost var cells := Cells(p.vol.data[d]);
    ghost var end := End(cells, 0);
    var i := 0;
    while i < |entries.value|
      invariant i <= |entries.value|
      invariant i <= end ==> Find(cells, target, i) == Find(cells, target, 0)
      invariant i > end ==> Find(cells, target, 0) == None
    {
      var entry := entries.value[i];
      assert cells[i] == View(entry);
      var entryName := DecodeName(entry);
      if entryName.Some? && Lower(entryName.value) == target {
        return Ok(Some(MetaOf(entry)));
      }
      i := i + 1;
    }
    r := Ok(None);
  }

  /** Frees the chain of every entry with the name and marks the entry deleted. */
  method RemoveDirectoryEntry(p: FatxPartition, d: nat, name: string) returns (r: Outcome<(), Error>)
    requires p.Valid()
    modifies p
    ensures r == RemoveEntry(old(p.vol), d, name).result
    ensures Became(p, RemoveEntry(old(p.vol), d, name).vol)
  {
    hide VolumeOf, NameOf, Lower, FreeChain, Cells, MetaOf;
    ghost var v := p.vol;
    var cluster := p.ReadCluster(d);
    if cluster.Err? {
      return Err(cluster.error);
    }
    var root: seq<byte> := cluster.value;
    var target := Lower(name);
    var i := 0;
    while i < |root| / SLOT_SIZE
      invariant |root| == v.clusterSize && i <= |root| / SLOT_SIZE
      invariant Became(p, v.(fat := p.vol.fat)) && |p.vol.fat| == |v.fat|
      invariant RemoveFrom(v.fat, v.data[d], target, 0) == RemoveFrom(p.vol.fat, root, target, i)
    {
      var entry := SlotAt(root, i);
      assert Cells(root)[i] == View(entry);
      if IsTerminator(entry[0]) {
        break;
      }
      var entryName := DecodeName(entry);
      if entryName.Some? && Lower(entryName.value) == target {
        var start := MetaOf(entry).cluster;
        if start != 0 {
          FreeClusterChain(p, start);
        }
        root := root[SLOT_SIZE * i := DELETED];
      }
      i := i + 1;
    }
    assert RemoveFrom(v.fat, v.data[d], target, 0) == (p.vol.fat, root);
    p.WriteCluster(d, root);
    r := Ok(());
  }

  method FindRootSlot(root: seq<byte>) returns (slot: Option<nat>)
    ensures slot == FreeSlot(Cells(root), 0, None)
  {
    hide NameOf, Lower, MetaOf;
    var deleted: Option<nat> := None;
    var i := 0;
    while i < |root| / SLOT_SIZE
      invariant i <= |root| / SLOT_SIZE
      invariant FreeSlot(Cells(root), 0, None) == FreeSlot(Cells(root), i, deleted)
    {
      var marker := SlotAt(root, i)[0];
      assert Cells(root)[i] == View(SlotAt(root, i));
      if IsTerminator(marker) {
        return if deleted.Some? then deleted else Some(i);
      }
      if marker == DELETED && deleted == None {
        deleted := Some(i);
      }
      i := i + 1;
    }
    slot := deleted;
  }

  /** The 64 bytes of an entry, patched field by field into zeros. */
  method BuildEntry(name: string, m: Meta) returns (entry: seq<byte>)
    requires ValidName(name)
    ensures entry == MakeSlot(name, m)
  {
    entry := Zeros(SLOT_SIZE);
    entry := Splice(entry, 0, [|name|]);
    entry := Splice(entry, 1, [m.flags]);
    entry := Splice(entry, 2, Encode(name));
    entry := Splice(entry, 0x2C, LittleEndian(m.cluster, 4));
    entry := Splice(entry, 0x30, LittleEndian(m.size, 4));
  }

  method AddDirectoryEntry(p: FatxPartition, d: nat, name: string, m: Meta) returns (r: Outcome<(), Error>)
    requires p.Valid() && ValidName(name)
    modifies p
    ensures r == AddEntry(old(p.vol), d, name, m).result
    ensures Became(p, AddEntry(old(p.vol), d, name, m).vol)
  {
    var cluster := p.ReadCluster(d);
    if cluster.Err? {
      return Err(cluster.error);
    }
    var root := cluster.value;
    var slot := FindRootSlot(root);
    if slot == None {
      return Err(DirectoryFull);
    }
    FreeSlotIsFirst(Cells(root), 0);
    if m.size > MAX_U32 {
      return Err(SizeOverflow);
    }
    var entry := BuildEntry(name, m);
    root := Splice(root, SLOT_SIZE * slot.value, entry);
    var next := SLOT_SIZE * slot.value + SLOT_SIZE;
    if next < |root| && root[next] == 0x00 {
      root := root[next := 0xFF];
    }
    p.WriteCluster(d, root);
    r := Ok(());
  }

  // ---------------------------------------------------------------------- paths

  method EnsureDirectoryEntry(p: FatxPartition, parent: nat, name: string) returns (r: Outcome<nat, Error>)
    requires p.Valid() && ValidName(name)
    modifies p
    ensures r == EnsureDirectory(old(p.vol), parent, name).result
    ensures Became(p, EnsureDirectory(old(p.vol), parent, name).vol)
  {
    var found := FindDirectoryEntry(p, parent, name);
    if found.Err? {
      return Err(found.error);
    }
    if found.value.Some? {
      if !found.value.value.IsDir() {
        return Err(NotADirectory);
      }
      return Ok(found.value.value.cluster);
    }
    var clusters := AllocateClusters(p, 1);
    if clusters.Err? {
      return Err(clusters.error);
    }
    var cluster := clusters.value[0];
    p.WriteCluster(cluster, []);
    assert PadRight([], p.geo.clusterSize) == Zeros(p.geo.clusterSize);
    var added := AddDirectoryEntry(p, parent, name, Meta(ATTR_DIRECTORY, cluster, 0));
    if added.Err? {
      return Err(added.error);
    }
    r := Ok(cluster);
  }

  method ResolveParentDirectory(p: FatxPartition, parts: seq<string>) returns (r: Outcome<nat, Error>)
    requires p.Valid() && ValidNames(parts)
    modifies p
    ensures r == Resolve(old(p.vol), ROOT_CLUSTER, parts).result
    ensures Became(p, Resolve(old(p.vol), ROOT_CLUSTER, parts).vol)
  {
    hide VolumeOf, EnsureDirectory, ValidName;
    ghost var v := p.vol;
    var directory: nat := ROOT_CLUSTER;
    var i := 0;
    assert parts[0..] == parts;
    while i < |parts|
      invariant i <= |parts| && p.Valid() && SameOutside(old(p.image), p.image, p.geo)
      invariant Resolve(v, ROOT_CLUSTER, parts) == Resolve(p.vol, directory, parts[i..])
    {
      ghost var before := p.vol;
      assert parts[i..][0] == parts[i] && parts[i..][1..] == parts[i + 1..];
      var next := EnsureDirectoryEntry(p, directory, parts[i]);
      if next.Err? {
        return Err(next.error);
      }
      directory := next.value;
      i := i + 1;
    }
    r := Ok(directory);
  }

  // --------------------------------------------------------------------- reading

  lemma {:induction false} ContentStep(data: seq<seq<byte>>, chain: seq<nat>, i: nat)
    requires AllBelow(chain, |data|) && i < |chain|
    ensures Content(data, chain[..i + 1]) == Content(data, chain[..i]) + data[chain[i]]
    decreases i
  {
    if i > 0 {
      assert chain[..i + 1][1..] == chain[1..][..i];
      assert chain[..i][1..] == chain[1..][..i - 1];
      ContentStep(data, chain[1..], i - 1);
    } else {
      assert chain[..1][1..] == [];
      assert chain[..0] == [];
    }
  }

  lemma {:induction false} ContentIsPrefix(data: seq<seq<byte>>, chain: seq<nat>, i: nat)
    requires AllBelow(chain, |data|) && i <= |chain|
    ensures Content(data, chain[..i]) <= Content(data, chain)
    decreases |chain| - i
  {
    if i < |chain| {
      ContentStep(data, chain, i);
      ContentIsPrefix(data, chain, i + 1);
    } else {
      assert chain[..i] == chain;
    }
  }

  /** Reads size bytes along the chain that starts at the given cluster. */
  method ReadAlongChain(p: FatxPartition, m: Meta) returns (r: Outcome<seq<byte>, Error>)
    requires p.Valid()
    ensures r == ReadFile(p.vol, m)
  {
    hide VolumeOf, Fits, Chain;
    var remaining: nat := m.size;
    var data: seq<byte> := [];
    var chain := ClusterChain(p, m.cluster);
    ChainBelow(p.vol.fat, m.cluster);
    ghost var all := Content(p.vol.data, chain);
    var i := 0;
    assert chain[..0] == [];
    while i < |chain|
      invariant i <= |chain| && remaining + |data| == m.size
      invariant data <= all
      invariant remaining == 0 || data == Content(p.vol.data, chain[..i])
    {
      assert chain[i] in chain;
      var cluster := p.ReadCluster(chain[i]);
      var chunk := cluster.value;
      var take := Min(remaining, |chunk|);
      ContentStep(p.vol.data, chain, i);
      ContentIsPrefix(p.vol.data, chain, i + 1);
      data := data + chunk[..take];
      remaining := remaining - take;
      i := i + 1;
      if remaining == 0 {
        break;
      }
    }
    if remaining != 0 {
      assert chain[..i] == chain;
      assert data == all && |all| < m.size;
      return Err(ShortChain);
    }
    assert all[..m.size] == data;
    r := Ok(data);
  }

  method ReadParts(p: FatxPartition, parts: seq<string>) returns (r: Outcome<seq<byte>, Error>)
    requires p.Valid() && parts != []
    ensures r == ReadPath(p.vol, parts)
  {
    hide VolumeOf, Fits, FindEntry, ReadFile;
    var directory: nat := ROOT_CLUSTER;
    var entry: Option<Meta> := None;
    var last := parts[|parts| - 1];
    ghost var foundIn: nat := ROOT_CLUSTER;
    assert parts[0..] == parts;
    var i := 0;
    while i < |parts|
      invariant i <= |parts|
      invariant i < |parts| ==> Locate(p.vol, ROOT_CLUSTER, parts, last) == Locate(p.vol, directory, parts[i..], last)
      invariant i == |parts| ==> entry.Some? && Locate(p.vol, ROOT_CLUSTER, parts, last) == Ok(Target(foundIn, Lower(last), entry.value))
    {
      assert parts[i..][1..] == parts[i + 1..];
      var found := FindDirectoryEntry(p, directory, parts[i]);
      if found.Err? {
        return Err(found.error);
      }
      entry := found.value;
      if entry == None {
        return Err(NotFound);
      }
      foundIn := directory;
      if parts[i] != last {
        if !entry.value.IsDir() {
          return Err(NotADirectory);
        }
        directory := entry.value.cluster;
      }
      i := i + 1;
    }
    if entry.value.IsDir() {
      return Err(NotFound);
    }
    r := ReadAlongChain(p, entry.value);
  }

  method ReadPathFile(p: FatxPartition, path: string) returns (r: Outcome<seq<byte>, Error>)
    requires p.Valid()
    ensures r == if SplitPath(path).Ok? then ReadPath(p.vol, SplitPath(path).value) else Err(BadPath)
  {
    var parts := SplitPath(path);
    if parts.Err? {
      return Err(parts.error);
    }
    r := ReadParts(p, parts.value);
  }

  // --------------------------------------------------------------------- writing

  datatype WriteResult = WriteResult(
    name: string,
    size: nat,
    startCluster: nat,
    clusterCount: nat,
    diskOffset: nat,
    contiguous: bool,
    firstSector: nat,
    lastSector: nat,
    chainSample: seq<nat>)

  predicate StepsByOne(cs: seq<nat>) {
    forall i :: 0 <= i < |cs| - 1 ==> cs[i] + 1 == cs[i + 1]
  }

  function Describe(g: Geometry, path: string, size: nat, cs: seq<nat>): WriteResult
    requires g.Ok() && cs != [] && cs[0] >= 1 && cs[|cs| - 1] >= 1
  {
    WriteResult(path, size, cs[0], |cs|, g.ClusterOffset(cs[0]), StepsByOne(cs),
                g.ClusterOffset(cs[0]) / 512, (g.ClusterOffset(cs[|cs| - 1]) + g.clusterSize - 1) / 512,
                cs[..Min(64, |cs|)])
  }

  /** What is reported: the first sector begins where the first cluster does, the last one
      ends where the last cluster does, on any partition whose clusters are aligned to
      sectors; and contiguous means that the clusters are consecutive. */
  lemma DescribedSectors(g: Geometry, path: string, size: nat, cs: seq<nat>)
    requires g.Ok() && g.cluster1Offset % 512 == 0 && cs != [] && cs[0] >= 1 && cs[|cs| - 1] >= 1
    ensures var w := Describe(g, path, size, cs);
      && w.diskOffset == g.ClusterOffset(w.startCluster) == 512 * w.firstSector
      && 512 * (w.lastSector + 1) == g.ClusterOffset(cs[|cs| - 1]) + g.clusterSize
      && (w.contiguous <==> cs == Consecutive(w.startCluster, w.clusterCount))
      && w.clusterCount == |cs| && w.chainSample <= cs && |w.chainSample| == (if |cs| < 64 then |cs| else 64)
  {
    hide StepsByOne, Geometry.ClusterOffset;
    SectorAligned(g, cs[0]);
    SectorAligned(g, cs[|cs| - 1]);
    StepsMeansConsecutive(cs);
  }

  lemma StepsMeansConsecutive(cs: seq<nat>)
    requires cs != []
    ensures StepsByOne(cs) <==> cs == Consecutive(cs[0], |cs|)
  {
    if StepsByOne(cs) {
      Stepping(cs, |cs|);
      assert cs == Consecutive(cs[0], |cs|);
    }
  }

  lemma SectorAligned(g: Geometry, c: nat)
    requires g.Ok() && g.cluster1Offset % 512 == 0 && c >= 1
    ensures g.ClusterOffset(c) % 512 == 0
  {
    var k, b := g.clusterSize / 512, g.cluster1Offset / 512;
    assert (c - 1) * g.clusterSize == 512 * ((c - 1) * k);
    assert g.ClusterOffset(c) == 512 * (b + (c - 1) * k);
  }

  lemma {:induction false} Stepping(cs: seq<nat>, n: nat)
    requires StepsByOne(cs) && 0 < n <= |cs|
    ensures forall i :: 0 <= i < n ==> cs[i] == cs[0] + i
  {
    if n > 1 {
      Stepping(cs, n - 1);
      assert cs[n - 2] + 1 == cs[n - 1];
    }
  }

  method FillClusters(p: FatxPartition, cs: seq<nat>, data: seq<byte>)
    requires p.Valid() && Allocatable(p.vol.fat, cs)
    modifies p
    ensures Became(p, old(p.vol).(data := WrittenTo(old(p.vol), cs, data, |cs|)))
  {
    hide VolumeOf, PadRight, Chunk;
    ghost var v := p.vol;
    var index := 0;
    while index < |cs|
      invariant index <= |cs|
      invariant Became(p, v.(data := WrittenTo(v, cs, data, index)))
    {
      p.WriteCluster(cs[index], Chunk(data, index, p.geo.clusterSize));
      index := index + 1;
    }
  }

  method AllocateLaidOut(p: FatxPartition, count: nat, layout: Layout) returns (r: Outcome<seq<nat>, Error>)
    requires p.Valid() && count >= 1
    modifies p
    ensures r == Allocate(old(p.vol), count, layout)
    ensures Became(p, if r.Ok? then LinkChain(old(p.vol), r.value) else old(p.vol))
  {
    match layout
    case Normal => r := AllocateClusters(p, count);
    case Contiguous => r := AllocateContiguousClusters(p, count);
    case Fragmented => r := AllocateFragmentedClusters(p, count);
  }

  /** Everything from removing the old entry to adding the new one. */
  method StoreInDirectory(p: FatxPartition, d: nat, name: string, data: seq<byte>, layout: Layout)
    returns (r: Outcome<seq<nat>, Error>)
    requires p.Valid() && ValidName(name)
    modifies p
    ensures r == StoreIn(old(p.vol), d, name, data, layout).result
    ensures Became(p, StoreIn(old(p.vol), d, name, data, layout).vol)
  {
    hide VolumeOf, Fits, RemoveEntry, AddEntry, WrittenTo, Allocation;
    var removed := RemoveDirectoryEntry(p, d, name);
    if removed.Err? {
      return Err(removed.error);
    }
    r := AllocateLaidOut(p, ClustersFor(|data|, p.geo.clusterSize), layout);
    if r.Err? {
      return;
    }
    FillClusters(p, r.value, data);
    var added := AddDirectoryEntry(p, d, name, Meta(ATTR_ARCHIVE, r.value[0], |data|));
    if added.Err? {
      r := Err(added.error);
    }
  }

  method WritePathFile(p: FatxPartition, path: string, data: seq<byte>, layout: Layout)
    returns (r: Outcome<WriteResult, Error>)
    requires p.Valid()
    modifies p
    ensures SplitPath(path).Err? ==> r == Err(BadPath) && Became(p, old(p.vol))
    ensures SplitPath(path).Ok? ==>
              var s := WritePath(old(p.vol), SplitPath(path).value, data, layout);
              && Became(p, s.vol)
              && (s.result.Err? ==> r == Err(s.result.error))
              && (s.result.Ok? ==> r.Ok? && s.result.value != [] && Allocatable(s.vol.fat, s.result.value)
                                   && r.value == Describe(p.geo, path, |data|, s.result.value))
  {
    hide VolumeOf, Resolve, StoreIn, ReadPath, SplitPath;
    var split := SplitPath(path);
    if split.Err? {
      return Err(BadPath);
    }
    var parts := split.value;
    var n := |parts| - 1;
    var parent := ResolveParentDirectory(p, parts[..n]);
    if parent.Err? {
      return Err(parent.error);
    }
    StoreInAllocates(p.vol, parent.value, parts[n], data, layout);
    var stored := StoreInDirectory(p, parent.value, parts[n], data, layout);
    if stored.Err? {
      return Err(stored.error);
    }
    var readback := ReadParts(p, parts);
    if readback.Err? {
      return Err(readback.error);
    }
    if readback.value != data {
      return Err(ReadbackMismatch);
    }
    r := Ok(Describe(p.geo, path, |data|, stored.value));
  }

  lemma StoreInAllocates(v: Volume, d: nat, name: string, data: seq<byte>, layout: Layout)
    requires v.Valid() && ValidName(name)
    ensures var s := StoreIn(v, d, name, data, layout);
      s.result.Ok? ==> s.result.value != [] && Allocatable(s.vol.fat, s.result.value)
  {
    hide RemoveEntry, AddEntry, WrittenTo, Allocation;
  }
}
