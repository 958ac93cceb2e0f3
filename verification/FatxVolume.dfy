/** What the stager's operations compute, on a volume given as an allocation table
    and the contents of its clusters. */
module FatxVolume {
  import opened Bytes
  import opened FatTable
  import opened FatAlloc
  import opened FatDirectory
  import opened FatSlot

  const ROOT_CLUSTER := 1
  const MAX_U32 := 0xFFFF_FFFF

  datatype Error =
    | BadPath
    | ClusterRange
    | NotFound
    | NotADirectory
    | NoSpace
    | DirectoryFull
    | SizeOverflow
    | ShortChain
    | ReadbackMismatch

  /** Clusters 1, ..., |fat| - 1 exist; data[0] is a placeholder. */
  datatype Volume = Volume(clusterSize: nat, fat: seq<nat>, data: seq<seq<byte>>) {
    /** Four-byte table entries are used from this many clusters on. */
    predicate Wide() {
      |fat| >= 0xFFF4
    }

    ghost predicate Valid() {
      && clusterSize > 0 && clusterSize % 512 == 0
      && |data| == |fat| < 0xFFFF_FFF8
      && (forall c :: 1 <= c < |data| ==> |data[c]| == clusterSize)
    }

    /** Storing a value in a table entry keeps as many bytes as the entry has. */
    function Fit(value: nat): nat {
      if Wide() then value else value % 0x1_0000
    }
  }

  /** An operation that changes the volume and then returns or raises; what was
      changed before raising stays changed. */
  datatype Step<+T> = Step(vol: Volume, result: Outcome<T, Error>)

  // ------------------------------------------------------------------- lookup

  function FindEntry(v: Volume, d: nat, name: string): Outcome<Option<Meta>, Error>
    requires v.Valid()
  {
    if InTable(v.fat, d) then Ok(Lookup(Cells(v.data[d]), Lower(name))) else Err(ClusterRange)
  }

  /** The directory entry a path leads to. */
  datatype Target = Target(dir: nat, key: string, meta: Meta)

  /** The walk of read_path_file from directory d. It compares each component with
      the last one by value and descends only when they differ. */
  function Locate(v: Volume, d: nat, parts: seq<string>, last: string): Outcome<Target, Error>
    requires v.Valid() && parts != []
    decreases |parts|
  {
    match FindEntry(v, d, parts[0])
    case Err(e) => Err(e)
    case Ok(None) => Err(NotFound)
    case Ok(Some(m)) =>
      if parts[0] != last && !m.IsDir() then Err(NotADirectory)
      else if |parts| == 1 then Ok(Target(d, Lower(parts[0]), m))
      else Locate(v, if parts[0] != last then m.cluster else d, parts[1..], last)
  }

  /** The clusters of a chain one after the other. */
  function Content(data: seq<seq<byte>>, chain: seq<nat>): seq<byte>
    requires AllBelow(chain, |data|)
  {
    if chain == [] then [] else data[chain[0]] + Content(data, chain[1..])
  }

  lemma ChainBelow(fat: seq<nat>, c: nat)
    ensures AllBelow(Chain(fat, c), |fat|)
  {
    var ch := Chain(fat, c);
    forall i | 0 <= i < |ch|
      ensures ch[i] < |fat|
    {
      assert ch[i] in ch;
    }
  }

  function ReadFile(v: Volume, m: Meta): Outcome<seq<byte>, Error>
    requires v.Valid()
  {
    ChainBelow(v.fat, m.cluster);
    var bytes := Content(v.data, Chain(v.fat, m.cluster));
    if m.size <= |bytes| then Ok(bytes[..m.size]) else Err(ShortChain)
  }

  function ReadPath(v: Volume, parts: seq<string>): Outcome<seq<byte>, Error>
    requires v.Valid() && parts != []
  {
    match Locate(v, ROOT_CLUSTER, parts, parts[|parts| - 1])
    case Err(e) => Err(e)
    case Ok(t) => if t.meta.IsDir() then Err(NotFound) else ReadFile(v, t.meta)
  }

  // ------------------------------------------------------------------ removal

  /** Every entry with the key, from slot i up to the terminator, has its chain freed
      and is marked deleted. */
  function RemoveFrom(fat: seq<nat>, d: seq<byte>, key: string, i: nat): (r: (seq<nat>, seq<byte>))
    requires i <= |d| / SLOT_SIZE
    ensures |r.0| == |fat| && |r.1| == |d|
    decreases |d| / SLOT_SIZE - i
  {
    if i == |d| / SLOT_SIZE || Cells(d)[i].Terminator? then (fat, d)
    else if Names(Cells(d)[i], key) then
      var start := Cells(d)[i].meta.cluster;
      RemoveFrom(if start != 0 then FreeChain(fat, start) else fat, d[SLOT_SIZE * i := DELETED], key, i + 1)
    else RemoveFrom(fat, d, key, i + 1)
  }

  function RemoveEntry(v: Volume, d: nat, name: string): (s: Step<()>)
    requires v.Valid()
    ensures s.vol.Valid() && |s.vol.fat| == |v.fat| && s.vol.clusterSize == v.clusterSize
  {
    if !InTable(v.fat, d) then Step(v, Err(ClusterRange))
    else
      var (fat, bytes) := RemoveFrom(v.fat, v.data[d], Lower(name), 0);
      Step(v.(fat := fat, data := v.data[d := bytes]), Ok(()))
  }

  // ---------------------------------------------------------------- insertion

  function StoreBytes(d: seq<byte>, s: nat, slot: Slot): (r: seq<byte>)
    requires s < |d| / SLOT_SIZE
    ensures |r| == |d|
  {
    var next := SLOT_SIZE * s + SLOT_SIZE;
    var d' := Splice(d, SLOT_SIZE * s, slot);
    if next < |d| && d'[next] == 0x00 then d'[next := 0xFF] else d'
  }

  function AddEntry(v: Volume, d: nat, name: string, m: Meta): (s: Step<()>)
    requires v.Valid() && ValidName(name)
    ensures s.vol.Valid() && s.vol.fat == v.fat && s.vol.clusterSize == v.clusterSize
    ensures s.result.Err? ==> s.vol == v
    ensures s.result.Err? && InTable(v.fat, d) ==> s.result.error in {DirectoryFull, SizeOverflow}
  {
    if !InTable(v.fat, d) then Step(v, Err(ClusterRange))
    else match FreeSlot(Cells(v.data[d]), 0, None)
      case None => Step(v, Err(DirectoryFull))
      case Some(s) =>
        if m.size > MAX_U32 then Step(v, Err(SizeOverflow))
        else
          FreeSlotIsFirst(Cells(v.data[d]), 0);
          Step(v.(data := v.data[d := StoreBytes(v.data[d], s, MakeSlot(name, m))]), Ok(()))
  }

  // --------------------------------------------------------------- allocation

  function Allocate(v: Volume, count: nat, layout: Layout): (r: Outcome<seq<nat>, Error>)
    requires count >= 1
    ensures r.Ok? ==> |r.value| == count && Allocatable(v.fat, r.value)
    ensures r.Ok? ==> forall i :: 0 <= i < count ==> IsFree(v.fat, r.value[i])
    ensures r.Err? ==> r.error == NoSpace
  {
    match Allocation(v.fat, count, layout)
    case None => Err(NoSpace)
    case Some(cs) => AllocationIsFresh(v.fat, count, layout); Ok(cs)
  }

  function LinkChain(v: Volume, cs: seq<nat>): (v': Volume)
    requires v.Valid() && Allocatable(v.fat, cs)
    ensures v'.Valid() && |v'.fat| == |v.fat| && v'.data == v.data && v'.clusterSize == v.clusterSize
  {
    v.(fat := Linked(v.fat, cs, v.Fit(END_OF_CHAIN)))
  }

  function EnsureDirectory(v: Volume, d: nat, name: string): (s: Step<nat>)
    requires v.Valid() && ValidName(name)
    ensures s.vol.Valid() && |s.vol.fat| == |v.fat| && s.vol.clusterSize == v.clusterSize
  {
    match FindEntry(v, d, name)
    case Err(e) => Step(v, Err(e))
    case Ok(Some(m)) => Step(v, if m.IsDir() then Ok(m.cluster) else Err(NotADirectory))
    case Ok(None) =>
      match Allocate(v, 1, Normal)
      case Err(e) => Step(v, Err(e))
      case Ok(cs) =>
        var v1 := LinkChain(v, cs);
        var v2 := v1.(data := v1.data[cs[0] := Zeros(v.clusterSize)]);
        var added := AddEntry(v2, d, name, Meta(ATTR_DIRECTORY, cs[0], 0));
        Step(added.vol, if added.result.Ok? then Ok(cs[0]) else Err(added.result.error))
  }

  predicate ValidNames(parts: seq<string>) {
    forall i :: 0 <= i < |parts| ==> ValidName(parts[i])
  }

  function Resolve(v: Volume, d: nat, parts: seq<string>): (s: Step<nat>)
    requires v.Valid() && ValidNames(parts)
    ensures s.vol.Valid() && |s.vol.fat| == |v.fat| && s.vol.clusterSize == v.clusterSize
    decreases |parts|
  {
    if parts == [] then Step(v, Ok(d))
    else
      var s := EnsureDirectory(v, d, parts[0]);
      if s.result.Err? then s else Resolve(s.vol, s.result.value, parts[1..])
  }

  // ------------------------------------------------------------------ writing

  function Min(a: nat, b: nat): nat {
    if a <= b then a else b
  }

  function ClustersFor(size: nat, clusterSize: nat): (n: nat)
    requires clusterSize > 0
    ensures n >= 1
  {
    var n := (size + clusterSize - 1) / clusterSize;
    if n >= 1 then n else 1
  }

  /** The k-th cluster-sized piece of data; Python slices stop at the end. */
  function Chunk(data: seq<byte>, k: nat, clusterSize: nat): (r: seq<byte>)
    ensures |r| <= clusterSize
  {
    var lo := Min(k * clusterSize, |data|);
    data[lo..Min(lo + clusterSize, |data|)]
  }

  /** The clusters after the first k pieces of data have been written. */
  function WrittenTo(v: Volume, cs: seq<nat>, data: seq<byte>, k: nat): (r: seq<seq<byte>>)
    requires v.Valid() && k <= |cs| && AllBelow(cs, |v.fat|)
    ensures |r| == |v.data|
    ensures forall c :: 1 <= c < |r| ==> |r[c]| == v.clusterSize
  {
    if k == 0 then v.data
    else WrittenTo(v, cs, data, k - 1)[cs[k - 1] := PadRight(Chunk(data, k - 1, v.clusterSize), v.clusterSize)]
  }

  /** Everything write_path_file does before it reads the file back. */
  function Store(v: Volume, parts: seq<string>, data: seq<byte>, layout: Layout): (s: Step<seq<nat>>)
    requires v.Valid() && parts != [] && ValidNames(parts)
    ensures s.vol.Valid() && |s.vol.fat| == |v.fat| && s.vol.clusterSize == v.clusterSize
  {
    var n := |parts| - 1;
    var parent := Resolve(v, ROOT_CLUSTER, parts[..n]);
    if parent.result.Err? then Step(parent.vol, Err(parent.result.error)) else
    var d := parent.result.value;
    StoreIn(parent.vol, d, parts[n], data, layout)
  }

  /** The same once the parent directory is known. */
  function StoreIn(v: Volume, d: nat, name: string, data: seq<byte>, layout: Layout): (s: Step<seq<nat>>)
    requires v.Valid() && ValidName(name)
    ensures s.vol.Valid() && |s.vol.fat| == |v.fat| && s.vol.clusterSize == v.clusterSize
  {
    var removed := RemoveEntry(v, d, name);
    if removed.result.Err? then Step(removed.vol, Err(removed.result.error))
    else StoreFresh(removed.vol, d, name, data, layout)
  }

  /** After the old entry is gone: allocate, place. */
  function StoreFresh(v: Volume, d: nat, name: string, data: seq<byte>, layout: Layout): (s: Step<seq<nat>>)
    requires v.Valid() && ValidName(name)
    ensures s.vol.Valid() && |s.vol.fat| == |v.fat| && s.vol.clusterSize == v.clusterSize
  {
    var chosen := Allocate(v, ClustersFor(|data|, v.clusterSize), layout);
    if chosen.Err? then Step(v, Err(chosen.error)) else Place(v, d, name, data, chosen.value)
  }

  /** Linking the chosen clusters, filling them and adding the directory entry. */
  function Place(v: Volume, d: nat, name: string, data: seq<byte>, cs: seq<nat>): (s: Step<seq<nat>>)
    requires v.Valid() && ValidName(name) && Allocatable(v.fat, cs) && cs != []
    ensures s.vol.Valid() && |s.vol.fat| == |v.fat| && s.vol.clusterSize == v.clusterSize
  {
    var linked := LinkChain(v, cs);
    var filled := linked.(data := WrittenTo(linked, cs, data, |cs|));
    var added := AddEntry(filled, d, name, Meta(ATTR_ARCHIVE, cs[0], |data|));
    Step(added.vol, if added.result.Ok? then Ok(cs) else Err(added.result.error))
  }

  /** write_path_file: store the file, read it back, compare. */
  function WritePath(v: Volume, parts: seq<string>, data: seq<byte>, layout: Layout): (s: Step<seq<nat>>)
    requires v.Valid() && parts != [] && ValidNames(parts)
    ensures s.vol.Valid() && |s.vol.fat| == |v.fat| && s.vol.clusterSize == v.clusterSize
  {
    var stored := Store(v, parts, data, layout);
    if stored.result.Err? then stored
    else match ReadPath(stored.vol, parts)
      case Err(e) => Step(stored.vol, Err(e))
      case Ok(bytes) => if bytes == data then stored else Step(stored.vol, Err(ReadbackMismatch))
  }
}
