/** The staging order of the stager's main program, and what a completed run guarantees
    about the files and about the raw bytes of a contiguous payload. */
module FatxStaging {
  import opened Bytes
  import opened FatAlloc
  import opened FatDirectory
  import opened FatSlot
  import opened FatxFs
  import opened FatxVolume
  import opened FatxSafety
  import opened FatxPaths
  import opened FatxRoundTrip
  import opened FatxRuns
  import opened FatxGeometry
  import opened FatxFiles

  /** A contiguous allocation steps by one, so the payload check can never raise. */
  lemma ContiguousSteps(v: Volume, count: nat)
    requires count >= 1 && Allocate(v, count, Contiguous).Ok?
    ensures var cs := Allocate(v, count, Contiguous).value;
      && StepsByOne(cs) && cs == Consecutive(cs[0], count)
  {
    var cs := Allocate(v, count, Contiguous).value;
    FirstWindowIsLeast(v.fat, count, 2);
    assert cs == Consecutive(cs[0], count);
  }

  /** The clusters of a stored file, in the order of its chain: increasing in the normal
      layout, consecutive in the contiguous one, and in the fragmented one without a step to
      the next cluster unless there are just two. */
  ghost predicate LaidOut(cs: seq<nat>, layout: Layout) {
    match layout
    case Normal => Increasing(cs)
    case Contiguous => cs != [] && StepsByOne(cs) && cs == Consecutive(cs[0], |cs|)
    case Fragmented => |cs| == 2 || NoAdjacentStep(cs)
  }

  lemma AllocateLaysOut(v: Volume, count: nat, layout: Layout)
    requires count >= 1 && Allocate(v, count, layout).Ok?
    ensures LaidOut(Allocate(v, count, layout).value, layout)
  {
    hide Allocation;
    AllocationIsExact(v.fat, count, layout);
    if layout == Contiguous {
      ContiguousSteps(v, count);
    }
  }

  lemma StoreAllocates(v: Volume, parts: seq<string>, data: seq<byte>, layout: Layout)
    requires v.Valid() && parts != [] && ValidNames(parts) && Store(v, parts, data, layout).result.Ok?
    ensures LaidOut(Store(v, parts, data, layout).result.value, layout)
  {
    hide Resolve, RemoveEntry, Place, Allocate, LaidOut;
    var parent := Resolve(v, FatxVolume.ROOT_CLUSTER, parts[..|parts| - 1]);
    var removed := RemoveEntry(parent.vol, parent.result.value, parts[|parts| - 1]).vol;
    PlaceReturns(removed, parent.result.value, parts[|parts| - 1], data, ClustersFor(|data|, v.clusterSize), layout);
    AllocateLaysOut(removed, ClustersFor(|data|, v.clusterSize), layout);
  }

  /** Every file that is written successfully is laid out as asked. */
  lemma WrittenIsLaidOut(v: Volume, parts: seq<string>, data: seq<byte>, layout: Layout)
    requires v.Valid() && parts != [] && ValidNames(parts) && WritePath(v, parts, data, layout).result.Ok?
    ensures LaidOut(WritePath(v, parts, data, layout).result.value, layout)
  {
    hide Store, ReadPath, LaidOut, ValidNames;
    StoreAllocates(v, parts, data, layout);
  }

  lemma PlaceReturns(v: Volume, d: nat, name: string, data: seq<byte>, count: nat, layout: Layout)
    requires v.Valid() && ValidName(name) && count >= 1
    ensures var chosen := Allocate(v, count, layout);
      chosen.Ok? && Place(v, d, name, data, chosen.value).result.Ok? ==>
      Place(v, d, name, data, chosen.value).result.value == chosen.value
  {
  }

  /** A file whose clusters follow each other is one byte range of the raw image. */
  lemma StoredAtIsFlat(image: seq<byte>, g: Geometry, dirs: set<nat>, parts: seq<string>, data: seq<byte>, cs: seq<nat>)
    requires Fits(image, g) && StoredAt(VolumeOf(image, g), dirs, parts, data, cs)
    requires cs == Consecutive(cs[0], |cs|)
    ensures cs[0] >= 1 && g.ClusterOffset(cs[0]) + |data| <= |image|
    ensures image[g.ClusterOffset(cs[0])..g.ClusterOffset(cs[0]) + |data|] == data
  {
    hide Inv, WellFormed, Cells, Listing, VolumeOf, Walk, ClustersFor, PadRight, Chunk;
    var v := VolumeOf(image, g);
    var start, n := cs[0], |cs|;
    OwnClusters(v, dirs, parts, data, cs);
    assert forall i :: 0 <= i < |cs| ==> cs[i] in cs;
    assert cs[n - 1] == start + n - 1 && cs[n - 1] < g.clusterCount;
    RunIsFlat(image, g, start, n);
    LaterCluster(g, start, n);
    ClustersForIsLeast(|data|, v.clusterSize);
    ContentPrefix(v.data, cs, data, v.clusterSize);
  }

  lemma OwnClusters(v: Volume, dirs: set<nat>, parts: seq<string>, data: seq<byte>, cs: seq<nat>)
    requires StoredAt(v, dirs, parts, data, cs)
    ensures forall c :: c in cs ==> 2 <= c < |v.fat|
  {
    hide WellFormed, Cells, Listing, Walk, Holds, ClustersFor;
    var t := Named(Abs(v, dirs), ROOT, parts).value;
    assert Owned(Abs(v, dirs), t.dir, t.key);
    forall c | c in cs
      ensures OwnedCluster(Abs(v, dirs), t.meta, c)
    {
    }
  }

  /** Writing the payload on v reports a disk offset from which on the image holds it. */
  ghost predicate FlatPayload(v: Volume, payload: Job, image: seq<byte>, g: Geometry)
    requires v.Valid() && payload.parts != [] && ValidNames(payload.parts)
  {
    var s := WritePath(v, payload.parts, payload.data, payload.layout);
    && s.result.Ok? && s.result.value != [] && s.result.value[0] >= 1 && StepsByOne(s.result.value)
    && var offset := g.ClusterOffset(s.result.value[0]);
    && offset + |payload.data| <= |image|
    && image[offset..offset + |payload.data|] == payload.data
  }

  lemma PayloadFirst(v: Volume, dirs: set<nat>, payload: Job, rest: seq<Job>, image: seq<byte>, g: Geometry)
    requires Sound(v, dirs) && ValidJobs([payload] + rest) && payload.parts != [] && ValidNames(payload.parts)
    requires Plain(payload.parts) && payload.layout == Contiguous
    requires forall i :: 0 <= i < |rest| ==> Apart(payload.parts, rest[i].parts)
    requires Run(v, [payload] + rest).result.Ok?
    requires Fits(image, g) && VolumeOf(image, g) == Run(v, [payload] + rest).vol
    ensures FlatPayload(v, payload, image, g)
  {
    hide Run, Inv, WellFormed, Cells, Listing, WritePath, LowerAll, ValidNames, Apart, StoredAt, VolumeOf, Store, Plain;
    var jobs := [payload] + rest;
    assert jobs[0] == payload && jobs[1..] == rest;
    RunUnfolds(v, jobs);
    var s := WritePath(v, payload.parts, payload.data, payload.layout);
    var dirs1 := WriteStoresAt(v, dirs, payload.parts, payload.data, payload.layout);
    PayloadSteps(v, payload);
    StoredIsSound(s.vol, dirs1, payload.parts, payload.data, s.result.value);
    var dirs2 := RunKeepsClusters(s.vol, dirs1, rest, payload.parts, payload.data, s.result.value);
    StoredAtIsFlat(image, g, dirs2, payload.parts, payload.data, s.result.value);
  }

  lemma StoredIsSound(v: Volume, dirs: set<nat>, parts: seq<string>, data: seq<byte>, cs: seq<nat>)
    requires StoredAt(v, dirs, parts, data, cs)
    ensures Sound(v, dirs)
  {
  }

  /** The payload of a completed staging run, written contiguously before, between or
      after other files: if no later path is its own or a directory on the way to it, then
      at the end the bytes of the raw image from the disk offset that its own write
      reported are the payload, which is what a loop device set up at that offset shows. */
  lemma PayloadIsFlat(v: Volume, dirs: set<nat>, before: seq<Job>, payload: Job, rest: seq<Job>, image: seq<byte>, g: Geometry)
    requires Sound(v, dirs) && ValidJobs(before) && ValidJobs([payload] + rest) && ValidJobs(before + ([payload] + rest))
    requires payload.parts != [] && ValidNames(payload.parts) && Plain(payload.parts) && payload.layout == Contiguous
    requires forall i :: 0 <= i < |rest| ==> Apart(payload.parts, rest[i].parts)
    requires Run(v, before + ([payload] + rest)).result.Ok?
    requires Fits(image, g) && VolumeOf(image, g) == Run(v, before + ([payload] + rest)).vol
    ensures FlatPayload(Run(v, before).vol, payload, image, g)
  {
    hide Run, Inv, WellFormed, Cells, Listing, LowerAll, ValidNames, Apart, Abs, DirsOk, Volume.Valid,
         FlatPayload, VolumeOf, Plain;
    RunSplits(v, before, [payload] + rest);
    var dirs' := RunKeepsInvariant(v, dirs, before);
    PayloadFirst(Run(v, before).vol, dirs', payload, rest, image, g);
  }

  lemma PayloadSteps(v: Volume, payload: Job)
    requires v.Valid() && payload.parts != [] && ValidNames(payload.parts)
    requires payload.layout == Contiguous
    requires WritePath(v, payload.parts, payload.data, payload.layout).result.Ok?
    ensures var cs := WritePath(v, payload.parts, payload.data, payload.layout).result.value;
      cs != [] && StepsByOne(cs) && cs == Consecutive(cs[0], |cs|)
  {
    hide WritePath, ValidNames;
    WrittenIsLaidOut(v, payload.parts, payload.data, payload.layout);
  }
}
