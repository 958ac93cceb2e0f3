/** The stager's procedures on the image, each proved to compute what the volume
    functions say and to touch nothing outside the table and the clusters. */
module FatxStager {
  import opened Bytes
  import opened FatTable
  import opened FatAlloc
  import opened FatxVolume
  import opened FatxGeometry
  import opened FatxImage

  /** The image differs only inside the table and the clusters, and is now the given volume. */
  twostate predicate Became(p: FatxPartition, v: Volume)
    reads p
  {
    p.Valid() && p.vol == v && SameOutside(old(p.image), p.image, p.geo)
  }

  // ------------------------------------------------------------------ the table

  lemma Shift<T>(a: seq<T>, x: T, b: seq<T>)
    ensures a + ([x] + b) == (a + [x]) + b
  {
  }

  method ClusterChain(p: FatxPartition, start: nat) returns (chain: seq<nat>)
    requires p.Valid()
    ensures chain == Chain(p.vol.fat, start)
  {
    hide VolumeOf, FromLittleEndian, Ids;
    chain := [];
    var cluster: nat := start;
    var seen: set<nat> := {};
    while cluster !in seen && 1 <= cluster < p.geo.clusterCount
      invariant seen <= Ids(|p.vol.fat|)
      invariant Chain(p.vol.fat, start) == chain + ChainFrom(p.vol.fat, cluster, seen)
      decreases Ids(|p.vol.fat|) - seen
    {
      var next := p.ReadFatEntry(cluster);
      Shift(chain, cluster, ChainFrom(p.vol.fat, next, seen + {cluster}));
      chain := chain + [cluster];
      if IsEnd(next) {
        break;
      }
      seen := seen + {cluster};
      cluster := next;
    }
  }

  method FreeClusterChain(p: FatxPartition, start: nat)
    requires p.Valid()
    modifies p
    ensures Became(p, old(p.vol).(fat := FreeChain(old(p.vol).fat, start)))
  {
    hide VolumeOf, FromLittleEndian, Ids;
    ghost var v := p.vol;
    ghost var chain: seq<nat> := [];
    var cluster: nat := start;
    var seen: set<nat> := {};
    assert Freed(v.fat, {}) == v.fat;
    while cluster !in seen && 1 <= cluster < p.geo.clusterCount
      invariant Became(p, v.(fat := Freed(v.fat, seen)))
      invariant seen <= Ids(|v.fat|) && seen == Elements(chain)
      invariant Chain(v.fat, start) == chain + ChainFrom(v.fat, cluster, seen)
      decreases Ids(|v.fat|) - seen
    {
      var next := p.ReadFatEntry(cluster);
      p.WriteFatEntry(cluster, FREE);
      FreedOneMore(v, seen, cluster);
      Shift(chain, cluster, ChainFrom(v.fat, next, seen + {cluster}));
      chain := chain + [cluster];
      seen := seen + {cluster};
      if IsEnd(next) {
        break;
      }
      cluster := next;
    }
  }

  lemma FreedOneMore(v: Volume, seen: set<nat>, c: nat)
    requires c < |v.fat|
    ensures Freed(v.fat, seen)[c := v.Fit(FREE)] == Freed(v.fat, seen + {c})
  {
  }

  /** Writes the links of a chain one after the other. */
  method LinkClusters(p: FatxPartition, cs: seq<nat>, last: nat)
    requires p.Valid() && Allocatable(p.vol.fat, cs)
    requires last <= MAX_U32 && p.vol.Fit(last) == p.vol.Fit(END_OF_CHAIN)
    modifies p
    ensures Became(p, LinkChain(old(p.vol), cs))
  {
    hide VolumeOf, FromLittleEndian;
    ghost var v := p.vol;
    var index := 0;
    while index < |cs|
      invariant index <= |cs|
      invariant Became(p, v.(fat := LinkedTo(v.fat, cs, v.Fit(END_OF_CHAIN), index)))
    {
      var next := if index + 1 < |cs| then cs[index + 1] else last;
      p.WriteFatEntry(cs[index], next);
      index := index + 1;
    }
  }

  /** The first free clusters, at most count of them. */
  method CollectFree(p: FatxPartition, count: nat) returns (clusters: seq<nat>)
    requires p.Valid() && count >= 1
    ensures var ids := FreeIds(p.vol.fat, 2); clusters == if |ids| < count then ids else ids[..count]
  {
    hide VolumeOf, FromLittleEndian;
    ghost var fat := p.vol.fat;
    clusters := [];
    var cluster := 2;
    while cluster < p.geo.clusterCount
      invariant 2 <= cluster && |clusters| < count
      invariant FreeIds(fat, 2) == clusters + FreeIds(fat, cluster)
    {
      var value := p.ReadFatEntry(cluster);
      if value == FREE {
        Shift(clusters, cluster, FreeIds(fat, cluster + 1));
        clusters := clusters + [cluster];
        if |clusters| == count {
          break;
        }
      }
      cluster := cluster + 1;
    }
  }

  method AllocateClusters(p: FatxPartition, count: nat) returns (r: Outcome<seq<nat>, Error>)
    requires p.Valid() && count >= 1
    modifies p
    ensures r == Allocate(old(p.vol), count, Normal)
    ensures Became(p, if r.Ok? then LinkChain(old(p.vol), r.value) else old(p.vol))
  {
    hide VolumeOf, FreeIds, LinkedTo;
    var clusters := CollectFree(p, count);
    if |clusters| != count {
      return Err(NoSpace);
    }
    r := Ok(clusters);
    AllocationIsFresh(p.vol.fat, count, Normal);
    LinkClusters(p, clusters, END_OF_CHAIN);
  }

  /** Counts the current run of free clusters until it is long enough. */
  method FindRun(p: FatxPartition, count: nat) returns (start: Option<nat>)
    requires p.Valid() && count >= 1
    ensures start == FirstWindow(p.vol.fat, count, 2)
  {
    hide VolumeOf, FromLittleEndian, FirstWindow, NoWindow;
    ghost var fat := p.vol.fat;
    NoWindowAtStart(fat, count);
    start := None;
    var runLength := 0;
    var cluster := 2;
    while cluster < p.geo.clusterCount
      invariant 2 <= cluster && runLength < count && runLength <= cluster - 2
      invariant start == if runLength == 0 then None else Some(cluster - runLength)
      invariant cluster - runLength > 2 ==> cluster - runLength - 1 < |fat| && fat[cluster - runLength - 1] != FREE
      invariant forall c :: cluster - runLength <= c < cluster ==> c < |fat| && fat[c] == FREE
      invariant NoWindow(fat, count, cluster)
    {
      var value := p.ReadFatEntry(cluster);
      if value == FREE {
        if start == None {
          start := Some(cluster);
          runLength := 1;
        } else {
          runLength := runLength + 1;
        }
        if runLength == count {
          LeastWindow(fat, count, cluster);
          return;
        }
        NoWindowYet(fat, cluster, runLength, count);
      } else {
        start := None;
        runLength := 0;
        WindowBlocked(fat, cluster, count);
      }
      cluster := cluster + 1;
    }
    NoWindowAtEnd(fat, count, cluster);
    start := None;
  }

  method AllocateContiguousClusters(p: FatxPartition, count: nat) returns (r: Outcome<seq<nat>, Error>)
    requires p.Valid() && count >= 1
    modifies p
    ensures r == Allocate(old(p.vol), count, Contiguous)
    ensures Became(p, if r.Ok? then LinkChain(old(p.vol), r.value) else old(p.vol))
  {
    var start := FindRun(p, count);
    if start == None {
      return Err(NoSpace);
    }
    var clusters := Consecutive(start.value, count);
    r := Ok(clusters);
    AllocationIsFresh(p.vol.fat, count, Contiguous);
    LinkClusters(p, clusters, END_OF_CHAIN);
  }

  /** No window of count free clusters ends at or before position hi. */
  ghost predicate NoWindow(fat: seq<nat>, count: nat, hi: nat) {
    forall s: nat :: s + count <= hi ==> !Window(fat, s, count)
  }

  lemma NoWindowAtStart(fat: seq<nat>, count: nat)
    requires count >= 1
    ensures NoWindow(fat, count, 2)
  {
  }

  lemma NoWindowAtEnd(fat: seq<nat>, count: nat, hi: nat)
    requires count >= 1 && |fat| <= hi && NoWindow(fat, count, hi)
    ensures FirstWindow(fat, count, 2) == None
  {
    FirstWindowIsLeast(fat, count, 2);
  }

  lemma NoWindowYet(fat: seq<nat>, cluster: nat, runLength: nat, count: nat)
    requires runLength < count && runLength <= cluster - 1 && NoWindow(fat, count, cluster)
    requires cluster + 1 - runLength > 2 ==> cluster - runLength < |fat| && fat[cluster - runLength] != FREE
    ensures NoWindow(fat, count, cluster + 1)
  {
    forall s: nat | s + count == cluster + 1
      ensures !Window(fat, s, count)
    {
      if s >= 2 {
        assert s <= cluster - runLength < s + count;
      }
    }
  }

  lemma WindowBlocked(fat: seq<nat>, cluster: nat, count: nat)
    requires cluster < |fat| && fat[cluster] != FREE && count >= 1 && NoWindow(fat, count, cluster)
    ensures NoWindow(fat, count, cluster + 1)
  {
    forall s: nat | s + count == cluster + 1
      ensures !Window(fat, s, count)
    {
      assert s <= cluster < s + count;
    }
  }

  lemma LeastWindow(fat: seq<nat>, count: nat, cluster: nat)
    requires count >= 1 && cluster + 1 - count >= 2 && NoWindow(fat, count, cluster)
    requires cluster < |fat| && forall c :: cluster + 1 - count <= c <= cluster ==> fat[c] == FREE
    ensures FirstWindow(fat, count, 2) == Some(cluster + 1 - count)
  {
    assert Window(fat, cluster + 1 - count, count);
    FirstWindowIsLeast(fat, count, 2);
  }

  /** Every step-th free cluster first, then the ones in between. */
  method SpreadOut(freeClusters: seq<nat>, count: nat, step: nat) returns (clusters: seq<nat>)
    requires step >= 1 && count <= |freeClusters|
    ensures clusters == Spread(freeClusters, count, step)
  {
    hide Elements;
    clusters := [];
    var cursor := 0;
    while |clusters| < count && cursor < |freeClusters|
      invariant |clusters| <= count
      invariant Strided(freeClusters, 0, step, count) == clusters + Strided(freeClusters, cursor, step, count - |clusters|)
      decreases |freeClusters| - cursor
    {
      Shift(clusters, freeClusters[cursor], Strided(freeClusters, cursor + step, step, count - |clusters| - 1));
      clusters := clusters + [freeClusters[cursor]];
      cursor := cursor + step;
    }
    ghost var first := clusters;
    if |clusters| < count {
      var used := Elements(clusters);
      ghost var rest: seq<nat> := [];
      var i := 0;
      while i < |freeClusters|
        invariant i <= |freeClusters| && clusters == first + rest && |clusters| < count
        invariant Unused(freeClusters, used, 0, count - |first|) == rest + Unused(freeClusters, used, i, count - |clusters|)
      {
        if freeClusters[i] !in used {
          Shift(rest, freeClusters[i], Unused(freeClusters, used, i + 1, count - |clusters| - 1));
          clusters := clusters + [freeClusters[i]];
          rest := rest + [freeClusters[i]];
          if |clusters| == count {
            break;
          }
        }
        i := i + 1;
      }
    }
  }

  lemma FromFreeIds(fat: seq<nat>, cs: seq<nat>)
    requires Distinct(cs) && forall i :: 0 <= i < |cs| ==> cs[i] in FreeIds(fat, 2)
    ensures Allocatable(fat, cs)
  {
    FreeIdsFrom(fat, 2);
  }

  method FreeClusters(p: FatxPartition) returns (freeClusters: seq<nat>)
    requires p.Valid()
    ensures freeClusters == FreeIds(p.vol.fat, 2)
  {
    hide VolumeOf, FromLittleEndian;
    freeClusters := [];
    var cluster := 2;
    while cluster < p.geo.clusterCount
      invariant 2 <= cluster
      invariant FreeIds(p.vol.fat, 2) == freeClusters + FreeIds(p.vol.fat, cluster)
    {
      var value := p.ReadFatEntry(cluster);
      if value == FREE {
        Shift(freeClusters, cluster, FreeIds(p.vol.fat, cluster + 1));
        freeClusters := freeClusters + [cluster];
      }
      cluster := cluster + 1;
    }
  }

  method AllocateFragmentedClusters(p: FatxPartition, count: nat, stride: int := DEFAULT_STRIDE)
    returns (r: Outcome<seq<nat>, Error>)
    requires p.Valid() && count >= 1
    modifies p
    ensures var choice := FragmentedFit(old(p.vol).fat, count, stride);
      && (choice.None? ==> r == Err(NoSpace) && Became(p, old(p.vol)))
      && (choice.Some? ==> r == Ok(choice.value) && Allocatable(old(p.vol).fat, choice.value)
                           && Became(p, LinkChain(old(p.vol), choice.value)))
    ensures r.Err? <==> FreeCount(old(p.vol).fat) < count
    ensures r.Ok? ==> SpreadsBy(r.value, FreeIds(old(p.vol).fat, 2), count, if stride > 2 then stride else 2)
    ensures r.Ok? && stride <= 2 ==> (NoAdjacentStep(r.value) <==> !OnlyPair(old(p.vol).fat, count))
  {
    hide Spread, SpreadsBy, NoAdjacentStep, OnlyPair, VolumeOf, FromLittleEndian;
    ghost var fat := p.vol.fat;
    FragmentedFitIsExact(fat, count, stride);
    if stride <= 2 && FragmentedFit(fat, count, stride).Some? {
      FragmentedFitSeparates(fat, count, stride);
    }
    var freeClusters := FreeClusters(p);
    if |freeClusters| < count {
      return Err(NoSpace);
    }
    var clusters := SpreadOut(freeClusters, count, Max(2, stride));
    FreeIdsFrom(fat, 2);
    SpreadIsTotal(freeClusters, count, Max(2, stride));
    FromFreeIds(fat, clusters);
    // So the length check behind the loops cannot raise.
    assert |clusters| == count;
    r := Ok(clusters);
    LinkClusters(p, clusters, if p.geo.entrySize == 4 then 0xFFFF_FFFF else 0xFFFF);
  }
}
