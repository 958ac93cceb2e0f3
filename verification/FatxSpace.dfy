/** Conservation of clusters: how many are free before and after a file is stored, and
    exactly when storing succeeds. */
module FatxSpace {
  import opened Bytes
  import opened FatTable
  import opened FatAlloc
  import opened FatDirectory
  import opened FatSlot
  import opened FatxFs
  import opened FatxVolume
  import opened FatxSafety
  import opened FatxPaths
  import opened FatxRoundTrip
  import opened FatxTheorems

  /** Linking free clusters takes exactly them out of the free set. */
  lemma ClaimedCount(fat: seq<nat>, fat': seq<nat>, cs: seq<nat>)
    requires Claims(fat, fat', cs) && Distinct(cs)
    ensures FreeCount(fat') == FreeCount(fat) - |cs|
  {
    CardDistinct(cs);
    assert forall i :: 0 <= i < |cs| ==> cs[i] in cs;
    assert FreeSet(fat') == FreeSet(fat) - Elements(cs);
    assert Elements(cs) <= FreeSet(fat);
  }

  lemma FreedSet(fat: seq<nat>, chain: seq<nat>)
    requires Distinct(chain) && forall c :: c in chain ==> 2 <= c < |fat| && fat[c] != FREE
    ensures FreeCount(Freed(fat, Elements(chain))) == FreeCount(fat) + |chain|
  {
    var fat' := Freed(fat, Elements(chain));
    CardDistinct(chain);
    assert FreeSet(fat') == FreeSet(fat) + Elements(chain);
    assert FreeSet(fat) !! Elements(chain);
  }

  /** Freeing the chain of an entry returns each of its clusters once. */
  lemma FreedCount(fs: Fs, d: nat, k: string)
    requires Inv(fs) && Has(fs, d, k)
    ensures FreeCount(FreeChain(fs.fat, At(fs, d, k).cluster)) == FreeCount(fs.fat) + |ChainOf(fs, d, k)|
  {
    hide Chain, ChainFrom, Freed, FreeCount;
    var m := At(fs, d, k);
    DistinctChain(fs.fat, m.cluster);
    assert Owned(fs, d, k);
    forall c | c in ChainOf(fs, d, k)
      ensures 2 <= c < |fs.fat| && fs.fat[c] != FREE
    {
      assert OwnedCluster(fs, m, c);
    }
    FreedSet(fs.fat, ChainOf(fs, d, k));
  }

  lemma DistinctChain(fat: seq<nat>, c: nat)
    ensures Distinct(Chain(fat, c))
  {
    ChainDistinct(fat, c, {});
  }

  /** The clusters that overwriting the name would give back. */
  ghost function Reclaimed(fs: Fs, d: nat, k: string): nat {
    if Has(fs, d, k) then |ChainOf(fs, d, k)| else 0
  }

  /** Room for one more entry: a name that is being replaced always has its slot. */
  ghost predicate HasSlot(v: Volume, dirs: set<nat>, d: nat, k: string)
    requires Sound(v, dirs) && d in dirs
  {
    Has(Abs(v, dirs), d, k) || exists i :: 0 <= i < |Cells(v.data[d])| && !Cells(v.data[d])[i].Entry?
  }

  /** The table once the old entry is gone. */
  ghost function TableWithout(fs: Fs, d: nat, k: string): (fat: seq<nat>)
    ensures |fat| == |fs.fat|
  {
    if Has(fs, d, k) then FreeChain(fs.fat, At(fs, d, k).cluster) else fs.fat
  }

  lemma RemovedSpace(v: Volume, dirs: set<nat>, d: nat, name: string) returns (dirs': set<nat>)
    requires Sound(v, dirs) && d in dirs && ValidName(name) && !IsDirectoryEntry(Abs(v, dirs), d, Lower(name), d)
    ensures var s := RemoveEntry(v, d, name);
      && s.result.Ok? && Sound(s.vol, dirs') && d in dirs' && !Has(Abs(s.vol, dirs'), d, Lower(name))
      && s.vol.fat == TableWithout(Abs(v, dirs), d, Lower(name)) && s.vol.clusterSize == v.clusterSize
      && FreeCount(s.vol.fat) == FreeCount(v.fat) + Reclaimed(Abs(v, dirs), d, Lower(name))
      && (FreeSlot(Cells(s.vol.data[d]), 0, None).Some? <==> HasSlot(v, dirs, d, Lower(name)))
  {
    hide FreeCount, Frame, FileKept, FreeChain, Inv, Lower;
    var k := Lower(name);
    if Has(Abs(v, dirs), d, k) {
      RemoveStep(v, dirs, d, name);
      dirs' := Without(dirs, At(Abs(v, dirs), d, k));
      FreedCount(Abs(v, dirs), d, k);
      RemovedSlot(v, d, name);
    } else {
      RemoveAbsent(v, dirs, d, name);
      FreeSlotIsFirst(Cells(v.data[d]), 0);
      dirs' := dirs;
    }
  }

  lemma RemovedSlot(v: Volume, d: nat, name: string)
    requires v.Valid() && InTable(v.fat, d) && WellFormed(Cells(v.data[d])) && Lower(name) in Listing(Cells(v.data[d]))
    ensures FreeSlot(Cells(RemoveEntry(v, d, name).vol.data[d]), 0, None).Some?
  {
    var bytes := v.data[d];
    var i := Find(Cells(bytes), Lower(name), 0).value;
    RemoveOne(v.fat, bytes, Lower(name), i);
    WriteMarker(bytes, i, DELETED);
    RemovedLeavesRoom(Cells(bytes), i);
  }

  lemma PlaceSpace(v: Volume, dirs: set<nat>, d: nat, name: string, data: seq<byte>, cs: seq<nat>)
    requires Sound(v, dirs) && d in dirs && ValidName(name) && Allocatable(v.fat, cs) && cs != []
    requires forall i :: 0 <= i < |cs| ==> IsFree(v.fat, cs[i])
    ensures var s := Place(v, d, name, data, cs);
      && FreeCount(s.vol.fat) == FreeCount(v.fat) - |cs|
      && s.result == if FreeSlot(Cells(v.data[d]), 0, None).None? then Err(DirectoryFull)
                     else if |data| > MAX_U32 then Err(SizeOverflow) else Ok(cs)
  {
    hide Cells, Listing, WellFormed, Place;
    var filled := PlaceUnfolds(v, d, name, data, cs);
    NotClaimed(v, dirs, d, cs);
    LinkClaims(v, cs);
    ClaimedCount(v.fat, filled.fat, cs);
    assert d !in cs;
    assert filled.data[d] == v.data[d];
  }

  /** Storing a file in a directory, whatever its name stood for: the exact result, in every
      layout, from the table once the old entry is gone, and the exact number of free
      clusters afterwards. A name that is already there never lacks a slot. */
  lemma StoreInSpace(v: Volume, dirs: set<nat>, d: nat, name: string, data: seq<byte>, layout: Layout)
    requires Sound(v, dirs) && d in dirs && ValidName(name) && !IsDirectoryEntry(Abs(v, dirs), d, Lower(name), d)
    ensures var s := StoreIn(v, d, name, data, layout);
            var need := ClustersFor(|data|, v.clusterSize);
            var available := FreeCount(v.fat) + Reclaimed(Abs(v, dirs), d, Lower(name));
            var chosen := Allocation(TableWithout(Abs(v, dirs), d, Lower(name)), need, layout);
      && s.result == (if chosen.None? then Err(NoSpace)
                      else if !HasSlot(v, dirs, d, Lower(name)) then Err(DirectoryFull)
                      else if |data| > MAX_U32 then Err(SizeOverflow) else Ok(chosen.value))
      && (layout != Contiguous ==> (chosen.Some? <==> need <= available))
      && (s.result.Ok? ==> |s.result.value| == need && FreeCount(s.vol.fat) == available - need)
      && (Has(Abs(v, dirs), d, Lower(name)) ==> s.result != Err(DirectoryFull))
  {
    hide Cells, Listing, WellFormed, Inv, RemoveEntry, Place, HasSlot, FreeCount, TableWithout, Allocation, Lower;
    var dirs' := RemovedSpace(v, dirs, d, name);
    var v1 := RemoveEntry(v, d, name).vol;
    var need := ClustersFor(|data|, v.clusterSize);
    AllocationFails(v1.fat, need, layout);
    HasSlotIfNamed(v, dirs, d, Lower(name));
    var chosen := Allocate(v1, need, layout);
    if chosen.Ok? {
      PlaceSpace(v1, dirs', d, name, data, chosen.value);
    }
  }

  lemma HasSlotIfNamed(v: Volume, dirs: set<nat>, d: nat, k: string)
    requires Sound(v, dirs) && d in dirs
    ensures Has(Abs(v, dirs), d, k) ==> HasSlot(v, dirs, d, k)
  {
  }

  /** The same for a path whose directories exist: overwriting an entry, be it a file or a
      directory, with data that fits its old clusters, in the normal or the fragmented
      layout, stores it, and the free clusters change by exactly the difference of the two
      chain lengths. */
  lemma OverwriteConserves(v: Volume, dirs: set<nat>, parts: seq<string>, d: nat, data: seq<byte>, layout: Layout)
    requires Sound(v, dirs) && parts != [] && ValidNames(parts)
    requires Walk(Abs(v, dirs), ROOT, Parents(parts)) == Some(d) && Has(Abs(v, dirs), d, Lower(LastName(parts)))
    ensures var oldLength := |ChainOf(Abs(v, dirs), d, Lower(LastName(parts)))|;
            var need := ClustersFor(|data|, v.clusterSize);
            var s := Store(v, parts, data, layout);
      && (layout != Contiguous && need <= oldLength && |data| <= MAX_U32 ==> s.result.Ok?)
      && (s.result.Ok? ==> FreeCount(s.vol.fat) + need == FreeCount(v.fat) + oldLength)
      && s.result != Err(DirectoryFull)
  {
    hide Cells, Listing, WellFormed, Inv, StoreIn, Resolve, FreeCount, Walk, Allocation, TableWithout, Lower;
    var n := |parts| - 1;
    RootListed(v, dirs);
    WalkStays(Abs(v, dirs), ROOT, Parents(parts));
    ResolveExisting(v, dirs, ROOT, parts[..n]);
    NoSelfEntry(Abs(v, dirs), Parents(parts), d, Lower(parts[n]));
    StoreInSpace(v, dirs, d, parts[n], data, layout);
    HasSlotIfNamed(v, dirs, d, Lower(parts[n]));
  }
}
