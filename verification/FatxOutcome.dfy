/** The result of write_path_file told beforehand, from the volume before the call: which
    error it raises, or which clusters it uses, and exactly when it succeeds. */
module FatxOutcome {
  import opened Bytes
  import opened FatTable
  import opened FatAlloc
  import opened FatDirectory
  import opened FatSlot
  import opened FatxFs
  import opened FatxVolume
  import opened FatxSafety
  import opened FatxPaths
  import opened FatxRoundTrip
  import opened FatxTheorems
  import opened FatxSpace

  // --------------------------------------------------- the table behind directories

  lemma {:induction false} FreeIdsFrame(fat: seq<nat>, fat': seq<nat>, lo: nat)
    requires |fat'| == |fat| && forall c :: lo <= c < |fat| ==> fat'[c] == fat[c]
    ensures FreeIds(fat', lo) == FreeIds(fat, lo)
    decreases |fat| - lo
  {
    if lo < |fat| {
      FreeIdsFrame(fat, fat', lo + 1);
    }
  }

  lemma {:induction false} FirstTaken(fat: seq<nat>, lo: nat, last: nat)
    requires FreeIds(fat, lo) != [] && last != FREE
    ensures lo <= FreeIds(fat, lo)[0] < |fat|
    ensures FreeIds(fat[FreeIds(fat, lo)[0] := last], lo) == FreeIds(fat, lo)[1..]
    decreases |fat| - lo
  {
    var c := FreeIds(fat, lo)[0];
    if fat[lo] == FREE {
      assert FreeIds(fat, lo)[1..] == FreeIds(fat, lo + 1);
      FreeIdsFrame(fat, fat[c := last], lo + 1);
    } else {
      FirstTaken(fat, lo + 1, last);
    }
  }

  /** The table after the least free id has been taken n times. */
  function Taken(fat: seq<nat>, n: nat, last: nat): (r: seq<nat>)
    ensures |r| == |fat|
    decreases n
  {
    var ids := FreeIds(fat, 2);
    if n == 0 || ids == [] || ids[0] >= |fat| then fat else Taken(fat[ids[0] := last], n - 1, last)
  }

  /** What is free afterwards: all but the n least ids. */
  lemma {:induction false} TakenIds(fat: seq<nat>, n: nat, last: nat)
    requires n <= |FreeIds(fat, 2)| && last != FREE
    ensures FreeIds(Taken(fat, n, last), 2) == FreeIds(fat, 2)[n..]
    decreases n
  {
    if n > 0 {
      FirstTaken(fat, 2, last);
      TakenIds(fat[FreeIds(fat, 2)[0] := last], n - 1, last);
    }
  }

  // ------------------------------------------------------- resolving the parent path

  /** How many components of a directory path exist, and where they lead. */
  ghost function Known(fs: Fs, d: nat, keys: seq<string>): (n: nat)
    ensures n <= |keys|
    decreases |keys|
  {
    if keys != [] && Has(fs, d, keys[0]) && At(fs, d, keys[0]).IsDir() then 1 + Known(fs, At(fs, d, keys[0]).cluster, keys[1..])
    else 0
  }

  ghost function Deepest(fs: Fs, d: nat, keys: seq<string>): nat
    decreases |keys|
  {
    if keys != [] && Has(fs, d, keys[0]) && At(fs, d, keys[0]).IsDir() then Deepest(fs, At(fs, d, keys[0]).cluster, keys[1..])
    else d
  }

  lemma {:induction false} DeepestIsWalk(fs: Fs, d: nat, keys: seq<string>)
    requires Inv(fs) && d in fs.dirs
    ensures Deepest(fs, d, keys) in fs.dirs
    ensures Walk(fs, d, keys[..Known(fs, d, keys)]) == Some(Deepest(fs, d, keys))
    ensures Known(fs, d, keys) == |keys| <==> Walk(fs, d, keys).Some?
    ensures Known(fs, d, keys) == |keys| ==> keys[..|keys|] == keys
    decreases |keys|
  {
    hide Inv;
    if keys != [] && Has(fs, d, keys[0]) && At(fs, d, keys[0]).IsDir() {
      EntryThere(fs, fs, 0, "", d, keys[0], At(fs, d, keys[0]).cluster) by {
        SameEntries(fs);
        RootThere(fs);
      }
      var next := At(fs, d, keys[0]).cluster;
      DeepestIsWalk(fs, next, keys[1..]);
      assert keys[..Known(fs, d, keys)][1..] == keys[1..][..Known(fs, next, keys[1..])];
    }
  }

  lemma SameEntries(fs: Fs)
    ensures EntriesKept(fs, fs, 0, "")
  {
  }

  /** What ensure_directory returns, and the table it leaves. */
  ghost predicate EnsureResult(v: Volume, dirs: set<nat>, d: nat, key: string, s: Step<nat>)
    requires Sound(v, dirs) && d in dirs
  {
    if Has(Abs(v, dirs), d, key) then
      s == Step(v, if At(Abs(v, dirs), d, key).IsDir() then Ok(At(Abs(v, dirs), d, key).cluster) else Err(NotADirectory))
    else if FreeIds(v.fat, 2) == [] then s.result == Err(NoSpace)
    else if !HasSlot(v, dirs, d, key) then s.result == Err(DirectoryFull)
    else s.result.Ok? && s.vol.fat == Taken(v.fat, 1, v.Fit(END_OF_CHAIN))
  }

  lemma EnsureExact(v: Volume, dirs: set<nat>, d: nat, name: string)
    requires Sound(v, dirs) && d in dirs && ValidName(name)
    ensures EnsureResult(v, dirs, d, Lower(name), EnsureDirectory(v, d, name))
  {
    hide Inv, Cells, Listing, WellFormed, AddEntry, Lower;
    FindEntryAbs(v, dirs, d, name);
    if !Has(Abs(v, dirs), d, Lower(name)) && FreeIds(v.fat, 2) != [] {
      var cs := Allocate(v, 1, Normal).value;
      FirstTaken(v.fat, 2, 1);
      assert cs == [FreeIds(v.fat, 2)[0]];
      CreateUnfolds(v, d, name, cs);
      OneLink(v, cs);
      NewSlot(v, dirs, d, name, cs);
    }
  }

  lemma OneLink(v: Volume, cs: seq<nat>)
    requires v.Valid() && Allocatable(v.fat, cs) && |cs| == 1
    ensures LinkChain(v, cs).fat == v.fat[cs[0] := v.Fit(END_OF_CHAIN)]
  {
    assert LinkedTo(v.fat, cs, v.Fit(END_OF_CHAIN), 0) == v.fat;
  }

  /** Adding the entry of the new directory succeeds exactly if its parent has a slot. */
  lemma NewSlot(v: Volume, dirs: set<nat>, d: nat, name: string, cs: seq<nat>)
    requires Sound(v, dirs) && d in dirs && ValidName(name) && Allocate(v, 1, Normal) == Ok(cs)
    requires !Has(Abs(v, dirs), d, Lower(name)) && |cs| == 1 && Allocatable(v.fat, cs)
    ensures AddEntry(Zeroed(v, cs), d, name, Meta(ATTR_DIRECTORY, cs[0], 0)).result.Ok? <==> HasSlot(v, dirs, d, Lower(name))
  {
    hide Inv, Cells, Listing, WellFormed, Lower;
    NotClaimed(v, dirs, d, cs);
    assert Zeroed(v, cs).data[d] == v.data[d];
    FreeSlotIsFirst(Cells(v.data[d]), 0);
  }

  lemma EmptyHasSlot(v: Volume, dirs: set<nat>, d: nat, key: string)
    requires Sound(v, dirs) && d in dirs && Abs(v, dirs).dirs[d] == map[]
    ensures HasSlot(v, dirs, d, key) && !Has(Abs(v, dirs), d, key)
  {
    var cells := Cells(v.data[d]);
    assert DirCluster(Abs(v, dirs), d);
    assert |cells| > 0;
    FirstListed(cells);
    assert !cells[0].Entry?;
  }

  lemma FirstListed(cells: seq<Cell>)
    requires WellFormed(cells) && |cells| > 0
    ensures cells[0].Entry? ==> cells[0].key in Listing(cells)
  {
    if cells[0].Entry? {
      FindUnique(cells, 0);
    }
  }

  /** In an empty directory a whole path is created, one free cluster after the other. */
  lemma {:induction false} ResolveFresh(v: Volume, dirs: set<nat>, d: nat, parts: seq<string>)
    requires Sound(v, dirs) && d in dirs && ValidNames(parts) && Abs(v, dirs).dirs[d] == map[]
    ensures var s := Resolve(v, d, parts);
      if |FreeIds(v.fat, 2)| < |parts| then s.result == Err(NoSpace)
      else s.result.Ok? && s.vol.fat == Taken(v.fat, |parts|, v.Fit(END_OF_CHAIN))
    decreases |parts|
  {
    hide Inv, Cells, Listing, WellFormed, EnsureDirectory, Lower, HasSlot, Frame, FreeIds, Abs;
    if parts != [] {
      EmptyHasSlot(v, dirs, d, Lower(parts[0]));
      EnsureExact(v, dirs, d, parts[0]);
      if FreeIds(v.fat, 2) != [] {
        var dirs' := EnsureStep(v, dirs, d, parts[0]);
        var s := EnsureDirectory(v, d, parts[0]);
        CreatedIsEmpty(v, dirs, s, dirs', d, Lower(parts[0]));
        TakenOne(v);
        ResolveFresh(s.vol, dirs', s.result.value, parts[1..]);
      }
    }
  }

  lemma TakenOne(v: Volume)
    requires v.Valid() && FreeIds(v.fat, 2) != []
    ensures var fat' := Taken(v.fat, 1, v.Fit(END_OF_CHAIN));
      && |FreeIds(fat', 2)| == |FreeIds(v.fat, 2)| - 1
      && forall n: nat :: Taken(fat', n, v.Fit(END_OF_CHAIN)) == Taken(v.fat, n + 1, v.Fit(END_OF_CHAIN))
  {
    TakenIds(v.fat, 1, v.Fit(END_OF_CHAIN));
    FirstTaken(v.fat, 2, v.Fit(END_OF_CHAIN));
  }

  /** A directory that had to be created is new and empty. */
  lemma CreatedIsEmpty(v: Volume, dirs: set<nat>, s: Step<nat>, dirs': set<nat>, d: nat, key: string)
    requires Sound(v, dirs) && d in dirs && Ensured(v, dirs, s, dirs', d, key) && s.result.Ok? && !Has(Abs(v, dirs), d, key)
    ensures Sound(s.vol, dirs') && s.result.value in dirs' && Abs(s.vol, dirs').dirs[s.result.value] == map[]
  {
    hide Inv, Cells, Listing, WellFormed, Frame;
    assert Has(Abs(s.vol, dirs'), d, key);
  }

  /** The result of resolving a parent path, told beforehand. */
  ghost predicate ResolveResult(v: Volume, dirs: set<nat>, d: nat, keys: seq<string>, s: Step<nat>)
    requires Sound(v, dirs) && d in dirs
  {
    var fs := Abs(v, dirs);
    var m := Known(fs, d, keys);
    var e := Deepest(fs, d, keys);
    var missing := |keys| - m;
    if missing == 0 then s == Step(v, Ok(e))
    else if Has(fs, e, keys[m]) then s.result == Err(NotADirectory)
    else if FreeIds(v.fat, 2) == [] then s.result == Err(NoSpace)
    else if e !in dirs || !HasSlot(v, dirs, e, keys[m]) then s.result == Err(DirectoryFull)
    else if |FreeIds(v.fat, 2)| < missing then s.result == Err(NoSpace)
    else s.result.Ok? && s.vol.fat == Taken(v.fat, missing, v.Fit(END_OF_CHAIN))
  }

  /** The first missing component is created, and all behind it. */
  lemma ResolveCreates(v: Volume, dirs: set<nat>, d: nat, parts: seq<string>)
    requires Sound(v, dirs) && d in dirs && ValidNames(parts) && parts != [] && !Has(Abs(v, dirs), d, Lower(parts[0]))
    ensures var s := Resolve(v, d, parts);
      if FreeIds(v.fat, 2) == [] then s.result == Err(NoSpace)
      else if !HasSlot(v, dirs, d, Lower(parts[0])) then s.result == Err(DirectoryFull)
      else if |FreeIds(v.fat, 2)| < |parts| then s.result == Err(NoSpace)
      else s.result.Ok? && s.vol.fat == Taken(v.fat, |parts|, v.Fit(END_OF_CHAIN))
  {
    hide Inv, Cells, Listing, WellFormed, EnsureDirectory, Lower, HasSlot, Frame, FreeIds, Ensured, Taken, Abs, DirsOk;
    EnsureExact(v, dirs, d, parts[0]);
    if FreeIds(v.fat, 2) != [] && HasSlot(v, dirs, d, Lower(parts[0])) {
      var dirs' := EnsureStep(v, dirs, d, parts[0]);
      var s := EnsureDirectory(v, d, parts[0]);
      CreatedIsEmpty(v, dirs, s, dirs', d, Lower(parts[0]));
      TakenOne(v);
      ResolveFresh(s.vol, dirs', s.result.value, parts[1..]);
      SameFit(v, s.vol);
    }
  }

  lemma {:induction false} ResolveExact(v: Volume, dirs: set<nat>, d: nat, parts: seq<string>)
    requires Sound(v, dirs) && d in dirs && ValidNames(parts)
    ensures ResolveResult(v, dirs, d, LowerAll(parts), Resolve(v, d, parts))
    decreases |parts|
  {
    hide Inv, Cells, Listing, WellFormed, EnsureDirectory, Lower, HasSlot, Frame, FreeIds, Taken, Abs;
    var keys := LowerAll(parts);
    if parts != [] {
      assert keys[0] == Lower(parts[0]) && keys[1..] == LowerAll(parts[1..]);
      if Has(Abs(v, dirs), d, keys[0]) {
        EnsureExact(v, dirs, d, parts[0]);
        if At(Abs(v, dirs), d, keys[0]).IsDir() {
          DirectoryListed(v, dirs, d, keys[0]);
          var next := At(Abs(v, dirs), d, keys[0]).cluster;
          ResolveExact(v, dirs, next, parts[1..]);
          assert Known(Abs(v, dirs), d, keys) == 1 + Known(Abs(v, dirs), next, keys[1..]);
        }
      } else {
        ResolveCreates(v, dirs, d, parts);
      }
    }
  }

  lemma SameFit(v: Volume, v': Volume)
    requires |v.fat| == |v'.fat|
    ensures v.Fit(END_OF_CHAIN) == v'.Fit(END_OF_CHAIN)
  {
  }

  // -------------------------------------------------------------- storing a file

  /** The components of the parent path that do not exist yet. */
  ghost function Missing(v: Volume, dirs: set<nat>, parts: seq<string>): nat
    requires Sound(v, dirs) && parts != []
  {
    |parts| - 1 - Known(Abs(v, dirs), ROOT, Parents(parts))
  }

  /** The deepest directory on the way that exists, and the name that is entered there. */
  ghost function Parent(v: Volume, dirs: set<nat>, parts: seq<string>): (d: nat)
    requires Sound(v, dirs) && parts != []
    ensures d in dirs
  {
    RootListed(v, dirs);
    DeepestIsWalk(Abs(v, dirs), ROOT, Parents(parts));
    Deepest(Abs(v, dirs), ROOT, Parents(parts))
  }

  ghost function NewName(v: Volume, dirs: set<nat>, parts: seq<string>): string
    requires Sound(v, dirs) && parts != []
  {
    if Missing(v, dirs, parts) > 0 then Parents(parts)[Known(Abs(v, dirs), ROOT, Parents(parts))] else Lower(LastName(parts))
  }

  /** A file stands where a directory is needed. */
  ghost predicate FileInTheWay(v: Volume, dirs: set<nat>, parts: seq<string>)
    requires Sound(v, dirs) && parts != []
  {
    Missing(v, dirs, parts) > 0 && Has(Abs(v, dirs), Parent(v, dirs, parts), NewName(v, dirs, parts))
  }

  /** The table from which the clusters of the file are chosen: the missing directories have
      taken the least free ids, or the chain of the old entry has been freed. */
  ghost function TableBefore(v: Volume, dirs: set<nat>, parts: seq<string>): (fat: seq<nat>)
    requires Sound(v, dirs) && parts != []
    ensures |fat| == |v.fat|
  {
    if Missing(v, dirs, parts) > 0 then Taken(v.fat, Missing(v, dirs, parts), v.Fit(END_OF_CHAIN))
    else TableWithout(Abs(v, dirs), Parent(v, dirs, parts), NewName(v, dirs, parts))
  }

  /** The result of storing a file, told beforehand. */
  ghost function Forecast(v: Volume, dirs: set<nat>, parts: seq<string>, size: nat, layout: Layout): Outcome<seq<nat>, Error>
    requires Sound(v, dirs) && parts != []
  {
    var missing := Missing(v, dirs, parts);
    var hasSlot := HasSlot(v, dirs, Parent(v, dirs, parts), NewName(v, dirs, parts));
    var chosen := Allocation(TableBefore(v, dirs, parts), ClustersFor(size, v.clusterSize), layout);
    if FileInTheWay(v, dirs, parts) then Err(NotADirectory)
    else if missing > 0 && FreeCount(v.fat) == 0 then Err(NoSpace)
    else if missing > 0 && !hasSlot then Err(DirectoryFull)
    else if FreeCount(v.fat) < missing || chosen.None? then Err(NoSpace)
    else if !hasSlot then Err(DirectoryFull)
    else if size > MAX_U32 then Err(SizeOverflow)
    else Ok(chosen.value)
  }

  lemma ParentFacts(v: Volume, dirs: set<nat>, parts: seq<string>)
    requires Sound(v, dirs) && parts != []
    ensures Missing(v, dirs, parts) == 0 ==>
              Walk(Abs(v, dirs), ROOT, Parents(parts)) == Some(Parent(v, dirs, parts)) && NewName(v, dirs, parts) == Lower(LastName(parts))
    ensures Missing(v, dirs, parts) > 0 ==> Walk(Abs(v, dirs), ROOT, Parents(parts)).None?
  {
    hide Inv, Cells, Listing, WellFormed, Walk, Known, Deepest, Lower;
    RootListed(v, dirs);
    DeepestIsWalk(Abs(v, dirs), ROOT, Parents(parts));
  }

  /** A new directory offers a slot for the file and holds nothing to replace. */
  lemma StoreInFresh(v: Volume, dirs: set<nat>, d: nat, name: string, data: seq<byte>, layout: Layout)
    requires Sound(v, dirs) && d in dirs && ValidName(name) && Abs(v, dirs).dirs[d] == map[]
    ensures StoreIn(v, d, name, data, layout).result ==
            var chosen := Allocation(v.fat, ClustersFor(|data|, v.clusterSize), layout);
            if chosen.None? then Err(NoSpace) else if |data| > MAX_U32 then Err(SizeOverflow) else Ok(chosen.value)
  {
    hide Inv, Cells, Listing, WellFormed, StoreIn, Lower, HasSlot, Allocation;
    EmptyHasSlot(v, dirs, d, Lower(name));
    StoreInSpace(v, dirs, d, name, data, layout);
  }

  /** Storing where all directories exist. */
  lemma StoreHere(v: Volume, dirs: set<nat>, parts: seq<string>, data: seq<byte>, layout: Layout)
    requires Sound(v, dirs) && parts != [] && ValidNames(parts) && Missing(v, dirs, parts) == 0
    ensures Store(v, parts, data, layout).result == Forecast(v, dirs, parts, |data|, layout)
  {
    hide Inv, Cells, Listing, WellFormed, Resolve, StoreIn, Lower, HasSlot, Allocation, Walk, TableWithout,
         FreeCount, Known, Deepest;
    RootListed(v, dirs);
    ParentFacts(v, dirs, parts);
    var n, d := |parts| - 1, Parent(v, dirs, parts);
    ResolveExisting(v, dirs, ROOT, parts[..n]);
    NoSelfEntry(Abs(v, dirs), Parents(parts), d, Lower(parts[n]));
    StoreInSpace(v, dirs, d, parts[n], data, layout);
  }

  /** Storing where directories have to be created. */
  lemma StoreBelow(v: Volume, dirs: set<nat>, parts: seq<string>, data: seq<byte>, layout: Layout)
    requires Sound(v, dirs) && parts != [] && ValidNames(parts) && Missing(v, dirs, parts) > 0
    ensures Store(v, parts, data, layout).result == Forecast(v, dirs, parts, |data|, layout)
  {
    hide Inv, Cells, Listing, WellFormed, Resolve, StoreIn, Lower, HasSlot, Frame, Taken, Allocation, Walk,
         TableWithout, FreeCount,
         Known, Deepest, FreeIds, Resolved, ClustersFor;
    RootListed(v, dirs);
    FreeSetIs(v.fat);
    ParentFacts(v, dirs, parts);
    var n := |parts| - 1;
    ResolveExact(v, dirs, ROOT, parts[..n]);
    var parent := Resolve(v, ROOT, parts[..n]);
    if parent.result.Ok? {
      var dirs' := ResolveStep(v, dirs, ROOT, parts[..n]);
      ResolvedIsEmpty(v, dirs, parent, dirs', parts);
      StoreInFresh(parent.vol, dirs', parent.result.value, parts[n], data, layout);
    }
  }

  /** The exact result of everything write_path_file does before it reads back. */
  lemma StoreForecast(v: Volume, dirs: set<nat>, parts: seq<string>, data: seq<byte>, layout: Layout)
    requires Sound(v, dirs) && parts != [] && ValidNames(parts)
    ensures Store(v, parts, data, layout).result == Forecast(v, dirs, parts, |data|, layout)
  {
    hide Inv, Cells, Listing, WellFormed, Store, Forecast, Missing;
    if Missing(v, dirs, parts) == 0 {
      StoreHere(v, dirs, parts, data, layout);
    } else {
      StoreBelow(v, dirs, parts, data, layout);
    }
  }

  lemma ResolvedIsEmpty(v: Volume, dirs: set<nat>, s: Step<nat>, dirs': set<nat>, parts: seq<string>)
    requires Sound(v, dirs) && parts != [] && Resolved(v, dirs, s, dirs', ROOT, Parents(parts)) && s.result.Ok?
    requires Walk(Abs(v, dirs), ROOT, Parents(parts)).None?
    ensures Sound(s.vol, dirs') && s.result.value in dirs' && Abs(s.vol, dirs').dirs[s.result.value] == map[]
  {
    hide Inv, Cells, Listing, WellFormed, Frame, Walk, NewOnPath;
  }

  // ------------------------------------------------------------ exactly when it works

  /** The exact result of write_path_file on a plain path, told from the volume before the
      call: the forecast, unless a linked cluster behind the first has an id that the chain
      walkers take for an end marker. */
  lemma WriteForecast(v: Volume, dirs: set<nat>, parts: seq<string>, data: seq<byte>, layout: Layout)
    requires Sound(v, dirs) && parts != [] && ValidNames(parts) && Plain(parts)
    ensures var s := WritePath(v, parts, data, layout);
      match Forecast(v, dirs, parts, |data|, layout)
      case Err(e) => s.result == Err(e)
      case Ok(cs) => cs != [] && s.result == if CutAt(cs, 1) == |cs| then Ok(cs) else Err(ShortChain)
  {
    hide Inv, Cells, Listing, WellFormed, Store, ReadPath, Forecast, Lower;
    StoreForecast(v, dirs, parts, data, layout);
    WriteReadsBack(v, dirs, parts, data, layout);
  }

  /** The clusters that the write gives back before it allocates. */
  ghost function GivenBack(v: Volume, dirs: set<nat>, parts: seq<string>): seq<nat>
    requires Sound(v, dirs) && parts != []
  {
    var fs, d, k := Abs(v, dirs), Parent(v, dirs, parts), NewName(v, dirs, parts);
    if Missing(v, dirs, parts) == 0 && Has(fs, d, k) then ChainOf(fs, d, k) else []
  }

  /** Slots, clusters and sizes suffice: no file in the way, room in the deepest existing
      directory, and enough clusters for the missing directories and the file. */
  ghost predicate Suffices(v: Volume, dirs: set<nat>, parts: seq<string>, size: nat)
    requires Sound(v, dirs) && parts != []
  {
    && !FileInTheWay(v, dirs, parts)
    && HasSlot(v, dirs, Parent(v, dirs, parts), NewName(v, dirs, parts))
    && Missing(v, dirs, parts) + ClustersFor(size, v.clusterSize) <= FreeCount(v.fat) + |GivenBack(v, dirs, parts)|
    && size <= MAX_U32
  }

  lemma {:induction false} TakenFree(fat: seq<nat>, n: nat, last: nat, c: nat)
    requires last != FREE && IsFree(Taken(fat, n, last), c)
    ensures IsFree(fat, c)
    decreases n
  {
    var ids := FreeIds(fat, 2);
    if n > 0 && ids != [] && ids[0] < |fat| {
      TakenFree(fat[ids[0] := last], n - 1, last, c);
    }
  }

  lemma CountBefore(v: Volume, dirs: set<nat>, parts: seq<string>)
    requires Sound(v, dirs) && parts != [] && Missing(v, dirs, parts) <= FreeCount(v.fat)
    ensures FreeCount(TableBefore(v, dirs, parts)) + Missing(v, dirs, parts) == FreeCount(v.fat) + |GivenBack(v, dirs, parts)|
    ensures forall c :: IsFree(TableBefore(v, dirs, parts), c) ==> IsFree(v.fat, c) || c in GivenBack(v, dirs, parts)
  {
    hide Cells, Listing, WellFormed, Known, Deepest, FreeCount, Chain, Lower;
    var fat, last, n := v.fat, v.Fit(END_OF_CHAIN), Missing(v, dirs, parts);
    var fs, d, k := Abs(v, dirs), Parent(v, dirs, parts), NewName(v, dirs, parts);
    FreeSetIs(fat);
    if n > 0 {
      FreeSetIs(Taken(fat, n, last));
      TakenIds(fat, n, last);
      forall c | IsFree(Taken(fat, n, last), c)
        ensures IsFree(fat, c)
      {
        TakenFree(fat, n, last, c);
      }
    } else if Has(fs, d, k) {
      FreedCount(fs, d, k);
    }
  }

  /** Outside the contiguous layout storing succeeds exactly if slots, clusters and sizes
      suffice. */
  lemma ForecastSuffices(v: Volume, dirs: set<nat>, parts: seq<string>, size: nat, layout: Layout)
    requires Sound(v, dirs) && parts != [] && layout != Contiguous
    ensures Forecast(v, dirs, parts, size, layout).Ok? <==> Suffices(v, dirs, parts, size)
  {
    hide Inv, Cells, Listing, WellFormed, Known, Deepest, FreeCount, HasSlot, TableBefore, Allocation, FileInTheWay;
    AllocationFails(TableBefore(v, dirs, parts), ClustersFor(size, v.clusterSize), layout);
    if Missing(v, dirs, parts) <= FreeCount(v.fat) {
      CountBefore(v, dirs, parts);
    }
    if Missing(v, dirs, parts) > 0 {
      assert GivenBack(v, dirs, parts) == [];
    }
  }

  /** The two ids at which a chain can be cut are neither free nor given back. */
  ghost predicate NoFalseEnd(v: Volume, dirs: set<nat>, parts: seq<string>)
    requires Sound(v, dirs) && parts != []
  {
    forall c :: FalseEnd(c) ==> !IsFree(v.fat, c) && c !in GivenBack(v, dirs, parts)
  }

  /** Then no write is cut, in any layout; with two-byte entries this is always so. */
  lemma NeverCut(v: Volume, dirs: set<nat>, parts: seq<string>, size: nat, layout: Layout)
    requires Sound(v, dirs) && parts != [] && Forecast(v, dirs, parts, size, layout).Ok?
    requires NoFalseEnd(v, dirs, parts) || !v.Wide()
    ensures var cs := Forecast(v, dirs, parts, size, layout).value; cs != [] && CutAt(cs, 1) == |cs|
  {
    hide Inv, Cells, Listing, WellFormed, Known, Deepest, FreeCount, HasSlot, TableBefore, FileInTheWay,
         Allocation, GivenBack;
    var fat := TableBefore(v, dirs, parts);
    var cs := Forecast(v, dirs, parts, size, layout).value;
    AllocationIsFresh(fat, ClustersFor(size, v.clusterSize), layout);
    CountBefore(v, dirs, parts);
    forall i | 0 <= i < |cs|
      ensures !FalseEnd(cs[i])
    {
      assert IsFree(fat, cs[i]);
    }
  }

  /** Exactly when write_path_file succeeds, outside the contiguous layout, where no chain
      can be cut: if and only if slots, clusters and sizes suffice. */
  lemma WriteSucceedsIff(v: Volume, dirs: set<nat>, parts: seq<string>, data: seq<byte>, layout: Layout)
    requires Sound(v, dirs) && parts != [] && ValidNames(parts) && Plain(parts) && layout != Contiguous
    requires NoFalseEnd(v, dirs, parts) || !v.Wide()
    ensures WritePath(v, parts, data, layout).result.Ok? <==> Suffices(v, dirs, parts, |data|)
    ensures WritePath(v, parts, data, layout).result.Ok? ==> ReadPath(WritePath(v, parts, data, layout).vol, parts) == Ok(data)
  {
    hide Inv, Cells, Listing, WellFormed, Store, ReadPath, Forecast, Lower, Suffices, NoFalseEnd, WritePath;
    WriteForecast(v, dirs, parts, data, layout);
    WriteReadsBack(v, dirs, parts, data, layout);
    ForecastSuffices(v, dirs, parts, |data|, layout);
    if Forecast(v, dirs, parts, |data|, layout).Ok? {
      NeverCut(v, dirs, parts, |data|, layout);
    }
  }

  // ------------------------------------------------------------- a formatted volume

  /** Only terminators in the root directory. */
  predicate Formatted(v: Volume)
    requires |v.data| > 1 && |v.data[1]| == v.clusterSize
  {
    forall i :: 0 <= i < v.clusterSize / SLOT_SIZE ==> v.data[1][SLOT_SIZE * i] in {0x00, 0xFF}
  }

  /** On a formatted volume every directory of a path is missing, and there is room. */
  lemma FormattedSuffices(v: Volume, parts: seq<string>, size: nat)
    requires v.Valid() && |v.fat| > 1 && Formatted(v) && parts != []
    ensures Sound(v, {1}) && Missing(v, {1}, parts) == |parts| - 1 && GivenBack(v, {1}, parts) == []
    ensures Suffices(v, {1}, parts, size) <==>
              |parts| - 1 + ClustersFor(size, v.clusterSize) <= FreeCount(v.fat) && size <= MAX_U32
  {
    hide Inv, WellFormed, Cells, Listing, FreeCount, ClustersFor, Lower;
    FormattedIsSound(v);
    EmptyHasSlot(v, {1}, 1, NewName(v, {1}, parts));
  }

  /** Progress: on a formatted volume any plain path is written and reads back, wide tables
      included, if the clusters and the size suffice and no false end marker is free. */
  lemma FormattedWriteSucceeds(v: Volume, parts: seq<string>, data: seq<byte>, layout: Layout)
    requires v.Valid() && |v.fat| > 1 && Formatted(v)
    requires parts != [] && ValidNames(parts) && Plain(parts) && layout != Contiguous
    requires !IsFree(v.fat, 0xFFF8) && !IsFree(v.fat, 0xFFFF)
    ensures WritePath(v, parts, data, layout).result.Ok? <==>
              |parts| - 1 + ClustersFor(|data|, v.clusterSize) <= FreeCount(v.fat) && |data| <= MAX_U32
    ensures WritePath(v, parts, data, layout).result.Ok? ==> ReadPath(WritePath(v, parts, data, layout).vol, parts) == Ok(data)
  {
    hide Inv, WellFormed, Cells, Listing, Store, ReadPath, FreeCount, ClustersFor, WritePath, Suffices, Lower,
         Formatted;
    FormattedSuffices(v, parts, |data|);
    WriteSucceedsIff(v, {1}, parts, data, layout);
  }
}
