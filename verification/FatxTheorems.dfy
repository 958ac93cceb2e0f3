/** The main theorems about write_path_file on any volume without cross-links. */
module FatxTheorems {
  import opened Bytes
  import opened FatTable
  import opened FatAlloc
  import opened FatDirectory
  import opened FatSlot
  import opened FatxFs
  import opened FatxVolume
  import opened FatxSafety
  import opened FatxPaths
  import opened FatxRoundTrip

  ghost function Parents(parts: seq<string>): seq<string>
    requires parts != []
  {
    LowerAll(parts[..|parts| - 1])
  }

  function LastName(parts: seq<string>): string
    requires parts != []
  {
    parts[|parts| - 1]
  }

  /** The path names a directory. */
  ghost predicate NamesDirectory(fs: Fs, parts: seq<string>) {
    Walk(fs, ROOT, LowerAll(parts)).Some?
  }

  /** A change around the entry (d0, k0), seen from the paths: d0 is reached by the given
      path and the entry is no directory afterwards, or d0 is 0 and there was no such
      directory. */
  ghost predicate WrittenAtPath(v: Volume, dirs: set<nat>, v': Volume, dirs': set<nat>, d0: nat, k0: string, parts: seq<string>)
    requires parts != []
  {
    && Sound(v, dirs) && Sound(v', dirs') && v'.clusterSize == v.clusterSize
    && Around(v, dirs, v', dirs', d0, k0) && Overwrites(Abs(v', dirs'), d0, k0)
    && (d0 != 0 ==> k0 == Lower(LastName(parts)) && Walk(Abs(v', dirs'), ROOT, Parents(parts)) == Some(d0))
    && (d0 == 0 ==> Walk(Abs(v, dirs), ROOT, Parents(parts)).None?)
  }

  /** What a run of write_path_file leaves behind, up to its read-back. The entry (d, k)
      is the one written; d is 0 when not even the parent could be resolved. */
  ghost predicate Outcomes(v: Volume, dirs: set<nat>, parts: seq<string>, data: seq<byte>, s: Step<seq<nat>>,
                           dirs': set<nat>, d: nat, k: string)
    requires parts != []
  {
    && WrittenAtPath(v, dirs, s.vol, dirs', d, k, parts)
    && (s.result.Ok? ==> d != 0 && FileStored(s.vol, dirs', d, k, data, s.result.value))
    && (s.result.Err? ==> s.result.error in {NotADirectory, NoSpace, DirectoryFull, SizeOverflow}
                          && !Has(Abs(s.vol, dirs'), d, k))
  }

  lemma RootListed(v: Volume, dirs: set<nat>)
    requires Sound(v, dirs)
    ensures ROOT in dirs && 0 !in dirs
  {
    assert ROOT in Abs(v, dirs).dirs;
  }

  lemma NoSelfInParent(v: Volume, dirs: set<nat>, s: Step<nat>, dirs': set<nat>, parts: seq<string>)
    requires Sound(v, dirs) && parts != [] && Resolved(v, dirs, s, dirs', ROOT, Parents(parts)) && s.result.Ok?
    ensures !IsDirectoryEntry(Abs(s.vol, dirs'), s.result.value, Lower(LastName(parts)), s.result.value)
  {
    hide Frame, Inv, WellFormed, Cells, Listing;
    NoSelfEntry(Abs(s.vol, dirs'), Parents(parts), s.result.value, Lower(LastName(parts)));
  }

  /** No cross-links ever: whatever the path names and whatever goes wrong on the way,
      the volume left behind satisfies the invariant. */
  lemma WriteKeepsInvariant(v: Volume, dirs: set<nat>, parts: seq<string>, data: seq<byte>, layout: Layout)
    returns (dirs': set<nat>)
    requires Sound(v, dirs) && parts != [] && ValidNames(parts)
    ensures Sound(WritePath(v, parts, data, layout).vol, dirs')
  {
    hide Frame, Inv, WellFormed, Cells, Listing, Resolve, StoreIn;
    RootListed(v, dirs);
    var parent := Resolve(v, ROOT, parts[..|parts| - 1]);
    var dirs1 := ResolveStep(v, dirs, ROOT, parts[..|parts| - 1]);
    if parent.result.Err? {
      return dirs1;
    }
    NoSelfInParent(v, dirs, parent, dirs1, parts);
    dirs' := StoreInStep(parent.vol, dirs1, parent.result.value, LastName(parts), data, layout);
  }

  /** Whatever the path names: on success its entry holds the data, and in any case
      everything around the entry is kept. */
  lemma StoreStep(v: Volume, dirs: set<nat>, parts: seq<string>, data: seq<byte>, layout: Layout)
    returns (dirs': set<nat>, d: nat, k: string)
    requires Sound(v, dirs) && parts != [] && ValidNames(parts)
    ensures Outcomes(v, dirs, parts, data, Store(v, parts, data, layout), dirs', d, k)
  {
    hide Frame, Around, Inv, WellFormed, Cells, Listing, Resolve, StoreIn, FileStored, UnchangedOrNew,
         NewOnPath, Walk, Lower;
    RootListed(v, dirs);
    var parent := Resolve(v, ROOT, parts[..|parts| - 1]);
    dirs' := ResolveStep(v, dirs, ROOT, parts[..|parts| - 1]);
    RootListed(parent.vol, dirs');
    if parent.result.Err? {
      if Walk(Abs(v, dirs), ROOT, Parents(parts)).Some? {
        ResolveExisting(v, dirs, ROOT, parts[..|parts| - 1]);
      }
      FrameIsAround(v, dirs, parent.vol, dirs', 0, "");
      return dirs', 0, "";
    }
    NoSelfInParent(v, dirs, parent, dirs', parts);
    d, k := parent.result.value, Lower(LastName(parts));
    var dirs1 := dirs';
    dirs' := StoreInStep(parent.vol, dirs1, d, LastName(parts), data, layout);
    StoreThen(v, dirs, parent, dirs1, StoreIn(parent.vol, d, LastName(parts), data, layout), dirs', parts, data);
  }

  lemma StoreThen(v: Volume, dirs: set<nat>, parent: Step<nat>, dirs1: set<nat>, s: Step<seq<nat>>, dirs': set<nat>,
                  parts: seq<string>, data: seq<byte>)
    requires Sound(v, dirs) && parts != [] && Resolved(v, dirs, parent, dirs1, ROOT, Parents(parts)) && parent.result.Ok?
    requires parent.result.value != 0 && parent.vol.clusterSize == v.clusterSize
    requires StoredIn(parent.vol, dirs1, s, dirs', parent.result.value, Lower(LastName(parts)), data)
    ensures Outcomes(v, dirs, parts, data, s, dirs', parent.result.value, Lower(LastName(parts)))
  {
    hide Frame, Around, Inv, WellFormed, Cells, Listing, FileStored, UnchangedOrNew, NewOnPath, Walk, Lower,
         EntriesKept;
    var d, k := parent.result.value, Lower(LastName(parts));
    RootListed(v, dirs);
    RootListed(parent.vol, dirs1);
    FrameThenAround(v, dirs, parent.vol, dirs1, s.vol, dirs', d, k);
    AroundKeepsEntries(parent.vol, dirs1, s.vol, dirs', d, k);
    WalkAround(Abs(parent.vol, dirs1), Abs(s.vol, dirs'), Parents(parts), d, k, Parents(parts));
  }

  // ------------------------------------------------------------- the round trip

  /** Reading a plain path whose parent and entry are known. */
  lemma ReadNamed(v: Volume, dirs: set<nat>, parts: seq<string>)
    requires Sound(v, dirs) && parts != [] && Plain(parts)
    ensures var t := Named(Abs(v, dirs), ROOT, parts);
            var r := ReadPath(v, parts);
      && (t.Some? && !t.value.meta.IsDir() ==> r == ReadFile(v, t.value.meta))
      && (t.Some? && t.value.meta.IsDir() ==> r == Err(NotFound))
      && (t.None? ==> r.Err? && r.error in {NotFound, NotADirectory})
  {
    hide Inv, WellFormed, Cells, Listing, Locate, Follow, Named, ReadFile;
    RootListed(v, dirs);
    LocateIsFollow(v, dirs, ROOT, parts, LastName(parts));
    FollowPlain(Abs(v, dirs), ROOT, parts);
  }

  /** What is written is what is read. On a volume without cross-links, for every layout
      and every plain path, whatever it names, write_path_file succeeds exactly when
      storing succeeds and no linked cluster after the first has an id that the chain
      walkers take for an end marker; then reading the path gives the data. The hash
      comparison never fails, and with two-byte entries neither does the read-back. */
  lemma WriteReadsBack(v: Volume, dirs: set<nat>, parts: seq<string>, data: seq<byte>, layout: Layout)
    requires Sound(v, dirs) && parts != [] && ValidNames(parts) && Plain(parts)
    ensures var stored := Store(v, parts, data, layout);
            var s := WritePath(v, parts, data, layout);
      && s.vol == stored.vol
      && (stored.result.Err? ==> s.result == stored.result
                                 && s.result.error in {NotADirectory, NoSpace, DirectoryFull, SizeOverflow})
      && (stored.result.Ok? ==> stored.result.value != []
                                && s.result == if CutAt(stored.result.value, 1) == |stored.result.value|
                                               then stored.result else Err(ShortChain))
      && (stored.result.Ok? && !v.Wide() ==> s.result.Ok?)
      && (s.result.Ok? ==> ReadPath(s.vol, parts) == Ok(data))
  {
    hide Inv, WellFormed, Cells, Listing, Frame, Around, Store, ReadPath, Lower;
    var dirs', d, k := StoreStep(v, dirs, parts, data, layout);
    var stored := Store(v, parts, data, layout);
    if stored.result.Ok? {
      var cs := stored.result.value;
      ReadNamed(stored.vol, dirs', parts);
      ReadStored(stored.vol, dirs', d, k, data, cs);
      StoredIsLinked(stored.vol, dirs', d, k, data, cs);
    }
  }

  lemma StoredIsLinked(v: Volume, dirs: set<nat>, d: nat, k: string, data: seq<byte>, cs: seq<nat>)
    requires FileStored(v, dirs, d, k, data, cs)
    ensures !v.Wide() ==> CutAt(cs, 1) == |cs|
  {
    hide Inv, WellFormed, Cells, Listing;
    assert forall i :: 0 <= i < |cs| ==> cs[i] < |v.data|;
  }

  // ------------------------------------------------------- nothing else moves

  lemma KeptReads(v: Volume, dirs: set<nat>, v': Volume, dirs': set<nat>, d: nat, k: string)
    requires Sound(v, dirs) && Sound(v', dirs') && v'.clusterSize == v.clusterSize
    requires FileKept(v, dirs, v', dirs', d, k) && !At(Abs(v, dirs), d, k).IsDir()
    ensures ReadFile(v', At(Abs(v, dirs), d, k)) == ReadFile(v, At(Abs(v, dirs), d, k))
  {
    hide Inv, WellFormed, Cells, Listing;
    var chain := ChainOf(Abs(v, dirs), d, k);
    ChainBelow(v.fat, At(Abs(v, dirs), d, k).cluster);
    assert forall i :: 0 <= i < |chain| ==> chain[i] in chain;
    ContentSame(v.data, v'.data, chain);
  }

  /** What is said about a single entry around the written one. */
  lemma AroundAt(v: Volume, dirs: set<nat>, v': Volume, dirs': set<nat>, d0: nat, k0: string, d: nat, k: string)
    requires Sound(v, dirs) && Sound(v', dirs') && Around(v, dirs, v', dirs', d0, k0) && (d != d0 || k != k0)
    ensures Has(Abs(v, dirs), d, k) && d in dirs' ==> FileKept(v, dirs, v', dirs', d, k)
    ensures Has(Abs(v', dirs'), d, k) && (At(Abs(v', dirs'), d, k).IsDir() ==> At(Abs(v', dirs'), d, k).cluster in dirs) ==>
              FileKept(v, dirs, v', dirs', d, k)
  {
    hide Inv, WellFormed, Cells, Listing, FileKept;
  }

  lemma LastEntryIsOld(v: Volume, dirs: set<nat>, v': Volume, dirs': set<nat>, d0: nat, k0: string,
                       keys: seq<string>, e: nat) returns (p: nat)
    requires Sound(v, dirs) && Sound(v', dirs') && Around(v, dirs, v', dirs', d0, k0)
    requires Overwrites(Abs(v', dirs'), d0, k0)
    requires keys != [] && Walk(Abs(v', dirs'), ROOT, keys) == Some(e) && e in dirs
    ensures p in dirs && Walk(Abs(v', dirs'), ROOT, keys[..|keys| - 1]) == Some(p)
    ensures IsDirectoryEntry(Abs(v, dirs), p, keys[|keys| - 1], e)
  {
    hide Inv, WellFormed, Cells, Listing, Around, FileKept, Walk;
    p := WalkLast(Abs(v', dirs'), keys, e);
    AroundAt(v, dirs, v', dirs', d0, k0, p, keys[|keys| - 1]);
    KeptDirectory(v, dirs, v', dirs', p, keys[|keys| - 1], e);
  }

  /** A path to an old directory was there before the change. */
  lemma {:induction false} WalkBack(v: Volume, dirs: set<nat>, v': Volume, dirs': set<nat>, d0: nat, k0: string,
                                    keys: seq<string>, e: nat)
    requires Sound(v, dirs) && Sound(v', dirs') && Around(v, dirs, v', dirs', d0, k0)
    requires Overwrites(Abs(v', dirs'), d0, k0)
    requires Walk(Abs(v', dirs'), ROOT, keys) == Some(e) && e in dirs
    ensures Walk(Abs(v, dirs), ROOT, keys) == Some(e)
    decreases |keys|
  {
    hide Inv, WellFormed, Cells, Listing, Around, FileKept, Walk, Overwrites;
    WalkNowhere(Abs(v, dirs), ROOT);
    WalkNowhere(Abs(v', dirs'), ROOT);
    if keys != [] {
      var n := |keys| - 1;
      var p := LastEntryIsOld(v, dirs, v', dirs', d0, k0, keys, e);
      WalkBack(v, dirs, v', dirs', d0, k0, keys[..n], p);
      EntryWalk(Abs(v, dirs), keys, p, e);
    }
  }

  lemma KeptDirectory(v: Volume, dirs: set<nat>, v': Volume, dirs': set<nat>, d: nat, k: string, e: nat)
    requires Sound(v, dirs) && Sound(v', dirs') && FileKept(v, dirs, v', dirs', d, k)
    requires IsDirectoryEntry(Abs(v', dirs'), d, k, e)
    ensures IsDirectoryEntry(Abs(v, dirs), d, k, e) && d in dirs
  {
    hide Inv, WellFormed, Cells, Listing;
  }

  lemma LowerSplit(parts: seq<string>)
    requires parts != []
    ensures LowerAll(parts) == Parents(parts) + [Lower(LastName(parts))]
  {
  }

  lemma SameNamesSamePath(p: seq<string>, q: seq<string>)
    requires p != [] && q != [] && Parents(p) == Parents(q) && Lower(LastName(p)) == Lower(LastName(q))
    ensures LowerAll(p) == LowerAll(q)
  {
    forall i | 0 <= i < |p|
      ensures LowerAll(p)[i] == LowerAll(q)[i]
    {
      if i < |p| - 1 {
        assert Parents(p)[i] == Parents(q)[i];
      }
    }
  }

  /** A file that is neither at the written path nor below it stays where it is. */
  lemma OtherFileForward(v: Volume, dirs: set<nat>, v': Volume, dirs': set<nat>, d0: nat, k0: string,
                         parts: seq<string>, q: seq<string>)
    requires parts != [] && WrittenAtPath(v, dirs, v', dirs', d0, k0, parts)
    requires q != [] && !(LowerAll(parts) <= LowerAll(q))
    requires Named(Abs(v, dirs), ROOT, q).Some? && !Named(Abs(v, dirs), ROOT, q).value.meta.IsDir()
    ensures Named(Abs(v', dirs'), ROOT, q) == Named(Abs(v, dirs), ROOT, q)
    ensures FileKept(v, dirs, v', dirs', Named(Abs(v, dirs), ROOT, q).value.dir, Named(Abs(v, dirs), ROOT, q).value.key)
  {
    hide Inv, WellFormed, Cells, Listing, Around, EntriesKept, Walk, FileKept, Overwrites, LowerAll, Lower;
    var t := Named(Abs(v, dirs), ROOT, q).value;
    LowerSplit(parts);
    LowerSplit(q);
    AroundKeepsEntries(v, dirs, v', dirs', d0, k0);
    WalkAround(Abs(v, dirs), Abs(v', dirs'), Parents(parts), d0, k0, Parents(q));
    RootListed(v', dirs');
    if t.dir == d0 && t.key == k0 {
      WalkUnique(Abs(v', dirs'), Parents(q), Parents(parts), d0);
      assert false;
    }
    AroundAt(v, dirs, v', dirs', d0, k0, t.dir, t.key);
    KeptHas(v, dirs, v', dirs', t.dir, t.key);
  }

  lemma OtherFileBackward(v: Volume, dirs: set<nat>, v': Volume, dirs': set<nat>, d0: nat, k0: string,
                          parts: seq<string>, q: seq<string>)
    requires parts != [] && WrittenAtPath(v, dirs, v', dirs', d0, k0, parts)
    requires q != [] && LowerAll(q) != LowerAll(parts)
    requires Named(Abs(v', dirs'), ROOT, q).Some? && !Named(Abs(v', dirs'), ROOT, q).value.meta.IsDir()
    ensures Named(Abs(v, dirs), ROOT, q) == Named(Abs(v', dirs'), ROOT, q)
    ensures FileKept(v, dirs, v', dirs', Named(Abs(v', dirs'), ROOT, q).value.dir, Named(Abs(v', dirs'), ROOT, q).value.key)
  {
    hide Inv, WellFormed, Cells, Listing, Around, Walk, FileKept, Overwrites, LowerAll, Lower;
    var t := Named(Abs(v', dirs'), ROOT, q).value;
    RootListed(v', dirs');
    RootThere(Abs(v', dirs'));
    if t.dir == d0 && t.key == k0 {
      WalkStays(Abs(v', dirs'), ROOT, Parents(q));
      WalkUnique(Abs(v', dirs'), Parents(q), Parents(parts), d0);
      SameNamesSamePath(q, parts);
      assert false;
    }
    AroundAt(v, dirs, v', dirs', d0, k0, t.dir, t.key);
    KeptHas(v, dirs, v', dirs', t.dir, t.key);
    WalkBack(v, dirs, v', dirs', d0, k0, Parents(q), t.dir);
  }

  lemma {:induction false} WalkPrefix(fs: Fs, d: nat, p: seq<string>, q: seq<string>)
    requires p <= q && Walk(fs, d, q).Some?
    ensures Walk(fs, d, p).Some?
    decreases |p|
  {
    if p != [] {
      WalkPrefix(fs, At(fs, d, p[0]).cluster, p[1..], q[1..]);
    }
  }

  /** The written path is no directory afterwards, if its parent was there before. */
  lemma NoLongerDirectory(v: Volume, dirs: set<nat>, v': Volume, dirs': set<nat>, d0: nat, k0: string, parts: seq<string>)
    requires parts != [] && WrittenAtPath(v, dirs, v', dirs', d0, k0, parts)
    requires Walk(Abs(v, dirs), ROOT, Parents(parts)).Some?
    ensures !NamesDirectory(Abs(v', dirs'), parts)
  {
    hide Inv, WellFormed, Cells, Listing, Around, Walk, LowerAll, Lower;
    LowerSplit(parts);
    WalkSnoc(Abs(v', dirs'), ROOT, Parents(parts), k0);
  }

  /** Files at other paths: what is read afterwards was read before, and what was read
      before is read afterwards exactly if it is not below the written path. */
  lemma OtherReads(v: Volume, dirs: set<nat>, v': Volume, dirs': set<nat>, d0: nat, k0: string,
                   parts: seq<string>, q: seq<string>)
    requires parts != [] && WrittenAtPath(v, dirs, v', dirs', d0, k0, parts)
    requires q != [] && Plain(q) && LowerAll(q) != LowerAll(parts)
    ensures forall bytes :: ReadPath(v', q) == Ok(bytes) <==>
                            ReadPath(v, q) == Ok(bytes) && !(LowerAll(parts) <= Parents(q))
  {
    hide Inv, WellFormed, Cells, Listing, Around, ReadPath, ReadFile, Walk, FileKept, Overwrites, LowerAll,
         Lower, NamesDirectory;
    ReadNamed(v, dirs, q);
    ReadNamed(v', dirs', q);
    LowerSplit(parts);
    LowerSplit(q);
    var t, t' := Named(Abs(v, dirs), ROOT, q), Named(Abs(v', dirs'), ROOT, q);
    if t'.Some? && !t'.value.meta.IsDir() {
      OtherFileBackward(v, dirs, v', dirs', d0, k0, parts, q);
      KeptReads(v, dirs, v', dirs', t'.value.dir, t'.value.key);
      if LowerAll(parts) <= Parents(q) {
        BelowIsLost(v, dirs, v', dirs', d0, k0, parts, q);
      }
    } else if t.Some? && !t.value.meta.IsDir() && !(LowerAll(parts) <= LowerAll(q)) {
      OtherFileForward(v, dirs, v', dirs', d0, k0, parts, q);
    }
    ShorterPrefix(LowerAll(parts), Parents(q), LowerAll(q));
  }

  lemma ShorterPrefix(p: seq<string>, init: seq<string>, q: seq<string>)
    requires |q| == |init| + 1 && init <= q && p != q
    ensures p <= q <==> p <= init
  {
    assert q[..|init|] == init;
    if p <= q {
      assert |p| == |q| ==> p == q;
    }
  }

  lemma BelowIsLost(v: Volume, dirs: set<nat>, v': Volume, dirs': set<nat>, d0: nat, k0: string,
                    parts: seq<string>, q: seq<string>)
    requires parts != [] && WrittenAtPath(v, dirs, v', dirs', d0, k0, parts)
    requires q != [] && LowerAll(parts) <= Parents(q) && Walk(Abs(v, dirs), ROOT, Parents(q)).Some?
    ensures Walk(Abs(v', dirs'), ROOT, Parents(q)).None?
  {
    hide Inv, WellFormed, Cells, Listing, Around, Walk, Overwrites, Lower;
    assert Parents(parts) <= Parents(q);
    WalkPrefix(Abs(v, dirs), ROOT, Parents(parts), Parents(q));
    NoLongerDirectory(v, dirs, v', dirs', d0, k0, parts);
    if Walk(Abs(v', dirs'), ROOT, Parents(q)).Some? {
      WalkPrefix(Abs(v', dirs'), ROOT, LowerAll(parts), Parents(q));
    }
  }

  /** Nothing else moves. Whatever the path names and however write_path_file ends, a file
      at another plain path reads bytes afterwards exactly if it read them before and is
      not below the written path; so no other file comes into being. */
  lemma WriteKeepsOthers(v: Volume, dirs: set<nat>, parts: seq<string>, data: seq<byte>, layout: Layout, q: seq<string>)
    requires Sound(v, dirs) && parts != [] && ValidNames(parts)
    requires q != [] && Plain(q) && LowerAll(q) != LowerAll(parts)
    ensures forall bytes :: ReadPath(WritePath(v, parts, data, layout).vol, q) == Ok(bytes) <==>
                            ReadPath(v, q) == Ok(bytes) && !(LowerAll(parts) <= Parents(q))
  {
    hide Inv, WellFormed, Cells, Listing, Around, Store, ReadPath, LowerAll, Lower, FileStored;
    var dirs', d, k := StoreStep(v, dirs, parts, data, layout);
    OtherReads(v, dirs, Store(v, parts, data, layout).vol, dirs', d, k, parts, q);
  }
}
