/** Walking directory paths: under the invariant a directory has exactly one path,
    and the code's own walk agrees with it unless an earlier component equals the last. */
module FatxPaths {
  import opened Bytes
  import opened FatTable
  import opened FatDirectory
  import opened FatSlot
  import opened FatxFs
  import opened FatxVolume
  import opened FatxSafety

  /** The directory reached from d by following directory entries. */
  ghost function Walk(fs: Fs, d: nat, keys: seq<string>): Option<nat>
    decreases |keys|
  {
    if keys == [] then Some(d)
    else if Has(fs, d, keys[0]) && At(fs, d, keys[0]).IsDir() then Walk(fs, At(fs, d, keys[0]).cluster, keys[1..])
    else None
  }

  function LowerAll(parts: seq<string>): (r: seq<string>)
    ensures |r| == |parts|
  {
    seq(|parts|, i requires 0 <= i < |parts| => Lower(parts[i]))
  }

  lemma {:induction false} WalkSnoc(fs: Fs, d: nat, keys: seq<string>, k: string)
    ensures Walk(fs, d, keys + [k]) ==
            match Walk(fs, d, keys)
            case None => None
            case Some(e) => if Has(fs, e, k) && At(fs, e, k).IsDir() then Some(At(fs, e, k).cluster) else None
    decreases |keys|
  {
    if keys == [] {
      assert [] + [k] == [k];
    } else {
      assert (keys + [k])[1..] == keys[1..] + [k];
      if Has(fs, d, keys[0]) {
        WalkSnoc(fs, At(fs, d, keys[0]).cluster, keys[1..], k);
      }
    }
  }

  lemma WalkStep(fs: Fs, d: nat, keys: seq<string>, e: nat)
    requires keys != [] && IsDirectoryEntry(fs, d, keys[0], e)
    ensures Walk(fs, d, keys) == Walk(fs, e, keys[1..])
  {
  }

  lemma WalkNowhere(fs: Fs, d: nat)
    ensures Walk(fs, d, []) == Some(d)
  {
  }

  lemma {:induction false} WalkStays(fs: Fs, d: nat, keys: seq<string>)
    requires Inv(fs) && d in fs.dirs && Walk(fs, d, keys).Some?
    ensures Walk(fs, d, keys).value in fs.dirs
    decreases |keys|
  {
    if keys != [] {
      assert Owned(fs, d, keys[0]);
      WalkStays(fs, At(fs, d, keys[0]).cluster, keys[1..]);
    }
  }

  /** Two directory entries with the same cluster are the same entry. */
  lemma SameClusterSameEntry(fs: Fs, d1: nat, k1: string, d2: nat, k2: string, c: nat)
    requires Inv(fs) && IsDirectoryEntry(fs, d1, k1, c) && IsDirectoryEntry(fs, d2, k2, c)
    ensures d1 == d2 && k1 == k2 && c != ROOT
  {
    assert Owned(fs, d1, k1) && DirCluster(fs, c);
    ChainHead(fs.fat, c);
    assert c in ChainOf(fs, d1, k1) && c in ChainOf(fs, d2, k2);
  }

  const ROOT := FatxVolume.ROOT_CLUSTER

  /** A walk that is not empty ends in the cluster of its last directory entry. */
  lemma WalkLast(fs: Fs, keys: seq<string>, d: nat) returns (e: nat)
    requires keys != [] && Walk(fs, ROOT, keys) == Some(d)
    ensures Walk(fs, ROOT, keys[..|keys| - 1]) == Some(e)
    ensures IsDirectoryEntry(fs, e, keys[|keys| - 1], d)
  {
    var n := |keys| - 1;
    assert keys == keys[..n] + [keys[n]];
    WalkSnoc(fs, ROOT, keys[..n], keys[n]);
    e := Walk(fs, ROOT, keys[..n]).value;
  }

  /** A directory is reached from the root by only one path: the directories form a tree. */
  lemma {:induction false} WalkUnique(fs: Fs, p: seq<string>, q: seq<string>, d: nat)
    requires Inv(fs) && Walk(fs, ROOT, p) == Some(d) && Walk(fs, ROOT, q) == Some(d)
    ensures p == q
    decreases |p|
  {
    if p != [] {
      var e := WalkLast(fs, p, d);
      SameClusterSameEntry(fs, e, p[|p| - 1], e, p[|p| - 1], d);
      if q != [] {
        var e' := WalkLast(fs, q, d);
        SameClusterSameEntry(fs, e, p[|p| - 1], e', q[|q| - 1], d);
        WalkUnique(fs, p[..|p| - 1], q[..|q| - 1], e);
        assert p == p[..|p| - 1] + [p[|p| - 1]] && q == q[..|q| - 1] + [q[|q| - 1]];
      }
    } else if q != [] {
      var e' := WalkLast(fs, q, d);
      SameClusterSameEntry(fs, e', q[|q| - 1], e', q[|q| - 1], d);
    }
  }

  /** A directory reachable from the root does not contain itself. */
  lemma NoSelfEntry(fs: Fs, keys: seq<string>, d: nat, k: string)
    requires Inv(fs) && Walk(fs, ROOT, keys) == Some(d)
    ensures !IsDirectoryEntry(fs, d, k, d)
  {
    if IsDirectoryEntry(fs, d, k, d) {
      WalkSnoc(fs, ROOT, keys, k);
      assert |keys + [k]| == |keys| + 1;
      WalkUnique(fs, keys, keys + [k], d);
      assert false;
    }
  }

  // --------------------------------------------------- paths around an entry

  /** Every entry but (d0, k0) is there with the same fields, unless its directory is gone,
      and only the directory that (d0, k0) named can be gone. */
  ghost predicate EntriesKept(fs: Fs, fs': Fs, d0: nat, k0: string) {
    && (forall d, k :: Has(fs, d, k) && (d != d0 || k != k0) && d in fs'.dirs ==> Has(fs', d, k) && At(fs', d, k) == At(fs, d, k))
    && (forall d :: d in fs.dirs && d !in fs'.dirs ==> IsDirectoryEntry(fs, d0, k0, d))
  }

  lemma AroundKeepsEntries(v: Volume, dirs: set<nat>, v': Volume, dirs': set<nat>, d0: nat, k0: string)
    requires Sound(v, dirs) && Sound(v', dirs') && Around(v, dirs, v', dirs', d0, k0)
    ensures EntriesKept(Abs(v, dirs), Abs(v', dirs'), d0, k0)
  {
    hide Inv, WellFormed, Cells, Listing, FileKept, IsDirectoryEntry;
    forall d, k | Has(Abs(v, dirs), d, k) && (d != d0 || k != k0) && d in dirs'
      ensures Has(Abs(v', dirs'), d, k) && At(Abs(v', dirs'), d, k) == At(Abs(v, dirs), d, k)
    {
      KeptHas(v, dirs, v', dirs', d, k);
    }
  }

  /** The entry is written at the end of this path, before or after, or nowhere. */
  ghost predicate AtPath(fs: Fs, fs': Fs, parents: seq<string>, d0: nat) {
    d0 == 0 || Walk(fs, ROOT, parents) == Some(d0) || Walk(fs', ROOT, parents) == Some(d0)
  }

  lemma RootThere(fs: Fs)
    requires Inv(fs)
    ensures ROOT in fs.dirs && 0 !in fs.dirs
  {
    assert forall d :: d in fs.dirs ==> DirCluster(fs, d);
  }

  lemma EntryThere(fs: Fs, fs': Fs, d0: nat, k0: string, p: nat, key: string, e: nat)
    requires Inv(fs) && Inv(fs') && EntriesKept(fs, fs', d0, k0)
    requires IsDirectoryEntry(fs, p, key, e) && p in fs'.dirs && (p != d0 || key != k0)
    ensures IsDirectoryEntry(fs', p, key, e) && e in fs'.dirs
  {
    hide OwnedCluster, DirCluster;
    assert Owned(fs', p, key);
  }

  /** A directory path that does not lead through the entry is kept. */
  lemma {:induction false} WalkAround(fs: Fs, fs': Fs, parents: seq<string>, d0: nat, k0: string, keys: seq<string>)
    requires Inv(fs) && Inv(fs') && EntriesKept(fs, fs', d0, k0) && AtPath(fs, fs', parents, d0)
    requires Walk(fs, ROOT, keys).Some? && (d0 != 0 ==> !(parents + [k0] <= keys))
    ensures Walk(fs', ROOT, keys) == Walk(fs, ROOT, keys)
    ensures Walk(fs, ROOT, keys).value in fs'.dirs
    decreases |keys|
  {
    hide Inv, EntriesKept, Walk, IsDirectoryEntry;
    WalkNowhere(fs, ROOT);
    WalkNowhere(fs', ROOT);
    RootThere(fs');
    if keys != [] {
      var n := |keys| - 1;
      var e := Walk(fs, ROOT, keys).value;
      var p := WalkLast(fs, keys, e);
      assert keys == keys[..n] + [keys[n]];
      WalkAround(fs, fs', parents, d0, k0, keys[..n]);
      if p == d0 {
        SameParents(fs, fs', parents, keys[..n], d0);
      }
      EntryThere(fs, fs', d0, k0, p, keys[n], e);
      EntryWalk(fs', keys, p, e);
    }
  }

  lemma EntryWalk(fs: Fs, keys: seq<string>, p: nat, e: nat)
    requires keys != [] && Walk(fs, ROOT, keys[..|keys| - 1]) == Some(p) && IsDirectoryEntry(fs, p, keys[|keys| - 1], e)
    ensures Walk(fs, ROOT, keys) == Some(e)
  {
    hide Walk;
    assert keys == keys[..|keys| - 1] + [keys[|keys| - 1]];
    WalkSnoc(fs, ROOT, keys[..|keys| - 1], keys[|keys| - 1]);
  }

  lemma SameParents(fs: Fs, fs': Fs, parents: seq<string>, keys: seq<string>, d0: nat)
    requires Inv(fs) && Inv(fs') && AtPath(fs, fs', parents, d0) && d0 != 0
    requires Walk(fs, ROOT, keys) == Some(d0) && Walk(fs', ROOT, keys) == Some(d0)
    ensures keys == parents
  {
    hide Inv, Walk;
    if Walk(fs, ROOT, parents) == Some(d0) {
      WalkUnique(fs, keys, parents, d0);
    } else {
      WalkUnique(fs', keys, parents, d0);
    }
  }

  // ------------------------------------------------------- resolving the parent

  /** Every directory that is not among dirs lies on the path keys from d. */
  ghost predicate NewOnPath(fs: Fs, dirs: set<nat>, d: nat, keys: seq<string>) {
    forall e :: e in fs.dirs && e !in dirs ==> exists i :: 0 <= i <= |keys| && Walk(fs, d, keys[..i]) == Some(e)
  }

  ghost predicate Resolved(v: Volume, dirs: set<nat>, s: Step<nat>, dirs': set<nat>, d: nat, keys: seq<string>)
    requires Sound(v, dirs)
  {
    && Sound(s.vol, dirs') && Frame(v, dirs, s.vol, dirs', 0, "")
    && (s.result.Ok? ==> s.result.value in dirs' && Walk(Abs(s.vol, dirs'), d, keys) == Some(s.result.value))
    && (s.result.Ok? ==> UnchangedOrNew(v, dirs, s.vol, dirs', s.result.value))
    && NewOnPath(Abs(s.vol, dirs'), dirs, d, keys)
    && (s.result.Err? ==> s.result.error in {NotADirectory, NoSpace, DirectoryFull})
  }

  /** Resolving a parent path, creating what is missing, keeps the invariant and every
      existing entry, and ends in the directory that the path names. */
  lemma {:induction false} ResolveStep(v: Volume, dirs: set<nat>, d: nat, parts: seq<string>) returns (dirs': set<nat>)
    requires Sound(v, dirs) && d in dirs && ValidNames(parts)
    ensures Resolved(v, dirs, Resolve(v, d, parts), dirs', d, LowerAll(parts))
    decreases |parts|
  {
    if parts == [] {
      FrameRefl(v, dirs, 0, "");
      return dirs;
    }
    hide Frame, Inv, WellFormed, Cells, Listing, EnsureDirectory;
    var dirs1 := EnsureStep(v, dirs, d, parts[0]);
    var s1 := EnsureDirectory(v, d, parts[0]);
    if s1.result.Err? {
      assert NewOnPath(Abs(s1.vol, dirs1), dirs, d, LowerAll(parts));
      return dirs1;
    }
    dirs' := ResolveStep(s1.vol, dirs1, s1.result.value, parts[1..]);
    ResolveThen(v, dirs, s1, dirs1, Resolve(s1.vol, s1.result.value, parts[1..]), dirs', d, parts);
  }

  lemma ResolveThen(v: Volume, dirs: set<nat>, s1: Step<nat>, dirs1: set<nat>, s2: Step<nat>, dirs2: set<nat>,
                    d: nat, parts: seq<string>)
    requires Sound(v, dirs) && parts != [] && s1.result.Ok?
    requires Ensured(v, dirs, s1, dirs1, d, Lower(parts[0]))
    requires Resolved(s1.vol, dirs1, s2, dirs2, s1.result.value, LowerAll(parts[1..]))
    ensures Resolved(v, dirs, s2, dirs2, d, LowerAll(parts))
  {
    hide Frame, Inv, WellFormed, Cells, Listing, UnchangedOrNew, NewOnPath, Walk, Lower;
    FrameTrans(v, dirs, s1.vol, dirs1, s2.vol, dirs2, 0, "");
    FrameGrows(v, dirs, s1.vol, dirs1, 0, "");
    if s2.result.Ok? {
      NewThen(v, dirs, s1, dirs1, s2, dirs2, LowerAll(parts[1..]));
    }
    EntryKept(s1.vol, dirs1, s2.vol, dirs2, d, Lower(parts[0]), s1.result.value);
    assert LowerAll(parts)[1..] == LowerAll(parts[1..]);
    WalkStep(Abs(s2.vol, dirs2), d, LowerAll(parts), s1.result.value);
    NewOnPathThen(Abs(s2.vol, dirs2), dirs, dirs1, d, s1.result.value, LowerAll(parts));
  }

  lemma NewOnPathThen(fs: Fs, dirs: set<nat>, dirs1: set<nat>, d: nat, e: nat, keys: seq<string>)
    requires keys != [] && IsDirectoryEntry(fs, d, keys[0], e)
    requires dirs1 <= dirs + {e} && NewOnPath(fs, dirs1, e, keys[1..])
    ensures NewOnPath(fs, dirs, d, keys)
  {
    forall x | x in fs.dirs && x !in dirs
      ensures exists i :: 0 <= i <= |keys| && Walk(fs, d, keys[..i]) == Some(x)
    {
      if x in dirs1 {
        assert Walk(fs, e, keys[..1][1..]) == Some(x);
        assert Walk(fs, d, keys[..1]) == Some(x);
      } else {
        var i :| 0 <= i <= |keys[1..]| && Walk(fs, e, keys[1..][..i]) == Some(x);
        assert keys[..i + 1][1..] == keys[1..][..i];
        assert Walk(fs, d, keys[..i + 1]) == Some(x);
      }
    }
  }

  /** Once a directory had to be created, everything below it is new as well. */
  lemma NewThen(v: Volume, dirs: set<nat>, s1: Step<nat>, dirs1: set<nat>, s2: Step<nat>, dirs2: set<nat>, keys: seq<string>)
    requires Sound(v, dirs) && Sound(s1.vol, dirs1) && Sound(s2.vol, dirs2) && s1.result.Ok? && s2.result.Ok?
    requires dirs <= dirs1 && s1.result.value in dirs1
    requires UnchangedOrNew(v, dirs, s1.vol, dirs1, s1.result.value)
    requires UnchangedOrNew(s1.vol, dirs1, s2.vol, dirs2, s2.result.value)
    requires Walk(Abs(s2.vol, dirs2), s1.result.value, keys) == Some(s2.result.value)
    ensures UnchangedOrNew(v, dirs, s2.vol, dirs2, s2.result.value)
  {
    hide Inv, WellFormed, Cells, Listing;
  }

  lemma EntryKept(v: Volume, dirs: set<nat>, v': Volume, dirs': set<nat>, d: nat, k: string, c: nat)
    requires Sound(v, dirs) && Sound(v', dirs') && Frame(v, dirs, v', dirs', 0, "")
    requires IsDirectoryEntry(Abs(v, dirs), d, k, c)
    ensures IsDirectoryEntry(Abs(v', dirs'), d, k, c)
  {
    assert DirCluster(Abs(v, dirs), d);
    assert FileKept(v, dirs, v', dirs', d, k);
  }

  /** When all the directories exist already, nothing is changed. */
  lemma {:induction false} ResolveExisting(v: Volume, dirs: set<nat>, d: nat, parts: seq<string>)
    requires Sound(v, dirs) && d in dirs && ValidNames(parts)
    requires Walk(Abs(v, dirs), d, LowerAll(parts)).Some?
    ensures Resolve(v, d, parts) == Step(v, Ok(Walk(Abs(v, dirs), d, LowerAll(parts)).value))
    decreases |parts|
  {
    hide Cells, Listing, WellFormed, AddEntry, Allocate, FindEntry;
    if parts != [] {
      assert LowerAll(parts)[1..] == LowerAll(parts[1..]);
      assert Has(Abs(v, dirs), d, LowerAll(parts)[0]) && Owned(Abs(v, dirs), d, LowerAll(parts)[0]);
      FindEntryAbs(v, dirs, d, parts[0]);
      ResolveExisting(v, dirs, At(Abs(v, dirs), d, Lower(parts[0])).cluster, parts[1..]);
    }
  }

  // ------------------------------------------------------------- the code's walk

  /** The walk of read_path_file on the abstract directories. */
  ghost function Follow(fs: Fs, d: nat, parts: seq<string>, last: string): Outcome<Target, Error>
    requires parts != []
    decreases |parts|
  {
    var k := Lower(parts[0]);
    if !Has(fs, d, k) then Err(NotFound)
    else if parts[0] != last && !At(fs, d, k).IsDir() then Err(NotADirectory)
    else if |parts| == 1 then Ok(Target(d, k, At(fs, d, k)))
    else Follow(fs, if parts[0] != last then At(fs, d, k).cluster else d, parts[1..], last)
  }

  lemma {:induction false} LocateIsFollow(v: Volume, dirs: set<nat>, d: nat, parts: seq<string>, last: string)
    requires Sound(v, dirs) && d in dirs && parts != []
    ensures Locate(v, d, parts, last) == Follow(Abs(v, dirs), d, parts, last)
    decreases |parts|
  {
    hide Cells, Listing, WellFormed, FindEntry;
    FindEntryAbs(v, dirs, d, parts[0]);
    var fs, k := Abs(v, dirs), Lower(parts[0]);
    if Has(fs, d, k) && |parts| > 1 {
      if parts[0] == last {
        LocateIsFollow(v, dirs, d, parts[1..], last);
      } else if At(fs, d, k).IsDir() {
        assert Owned(fs, d, k);
        LocateIsFollow(v, dirs, At(fs, d, k).cluster, parts[1..], last);
      }
    }
  }

  /** No earlier component equals the last one, so read_path_file descends everywhere. */
  predicate Plain(parts: seq<string>)
    requires parts != []
  {
    forall i :: 0 <= i < |parts| - 1 ==> parts[i] != parts[|parts| - 1]
  }

  /** The entry a path names: the parent directory by its path, then the last name. */
  ghost function Named(fs: Fs, d: nat, parts: seq<string>): Option<Target>
    requires parts != []
  {
    var n := |parts| - 1;
    match Walk(fs, d, LowerAll(parts[..n]))
    case None => None
    case Some(e) => if Has(fs, e, Lower(parts[n])) then Some(Target(e, Lower(parts[n]), At(fs, e, Lower(parts[n])))) else None
  }

  /** On a plain path the walk of read_path_file finds exactly the entry the path names. */
  lemma {:induction false} FollowPlain(fs: Fs, d: nat, parts: seq<string>)
    requires parts != [] && Plain(parts)
    ensures var r := Follow(fs, d, parts, parts[|parts| - 1]);
      && (r.Ok? <==> Named(fs, d, parts).Some?)
      && (r.Ok? ==> r.value == Named(fs, d, parts).value)
      && (r.Err? ==> r.error in {NotFound, NotADirectory})
    decreases |parts|
  {
    var n := |parts| - 1;
    if n > 0 {
      var keys := LowerAll(parts[..n]);
      assert keys[0] == Lower(parts[0]);
      assert parts[1..][..n - 1] == parts[..n][1..];
      assert keys[1..] == LowerAll(parts[1..][..n - 1]);
      if Has(fs, d, keys[0]) && At(fs, d, keys[0]).IsDir() {
        FollowPlain(fs, At(fs, d, keys[0]).cluster, parts[1..]);
      }
    } else {
      assert parts[..0] == [];
    }
  }
}
