/** The directory tree over the given extents: which directories there are, in which
    order and sectors they are stored, and who their parents are. */
module IsoTree {
  import opened Bytes
  import opened IsoNames

  datatype Extent = Extent(sector: nat, size: nat)
  type Extents = map<Path, Extent>

  datatype Dir = Dir(
    path: Path,
    isoName: seq<byte>,
    sector: nat,
    parentSector: nat,
    parentIndex: nat,
    children: set<string>,
    files: map<string, Extent>)

  // --------------------------------------------------------------- the tree itself

  /** The root and every proper prefix of a key. */
  ghost function DirPaths(keys: set<Path>): set<Path> {
    {[]} + set k, i | k in keys && 0 <= i < |k| :: k[..i]
  }

  function ParentOf(p: Path): Path {
    if p == [] then [] else p[..|p| - 1]
  }

  ghost function ChildrenIn(dirs: set<Path>, p: Path): set<string> {
    set q | q in dirs && q != [] && ParentOf(q) == p :: q[|q| - 1]
  }

  ghost function FileNames(keys: set<Path>, p: Path): set<string> {
    set k | k in keys && k != [] && ParentOf(k) == p :: k[|k| - 1]
  }

  ghost function FilesIn(e: Extents, keys: set<Path>, p: Path): (files: map<string, Extent>)
    requires keys <= e.Keys
    ensures files.Keys == FileNames(keys, p)
    ensures forall n :: n in files ==> p + [n] in e && files[n] == e[p + [n]]
  {
    InFileNames(keys, p);
    map n | n in FileNames(keys, p) :: e[p + [n]]
  }

  lemma InFileNames(keys: set<Path>, p: Path)
    ensures forall n :: n in FileNames(keys, p) <==> p + [n] in keys
  {
    forall n
      ensures n in FileNames(keys, p) <==> p + [n] in keys
    {
      if p + [n] in keys {
        assert ParentOf(p + [n]) == p && (p + [n])[|p + [n]| - 1] == n;
      }
      if n in FileNames(keys, p) {
        var k :| k in keys && k != [] && ParentOf(k) == p && k[|k| - 1] == n;
        assert k == p + [n];
      }
    }
  }

  lemma InChildren(dirs: set<Path>, p: Path)
    ensures forall n :: n in ChildrenIn(dirs, p) <==> p + [n] in dirs
  {
    forall n
      ensures n in ChildrenIn(dirs, p) <==> p + [n] in dirs
    {
      if p + [n] in dirs {
        assert ParentOf(p + [n]) == p && (p + [n])[|p + [n]| - 1] == n;
      }
      if n in ChildrenIn(dirs, p) {
        var q :| q in dirs && q != [] && ParentOf(q) == p && q[|q| - 1] == n;
        assert q == p + [n];
      }
    }
  }

  /** The directories are closed under taking parents. */
  lemma ParentIsDirectory(keys: set<Path>, p: Path)
    requires p in DirPaths(keys)
    ensures ParentOf(p) in DirPaths(keys)
  {
    if p != [] {
      var k, i :| k in keys && 0 <= i < |k| && k[..i] == p;
      assert k[..i - 1] == ParentOf(p);
    }
  }

  lemma PrefixIsDirectory(keys: set<Path>, k: Path, i: nat)
    requires k in keys && i < |k|
    ensures k[..i] in DirPaths(keys)
  {
  }

  // ------------------------------------------------------------------ first pass

  /** The directory as the first pass leaves it: sectors and parents still open. */
  ghost predicate Filled(d: Dir, e: Extents, keys: set<Path>, dirs: set<Path>, p: Path)
    requires keys <= e.Keys
  {
    && d.path == p && CanonicalPath(p)
    && d.isoName == (if p == [] then [0] else DirName(p[|p| - 1]))
    && d.children == ChildrenIn(dirs, p)
    && d.files == FilesIn(e, keys, p)
  }

  ghost predicate Collected(dirs: map<Path, Dir>, e: Extents, keys: set<Path>) {
    keys <= e.Keys && forall p :: p in dirs ==> Filled(dirs[p], e, keys, dirs.Keys, p)
  }

  lemma OneMoreDirectory(dirs: set<Path>, cur: Path, name: string, p: Path)
    ensures ChildrenIn(dirs + {cur + [name]}, p) == if p == cur then ChildrenIn(dirs, p) + {name} else ChildrenIn(dirs, p)
  {
    InChildren(dirs, p);
    InChildren(dirs + {cur + [name]}, p);
    forall n
      ensures n in ChildrenIn(dirs + {cur + [name]}, p) <==> n in ChildrenIn(dirs, p) || (p == cur && n == name)
    {
      if p + [n] == cur + [name] {
        assert (p + [n])[..|p|] == p && (cur + [name])[..|cur|] == cur;
        assert (p + [n])[|p|] == n && (cur + [name])[|cur|] == name;
      }
    }
  }

  lemma OneMoreFile(e: Extents, keys: set<Path>, key: Path, p: Path)
    requires keys <= e.Keys && key in e && key != []
    ensures FilesIn(e, keys + {key}, p)
            == if p == ParentOf(key) then FilesIn(e, keys, p)[key[|key| - 1] := e[key]] else FilesIn(e, keys, p)
  {
    InFileNames(keys, p);
    InFileNames(keys + {key}, p);
    assert key == ParentOf(key) + [key[|key| - 1]];
    forall n
      ensures n in FileNames(keys + {key}, p) <==> n in FileNames(keys, p) || (p == ParentOf(key) && n == key[|key| - 1])
    {
      if p + [n] == key {
        assert key[..|p|] == p && key[|p|] == n;
      }
    }
  }

  lemma NewDirectoryIsEmpty(e: Extents, keys: set<Path>, dirs: set<Path>, p: Path)
    requires keys <= e.Keys && p !in dirs && Rooted(dirs, keys)
    ensures ChildrenIn(dirs, p) == {} && FilesIn(e, keys, p) == map[]
  {
  }

  /** The prefixes of length less than n. */
  ghost function Prefixes(key: Path, n: nat): set<Path>
    requires n <= |key|
  {
    set i | 0 <= i < n :: key[..i]
  }

  lemma OneMorePrefix(key: Path, n: nat)
    requires n < |key|
    ensures Prefixes(key, n + 1) == Prefixes(key, n) + {key[..n]}
  {
  }

  /** The root is there, and so are all parents. */
  ghost predicate Rooted(dirs: set<Path>, keys: set<Path>) {
    && [] in dirs
    && (forall k :: k in keys && k != [] ==> ParentOf(k) in dirs)
    && (forall q :: q in dirs && q != [] ==> ParentOf(q) in dirs)
  }

  lemma StillRooted(dirs: set<Path>, keys: set<Path>, current: Path, name: string)
    requires Rooted(dirs, keys) && current in dirs
    ensures Rooted(dirs + {current + [name]}, keys)
  {
    assert ParentOf(current + [name]) == current;
  }

  /** Makes sure that all directories on the way to a file exist. */
  method Descend(before: map<Path, Dir>, key: Path, e: Extents, ghost keys: set<Path>) returns (dirs: map<Path, Dir>)
    requires Collected(before, e, keys) && Rooted(before.Keys, keys) && key != [] && CanonicalPath(key)
    ensures Collected(dirs, e, keys)
    ensures dirs.Keys == before.Keys + Prefixes(key, |key|)
  {
    hide Collected, Rooted, ParentOf;
    dirs := before;
    var current: Path := [];
    var j := 0;
    FirstPrefix(before.Keys, keys, key);
    while j < |key| - 1
      invariant j <= |key| - 1 && current == key[..j] && current in dirs
      invariant Collected(dirs, e, keys) && Rooted(dirs.Keys, keys)
      invariant dirs.Keys == before.Keys + Prefixes(key, j + 1)
    {
      var next := current + [key[j]];
      assert next == key[..j + 1];
      OneMorePrefix(key, j + 1);
      StillRooted(dirs.Keys, keys, current, key[j]);
      if next !in dirs {
        dirs := AddChild(dirs, current, key[j], e, keys);
      } else {
        assert dirs.Keys + {next} == dirs.Keys;
      }
      current := next;
      j := j + 1;
    }
  }

  lemma FirstPrefix(dirs: set<Path>, keys: set<Path>, key: Path)
    requires Rooted(dirs, keys) && key != []
    ensures [] in dirs && key[..0] == [] && dirs + Prefixes(key, 1) == dirs
  {
    OneMorePrefix(key, 0);
    assert Prefixes(key, 0) == {};
  }

  method AddChild(before: map<Path, Dir>, current: Path, name: string, e: Extents, ghost keys: set<Path>)
    returns (dirs: map<Path, Dir>)
    requires Collected(before, e, keys) && Rooted(before.Keys, keys)
    requires current in before && current + [name] !in before && Canonical(name)
    ensures Collected(dirs, e, keys) && dirs.Keys == before.Keys + {current + [name]}
  {
    hide ChildrenIn, FilesIn, Rooted, Filled, DirName;
    var next := current + [name];
    var child := Dir(next, DirName(name), 0, before[current].sector, 0, {}, map[]);
    var parent := before[current];
    dirs := before[next := child][current := parent.(children := parent.children + {name})];
    NewDirectoryIsEmpty(e, keys, before.Keys, next);
    FilledFacts(parent, e, keys, before.Keys, current);
    assert dirs.Keys == before.Keys + {next};
    forall p | p in dirs
      ensures Filled(dirs[p], e, keys, dirs.Keys, p)
    {
      OneMoreDirectory(before.Keys, current, name, p);
      if p == next {
        NewFilled(child, e, keys, dirs.Keys, current, name);
      } else {
        FilledFacts(before[p], e, keys, before.Keys, p);
        StillFilled(before[p], dirs[p], e, keys, before.Keys, dirs.Keys, p);
      }
    }
  }

  lemma FilledFacts(d: Dir, e: Extents, keys: set<Path>, dirs: set<Path>, p: Path)
    requires keys <= e.Keys && Filled(d, e, keys, dirs, p)
    ensures d.path == p && CanonicalPath(p) && d.children == ChildrenIn(dirs, p)
  {
  }

  lemma NewFilled(d: Dir, e: Extents, keys: set<Path>, dirs: set<Path>, current: Path, name: string)
    requires keys <= e.Keys && CanonicalPath(current) && Canonical(name)
    requires d == Dir(current + [name], DirName(name), d.sector, d.parentSector, d.parentIndex, {}, map[])
    requires ChildrenIn(dirs, current + [name]) == {} && FilesIn(e, keys, current + [name]) == map[]
    ensures Filled(d, e, keys, dirs, current + [name])
  {
    hide ChildrenIn, FilesIn, DirName;
    assert (current + [name])[|current + [name]| - 1] == name;
  }

  lemma StillFilled(d: Dir, d': Dir, e: Extents, keys: set<Path>, dirs: set<Path>, dirs': set<Path>, p: Path)
    requires keys <= e.Keys && Filled(d, e, keys, dirs, p)
    requires d'.path == d.path && d'.isoName == d.isoName && d'.files == d.files
    requires d'.children == ChildrenIn(dirs', p)
    ensures Filled(d', e, keys, dirs', p)
  {
    hide ChildrenIn, FilesIn, DirName;
  }

  method AddFile(before: map<Path, Dir>, key: Path, e: Extents, ghost keys: set<Path>) returns (dirs: map<Path, Dir>)
    requires Collected(before, e, keys) && key in e && key != [] && ParentOf(key) in before
    ensures Collected(dirs, e, keys + {key}) && dirs.Keys == before.Keys
  {
    var parent := before[ParentOf(key)];
    dirs := before[ParentOf(key) := parent.(files := parent.files[key[|key| - 1] := e[key]])];
    forall p | p in dirs
      ensures Filled(dirs[p], e, keys + {key}, dirs.Keys, p)
    {
      OneMoreFile(e, keys, key, p);
      assert Filled(before[p], e, keys, before.Keys, p);
    }
  }

  lemma OneMoreKey(keys: set<Path>, key: Path)
    ensures DirPaths(keys + {key}) == DirPaths(keys) + Prefixes(key, |key|)
  {
    forall p
      ensures p in DirPaths(keys + {key}) <==> p in DirPaths(keys) || p in Prefixes(key, |key|)
    {
      if p in DirPaths(keys + {key}) && p != [] {
        var k, i :| k in keys + {key} && 0 <= i < |k| && k[..i] == p;
      }
    }
  }

  /** One file with all the directories on the way to it. */
  method AddKey(before: map<Path, Dir>, key: Path, e: Extents, ghost keys: set<Path>) returns (dirs: map<Path, Dir>)
    requires Collected(before, e, keys) && before.Keys == DirPaths(keys) && key in e && CanonicalPath(key)
    ensures Collected(dirs, e, keys + {key}) && dirs.Keys == DirPaths(keys + {key})
  {
    hide Collected, Rooted;
    OneMoreKey(keys, key);
    Parents(keys);
    if key != [] {
      var descended := Descend(before, key, e, keys);
      assert ParentOf(key) == key[..|key| - 1] && ParentOf(key) in Prefixes(key, |key|);
      dirs := AddFile(descended, key, e, keys);
    } else {
      RootKeyIsIgnored(before, e, keys);
      dirs := before;
      assert Prefixes(key, 0) == {};
    }
  }

  /** The first pass: one directory for every proper prefix of a key, each with its
      subdirectories and files. */
  method CollectDirectories(root: nat, e: Extents) returns (dirs: map<Path, Dir>)
    requires forall k :: k in e ==> CanonicalPath(k)
    ensures Collected(dirs, e, e.Keys) && dirs.Keys == DirPaths(e.Keys)
  {
    hide Collected, DirPaths, CanonicalPath;
    var keys := Sort(e.Keys, Join);
    dirs := map[[] := Dir([], [0], root, root, 1, {}, map[])];
    ghost var done: set<Path> := {};
    var i := 0;
    NewDirectoryIsEmptyAtStart(e, dirs[[]]);
    while i < |keys|
      invariant i <= |keys| && done == set j | 0 <= j < i :: keys[j]
      invariant Collected(dirs, e, done) && dirs.Keys == DirPaths(done)
    {
      assert keys[i] in keys && keys[i] in e.Keys;
      dirs := AddKey(dirs, keys[i], e, done);
      done := done + {keys[i]};
      i := i + 1;
    }
    AllEnumerated(keys, e.Keys, done);
  }

  lemma AllEnumerated(keys: seq<Path>, s: set<Path>, done: set<Path>)
    requires Enumerates(keys, s) && done == set j | 0 <= j < |keys| :: keys[j]
    ensures done == s
  {
    assert forall k :: k in done <==> k in keys;
  }

  lemma NewDirectoryIsEmptyAtStart(e: Extents, d: Dir)
    requires d.path == [] && d.isoName == [0] && d.children == {} && d.files == map[]
    ensures Collected(map[[] := d], e, {}) && (map[[] := d]).Keys == DirPaths({})
  {
    assert ChildrenIn({[]}, []) == {};
    assert FilesIn(e, {}, []) == map[];
    assert DirPaths({}) == {[]};
  }

  lemma Parents(keys: set<Path>)
    ensures Rooted(DirPaths(keys), keys)
  {
    forall k | k in keys && k != []
      ensures ParentOf(k) in DirPaths(keys)
    {
      PrefixIsDirectory(keys, k, |k| - 1);
    }
    forall q | q in DirPaths(keys) && q != []
      ensures ParentOf(q) in DirPaths(keys)
    {
      ParentIsDirectory(keys, q);
    }
  }

  lemma RootKeyIsIgnored(dirs: map<Path, Dir>, e: Extents, keys: set<Path>)
    requires Collected(dirs, e, keys) && [] in e
    ensures Collected(dirs, e, keys + {[]})
  {
    forall p | p in dirs
      ensures Filled(dirs[p], e, keys + {[]}, dirs.Keys, p)
    {
      InFileNames(keys, p);
      InFileNames(keys + {[]}, p);
      assert FileNames(keys + {[]}, p) == FileNames(keys, p);
      assert Filled(dirs[p], e, keys, dirs.Keys, p);
    }
  }

  // ----------------------------------------------------------------- second pass

  /** The directories in their final order, with sectors and parents. */
  ghost predicate Placed(ordered: seq<Dir>, sectors: map<Path, nat>, root: nat, first: nat, e: Extents) {
    && sectors.Keys == DirPaths(e.Keys)
    && ordered != [] && ordered[0].path == []
    && (forall i, j :: 0 <= i < j < |ordered| ==> ordered[i].path != ordered[j].path)
    && (forall p :: p in sectors ==> exists i :: 0 <= i < |ordered| && ordered[i].path == p)
    && (forall i :: 0 <= i < |ordered| ==> ordered[i].path in sectors && PlacedAt(ordered, sectors, root, first, e, i))
  }

  /** The directory at position i is complete: its parent is named by number and by
      sector, and comes earlier unless it is the root itself. */
  ghost predicate PlacedAt(ordered: seq<Dir>, sectors: map<Path, nat>, root: nat, first: nat, e: Extents, i: nat)
    requires i < |ordered| && ordered[i].path in sectors
  {
    var d := ordered[i];
    && Filled(d, e, e.Keys, DirPaths(e.Keys), d.path)
    && d.sector == sectors[d.path] == (if i == 0 then root else first + i - 1)
    && 1 <= d.parentIndex <= |ordered|
    && ordered[d.parentIndex - 1].path == ParentOf(d.path)
    && d.parentSector == ordered[d.parentIndex - 1].sector
    && (i > 0 ==> d.parentIndex <= i)
  }

  function SectorFor(root: nat, first: nat, i: nat): nat {
    if i == 0 then root else first + i - 1
  }

  /** The root, then everything else in order. */
  ghost predicate InOrder(paths: seq<Path>, dirs: set<Path>) {
    && paths != [] && paths[0] == []
    && Enumerates(paths, dirs)
    && SortedBy(paths, Join)
  }

  lemma RootFirst(below: seq<Path>, dirs: set<Path>)
    requires [] in dirs && Enumerates(below, dirs - {[]}) && SortedBy(below, Join)
    ensures InOrder([[]] + below, dirs)
  {
    var paths: seq<Path> := [[]] + below;
    forall i, j | 0 <= i < j < |paths|
      ensures paths[i] != paths[j] && LessEq(Join(paths[i]), Join(paths[j]))
    {
      assert paths[j] == below[j - 1] && below[j - 1] in below;
    }
  }

  /** In this order a parent comes before its children. */
  lemma ParentEarlier(paths: seq<Path>, dirs: set<Path>, i: nat, j: nat)
    requires InOrder(paths, dirs) && 0 < i < |paths| && j < |paths| && paths[j] == ParentOf(paths[i])
    requires CanonicalPath(paths[i])
    ensures j < i
  {
    hide Join, LessEq;
    assert paths[i] != [];
    assert j > i ==> LessEq(Join(paths[i]), Join(paths[j]));
    ParentFirst(paths[i]);
  }

  /** The tables from paths to sectors and to numbers. */
  method Tables(paths: seq<Path>, root: nat, first: nat) returns (sectors: map<Path, nat>, index: map<Path, nat>)
    requires forall i, j :: 0 <= i < j < |paths| ==> paths[i] != paths[j]
    ensures forall p :: p in paths <==> p in sectors
    ensures forall p :: p in paths <==> p in index
    ensures forall i :: 0 <= i < |paths| ==> sectors[paths[i]] == SectorFor(root, first, i) && index[paths[i]] == i + 1
  {
    hide SectorFor;
    sectors, index := map[], map[];
    var i := 0;
    while i < |paths|
      invariant i <= |paths|
      invariant forall p :: p in paths[..i] <==> p in sectors
      invariant forall p :: p in paths[..i] <==> p in index
      invariant forall j :: 0 <= j < i ==> paths[j] in paths[..i]
      invariant forall j :: 0 <= j < i ==> sectors[paths[j]] == SectorFor(root, first, j)
      invariant forall j :: 0 <= j < i ==> index[paths[j]] == j + 1
    {
      assert paths[..i + 1] == paths[..i] + [paths[i]];
      sectors := sectors[paths[i] := SectorFor(root, first, i)];
      index := index[paths[i] := i + 1];
      i := i + 1;
    }
    assert paths[..i] == paths;
  }

  /** The directory as the second pass completes it. */
  function Completed(d: Dir, sectors: map<Path, nat>, index: map<Path, nat>): Dir
    requires d.path in sectors && ParentOf(d.path) in sectors && ParentOf(d.path) in index
  {
    d.(sector := sectors[d.path], parentSector := sectors[ParentOf(d.path)], parentIndex := index[ParentOf(d.path)])
  }

  method CompleteAll(dirs: map<Path, Dir>, paths: seq<Path>, sectors: map<Path, nat>, index: map<Path, nat>, e: Extents)
    returns (ordered: seq<Dir>)
    requires Collected(dirs, e, e.Keys) && dirs.Keys == DirPaths(e.Keys) == sectors.Keys == index.Keys
    requires forall p :: p in paths ==> p in dirs
    ensures |ordered| == |paths|
    ensures forall i :: 0 <= i < |paths| ==> CompletedAt(dirs, paths[i], ordered[i], sectors, index)
  {
    hide DirPaths, Filled, ParentOf, Collected, Completed;
    ordered := [];
    var i := 0;
    while i < |paths|
      invariant i == |ordered| <= |paths|
      invariant forall j :: 0 <= j < i ==> CompletedAt(dirs, paths[j], ordered[j], sectors, index)
    {
      assert paths[i] in paths;
      ParentIsDirectory(e.Keys, paths[i]);
      FilledPath(dirs, e, paths[i]);
      ordered := ordered + [Completed(dirs[paths[i]], sectors, index)];
      i := i + 1;
    }
  }

  /** Both passes: the directories in the order of their paths, the root first. The root
      is its own parent. */
  method BuildDirectoryTree(root: nat, first: nat, e: Extents) returns (ordered: seq<Dir>, sectors: map<Path, nat>)
    requires forall k :: k in e ==> CanonicalPath(k)
    ensures Placed(ordered, sectors, root, first, e)
  {
    hide CanonicalPath, DirPaths, Filled, InOrder, ParentOf, Collected, Placed, CompletedAt, Enumerates,
         SortedBy, SectorFor;
    var dirs := CollectDirectories(root, e);
    var below := Sort(dirs.Keys - {[]}, Join);
    Parents(e.Keys);
    var paths: seq<Path> := [[]] + below;
    RootFirst(below, dirs.Keys);
    Distinct(paths, dirs.Keys);
    var index;
    sectors, index := Tables(paths, root, first);
    assert sectors.Keys == dirs.Keys;
    ordered := CompleteAll(dirs, paths, sectors, index, e);
    AllPlaced(dirs, paths, ordered, sectors, index, root, first, e);
  }

  ghost predicate CompletedAt(dirs: map<Path, Dir>, path: Path, d: Dir, sectors: map<Path, nat>, index: map<Path, nat>) {
    && path in dirs && dirs[path].path == path
    && path in sectors && ParentOf(path) in sectors && ParentOf(path) in index
    && d == Completed(dirs[path], sectors, index)
  }

  lemma Distinct(paths: seq<Path>, dirs: set<Path>)
    requires InOrder(paths, dirs)
    ensures paths != [] && paths[0] == []
    ensures forall i, j :: 0 <= i < j < |paths| ==> paths[i] != paths[j]
    ensures forall p :: p in paths <==> p in dirs
  {
  }

  lemma FilledPath(dirs: map<Path, Dir>, e: Extents, p: Path)
    requires Collected(dirs, e, e.Keys) && p in dirs
    ensures dirs[p].path == p && CanonicalPath(p)
    ensures Filled(dirs[p], e, e.Keys, dirs.Keys, p)
  {
  }

  lemma AllPlaced(dirs: map<Path, Dir>, paths: seq<Path>, ordered: seq<Dir>, sectors: map<Path, nat>, index: map<Path, nat>,
                  root: nat, first: nat, e: Extents)
    requires Collected(dirs, e, e.Keys) && dirs.Keys == DirPaths(e.Keys) == sectors.Keys == index.Keys
    requires InOrder(paths, dirs.Keys) && |ordered| == |paths|
    requires forall i :: 0 <= i < |paths| ==> paths[i] in sectors && paths[i] in index
    requires forall i :: 0 <= i < |paths| ==> sectors[paths[i]] == SectorFor(root, first, i) && index[paths[i]] == i + 1
    requires forall i :: 0 <= i < |paths| ==> CompletedAt(dirs, paths[i], ordered[i], sectors, index)
    ensures Placed(ordered, sectors, root, first, e)
  {
    hide CanonicalPath, DirPaths, Filled, InOrder, ParentOf, Collected, CompletedAt, PlacedAt;
    Distinct(paths, dirs.Keys);
    forall i | 0 <= i < |ordered|
      ensures ordered[i].path == paths[i]
    {
      CompletedFields(dirs, paths[i], ordered[i], sectors, index);
    }
    forall p | p in sectors
      ensures exists i :: 0 <= i < |ordered| && ordered[i].path == p
    {
      assert p in paths;
      var i :| 0 <= i < |paths| && paths[i] == p;
      assert ordered[i].path == p;
    }
    forall i | 0 <= i < |ordered|
      ensures ordered[i].path in sectors && PlacedAt(ordered, sectors, root, first, e, i)
    {
      ParentKnown(dirs, paths, e, i);
      var j :| 0 <= j < |paths| && paths[j] == ParentOf(paths[i]);
      OnePlaced(dirs, paths, ordered, sectors, index, root, first, e, i, j);
    }
  }

  lemma OnePlaced(dirs: map<Path, Dir>, paths: seq<Path>, ordered: seq<Dir>, sectors: map<Path, nat>, index: map<Path, nat>,
                  root: nat, first: nat, e: Extents, i: nat, j: nat)
    requires Collected(dirs, e, e.Keys) && dirs.Keys == DirPaths(e.Keys)
    requires InOrder(paths, dirs.Keys) && |ordered| == |paths| && i < |paths| && j < |paths| && paths[j] == ParentOf(paths[i])
    requires paths[i] in sectors && sectors[paths[i]] == SectorFor(root, first, i)
    requires paths[j] in sectors && paths[j] in index && index[paths[j]] == j + 1
    requires CompletedAt(dirs, paths[i], ordered[i], sectors, index)
    requires CompletedAt(dirs, paths[j], ordered[j], sectors, index)
    ensures ordered[i].path in sectors && PlacedAt(ordered, sectors, root, first, e, i)
  {
    hide CanonicalPath, DirPaths, Filled, InOrder, ParentOf, Collected, CompletedAt;
    CompletedFields(dirs, paths[i], ordered[i], sectors, index);
    CompletedFields(dirs, paths[j], ordered[j], sectors, index);
    FilledPath(dirs, e, paths[i]);
    FilledStill(dirs[paths[i]], ordered[i], e, dirs.Keys, paths[i]);
    if i > 0 {
      ParentEarlier(paths, dirs.Keys, i, j);
    }
  }

  lemma ParentKnown(dirs: map<Path, Dir>, paths: seq<Path>, e: Extents, i: nat)
    requires InOrder(paths, dirs.Keys) && dirs.Keys == DirPaths(e.Keys) && i < |paths|
    ensures paths[i] in dirs && ParentOf(paths[i]) in dirs && ParentOf(paths[i]) in paths
  {
    assert paths[i] in paths;
    ParentIsDirectory(e.Keys, paths[i]);
  }

  lemma CompletedFields(dirs: map<Path, Dir>, path: Path, d: Dir, sectors: map<Path, nat>, index: map<Path, nat>)
    requires CompletedAt(dirs, path, d, sectors, index)
    ensures d.path == path && path in dirs && path in sectors && d.sector == sectors[path]
    ensures ParentOf(path) in index && d.parentIndex == index[ParentOf(path)]
    ensures ParentOf(path) in sectors && d.parentSector == sectors[ParentOf(path)]
    ensures d.isoName == dirs[path].isoName && d.children == dirs[path].children && d.files == dirs[path].files
  {
  }

  lemma FilledStill(d: Dir, d': Dir, e: Extents, dirs: set<Path>, p: Path)
    requires Filled(d, e, e.Keys, dirs, p) && d'.path == p
    requires d'.isoName == d.isoName && d'.children == d.children && d'.files == d.files
    ensures Filled(d', e, e.Keys, dirs, p)
  {
  }
}
