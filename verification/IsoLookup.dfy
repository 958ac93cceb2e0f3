/** Reading the view back from the bytes of the image alone, and what is found. */
module IsoLookup {
  import opened Bytes
  import opened IsoNames
  import opened IsoRecords
  import opened IsoTree
  import opened IsoSectors
  import opened IsoOverlay

  // -------------------------------------------------------------------- the reader

  /** The root directory record of the primary volume descriptor. */
  function RootRecord(s: seq<byte>): Option<Record> {
    var pvd := SectorOf(s, 16);
    if |pvd| == SECTOR_SIZE && pvd[0] == 1 && pvd[1..6] == STANDARD_ID then ReadRecord(pvd[156..190]) else None
  }

  function ReadDirectory(s: seq<byte>, r: Record): seq<Record> {
    ReadAll(Range(s, r.extent * SECTOR_SIZE, r.size))
  }

  /** From a directory downwards by identifiers: directories first, a file at the end. */
  function LookupFrom(s: seq<byte>, r: Record, ids: seq<seq<byte>>): Option<Record>
    requires ids != []
    decreases |ids|
  {
    if |ids| == 1 then FindRecord(ReadDirectory(s, r), ids[0], false)
    else match FindRecord(ReadDirectory(s, r), ids[0], true)
      case None => None
      case Some(d) => LookupFrom(s, d, ids[1..])
  }

  function Lookup(s: seq<byte>, ids: seq<seq<byte>>): Option<Record>
    requires ids != []
  {
    match RootRecord(s)
    case None => None
    case Some(r) => LookupFrom(s, r, ids)
  }

  /** The identifiers by which a path is looked up: its names in upper case, with a dot and
      version 1 behind the last. */
  ghost predicate Spells(ids: seq<seq<byte>>, p: Path) {
    && |ids| == |p| >= 1
    && (forall i :: 0 <= i < |p| - 1 ==> InUpperCase(ids[i], p[i]))
    && InUpperCase(ids[|p| - 1], Dotted(p[|p| - 1]) + ";1")
  }

  /** Every path can be looked up, and in one way only. */
  lemma SpellingOf(p: Path) returns (ids: seq<seq<byte>>)
    requires p != [] && CanonicalPath(p)
    ensures Spells(ids, p) && forall ids' :: Spells(ids', p) ==> ids' == ids
  {
    hide InUpperCase, Canonical, DirName, FileName, Dotted;
    forall i | 0 <= i < |p|
      ensures Ascii(p[i])
      ensures InUpperCase(DirName(p[i]), p[i]) && InUpperCase(FileName(p[i]), Dotted(p[i]) + ";1")
    {
      IdentifiersSpell(p[i]);
    }
    ids := seq(|p|, i requires 0 <= i < |p| => if i < |p| - 1 then DirName(p[i]) else FileName(p[i]));
    forall ids' | Spells(ids', p)
      ensures ids' == ids
    {
      forall i | 0 <= i < |p|
        ensures ids'[i] == ids[i]
      {
        SpellingUnique(ids'[i], ids[i], if i < |p| - 1 then p[i] else Dotted(p[i]) + ";1");
      }
    }
  }

  lemma SpellsFirst(ids: seq<seq<byte>>, p: Path)
    requires Spells(ids, p) && Canonical(p[0])
    ensures Ascii(p[0]) && ids[0] == if |p| == 1 then FileName(p[0]) else DirName(p[0])
    ensures |p| > 1 ==> Spells(ids[1..], p[1..])
  {
    hide InUpperCase, Canonical, DirName, FileName, Dotted;
    IdentifiersSpell(p[0]);
    if |p| == 1 {
      SpellingUnique(ids[0], FileName(p[0]), Dotted(p[0]) + ";1");
    } else {
      SpellingUnique(ids[0], DirName(p[0]), p[0]);
    }
  }

  /** The path table that the descriptor announces, in one of its two forms. */
  function ReadPathTable(s: seq<byte>, big: bool): seq<TableEntry> {
    var pvd := SectorOf(s, 16);
    if |pvd| != SECTOR_SIZE then []
    else
      var sector := if big then FromBigEndian(pvd[148..152]) else FromLittleEndian(pvd[140..144]);
      ReadTable(Range(s, sector * SECTOR_SIZE, FromLittleEndian(pvd[132..136])), big)
  }

  // ------------------------------------------------- which file a name stands for

  /** A name that ends with its only dot, without that dot. */
  function Bare(n: string): string {
    if |n| > 1 && n[|n| - 1] == '.' && '.' !in n[..|n| - 1] then n[..|n| - 1] else n
  }

  /** On the disc `x` and `x.` have the same name, and the first of them wins. */
  function Shown(names: set<string>, n: string): Option<string> {
    if Bare(n) in names then Some(Bare(n)) else if Dotted(n) in names then Some(Dotted(n)) else None
  }

  lemma SameFileName(a: string, n: string)
    requires Canonical(a) && Canonical(n)
    ensures FileName(a) == FileName(n) <==> a == Bare(n) || a == Dotted(n)
  {
    assert a != "" && n != "";
    hide Canonical, FileName;
    FileNameInjective(a, n);
    if a + "." == n && '.' !in a {
      assert n[..|n| - 1] == a;
    }
    if a == Bare(n) && a != n {
      assert n == a + ".";
      assert '.' !in a;
    }
  }

  lemma BareIsCanonical(n: string)
    requires Canonical(n)
    ensures Canonical(Bare(n))
  {
  }

  // --------------------------------------------------------- searching a directory

  lemma {:induction false} FindsFirst(rs: seq<Record>, name: seq<byte>, directory: bool, i: nat)
    requires i < |rs| && Matches(rs[i], name, directory)
    requires forall j :: 0 <= j < i ==> !Matches(rs[j], name, directory)
    ensures FindRecord(rs, name, directory) == Some(rs[i])
  {
    hide Matches;
    if i > 0 {
      assert rs[1..][i - 1] == rs[i];
      FindsFirst(rs[1..], name, directory, i - 1);
    }
  }

  lemma {:induction false} FindsNothing(rs: seq<Record>, name: seq<byte>, directory: bool)
    requires forall j :: 0 <= j < |rs| ==> !Matches(rs[j], name, directory)
    ensures FindRecord(rs, name, directory) == None
  {
  }

  /** A subdirectory is found exactly if there is one. */
  lemma FindDirectory(rs: seq<Record>, d: Dir, sectors: map<Path, nat>, c: string)
    requires Known(d, sectors) && Describes(rs, d, sectors) && Canonical(c)
    ensures FindRecord(rs, DirName(c), true)
            == if c in d.children then Some(Record(sectors[d.path + [c]], SECTOR_SIZE, DirName(c), DIRECTORY)) else None
  {
    hide DirName, SortedBy, Canonical, FileName;
    CanonicalAscii(c);
    var cs, ns :| Orders(cs, ns, d) && rs == AllRecords(cs, ns, d, sectors);
    OrdersKnown(cs, ns, d, sectors);
    HeadNames(c);
    forall i | 0 <= i < |rs| && Matches(rs[i], DirName(c), true)
      ensures 2 <= i < 2 + |cs| && cs[i - 2] == c
    {
      if 2 <= i < 2 + |cs| {
        DirNameInjective(cs[i - 2], c);
      }
    }
    if c in d.children {
      assert c in cs;
      var k :| 0 <= k < |cs| && cs[k] == c;
      assert rs[2 + k] == DirRecords(cs, d, sectors)[k];
      FindsFirst(rs, DirName(c), true, 2 + k);
    } else {
      FindsNothing(rs, DirName(c), true);
    }
  }

  lemma HeadNames(c: string)
    requires Canonical(c)
    ensures DirName(c) != SELF && DirName(c) != PARENT
  {
    assert DirName(c)[0] == Upper(c)[0] as int;
  }

  /** Which records a file name matches. */
  lemma FileMatches(cs: seq<string>, ns: seq<string>, d: Dir, sectors: map<Path, nat>, n: string, i: nat)
    requires Known(d, sectors) && Orders(cs, ns, d) && Canonical(n) && i < |AllRecords(cs, ns, d, sectors)|
    ensures Ascii(n) && |AllRecords(cs, ns, d, sectors)| == 2 + |cs| + |ns|
    ensures Matches(AllRecords(cs, ns, d, sectors)[i], FileName(n), false)
            <==> i >= 2 + |cs| && (ns[i - 2 - |cs|] == Bare(n) || ns[i - 2 - |cs|] == Dotted(n))
  {
    hide DirName, FileName, Bare, Dotted, Canonical, Orders, Known;
    CanonicalAscii(n);
    OrdersKnown(cs, ns, d, sectors);
    if i >= 2 + |cs| {
      SameFileName(ns[i - 2 - |cs|], n);
    }
  }

  lemma FileAt(cs: seq<string>, ns: seq<string>, d: Dir, sectors: map<Path, nat>, k: nat)
    requires Known(d, sectors) && Orders(cs, ns, d) && k < |ns|
    ensures ns[k] in d.files && Ascii(ns[k])
    ensures |AllRecords(cs, ns, d, sectors)| == 2 + |cs| + |ns|
    ensures AllRecords(cs, ns, d, sectors)[2 + |cs| + k] == FileRecord(ns[k], d.files[ns[k]])
  {
    hide DirName, FileName, Canonical, Orders, Known;
    OrdersKnown(cs, ns, d, sectors);
  }

  /** A file name leads to the file that it stands for. */
  lemma FindFile(rs: seq<Record>, d: Dir, sectors: map<Path, nat>, n: string)
    requires Known(d, sectors) && Describes(rs, d, sectors) && Canonical(n)
    ensures match Shown(d.files.Keys, n)
            case None => FindRecord(rs, FileName(n), false) == None
            case Some(w) => w in d.files && Ascii(w) && FindRecord(rs, FileName(n), false) == Some(FileRecord(w, d.files[w]))
  {
    hide DirName, FileName, Canonical, Shown, Upper, AllRecords, Known, Bare, Dotted, Matches, FindRecord, SortedBy;
    CanonicalAscii(n);
    var cs, ns :| Orders(cs, ns, d) && rs == AllRecords(cs, ns, d, sectors);
    match Shown(d.files.Keys, n) {
      case None =>
        NothingShown(d.files.Keys, n);
        forall i | 0 <= i < |rs|
          ensures !Matches(rs[i], FileName(n), false)
        {
          FileMatches(cs, ns, d, sectors, n, i);
          assert i >= 2 + |cs| ==> ns[i - 2 - |cs|] in ns;
        }
        FindsNothing(rs, FileName(n), false);
      case Some(w) =>
        SomethingShown(d.files.Keys, n, w);
        assert w in ns;
        var k :| 0 <= k < |ns| && ns[k] == w;
        FileAt(cs, ns, d, sectors, k);
        FileMatches(cs, ns, d, sectors, n, 2 + |cs| + k);
        forall j | 0 <= j < 2 + |cs| + k
          ensures !Matches(rs[j], FileName(n), false)
        {
          FileMatches(cs, ns, d, sectors, n, j);
          if j >= 2 + |cs| {
            ShownFirst(ns, d.files.Keys, n, j - 2 - |cs|, k);
          }
        }
        FindsFirst(rs, FileName(n), false, 2 + |cs| + k);
    }
  }

  lemma NothingShown(names: set<string>, n: string)
    requires Shown(names, n) == None
    ensures Bare(n) !in names && Dotted(n) !in names
  {
  }

  lemma SomethingShown(names: set<string>, n: string, w: string)
    requires Shown(names, n) == Some(w)
    ensures w in names && (w == Bare(n) || w == Dotted(n)) && (Bare(n) in names ==> w == Bare(n))
  {
  }

  /** No file that comes earlier has the name of the one that is shown. */
  lemma ShownFirst(ns: seq<string>, names: set<string>, n: string, j: nat, k: nat)
    requires Enumerates(ns, names) && SortedBy(ns, Same) && j < k < |ns| && Shown(names, n) == Some(ns[k])
    ensures ns[j] != Bare(n) && ns[j] != Dotted(n)
  {
    assert ns[j] in ns && ns[j] != ns[k];
    assert LessEq(Same(ns[j]), Same(ns[k]));
    if ns[j] == Dotted(n) && ns[k] == Bare(n) {
      assert Dotted(n) == Bare(n) + ".";
      PrefixFirst(".", Bare(n));
    }
  }

  // -------------------------------------------------------------------- walking down

  /** The image holds the sectors of all directories. */
  ghost predicate Holds(s: seq<byte>, ordered: seq<Dir>, sectors: map<Path, nat>) {
    forall i :: 0 <= i < |ordered| ==> SectorHolds(SectorOf(s, ordered[i].sector), ordered[i], sectors)
  }

  /** What a path should lead to, told from the extents alone. */
  ghost function Expected(e: Extents, p: Path): Option<Record>
    requires p != [] && forall k :: k in e ==> CanonicalPath(k)
  {
    match Shown(FileNames(e.Keys, ParentOf(p)), p[|p| - 1])
    case None => None
    case Some(w) =>
      ShownIsFile(e, p, w);
      Some(FileRecord(w, e[ParentOf(p) + [w]]))
  }

  lemma ShownIsFile(e: Extents, p: Path, w: string)
    requires p != [] && forall k :: k in e ==> CanonicalPath(k)
    requires Shown(FileNames(e.Keys, ParentOf(p)), p[|p| - 1]) == Some(w)
    ensures ParentOf(p) + [w] in e && Ascii(w)
  {
    hide FileNames, Canonical;
    InFileNames(e.Keys, ParentOf(p));
    var k := ParentOf(p) + [w];
    assert k in e && k[|k| - 1] == w;
    assert Canonical(w);
    CanonicalAscii(w);
  }

  lemma CanonicalAscii(w: string)
    requires Canonical(w)
    ensures Ascii(w)
  {
  }

  /** Nothing is expected below a directory that does not exist. */
  lemma NothingBelow(e: Extents, q: Path, p: Path)
    requires |p| >= 2 && q + [p[0]] !in DirPaths(e.Keys) && forall k :: k in e ==> CanonicalPath(k)
    ensures Expected(e, q + p) == None
  {
    hide Shown, CanonicalPath, DirPaths;
    var t := q + p;
    forall n
      ensures n !in FileNames(e.Keys, ParentOf(t))
    {
      InFileNames(e.Keys, ParentOf(t));
      if n in FileNames(e.Keys, ParentOf(t)) {
        var k := ParentOf(t) + [n];
        assert k[..|q| + 1] == q + [p[0]];
        PrefixIsDirectory(e.Keys, k, |q| + 1);
      }
    }
    assert FileNames(e.Keys, ParentOf(t)) == {};
    NotShown(p[|p| - 1]);
  }

  lemma ExpectedHere(e: Extents, q: Path, n: string)
    requires forall k :: k in e ==> CanonicalPath(k)
    ensures match Shown(FileNames(e.Keys, q), n)
            case None => Expected(e, q + [n]) == None
            case Some(w) => q + [w] in e && Ascii(w) && Expected(e, q + [n]) == Some(FileRecord(w, e[q + [w]]))
  {
    hide Shown, FileNames, CanonicalPath, FileName;
    var p := q + [n];
    assert ParentOf(p) == q && p[|p| - 1] == n;
    match Shown(FileNames(e.Keys, q), n) {
      case None =>
      case Some(w) => ShownIsFile(e, p, w);
    }
  }

  lemma NotShown(n: string)
    ensures Shown({}, n) == None
  {
  }

  lemma DirectoryRead(s: seq<byte>, ordered: seq<Dir>, sectors: map<Path, nat>, root: nat, first: nat, e: Extents, r: Record, q: Path)
    returns (d: Dir)
    requires Placed(ordered, sectors, root, first, e) && Holds(s, ordered, sectors)
    requires q in sectors && r.extent == sectors[q] && r.size == SECTOR_SIZE
    ensures d.path == q && Known(d, sectors) && Describes(ReadDirectory(s, r), d, sectors)
    ensures d.children == ChildrenIn(sectors.Keys, q) && d.files == FilesIn(e, e.Keys, q)
    ensures sectors.Keys == DirPaths(e.Keys)
  {
    hide Placed, DirPaths, ChildrenIn, FilesIn, Known, Describes, ReadAll, PlacedAt;
    var i := Position(ordered, sectors, root, first, e, q);
    AtPosition(ordered, sectors, root, first, e, i);
    d := ordered[i];
    assert SectorHolds(SectorOf(s, ordered[i].sector), ordered[i], sectors);
  }

  /** From any directory a path below it leads to what is expected there, and to nothing
      else. */
  lemma {:induction false} WalkIsExact(s: seq<byte>, ordered: seq<Dir>, sectors: map<Path, nat>, root: nat, first: nat, e: Extents,
                                       r: Record, q: Path, p: Path, ids: seq<seq<byte>>)
    requires Placed(ordered, sectors, root, first, e) && Holds(s, ordered, sectors)
    requires forall k :: k in e ==> CanonicalPath(k)
    requires q in sectors && r.extent == sectors[q] && r.size == SECTOR_SIZE
    requires p != [] && CanonicalPath(p) && Spells(ids, p)
    ensures LookupFrom(s, r, ids) == Expected(e, q + p)
    decreases |p|
  {
    hide Spells, Placed, Holds, Describes, Known, FindRecord, ReadDirectory, DirPaths, ChildrenIn, FilesIn, DirName,
         FileName, Canonical, Shown;
    var d := DirectoryRead(s, ordered, sectors, root, first, e, r, q);
    var rs := ReadDirectory(s, r);
    SpellsFirst(ids, p);
    OneForEach(ids, p);
    if |p| == 1 {
      assert p == [p[0]];
      FindFile(rs, d, sectors, p[0]);
      ExpectedHere(e, q, p[0]);
    } else {
      FindDirectory(rs, d, sectors, p[0]);
      InChildren(sectors.Keys, q);
      if p[0] in d.children {
        CanonicalAscii(p[0]);
        var next := q + [p[0]];
        assert next + p[1..] == q + p;
        WalkIsExact(s, ordered, sectors, root, first, e, Record(sectors[next], SECTOR_SIZE, DirName(p[0]), DIRECTORY), next, p[1..], ids[1..]);
      } else {
        NothingBelow(e, q, p);
      }
    }
  }

  lemma OneForEach(ids: seq<seq<byte>>, p: Path)
    requires Spells(ids, p)
    ensures |ids| == |p| >= 1
  {
  }

  // ------------------------------------------------------------------ the main results

  /** The image after the plan has been carried out holds everything that was planned. */
  lemma PlanHolds(s: seq<byte>, plan: seq<Placement>, ordered: seq<Dir>, sectors: map<Path, nat>, root: nat, l: nat, m: nat, total: nat)
    requires IsPlan(plan, ordered, sectors, root, l, m, total) && DistinctSectors(plan)
    ensures Holds(WriteAll(s, plan), ordered, sectors)
    ensures SectorOf(WriteAll(s, plan), 16) == plan[0].data
    ensures SectorOf(WriteAll(s, plan), l) == plan[2].data
    ensures SectorOf(WriteAll(s, plan), m) == plan[3].data
  {
    hide WriteAll, SectorOf, SectorHolds, IsPvd, Entries, EntriesFit, TableConcat, DistinctSectors,
         WholeSectors, PadRight;
    PlanIsWhole(plan, ordered, sectors, root, l, m, total);
    SectorsHold(s, plan, 0);
    SectorsHold(s, plan, 2);
    SectorsHold(s, plan, 3);
    forall i | 0 <= i < |ordered|
      ensures SectorHolds(SectorOf(WriteAll(s, plan), ordered[i].sector), ordered[i], sectors)
    {
      SectorsHold(s, plan, 4 + i);
      assert plan[4 + i].sector == ordered[i].sector;
    }
  }

  lemma RootFound(s: seq<byte>, root: nat, l: nat, m: nat, total: nat, tableSize: nat)
    requires IsPvd(SectorOf(s, 16), root, l, m, total, tableSize)
    ensures RootRecord(s) == Some(RootRecordOf(root))
  {
    hide ReadRecord, Both32, Both16, LittleEndian, BigEndian, RecordBytes, Padded, SectorOf;
    var pvd := SectorOf(s, 16);
    RecordRoundTrip(RootRecordOf(root), []);
    assert pvd[156..190] + [] == pvd[156..190];
    assert RecordBytes(RootRecordOf(root)) + [] == RecordBytes(RootRecordOf(root));
  }

  /** Walking the bytes of the image finds, for every path, exactly what is expected: the
      extent that was given for it, or nothing. */
  lemma ViewIsExact(s: seq<byte>, plan: seq<Placement>, ordered: seq<Dir>, sectors: map<Path, nat>,
                    root: nat, l: nat, m: nat, first: nat, total: nat, e: Extents, p: Path, ids: seq<seq<byte>>)
    requires Placed(ordered, sectors, root, first, e) && forall k :: k in e ==> CanonicalPath(k)
    requires IsPlan(plan, ordered, sectors, root, l, m, total) && DistinctSectors(plan)
    requires p != [] && CanonicalPath(p) && Spells(ids, p)
    ensures Lookup(WriteAll(s, plan), ids) == Expected(e, p)
  {
    hide Spells, WriteAll, Holds, IsPvd, SectorHolds, Entries, TableEncodable, TableConcat, DistinctSectors, Canonical,
         RootRecord, LookupFrom,
      Expected, Placed;
    OneForEach(ids, p);
    PlanHolds(s, plan, ordered, sectors, root, l, m, total);
    RootFound(WriteAll(s, plan), root, l, m, total, |TableConcat(Entries(ordered), false)|);
    DirectoriesPlaced(ordered, sectors, root, first, e);
    assert [] + p == p;
    WalkIsExact(WriteAll(s, plan), ordered, sectors, root, first, e, RootRecordOf(root), [], p, ids);
  }

  /** The record for a file: its sector and size, as they were given. */
  function OwnRecord(e: Extents, k: Path): Record
    requires k in e && k != [] && CanonicalPath(k)
  {
    Record(e[k].sector, e[k].size, FileName(k[|k| - 1]), 0)
  }

  /** No other file takes the name: that would be `x` beside `x.` with another extent. */
  ghost predicate Unshadowed(e: Extents, k: Path)
    requires k in e && k != []
  {
    var twin := ParentOf(k) + [Bare(k[|k| - 1])];
    twin in e ==> e[twin] == e[k]
  }

  /** Exactly which extents resolve to themselves. */
  lemma ExtentResolves(s: seq<byte>, plan: seq<Placement>, ordered: seq<Dir>, sectors: map<Path, nat>,
                       root: nat, l: nat, m: nat, first: nat, total: nat, e: Extents, k: Path, ids: seq<seq<byte>>)
    requires Placed(ordered, sectors, root, first, e) && forall x :: x in e ==> CanonicalPath(x)
    requires IsPlan(plan, ordered, sectors, root, l, m, total) && DistinctSectors(plan)
    requires k in e && k != [] && CanonicalPath(k) && Spells(ids, k)
    ensures Lookup(WriteAll(s, plan), ids) == Some(OwnRecord(e, k)) <==> Unshadowed(e, k)
  {
    hide Spells, WriteAll, IsPlan, Placed, DistinctSectors, Lookup, Canonical, Expected, OwnRecord, Unshadowed;
    ViewIsExact(s, plan, ordered, sectors, root, l, m, first, total, e, k, ids);
    ExpectedForKey(e, k);
  }

  lemma ExpectedForKey(e: Extents, k: Path)
    requires forall x :: x in e ==> CanonicalPath(x)
    requires k in e && k != [] && CanonicalPath(k)
    ensures Expected(e, k) == Some(OwnRecord(e, k)) <==> Unshadowed(e, k)
  {
    hide FileNames, Canonical, FileName, Bare, Dotted, Expected;
    var name := k[|k| - 1];
    assert k == ParentOf(k) + [name];
    InFileNames(e.Keys, ParentOf(k));
    assert Canonical(name);
    BareIsCanonical(name);
    BareOrDotted(name);
    CanonicalAscii(Bare(name));
    SameFileName(Bare(name), name);
    ExpectedHere(e, ParentOf(k), name);
  }

  /** Two files of one directory whose names differ by the dot only. */
  function Twins(): Extents {
    map[CONFIG := Extent(100, 1), ["x"] := Extent(101, 1), ["x."] := Extent(102, 1)]
  }

  function DottedTwin(): (p: Path)
    ensures |p| == 1 && CanonicalPath(p) && p in Twins() && Twins()[p] == Extent(102, 1)
  {
    assert Canonical("x.");
    ["x."]
  }

  /** However they are overlaid, the second one leads to the first one's sector. */
  lemma TwinIsShadowed(s: seq<byte>, plan: seq<Placement>, ordered: seq<Dir>, sectors: map<Path, nat>,
                       root: nat, l: nat, m: nat, first: nat, total: nat, ids: seq<seq<byte>>)
    requires Placed(ordered, sectors, root, first, Twins())
    requires IsPlan(plan, ordered, sectors, root, l, m, total) && DistinctSectors(plan)
    requires Spells(ids, DottedTwin()) && ids != []
    ensures var r := Lookup(WriteAll(s, plan), ids); r.Some? && r.value.extent == 101
  {
    hide Spells, WriteAll, IsPlan, Placed, DistinctSectors, Lookup, Expected, FileName, Twins, DottedTwin;
    TwinsExpected();
    ViewIsExact(s, plan, ordered, sectors, root, l, m, first, total, Twins(), DottedTwin(), ids);
  }

  lemma TwinsCanonical()
    ensures forall k :: k in Twins() ==> CanonicalPath(k)
    ensures ["x"] in Twins() && Twins()[["x"]].sector == 101
  {
    assert Canonical("x") && Canonical("x.") && Canonical("linuxboot.cfg");
  }

  /** The dotted name is expected to lead to the file of the bare name. */
  lemma DottedLeadsToBare(e: Extents, n: string)
    requires forall k :: k in e ==> CanonicalPath(k)
    requires [n] in e && Bare(n + ".") == n
    ensures Expected(e, [n + "."]).Some? && Expected(e, [n + "."]).value.extent == e[[n]].sector
  {
    hide FileName, Expected, CanonicalPath, FileNames, Bare, Dotted;
    InFileNames(e.Keys, []);
    assert [] + [n] == [n] && [] + [n + "."] == [n + "."];
    ExpectedHere(e, [], n + ".");
  }

  lemma TwinsExpected()
    ensures forall k :: k in Twins() ==> CanonicalPath(k)
    ensures Expected(Twins(), DottedTwin()).Some? && Expected(Twins(), DottedTwin()).value.extent == 101
  {
    hide Twins, Expected, CanonicalPath;
    TwinsCanonical();
    assert "x" + "." == "x." && "x."[..1] == "x";
    DottedLeadsToBare(Twins(), "x");
  }

  lemma BareOrDotted(n: string)
    ensures n == Bare(n) || n == Dotted(n)
  {
  }

  /** The contents of files lie outside the view: a range that the plan does not touch
      still holds its bytes. */
  lemma FileBytesKept(s: seq<byte>, plan: seq<Placement>, ordered: seq<Dir>, sectors: map<Path, nat>,
                      root: nat, l: nat, m: nat, total: nat, r: Record)
    requires IsPlan(plan, ordered, sectors, root, l, m, total)
    requires r.extent * SECTOR_SIZE + r.size <= |s| && Untouched(plan, r.extent * SECTOR_SIZE, r.size)
    ensures Range(WriteAll(s, plan), r.extent * SECTOR_SIZE, r.size) == Range(s, r.extent * SECTOR_SIZE, r.size)
  {
    hide IsPlan, WriteAll, Untouched;
    PlanIsWhole(plan, ordered, sectors, root, l, m, total);
    OthersKept(s, plan, r.extent * SECTOR_SIZE, r.size);
  }

  /** The first two records of every directory name the directory and its true parent. */
  lemma ParentRecords(s: seq<byte>, plan: seq<Placement>, ordered: seq<Dir>, sectors: map<Path, nat>,
                      root: nat, l: nat, m: nat, first: nat, total: nat, e: Extents, q: Path)
    requires Placed(ordered, sectors, root, first, e)
    requires IsPlan(plan, ordered, sectors, root, l, m, total) && DistinctSectors(plan)
    requires q in DirPaths(e.Keys)
    ensures q in sectors && ParentOf(q) in sectors
    ensures var rs := ReadAll(SectorOf(WriteAll(s, plan), sectors[q]));
            && |rs| >= 2
            && rs[0] == Record(sectors[q], SECTOR_SIZE, SELF, DIRECTORY)
            && rs[1] == Record(sectors[ParentOf(q)], SECTOR_SIZE, PARENT, DIRECTORY)
  {
    hide WriteAll, IsPlan, DistinctSectors, Placed, PlacedAt, DirPaths, Holds, ReadAll, SectorOf, ParentOf,
         Describes, Known;
    PlanHolds(s, plan, ordered, sectors, root, l, m, total);
    DirectoriesPlaced(ordered, sectors, root, first, e);
    var i := Position(ordered, sectors, root, first, e, q);
    AtPosition(ordered, sectors, root, first, e, i);
    ParentPosition(ordered, sectors, root, first, e, i);
    var j := ordered[i].parentIndex - 1;
    AtPosition(ordered, sectors, root, first, e, j);
    HeldAt(WriteAll(s, plan), ordered, sectors, i);
    HeadsRead(ReadAll(SectorOf(WriteAll(s, plan), sectors[q])), ordered[i], sectors);
  }

  lemma DirectoriesPlaced(ordered: seq<Dir>, sectors: map<Path, nat>, root: nat, first: nat, e: Extents)
    requires Placed(ordered, sectors, root, first, e)
    ensures sectors.Keys == DirPaths(e.Keys)
    ensures [] in sectors && sectors[[]] == root
  {
    hide DirPaths, Filled;
    assert PlacedAt(ordered, sectors, root, first, e, 0);
  }

  lemma HeldAt(s: seq<byte>, ordered: seq<Dir>, sectors: map<Path, nat>, i: nat)
    requires Holds(s, ordered, sectors) && i < |ordered|
    ensures Known(ordered[i], sectors) && Describes(ReadAll(SectorOf(s, ordered[i].sector)), ordered[i], sectors)
  {
    hide Known, Describes, ReadAll, SectorOf;
    assert SectorHolds(SectorOf(s, ordered[i].sector), ordered[i], sectors);
  }

  lemma HeadsRead(rs: seq<Record>, d: Dir, sectors: map<Path, nat>)
    requires Known(d, sectors) && Describes(rs, d, sectors)
    ensures |rs| >= 2 && rs[..2] == Heads(d)
    ensures rs[0] == Heads(d)[0] && rs[1] == Heads(d)[1]
  {
    hide Known, Orders;
    var cs, ns :| Orders(cs, ns, d) && rs == AllRecords(cs, ns, d, sectors);
  }

  /** Both path tables read back as the list of directories. */
  lemma PathTableRead(s: seq<byte>, plan: seq<Placement>, ordered: seq<Dir>, sectors: map<Path, nat>,
                      root: nat, l: nat, m: nat, total: nat, big: bool)
    requires IsPlan(plan, ordered, sectors, root, l, m, total) && DistinctSectors(plan)
    ensures ReadPathTable(WriteAll(s, plan), big) == Entries(ordered)
  {
    hide WriteAll, Holds, SectorHolds, Entries, TableEncodable, TableConcat, DistinctSectors, ReadTable,
         RecordBytes, Padded,
      LittleEndian, BigEndian, FromLittleEndian, FromBigEndian;
    PlanHolds(s, plan, ordered, sectors, root, l, m, total);
    var es := Entries(ordered);
    assert EntriesFit(es);
    var table, sector := TableConcat(es, big), if big then m else l;
    var s' := WriteAll(s, plan);
    SameLength(es);
    PvdNumbers(SectorOf(s', 16), root, l, m, total, |table|);
    PrefixOfSector(s', sector, table);
    TableRoundTrip(es, big);
  }

  lemma PvdNumbers(pvd: seq<byte>, root: nat, l: nat, m: nat, total: nat, tableSize: nat)
    requires IsPvd(pvd, root, l, m, total, tableSize)
    ensures FromLittleEndian(pvd[132..136]) == tableSize
    ensures FromLittleEndian(pvd[140..144]) == l && FromBigEndian(pvd[148..152]) == m
  {
    hide RecordBytes, Padded, LittleEndian, BigEndian, FromLittleEndian, FromBigEndian, Both16;
    Widths();
    RoundTrip(tableSize, 4);
    RoundTrip(l, 4);
    RoundTrip(m, 4);
    assert pvd[132..136] == pvd[132..140][..4];
    assert Both32(tableSize)[..4] == LittleEndian(tableSize, 4);
  }

  lemma PrefixOfSector(s: seq<byte>, sector: nat, data: seq<byte>)
    requires |data| <= SECTOR_SIZE && SectorOf(s, sector) == PadRight(data, SECTOR_SIZE)
    ensures Range(s, sector * SECTOR_SIZE, |data|) == data
  {
    assert data == PadRight(data, SECTOR_SIZE)[..|data|];
  }

  lemma NameAtPosition(ordered: seq<Dir>, sectors: map<Path, nat>, root: nat, first: nat, e: Extents, i: nat)
    requires Placed(ordered, sectors, root, first, e) && i < |ordered|
    ensures var p := ordered[i].path;
            if p == [] then ordered[i].isoName == [0] else InUpperCase(ordered[i].isoName, p[|p| - 1])
  {
    hide Placed, Canonical, DirName, InUpperCase, DirPaths, ChildrenIn, FilesIn;
    AtPosition(ordered, sectors, root, first, e, i);
    var p := ordered[i].path;
    if p != [] {
      assert Canonical(p[|p| - 1]);
      IdentifiersSpell(p[|p| - 1]);
    }
  }

  /** The number of the parent in a path table entry leads to the true parent, and the
      parent comes earlier, except for the root, which names itself. */
  lemma ParentNumbers(ordered: seq<Dir>, sectors: map<Path, nat>, root: nat, first: nat, e: Extents, i: nat)
    requires Placed(ordered, sectors, root, first, e) && i < |ordered|
    ensures var es := Entries(ordered);
            && es[i].sector == sectors[ordered[i].path]
            && 1 <= es[i].parent <= |es|
            && ordered[es[i].parent - 1].path == ParentOf(ordered[i].path)
            && (if ordered[i].path == [] then i == 0 && es[i].parent == 1 && es[i].name == [0]
                else es[i].parent <= i && InUpperCase(es[i].name, ordered[i].path[|ordered[i].path| - 1]))
  {
    hide Placed, PlacedAt, Canonical, DirName, InUpperCase, DirPaths, ChildrenIn, FilesIn, SectorFor;
    AtPosition(ordered, sectors, root, first, e, i);
    ParentPosition(ordered, sectors, root, first, e, i);
    NameAtPosition(ordered, sectors, root, first, e, i);
  }
}
