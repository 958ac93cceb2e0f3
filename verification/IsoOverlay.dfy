/** Writing the overlay into an image. */
module IsoOverlay {
  import opened Bytes
  import opened IsoNames
  import opened IsoRecords
  import opened IsoTree
  import opened IsoSectors

  const CONFIG: Path := ["linuxboot.cfg"]

  // ------------------------------------------------------------ writing to an image

  /** The image file after seeking to off and writing data there: it grows when needed. */
  function Overwritten(s: seq<byte>, off: nat, data: seq<byte>): (r: seq<byte>)
    ensures |r| == if off + |data| <= |s| then |s| else off + |data|
  {
    Splice(PadRight(s, off + |data|), off, data)
  }

  class Image {
    var data: seq<byte>

    constructor (content: seq<byte>)
      ensures data == content
    {
      data := content;
    }

    method WriteAt(off: nat, content: seq<byte>)
      modifies this
      ensures data == Overwritten(old(data), off, content)
      ensures |old(data)| <= |data| && off + |content| <= |data|
      ensures forall i :: 0 <= i < |data| ==>
                data[i] == if off <= i < off + |content| then content[i - off]
                           else if i < |old(data)| then old(data)[i] else 0
    {
      if |data| < off + |content| {
        data := data + Zeros(off + |content| - |data|);
      }
      data := Splice(data, off, content);
    }
  }

  datatype Placement = Placement(sector: nat, data: seq<byte>)

  /** The image after some sectors have been written, one after the other. */
  function WriteAll(s: seq<byte>, plan: seq<Placement>): seq<byte> {
    if plan == [] then s
    else Overwritten(WriteAll(s, plan[..|plan| - 1]), plan[|plan| - 1].sector * SECTOR_SIZE, plan[|plan| - 1].data)
  }

  /** The n bytes at off, or nothing if the image is shorter. */
  function Range(s: seq<byte>, off: nat, n: nat): (r: seq<byte>)
    ensures r == [] || |r| == n
  {
    if off + n <= |s| then s[off..off + n] else []
  }

  function SectorOf(s: seq<byte>, sector: nat): seq<byte> {
    Range(s, sector * SECTOR_SIZE, SECTOR_SIZE)
  }

  ghost predicate WholeSectors(plan: seq<Placement>) {
    forall i :: 0 <= i < |plan| ==> |plan[i].data| == SECTOR_SIZE
  }

  ghost predicate DistinctSectors(plan: seq<Placement>) {
    forall i, j :: 0 <= i < j < |plan| ==> plan[i].sector != plan[j].sector
  }

  lemma OverwrittenSector(s: seq<byte>, sector: nat, data: seq<byte>, other: nat)
    requires |data| == SECTOR_SIZE
    ensures SectorOf(Overwritten(s, sector * SECTOR_SIZE, data), sector) == data
    ensures other != sector && SectorOf(s, other) != []
            ==> SectorOf(Overwritten(s, sector * SECTOR_SIZE, data), other) == SectorOf(s, other)
  {
  }

  /** Sectors that are written once hold what was written. */
  lemma {:induction false} SectorsHold(s: seq<byte>, plan: seq<Placement>, i: nat)
    requires WholeSectors(plan) && DistinctSectors(plan) && i < |plan|
    ensures SectorOf(WriteAll(s, plan), plan[i].sector) == plan[i].data
  {
    hide SectorOf, Overwritten;
    var last := |plan| - 1;
    OverwrittenSector(WriteAll(s, plan[..last]), plan[last].sector, plan[last].data, plan[i].sector);
    if i < last {
      SectorsHold(s, plan[..last], i);
      assert plan[..last][i] == plan[i];
    }
  }

  /** A range of the image that no written sector touches. */
  ghost predicate Untouched(plan: seq<Placement>, off: nat, n: nat) {
    forall i :: 0 <= i < |plan| ==>
      off + n <= plan[i].sector * SECTOR_SIZE || (plan[i].sector + 1) * SECTOR_SIZE <= off
  }

  /** Everything outside the written sectors stays as it was. */
  lemma {:induction false} OthersKept(s: seq<byte>, plan: seq<Placement>, off: nat, n: nat)
    requires WholeSectors(plan) && Untouched(plan, off, n) && off + n <= |s|
    ensures |WriteAll(s, plan)| >= |s|
    ensures Range(WriteAll(s, plan), off, n) == s[off..off + n]
  {
    if plan != [] {
      var last := |plan| - 1;
      OthersKept(s, plan[..last], off, n);
      assert plan[last].sector * SECTOR_SIZE + SECTOR_SIZE == (plan[last].sector + 1) * SECTOR_SIZE;
      RangeKept(WriteAll(s, plan[..last]), plan[last].sector * SECTOR_SIZE, plan[last].data, off, n);
    }
  }

  lemma RangeKept(s: seq<byte>, at: nat, data: seq<byte>, off: nat, n: nat)
    requires off + n <= |s| && (off + n <= at || at + |data| <= off)
    ensures Range(Overwritten(s, at, data), off, n) == Range(s, off, n)
  {
  }

  // --------------------------------------------------------------------- the plan

  /** What is written where: the descriptors, the two path tables, and the first n
      directories. */
  ghost predicate IsPlanUpTo(plan: seq<Placement>, n: nat, ordered: seq<Dir>, sectors: map<Path, nat>,
                             root: nat, l: nat, m: nat, total: nat)
  {
    && n <= |ordered| && |plan| == 4 + n
    && EntriesFit(Entries(ordered)) && |TableConcat(Entries(ordered), false)| <= SECTOR_SIZE
    && plan[0].sector == 16 && IsPvd(plan[0].data, root, l, m, total, |TableConcat(Entries(ordered), false)|)
    && plan[1] == Placement(17, Terminator())
    && plan[2] == Placement(l, PadRight(TableConcat(Entries(ordered), false), SECTOR_SIZE))
    && plan[3] == Placement(m, PadRight(TableConcat(Entries(ordered), true), SECTOR_SIZE))
    && forall i :: 0 <= i < n ==>
         plan[4 + i].sector == ordered[i].sector && SectorHolds(plan[4 + i].data, ordered[i], sectors)
  }

  ghost predicate IsPlan(plan: seq<Placement>, ordered: seq<Dir>, sectors: map<Path, nat>,
                         root: nat, l: nat, m: nat, total: nat)
  {
    IsPlanUpTo(plan, |ordered|, ordered, sectors, root, l, m, total)
  }

  lemma PlanIsWhole(plan: seq<Placement>, ordered: seq<Dir>, sectors: map<Path, nat>, root: nat, l: nat, m: nat, total: nat)
    requires IsPlan(plan, ordered, sectors, root, l, m, total)
    ensures WholeSectors(plan)
  {
    hide Entries, EntriesFit, TableConcat, Terminator, Describes, Known;
    SameLength(Entries(ordered));
    forall i | 0 <= i < |plan|
      ensures |plan[i].data| == SECTOR_SIZE
    {
      if i >= 4 {
        assert SectorHolds(plan[4 + (i - 4)].data, ordered[i - 4], sectors);
      }
    }
  }

  /** With the default sectors nothing is written twice, whatever the tree. */
  lemma DefaultSectorsDistinct(plan: seq<Placement>, ordered: seq<Dir>, sectors: map<Path, nat>, e: Extents, total: nat)
    requires IsPlan(plan, ordered, sectors, 18, 19, 20, total) && Placed(ordered, sectors, 18, 21, e)
    ensures DistinctSectors(plan)
  {
    hide Entries, EntriesFit, TableConcat, Terminator, SectorHolds, IsPvd, Placed;
    forall i | 0 <= i < |plan|
      ensures plan[i].sector == if i < 2 then 16 + i else if i < 4 then 17 + i else if i == 4 then 18 else 16 + i
    {
      if i >= 4 {
        AtPosition(ordered, sectors, 18, 21, e, i - 4);
        assert plan[4 + (i - 4)].sector == ordered[i - 4].sector;
      }
    }
  }

  /** What is known about the directory at a position. */
  lemma AtPosition(ordered: seq<Dir>, sectors: map<Path, nat>, root: nat, first: nat, e: Extents, i: nat)
    requires Placed(ordered, sectors, root, first, e) && i < |ordered|
    ensures ordered[i].path in sectors && PlacedAt(ordered, sectors, root, first, e, i)
    ensures sectors.Keys == DirPaths(e.Keys)
    ensures ordered[i].sector == SectorFor(root, first, i) == sectors[ordered[i].path]
    ensures CanonicalPath(ordered[i].path)
    ensures ordered[i].children == ChildrenIn(sectors.Keys, ordered[i].path)
    ensures ordered[i].files == FilesIn(e, e.Keys, ordered[i].path)
  {
    hide DirPaths, ChildrenIn, CanonicalPath, FilesIn;
  }

  /** The parent of the directory at a position: by number, by sector, and earlier. */
  lemma ParentPosition(ordered: seq<Dir>, sectors: map<Path, nat>, root: nat, first: nat, e: Extents, i: nat)
    requires Placed(ordered, sectors, root, first, e) && i < |ordered|
    ensures 1 <= ordered[i].parentIndex <= |ordered|
    ensures ordered[ordered[i].parentIndex - 1].path == ParentOf(ordered[i].path)
    ensures ordered[ordered[i].parentIndex - 1].sector == ordered[i].parentSector
    ensures if i == 0 then ordered[i].parentIndex == 1 else ordered[i].parentIndex <= i
    ensures ordered[i].path == [] <==> i == 0
  {
    hide DirPaths, Filled;
    assert PlacedAt(ordered, sectors, root, first, e, i);
  }

  /** Every directory has a position. */
  lemma Position(ordered: seq<Dir>, sectors: map<Path, nat>, root: nat, first: nat, e: Extents, p: Path) returns (i: nat)
    requires Placed(ordered, sectors, root, first, e) && p in sectors
    ensures i < |ordered| && ordered[i].path == p && ordered[i].sector == sectors[p]
  {
    hide DirPaths, Filled;
    i :| 0 <= i < |ordered| && ordered[i].path == p;
    assert PlacedAt(ordered, sectors, root, first, e, i);
  }

  /** The directories of a tree have what their sectors need. */
  lemma AllKnown(ordered: seq<Dir>, sectors: map<Path, nat>, root: nat, first: nat, e: Extents, i: nat)
    requires Placed(ordered, sectors, root, first, e) && i < |ordered|
    requires forall k :: k in e ==> CanonicalPath(k)
    ensures Known(ordered[i], sectors)
  {
    hide DirPaths, FileNames, ChildrenIn, Placed, PlacedAt, FilesIn, Canonical;
    var d := ordered[i];
    AtPosition(ordered, sectors, root, first, e, i);
    InChildren(sectors.Keys, d.path);
    forall c | c in d.children
      ensures Canonical(c) && d.path + [c] in sectors
    {
      var j := Position(ordered, sectors, root, first, e, d.path + [c]);
      AtPosition(ordered, sectors, root, first, e, j);
      assert (d.path + [c])[|d.path|] == c;
    }
    forall n | n in d.files
      ensures Canonical(n)
    {
      assert (d.path + [n])[|d.path|] == n;
    }
  }

  // ------------------------------------------------------------------ the program

  /** The directory cannot be written into one sector. */
  ghost predicate Unwritable(d: Dir, sectors: map<Path, nat>) {
    Known(d, sectors) && exists rs :: Describes(rs, d, sectors) && !FitsSector(rs)
  }

  /** Why an overlay with a configuration file fails: a number does not fit its field, or a
      table or directory does not fit a sector. */
  ghost predicate Impossible(ordered: seq<Dir>, sectors: map<Path, nat>, root: nat, l: nat, m: nat, total: nat) {
    || !EntriesFit(Entries(ordered))
    || |TableConcat(Entries(ordered), false)| > SECTOR_SIZE
    || !PvdEncodable(root, l, m, total, |TableConcat(Entries(ordered), false)|)
    || exists i :: 0 <= i < |ordered| && Unwritable(ordered[i], sectors)
  }

  /** Writes the directory sectors behind what has been written already, up to the first
      that cannot be written. */
  method WriteDirectories(image: Image, ordered: seq<Dir>, sectors: map<Path, nat>, ghost s: seq<byte>, ghost before: seq<Placement>)
    returns (r: Outcome<(), Error>, ghost plan: seq<Placement>)
    requires forall i :: 0 <= i < |ordered| ==> Known(ordered[i], sectors)
    requires image.data == WriteAll(s, before)
    modifies image
    ensures image.data == WriteAll(s, plan) && |before| <= |plan| <= |before| + |ordered| && plan[..|before|] == before
    ensures forall i :: 0 <= i < |plan| - |before| ==>
              plan[|before| + i].sector == ordered[i].sector && SectorHolds(plan[|before| + i].data, ordered[i], sectors)
    ensures r.Ok? <==> forall i :: 0 <= i < |ordered| ==> !Unwritable(ordered[i], sectors)
    ensures r.Ok? ==> |plan| == |before| + |ordered|
    ensures r.Err? ==> |plan| < |before| + |ordered| && Unwritable(ordered[|plan| - |before|], sectors)
    ensures r != Err(MissingConfig)
  {
    hide Known, Describes, FitsSector, SectorHolds, Overwritten, NamedInUpperCase, ReadAll, Concat, AllEncodable;
    plan := before;
    var i := 0;
    while i < |ordered|
      invariant i <= |ordered| && |plan| == |before| + i && plan[..|before|] == before && image.data == WriteAll(s, plan)
      invariant forall j :: 0 <= j < i ==> !Unwritable(ordered[j], sectors)
      invariant forall j :: 0 <= j < i ==>
                  plan[|before| + j].sector == ordered[j].sector && SectorHolds(plan[|before| + j].data, ordered[j], sectors)
    {
      var sector := BuildDirectorySector(ordered[i], sectors);
      if sector.Err? {
        return Err(sector.error), plan;
      }
      image.WriteAt(ordered[i].sector * SECTOR_SIZE, sector.value);
      ghost var longer := plan + [Placement(ordered[i].sector, sector.value)];
      assert longer[..|longer| - 1] == plan;
      assert longer[..|before|] == plan[..|before|];
      plan := longer;
      i := i + 1;
    }
    r := Ok(());
  }

  /** Adds the ISO9660 view to the image. The ghost results name the tree and the part of
      the plan that was carried out: all of it exactly if nothing is impossible, else
      nothing or everything before the first directory that cannot be written. */
  method Overlay(image: Image, e: Extents, root: nat, l: nat, m: nat, first: nat)
    returns (r: Outcome<(), Error>, ghost ordered: seq<Dir>, ghost sectors: map<Path, nat>, ghost plan: seq<Placement>)
    requires forall k :: k in e ==> CanonicalPath(k)
    modifies image
    ensures r == Err(MissingConfig) <==> CONFIG !in e
    ensures CONFIG in e ==> Placed(ordered, sectors, root, first, e)
    ensures image.data == WriteAll(old(image.data), plan)
    ensures r.Ok? <==> CONFIG in e && !Impossible(ordered, sectors, root, l, m, |old(image.data)| / SECTOR_SIZE)
    ensures r.Ok? ==> IsPlan(plan, ordered, sectors, root, l, m, |old(image.data)| / SECTOR_SIZE)
    ensures r.Err? ==> plan == []
                       || (4 <= |plan| < 4 + |ordered| && Unwritable(ordered[|plan| - 4], sectors)
                           && IsPlanUpTo(plan, |plan| - 4, ordered, sectors, root, l, m, |old(image.data)| / SECTOR_SIZE))
  {
    hide Entries, EntriesFit, TableConcat, Terminator, SectorHolds, IsPvd, Overwritten, Placed, PvdEncodable,
         CanonicalPath,
      Known, Unwritable, PadRight;
    ordered, sectors, plan := [], map[], [];
    if CONFIG !in e {
      return Err(MissingConfig), ordered, sectors, plan;
    }
    var total := |image.data| / SECTOR_SIZE;
    var dirs, where := BuildDirectoryTree(root, first, e);
    ordered, sectors := dirs, where;
    var tables := PathTable(dirs);
    if tables.Err? {
      return Err(NotEncodable), ordered, sectors, plan;
    }
    SameLength(Entries(dirs));
    if |tables.value.0| > SECTOR_SIZE || |tables.value.1| > SECTOR_SIZE {
      return Err(TableTooLong), ordered, sectors, plan;
    }
    var pvd := BuildPvd(root, l, m, total, |tables.value.0|);
    if pvd.Err? {
      return Err(NotEncodable), ordered, sectors, plan;
    }
    var terminator := BuildTerminator();
    var head := [
      Placement(16, pvd.value),
      Placement(17, terminator),
      Placement(l, PadRight(tables.value.0, SECTOR_SIZE)),
      Placement(m, PadRight(tables.value.1, SECTOR_SIZE))];
    var i := 0;
    while i < |head|
      invariant i <= |head| && image.data == WriteAll(old(image.data), head[..i])
    {
      image.WriteAt(head[i].sector * SECTOR_SIZE, head[i].data);
      assert head[..i + 1][..i] == head[..i];
      i := i + 1;
    }
    assert head[..i] == head;
    forall j | 0 <= j < |ordered|
      ensures Known(ordered[j], sectors)
    {
      AllKnown(ordered, sectors, root, first, e, j);
    }
    r, plan := WriteDirectories(image, dirs, where, old(image.data), head);
    assert plan[..4] == head;
    assert plan[0] == head[0] && plan[1] == head[1] && plan[2] == head[2] && plan[3] == head[3];
  }
}
