/** Removing the known boot files of earlier runs from the root directory. */
module FatxCleaning {
  import opened Bytes
  import opened FatDirectory
  import opened FatSlot
  import opened FatTable
  import opened FatxFs
  import opened FatxVolume
  import opened FatxSafety
  import opened FatxPaths
  import opened FatxTheorems
  import opened FatxStager
  import opened FatxGeometry
  import opened FatxImage
  import opened FatxFiles

  const KNOWN_BOOT_ROOT_FILES: seq<string> := [
    "linuxboot.cfg",
    "vmlinuz",
    "initramf",
    "devkrnl",
    "devinit",
    "devuan.ext2",
    "xkrnl",
    "xinit",
    "xdevuan.ext2",
    "pluskrnl",
    "plusinit",
    "plusdevuan.ext2",
    "plkrnl",
    "plinit",
    "pldevuan.ext2",
    "tfkrnl",
    "tfinit",
    "tfdevuan.ext2",
    "rakrnl",
    "rainit",
    "rdevuan.ext2",
    "ndkrnl",
    "ndinit",
    "nddevuan.ext2",
    "rwkrnl",
    "rwinit",
    "rwdebian.ext2",
    "pskrnl",
    "psinit",
    "psdebian.ext2"
  ]

  /** Removing names from the root directory one after the other. */
  function Cleaned(v: Volume, names: seq<string>): (s: Step<()>)
    requires v.Valid()
    ensures s.vol.Valid() && |s.vol.fat| == |v.fat| && s.vol.clusterSize == v.clusterSize
    decreases |names|
  {
    if names == [] then Step(v, Ok(()))
    else
      var s := RemoveEntry(v, FatxVolume.ROOT_CLUSTER, names[0]);
      if s.result.Err? then s else Cleaned(s.vol, names[1..])
  }

  lemma CleanOne(v: Volume, dirs: set<nat>, name: string) returns (dirs': set<nat>)
    requires Sound(v, dirs)
    ensures RemoveEntry(v, FatxVolume.ROOT_CLUSTER, name).result.Ok?
    ensures Sound(RemoveEntry(v, FatxVolume.ROOT_CLUSTER, name).vol, dirs')
  {
    hide Frame, WellFormed, Cells, Listing, RemoveEntry, FileKept;
    RootListed(v, dirs);
    dirs' := dirs;
    if Has(Abs(v, dirs), ROOT, Lower(name)) {
      assert Owned(Abs(v, dirs), ROOT, Lower(name));
      RemoveStep(v, dirs, ROOT, name);
      dirs' := Without(dirs, At(Abs(v, dirs), ROOT, Lower(name)));
    } else {
      RemoveAbsent(v, dirs, ROOT, name);
    }
  }

  /** Cleaning the root directory keeps the invariant, whatever the names are. */
  lemma {:induction false} CleaningKeepsInvariant(v: Volume, dirs: set<nat>, names: seq<string>) returns (dirs': set<nat>)
    requires Sound(v, dirs)
    ensures Cleaned(v, names).result.Ok? && Sound(Cleaned(v, names).vol, dirs')
    decreases |names|
  {
    hide Inv, Abs, DirsOk, RemoveEntry;
    dirs' := dirs;
    if names != [] {
      dirs' := CleanOne(v, dirs, names[0]);
      dirs' := CleaningKeepsInvariant(RemoveEntry(v, FatxVolume.ROOT_CLUSTER, names[0]).vol, dirs', names[1..]);
    }
  }

  method CleanNames(p: FatxPartition, names: seq<string>) returns (r: Outcome<(), Error>)
    requires p.Valid()
    modifies p
    ensures r == Cleaned(old(p.vol), names).result && Became(p, Cleaned(old(p.vol), names).vol)
  {
    hide VolumeOf, RemoveEntry;
    ghost var v := p.vol;
    var i := 0;
    assert names[0..] == names;
    while i < |names|
      invariant i <= |names| && p.Valid() && SameOutside(old(p.image), p.image, p.geo)
      invariant Cleaned(v, names) == Cleaned(p.vol, names[i..])
    {
      assert names[i..][1..] == names[i + 1..];
      r := RemoveDirectoryEntry(p, FatxVolume.ROOT_CLUSTER, names[i]);
      if r.Err? {
        return;
      }
      i := i + 1;
    }
    r := Ok(());
  }

  // ------------------------------------------------------------ what is removed

  /** Between i and the terminator the slots that hold the key have become deleted. */
  ghost predicate MarkedFrom(cells: seq<Cell>, cells': seq<Cell>, key: string, i: nat)
    requires i <= |cells|
  {
    && |cells'| == |cells|
    && forall j :: 0 <= j < |cells| ==>
         cells'[j] == if i <= j < End(cells, i) && Names(cells[j], key) then Gone else cells[j]
  }

  lemma MarkOne(cells: seq<Cell>, cells': seq<Cell>, key: string, i: nat)
    requires i < |cells| && Names(cells[i], key) && MarkedFrom(cells[i := Gone], cells', key, i + 1)
    ensures MarkedFrom(cells, cells', key, i)
  {
    SameEnd(cells, cells[i := Gone], i + 1);
  }

  lemma {:induction false} RemovedCells(fat: seq<nat>, d: seq<byte>, key: string, i: nat)
    requires i <= |d| / SLOT_SIZE
    ensures MarkedFrom(Cells(d), Cells(RemoveFrom(fat, d, key, i).1), key, i)
    decreases |d| / SLOT_SIZE - i
  {
    hide Cells, FreeChain, MarkedFrom;
    var cells := Cells(d);
    if i == |cells| || cells[i].Terminator? {
      NothingMarked(cells, key, i);
    } else if Names(cells[i], key) {
      var start := cells[i].meta.cluster;
      WriteMarker(d, i, DELETED);
      RemovedCells(if start != 0 then FreeChain(fat, start) else fat, d[SLOT_SIZE * i := DELETED], key, i + 1);
      MarkOne(cells, Cells(RemoveFrom(fat, d, key, i).1), key, i);
    } else {
      RemovedCells(fat, d, key, i + 1);
      SkipOne(cells, Cells(RemoveFrom(fat, d, key, i).1), key, i);
    }
  }

  lemma NothingMarked(cells: seq<Cell>, key: string, i: nat)
    requires i <= |cells| && (i < |cells| ==> cells[i].Terminator?)
    ensures MarkedFrom(cells, cells, key, i)
  {
  }

  lemma SkipOne(cells: seq<Cell>, cells': seq<Cell>, key: string, i: nat)
    requires i < |cells| && !cells[i].Terminator? && !Names(cells[i], key) && MarkedFrom(cells, cells', key, i + 1)
    ensures MarkedFrom(cells, cells', key, i)
  {
  }

  lemma {:induction false} SameEnd(cells: seq<Cell>, cells': seq<Cell>, i: nat)
    requires |cells'| == |cells| && i <= |cells|
    requires forall j :: i <= j < |cells| ==> cells'[j].Terminator? == cells[j].Terminator?
    ensures End(cells', i) == End(cells, i)
    decreases |cells| - i
  {
    if i < |cells| && !cells[i].Terminator? {
      SameEnd(cells, cells', i + 1);
    }
  }

  /** Cells that hold other entries may be exchanged for deleted ones. */
  lemma {:induction false} SameFind(cells: seq<Cell>, cells': seq<Cell>, k: string, i: nat)
    requires |cells'| == |cells| && i <= |cells|
    requires forall j :: i <= j < |cells| ==>
               cells'[j] == cells[j] || (cells'[j] == Gone && cells[j].Entry? && !Names(cells[j], k))
    ensures Find(cells', k, i) == Find(cells, k, i)
    decreases |cells| - i
  {
    if i < |cells| && !cells[i].Terminator? {
      SameFind(cells, cells', k, i + 1);
    }
  }

  /** Removing a name from any directory, well formed or not: afterwards it is not found
      there, and every other name is found as before, there and elsewhere. */
  lemma RemovedIsGone(v: Volume, d: nat, name: string, d': nat, other: string)
    requires v.Valid() && InTable(v.fat, d)
    ensures var s := RemoveEntry(v, d, name);
      && s.result.Ok?
      && FindEntry(s.vol, d', other) ==
         if d' == d && Lower(other) == Lower(name) then Ok(None) else FindEntry(v, d', other)
  {
    hide Cells, RemoveFrom, Lower, Find, End;
    var key := Lower(name);
    var s := RemoveEntry(v, d, name);
    var cells, cells' := Cells(v.data[d]), Cells(s.vol.data[d]);
    RemovedCells(v.fat, v.data[d], key, 0);
    SameEnd(cells, cells', 0);
    if d' == d && Lower(other) != key {
      SameFind(cells, cells', Lower(other), 0);
    }
  }

  ghost predicate AmongNames(names: seq<string>, name: string) {
    exists i :: 0 <= i < |names| && Lower(names[i]) == Lower(name)
  }

  /** Cleaning removes exactly the given names from the root directory. */
  lemma {:induction false} CleanedAreGone(v: Volume, names: seq<string>, d: nat, other: string)
    requires v.Valid() && |v.fat| > 1
    ensures Cleaned(v, names).result.Ok?
    ensures FindEntry(Cleaned(v, names).vol, d, other) ==
            if d == FatxVolume.ROOT_CLUSTER && AmongNames(names, other) then Ok(None) else FindEntry(v, d, other)
    decreases |names|
  {
    hide RemoveEntry, FindEntry, Lower;
    if names != [] {
      var s := RemoveEntry(v, FatxVolume.ROOT_CLUSTER, names[0]);
      RemovedIsGone(v, FatxVolume.ROOT_CLUSTER, names[0], d, other);
      CleanedAreGone(s.vol, names[1..], d, other);
      assert AmongNames(names, other) <==> Lower(names[0]) == Lower(other) || AmongNames(names[1..], other) by {
        assert forall i :: 1 <= i < |names| ==> names[i] == names[1..][i - 1];
        assert forall i :: 0 <= i < |names| - 1 ==> names[1..][i] == names[i + 1];
      }
    }
  }
}
