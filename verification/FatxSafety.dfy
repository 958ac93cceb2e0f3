/** Every operation on a volume keeps the file system invariant, and moves nothing
    but what it is asked to change. */
module FatxSafety {
  import opened Bytes
  import opened FatTable
  import opened FatAlloc
  import opened FatDirectory
  import opened FatSlot
  import opened FatxFs
  import opened FatxVolume

  ghost predicate DirsIn(v: Volume, dirs: set<nat>) {
    forall d :: d in dirs ==> 1 <= d < |v.data|
  }

  /** The abstract file system whose directories are the clusters in dirs. */
  ghost function Abs(v: Volume, dirs: set<nat>): Fs
    requires v.Valid() && DirsIn(v, dirs)
  {
    Fs(v.fat, map d | d in dirs :: Listing(Cells(v.data[d])))
  }

  ghost predicate DirsOk(v: Volume, dirs: set<nat>)
    requires v.Valid()
  {
    DirsIn(v, dirs) && forall d :: d in dirs ==> WellFormed(Cells(v.data[d]))
  }

  ghost predicate Sound(v: Volume, dirs: set<nat>) {
    v.Valid() && DirsOk(v, dirs) && Inv(Abs(v, dirs))
  }

  /** The entry and its chain are kept, and so are the clusters of a file. */
  ghost predicate FileKept(v: Volume, dirs: set<nat>, v': Volume, dirs': set<nat>, d: nat, k: string)
    requires Sound(v, dirs) && Sound(v', dirs')
  {
    && Kept(Abs(v, dirs), Abs(v', dirs'), d, k)
    && |v'.data| == |v.data|
    && (!At(Abs(v, dirs), d, k).IsDir() ==>
          forall c :: c in ChainOf(Abs(v, dirs), d, k) ==> v'.data[c] == v.data[c])
  }

  /** A directory that did not exist before. */
  ghost predicate NewDirectoryEntry(fs: Fs, d: nat, k: string, dirs: set<nat>) {
    Has(fs, d, k) && At(fs, d, k).IsDir() && At(fs, d, k).cluster !in dirs
  }

  /** Everything but possibly the entry k0 of directory d0 is kept, and apart from that
      entry nothing appears but new directories. */
  ghost predicate Frame(v: Volume, dirs: set<nat>, v': Volume, dirs': set<nat>, d0: nat, k0: string)
    requires Sound(v, dirs) && Sound(v', dirs')
  {
    && dirs <= dirs'
    && (forall d, k :: Has(Abs(v, dirs), d, k) && (d != d0 || k != k0) ==> FileKept(v, dirs, v', dirs', d, k))
    && (forall d, k :: Has(Abs(v', dirs'), d, k) && (d != d0 || k != k0) ==>
          FileKept(v, dirs, v', dirs', d, k) || NewDirectoryEntry(Abs(v', dirs'), d, k, dirs))
  }

  lemma KeptTrans(v: Volume, dirs: set<nat>, v1: Volume, dirs1: set<nat>, v2: Volume, dirs2: set<nat>, d: nat, k: string)
    requires Sound(v, dirs) && Sound(v1, dirs1) && Sound(v2, dirs2)
    requires FileKept(v, dirs, v1, dirs1, d, k) && FileKept(v1, dirs1, v2, dirs2, d, k)
    ensures FileKept(v, dirs, v2, dirs2, d, k)
  {
  }

  lemma FrameTrans(v: Volume, dirs: set<nat>, v1: Volume, dirs1: set<nat>, v2: Volume, dirs2: set<nat>, d0: nat, k0: string)
    requires Sound(v, dirs) && Sound(v1, dirs1) && Sound(v2, dirs2)
    requires Frame(v, dirs, v1, dirs1, d0, k0) && Frame(v1, dirs1, v2, dirs2, d0, k0)
    ensures Frame(v, dirs, v2, dirs2, d0, k0)
  {
    hide Inv, WellFormed, Cells, Listing;
    forall d, k | Has(Abs(v, dirs), d, k) && (d != d0 || k != k0)
      ensures FileKept(v, dirs, v2, dirs2, d, k)
    {
      KeptTrans(v, dirs, v1, dirs1, v2, dirs2, d, k);
    }
    forall d, k | Has(Abs(v2, dirs2), d, k) && (d != d0 || k != k0)
      ensures FileKept(v, dirs, v2, dirs2, d, k) || NewDirectoryEntry(Abs(v2, dirs2), d, k, dirs)
    {
      if FileKept(v1, dirs1, v2, dirs2, d, k) && FileKept(v, dirs, v1, dirs1, d, k) {
        KeptTrans(v, dirs, v1, dirs1, v2, dirs2, d, k);
      }
    }
  }

  lemma FrameGrows(v: Volume, dirs: set<nat>, v': Volume, dirs': set<nat>, d0: nat, k0: string)
    requires Sound(v, dirs) && Sound(v', dirs') && Frame(v, dirs, v', dirs', d0, k0)
    ensures dirs <= dirs'
  {
  }

  lemma FrameWeaken(v: Volume, dirs: set<nat>, v': Volume, dirs': set<nat>, d0: nat, k0: string)
    requires Sound(v, dirs) && Sound(v', dirs') && Frame(v, dirs, v', dirs', 0, "")
    ensures Frame(v, dirs, v', dirs', d0, k0)
  {
    hide Cells, Listing, WellFormed;
    assert forall d :: d in dirs' ==> DirCluster(Abs(v', dirs'), d);
    assert forall d :: d in dirs ==> DirCluster(Abs(v, dirs), d);
  }

  /** What is kept when the entry (d0, k0) is written and may have named a directory: every
      other entry whose directory is still there, with its chain and the clusters of its
      file. Only the directory that (d0, k0) named can be gone, and apart from (d0, k0)
      nothing appears but new directories. */
  ghost predicate Around(v: Volume, dirs: set<nat>, v': Volume, dirs': set<nat>, d0: nat, k0: string)
    requires Sound(v, dirs) && Sound(v', dirs')
  {
    && (forall d :: d in dirs && d !in dirs' ==> IsDirectoryEntry(Abs(v, dirs), d0, k0, d))
    && (forall d, k :: Has(Abs(v, dirs), d, k) && (d != d0 || k != k0) && d in dirs' ==>
          FileKept(v, dirs, v', dirs', d, k))
    && (forall d, k :: Has(Abs(v', dirs'), d, k) && (d != d0 || k != k0) ==>
          FileKept(v, dirs, v', dirs', d, k) || NewDirectoryEntry(Abs(v', dirs'), d, k, dirs))
  }

  lemma FrameIsAround(v: Volume, dirs: set<nat>, v': Volume, dirs': set<nat>, d0: nat, k0: string)
    requires Sound(v, dirs) && Sound(v', dirs') && Frame(v, dirs, v', dirs', d0, k0)
    ensures Around(v, dirs, v', dirs', d0, k0)
  {
    hide Inv, WellFormed, Cells, Listing, FileKept, NewDirectoryEntry;
  }

  /** The cluster of a directory entry is a directory. */
  lemma DirectoryListed(v: Volume, dirs: set<nat>, d: nat, k: string)
    requires Sound(v, dirs) && Has(Abs(v, dirs), d, k) && At(Abs(v, dirs), d, k).IsDir()
    ensures At(Abs(v, dirs), d, k).cluster in dirs
  {
    hide WellFormed, Cells, Listing;
    assert Owned(Abs(v, dirs), d, k);
  }

  /** What two kept steps, or a new directory that is then kept, amount to. */
  lemma KeptThen(v: Volume, dirs: set<nat>, v1: Volume, dirs1: set<nat>, v2: Volume, dirs2: set<nat>, d: nat, k: string)
    requires Sound(v, dirs) && Sound(v1, dirs1) && Sound(v2, dirs2) && FileKept(v1, dirs1, v2, dirs2, d, k)
    ensures FileKept(v, dirs, v1, dirs1, d, k) ==> FileKept(v, dirs, v2, dirs2, d, k)
    ensures NewDirectoryEntry(Abs(v1, dirs1), d, k, dirs) ==> NewDirectoryEntry(Abs(v2, dirs2), d, k, dirs)
    ensures Has(Abs(v1, dirs1), d, k)
  {
    hide Inv, WellFormed, Cells, Listing;
  }

  /** First the entry is taken away, then a file is entered in its place. */
  lemma AroundThenFrame(v: Volume, dirs: set<nat>, v1: Volume, dirs1: set<nat>, v2: Volume, d0: nat, k0: string)
    requires Sound(v, dirs) && Sound(v1, dirs1) && Sound(v2, dirs1)
    requires Around(v, dirs, v1, dirs1, d0, k0) && Frame(v1, dirs1, v2, dirs1, d0, k0)
    ensures Around(v, dirs, v2, dirs1, d0, k0)
  {
    hide Inv, WellFormed, Cells, Listing, FileKept;
    forall d, k | Has(Abs(v, dirs), d, k) && (d != d0 || k != k0) && d in dirs1
      ensures FileKept(v, dirs, v2, dirs1, d, k)
    {
      KeptHas(v, dirs, v1, dirs1, d, k);
      KeptThen(v, dirs, v1, dirs1, v2, dirs1, d, k);
    }
    forall d, k | Has(Abs(v2, dirs1), d, k) && (d != d0 || k != k0)
      ensures FileKept(v, dirs, v2, dirs1, d, k) || NewDirectoryEntry(Abs(v2, dirs1), d, k, dirs)
    {
      if At(Abs(v2, dirs1), d, k).IsDir() {
        DirectoryListed(v2, dirs1, d, k);
      }
      KeptThen(v, dirs, v1, dirs1, v2, dirs1, d, k);
    }
  }

  lemma KeptHas(v: Volume, dirs: set<nat>, v': Volume, dirs': set<nat>, d: nat, k: string)
    requires Sound(v, dirs) && Sound(v', dirs') && FileKept(v, dirs, v', dirs', d, k)
    ensures Has(Abs(v, dirs), d, k) && Has(Abs(v', dirs'), d, k)
    ensures At(Abs(v', dirs'), d, k) == At(Abs(v, dirs), d, k)
  {
    hide Inv, WellFormed, Cells, Listing;
  }

  /** First directories are created, then an entry is written around the rest. */
  lemma FrameThenAround(v: Volume, dirs: set<nat>, v1: Volume, dirs1: set<nat>, v2: Volume, dirs2: set<nat>, d0: nat, k0: string)
    requires Sound(v, dirs) && Sound(v1, dirs1) && Sound(v2, dirs2) && dirs2 <= dirs1 && 0 !in dirs && 0 !in dirs1
    requires Frame(v, dirs, v1, dirs1, 0, "") && Around(v1, dirs1, v2, dirs2, d0, k0)
    ensures Around(v, dirs, v2, dirs2, d0, k0)
  {
    hide Inv, WellFormed, Cells, Listing, FileKept;
    forall d | d in dirs && d !in dirs2
      ensures IsDirectoryEntry(Abs(v, dirs), d0, k0, d)
    {
      assert IsDirectoryEntry(Abs(v1, dirs1), d0, k0, d);
      assert FileKept(v, dirs, v1, dirs1, d0, k0);
      KeptHas(v, dirs, v1, dirs1, d0, k0);
    }
    forall d, k | Has(Abs(v, dirs), d, k) && (d != d0 || k != k0) && d in dirs2
      ensures FileKept(v, dirs, v2, dirs2, d, k)
    {
      assert FileKept(v, dirs, v1, dirs1, d, k);
      KeptHas(v, dirs, v1, dirs1, d, k);
      KeptThen(v, dirs, v1, dirs1, v2, dirs2, d, k);
    }
    forall d, k | Has(Abs(v2, dirs2), d, k) && (d != d0 || k != k0)
      ensures FileKept(v, dirs, v2, dirs2, d, k) || NewDirectoryEntry(Abs(v2, dirs2), d, k, dirs)
    {
      if At(Abs(v2, dirs2), d, k).IsDir() {
        DirectoryListed(v2, dirs2, d, k);
      }
      assert FileKept(v1, dirs1, v2, dirs2, d, k);
      KeptThen(v, dirs, v1, dirs1, v2, dirs2, d, k);
    }
  }

  // ----------------------------------------------------- elementary volume steps

  /** Rewriting directory d changes just its listing. */
  lemma DirectoryWritten(v: Volume, dirs: set<nat>, d: nat, bytes: seq<byte>)
    requires v.Valid() && DirsOk(v, dirs) && d in dirs
    requires |bytes| == v.clusterSize && WellFormed(Cells(bytes))
    ensures v.(data := v.data[d := bytes]).Valid() && DirsOk(v.(data := v.data[d := bytes]), dirs)
    ensures Abs(v.(data := v.data[d := bytes]), dirs)
            == Abs(v, dirs).(dirs := Abs(v, dirs).dirs[d := Listing(Cells(bytes))])
  {
  }

  /** Changing clusters that are no directories leaves the abstract file system alone. */
  lemma DataWritten(v: Volume, dirs: set<nat>, data: seq<seq<byte>>)
    requires v.Valid() && DirsOk(v, dirs) && v.(data := data).Valid()
    requires forall d :: d in dirs ==> data[d] == v.data[d]
    ensures DirsOk(v.(data := data), dirs) && Abs(v.(data := data), dirs) == Abs(v, dirs)
  {
  }

  lemma StoreBytesCells(d: seq<byte>, s: nat, slot: Slot)
    requires s < |d| / SLOT_SIZE && |d| % SLOT_SIZE == 0
    ensures Cells(StoreBytes(d, s, slot)) == Stored(Cells(d), s, View(slot))
  {
    var d' := Splice(d, SLOT_SIZE * s, slot);
    WriteSlot(d, s, slot);
    if s + 1 < |d| / SLOT_SIZE {
      var next := SLOT_SIZE * (s + 1);
      assert SlotAt(d', s + 1)[0] == d'[next];
      assert SlotAt(d', s + 1) == SlotAt(d, s + 1);
      WriteMarker(d', s + 1, 0xFF);
    }
  }

  /** The listing that add_directory_entry leaves behind. */
  lemma AddedListing(v: Volume, d: nat, name: string, m: Meta)
    requires v.Valid() && InTable(v.fat, d) && WellFormed(Cells(v.data[d])) && ValidName(name)
    requires m.cluster <= MAX_U32 && Lower(name) !in Listing(Cells(v.data[d]))
    requires AddEntry(v, d, name, m).result.Ok?
    ensures var v' := AddEntry(v, d, name, m).vol;
      && v' == v.(data := v.data[d := v'.data[d]])
      && WellFormed(Cells(v'.data[d]))
      && Listing(Cells(v'.data[d])) == Listing(Cells(v.data[d]))[Lower(name) := m]
  {
    hide Cells, Listing, WellFormed, MakeSlot, StoreBytes, Stored, AddEntry, FreeSlot, View, NameOf, Lower;
    var cells := Cells(v.data[d]);
    var s := AddUnfolds(v, d, name, m);
    SlotRoundTrip(name, m);
    StoreBytesCells(v.data[d], s, MakeSlot(name, m));
    AddIsInsert(cells, s, Lower(name), m);
  }

  lemma AddUnfolds(v: Volume, d: nat, name: string, m: Meta) returns (s: nat)
    requires v.Valid() && InTable(v.fat, d) && ValidName(name) && AddEntry(v, d, name, m).result.Ok?
    ensures FreeSlot(Cells(v.data[d]), 0, None) == Some(s) && s < v.clusterSize / SLOT_SIZE && m.size <= MAX_U32
    ensures AddEntry(v, d, name, m).vol == v.(data := v.data[d := StoreBytes(v.data[d], s, MakeSlot(name, m))])
  {
    hide Cells, MakeSlot, StoreBytes, FreeSlot;
    s := FreeSlot(Cells(v.data[d]), 0, None).value;
    FreeSlotIsFirst(Cells(v.data[d]), 0);
  }

  /** A cluster of zeros is an empty directory. */
  lemma NewDirectory(v: Volume, dirs: set<nat>, c: nat)
    requires v.Valid() && DirsOk(v, dirs) && InTable(v.fat, c) && v.data[c] == Zeros(v.clusterSize)
    ensures DirsOk(v, dirs + {c})
    ensures Abs(v, dirs + {c}) == Abs(v, dirs).(dirs := Abs(v, dirs).dirs[c := map[]])
  {
    ZeroCells(v.clusterSize);
    EmptyDirectory(Cells(v.data[c]));
  }

  /** A formatted volume, whose root directory has only terminators, is sound whatever
      its allocation table holds. */
  lemma FormattedIsSound(v: Volume)
    requires v.Valid() && |v.fat| > 1
    requires forall i :: 0 <= i < v.clusterSize / SLOT_SIZE ==> v.data[1][SLOT_SIZE * i] in {0x00, 0xFF}
    ensures Sound(v, {1}) && Abs(v, {1}).dirs == map[1 := map[]]
  {
    var cells := Cells(v.data[1]);
    forall i | 0 <= i < |cells|
      ensures cells[i].Terminator?
    {
      assert SlotAt(v.data[1], i)[0] == v.data[1][SLOT_SIZE * i];
    }
    EmptyDirectory(cells);
  }

  ghost function WithNew(dirs: set<nat>, m: Meta): set<nat> {
    if m.IsDir() then dirs + {m.cluster} else dirs
  }

  lemma AddedAbs(v: Volume, dirs: set<nat>, d: nat, name: string, m: Meta)
    requires v.Valid() && DirsOk(v, dirs) && d in dirs && ValidName(name)
    requires Lower(name) !in Abs(v, dirs).dirs[d] && InTable(v.fat, m.cluster)
    requires m.IsDir() ==> v.data[m.cluster] == Zeros(v.clusterSize) && m.cluster != d
    requires AddEntry(v, d, name, m).result.Ok?
    ensures var v' := AddEntry(v, d, name, m).vol;
      && DirsOk(v', WithNew(dirs, m))
      && Abs(v', WithNew(dirs, m)) == Inserted(Abs(v, dirs), d, Lower(name), m)
  {
    AddedListing(v, d, name, m);
    var v' := AddEntry(v, d, name, m).vol;
    DirectoryWritten(v, dirs, d, v'.data[d]);
    if m.IsDir() {
      NewDirectory(v', dirs, m.cluster);
    }
  }

  /** The entry added by add_directory_entry is an insertion. */
  lemma AddStep(v: Volume, dirs: set<nat>, d: nat, name: string, m: Meta)
    requires Sound(v, dirs) && d in dirs && ValidName(name)
    requires Lower(name) !in Abs(v, dirs).dirs[d]
    requires InTable(v.fat, m.cluster) && Unshared(Abs(v, dirs), Chain(v.fat, m.cluster))
    requires m.IsDir() ==> v.data[m.cluster] == Zeros(v.clusterSize)
    requires AddEntry(v, d, name, m).result.Ok?
    ensures var dirs' := WithNew(dirs, m);
            var v' := AddEntry(v, d, name, m).vol;
      && Sound(v', dirs') && Frame(v, dirs, v', dirs', d, Lower(name))
      && (m.IsDir() ==> Frame(v, dirs, v', dirs', 0, ""))
      && Abs(v', dirs') == Inserted(Abs(v, dirs), d, Lower(name), m)
      && Has(Abs(v', dirs'), d, Lower(name)) && At(Abs(v', dirs'), d, Lower(name)) == m
      && forall c :: 0 <= c < |v.data| && c != d ==> v'.data[c] == v.data[c]
  {
    var fs := Abs(v, dirs);
    ChainHead(v.fat, m.cluster);
    InsertedInv(fs, d, Lower(name), m);
    AddedAbs(v, dirs, d, name, m);
    AddedListing(v, d, name, m);
    AddedFrame(v, dirs, AddEntry(v, d, name, m).vol, d, Lower(name), m);
  }

  lemma AddedFrame(v: Volume, dirs: set<nat>, v': Volume, d: nat, key: string, m: Meta)
    requires Sound(v, dirs) && d in dirs && key !in Abs(v, dirs).dirs[d] && (m.IsDir() ==> m.cluster !in dirs)
    requires Sound(v', WithNew(dirs, m)) && Abs(v', WithNew(dirs, m)) == Inserted(Abs(v, dirs), d, key, m)
    requires |v'.data| == |v.data| && forall c :: 0 <= c < |v.data| && c != d ==> v'.data[c] == v.data[c]
    ensures Frame(v, dirs, v', WithNew(dirs, m), d, key)
    ensures m.IsDir() ==> Frame(v, dirs, v', WithNew(dirs, m), 0, "")
  {
    hide WellFormed, Cells, Listing;
    var fs, dirs' := Abs(v, dirs), WithNew(dirs, m);
    forall d2, k2 | Has(fs, d2, k2)
      ensures FileKept(v, dirs, v', dirs', d2, k2)
    {
      InsertedHas(fs, d, key, m, d2, k2);
      FileClusters(fs, d2, k2);
    }
    forall d2, k2 | Has(Abs(v', dirs'), d2, k2)
      ensures Has(fs, d2, k2) || (d2 == d && k2 == key && At(Abs(v', dirs'), d2, k2) == m)
    {
      InsertedHas(fs, d, key, m, d2, k2);
    }
  }

  /** The clusters of a file are no directories. */
  lemma FileClusters(fs: Fs, d: nat, k: string)
    requires Inv(fs) && Has(fs, d, k)
    ensures !At(fs, d, k).IsDir() ==> forall c :: c in ChainOf(fs, d, k) ==> c !in fs.dirs
  {
    assert Owned(fs, d, k);
    forall c | c in ChainOf(fs, d, k)
      ensures OwnedCluster(fs, At(fs, d, k), c)
    {
    }
  }

  /** The chain of freshly linked clusters; it is complete with two-byte entries. */
  lemma LinkedChain(v: Volume, cs: seq<nat>)
    requires v.Valid() && Allocatable(v.fat, cs) && cs != []
    ensures Chain(LinkChain(v, cs).fat, cs[0]) == cs[..CutAt(cs, 1)]
    ensures !v.Wide() ==> CutAt(cs, 1) == |cs|
  {
    ChainOfLinked(v.fat, cs, v.Fit(END_OF_CHAIN));
  }

  lemma LinkClaims(v: Volume, cs: seq<nat>)
    requires v.Valid() && Allocatable(v.fat, cs) && forall i :: 0 <= i < |cs| ==> IsFree(v.fat, cs[i])
    ensures Claims(v.fat, LinkChain(v, cs).fat, cs)
  {
    var last := v.Fit(END_OF_CHAIN);
    LinkedAt(v.fat, cs, last, |cs|);
    assert cs[..|cs|] == cs;
    var fat' := Linked(v.fat, cs, last);
    forall i | 0 <= i < |cs|
      ensures fat'[cs[i]] != FREE
    {
      assert fat'[cs[i]] == NextOf(cs, last, i);
    }
  }

  /** Linking free clusters and filling them disturbs nothing, and their chain is
      shared with nobody. */
  lemma ClaimStep(v: Volume, dirs: set<nat>, cs: seq<nat>, data: seq<seq<byte>>)
    requires Sound(v, dirs) && Allocatable(v.fat, cs) && cs != []
    requires forall i :: 0 <= i < |cs| ==> IsFree(v.fat, cs[i])
    requires |data| == |v.data| && forall c :: 1 <= c < |data| ==> |data[c]| == v.clusterSize
    requires forall c :: 0 <= c < |data| && c !in cs ==> data[c] == v.data[c]
    ensures var v' := LinkChain(v, cs).(data := data);
      && Sound(v', dirs) && Frame(v, dirs, v', dirs, 0, "")
      && Abs(v', dirs) == Abs(v, dirs).(fat := v'.fat)
      && Unshared(Abs(v', dirs), Chain(v'.fat, cs[0]))
  {
    var fs := Abs(v, dirs);
    var v1 := LinkChain(v, cs);
    var v' := v1.(data := data);
    LinkClaims(v, cs);
    LinkedChain(v, cs);
    ClaimedInv(fs, v1.fat, cs);
    assert Abs(v1, dirs) == fs.(fat := v1.fat);
    forall d | d in dirs
      ensures d !in cs
    {
      assert d in fs.dirs;
    }
    DataWritten(v1, dirs, data);
    var fs' := Abs(v', dirs);
    forall d, k | Has(fs, d, k)
      ensures FileKept(v, dirs, v', dirs, d, k)
      ensures Disjoint(ChainOf(fs', d, k), cs)
    {
      ClaimedKeeps(fs, v1.fat, cs, d, k);
    }
    var ch := Chain(v'.fat, cs[0]);
    forall c | c in ch
      ensures c in cs && 2 <= c < |fs'.fat| && fs'.fat[c] != FREE && c !in fs'.dirs
    {
      assert c in cs;
    }
  }

  // ----------------------------------------------------------------- directories

  /** A lookup under the invariant is a lookup in the abstract directory. */
  lemma FindEntryAbs(v: Volume, dirs: set<nat>, d: nat, name: string)
    requires Sound(v, dirs) && d in dirs
    ensures FindEntry(v, d, name)
            == Ok(if Has(Abs(v, dirs), d, Lower(name)) then Some(At(Abs(v, dirs), d, Lower(name))) else None)
  {
  }

  lemma FrameRefl(v: Volume, dirs: set<nat>, d0: nat, k0: string)
    requires Sound(v, dirs)
    ensures Frame(v, dirs, v, dirs, d0, k0)
  {
  }

  ghost predicate IsDirectoryEntry(fs: Fs, d: nat, k: string, c: nat) {
    Has(fs, d, k) && At(fs, d, k).IsDir() && At(fs, d, k).cluster == c
  }

  /** What holds after ensure_directory, whether it returned or raised. */
  ghost predicate Ensured(v: Volume, dirs: set<nat>, s: Step<nat>, dirs': set<nat>, d: nat, key: string)
    requires Sound(v, dirs)
  {
    && Sound(s.vol, dirs') && Frame(v, dirs, s.vol, dirs', 0, "")
    && (s.result.Ok? ==> s.result.value in dirs' && IsDirectoryEntry(Abs(s.vol, dirs'), d, key, s.result.value))
    && (s.result.Ok? ==> UnchangedOrNew(v, dirs, s.vol, dirs', s.result.value))
    && dirs' <= (if s.result.Ok? then dirs + {s.result.value} else dirs)
    && (s.result.Err? ==> s.result.error in {NotADirectory, NoSpace, DirectoryFull})
  }

  /** Either nothing happened or directory d has just been created. */
  ghost predicate UnchangedOrNew(v: Volume, dirs: set<nat>, v': Volume, dirs': set<nat>, d: nat)
    requires Sound(v', dirs')
  {
    (v' == v && dirs' == dirs) || NewAndEmpty(Abs(v', dirs'), d, dirs)
  }

  ghost predicate NewAndEmpty(fs: Fs, d: nat, dirs: set<nat>) {
    d !in dirs && d in fs.dirs && fs.dirs[d] == map[]
  }

  /** The volume in which the cluster of a new directory is linked and zeroed. */
  ghost function Zeroed(v: Volume, cs: seq<nat>): Volume
    requires v.Valid() && Allocatable(v.fat, cs) && |cs| == 1
  {
    LinkChain(v, cs).(data := v.data[cs[0] := Zeros(v.clusterSize)])
  }

  lemma CreateUnfolds(v: Volume, d: nat, name: string, cs: seq<nat>)
    requires v.Valid() && ValidName(name) && FindEntry(v, d, name) == Ok(None) && Allocate(v, 1, Normal) == Ok(cs)
    ensures |cs| == 1 && Allocatable(v.fat, cs) && Zeroed(v, cs).Valid() && |Zeroed(v, cs).fat| == |v.fat|
    ensures var added := AddEntry(Zeroed(v, cs), d, name, Meta(ATTR_DIRECTORY, cs[0], 0));
      && EnsureDirectory(v, d, name) == Step(added.vol, if added.result.Ok? then Ok(cs[0]) else Err(added.result.error))
      && (added.result.Err? ==> added == Step(Zeroed(v, cs), Err(DirectoryFull)))
  {
  }

  lemma ZeroedStep(v: Volume, dirs: set<nat>, cs: seq<nat>)
    requires Sound(v, dirs) && Allocate(v, 1, Normal) == Ok(cs)
    ensures |cs| == 1 && Allocatable(v.fat, cs)
    ensures var v2 := Zeroed(v, cs);
      && InTable(v2.fat, cs[0]) && Sound(v2, dirs) && Frame(v, dirs, v2, dirs, 0, "") && Abs(v2, dirs).dirs == Abs(v, dirs).dirs
      && Unshared(Abs(v2, dirs), Chain(v2.fat, cs[0])) && v2.data[cs[0]] == Zeros(v2.clusterSize)
  {
    ClaimStep(v, dirs, cs, v.data[cs[0] := Zeros(v.clusterSize)]);
  }

  lemma ZeroedAdds(v: Volume, dirs: set<nat>, d: nat, name: string, m: Meta)
    requires Sound(v, dirs) && d in dirs && ValidName(name) && Lower(name) !in Abs(v, dirs).dirs[d]
    requires InTable(v.fat, m.cluster) && Unshared(Abs(v, dirs), Chain(v.fat, m.cluster))
    requires v.data[m.cluster] == Zeros(v.clusterSize)
    requires m.IsDir() && AddEntry(v, d, name, m).result.Ok?
    ensures var v', dirs' := AddEntry(v, d, name, m).vol, dirs + {m.cluster};
      && Sound(v', dirs') && Frame(v, dirs, v', dirs', 0, "")
      && IsDirectoryEntry(Abs(v', dirs'), d, Lower(name), m.cluster)
      && NewAndEmpty(Abs(v', dirs'), m.cluster, dirs)
  {
    hide Frame, Inv, WellFormed, Cells, Listing, AddEntry;
    ChainHead(v.fat, m.cluster);
    AddStep(v, dirs, d, name, m);
  }

  lemma CreateSucceeds(v: Volume, dirs: set<nat>, d: nat, name: string, cs: seq<nat>)
    requires Sound(v, dirs) && d in dirs && ValidName(name) && Lower(name) !in Abs(v, dirs).dirs[d]
    requires Allocate(v, 1, Normal) == Ok(cs)
    requires AddEntry(Zeroed(v, cs), d, name, Meta(ATTR_DIRECTORY, cs[0], 0)).result.Ok?
    ensures var v' := AddEntry(Zeroed(v, cs), d, name, Meta(ATTR_DIRECTORY, cs[0], 0)).vol;
      Ensured(v, dirs, Step(v', Ok(cs[0])), dirs + {cs[0]}, d, Lower(name))
  {
    hide Frame, Inv, WellFormed, Cells, Listing, Unshared, AddEntry, Zeroed, Ensured, IsDirectoryEntry,
         NewAndEmpty, Lower,
         Chain, DirsOk;
    ZeroedStep(v, dirs, cs);
    var m := Meta(ATTR_DIRECTORY, cs[0], 0);
    ZeroedAdds(Zeroed(v, cs), dirs, d, name, m);
    CreateDone(v, dirs, Zeroed(v, cs), AddEntry(Zeroed(v, cs), d, name, m).vol, d, Lower(name), cs[0]);
  }

  /** Creating a directory that is missing. */
  lemma CreateStep(v: Volume, dirs: set<nat>, d: nat, name: string) returns (dirs': set<nat>)
    requires Sound(v, dirs) && d in dirs && ValidName(name) && FindEntry(v, d, name) == Ok(None)
    requires Allocate(v, 1, Normal).Ok?
    ensures Ensured(v, dirs, EnsureDirectory(v, d, name), dirs', d, Lower(name))
  {
    hide Frame, Inv, WellFormed, Cells, Listing, EnsureDirectory, Unshared, AddEntry, Zeroed, FindEntry, Ensured, Lower,
         Chain, DirsOk;
    FindEntryAbs(v, dirs, d, name);
    var cs := Allocate(v, 1, Normal).value;
    CreateUnfolds(v, d, name, cs);
    if AddEntry(Zeroed(v, cs), d, name, Meta(ATTR_DIRECTORY, cs[0], 0)).result.Ok? {
      CreateSucceeds(v, dirs, d, name, cs);
      dirs' := dirs + {cs[0]};
    } else {
      ZeroedStep(v, dirs, cs);
      CreateFailed(v, dirs, Zeroed(v, cs), d, Lower(name));
      dirs' := dirs;
    }
  }

  lemma CreateDone(v: Volume, dirs: set<nat>, v2: Volume, v': Volume, d: nat, key: string, c: nat)
    requires Sound(v, dirs) && Sound(v2, dirs) && Sound(v', dirs + {c})
    requires Frame(v, dirs, v2, dirs, 0, "") && Frame(v2, dirs, v', dirs + {c}, 0, "")
    requires IsDirectoryEntry(Abs(v', dirs + {c}), d, key, c) && NewAndEmpty(Abs(v', dirs + {c}), c, dirs)
    ensures Ensured(v, dirs, Step(v', Ok(c)), dirs + {c}, d, key)
  {
    hide Frame, Inv, WellFormed, Cells, Listing;
    FrameTrans(v, dirs, v2, dirs, v', dirs + {c}, 0, "");
  }

  lemma CreateFailed(v: Volume, dirs: set<nat>, v2: Volume, d: nat, key: string)
    requires Sound(v, dirs) && Sound(v2, dirs) && Frame(v, dirs, v2, dirs, 0, "")
    ensures Ensured(v, dirs, Step(v2, Err(DirectoryFull)), dirs, d, key)
  {
    hide Frame, Inv, WellFormed, Cells, Listing;
  }

  /** Creating or finding a directory keeps the invariant and every existing entry,
      whether it succeeds or raises half-way. */
  lemma EnsureStep(v: Volume, dirs: set<nat>, d: nat, name: string) returns (dirs': set<nat>)
    requires Sound(v, dirs) && d in dirs && ValidName(name)
    ensures Ensured(v, dirs, EnsureDirectory(v, d, name), dirs', d, Lower(name))
  {
    FindEntryAbs(v, dirs, d, name);
    if FindEntry(v, d, name) == Ok(None) && Allocate(v, 1, Normal).Ok? {
      dirs' := CreateStep(v, dirs, d, name);
    } else {
      FrameRefl(v, dirs, 0, "");
      dirs' := dirs;
      assert Has(Abs(v, dirs), d, Lower(name)) ==> Owned(Abs(v, dirs), d, Lower(name));
    }
  }

  // --------------------------------------------------------------------- removal

  lemma {:induction false} RemoveNothing(fat: seq<nat>, d: seq<byte>, key: string, i: nat)
    requires i <= |d| / SLOT_SIZE
    requires forall j :: i <= j < End(Cells(d), i) ==> !Names(Cells(d)[j], key)
    ensures RemoveFrom(fat, d, key, i) == (fat, d)
    decreases |d| / SLOT_SIZE - i
  {
    if i < |d| / SLOT_SIZE && !Cells(d)[i].Terminator? {
      RemoveNothing(fat, d, key, i + 1);
    }
  }

  lemma {:induction false} RemoveSkips(fat: seq<nat>, d: seq<byte>, key: string, i: nat, s: nat)
    requires i <= |d| / SLOT_SIZE && i <= s <= End(Cells(d), i)
    requires forall j :: i <= j < s ==> !Names(Cells(d)[j], key)
    ensures RemoveFrom(fat, d, key, i) == RemoveFrom(fat, d, key, s)
    decreases s - i
  {
    if i < s {
      RemoveSkips(fat, d, key, i + 1, s);
    }
  }

  /** On a well-formed directory the removal loop frees one chain and marks one slot. */
  lemma RemoveOne(fat: seq<nat>, d: seq<byte>, key: string, s: nat)
    requires WellFormed(Cells(d)) && s < |d| / SLOT_SIZE && Names(Cells(d)[s], key)
    ensures var start := Cells(d)[s].meta.cluster;
      RemoveFrom(fat, d, key, 0) == (FreeChain(fat, start), d[SLOT_SIZE * s := DELETED])
  {
    hide FreeChain, Find, View;
    var cells := Cells(d);
    FindUnique(cells, s);
    assert forall j :: 0 <= j < |cells| && j != s ==> !Names(cells[j], key);
    RemoveSkips(fat, d, key, 0, s);
    var start := cells[s].meta.cluster;
    var d': seq<byte> := d[SLOT_SIZE * s := DELETED];
    WriteMarker(d, s, DELETED);
    assert forall j :: 0 <= j < |cells| ==> !Names(Cells(d')[j], key);
    var fat' := if start != 0 then FreeChain(fat, start) else fat;
    RemoveNothing(fat', d', key, s + 1);
    FreeNothing(fat);
  }

  lemma FreeNothing(fat: seq<nat>)
    ensures FreeChain(fat, 0) == fat
  {
    assert Chain(fat, 0) == [];
  }

  ghost function Without(dirs: set<nat>, m: Meta): set<nat> {
    if m.IsDir() then dirs - {m.cluster} else dirs
  }

  lemma RemovedListing(v: Volume, d: nat, name: string)
    requires v.Valid() && InTable(v.fat, d) && WellFormed(Cells(v.data[d]))
    requires Lower(name) in Listing(Cells(v.data[d]))
    ensures var m := Listing(Cells(v.data[d]))[Lower(name)];
            var v' := RemoveEntry(v, d, name).vol;
      && RemoveEntry(v, d, name).result.Ok?
      && v' == v.(fat := FreeChain(v.fat, m.cluster), data := v.data[d := v'.data[d]])
      && WellFormed(Cells(v'.data[d]))
      && Listing(Cells(v'.data[d])) == Listing(Cells(v.data[d])) - {Lower(name)}
  {
    var key := Lower(name);
    var bytes := v.data[d];
    var i := Find(Cells(bytes), key, 0).value;
    RemoveOne(v.fat, bytes, key, i);
    WriteMarker(bytes, i, DELETED);
    RemoveIsDelete(Cells(bytes), i);
  }

  lemma DropDirectory(v: Volume, dirs: set<nat>, c: nat)
    requires v.Valid() && DirsOk(v, dirs)
    ensures DirsOk(v, dirs - {c})
    ensures Abs(v, dirs - {c}) == Abs(v, dirs).(dirs := Abs(v, dirs).dirs - {c})
  {
  }

  lemma RemovedAbs(v: Volume, dirs: set<nat>, d: nat, name: string)
    requires Sound(v, dirs) && d in dirs && Has(Abs(v, dirs), d, Lower(name))
    requires At(Abs(v, dirs), d, Lower(name)).IsDir() ==> At(Abs(v, dirs), d, Lower(name)).cluster != d
    ensures var dirs' := Without(dirs, At(Abs(v, dirs), d, Lower(name)));
            var s := RemoveEntry(v, d, name);
      && s.result.Ok? && DirsOk(s.vol, dirs')
      && Abs(s.vol, dirs') == Removed(Abs(v, dirs), d, Lower(name))
      && forall c :: 0 <= c < |v.data| && c != d ==> s.vol.data[c] == v.data[c]
  {
    RemovedListing(v, d, name);
    var m := At(Abs(v, dirs), d, Lower(name));
    var v' := RemoveEntry(v, d, name).vol;
    var freed := v.(fat := v'.fat);
    DirectoryWritten(freed, dirs, d, v'.data[d]);
    if m.IsDir() {
      DropDirectory(v', dirs, m.cluster);
    }
  }

  lemma RemovedFrame(v: Volume, dirs: set<nat>, v': Volume, dirs': set<nat>, d: nat, k: string)
    requires Sound(v, dirs) && d in dirs && Has(Abs(v, dirs), d, k)
    requires Sound(v', dirs') && Abs(v', dirs') == Removed(Abs(v, dirs), d, k)
    requires |v'.data| == |v.data| && forall c :: 0 <= c < |v.data| && c != d ==> v'.data[c] == v.data[c]
    ensures forall d2, k2 :: Has(Abs(v', dirs'), d2, k2) ==> FileKept(v, dirs, v', dirs', d2, k2)
  {
    hide Cells, Listing, WellFormed;
    var fs := Abs(v, dirs);
    forall d2, k2 | Has(Removed(fs, d, k), d2, k2)
      ensures FileKept(v, dirs, v', dirs', d2, k2)
    {
      RemovedKeepsOther(fs, d, k, d2, k2);
      FileClusters(fs, d2, k2);
    }
  }

  /** Removing a name that is there keeps the invariant and every other entry; a
      removed directory drops out of the directories. */
  lemma RemoveStep(v: Volume, dirs: set<nat>, d: nat, name: string)
    requires Sound(v, dirs) && d in dirs && Has(Abs(v, dirs), d, Lower(name))
    requires At(Abs(v, dirs), d, Lower(name)).IsDir() ==> At(Abs(v, dirs), d, Lower(name)).cluster != d
    ensures var m := At(Abs(v, dirs), d, Lower(name));
            var dirs' := Without(dirs, m);
            var v' := RemoveEntry(v, d, name).vol;
      && RemoveEntry(v, d, name).result.Ok?
      && Sound(v', dirs') && Abs(v', dirs') == Removed(Abs(v, dirs), d, Lower(name))
      && (forall d2, k2 :: Has(Abs(v', dirs'), d2, k2) ==> FileKept(v, dirs, v', dirs', d2, k2))
      && (!m.IsDir() ==> Frame(v, dirs, v', dirs', d, Lower(name)))
  {
    hide Cells, Listing, WellFormed, RemoveEntry, FileKept;
    var fs, key := Abs(v, dirs), Lower(name);
    RemovedAbs(v, dirs, d, name);
    RemovedInv(fs, d, key);
    RemovedFrame(v, dirs, RemoveEntry(v, d, name).vol, Without(dirs, At(fs, d, key)), d, key);
  }

  /** So everything around the name is kept, even when it named a directory. */
  lemma RemoveAround(v: Volume, dirs: set<nat>, d: nat, name: string)
    requires Sound(v, dirs) && d in dirs && Has(Abs(v, dirs), d, Lower(name))
    requires At(Abs(v, dirs), d, Lower(name)).IsDir() ==> At(Abs(v, dirs), d, Lower(name)).cluster != d
    ensures var dirs' := Without(dirs, At(Abs(v, dirs), d, Lower(name)));
            var v' := RemoveEntry(v, d, name).vol;
      && RemoveEntry(v, d, name).result.Ok? && Sound(v', dirs') && !Has(Abs(v', dirs'), d, Lower(name))
      && Around(v, dirs, v', dirs', d, Lower(name))
  {
    hide Inv, Cells, Listing, WellFormed, RemoveEntry, FileKept, Frame, FreeChain, Lower, NewDirectoryEntry;
    RemoveStep(v, dirs, d, name);
  }

  /** Removing a name that is not there changes nothing. */
  lemma RemoveAbsent(v: Volume, dirs: set<nat>, d: nat, name: string)
    requires Sound(v, dirs) && d in dirs && !Has(Abs(v, dirs), d, Lower(name))
    ensures RemoveEntry(v, d, name) == Step(v, Ok(()))
  {
    RemoveNothing(v.fat, v.data[d], Lower(name), 0);
  }
}
