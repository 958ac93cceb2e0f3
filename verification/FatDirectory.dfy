/** A one-cluster directory as a list of cells, and the finite map from lower-cased
    names that it represents. */
module FatDirectory {
  import opened Bytes

  const ATTR_ARCHIVE: byte := 0x20
  const ATTR_DIRECTORY: byte := 0x10

  /** What a directory entry says about its file, apart from the name. */
  datatype Meta = Meta(flags: byte, cluster: nat, size: nat) {
    predicate IsDir() {
      flags / 0x10 % 2 == 1
    }
  }

  /** A directory is told by bit 4 of the flags, whatever the other bits are. */
  lemma DirectoryBit(m: Meta, high: nat, bit: nat, low: nat)
    requires bit < 2 && low < 16 && m.flags as int == high * 32 + bit * 16 + low
    ensures m.IsDir() <==> bit == 1
  {
    QuotientUnique(high * 32 + bit * 16 + low, 16, high * 2 + bit, low);
    QuotientUnique(high * 2 + bit, 2, high, bit);
  }

  /** One slot: a terminator (marker 0x00 or 0xFF), a deleted entry, or an entry
      known by its lower-cased name. */
  datatype Cell = Terminator(zero: bool) | Gone | Entry(key: string, meta: Meta)

  /** The position of the first terminator from i on, or the number of slots. */
  function End(cells: seq<Cell>, i: nat): (e: nat)
    requires i <= |cells|
    ensures i <= e <= |cells|
    ensures forall j :: i <= j < e ==> !cells[j].Terminator?
    ensures e < |cells| ==> cells[e].Terminator?
    decreases |cells| - i
  {
    if i == |cells| || cells[i].Terminator? then i else End(cells, i + 1)
  }

  predicate Names(cell: Cell, key: string) {
    cell.Entry? && cell.key == key
  }

  /** The first entry from i on, before any terminator, with the given key. */
  function Find(cells: seq<Cell>, key: string, i: nat): (r: Option<nat>)
    requires i <= |cells|
    ensures r.Some? ==> i <= r.value < End(cells, i) && Names(cells[r.value], key)
    ensures r.None? ==> forall j :: i <= j < End(cells, i) ==> !Names(cells[j], key)
    decreases |cells| - i
  {
    if i == |cells| || cells[i].Terminator? then None
    else if Names(cells[i], key) then Some(i)
    else Find(cells, key, i + 1)
  }

  function Lookup(cells: seq<Cell>, key: string): Option<Meta> {
    match Find(cells, key, 0)
    case None => None
    case Some(i) => Some(cells[i].meta)
  }

  /** Where a new entry goes: the first deleted slot before the terminator,
      otherwise the terminator itself. */
  function FreeSlot(cells: seq<Cell>, i: nat, deleted: Option<nat>): (r: Option<nat>)
    requires i <= |cells|
    decreases |cells| - i
  {
    if i == |cells| then deleted
    else if cells[i].Terminator? then (if deleted.Some? then deleted else Some(i))
    else FreeSlot(cells, i + 1, if cells[i].Gone? && deleted.None? then Some(i) else deleted)
  }

  lemma {:induction false} FreeSlotKept(cells: seq<Cell>, i: nat, s: nat)
    requires i <= |cells|
    ensures FreeSlot(cells, i, Some(s)) == Some(s)
    decreases |cells| - i
  {
    if i < |cells| && !cells[i].Terminator? {
      FreeSlotKept(cells, i + 1, s);
    }
  }

  /** The chosen slot is the first one not holding an entry; there is none exactly
      when every slot holds an entry. */
  lemma {:induction false} FreeSlotIsFirst(cells: seq<Cell>, i: nat)
    requires i <= |cells|
    ensures FreeSlot(cells, i, None).Some? ==>
              var s := FreeSlot(cells, i, None).value;
              && i <= s < |cells| && s <= End(cells, i) && !cells[s].Entry?
              && (cells[s].Gone? || s == End(cells, i))
              && forall j :: i <= j < s ==> cells[j].Entry?
    ensures FreeSlot(cells, i, None).None? <==> forall j :: i <= j < |cells| ==> cells[j].Entry?
    decreases |cells| - i
  {
    if i < |cells| && !cells[i].Terminator? {
      if cells[i].Gone? {
        FreeSlotKept(cells, i + 1, i);
      } else {
        FreeSlotIsFirst(cells, i + 1);
      }
    }
  }

  /** The cells after an entry has been stored at position s: a NUL marker right
      behind it becomes 0xFF. */
  function Stored(cells: seq<Cell>, s: nat, entry: Cell): (r: seq<Cell>)
    requires s < |cells|
    ensures |r| == |cells|
  {
    var cells' := cells[s := entry];
    if s + 1 < |cells| && cells[s + 1] == Terminator(true) then cells'[s + 1 := Terminator(false)] else cells'
  }

  // ------------------------------------------------------------- the finite map

  /** Nothing but terminators from the first terminator on. */
  ghost predicate TailClean(cells: seq<Cell>) {
    forall i, j :: 0 <= i < j < |cells| && cells[i].Terminator? ==> cells[j].Terminator?
  }

  ghost predicate NoDuplicates(cells: seq<Cell>) {
    forall i, j :: 0 <= i < j < |cells| && cells[i].Entry? && cells[j].Entry? ==> cells[i].key != cells[j].key
  }

  ghost predicate WellFormed(cells: seq<Cell>) {
    TailClean(cells) && NoDuplicates(cells)
  }

  ghost function Keys(cells: seq<Cell>): set<string> {
    set i | 0 <= i < |cells| && cells[i].Entry? :: cells[i].key
  }

  /** The map from lower-cased names that a lookup sees. */
  ghost function Listing(cells: seq<Cell>): (m: map<string, Meta>)
    ensures forall k :: k in m <==> Lookup(cells, k).Some?
    ensures forall k :: k in m ==> m[k] == Lookup(cells, k).value
  {
    map k | k in Keys(cells) && Lookup(cells, k).Some? :: Lookup(cells, k).value
  }

  lemma FindUnique(cells: seq<Cell>, i: nat)
    requires WellFormed(cells) && i < |cells| && cells[i].Entry?
    ensures Find(cells, cells[i].key, 0) == Some(i)
  {
    assert i < End(cells, 0);
    assert Names(cells[i], cells[i].key);
  }

  lemma EmptyDirectory(cells: seq<Cell>)
    requires forall i :: 0 <= i < |cells| ==> cells[i].Terminator?
    ensures WellFormed(cells) && Listing(cells) == map[]
  {
  }

  lemma StoredWellFormed(cells: seq<Cell>, s: nat, key: string, m: Meta)
    requires WellFormed(cells) && FreeSlot(cells, 0, None) == Some(s) && key !in Listing(cells)
    ensures s < |cells| && WellFormed(Stored(cells, s, Entry(key, m)))
  {
    FreeSlotIsFirst(cells, 0);
    var cells' := Stored(cells, s, Entry(key, m));
    forall i | 0 <= i < |cells| && cells[i].Entry?
      ensures cells[i].key != key
    {
      FindUnique(cells, i);
    }
  }

  lemma StoredLookup(cells: seq<Cell>, s: nat, key: string, m: Meta, k: string)
    requires WellFormed(cells) && FreeSlot(cells, 0, None) == Some(s) && key !in Listing(cells)
    ensures s < |cells|
    ensures Lookup(Stored(cells, s, Entry(key, m)), k) == if k == key then Some(m) else Lookup(cells, k)
  {
    hide Listing, WellFormed;
    FreeSlotIsFirst(cells, 0);
    StoredWellFormed(cells, s, key, m);
    var cells' := Stored(cells, s, Entry(key, m));
    if k == key {
      FindUnique(cells', s);
    } else {
      SameLookup(cells, cells', s, k);
    }
  }

  /** Adding a fresh name is map insertion and keeps the directory well formed. */
  lemma AddIsInsert(cells: seq<Cell>, s: nat, key: string, m: Meta)
    requires WellFormed(cells) && FreeSlot(cells, 0, None) == Some(s) && key !in Listing(cells)
    ensures s < |cells| && WellFormed(Stored(cells, s, Entry(key, m)))
    ensures Listing(Stored(cells, s, Entry(key, m))) == Listing(cells)[key := m]
  {
    hide Lookup, Stored, FreeSlot, WellFormed, Listing;
    StoredWellFormed(cells, s, key, m);
    var l, l' := Listing(cells), Listing(Stored(cells, s, Entry(key, m)));
    forall k
      ensures k in l' <==> k in l || k == key
      ensures k in l' ==> l'[k] == if k == key then m else l[k]
    {
      StoredLookup(cells, s, key, m, k);
    }
  }

  lemma GoneLookup(cells: seq<Cell>, s: nat, k: string)
    requires WellFormed(cells) && s < |cells| && cells[s].Entry?
    ensures WellFormed(cells[s := Gone])
    ensures Lookup(cells[s := Gone], k) == if k == cells[s].key then None else Lookup(cells, k)
  {
    var cells' := cells[s := Gone];
    if k == cells[s].key {
      assert forall i :: 0 <= i < |cells| && i != s ==> cells'[i] == cells[i] && !Names(cells[i], k);
    } else {
      SameLookup(cells, cells', s, k);
    }
  }

  /** Removing an entry is map deletion and keeps the directory well formed. */
  lemma RemoveIsDelete(cells: seq<Cell>, s: nat)
    requires WellFormed(cells) && s < |cells| && cells[s].Entry?
    ensures WellFormed(cells[s := Gone])
    ensures Lookup(cells, cells[s].key) == Some(cells[s].meta)
    ensures Listing(cells[s := Gone]) == Listing(cells) - {cells[s].key}
  {
    hide WellFormed, Listing;
    FindUnique(cells, s);
    GoneLookup(cells, s, "");
    var l, l' := Listing(cells), Listing(cells[s := Gone]);
    forall k
      ensures k in l' <==> k in l && k != cells[s].key
      ensures k in l' ==> l'[k] == l[k]
    {
      GoneLookup(cells, s, k);
    }
  }

  /** Two well-formed directories that hold the same entries apart from position s
      agree on every key not stored at s. */
  lemma SameLookup(cells: seq<Cell>, cells': seq<Cell>, s: nat, k: string)
    requires WellFormed(cells) && WellFormed(cells') && |cells'| == |cells| && s < |cells|
    requires !Names(cells[s], k) && !Names(cells'[s], k)
    requires forall i :: 0 <= i < |cells| && i != s ==> cells[i].Entry? || cells'[i].Entry? ==> cells'[i] == cells[i]
    ensures Lookup(cells', k) == Lookup(cells, k)
  {
    var f, f' := Find(cells, k, 0), Find(cells', k, 0);
    if f.Some? {
      FindUnique(cells', f.value);
    } else if f'.Some? {
      FindUnique(cells, f'.value);
    }
  }

  /** Right after a removal there is always a slot for the next entry. */
  lemma RemovedLeavesRoom(cells: seq<Cell>, s: nat)
    requires s < |cells|
    ensures FreeSlot(cells[s := Gone], 0, None).Some?
  {
    FreeSlotIsFirst(cells[s := Gone], 0);
    assert !cells[s := Gone][s].Entry?;
  }
}
