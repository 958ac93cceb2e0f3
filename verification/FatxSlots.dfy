/** What adding an entry and creating a directory leave in the bytes of a volume. */
module FatxSlots {
  import opened Bytes
  import opened FatTable
  import opened FatAlloc
  import opened FatDirectory
  import opened FatSlot
  import opened FatxVolume

  predicate IsMarker(b: byte) {
    b == 0x00 || b == 0xFF || b == 0xE5
  }

  /** Slot s is the first that holds no entry, by the first bytes of the slots. */
  ghost predicate FirstUnused(d: seq<byte>, s: nat) {
    && 64 * s + 64 <= |d| && IsMarker(d[64 * s])
    && forall j :: 0 <= j < s ==> !IsMarker(d[64 * j])
  }

  /** The entry is packed into the first unused slot, a zero marker right behind it becomes
      0xFF, and no other byte changes. */
  ghost predicate EntryAdded(d: seq<byte>, d': seq<byte>, name: string, m: Meta) {
    && |d'| == |d|
    && exists s: nat :: FirstUnused(d, s) && IsSlot(d'[64 * s..64 * s + 64], name, m)
         && forall i :: 0 <= i < |d| && !(64 * s <= i < 64 * s + 64) ==>
              d'[i] == if i == 64 * s + 64 && d[i] == 0 then 0xFF else d[i]
  }

  lemma FirstUnusedSlot(d: seq<byte>, s: nat)
    requires FreeSlot(Cells(d), 0, None) == Some(s)
    ensures FirstUnused(d, s)
  {
    hide KeyOf, MetaOf, FreeSlot;
    FreeSlotIsFirst(Cells(d), 0);
    assert s < |Cells(d)| ==> Cells(d)[s] == View(SlotAt(d, s)) && SlotAt(d, s)[0] == d[64 * s];
    forall j | 0 <= j < s
      ensures !IsMarker(d[64 * j])
    {
      assert Cells(d)[j].Entry? && Cells(d)[j] == View(SlotAt(d, j)) && SlotAt(d, j)[0] == d[64 * j];
    }
  }

  /** Adding an entry changes one cluster, and in it nothing but a slot and the marker. */
  lemma AddedBytes(v: Volume, d: nat, name: string, m: Meta)
    requires v.Valid() && ValidName(name) && AddEntry(v, d, name, m).result.Ok?
    ensures InTable(v.fat, d)
    ensures var v' := AddEntry(v, d, name, m).vol;
      && v'.fat == v.fat && |v'.data| == |v.data| && EntryAdded(v.data[d], v'.data[d], name, m)
      && forall c :: 0 <= c < |v.data| && c != d ==> v'.data[c] == v.data[c]
  {
    hide Cells, MakeSlot, FreeSlot, IsSlot, FirstUnused;
    var b, b' := v.data[d], AddEntry(v, d, name, m).vol.data[d];
    var s := FreeSlot(Cells(b), 0, None).value;
    FreeSlotIsFirst(Cells(b), 0);
    FirstUnusedSlot(b, s);
    PackedSlot(name, m);
    assert b' == StoreBytes(b, s, MakeSlot(name, m));
    assert b'[64 * s..64 * s + 64] == MakeSlot(name, m);
  }

  /** A new directory is the least free cluster, linked to nothing and zeroed, and its entry
      has the directory flag and size zero. */
  lemma CreatedBytes(v: Volume, d: nat, name: string)
    requires v.Valid() && ValidName(name) && FindEntry(v, d, name) == Ok(None) && EnsureDirectory(v, d, name).result.Ok?
    ensures var s := EnsureDirectory(v, d, name);
      var c := s.result.value;
      && IsFree(v.fat, c) && (forall f :: IsFree(v.fat, f) ==> c <= f) && InTable(v.fat, d)
      && s.vol.fat == v.fat[c := if |v.fat| >= 0xFFF4 then 0xFFFF_FFFF else 0xFFFF]
      && |s.vol.data| == |v.data| && (c != d ==> s.vol.data[c] == Zeros(v.clusterSize))
      && EntryAdded(if c == d then Zeros(v.clusterSize) else v.data[d], s.vol.data[d], name, Meta(0x10, c, 0))
      && forall x :: 0 <= x < |v.data| && x != c && x != d ==> s.vol.data[x] == v.data[x]
  {
    hide Cells, AddEntry, EntryAdded, FindEntry, Allocation;
    var cs := Allocate(v, 1, Normal).value;
    var c := cs[0];
    LeastOne(v, cs);
    var v1 := LinkChain(v, cs);
    assert v1.fat == v.fat[c := v.Fit(END_OF_CHAIN)] by {
      LinkOne(v.fat, c, v.Fit(END_OF_CHAIN));
      assert cs == [c];
    }
    var v2 := v1.(data := v1.data[c := Zeros(v.clusterSize)]);
    AddedBytes(v2, d, name, Meta(ATTR_DIRECTORY, c, 0));
  }

  lemma LeastOne(v: Volume, cs: seq<nat>)
    requires Allocate(v, 1, Normal) == Ok(cs)
    ensures |cs| == 1 && IsFree(v.fat, cs[0]) && forall f :: IsFree(v.fat, f) ==> cs[0] <= f
  {
    hide Allocation;
    AllocationIsExact(v.fat, 1, Normal);
    assert cs == [cs[0]] && cs[0] in cs;
  }

  lemma LinkOne(fat: seq<nat>, c: nat, last: nat)
    requires c < |fat|
    ensures Linked(fat, [c], last) == fat[c := last]
  {
    assert LinkedTo(fat, [c], last, 0) == fat;
  }
}
