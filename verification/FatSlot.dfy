/** The bytes of a directory cluster: 64-byte slots, their names and their fields. */
module FatSlot {
  import opened Bytes
  import opened FatDirectory
  import opened PathText

  const SLOT_SIZE := 0x40
  const DELETED: byte := 0xE5
  const MAX_NAME := 42

  type Slot = s: seq<byte> | |s| == 0x40 witness Zeros(0x40)

  // -------------------------------------------------------------------- names

  predicate IsAscii(name: string) {
    forall i :: 0 <= i < |name| ==> name[i] < 128 as char
  }

  predicate ValidName(name: string) {
    1 <= |name| <= MAX_NAME && IsAscii(name)
  }

  function Encode(name: string): (s: seq<byte>)
    requires IsAscii(name)
    ensures |s| == |name| && forall i :: 0 <= i < |s| ==> s[i] == name[i] as int
  {
    seq(|name|, i requires 0 <= i < |name| => name[i] as int)
  }

  /** ASCII decoding where every byte above 127 becomes U+FFFD. */
  function DecodeByte(b: byte): char {
    if b < 128 then b as char else '\U{FFFD}'
  }

  function Decode(s: seq<byte>): (name: string)
    ensures |name| == |s|
  {
    seq(|s|, i requires 0 <= i < |s| => DecodeByte(s[i]))
  }

  function LowerChar(c: char): char {
    if 'A' <= c <= 'Z' then (c as int + 32) as char else c
  }

  function Lower(name: string): (r: string)
    ensures |r| == |name|
  {
    seq(|name|, i requires 0 <= i < |name| => LowerChar(name[i]))
  }

  /** Names have one key exactly if they differ in the case of letters only. */
  lemma SameKey(a: string, b: string)
    ensures Lower(a) == Lower(b) <==> |a| == |b| && forall i :: 0 <= i < |a| ==> SameLetter(a[i], b[i])
  {
    assert forall i :: 0 <= i < |a| ==> Lower(a)[i] == LowerChar(a[i]);
    assert forall i :: 0 <= i < |b| ==> Lower(b)[i] == LowerChar(b[i]);
    if |a| == |b| {
      forall i | 0 <= i < |a|
        ensures SameLetter(a[i], b[i]) <==> Lower(a)[i] == Lower(b)[i]
      {
      }
    }
  }

  // -------------------------------------------------------------------- slots

  predicate IsTerminator(b: byte) {
    b == 0x00 || b == 0xFF
  }

  function NameOf(s: Slot): string {
    Decode(s[2..if 2 + s[0] <= SLOT_SIZE then 2 + s[0] else SLOT_SIZE])
  }

  function KeyOf(s: Slot): string {
    Lower(NameOf(s))
  }

  function MetaOf(s: Slot): Meta {
    Meta(s[1], FromLittleEndian(s[0x2C..0x30]), FromLittleEndian(s[0x30..0x34]))
  }

  /** The 64 bytes of a new entry. */
  function MakeSlot(name: string, m: Meta): Slot
    requires ValidName(name)
  {
    [|name|, m.flags] + Encode(name) + Zeros(MAX_NAME - |name|)
    + LittleEndian(m.cluster, 4) + LittleEndian(m.size, 4) + Zeros(12)
  }

  function View(s: Slot): Cell {
    if IsTerminator(s[0]) then Terminator(s[0] == 0x00)
    else if s[0] == DELETED then Gone
    else Entry(KeyOf(s), MetaOf(s))
  }

  /** The name of any slot, packed by the stager or not: as many bytes from position 2 on as
      byte 0 tells, up to the end of the slot; bytes above 127 become U+FFFD. */
  lemma NameInSlot(s: Slot)
    ensures |NameOf(s)| == if s[0] <= 62 then s[0] else 62
    ensures forall i :: 0 <= i < |NameOf(s)| ==>
              NameOf(s)[i] as int == if s[2 + i] < 0x80 then s[2 + i] else 0xFFFD
  {
  }

  /** Length, flags and name at the front, cluster and size little-endian at 0x2C and 0x30,
      zeros elsewhere. */
  ghost predicate IsSlot(s: seq<byte>, name: string, m: Meta) {
    && |s| == 64 && s[0] == |name| <= 42 && s[1] == m.flags && (forall i :: 0 <= i < |name| ==> s[2 + i] == name[i] as int)
    && (forall i :: 0 <= i < 4 ==> s[0x2C + i] == m.cluster / Pow256(i) % 256 && s[0x30 + i] == m.size / Pow256(i) % 256)
    && (forall i :: 2 + |name| <= i < 0x2C || 0x34 <= i < 0x40 ==> s[i] == 0)
  }

  lemma PackedSlot(name: string, m: Meta)
    requires ValidName(name)
    ensures IsSlot(MakeSlot(name, m), name, m)
  {
    hide LittleEndian;
    var s := MakeSlot(name, m);
    forall i | 0 <= i < 4
      ensures s[0x2C + i] == m.cluster / Pow256(i) % 256 && s[0x30 + i] == m.size / Pow256(i) % 256
    {
      assert s[0x2C + i] == LittleEndian(m.cluster, 4)[i] && s[0x30 + i] == LittleEndian(m.size, 4)[i];
      ByteOf(m.cluster, 4, i);
      ByteOf(m.size, 4, i);
    }
  }

  /** Name, flags, cluster and size stand at their fixed offsets and are read back. */
  lemma SlotRoundTrip(name: string, m: Meta)
    requires ValidName(name) && m.cluster < 0x1_0000_0000 && m.size < 0x1_0000_0000
    ensures NameOf(MakeSlot(name, m)) == name
    ensures View(MakeSlot(name, m)) == Entry(Lower(name), m)
    ensures IsSlot(MakeSlot(name, m), name, m)
  {
    var s := MakeSlot(name, m);
    assert s[2..2 + |name|] == Encode(name);
    assert s[0x2C..0x30] == LittleEndian(m.cluster, 4);
    assert s[0x30..0x34] == LittleEndian(m.size, 4);
    Widths();
    RoundTrip(m.cluster, 4);
    RoundTrip(m.size, 4);
    assert NameOf(s) == name;
    PackedSlot(name, m);
  }

  function SlotAt(d: seq<byte>, i: nat): Slot
    requires SLOT_SIZE * i + SLOT_SIZE <= |d|
  {
    d[SLOT_SIZE * i..SLOT_SIZE * i + SLOT_SIZE]
  }

  /** What a directory cluster means, slot by slot. */
  function Cells(d: seq<byte>): (cells: seq<Cell>)
    ensures |cells| == |d| / SLOT_SIZE
    ensures forall i :: 0 <= i < |cells| ==> cells[i] == View(SlotAt(d, i))
  {
    seq(|d| / SLOT_SIZE, i requires 0 <= i < |d| / SLOT_SIZE => View(SlotAt(d, i)))
  }

  lemma WriteSlot(d: seq<byte>, i: nat, s: Slot)
    requires i < |d| / SLOT_SIZE
    ensures Cells(Splice(d, SLOT_SIZE * i, s)) == Cells(d)[i := View(s)]
  {
    var d' := Splice(d, SLOT_SIZE * i, s);
    forall j | 0 <= j < |d| / SLOT_SIZE
      ensures Cells(d')[j] == Cells(d)[i := View(s)][j]
    {
      if j == i {
        assert SlotAt(d', j) == s;
      } else {
        assert SlotAt(d', j) == SlotAt(d, j);
      }
    }
  }

  lemma WriteMarker(d: seq<byte>, i: nat, b: byte)
    requires i < |d| / SLOT_SIZE && (b == 0xFF || b == DELETED)
    ensures Cells(d[SLOT_SIZE * i := b]) == Cells(d)[i := if b == 0xFF then Terminator(false) else Gone]
  {
    var d' := d[SLOT_SIZE * i := b];
    var cell := if b == 0xFF then Terminator(false) else Gone;
    forall j | 0 <= j < |d| / SLOT_SIZE
      ensures Cells(d')[j] == Cells(d)[i := cell][j]
    {
      if j != i {
        assert SlotAt(d', j) == SlotAt(d, j);
      }
    }
  }

  lemma ZeroCells(n: nat)
    ensures forall i :: 0 <= i < |Cells(Zeros(n))| ==> Cells(Zeros(n))[i] == Terminator(true)
  {
  }
}
