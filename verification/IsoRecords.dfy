/** Directory records and path tables as bytes (sections 9.1 and 9.4 of ECMA-119), and a
    reader for them that does not depend on how they were written. */
module IsoRecords {
  import opened Bytes

  const SECTOR_SIZE := 2048
  const DIRECTORY: byte := 2
  const DIR_DATE: seq<byte> := [126, 5, 30, 0, 0, 0, 0]
  const SELF: seq<byte> := [0]
  const PARENT: seq<byte> := [1]
  const LIMIT := 0x1_0000_0000

  datatype Record = Record(extent: nat, size: nat, name: seq<byte>, flags: byte)

  function Both32(v: nat): (s: seq<byte>)
    ensures |s| == 8
  {
    LittleEndian(v, 4) + BigEndian(v, 4)
  }

  function Both16(v: nat): (s: seq<byte>)
    ensures |s| == 4
  {
    LittleEndian(v, 2) + BigEndian(v, 2)
  }

  /** Records have even length. */
  function RecordLength(nameLength: nat): nat {
    33 + nameLength + (33 + nameLength) % 2
  }

  /** What fits into the fields of a record; anything else raises. */
  predicate Encodable(r: Record) {
    r.extent < LIMIT && r.size < LIMIT && RecordLength(|r.name|) <= 255
  }

  function RecordBytes(r: Record): (s: seq<byte>)
    requires Encodable(r)
    ensures |s| == RecordLength(|r.name|)
  {
    [RecordLength(|r.name|), 0] + Both32(r.extent) + Both32(r.size) + DIR_DATE + [r.flags, 0, 0]
    + Both16(1) + [|r.name|] + r.name + Zeros((33 + |r.name|) % 2)
  }

  /** A number of four bytes, little-endian and then big-endian. */
  ghost predicate IsBoth(s: seq<byte>, v: nat) {
    |s| == 8 && forall k :: 0 <= k < 4 ==> s[k] == s[7 - k] == v / Pow256(k) % 256
  }

  lemma Both32Bytes(v: nat)
    ensures IsBoth(Both32(v), v)
  {
    hide LittleEndian, BigEndian, Pow256;
    var s := Both32(v);
    forall k | 0 <= k < 4
      ensures s[k] == s[7 - k] == v / Pow256(k) % 256
    {
      ByteOf(v, 4, k);
    }
  }

  /** The layout of a record in section 9.1 of ECMA-119: an even length, no extended
      attributes, extent and size in both byte orders, the fixed date 2026-05-30, flags, no
      interleaving, volume 1, the identifier, and a zero where it has even length. */
  ghost predicate IsRecord(s: seq<byte>, r: Record) {
    && |s| % 2 == 0 && 33 + |r.name| <= |s| <= 34 + |r.name|
    && s[0] == |s| && s[1] == 0 && IsBoth(s[2..10], r.extent) && IsBoth(s[10..18], r.size)
    && s[18..25] == [2026 - 1900, 5, 30, 0, 0, 0, 0] && s[25] == r.flags && s[26..32] == [0, 0, 1, 0, 0, 1]
    && s[32] == |r.name| && s[33..33 + |r.name|] == r.name && (forall i :: 33 + |r.name| <= i < |s| ==> s[i] == 0)
  }

  lemma RecordLayout(r: Record)
    requires Encodable(r)
    ensures IsRecord(RecordBytes(r), r)
  {
    hide IsBoth, Both32, LittleEndian, BigEndian;
    var s := RecordBytes(r);
    Both32Bytes(r.extent);
    Both32Bytes(r.size);
    BothOfOne();
    assert s[2..10] == Both32(r.extent) && s[10..18] == Both32(r.size);
    assert s[18..25] == DIR_DATE && s[26..32] == [0, 0] + Both16(1) && s[33..33 + |r.name|] == r.name;
  }

  lemma BothOfOne()
    ensures Both16(1) == [1, 0, 0, 1]
  {
    assert LittleEndian(1, 2) == [1] + LittleEndian(0, 1) == [1, 0];
  }

  /** Fills a zeroed buffer field by field. */
  method DirectoryRecord(r: Record) returns (s: seq<byte>)
    requires Encodable(r)
    ensures s == RecordBytes(r) && IsRecord(s, r)
  {
    hide Both32, Both16, LittleEndian, BigEndian, Splice, IsRecord;
    RecordLayout(r);
    s := Zeros(RecordLength(|r.name|));
    s := Splice(s, 0, [RecordLength(|r.name|)]);
    s := Splice(s, 2, Both32(r.extent));
    s := Splice(s, 10, Both32(r.size));
    s := Splice(s, 18, DIR_DATE);
    s := Splice(s, 25, [r.flags]);
    s := Splice(s, 28, Both16(1));
    s := Splice(s, 32, [|r.name|]);
    s := Splice(s, 33, r.name);
  }

  // -------------------------------------------------------------------- reading

  /** One record at the start of s, if there is a whole one whose two byte orders agree. */
  function ReadRecord(s: seq<byte>): (r: Option<Record>) {
    if |s| < 34 || s[0] < 34 || s[0] > |s| || 33 + (s[32] as int) > s[0] then None
    else if FromLittleEndian(s[2..6]) != FromBigEndian(s[6..10]) then None
    else if FromLittleEndian(s[10..14]) != FromBigEndian(s[14..18]) then None
    else Some(Record(FromLittleEndian(s[2..6]), FromLittleEndian(s[10..14]), s[33..33 + s[32]], s[25]))
  }

  /** The records of a directory sector; a zero length ends them. */
  function ReadAll(s: seq<byte>): seq<Record> {
    match ReadRecord(s)
    case None => []
    case Some(r) => [r] + ReadAll(s[s[0]..])
  }

  lemma FieldParts(r: Record, tail: seq<byte>)
    requires Encodable(r)
    ensures var s := RecordBytes(r) + tail;
      && s[0] == RecordLength(|r.name|) && s[25] == r.flags && s[32] == |r.name|
      && s[2..6] == LittleEndian(r.extent, 4) && s[6..10] == BigEndian(r.extent, 4)
      && s[10..14] == LittleEndian(r.size, 4) && s[14..18] == BigEndian(r.size, 4)
      && s[33..33 + |r.name|] == r.name
  {
    hide LittleEndian, BigEndian;
    var b := RecordBytes(r);
    assert b[2..10] == Both32(r.extent) && b[10..18] == Both32(r.size);
    assert b[33..33 + |r.name|] == r.name;
    var s := b + tail;
    assert s[2..6] == Both32(r.extent)[..4] && s[6..10] == Both32(r.extent)[4..];
    assert s[10..14] == Both32(r.size)[..4] && s[14..18] == Both32(r.size)[4..];
  }

  /** Reading a written record gives it back. */
  lemma RecordRoundTrip(r: Record, tail: seq<byte>)
    requires Encodable(r) && r.name != []
    ensures ReadRecord(RecordBytes(r) + tail) == Some(r)
    ensures (RecordBytes(r) + tail)[RecordLength(|r.name|)..] == tail
  {
    hide RecordBytes, LittleEndian, BigEndian, FromLittleEndian, FromBigEndian;
    FieldParts(r, tail);
    Widths();
    RoundTrip(r.extent, 4);
    RoundTrip(r.size, 4);
  }

  function Concat(rs: seq<Record>): (s: seq<byte>)
    requires forall i :: 0 <= i < |rs| ==> Encodable(rs[i])
  {
    if rs == [] then [] else RecordBytes(rs[0]) + Concat(rs[1..])
  }

  /** Reading a sector that holds some records, followed by zeros, gives the records. */
  lemma {:induction false} SectorRoundTrip(rs: seq<Record>, zeros: nat)
    requires forall i :: 0 <= i < |rs| ==> Encodable(rs[i]) && rs[i].name != []
    ensures ReadAll(Concat(rs) + Zeros(zeros)) == rs
  {
    hide RecordBytes, ReadRecord, Encodable;
    if rs == [] {
      assert Concat(rs) + Zeros(zeros) == Zeros(zeros);
      NothingToRead(zeros);
    } else {
      var tail := Concat(rs[1..]) + Zeros(zeros);
      assert Concat(rs) + Zeros(zeros) == RecordBytes(rs[0]) + tail;
      RecordRoundTrip(rs[0], tail);
      FieldParts(rs[0], tail);
      SectorRoundTrip(rs[1..], zeros);
      assert rs == [rs[0]] + rs[1..];
    }
  }

  lemma NothingToRead(zeros: nat)
    ensures ReadAll(Zeros(zeros)) == []
  {
  }

  predicate Matches(r: Record, name: seq<byte>, directory: bool) {
    r.name == name && (r.flags == DIRECTORY) == directory
  }

  /** The first record with the name, among the directories or among the files. */
  function FindRecord(rs: seq<Record>, name: seq<byte>, directory: bool): (r: Option<Record>)
    ensures r.Some? ==> r.value in rs && Matches(r.value, name, directory)
    ensures r.None? ==> forall i :: 0 <= i < |rs| ==> !Matches(rs[i], name, directory)
  {
    if rs == [] then None
    else if Matches(rs[0], name, directory) then Some(rs[0])
    else FindRecord(rs[1..], name, directory)
  }

  // ----------------------------------------------------------------- path tables

  datatype TableEntry = TableEntry(name: seq<byte>, sector: nat, parent: nat)

  predicate TableEncodable(e: TableEntry) {
    |e.name| <= 255 && e.sector < LIMIT && e.parent < 0x1_0000
  }

  function Ordered(v: nat, n: nat, big: bool): (s: seq<byte>)
    ensures |s| == n
  {
    if big then BigEndian(v, n) else LittleEndian(v, n)
  }

  function FromOrdered(s: seq<byte>, big: bool): nat {
    if big then FromBigEndian(s) else FromLittleEndian(s)
  }

  function TableBytes(e: TableEntry, big: bool): (s: seq<byte>)
    requires TableEncodable(e)
    ensures |s| == 8 + |e.name| + |e.name| % 2
  {
    [|e.name|, 0] + Ordered(e.sector, 4, big) + Ordered(e.parent, 2, big) + e.name + Zeros(|e.name| % 2)
  }

  function TableConcat(es: seq<TableEntry>, big: bool): seq<byte>
    requires forall i :: 0 <= i < |es| ==> TableEncodable(es[i])
  {
    if es == [] then [] else TableBytes(es[0], big) + TableConcat(es[1..], big)
  }

  function ReadTableEntry(s: seq<byte>, big: bool): Option<(TableEntry, nat)> {
    if |s| < 8 || |s| < 8 + (s[0] as int) + (s[0] as int) % 2 then None
    else Some((TableEntry(s[8..8 + s[0]], FromOrdered(s[2..6], big), FromOrdered(s[6..8], big)), 8 + (s[0] as int) + (s[0] as int) % 2))
  }

  /** The entries of a path table of exactly these bytes. */
  function ReadTable(s: seq<byte>, big: bool): seq<TableEntry> {
    match ReadTableEntry(s, big)
    case None => []
    case Some((e, next)) => [e] + ReadTable(s[next..], big)
  }

  lemma TableEntryRoundTrip(e: TableEntry, tail: seq<byte>, big: bool)
    requires TableEncodable(e)
    ensures ReadTableEntry(TableBytes(e, big) + tail, big) == Some((e, |TableBytes(e, big)|))
    ensures (TableBytes(e, big) + tail)[|TableBytes(e, big)|..] == tail
  {
    hide LittleEndian, BigEndian, FromLittleEndian, FromBigEndian;
    var s := TableBytes(e, big) + tail;
    assert s[2..6] == Ordered(e.sector, 4, big) && s[6..8] == Ordered(e.parent, 2, big);
    assert s[8..8 + |e.name|] == e.name;
    Widths();
    RoundTrip(e.sector, 4);
    RoundTrip(e.parent, 2);
  }

  lemma {:induction false} TableRoundTrip(es: seq<TableEntry>, big: bool)
    requires forall i :: 0 <= i < |es| ==> TableEncodable(es[i])
    ensures ReadTable(TableConcat(es, big), big) == es
  {
    hide TableBytes, ReadTableEntry;
    if es == [] {
      NoTable(big);
    } else {
      TableEntryRoundTrip(es[0], TableConcat(es[1..], big), big);
      TableRoundTrip(es[1..], big);
      assert es == [es[0]] + es[1..];
    }
  }

  lemma NoTable(big: bool)
    ensures ReadTable([], big) == []
  {
  }
}
