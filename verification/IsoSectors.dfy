/** The sectors of the overlay: directories, path tables and volume descriptors. */
module IsoSectors {
  import opened Bytes
  import opened IsoNames
  import opened IsoRecords
  import opened IsoTree

  datatype Error = MissingConfig | NotEncodable | DirectoryTooLong | TableTooLong

  // ------------------------------------------------------------------ directories

  function Same(s: string): string {
    s
  }

  /** The directory itself and its parent. */
  function Heads(d: Dir): (rs: seq<Record>)
    ensures |rs| == 2
  {
    [Record(d.sector, SECTOR_SIZE, SELF, DIRECTORY), Record(d.parentSector, SECTOR_SIZE, PARENT, DIRECTORY)]
  }

  /** What the sector of a directory needs to know about its children. */
  ghost predicate Known(d: Dir, sectors: map<Path, nat>) {
    && (forall c :: c in d.children ==> Canonical(c) && d.path + [c] in sectors)
    && (forall n :: n in d.files ==> Canonical(n))
  }

  function DirRecords(cs: seq<string>, d: Dir, sectors: map<Path, nat>): (rs: seq<Record>)
    requires forall i :: 0 <= i < |cs| ==> Ascii(cs[i]) && d.path + [cs[i]] in sectors
    ensures |rs| == |cs|
    ensures forall i :: 0 <= i < |cs| ==> rs[i] == Record(sectors[d.path + [cs[i]]], SECTOR_SIZE, DirName(cs[i]), DIRECTORY)
  {
    seq(|cs|, i requires 0 <= i < |cs| => Record(sectors[d.path + [cs[i]]], SECTOR_SIZE, DirName(cs[i]), DIRECTORY))
  }

  function FileRecord(name: string, x: Extent): Record
    requires Ascii(name)
  {
    Record(x.sector, x.size, FileName(name), 0)
  }

  function FileRecords(ns: seq<string>, d: Dir): (rs: seq<Record>)
    requires forall i :: 0 <= i < |ns| ==> Ascii(ns[i]) && ns[i] in d.files
    ensures |rs| == |ns|
    ensures forall i :: 0 <= i < |ns| ==> rs[i] == FileRecord(ns[i], d.files[ns[i]])
  {
    seq(|ns|, i requires 0 <= i < |ns| => FileRecord(ns[i], d.files[ns[i]]))
  }

  /** Some order of the children and some order of the files that the records follow. */
  ghost predicate Orders(cs: seq<string>, ns: seq<string>, d: Dir) {
    && Enumerates(cs, d.children) && SortedBy(cs, Upper)
    && Enumerates(ns, d.files.Keys) && SortedBy(ns, Same)
  }

  lemma OrdersKnown(cs: seq<string>, ns: seq<string>, d: Dir, sectors: map<Path, nat>)
    requires Orders(cs, ns, d) && Known(d, sectors)
    ensures forall i :: 0 <= i < |cs| ==> Canonical(cs[i]) && Ascii(cs[i]) && d.path + [cs[i]] in sectors
    ensures forall i :: 0 <= i < |ns| ==> Canonical(ns[i]) && Ascii(ns[i]) && ns[i] in d.files
  {
    hide SortedBy;
    assert forall i :: 0 <= i < |cs| ==> cs[i] in cs;
    assert forall i :: 0 <= i < |ns| ==> ns[i] in ns;
  }

  ghost function AllRecords(cs: seq<string>, ns: seq<string>, d: Dir, sectors: map<Path, nat>): seq<Record>
    requires Orders(cs, ns, d) && Known(d, sectors)
  {
    OrdersKnown(cs, ns, d, sectors);
    Heads(d) + DirRecords(cs, d, sectors) + FileRecords(ns, d)
  }

  /** The records of a directory: itself, its parent, its subdirectories by upper-case
      name, its files by name. */
  ghost predicate Describes(rs: seq<Record>, d: Dir, sectors: map<Path, nat>)
    requires Known(d, sectors)
  {
    exists cs, ns :: Orders(cs, ns, d) && rs == AllRecords(cs, ns, d, sectors)
  }

  /** There is only one such list, so what is said about the records is exact. */
  lemma DescribesUnique(rs: seq<Record>, rs': seq<Record>, d: Dir, sectors: map<Path, nat>)
    requires Known(d, sectors) && Describes(rs, d, sectors) && Describes(rs', d, sectors)
    ensures rs == rs'
  {
    hide Canonical, AllRecords, Enumerates, SortedBy;
    var cs, ns :| Orders(cs, ns, d) && rs == AllRecords(cs, ns, d, sectors);
    var cs', ns' :| Orders(cs', ns', d) && rs' == AllRecords(cs', ns', d, sectors);
    forall x, y | x in d.children && y in d.children && Upper(x) == Upper(y)
      ensures x == y
    {
      UpperInjective(x, y);
    }
    SortedUnique(cs, cs', d.children, Upper);
    SortedUnique(ns, ns', d.files.Keys, Same);
  }

  /** The identifiers in a directory: the bytes 0 and 1 for itself and its parent, then the
      names of the subdirectories and of the files in upper case, all of them and no others. */
  ghost predicate NamedInUpperCase(rs: seq<Record>, d: Dir) {
    && |rs| >= 2 && rs[0].name == [0] && rs[1].name == [1]
    && (forall i :: 2 <= i < |rs| ==> NamedAfter(rs[i], d))
    && (forall c :: c in d.children ==> exists i :: 2 <= i < |rs| && rs[i].flags == 2 && InUpperCase(rs[i].name, c))
    && (forall n :: n in d.files ==>
          exists i :: 2 <= i < |rs| && rs[i].flags == 0 && InUpperCase(rs[i].name, Dotted(n) + ";1"))
  }

  ghost predicate NamedAfter(r: Record, d: Dir) {
    || (r.flags == 2 && exists c :: c in d.children && InUpperCase(r.name, c))
    || (r.flags == 0 && exists n :: n in d.files && InUpperCase(r.name, Dotted(n) + ";1"))
  }

  /** The same by position: heads, children, files. */
  ghost predicate Spelled(rs: seq<Record>, cs: seq<string>, ns: seq<string>) {
    && |rs| == 2 + |cs| + |ns| && rs[0].name == [0] && rs[1].name == [1]
    && (forall i :: 2 <= i < 2 + |cs| ==> rs[i].flags == 2 && InUpperCase(rs[i].name, cs[i - 2]))
    && (forall i :: 2 + |cs| <= i < |rs| ==>
          rs[i].flags == 0 && InUpperCase(rs[i].name, Dotted(ns[i - 2 - |cs|]) + ";1"))
  }

  lemma RecordsSpelled(cs: seq<string>, ns: seq<string>, d: Dir, sectors: map<Path, nat>)
    requires Known(d, sectors) && Orders(cs, ns, d)
    ensures Spelled(AllRecords(cs, ns, d, sectors), cs, ns)
  {
    hide InUpperCase, DirName, FileName, Canonical, Dotted, Orders, Known;
    OrdersKnown(cs, ns, d, sectors);
    forall k | 0 <= k < |cs|
      ensures InUpperCase(DirName(cs[k]), cs[k])
    {
      IdentifiersSpell(cs[k]);
    }
    forall k | 0 <= k < |ns|
      ensures InUpperCase(FileName(ns[k]), Dotted(ns[k]) + ";1")
    {
      IdentifiersSpell(ns[k]);
    }
  }

  lemma SpelledIsNamed(rs: seq<Record>, cs: seq<string>, ns: seq<string>, d: Dir)
    requires Spelled(rs, cs, ns) && Enumerates(cs, d.children) && Enumerates(ns, d.files.Keys)
    ensures NamedInUpperCase(rs, d)
  {
    hide InUpperCase, Dotted;
    forall i | 2 <= i < |rs|
      ensures NamedAfter(rs[i], d)
    {
      if i < 2 + |cs| {
        assert cs[i - 2] in cs;
      } else {
        assert ns[i - 2 - |cs|] in ns;
      }
    }
    forall c | c in d.children
      ensures exists i :: 2 <= i < |rs| && rs[i].flags == 2 && InUpperCase(rs[i].name, c)
    {
      assert c in cs;
      var k :| 0 <= k < |cs| && cs[k] == c;
      assert InUpperCase(rs[2 + k].name, c);
    }
    forall n | n in d.files
      ensures exists i :: 2 <= i < |rs| && rs[i].flags == 0 && InUpperCase(rs[i].name, Dotted(n) + ";1")
    {
      assert n in ns;
      var k :| 0 <= k < |ns| && ns[k] == n;
      assert InUpperCase(rs[2 + |cs| + k].name, Dotted(n) + ";1");
    }
  }

  lemma DescribedInUpperCase(rs: seq<Record>, d: Dir, sectors: map<Path, nat>)
    requires Known(d, sectors) && Describes(rs, d, sectors)
    ensures NamedInUpperCase(rs, d)
  {
    hide AllRecords, Known, Spelled, NamedInUpperCase, SortedBy, Enumerates;
    var cs, ns :| Orders(cs, ns, d) && rs == AllRecords(cs, ns, d, sectors);
    RecordsSpelled(cs, ns, d, sectors);
    SpelledIsNamed(rs, cs, ns, d);
  }

  predicate AllEncodable(rs: seq<Record>) {
    forall i :: 0 <= i < |rs| ==> Encodable(rs[i])
  }

  ghost predicate FitsSector(rs: seq<Record>) {
    AllEncodable(rs) && |Concat(rs)| <= SECTOR_SIZE
  }

  /** A sector from which the directory can be read back. */
  ghost predicate SectorHolds(data: seq<byte>, d: Dir, sectors: map<Path, nat>) {
    Known(d, sectors) && |data| == SECTOR_SIZE && Describes(ReadAll(data), d, sectors)
  }

  lemma {:induction false} ConcatAppend(rs: seq<Record>, r: Record)
    requires AllEncodable(rs) && Encodable(r)
    ensures AllEncodable(rs + [r])
    ensures Concat(rs + [r]) == Concat(rs) + RecordBytes(r)
  {
    hide RecordBytes, Encodable;
    if rs == [] {
      assert rs + [r] == [r];
      assert Concat([r]) == RecordBytes(r) + Concat([r][1..]);
    } else {
      ConcatAppend(rs[1..], r);
      assert (rs + [r])[1..] == rs[1..] + [r];
    }
  }

  lemma {:induction false} ConcatPrefix(rs: seq<Record>, n: nat)
    requires AllEncodable(rs) && n <= |rs|
    ensures |Concat(rs[..n])| <= |Concat(rs)|
  {
    hide RecordBytes, Encodable;
    if n > 0 {
      ConcatPrefix(rs[1..], n - 1);
      assert rs[..n][1..] == rs[1..][..n - 1];
    }
  }

  /** Turns the records into bytes; a value that does not fit its field raises. */
  method EncodeAll(rs: seq<Record>) returns (r: Outcome<seq<seq<byte>>, Error>)
    ensures r == Err(NotEncodable) <==> !AllEncodable(rs)
    ensures r.Err? ==> r == Err(NotEncodable)
    ensures r.Ok? ==> |r.value| == |rs| && forall i :: 0 <= i < |rs| ==> r.value[i] == RecordBytes(rs[i])
  {
    hide RecordBytes, Encodable;
    var entries: seq<seq<byte>> := [];
    while |entries| < |rs|
      invariant |entries| <= |rs|
      invariant forall i :: 0 <= i < |entries| ==> Encodable(rs[i]) && entries[i] == RecordBytes(rs[i])
    {
      if !Encodable(rs[|entries|]) {
        return Err(NotEncodable);
      }
      var entry := DirectoryRecord(rs[|entries|]);
      entries := entries + [entry];
    }
    r := Ok(entries);
  }

  /** Copies the entries one behind the other into an empty sector. */
  method FillSector(entries: seq<seq<byte>>, ghost rs: seq<Record>) returns (r: Outcome<seq<byte>, Error>)
    requires AllEncodable(rs) && |entries| == |rs|
    requires forall i :: 0 <= i < |rs| ==> entries[i] == RecordBytes(rs[i])
    ensures r.Ok? <==> FitsSector(rs)
    ensures r.Err? ==> r == Err(DirectoryTooLong)
    ensures r.Ok? ==> r.value == Concat(rs) + Zeros(SECTOR_SIZE - |Concat(rs)|)
  {
    hide RecordBytes, Encodable, Concat, Splice;
    var data := Zeros(SECTOR_SIZE);
    var cursor := 0;
    var i := 0;
    NothingWritten(rs);
    while i < |entries|
      invariant i <= |entries| && cursor <= SECTOR_SIZE
      invariant AllEncodable(rs[..i]) && |Concat(rs[..i])| == cursor
      invariant data == Concat(rs[..i]) + Zeros(SECTOR_SIZE - cursor)
    {
      ConcatAppend(rs[..i], rs[i]);
      assert rs[..i + 1] == rs[..i] + [rs[i]];
      ConcatPrefix(rs, i + 1);
      if cursor + |entries[i]| > SECTOR_SIZE {
        return Err(DirectoryTooLong);
      }
      data := Splice(data, cursor, entries[i]);
      cursor := cursor + |entries[i]|;
      i := i + 1;
    }
    assert rs[..i] == rs;
    r := Ok(data);
  }

  lemma NothingWritten(rs: seq<Record>)
    ensures rs[..0] == [] && Concat(rs[..0]) == []
  {
  }

  method BuildDirectorySector(d: Dir, sectors: map<Path, nat>) returns (r: Outcome<seq<byte>, Error>)
    requires Known(d, sectors)
    ensures r.Ok? ==> SectorHolds(r.value, d, sectors) && NamedInUpperCase(ReadAll(r.value), d)
    ensures exists rs :: Describes(rs, d, sectors)
    ensures forall rs :: Describes(rs, d, sectors) ==>
              && (r.Ok? <==> FitsSector(rs))
              && (r.Ok? ==> r.value == Concat(rs) + Zeros(SECTOR_SIZE - |Concat(rs)|))
              && (r.Err? ==> r.error == if AllEncodable(rs) then DirectoryTooLong else NotEncodable)
  {
    hide Known, Encodable, RecordBytes, Concat, ReadAll, Enumerates, SortedBy, DirName, FileName, NamedInUpperCase;
    var cs := Sort(d.children, Upper);
    var ns := Sort(d.files.Keys, Same);
    OrdersKnown(cs, ns, d, sectors);
    var rs := Heads(d) + DirRecords(cs, d, sectors) + FileRecords(ns, d);
    assert rs == AllRecords(cs, ns, d, sectors);
    assert Describes(rs, d, sectors);
    forall rs' | Describes(rs', d, sectors)
      ensures rs' == rs
    {
      DescribesUnique(rs', rs, d, sectors);
    }
    var entries := EncodeAll(rs);
    if entries.Err? {
      return Err(entries.error);
    }
    r := FillSector(entries.value, rs);
    if r.Ok? {
      NamesNotEmpty(cs, ns, d, sectors);
      SectorRoundTrip(rs, SECTOR_SIZE - |Concat(rs)|);
      DescribedInUpperCase(rs, d, sectors);
    }
  }

  lemma NamesNotEmpty(cs: seq<string>, ns: seq<string>, d: Dir, sectors: map<Path, nat>)
    requires Orders(cs, ns, d) && Known(d, sectors)
    ensures var rs := AllRecords(cs, ns, d, sectors); forall i :: 0 <= i < |rs| ==> rs[i].name != []
  {
    OrdersKnown(cs, ns, d, sectors);
  }

  // ------------------------------------------------------------------ path tables

  function EntryOf(d: Dir): TableEntry {
    TableEntry(d.isoName, d.sector, d.parentIndex)
  }

  function Entries(ds: seq<Dir>): (es: seq<TableEntry>)
    ensures |es| == |ds| && forall i :: 0 <= i < |ds| ==> es[i] == EntryOf(ds[i])
  {
    seq(|ds|, i requires 0 <= i < |ds| => EntryOf(ds[i]))
  }

  predicate EntriesFit(es: seq<TableEntry>) {
    forall i :: 0 <= i < |es| ==> TableEncodable(es[i])
  }

  lemma {:induction false} TableAppend(es: seq<TableEntry>, e: TableEntry, big: bool)
    requires EntriesFit(es) && TableEncodable(e)
    ensures EntriesFit(es + [e])
    ensures TableConcat(es + [e], big) == TableConcat(es, big) + TableBytes(e, big)
  {
    hide TableBytes, TableEncodable;
    if es == [] {
      assert es + [e] == [e];
      assert TableConcat([e], big) == TableBytes(e, big) + TableConcat([e][1..], big);
    } else {
      TableAppend(es[1..], e, big);
      assert (es + [e])[1..] == es[1..] + [e];
    }
  }

  lemma {:induction false} SameLength(es: seq<TableEntry>)
    requires EntriesFit(es)
    ensures |TableConcat(es, true)| == |TableConcat(es, false)|
  {
    hide TableEncodable;
    if es != [] {
      SameLength(es[1..]);
    }
  }

  /** One entry, filled into a buffer of its length and padded to even length. */
  method BuildEntry(e: TableEntry, big: bool) returns (s: seq<byte>)
    requires TableEncodable(e)
    ensures s == TableBytes(e, big)
  {
    hide LittleEndian, BigEndian, Splice;
    s := Zeros(8 + |e.name|);
    s := Splice(s, 0, [|e.name|]);
    s := Splice(s, 2, Ordered(e.sector, 4, big));
    s := Splice(s, 6, Ordered(e.parent, 2, big));
    s := Splice(s, 8, e.name);
    if |e.name| % 2 == 1 {
      s := s + [0];
    }
  }

  /** The little-endian and the big-endian table. */
  method PathTable(ds: seq<Dir>) returns (r: Outcome<(seq<byte>, seq<byte>), Error>)
    ensures r.Ok? <==> EntriesFit(Entries(ds))
    ensures r.Err? ==> r == Err(NotEncodable)
    ensures r.Ok? ==> r.value == (TableConcat(Entries(ds), false), TableConcat(Entries(ds), true))
  {
    hide TableBytes, TableEncodable, EntryOf;
    var little: seq<byte>, big: seq<byte> := [], [];
    var i := 0;
    while i < |ds|
      invariant i <= |ds| && EntriesFit(Entries(ds)[..i])
      invariant little == TableConcat(Entries(ds)[..i], false) && big == TableConcat(Entries(ds)[..i], true)
    {
      var e := EntryOf(ds[i]);
      if !TableEncodable(e) {
        return Err(NotEncodable);
      }
      TableAppend(Entries(ds)[..i], e, false);
      TableAppend(Entries(ds)[..i], e, true);
      assert Entries(ds)[..i + 1] == Entries(ds)[..i] + [e];
      var entry := BuildEntry(e, false);
      little := little + entry;
      entry := BuildEntry(e, true);
      big := big + entry;
      i := i + 1;
    }
    assert Entries(ds)[..i] == Entries(ds);
    r := Ok((little, big));
  }

  // ----------------------------------------------------------- volume descriptors

  const STANDARD_ID: seq<byte> := [0x43, 0x44, 0x30, 0x30, 0x31]
  const SYSTEM_ID: string := "XBOX LINUX"
  const VOLUME_ID: string := "XBOXLINUX"

  function Padded(text: string): (s: seq<byte>)
    requires Ascii(text) && |text| <= 32
    ensures |s| == 32 && forall i :: 0 <= i < 32 ==> s[i] == if i < |text| then text[i] as int else ' ' as int
  {
    Encode(text) + seq(32 - |text|, _ => 0x20)
  }

  function RootRecordOf(root: nat): Record {
    Record(root, SECTOR_SIZE, SELF, DIRECTORY)
  }

  predicate PvdEncodable(root: nat, l: nat, m: nat, total: nat, tableSize: nat) {
    root < LIMIT && l < LIMIT && m < LIMIT && total < LIMIT && tableSize < LIMIT
  }

  /** The fields of the primary volume descriptor (section 8.4 of ECMA-119) and where
      they stand. */
  ghost predicate IsPvd(s: seq<byte>, root: nat, l: nat, m: nat, total: nat, tableSize: nat) {
    && PvdEncodable(root, l, m, total, tableSize)
    && |s| == SECTOR_SIZE
    && s[0] == 1 && s[1..6] == STANDARD_ID && s[6] == 1
    && s[8..40] == Padded(SYSTEM_ID) && s[40..72] == Padded(VOLUME_ID)
    && s[80..88] == Both32(total)
    && s[120..124] == Both16(1) && s[124..128] == Both16(1) && s[128..132] == Both16(SECTOR_SIZE)
    && s[132..140] == Both32(tableSize)
    && s[140..144] == LittleEndian(l, 4) && s[144..148] == Zeros(4)
    && s[148..152] == BigEndian(m, 4) && s[152..156] == Zeros(4)
    && s[156..190] == RecordBytes(RootRecordOf(root))
    && s[881] == 1
    && (forall i :: i == 7 || 72 <= i < 80 || 88 <= i < 120 || 190 <= i < 881 || 882 <= i < 2048 ==> s[i] == 0)
  }

  method BuildPvd(root: nat, l: nat, m: nat, total: nat, tableSize: nat) returns (r: Outcome<seq<byte>, Error>)
    ensures r.Ok? <==> PvdEncodable(root, l, m, total, tableSize)
    ensures r.Err? ==> r == Err(NotEncodable)
    ensures r.Ok? ==> IsPvd(r.value, root, l, m, total, tableSize)
  {
    hide Both32, Both16, LittleEndian, BigEndian, RecordBytes, Padded, Splice, Zeros;
    if !PvdEncodable(root, l, m, total, tableSize) {
      return Err(NotEncodable);
    }
    var s := Zeros(SECTOR_SIZE);
    s := Splice(s, 0, [1]);
    s := Splice(s, 1, STANDARD_ID);
    s := Splice(s, 6, [1]);
    s := Splice(s, 8, Padded(SYSTEM_ID));
    s := Splice(s, 40, Padded(VOLUME_ID));
    s := Splice(s, 80, Both32(total));
    s := Splice(s, 120, Both16(1));
    s := Splice(s, 124, Both16(1));
    s := Splice(s, 128, Both16(SECTOR_SIZE));
    s := Splice(s, 132, Both32(tableSize));
    s := Splice(s, 140, LittleEndian(l, 4));
    s := Splice(s, 144, Zeros(4));
    s := Splice(s, 148, BigEndian(m, 4));
    s := Splice(s, 152, Zeros(4));
    var rootRecord := DirectoryRecord(RootRecordOf(root));
    s := Splice(s, 156, rootRecord);
    s := Splice(s, 881, [1]);
    r := Ok(s);
  }

  /** Section 8.3 of ECMA-119: type 255, the standard identifier CD001, version 1. */
  function Terminator(): (s: seq<byte>)
    ensures |s| == SECTOR_SIZE && s[..7] == [255, 0x43, 0x44, 0x30, 0x30, 0x31, 1]
    ensures forall i :: 7 <= i < |s| ==> s[i] == 0
  {
    [255] + STANDARD_ID + [1] + Zeros(SECTOR_SIZE - 7)
  }

  method BuildTerminator() returns (s: seq<byte>)
    ensures |s| == 2048 && s[..7] == [255, 'C' as int, 'D' as int, '0' as int, '0' as int, '1' as int, 1]
    ensures forall i :: 7 <= i < |s| ==> s[i] == 0
    ensures s == Terminator()
  {
    s := Zeros(SECTOR_SIZE);
    s := Splice(s, 0, [255]);
    s := Splice(s, 1, STANDARD_ID);
    s := Splice(s, 6, [1]);
  }
}
