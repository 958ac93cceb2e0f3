/** Building the BusyBox initramfs archive, and rebuilding it with another init. */
module NewcBuilder {
  import opened Bytes
  import opened NewcFormat
  import opened NewcRewriter

  const S_IFDIR := 0x4000
  const S_IFLNK := 0xA000
  const S_IFCHR := 0x2000
  const S_IFREG := 0x8000

  const DIRECTORIES: seq<string> := [
    ".", "boot", "dev", "etc", "home", "mnt", "mnt/C", "mnt/cd", "mnt/D", "mnt/E", "mnt/F", "mnt/G", "mnt/X",
    "mnt/Y", "mnt/Z", "mnt/root", "proc", "root", "run", "sys", "tmp", "tc", "tc/tcz", "usr", "usr/bin", "usr/lib",
    "usr/lib/modules", "usr/sbin", "var", "var/service", "var/spool", "var/spool/cron"
  ]

  predicate Ascii(s: string) {
    forall i :: 0 <= i < |s| ==> s[i] < 128 as char
  }

  lemma DirectoryNames(i: nat)
    requires i < |DIRECTORIES|
    ensures DIRECTORIES[i] != "init" && DIRECTORIES[i] != "TRAILER!!!"
    ensures Ascii(DIRECTORIES[i]) && |DIRECTORIES[i]| < 100
  {
  }

  /** The arguments of add_entry, apart from the inode number. */
  datatype Member = Member(name: string, mode: nat, data: seq<byte>, major: nat, minor: nat, nlink: nat)

  datatype Extra = Extra(name: string, data: seq<byte>, mode: nat)

  /** The files that are read from the source tree. */
  datatype Sources = Sources(profile: seq<byte>, resolv: seq<byte>, busybox: seq<byte>)

  /** S_IFREG | mode */
  function Regular(mode: nat): nat {
    if mode / S_IFREG % 2 == 1 then mode else mode + S_IFREG
  }

  function Directory(name: string): Member {
    Member(name, S_IFDIR + 0x1ED, [], 0, 0, 2)
  }

  function File(name: string, data: seq<byte>, mode: nat): Member {
    Member(name, Regular(mode), data, 0, 0, 1)
  }

  function Symlink(name: string, target: string): Member
    requires Ascii(target)
  {
    Member(name, S_IFLNK + 0x1FF, Chars(target), 0, 0, 1)
  }

  function Directories(): (r: seq<Member>)
    ensures |r| == |DIRECTORIES|
  {
    seq(|DIRECTORIES|, i requires 0 <= i < |DIRECTORIES| => Directory(DIRECTORIES[i]))
  }

  function Links(): seq<Member> {
    [Symlink("bin", "usr/bin"), Symlink("lib", "usr/lib"), Symlink("sbin", "usr/sbin"), Symlink("var/run", "../run"),
     Member("dev/console", S_IFCHR + 0x180, [], 5, 1, 1)]
  }

  function Before(): seq<Member> {
    Directories() + Links()
  }

  function Init(data: seq<byte>): Member {
    File("init", data, 0x1ED)
  }

  function Extras(extra: seq<Extra>): (r: seq<Member>)
    ensures |r| == |extra|
  {
    seq(|extra|, i requires 0 <= i < |extra| => File(extra[i].name, extra[i].data, extra[i].mode))
  }

  function After(src: Sources, extra: seq<Extra>): seq<Member> {
    [File("etc/profile", src.profile, 0x1A4), File("etc/resolv.conf", src.resolv, 0x1A4),
     File("usr/bin/busybox", src.busybox, 0x1ED)]
    + Extras(extra)
    + [Member("TRAILER!!!", 0, [], 0, 0, 1)]
  }

  function Members(init: seq<byte>, src: Sources, extra: seq<Extra>): seq<Member> {
    Before() + [Init(init)] + After(src, extra)
  }

  function EntryOf(m: Member, ino: nat): Entry
    requires Ascii(m.name)
  {
    Entry(MAGIC1, [ino, m.mode, 0, 0, m.nlink, 0, |m.data|, 0, 0, m.major, m.minor, |m.name| + 1, 0], Chars(m.name), m.data)
  }

  ghost predicate AllAscii(ms: seq<Member>) {
    forall i :: 0 <= i < |ms| ==> Ascii(ms[i].name)
  }

  /** Entries are numbered from one on. */
  ghost function Entries(ms: seq<Member>): (es: seq<Entry>)
    requires AllAscii(ms)
    ensures |es| == |ms| && forall i :: 0 <= i < |ms| ==> es[i] == EntryOf(ms[i], i + 1)
  {
    seq(|ms|, i requires 0 <= i < |ms| => EntryOf(ms[i], i + 1))
  }

  // ------------------------------------------------------------------- building

  class Buffer {
    var raw: seq<byte>

    constructor ()
      ensures raw == []
    {
      raw := [];
    }

    method Pad4()
      modifies this
      ensures raw == old(raw) + Zeros(Pad(|old(raw)|))
    {
      raw := raw + Zeros(Align4(|raw|) - |raw|);
    }

    /** Appends header, name and data, each padded by the length of the whole buffer. */
    method AddEntry(m: Member, ino: nat)
      requires Ascii(m.name)
      modifies this
      ensures raw == old(raw) + PrintEntryAt(|old(raw)|, EntryOf(m, ino))
    {
      hide Chars, MakeHeader;
      ghost var e := EntryOf(m, ino);
      ghost var head := MakeHeader(e.magic, e.values) + e.name + [0];
      raw := raw + MakeHeader(MAGIC1, [ino, m.mode, 0, 0, m.nlink, 0, |m.data|, 0, 0, m.major, m.minor, |m.name| + 1, 0]);
      raw := raw + (Chars(m.name) + [0]);
      assert raw == old(raw) + head;
      Pad4();
      raw := raw + m.data;
      ghost var body := head + Zeros(Pad(|old(raw)| + |head|)) + m.data;
      assert raw == old(raw) + body;
      Pad4();
      assert raw == old(raw) + (body + Zeros(Pad(|old(raw)| + |body|)));
    }
  }

  lemma OneMore(done: seq<Member>, m: Member)
    requires AllAscii(done) && Ascii(m.name)
    ensures AllAscii(done + [m])
    ensures Print(Entries(done + [m])) == Print(Entries(done)) + PrintEntry(EntryOf(m, |done| + 1))
  {
    assert Entries(done + [m]) == Entries(done) + [EntryOf(m, |done| + 1)];
    PrintAppend(Entries(done), EntryOf(m, |done| + 1));
  }

  /** Adds members with consecutive inode numbers; stops at a name that is not ASCII. */
  method AddAll(buf: Buffer, ghost done: seq<Member>, ms: seq<Member>, ino: nat) returns (ok: bool)
    requires AllAscii(done) && buf.raw == Print(Entries(done)) && ino == |done| + 1
    modifies buf
    ensures ok <==> AllAscii(ms)
    ensures ok ==> AllAscii(done + ms) && buf.raw == Print(Entries(done + ms))
  {
    hide Entries, Print, Ascii;
    assert done + ms[..0] == done;
    var i := 0;
    while i < |ms|
      invariant i <= |ms| && AllAscii(ms[..i]) && AllAscii(done + ms[..i])
      invariant buf.raw == Print(Entries(done + ms[..i]))
    {
      if !Ascii(ms[i].name) {
        return false;
      }
      OneMore(done + ms[..i], ms[i]);
      assert done + ms[..i] + [ms[i]] == done + ms[..i + 1];
      PrintedAligned(|buf.raw|, EntryOf(ms[i], ino + i));
      buf.AddEntry(ms[i], ino + i);
      i := i + 1;
    }
    assert ms[..i] == ms;
    ok := true;
  }

  /** What build returns. */
  ghost function Built(init: seq<byte>, src: Sources, extra: seq<Extra>): Outcome<seq<byte>, Error> {
    if AllAscii(Members(init, src, extra)) then Ok(Print(Entries(Members(init, src, extra)))) else Err(NotAscii)
  }

  lemma FixedNamesAscii(init: seq<byte>)
    ensures AllAscii(Before()) && AllAscii([Init(init)])
  {
    hide Before;
    forall i | 0 <= i < |Before()|
      ensures Ascii(Before()[i].name)
    {
      BeforeIsOrdinary(i);
    }
  }

  method Build(init: seq<byte>, src: Sources, extra: seq<Extra>) returns (r: Outcome<seq<byte>, Error>)
    ensures r == Built(init, src, extra)
  {
    hide Print, Ascii, Before, After;
    FixedNamesAscii(init);
    var buf := new Buffer();
    assert Print(Entries([])) == [] by {
      NothingPrinted();
    }
    var before := Before();
    var ok := AddAll(buf, [], before, 1);
    assert [] + before == before;
    ok := AddAll(buf, before, [Init(init)], |before| + 1);
    ghost var done := before + [Init(init)];
    var after := After(src, extra);
    ok := AddAll(buf, done, after, |before| + 2);
    ghost var all := Members(init, src, extra);
    assert all == done + after;
    if !ok {
      assert exists i :: 0 <= i < |after| && !Ascii(after[i].name);
      var i :| 0 <= i < |after| && !Ascii(after[i].name);
      assert all[|done| + i] == after[i];
      return Err(NotAscii);
    }
    r := Ok(buf.raw);
  }

  lemma NothingPrinted()
    ensures Print(Entries([])) == []
  {
  }

  // -------------------------------------------------------- rebuilding the init

  const INIT: seq<byte> := Chars("init")

  lemma CharsInjective(a: string, b: string)
    requires Ascii(a) && Ascii(b) && a != b
    ensures Chars(a) != Chars(b)
  {
    if |a| == |b| {
      var i :| 0 <= i < |a| && a[i] != b[i];
      assert Chars(a)[i] != Chars(b)[i];
    }
  }

  /** Names and numbers that the format can hold, and extra names that collide neither
      with the init nor with the trailer. */
  ghost predicate Buildable(src: Sources, extra: seq<Extra>) {
    && |src.profile| < LIMIT && |src.resolv| < LIMIT && |src.busybox| < LIMIT
    && |extra| < LIMIT - 100
    && forall i :: 0 <= i < |extra| ==> BuildableExtra(extra[i])
  }

  ghost predicate BuildableExtra(x: Extra) {
    && Ascii(x.name) && x.name != "init" && x.name != "TRAILER!!!"
    && |x.name| < LIMIT - 1 && |x.data| < LIMIT && Regular(x.mode) < LIMIT
  }

  /** A member that prints properly and is neither the init nor the trailer. */
  ghost predicate Ordinary(m: Member) {
    && Ascii(m.name) && m.name != "init" && m.name != "TRAILER!!!" && Storable(m)
  }

  ghost predicate Storable(m: Member) {
    |m.name| < LIMIT - 1 && |m.data| < LIMIT && m.mode < LIMIT && m.major < LIMIT && m.minor < LIMIT && m.nlink < LIMIT
  }

  lemma OrdinaryEntry(m: Member, ino: nat)
    requires Ascii(m.name) && Storable(m) && ino < LIMIT
    ensures Proper(EntryOf(m, ino))
    ensures m.name != "init" ==> EntryOf(m, ino).name != INIT
    ensures m.name != "TRAILER!!!" ==> EntryOf(m, ino).name != TRAILER
  {
    AsciiIsUtf8(Chars(m.name));
    if m.name != "init" {
      CharsInjective(m.name, "init");
    }
    if m.name != "TRAILER!!!" {
      CharsInjective(m.name, "TRAILER!!!");
    }
  }

  lemma BeforeIsOrdinary(i: nat)
    requires i < |Before()|
    ensures Ordinary(Before()[i])
  {
    hide Links, DIRECTORIES;
    if i < |DIRECTORIES| {
      DirectoryNames(i);
      assert Before()[i] == Directory(DIRECTORIES[i]);
    } else {
      LinksAreOrdinary(i - |DIRECTORIES|);
      assert Before()[i] == Links()[i - |DIRECTORIES|];
    }
  }

  lemma LinksAreOrdinary(i: nat)
    requires i < |Links()|
    ensures Ordinary(Links()[i])
  {
  }

  lemma AfterIsOrdinary(src: Sources, extra: seq<Extra>, i: nat)
    requires Buildable(src, extra) && i < |After(src, extra)|
    ensures i < |After(src, extra)| - 1 ==> Ordinary(After(src, extra)[i])
    ensures i == |After(src, extra)| - 1 ==> After(src, extra)[i] == Member("TRAILER!!!", 0, [], 0, 0, 1)
  {
    if 3 <= i < 3 + |extra| {
      assert After(src, extra)[i] == Extras(extra)[i - 3];
      assert BuildableExtra(extra[i - 3]);
    }
  }

  lemma MembersByPosition(init: seq<byte>, src: Sources, extra: seq<Extra>, i: nat)
    requires Buildable(src, extra) && |init| < LIMIT && i < |Members(init, src, extra)|
    ensures |Members(init, src, extra)| < LIMIT - 1
    ensures var m := Members(init, src, extra)[i];
            var at := |Before()|;
      && Ascii(m.name) && Storable(m)
      && (i == at ==> m == Init(init))
      && (i != at ==> m.name != "init")
      && (i < |Members(init, src, extra)| - 1 ==> m.name != "TRAILER!!!")
  {
    hide Before, After;
    var b := Before();
    SizeOfFixed(src, extra);
    if i < |b| {
      BeforeIsOrdinary(i);
      assert Members(init, src, extra)[i] == b[i];
    } else if i > |b| {
      AfterIsOrdinary(src, extra, i - |b| - 1);
      assert Members(init, src, extra)[i] == After(src, extra)[i - |b| - 1];
    }
  }

  lemma SizeOfFixed(src: Sources, extra: seq<Extra>)
    ensures |Before()| == 37 && |After(src, extra)| == |extra| + 4
  {
  }

  lemma BuiltIsArchive(init: seq<byte>, src: Sources, extra: seq<Extra>)
    requires Buildable(src, extra) && |init| < LIMIT
    ensures AllAscii(Members(init, src, extra)) && Archive(Entries(Members(init, src, extra)))
  {
    hide Members, Proper, EntryOf, Ascii, Storable, Chars;
    var ms := Members(init, src, extra);
    forall i | 0 <= i < |ms|
      ensures Ascii(ms[i].name)
    {
      MembersByPosition(init, src, extra, i);
    }
    var es := Entries(ms);
    forall i | 0 <= i < |es|
      ensures Proper(es[i]) && (i < |es| - 1 ==> es[i].name != TRAILER)
    {
      MembersByPosition(init, src, extra, i);
      OrdinaryEntry(ms[i], i + 1);
    }
  }

  lemma ReplacedMember(a: seq<byte>, b: seq<byte>, ino: nat)
    ensures ReplaceEntry(EntryOf(Init(a), ino), INIT, b) == EntryOf(Init(b), ino)
  {
  }

  /** Replacing commutes with building: rewriting the init of a built archive gives, byte
      for byte, the archive built with the other init. */
  lemma ReplaceCommutesWithBuild(a: seq<byte>, b: seq<byte>, src: Sources, extra: seq<Extra>)
    requires Buildable(src, extra) && |a| < LIMIT && |b| < LIMIT
    ensures Built(a, src, extra).Ok? && Built(b, src, extra).Ok?
    ensures Rewritten(Built(a, src, extra).value, INIT, b) == Built(b, src, extra)
  {
    hide Members, Proper, EntryOf, Ascii, Storable, Chars, Print, Parse, Buildable, Before;
    var ms, ms' := Members(a, src, extra), Members(b, src, extra);
    BuiltIsArchive(a, src, extra);
    BuiltIsArchive(b, src, extra);
    var es, es' := Entries(ms), Entries(ms');
    ArchiveFields(es);
    ParsePrint(es);
    SameShape(a, b, src, extra);
    var at := |Before()|;
    MembersByPosition(a, src, extra, at);
    InitNamed(a, at + 1);
    assert es[at].name == INIT;
    forall i | 0 <= i < |es|
      ensures ReplaceEntry(es[i], INIT, b) == es'[i]
    {
      MembersByPosition(a, src, extra, i);
      MembersByPosition(b, src, extra, i);
      if i == at {
        ReplacedMember(a, b, i + 1);
      } else {
        OrdinaryEntry(ms[i], i + 1);
      }
    }
    assert ReplaceAll(es, INIT, b) == es';
  }

  lemma ArchiveFields(es: seq<Entry>)
    requires Archive(es)
    ensures AllFields(es)
  {
    assert forall i :: 0 <= i < |es| ==> Proper(es[i]);
  }

  lemma InitNamed(a: seq<byte>, ino: nat)
    ensures EntryOf(Init(a), ino).name == INIT
  {
  }

  lemma SameShape(a: seq<byte>, b: seq<byte>, src: Sources, extra: seq<Extra>)
    ensures |Members(a, src, extra)| == |Members(b, src, extra)| && |Before()| < |Members(a, src, extra)|
    ensures forall i :: 0 <= i < |Members(a, src, extra)| && i != |Before()| ==> Members(a, src, extra)[i] == Members(b, src, extra)[i]
  {
  }

  // --------------------------------------------------- what an unpacker finds

  ghost predicate Named(e: Entry, name: string) {
    |e.name| == |name| && forall i :: 0 <= i < |name| ==> e.name[i] == name[i] as int
  }

  /** Mode, link count and device numbers of a parsed entry; all other fields but inode,
      size and name length are zero. */
  ghost predicate Node(e: Entry, mode: nat, links: nat, major: nat, minor: nat) {
    && |e.values| == 13
    && e.values[1] == mode && e.values[4] == links && e.values[9] == major && e.values[10] == minor
    && e.values[2] == e.values[3] == e.values[5] == e.values[7] == e.values[8] == e.values[12] == 0
    && e.values[6] == |e.data| && e.values[11] == |e.name| + 1
  }

  /** drwxr-xr-x */
  ghost predicate IsDirectory(e: Entry, name: string) {
    Named(e, name) && Node(e, 0x41ED, 2, 0, 0) && e.data == []
  }

  /** lrwxrwxrwx */
  ghost predicate IsLink(e: Entry, name: string, target: string) {
    && Named(e, name) && Node(e, 0xA1FF, 1, 0, 0)
    && |e.data| == |target| && forall i :: 0 <= i < |target| ==> e.data[i] == target[i] as int
  }

  ghost predicate IsFile(e: Entry, name: string, data: seq<byte>, mode: nat) {
    Named(e, name) && Node(e, mode, 1, 0, 0) && e.data == data
  }

  /** The mode with the bit of a regular file set and no other bit changed. */
  ghost predicate RegularMode(m: nat, mode: nat) {
    m / 0x8000 % 2 == 1 && m % 0x8000 == mode % 0x8000 && m / 0x1_0000 == mode / 0x1_0000
  }

  lemma RegularBits(mode: nat)
    ensures RegularMode(Regular(mode), mode)
  {
    var low := mode % 0x8000;
    if mode / S_IFREG % 2 != 1 {
      QuotientUnique(mode, 0x1_0000, mode / 0x1_0000, low);
      QuotientUnique(mode + S_IFREG, 0x1_0000, mode / 0x1_0000, low + S_IFREG);
      QuotientUnique(mode + S_IFREG, S_IFREG, 2 * (mode / 0x1_0000) + 1, low);
    }
  }

  lemma DirectoryFound(name: string, ino: nat)
    requires Ascii(name)
    ensures IsDirectory(EntryOf(Directory(name), ino), name)
  {
  }

  lemma LinkFound(name: string, target: string, ino: nat)
    requires Ascii(name) && Ascii(target)
    ensures IsLink(EntryOf(Symlink(name, target), ino), name, target)
  {
  }

  lemma FileFound(name: string, data: seq<byte>, mode: nat, ino: nat)
    requires Ascii(name)
    ensures IsFile(EntryOf(File(name, data, mode), ino), name, data, Regular(mode))
  {
  }

  lemma OtherFound(m: Member, ino: nat)
    requires Ascii(m.name)
    ensures Named(EntryOf(m, ino), m.name) && Node(EntryOf(m, ino), m.mode, m.nlink, m.major, m.minor)
  {
  }

  /** The members by position. */
  lemma MembersAre(init: seq<byte>, src: Sources, extra: seq<Extra>)
    ensures var ms := Members(init, src, extra);
      && |ms| == 42 + |extra| && |DIRECTORIES| == 32
      && (forall i :: 0 <= i < 32 ==> ms[i] == Directory(DIRECTORIES[i]))
      && Ascii("usr/bin") && Ascii("usr/lib") && Ascii("usr/sbin") && Ascii("../run")
      && ms[32] == Symlink("bin", "usr/bin") && ms[33] == Symlink("lib", "usr/lib")
      && ms[34] == Symlink("sbin", "usr/sbin") && ms[35] == Symlink("var/run", "../run")
      && ms[36] == Member("dev/console", 0x2180, [], 5, 1, 1)
      && ms[37] == File("init", init, 0x1ED)
      && ms[38] == File("etc/profile", src.profile, 0x1A4) && ms[39] == File("etc/resolv.conf", src.resolv, 0x1A4)
      && ms[40] == File("usr/bin/busybox", src.busybox, 0x1ED)
      && (forall i :: 0 <= i < |extra| ==> ms[41 + i] == File(extra[i].name, extra[i].data, extra[i].mode))
      && ms[41 + |extra|] == Member("TRAILER!!!", 0, [], 0, 0, 1)
  {
    hide File, Directory, DIRECTORIES;
    SizeOfFixed(src, extra);
    var ms, after := Members(init, src, extra), After(src, extra);
    assert forall i :: 0 <= i < 37 ==> ms[i] == Before()[i];
    assert forall i :: 0 <= i < |after| ==> ms[38 + i] == after[i];
  }

  ghost predicate IsExtra(e: Entry, x: Extra) {
    exists mode :: RegularMode(mode, x.mode) && IsFile(e, x.name, x.data, mode)
  }

  lemma ExtraFound(x: Extra, ino: nat)
    requires Ascii(x.name)
    ensures IsExtra(EntryOf(File(x.name, x.data, x.mode), ino), x)
  {
    hide IsFile, RegularMode;
    FileFound(x.name, x.data, x.mode, ino);
    RegularBits(x.mode);
  }

  /** What an unpacker finds in a built archive, entry by entry. */
  ghost predicate Unpacks(es: seq<Entry>, init: seq<byte>, src: Sources, extra: seq<Extra>) {
    && |es| == 42 + |extra| && |DIRECTORIES| == 32
    && (forall i :: 0 <= i < |es| ==> es[i].values != [] && es[i].values[0] == i + 1)
    && (forall i :: 0 <= i < 32 ==> IsDirectory(es[i], DIRECTORIES[i]))
    && IsLink(es[32], "bin", "usr/bin") && IsLink(es[33], "lib", "usr/lib") && IsLink(es[34], "sbin", "usr/sbin")
    && IsLink(es[35], "var/run", "../run")
    && Named(es[36], "dev/console") && Node(es[36], 0x2180, 1, 5, 1) && es[36].data == []
    && IsFile(es[37], "init", init, 0x81ED)
    && IsFile(es[38], "etc/profile", src.profile, 0x81A4) && IsFile(es[39], "etc/resolv.conf", src.resolv, 0x81A4)
    && IsFile(es[40], "usr/bin/busybox", src.busybox, 0x81ED)
    && (forall i :: 0 <= i < |extra| ==> IsExtra(es[41 + i], extra[i]))
    && Named(es[41 + |extra|], "TRAILER!!!") && Node(es[41 + |extra|], 0, 1, 0, 0) && es[41 + |extra|].data == []
  }

  lemma EntriesUnpack(init: seq<byte>, src: Sources, extra: seq<Extra>)
    requires AllAscii(Members(init, src, extra))
    ensures Unpacks(Entries(Members(init, src, extra)), init, src, extra)
  {
    hide Members, IsDirectory, IsLink, IsFile, IsExtra, EntryOf, File, Symlink, Directory, Ascii, DIRECTORIES,
         Named, Node;
    var ms := Members(init, src, extra);
    var es := Entries(ms);
    MembersAre(init, src, extra);
    forall i | 0 <= i < |es|
      ensures es[i].values != [] && es[i].values[0] == i + 1
    {
      Numbered(ms[i], i + 1);
    }
    forall i | 0 <= i < 32
      ensures IsDirectory(es[i], DIRECTORIES[i])
    {
      DirectoryNames(i);
      DirectoryFound(DIRECTORIES[i], i + 1);
    }
    ShortNames();
    LinkFound("bin", "usr/bin", 33);
    LinkFound("lib", "usr/lib", 34);
    LinkFound("sbin", "usr/sbin", 35);
    LinkFound("var/run", "../run", 36);
    OtherFound(ms[36], 37);
    NoData(ms[36], 37);
    FixedFiles(init, src, es);
    forall i | 0 <= i < |extra|
      ensures IsExtra(es[41 + i], extra[i])
    {
      FileNamed(extra[i].name, extra[i].data, extra[i].mode);
      ExtraFound(extra[i], 42 + i);
    }
    OtherFound(ms[41 + |extra|], 42 + |extra|);
    NoData(ms[41 + |extra|], 42 + |extra|);
  }

  lemma FileNamed(name: string, data: seq<byte>, mode: nat)
    ensures File(name, data, mode).name == name
  {
  }

  lemma NoData(m: Member, ino: nat)
    requires Ascii(m.name)
    ensures EntryOf(m, ino).data == m.data
  {
  }

  lemma Numbered(m: Member, ino: nat)
    requires Ascii(m.name)
    ensures EntryOf(m, ino).values != [] && EntryOf(m, ino).values[0] == ino
  {
  }

  lemma ShortNames()
    ensures Ascii("bin") && Ascii("lib") && Ascii("sbin") && Ascii("var/run") && Ascii("init") && Ascii("etc/profile")
    ensures Ascii("etc/resolv.conf") && Ascii("usr/bin/busybox")
    ensures Regular(0x1ED) == 0x81ED && Regular(0x1A4) == 0x81A4
  {
  }

  lemma FixedFiles(init: seq<byte>, src: Sources, es: seq<Entry>)
    requires Ascii("init") && Ascii("etc/profile") && Ascii("etc/resolv.conf") && Ascii("usr/bin/busybox") && |es| > 40
    requires Ascii(File("init", init, 0x1ED).name) && es[37] == EntryOf(File("init", init, 0x1ED), 38)
    requires Ascii(File("etc/profile", src.profile, 0x1A4).name) && es[38] == EntryOf(File("etc/profile", src.profile, 0x1A4), 39)
    requires Ascii(File("etc/resolv.conf", src.resolv, 0x1A4).name)
    requires es[39] == EntryOf(File("etc/resolv.conf", src.resolv, 0x1A4), 40)
    requires Ascii(File("usr/bin/busybox", src.busybox, 0x1ED).name)
    requires es[40] == EntryOf(File("usr/bin/busybox", src.busybox, 0x1ED), 41)
    ensures IsFile(es[37], "init", init, 0x81ED)
    ensures IsFile(es[38], "etc/profile", src.profile, 0x81A4) && IsFile(es[39], "etc/resolv.conf", src.resolv, 0x81A4)
    ensures IsFile(es[40], "usr/bin/busybox", src.busybox, 0x81ED)
  {
    hide IsFile, EntryOf, File, Ascii;
    ShortNames();
    FileFound("init", init, 0x1ED, 38);
    FileFound("etc/profile", src.profile, 0x1A4, 39);
    FileFound("etc/resolv.conf", src.resolv, 0x1A4, 40);
    FileFound("usr/bin/busybox", src.busybox, 0x1ED, 41);
  }

  /** Parsing a built archive finds the console with its device numbers, the links with
      their targets, the directories, the init and all the files. */
  lemma BuiltUnpacks(init: seq<byte>, src: Sources, extra: seq<Extra>)
    requires Buildable(src, extra) && |init| < LIMIT
    ensures Built(init, src, extra).Ok? && Parse(Built(init, src, extra).value).Ok?
    ensures Unpacks(Parse(Built(init, src, extra).value).value, init, src, extra)
  {
    hide Members, Unpacks, EntryOf, Ascii, Print, Parse, Archive, Buildable;
    BuiltIsArchive(init, src, extra);
    ParsePrint(Entries(Members(init, src, extra)));
    EntriesUnpack(init, src, extra);
  }

  // ------------------------------------------------------------ parents come first

  const LATER: seq<string> := [
    "bin", "lib", "sbin", "var/run", "dev/console", "init", "etc/profile", "etc/resolv.conf", "usr/bin/busybox"
  ]

  ghost function FixedName(i: nat): string
    requires i < 41
  {
    if i < 32 then DIRECTORIES[i] else LATER[i - 32]
  }

  /** Member i lies in directory j under its last component, or at the top. */
  ghost predicate Places(i: nat, nested: bool, j: nat, last: string)
    requires i < 41
  {
    if nested then j < i && j < 32 && '/' !in last && FixedName(i) == FixedName(j) + "/" + last
    else '/' !in FixedName(i)
  }

  lemma PlaceOfTop(i: nat) returns (nested: bool, j: nat, last: string)
    requires 0 <= i < 10
    ensures Places(i, nested, j, last)
  {
    nested, j, last := false, 0, "";
    if i == 6 {
      nested, j, last := true, 5, "C";
      assert FixedName(6) == FixedName(5) + "/" + "C";
    } else if i == 7 {
      nested, j, last := true, 5, "cd";
      assert FixedName(7) == FixedName(5) + "/" + "cd";
    } else if i == 8 {
      nested, j, last := true, 5, "D";
      assert FixedName(8) == FixedName(5) + "/" + "D";
    } else if i == 9 {
      nested, j, last := true, 5, "E";
      assert FixedName(9) == FixedName(5) + "/" + "E";
    }
  }

  lemma PlaceOfMount(i: nat) returns (nested: bool, j: nat, last: string)
    requires 10 <= i < 16
    ensures Places(i, nested, j, last)
  {
    nested, j, last := false, 0, "";
    if i == 10 {
      nested, j, last := true, 5, "F";
      assert FixedName(10) == FixedName(5) + "/" + "F";
    } else if i == 11 {
      nested, j, last := true, 5, "G";
      assert FixedName(11) == FixedName(5) + "/" + "G";
    } else if i == 12 {
      nested, j, last := true, 5, "X";
      assert FixedName(12) == FixedName(5) + "/" + "X";
    } else if i == 13 {
      nested, j, last := true, 5, "Y";
      assert FixedName(13) == FixedName(5) + "/" + "Y";
    } else if i == 14 {
      nested, j, last := true, 5, "Z";
      assert FixedName(14) == FixedName(5) + "/" + "Z";
    } else if i == 15 {
      nested, j, last := true, 5, "root";
      assert FixedName(15) == FixedName(5) + "/" + "root";
    }
  }

  lemma PlaceOfSystem(i: nat) returns (nested: bool, j: nat, last: string)
    requires 16 <= i < 32
    ensures Places(i, nested, j, last)
  {
    nested, j, last := false, 0, "";
    if i == 22 {
      nested, j, last := true, 21, "tcz";
      assert FixedName(22) == FixedName(21) + "/" + "tcz";
    } else if i == 24 {
      nested, j, last := true, 23, "bin";
      assert FixedName(24) == FixedName(23) + "/" + "bin";
    } else if i == 25 {
      nested, j, last := true, 23, "lib";
      assert FixedName(25) == FixedName(23) + "/" + "lib";
    } else if i == 26 {
      nested, j, last := true, 25, "modules";
      assert FixedName(26) == FixedName(25) + "/" + "modules";
    } else if i == 27 {
      nested, j, last := true, 23, "sbin";
      assert FixedName(27) == FixedName(23) + "/" + "sbin";
    } else if i == 29 {
      nested, j, last := true, 28, "service";
      assert FixedName(29) == FixedName(28) + "/" + "service";
    } else if i == 30 {
      nested, j, last := true, 28, "spool";
      assert FixedName(30) == FixedName(28) + "/" + "spool";
    } else if i == 31 {
      nested, j, last := true, 30, "cron";
      assert FixedName(31) == FixedName(30) + "/" + "cron";
    }
  }

  lemma PlaceOfLater(i: nat) returns (nested: bool, j: nat, last: string)
    requires 32 <= i < 41
    ensures Places(i, nested, j, last)
  {
    nested, j, last := false, 0, "";
    if i == 35 {
      nested, j, last := true, 28, "run";
      assert FixedName(35) == FixedName(28) + "/" + "run";
    } else if i == 36 {
      nested, j, last := true, 2, "console";
      assert FixedName(36) == FixedName(2) + "/" + "console";
    } else if i == 38 {
      nested, j, last := true, 3, "profile";
      assert FixedName(38) == FixedName(3) + "/" + "profile";
    } else if i == 39 {
      nested, j, last := true, 3, "resolv.conf";
      assert FixedName(39) == FixedName(3) + "/" + "resolv.conf";
    } else if i == 40 {
      nested, j, last := true, 24, "busybox";
      assert FixedName(40) == FixedName(24) + "/" + "busybox";
    }
  }

  /** A member stands at the top or behind the directory that it belongs into. */
  ghost predicate ParentFirst(es: seq<Entry>, i: nat)
    requires i < |es|
  {
    || 0x2F !in es[i].name
    || exists j, last :: 0 <= j < i && InDirectory(es[i], es[j], last)
  }

  ghost predicate InDirectory(e: Entry, d: Entry, last: seq<byte>) {
    |d.values| == 13 && d.values[1] == 0x41ED && 0x2F !in last && e.name == d.name + [0x2F] + last
  }

  lemma NameAt(es: seq<Entry>, init: seq<byte>, src: Sources, extra: seq<Extra>, i: nat)
    requires Unpacks(es, init, src, extra) && i < 41
    ensures Named(es[i], FixedName(i)) && (i < 32 ==> IsDirectory(es[i], FixedName(i)))
  {
    hide Named, Node, DIRECTORIES;
  }

  lemma NamedBelow(e: Entry, d: Entry, name: string, parent: string, last: string) returns (tail: seq<byte>)
    requires Named(e, name) && IsDirectory(d, parent) && name == parent + "/" + last && '/' !in last
    ensures InDirectory(e, d, tail)
  {
    var n := |parent| + 1;
    tail := e.name[n..];
    forall k | 0 <= k < |tail|
      ensures tail[k] != 0x2F
    {
      assert tail[k] == name[n + k] as int && name[n + k] == last[k] && last[k] in last;
    }
    assert name[|parent|] == '/';
    assert e.name == d.name + [0x2F] + tail;
  }

  lemma NamedAtTop(e: Entry, name: string)
    requires Named(e, name) && '/' !in name
    ensures 0x2F !in e.name
  {
    forall k | 0 <= k < |name|
      ensures e.name[k] != 0x2F
    {
      assert name[k] in name;
    }
  }

  /** No member of the fixed part comes before its parent directory, so an unpacker that
      creates the nodes in order never lacks one. */
  lemma ParentsComeFirst(init: seq<byte>, src: Sources, extra: seq<Extra>, i: nat)
    requires Buildable(src, extra) && |init| < LIMIT && i < 41
    ensures Built(init, src, extra).Ok? && Parse(Built(init, src, extra).value).Ok?
    ensures i < |Parse(Built(init, src, extra).value).value| && ParentFirst(Parse(Built(init, src, extra).value).value, i)
  {
    hide Built, Parse, Unpacks, IsDirectory, Named, InDirectory, DIRECTORIES, LATER, FixedName;
    BuiltUnpacks(init, src, extra);
    var es := Parse(Built(init, src, extra).value).value;
    HasFixed(es, init, src, extra);
    var nested, j, last;
    if i < 10 {
      nested, j, last := PlaceOfTop(i);
    } else if i < 16 {
      nested, j, last := PlaceOfMount(i);
    } else if i < 32 {
      nested, j, last := PlaceOfSystem(i);
    } else {
      nested, j, last := PlaceOfLater(i);
    }
    NameAt(es, init, src, extra, i);
    if nested {
      NameAt(es, init, src, extra, j);
      var tail := NamedBelow(es[i], es[j], FixedName(i), FixedName(j), last);
    } else {
      NamedAtTop(es[i], FixedName(i));
    }
  }

  lemma HasFixed(es: seq<Entry>, init: seq<byte>, src: Sources, extra: seq<Extra>)
    requires Unpacks(es, init, src, extra)
    ensures |es| == 42 + |extra|
  {
  }
}
