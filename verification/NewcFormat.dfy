/** The newc (SVR4 portable ASCII) archive format: hexadecimal headers, alignment to four
    bytes, and the entries an archive consists of. */
module NewcFormat {
  import opened Bytes

  const HEADER_LEN := 110
  const FIELDS := 13
  const MODE_FIELD := 1
  const SIZE_FIELD := 6
  const NAME_FIELD := 11
  const LIMIT := 0x1_0000_0000

  datatype Error = BadHeader | BadName | Truncated | TargetNotFound | NotAscii

  /** One archive member. The values are the thirteen header fields. */
  datatype Entry = Entry(magic: seq<byte>, values: seq<nat>, name: seq<byte>, data: seq<byte>)

  function Chars(s: string): seq<byte>
    requires forall i :: 0 <= i < |s| ==> s[i] < 128 as char
    ensures |Chars(s)| == |s| && forall i :: 0 <= i < |s| ==> Chars(s)[i] == s[i] as int
  {
    seq(|s|, i requires 0 <= i < |s| => s[i] as int)
  }

  const MAGIC1: seq<byte> := [0x30, 0x37, 0x30, 0x37, 0x30, 0x31]
  const MAGIC2: seq<byte> := [0x30, 0x37, 0x30, 0x37, 0x30, 0x32]
  const TRAILER: seq<byte> := Chars("TRAILER!!!")

  // ---------------------------------------------------------------- alignment

  function Align4(v: nat): (r: nat)
    ensures v <= r < v + 4 && r % 4 == 0
  {
    (v + 3) / 4 * 4
  }

  function Pad(v: nat): (r: nat)
    ensures r < 4 && (v + r) % 4 == 0
  {
    Align4(v) - v
  }

  // -------------------------------------------------------------- hexadecimal

  function HexDigit(d: nat): byte
    requires d < 16
  {
    if d < 10 then 0x30 + d else 0x61 + d - 10
  }

  /** Lower-case digits, padded with zeros to the width; longer if the value needs it. */
  function Hex(v: nat, width: nat): (s: seq<byte>)
    decreases v + width
  {
    if v == 0 && width == 0 then []
    else Hex(v / 16, if width == 0 then 0 else width - 1) + [HexDigit(v % 16)]
  }

  function DigitValue(b: byte): Option<nat> {
    if 0x30 <= b <= 0x39 then Some(b - 0x30)
    else if 0x61 <= b <= 0x66 then Some(b - 0x61 + 10)
    else if 0x41 <= b <= 0x46 then Some(b - 0x41 + 10)
    else None
  }

  function ParseHex(s: seq<byte>): Option<nat> {
    if s == [] then Some(0)
    else
      var n := |s| - 1;
      match (ParseHex(s[..n]), DigitValue(s[n]))
      case (Some(high), Some(d)) => Some(16 * high + d)
      case _ => None
  }

  function Pow16(n: nat): (r: nat)
    ensures r > 0
  {
    if n == 0 then 1 else 16 * Pow16(n - 1)
  }

  lemma DigitRead(d: nat)
    requires d < 16
    ensures DigitValue(HexDigit(d)) == Some(d)
  {
  }

  /** Printing and parsing a number are inverse, and a number that fits keeps the width. */
  lemma {:induction false} HexRoundTrip(v: nat, width: nat)
    ensures ParseHex(Hex(v, width)) == Some(v)
    ensures |Hex(v, width)| >= width
    ensures |Hex(v, width)| == width <==> v < Pow16(width)
    decreases v + width
  {
    hide HexDigit, DigitValue;
    if v != 0 || width != 0 {
      var w := if width == 0 then 0 else width - 1;
      DigitRead(v % 16);
      HexRoundTrip(v / 16, w);
      var s := Hex(v, width);
      assert s[..|s| - 1] == Hex(v / 16, w);
      if width == 0 {
        assert |s| >= 1;
      }
    }
  }

  /** One of 0-9 and a-f. */
  ghost predicate LowerDigit(b: byte) {
    '0' as int <= b <= '9' as int || 'a' as int <= b <= 'f' as int
  }

  lemma {:induction false} HexIsLower(v: nat, width: nat)
    ensures forall i :: 0 <= i < |Hex(v, width)| ==> LowerDigit(Hex(v, width)[i])
    decreases v + width
  {
    if v != 0 || width != 0 {
      HexIsLower(v / 16, if width == 0 then 0 else width - 1);
    }
  }

  ghost predicate HexByte(b: byte) {
    0x30 <= b <= 0x39 || 0x61 <= b <= 0x66 || 0x41 <= b <= 0x46
  }

  /** Exactly the hexadecimal digits are accepted. */
  lemma {:induction false} ParseHexAccepts(s: seq<byte>)
    ensures ParseHex(s).Some? <==> forall i :: 0 <= i < |s| ==> HexByte(s[i])
  {
    if s != [] {
      var n := |s| - 1;
      ParseHexAccepts(s[..n]);
      assert forall i :: 0 <= i < n ==> s[i] == s[..n][i];
      assert DigitValue(s[n]).Some? <==> HexByte(s[n]);
    }
  }

  /** The case of a digit does not matter. */
  lemma {:induction false} ParseHexCase(s: seq<byte>, t: seq<byte>)
    requires |t| == |s| && forall i :: 0 <= i < |s| ==> s[i] == t[i] || (0x61 <= s[i] <= 0x66 && t[i] == s[i] - 0x20)
    ensures ParseHex(t) == ParseHex(s)
  {
    if s != [] {
      var n := |s| - 1;
      ParseHexCase(s[..n], t[..n]);
      assert DigitValue(s[n]) == DigitValue(t[n]);
    }
  }

  lemma {:induction false} ParseHexBound(s: seq<byte>)
    ensures ParseHex(s).Some? ==> ParseHex(s).value < Pow16(|s|)
  {
    if s != [] {
      ParseHexBound(s[..|s| - 1]);
    }
  }

  lemma Pow16Is()
    ensures Pow16(8) == LIMIT
  {
    assert Pow16(2) == 0x100 && Pow16(4) == 0x1_0000 && Pow16(6) == 0x100_0000;
  }

  // ------------------------------------------------------------------ headers

  function HexFields(values: seq<nat>): (s: seq<byte>) {
    if values == [] then [] else Hex(values[0], 8) + HexFields(values[1..])
  }

  function MakeHeader(magic: seq<byte>, values: seq<nat>): seq<byte> {
    magic + HexFields(values)
  }

  function ParseFields(s: seq<byte>, n: nat): (r: Option<seq<nat>>)
    requires |s| >= 8 * n
    ensures r.Some? ==> |r.value| == n
  {
    if n == 0 then Some([])
    else match (ParseHex(s[..8]), ParseFields(s[8..], n - 1))
      case (Some(v), Some(rest)) => Some([v] + rest)
      case _ => None
  }

  function ParseHeader(s: seq<byte>): Option<(seq<byte>, seq<nat>)> {
    if |s| < HEADER_LEN || (s[..6] != MAGIC1 && s[..6] != MAGIC2) then None
    else match ParseFields(s[6..HEADER_LEN], FIELDS)
      case None => None
      case Some(values) => Some((s[..6], values))
  }

  ghost predicate Fits(values: seq<nat>) {
    forall i :: 0 <= i < |values| ==> values[i] < LIMIT
  }

  lemma {:induction false} FieldsRoundTrip(values: seq<nat>, tail: seq<byte>)
    requires Fits(values)
    ensures |HexFields(values)| == 8 * |values|
    ensures ParseFields(HexFields(values) + tail, |values|) == Some(values)
  {
    if values != [] {
      HexRoundTrip(values[0], 8);
      Pow16Is();
      FieldsRoundTrip(values[1..], tail);
      var s := HexFields(values) + tail;
      assert s[..8] == Hex(values[0], 8);
      assert s[8..] == HexFields(values[1..]) + tail;
      assert values == [values[0]] + values[1..];
    }
  }

  lemma {:induction false} ParsedFieldsFit(s: seq<byte>, n: nat)
    requires |s| >= 8 * n
    ensures ParseFields(s, n).Some? ==> Fits(ParseFields(s, n).value)
  {
    if n > 0 {
      ParseHexBound(s[..8]);
      Pow16Is();
      ParsedFieldsFit(s[8..], n - 1);
    }
  }

  lemma HeaderRoundTrip(magic: seq<byte>, values: seq<nat>, tail: seq<byte>)
    requires magic == MAGIC1 || magic == MAGIC2
    requires |values| == FIELDS && Fits(values)
    ensures |MakeHeader(magic, values)| == HEADER_LEN
    ensures ParseHeader(MakeHeader(magic, values) + tail) == Some((magic, values))
  {
    FieldsRoundTrip(values, []);
    var s := MakeHeader(magic, values) + tail;
    assert s[..6] == magic;
    assert s[6..HEADER_LEN] == HexFields(values) + [];
  }

  // -------------------------------------------------------------------- names

  predicate Continuation(s: seq<byte>, i: nat) {
    i < |s| && 0x80 <= s[i] < 0xC0
  }

  /** Well-formed UTF-8 as defined in section 4 of RFC 3629. */
  predicate Utf8(s: seq<byte>) {
    if s == [] then true
    else if s[0] < 0x80 then Utf8(s[1..])
    else if 0xC2 <= s[0] <= 0xDF then Continuation(s, 1) && Utf8(s[2..])
    else if 0xE0 <= s[0] <= 0xEF then
      && Continuation(s, 1) && Continuation(s, 2)
      && (s[0] == 0xE0 ==> s[1] >= 0xA0) && (s[0] == 0xED ==> s[1] < 0xA0)
      && Utf8(s[3..])
    else if 0xF0 <= s[0] <= 0xF4 then
      && Continuation(s, 1) && Continuation(s, 2) && Continuation(s, 3)
      && (s[0] == 0xF0 ==> s[1] >= 0x90) && (s[0] == 0xF4 ==> s[1] < 0x90)
      && Utf8(s[4..])
    else false
  }

  lemma {:induction false} AsciiIsUtf8(s: seq<byte>)
    requires forall i :: 0 <= i < |s| ==> s[i] < 0x80
    ensures Utf8(s)
  {
    if s != [] {
      AsciiIsUtf8(s[1..]);
    }
  }

  /** A Unicode scalar value. */
  ghost predicate Scalar(c: nat) {
    c < 0xD800 || 0xE000 <= c < 0x11_0000
  }

  /** Its bytes, as in section 3 of RFC 3629. */
  ghost function Utf8Bytes(c: nat): seq<byte>
    requires Scalar(c)
  {
    if c < 0x80 then [c]
    else if c < 0x800 then [0xC0 + c / 0x40, 0x80 + c % 0x40]
    else if c < 0x1_0000 then [0xE0 + c / 0x1000, 0x80 + c / 0x40 % 0x40, 0x80 + c % 0x40]
    else [0xF0 + c / 0x4_0000, 0x80 + c / 0x1000 % 0x40, 0x80 + c / 0x40 % 0x40, 0x80 + c % 0x40]
  }

  ghost function Utf8Text(cs: seq<nat>): seq<byte>
    requires forall i :: 0 <= i < |cs| ==> Scalar(cs[i])
  {
    if cs == [] then [] else Utf8Bytes(cs[0]) + Utf8Text(cs[1..])
  }

  lemma Utf8First(c: nat, rest: seq<byte>)
    requires Scalar(c)
    ensures Utf8(Utf8Bytes(c) + rest) <==> Utf8(rest)
  {
    var s := Utf8Bytes(c) + rest;
    assert s[|Utf8Bytes(c)|..] == rest;
    if c < 0x80 {
    } else if c < 0x800 {
      assert 0xC2 <= s[0] <= 0xDF;
    } else if c < 0x1_0000 {
      assert 0xE0 <= s[0] <= 0xEF;
    } else {
      assert 0xF0 <= s[0] <= 0xF4;
    }
  }

  /** Names are accepted if and only if they encode some text. */
  lemma {:induction false} Utf8Encodes(cs: seq<nat>)
    requires forall i :: 0 <= i < |cs| ==> Scalar(cs[i])
    ensures Utf8(Utf8Text(cs))
  {
    hide Utf8Bytes, Scalar;
    if cs == [] {
      NoText();
    } else {
      Utf8Encodes(cs[1..]);
      Utf8First(cs[0], Utf8Text(cs[1..]));
    }
  }

  lemma NoText()
    ensures Utf8([])
  {
  }

  lemma TwoBytes(a: nat, b: nat)
    requires 2 <= a < 0x20 && b < 0x40
    ensures Scalar(a * 0x40 + b) && Utf8Bytes(a * 0x40 + b) == [0xC0 + a, 0x80 + b]
  {
  }

  lemma ThreeBytes(a: nat, b: nat, d: nat)
    requires a < 0x10 && b < 0x40 && d < 0x40 && (a == 0 ==> b >= 0x20) && (a == 0xD ==> b < 0x20)
    ensures var c := a * 0x1000 + b * 0x40 + d; Scalar(c) && Utf8Bytes(c) == [0xE0 + a, 0x80 + b, 0x80 + d]
  {
    var c := a * 0x1000 + b * 0x40 + d;
    assert c / 0x40 == a * 0x40 + b;
  }

  lemma FourBytes(a: nat, b: nat, d: nat, e: nat)
    requires a <= 4 && b < 0x40 && d < 0x40 && e < 0x40 && (a == 0 ==> b >= 0x10) && (a == 4 ==> b < 0x10)
    ensures var c := a * 0x4_0000 + b * 0x1000 + d * 0x40 + e;
      Scalar(c) && Utf8Bytes(c) == [0xF0 + a, 0x80 + b, 0x80 + d, 0x80 + e]
  {
    var c := a * 0x4_0000 + b * 0x1000 + d * 0x40 + e;
    assert c / 0x40 == a * 0x1000 + b * 0x40 + d;
    assert c / 0x1000 == a * 0x40 + b;
  }

  /** The first character of a well-formed text. */
  lemma Utf8Step(s: seq<byte>) returns (c: nat, n: nat)
    requires s != [] && Utf8(s)
    ensures Scalar(c) && 1 <= n <= |s| && s[..n] == Utf8Bytes(c) && Utf8(s[n..])
  {
    hide Scalar, Utf8Bytes;
    var a: int := s[0];
    if a < 0x80 {
      OneByte(a);
      return a, 1;
    }
    var b: int := s[1] - 0x80;
    if a <= 0xDF {
      TwoBytes(a - 0xC0, b);
      return (a - 0xC0) * 0x40 + b, 2;
    }
    var d: int := s[2] - 0x80;
    if a <= 0xEF {
      ThreeBytes(a - 0xE0, b, d);
      return (a - 0xE0) * 0x1000 + b * 0x40 + d, 3;
    }
    var e: int := s[3] - 0x80;
    FourBytes(a - 0xF0, b, d, e);
    c, n := (a - 0xF0) * 0x4_0000 + b * 0x1000 + d * 0x40 + e, 4;
  }

  lemma OneByte(a: nat)
    requires a < 0x80
    ensures Scalar(a) && Utf8Bytes(a) == [a]
  {
  }

  lemma {:induction false} Utf8Decodes(s: seq<byte>) returns (cs: seq<nat>)
    requires Utf8(s)
    ensures (forall i :: 0 <= i < |cs| ==> Scalar(cs[i])) && Utf8Text(cs) == s
    decreases |s|
  {
    hide Utf8, Utf8Bytes, Scalar;
    if s == [] {
      cs := [];
    } else {
      var c, n := Utf8Step(s);
      var rest := Utf8Decodes(s[n..]);
      cs := [c] + rest;
      assert cs[1..] == rest;
      assert s == s[..n] + s[n..];
    }
  }

  // ------------------------------------------------------------------ entries

  /** The bytes of an entry that starts at an aligned position. */
  function PrintEntry(e: Entry): (s: seq<byte>)
    ensures |s| % 4 == 0
  {
    var head := MakeHeader(e.magic, e.values) + e.name + [0];
    head + Zeros(Pad(|head|)) + e.data + Zeros(Pad(|e.data|))
  }

  /** The same behind n bytes: the padding goes by the absolute position. */
  function PrintEntryAt(n: nat, e: Entry): (s: seq<byte>)
    ensures (n + |s|) % 4 == 0
  {
    var head := MakeHeader(e.magic, e.values) + e.name + [0];
    var body := head + Zeros(Pad(n + |head|)) + e.data;
    body + Zeros(Pad(n + |body|))
  }

  /** At an aligned position both agree. */
  lemma PrintedAligned(n: nat, e: Entry)
    requires n % 4 == 0
    ensures PrintEntryAt(n, e) == PrintEntry(e)
  {
    hide MakeHeader;
    var head := MakeHeader(e.magic, e.values) + e.name + [0];
    AlignAbsolute(n, |head|);
    AlignAbsolute(n + |head| + Pad(|head|), |e.data|);
  }

  /** Aligning an absolute position behind an aligned one is aligning the distance. */
  lemma AlignAbsolute(pos: nat, n: nat)
    requires pos % 4 == 0
    ensures Align4(pos + n) == pos + Align4(n) && Pad(pos + n) == Pad(n)
  {
  }

  function Print(es: seq<Entry>): (s: seq<byte>)
    ensures |s| % 4 == 0
  {
    if es == [] then [] else PrintEntry(es[0]) + Print(es[1..])
  }

  /** Reads one entry and tells where the next one starts. The padding is not looked at,
      and missing padding at the end is accepted. */
  function ReadEntry(s: seq<byte>): (r: Outcome<(Entry, nat), Error>)
    ensures r.Ok? ==> r.value.1 >= HEADER_LEN
  {
    match ParseHeader(s)
    case None => Err(BadHeader)
    case Some((magic, values)) =>
      var nameEnd := HEADER_LEN + values[NAME_FIELD];
      if |s| < nameEnd || values[NAME_FIELD] == 0 || s[nameEnd - 1] != 0 then Err(BadName)
      else if !Utf8(s[HEADER_LEN..nameEnd - 1]) then Err(BadName)
      else
        var start := Align4(nameEnd);
        var end := start + values[SIZE_FIELD];
        if values[SIZE_FIELD] > 0 && |s| < end then Err(Truncated)
        else
          var data := if values[SIZE_FIELD] == 0 then [] else s[start..end];
          Ok((Entry(magic, values, s[HEADER_LEN..nameEnd - 1], data), Align4(end)))
  }

  /** The entries up to and including the trailer, or up to the end. */
  function Parse(s: seq<byte>): Outcome<seq<Entry>, Error> {
    if s == [] then Ok([])
    else match ReadEntry(s)
      case Err(e) => Err(e)
      case Ok((entry, next)) =>
        if entry.name == TRAILER || next >= |s| then Ok([entry])
        else match Parse(s[next..])
          case Err(e) => Err(e)
          case Ok(rest) => Ok([entry] + rest)
  }

  /** An entry whose header describes it. */
  ghost predicate Proper(e: Entry) {
    && (e.magic == MAGIC1 || e.magic == MAGIC2)
    && |e.values| == FIELDS && Fits(e.values)
    && e.values[NAME_FIELD] == |e.name| + 1 && e.values[SIZE_FIELD] == |e.data|
    && Utf8(e.name)
  }

  /** Proper entries, with no trailer before the last one. */
  ghost predicate Archive(es: seq<Entry>) {
    && (forall i :: 0 <= i < |es| ==> Proper(es[i]))
    && (forall i :: 0 <= i < |es| - 1 ==> es[i].name != TRAILER)
  }

  /** Where the parts of a printed entry lie. */
  lemma PrintedParts(e: Entry, tail: seq<byte>)
    requires Proper(e)
    ensures var s := PrintEntry(e) + tail;
            var nameEnd := HEADER_LEN + |e.name| + 1;
            var start := Align4(nameEnd);
      && |PrintEntry(e)| == Align4(start + |e.data|)
      && s == MakeHeader(e.magic, e.values) + s[HEADER_LEN..]
      && s[HEADER_LEN..nameEnd - 1] == e.name && s[nameEnd - 1] == 0
      && s[start..start + |e.data|] == e.data
  {
    hide MakeHeader, ParseHeader, Utf8, Fits;
    HeaderRoundTrip(e.magic, e.values, []);
    var s := PrintEntry(e) + tail;
    var head := MakeHeader(e.magic, e.values) + e.name + [0];
    var start := |head| + Pad(|head|);
    AlignShift(start, |e.data|);
    assert s == head + (Zeros(Pad(|head|)) + e.data + Zeros(Pad(|e.data|)) + tail);
  }

  lemma ReadPrinted(e: Entry, tail: seq<byte>)
    requires Proper(e)
    ensures ReadEntry(PrintEntry(e) + tail) == Ok((e, |PrintEntry(e)|))
  {
    hide MakeHeader, ParseHeader, Utf8, PrintEntry;
    var s := PrintEntry(e) + tail;
    PrintedParts(e, tail);
    HeaderRoundTrip(e.magic, e.values, s[HEADER_LEN..]);
  }

  lemma AlignShift(start: nat, n: nat)
    requires start % 4 == 0
    ensures Align4(start + n) == start + n + Pad(n)
  {
  }

  /** Parsing a printed archive returns its entries. */
  lemma {:induction false} ParsePrint(es: seq<Entry>)
    requires Archive(es)
    ensures Parse(Print(es)) == Ok(es)
  {
    hide PrintEntry, ReadEntry, Proper;
    if es != [] {
      var tail := Print(es[1..]);
      var s := PrintEntry(es[0]) + tail;
      ReadPrinted(es[0], tail);
      PrintedLength(es[0]);
      assert s[|PrintEntry(es[0])|..] == tail;
      assert forall i :: 0 <= i < |es[1..]| ==> es[1..][i] == es[i + 1];
      ParsePrint(es[1..]);
      assert es == [es[0]] + es[1..];
      if |es| > 1 {
        PrintedLength(es[1]);
        assert tail == PrintEntry(es[1..][0]) + Print(es[1..][1..]);
        assert es[0].name != TRAILER && |tail| > 0;
        assert Parse(s) == Ok([es[0]] + es[1..]);
      } else {
        assert es[1..] == [] && tail == [] && es == [es[0]];
        assert Parse(s) == Ok([es[0]]);
      }
    }
  }

  lemma PrintedLength(e: Entry)
    requires Proper(e)
    ensures |PrintEntry(e)| >= HEADER_LEN
  {
    HeaderRoundTrip(e.magic, e.values, []);
  }

  /** Whatever parses is a proper archive. */
  lemma {:induction false} ParsedIsArchive(s: seq<byte>)
    ensures Parse(s).Ok? ==> Archive(Parse(s).value)
    decreases |s|
  {
    if s != [] && ReadEntry(s).Ok? {
      var (entry, next) := ReadEntry(s).value;
      ReadIsProper(s);
      if entry.name != TRAILER && next < |s| {
        ParsedIsArchive(s[next..]);
      }
    }
  }

  lemma ReadIsProper(s: seq<byte>)
    requires ReadEntry(s).Ok?
    ensures Proper(ReadEntry(s).value.0)
  {
    ParsedFieldsFit(s[6..HEADER_LEN], FIELDS);
  }
}
