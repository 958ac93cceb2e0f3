/** Replacing one regular file inside a newc archive. */
module NewcRewriter {
  import opened Bytes
  import opened NewcFormat

  /** S_IFREG with mode 0755. */
  const REGULAR_755 := 0x8000 + 0x1ED

  function ReplaceEntry(e: Entry, target: seq<byte>, data: seq<byte>): Entry
    requires |e.values| == FIELDS
  {
    if e.name == target
    then e.(values := e.values[MODE_FIELD := REGULAR_755][SIZE_FIELD := |data|], data := data)
    else e
  }

  ghost predicate AllFields(es: seq<Entry>) {
    forall i :: 0 <= i < |es| ==> |es[i].values| == FIELDS
  }

  ghost function ReplaceAll(es: seq<Entry>, target: seq<byte>, data: seq<byte>): (r: seq<Entry>)
    requires AllFields(es)
    ensures |r| == |es| && forall i :: 0 <= i < |es| ==> r[i] == ReplaceEntry(es[i], target, data)
  {
    seq(|es|, i requires 0 <= i < |es| => ReplaceEntry(es[i], target, data))
  }

  ghost predicate Contains(es: seq<Entry>, target: seq<byte>) {
    exists i :: 0 <= i < |es| && es[i].name == target
  }

  /** What replace_entry returns: the parsed entries, printed again with the target's
      mode, size and data exchanged. */
  ghost function Rewritten(raw: seq<byte>, target: seq<byte>, data: seq<byte>): Outcome<seq<byte>, Error> {
    match Parse(raw)
    case Err(e) => Err(e)
    case Ok(es) =>
      ParsedIsArchive(raw);
      if Contains(es, target) then Ok(Print(ReplaceAll(es, target, data))) else Err(TargetNotFound)
  }

  // ------------------------------------------------------------------ the loop

  lemma {:induction false} PrintAppend(es: seq<Entry>, e: Entry)
    ensures Print(es + [e]) == Print(es) + PrintEntry(e)
  {
    if es == [] {
      assert [] + [e] == [e] && [e][1..] == [];
      assert PrintEntry(e) + [] == PrintEntry(e);
    } else {
      assert (es + [e])[1..] == es[1..] + [e];
      PrintAppend(es[1..], e);
      assert PrintEntry(es[0]) + (Print(es[1..]) + PrintEntry(e)) == (PrintEntry(es[0]) + Print(es[1..])) + PrintEntry(e);
    }
  }

  /** Appends one entry, padding by the length of the whole output. */
  method Emit(out: seq<byte>, e: Entry) returns (r: seq<byte>)
    ensures r == out + PrintEntryAt(|out|, e)
  {
    hide MakeHeader;
    var head := MakeHeader(e.magic, e.values) + e.name + [0];
    r := out + MakeHeader(e.magic, e.values);
    r := r + (e.name + [0]);
    assert r == out + head;
    r := r + Zeros(Align4(|r|) - |r|);
    r := r + e.data;
    ghost var body := head + Zeros(Pad(|out| + |head|)) + e.data;
    assert r == out + body;
    r := r + Zeros(Align4(|r|) - |r|);
    assert r == out + (body + Zeros(Pad(|out| + |body|)));
  }

  /** A slice as Python takes it: what lies behind the end is left out. */
  function Slice(s: seq<byte>, lo: nat, hi: nat): (r: seq<byte>)
    requires lo <= hi
    ensures |r| == hi - lo <==> hi <= |s| || lo == hi
    ensures hi <= |s| ==> r == s[lo..hi]
  {
    if hi <= |s| then s[lo..hi] else if lo <= |s| then s[lo..] else []
  }

  /** What one entry is, told by absolute positions behind an aligned start. */
  ghost function EntryAt(raw: seq<byte>, start: nat, magic: seq<byte>, values: seq<nat>): Outcome<(Entry, nat), Error>
    requires |values| == FIELDS
  {
    var nameAt := start + HEADER_LEN;
    var nameEnd := nameAt + values[NAME_FIELD];
    var dataStart := Align4(nameEnd);
    var dataEnd := dataStart + values[SIZE_FIELD];
    if !NameAt(raw, nameAt, values[NAME_FIELD]) then Err(BadName)
    else if values[SIZE_FIELD] > 0 && dataEnd > |raw| then Err(Truncated)
    else Ok((Entry(magic, values, raw[nameAt..nameEnd - 1], if values[SIZE_FIELD] == 0 then [] else raw[dataStart..dataEnd]),
             Align4(dataEnd)))
  }

  predicate NameAt(raw: seq<byte>, at: nat, size: nat) {
    size > 0 && at + size <= |raw| && raw[at + size - 1] == 0 && Utf8(raw[at..at + size - 1])
  }

  lemma NameShift(raw: seq<byte>, start: nat, at: nat, size: nat)
    requires start <= |raw|
    ensures NameAt(raw, start + at, size) == NameAt(raw[start..], at, size)
    ensures NameAt(raw, start + at, size) ==> raw[start..][at..at + size - 1] == raw[start + at..start + at + size - 1]
  {
    if size > 0 && start + at + size <= |raw| {
      SliceAt(raw, start, at, at + size - 1);
    }
  }

  /** Aligning relative to an aligned start gives the same positions. */
  lemma EntryShift(raw: seq<byte>, start: nat, magic: seq<byte>, values: seq<nat>)
    requires start <= |raw| && start % 4 == 0 && |values| == FIELDS
    ensures var near, far := EntryAt(raw[start..], 0, magic, values), EntryAt(raw, start, magic, values);
      far == if near.Err? then near else Ok((near.value.0, start + near.value.1))
  {
    hide NameAt, Align4;
    var nameEnd := HEADER_LEN + values[NAME_FIELD];
    var dataEnd := Align4(nameEnd) + values[SIZE_FIELD];
    NameShift(raw, start, HEADER_LEN, values[NAME_FIELD]);
    AlignAbsolute(start, nameEnd);
    AlignAbsolute(start, dataEnd);
    if start + dataEnd <= |raw| {
      SliceAt(raw, start, Align4(nameEnd), dataEnd);
    }
  }

  lemma EntryIsAt(raw: seq<byte>, start: nat)
    requires start < |raw| && start % 4 == 0
    ensures match ParseHeader(raw[start..])
            case None => ReadEntry(raw[start..]) == Err(BadHeader)
            case Some((magic, values)) =>
              && |values| == FIELDS
              && var read := ReadEntry(raw[start..]);
                 EntryAt(raw, start, magic, values) == if read.Err? then read else Ok((read.value.0, start + read.value.1))
  {
    hide EntryAt;
    if ParseHeader(raw[start..]).Some? {
      HeaderLength(raw[start..]);
      ReadIsEntryAt(raw[start..]);
      EntryShift(raw, start, ParseHeader(raw[start..]).value.0, ParseHeader(raw[start..]).value.1);
    }
  }

  lemma ReadIsEntryAt(s: seq<byte>)
    requires ParseHeader(s).Some? && |ParseHeader(s).value.1| == FIELDS
    ensures ReadEntry(s) == EntryAt(s, 0, ParseHeader(s).value.0, ParseHeader(s).value.1)
  {
    hide ParseHeader, Utf8, Align4;
  }

  /** A slice of a suffix is a slice at the absolute position. */
  lemma SliceAt(raw: seq<byte>, start: nat, lo: nat, hi: nat)
    requires start <= |raw| && lo <= hi && start + hi <= |raw|
    ensures raw[start..][lo..hi] == raw[start + lo..start + hi]
  {
  }

  /** One entry at an absolute position, and the position of the next one, which is aligned
      if this one is. */
  method ReadAt(raw: seq<byte>, start: nat) returns (r: Outcome<(Entry, nat), Error>)
    requires start < |raw| && start % 4 == 0
    ensures var read := ReadEntry(raw[start..]);
      r == if read.Err? then Err(read.error) else Ok((read.value.0, start + read.value.1))
    ensures r.Ok? ==> r.value.1 % 4 == 0 && |r.value.0.values| == FIELDS
  {
    hide ParseHeader, Utf8, Align4, ReadEntry;
    EntryIsAt(raw, start);
    var pos := start;
    var header := ParseHeader(raw[start..]);
    if header.None? {
      return Err(BadHeader);
    }
    var (magic, values) := header.value;
    pos := pos + HEADER_LEN;
    var nameBytes := Slice(raw, pos, pos + values[NAME_FIELD]);
    if |nameBytes| != values[NAME_FIELD] || |nameBytes| == 0 || nameBytes[|nameBytes| - 1] != 0 {
      return Err(BadName);
    }
    var name := nameBytes[..|nameBytes| - 1];
    assert name == raw[pos..pos + values[NAME_FIELD] - 1];
    if !Utf8(name) {
      return Err(BadName);
    }
    pos := pos + values[NAME_FIELD];
    var dataStart := Align4(pos);
    var dataEnd := dataStart + values[SIZE_FIELD];
    var data := Slice(raw, dataStart, dataEnd);
    if |data| != values[SIZE_FIELD] {
      return Err(Truncated);
    }
    pos := Align4(dataEnd);
    r := Ok((Entry(magic, values, name, data), pos));
  }

  lemma HeaderLength(s: seq<byte>)
    requires ParseHeader(s).Some?
    ensures |s| >= HEADER_LEN && |ParseHeader(s).value.1| == FIELDS
  {
  }

  /** The rewriting loop. Both cursors stay aligned to four bytes. */
  method Replace(raw: seq<byte>, target: seq<byte>, data: seq<byte>) returns (r: Outcome<seq<byte>, Error>)
    ensures r == Rewritten(raw, target, data)
  {
    hide Print, PrintEntry, PrintEntryAt, ReadEntry, Archive, ReplaceAll, Parse;
    var out: seq<byte> := [];
    var pos: nat := 0;
    var replaced := false;
    ghost var done: seq<Entry> := [];
    ParsedIsArchive(raw);
    Starting(raw, target, data);
    while pos < |raw|
      invariant pos % 4 == 0 && |out| % 4 == 0
      invariant AllFields(done) && out == Print(ReplaceAll(done, target, data))
      invariant replaced <==> Contains(done, target)
      invariant pos <= |raw| ==> Parse(raw) == Prepended(done, Parse(raw[pos..]))
      invariant pos > |raw| ==> Parse(raw) == Ok(done)
    {
      ParseStep(raw[pos..]);
      var read := ReadAt(raw, pos);
      if read.Err? {
        return Err(read.error);
      }
      var (entry, end) := read.value;
      ghost var next := end - pos;
      ghost var before := done;
      done := done + [entry];
      pos := end;
      Progress(before, entry, target, data);
      if entry.name == target {
        entry := ReplaceEntry(entry, target, data);
        replaced := true;
      }
      PrintedAligned(|out|, entry);
      out := Emit(out, entry);
      if entry.name == TRAILER {
        assert Parse(raw) == Ok(done);
        break;
      }
      assert pos < |raw| ==> raw[pos - next..][next..] == raw[pos..];
      assert pos < |raw| ==> Parse(raw) == Prepended(done, Parse(raw[pos..])) by {
        if pos < |raw| && Parse(raw[pos..]).Ok? {
          assert before + ([done[|before|]] + Parse(raw[pos..]).value) == done + Parse(raw[pos..]).value;
        }
      }
      if pos == |raw| {
        ParseStep([]);
        assert raw[pos..] == [] && done + [] == done;
      }
    }
    ParseStep([]);
    assert pos == |raw| ==> raw[pos..] == [] && done + [] == done;
    assert Parse(raw) == Ok(done);
    if !replaced {
      return Err(TargetNotFound);
    }
    r := Ok(out);
  }

  ghost function Prepended(done: seq<Entry>, rest: Outcome<seq<Entry>, Error>): Outcome<seq<Entry>, Error> {
    if rest.Ok? then Ok(done + rest.value) else rest
  }

  lemma Starting(raw: seq<byte>, target: seq<byte>, data: seq<byte>)
    ensures Parse(raw) == Prepended([], Parse(raw[0..]))
    ensures Print(ReplaceAll([], target, data)) == []
  {
    assert raw[0..] == raw;
    assert Parse(raw).Ok? ==> [] + Parse(raw).value == Parse(raw).value;
  }

  lemma ParseStep(s: seq<byte>)
    ensures s == [] ==> Parse(s) == Ok([])
    ensures s != [] && ReadEntry(s).Err? ==> Parse(s) == Err(ReadEntry(s).error)
    ensures s != [] && ReadEntry(s).Ok? ==>
              var (entry, next) := ReadEntry(s).value;
              Parse(s) == if entry.name == TRAILER || next >= |s| then Ok([entry]) else Prepended([entry], Parse(s[next..]))
  {
  }

  lemma Progress(done: seq<Entry>, e: Entry, target: seq<byte>, data: seq<byte>)
    requires AllFields(done) && |e.values| == FIELDS
    ensures AllFields(done + [e])
    ensures Print(ReplaceAll(done + [e], target, data)) == Print(ReplaceAll(done, target, data)) + PrintEntry(ReplaceEntry(e, target, data))
    ensures Contains(done + [e], target) <==> Contains(done, target) || e.name == target
  {
    assert ReplaceAll(done + [e], target, data) == ReplaceAll(done, target, data) + [ReplaceEntry(e, target, data)];
    PrintAppend(ReplaceAll(done, target, data), ReplaceEntry(e, target, data));
    if Contains(done, target) {
      var i :| 0 <= i < |done| && done[i].name == target;
      assert (done + [e])[i].name == target;
    }
    assert (done + [e])[|done|] == e;
  }

  // ------------------------------------------------------------------- the laws

  lemma ReplacedIsProper(e: Entry, target: seq<byte>, data: seq<byte>)
    requires Proper(e) && |data| < LIMIT
    ensures Proper(ReplaceEntry(e, target, data)) && ReplaceEntry(e, target, data).name == e.name
  {
  }

  lemma ReplacedIsArchive(es: seq<Entry>, target: seq<byte>, data: seq<byte>)
    requires Archive(es) && |data| < LIMIT
    ensures AllFields(es) && Archive(ReplaceAll(es, target, data))
  {
    forall i | 0 <= i < |es|
      ensures |es[i].values| == FIELDS && Proper(ReplaceEntry(es[i], target, data))
      ensures ReplaceEntry(es[i], target, data).name == es[i].name
    {
      ReplacedIsProper(es[i], target, data);
    }
  }

  /** On every archive that is accepted, the output is an archive of the same entries in
      which just the target's mode, size and data are exchanged, and its length is a
      multiple of four. */
  lemma RewriteChangesOnlyTarget(raw: seq<byte>, target: seq<byte>, data: seq<byte>)
    requires |data| < LIMIT && Rewritten(raw, target, data).Ok?
    ensures var out := Rewritten(raw, target, data).value;
      && |out| % 4 == 0 && Parse(raw).Ok? && Parse(out).Ok?
      && var es := Parse(raw).value;
         var es' := Parse(out).value;
      && |es'| == |es| && Contains(es, target)
      && forall i :: 0 <= i < |es| ==>
           && es'[i].magic == es[i].magic && es'[i].name == es[i].name && |es'[i].values| == |es[i].values| == FIELDS
           && (es[i].name != target ==> es'[i] == es[i])
           && (es[i].name == target ==> es'[i].data == data)
           && forall f :: 0 <= f < FIELDS ==>
                es'[i].values[f] == if es[i].name != target then es[i].values[f]
                                    else if f == MODE_FIELD then REGULAR_755
                                    else if f == SIZE_FIELD then |data| else es[i].values[f]
  {
    hide Parse, Print, Proper;
    ParsedIsArchive(raw);
    var es := Parse(raw).value;
    ReplacedIsArchive(es, target, data);
    ParsePrint(ReplaceAll(es, target, data));
  }

  lemma ReplaceEntryTwice(e: Entry, target: seq<byte>, a: seq<byte>, b: seq<byte>)
    requires |e.values| == FIELDS
    ensures ReplaceEntry(ReplaceEntry(e, target, a), target, b) == ReplaceEntry(e, target, b)
  {
    var once := e.values[MODE_FIELD := REGULAR_755][SIZE_FIELD := |a|];
    assert once[MODE_FIELD := REGULAR_755][SIZE_FIELD := |b|] == e.values[MODE_FIELD := REGULAR_755][SIZE_FIELD := |b|];
  }

  /** Replacing with a and then with b is replacing with b. */
  lemma RewriteTwice(raw: seq<byte>, target: seq<byte>, a: seq<byte>, b: seq<byte>)
    requires |a| < LIMIT && Rewritten(raw, target, a).Ok?
    ensures Rewritten(Rewritten(raw, target, a).value, target, b) == Rewritten(raw, target, b)
  {
    hide Parse, Print, Proper;
    ParsedIsArchive(raw);
    var es := Parse(raw).value;
    ReplacedIsArchive(es, target, a);
    var es1 := ReplaceAll(es, target, a);
    ParsePrint(es1);
    var i :| 0 <= i < |es| && es[i].name == target;
    assert es1[i].name == target;
    forall j | 0 <= j < |es|
      ensures ReplaceEntry(es1[j], target, b) == ReplaceEntry(es[j], target, b)
    {
      ReplaceEntryTwice(es[j], target, a, b);
    }
    assert ReplaceAll(es1, target, b) == ReplaceAll(es, target, b);
  }
}
