/** Names and orders of the ISO9660 view. */
module IsoNames {
  import opened Bytes
  import opened PathText

  type Path = seq<string>

  function UpperChar(c: char): char {
    if 'a' <= c <= 'z' then (c as int - 32) as char else c
  }

  function Upper(s: string): (r: string)
    ensures |r| == |s| && forall i :: 0 <= i < |s| ==> r[i] == UpperChar(s[i])
  {
    seq(|s|, i requires 0 <= i < |s| => UpperChar(s[i]))
  }

  predicate Ascii(s: string) {
    forall i :: 0 <= i < |s| ==> s[i] < 128 as char
  }

  /** A component as it comes out of parse_extent: not empty, printable ASCII, without
      upper-case letters and separators. */
  predicate Canonical(s: string) {
    s != "" && Ascii(s) && forall i :: 0 <= i < |s| ==> !('A' <= s[i] <= 'Z') && s[i] != '/' && s[i] >= ' '
  }

  predicate CanonicalPath(p: Path) {
    forall i :: 0 <= i < |p| ==> Canonical(p[i])
  }

  function Encode(s: string): (r: seq<byte>)
    requires Ascii(s)
    ensures |r| == |s| && forall i :: 0 <= i < |r| ==> r[i] == s[i] as int
  {
    seq(|s|, i requires 0 <= i < |s| => s[i] as int)
  }

  lemma EncodeInjective(a: string, b: string)
    requires Ascii(a) && Ascii(b) && Encode(a) == Encode(b)
    ensures a == b
  {
    assert |Encode(a)| == |Encode(b)|;
    forall i | 0 <= i < |a|
      ensures a[i] == b[i]
    {
      assert Encode(a)[i] == Encode(b)[i];
    }
  }

  function DirName(name: string): seq<byte>
    requires Ascii(name)
  {
    Encode(Upper(name))
  }

  /** Upper case, with a dot if there is none, and version 1. */
  function FileNameText(name: string): (r: string)
    ensures Ascii(name) ==> Ascii(r)
  {
    (if '.' in Upper(name) then Upper(name) else Upper(name) + ".") + ";1"
  }

  function FileName(name: string): seq<byte>
    requires Ascii(name)
  {
    Encode(FileNameText(name))
  }

  lemma UpperInjective(a: string, b: string)
    requires Canonical(a) && Canonical(b) && Upper(a) == Upper(b)
    ensures a == b
  {
    forall i | 0 <= i < |a|
      ensures a[i] == b[i]
    {
      assert Upper(a)[i] == Upper(b)[i];
    }
  }

  lemma DirNameInjective(a: string, b: string)
    requires Canonical(a) && Canonical(b) && DirName(a) == DirName(b)
    ensures a == b
  {
    EncodeInjective(Upper(a), Upper(b));
    UpperInjective(a, b);
  }

  /** The name with a dot: the one that it has, or one at the end. */
  function Dotted(n: string): string {
    if '.' in n then n else n + "."
  }

  /** Only a name without a dot and the same name with a trailing dot collide. */
  predicate Collide(a: string, b: string) {
    (b == a + "." && '.' !in a) || (a == b + "." && '.' !in b)
  }

  lemma FileNameInjective(a: string, b: string)
    requires Canonical(a) && Canonical(b)
    ensures FileName(a) == FileName(b) <==> a == b || Collide(a, b)
  {
    hide Upper, FileName;
    TextOfDotted(a);
    TextOfDotted(b);
    SameDotted(a, b);
    if FileName(a) == FileName(b) {
      UpperInjective(Dotted(a), Dotted(b));
    }
  }

  lemma TextOfDotted(n: string)
    requires Canonical(n)
    ensures Canonical(Dotted(n)) && FileName(n) == Encode(Upper(Dotted(n)) + ";1")
    ensures forall t :: Ascii(t) && FileName(n) == Encode(t + ";1") ==> t == Upper(Dotted(n))
  {
    hide Encode;
    DotKept(n);
    UpperAppend(n);
    forall t | Ascii(t) && FileName(n) == Encode(t + ";1")
      ensures t == Upper(Dotted(n))
    {
      EncodeInjective(FileNameText(n), t + ";1");
      assert (t + ";1")[..|t|] == t && FileNameText(n)[..|t|] == Upper(Dotted(n));
    }
  }

  lemma SameDotted(a: string, b: string)
    ensures Dotted(a) == Dotted(b) <==> a == b || Collide(a, b)
  {
    if Dotted(a) == Dotted(b) && '.' !in a && '.' !in b {
      assert (a + ".")[..|a|] == a && (b + ".")[..|b|] == b;
    }
  }

  lemma DotKept(name: string)
    ensures '.' in Upper(name) <==> '.' in name
  {
    if '.' in name {
      var i :| 0 <= i < |name| && name[i] == '.';
      assert Upper(name)[i] == '.';
    }
    if '.' in Upper(name) {
      var i :| 0 <= i < |name| && Upper(name)[i] == '.';
      assert name[i] == '.';
    }
  }

  lemma UpperAppend(a: string)
    ensures Upper(a + ".") == Upper(a) + "."
    ensures '.' in a + "."
    ensures '.' in Upper(a + ".")
  {
    assert (a + ".")[|a|] == '.';
    assert Upper(a + ".")[|a|] == '.';
  }

  /** The identifier spells the text in upper case: none of its bytes is a lower-case letter,
      and with its capital letters made small it is the text. */
  ghost predicate InUpperCase(id: seq<byte>, text: string) {
    && |id| == |text|
    && forall i :: 0 <= i < |id| ==>
         && !(0x61 <= id[i] <= 0x7A)
         && text[i] as int == if 0x41 <= id[i] <= 0x5A then id[i] + 0x20 else id[i]
  }

  lemma UpperSpells(text: string)
    requires Ascii(text) && forall i :: 0 <= i < |text| ==> !('A' <= text[i] <= 'Z')
    ensures Ascii(Upper(text)) && InUpperCase(Encode(Upper(text)), text)
  {
  }

  /** Directory identifiers spell the name, file identifiers the dotted name and version 1. */
  lemma IdentifiersSpell(n: string)
    requires Canonical(n)
    ensures Ascii(n) && InUpperCase(DirName(n), n) && InUpperCase(FileName(n), Dotted(n) + ";1")
  {
    hide InUpperCase, Encode;
    TextOfDotted(n);
    var text := Dotted(n) + ";1";
    assert Upper(text) == Upper(Dotted(n)) + ";1";
    UpperSpells(n);
    UpperSpells(text);
  }

  /** There is only one such identifier. */
  lemma SpellingUnique(id: seq<byte>, id': seq<byte>, text: string)
    requires InUpperCase(id, text) && InUpperCase(id', text)
    ensures id == id'
  {
    assert forall i :: 0 <= i < |id| ==> id[i] == id'[i];
  }

  // --------------------------------------------------------------------- orders

  predicate LessEq(a: string, b: string) {
    if a == "" then true
    else if b == "" then false
    else a[0] < b[0] || (a[0] == b[0] && LessEq(a[1..], b[1..]))
  }

  lemma {:induction false} LessTotal(a: string, b: string)
    ensures LessEq(a, b) || LessEq(b, a)
  {
    if a != "" && b != "" {
      LessTotal(a[1..], b[1..]);
    }
  }

  lemma {:induction false} LessTrans(a: string, b: string, c: string)
    requires LessEq(a, b) && LessEq(b, c)
    ensures LessEq(a, c)
  {
    if a != "" && b != "" && c != "" && a[0] == b[0] == c[0] {
      LessTrans(a[1..], b[1..], c[1..]);
    }
  }

  lemma {:induction false} LessAntisym(a: string, b: string)
    requires LessEq(a, b) && LessEq(b, a)
    ensures a == b
  {
    if a != "" && b != "" {
      LessAntisym(a[1..], b[1..]);
      assert a == [a[0]] + a[1..] && b == [b[0]] + b[1..];
    }
  }

  /** The order is by the first character that differs, and a prefix comes first. */
  lemma {:induction false} LessIsLexicographic(a: string, b: string)
    ensures LessEq(a, b) <==> a <= b || DiffersBelow(a, b)
  {
    if a != "" && b != "" {
      if a[0] == b[0] {
        LessIsLexicographic(a[1..], b[1..]);
        assert a == [a[0]] + a[1..] && b == [b[0]] + b[1..];
        TailDiffers(a, b);
      } else {
        FirstDiffers(a, b);
      }
    }
  }

  ghost predicate DiffersBelow(a: string, b: string) {
    exists n :: 0 <= n < |a| && n < |b| && DiffersAt(a, b, n)
  }

  ghost predicate DiffersAt(a: string, b: string, n: nat)
    requires n < |a| && n < |b|
  {
    a[..n] == b[..n] && a[n] < b[n]
  }

  lemma TailDiffers(a: string, b: string)
    requires a != "" && b != "" && a[0] == b[0]
    ensures DiffersBelow(a, b) <==> DiffersBelow(a[1..], b[1..])
  {
    if DiffersBelow(a, b) {
      var n :| 0 <= n < |a| && n < |b| && DiffersAt(a, b, n);
      assert n > 0;
      assert a[1..][..n - 1] == a[..n][1..] && b[1..][..n - 1] == b[..n][1..];
      assert DiffersAt(a[1..], b[1..], n - 1);
    }
    if DiffersBelow(a[1..], b[1..]) {
      var n :| 0 <= n < |a[1..]| && n < |b[1..]| && DiffersAt(a[1..], b[1..], n);
      assert a[..n + 1] == [a[0]] + a[1..][..n] && b[..n + 1] == [b[0]] + b[1..][..n];
      assert DiffersAt(a, b, n + 1);
    }
  }

  lemma FirstDiffers(a: string, b: string)
    requires a != "" && b != "" && a[0] != b[0]
    ensures DiffersBelow(a, b) <==> a[0] < b[0]
  {
    if a[0] < b[0] {
      assert DiffersAt(a, b, 0);
    }
    if DiffersBelow(a, b) {
      var n :| 0 <= n < |a| && n < |b| && DiffersAt(a, b, n);
      SameStart(a, b, n);
    }
  }

  lemma SameStart(a: string, b: string, n: nat)
    requires n < |a| && n < |b| && DiffersAt(a, b, n)
    ensures n == 0 || a[0] == b[0]
  {
    assert n > 0 ==> a[..n][0] == a[0] && b[..n][0] == b[0];
  }

  /** A text comes before all its proper continuations. */
  lemma {:induction false} PrefixFirst(a: string, b: string)
    requires a != ""
    ensures !LessEq(b + a, b)
  {
    if b != "" {
      assert (b + a)[1..] == b[1..] + a;
      PrefixFirst(a, b[1..]);
    } else {
      assert b + a == a;
    }
  }

  ghost predicate SortedBy<T(!new)>(r: seq<T>, key: T -> string) {
    forall i, j :: 0 <= i < j < |r| ==> LessEq(key(r[i]), key(r[j]))
  }

  ghost predicate Enumerates<T(!new)>(r: seq<T>, s: set<T>) {
    && (forall i, j :: 0 <= i < j < |r| ==> r[i] != r[j])
    && (forall x :: x in r <==> x in s)
  }

  /** Where the keys differ, there is only one order. */
  lemma {:induction false} SortedUnique<T(!new)>(r: seq<T>, r': seq<T>, s: set<T>, key: T -> string)
    requires Enumerates(r, s) && Enumerates(r', s) && SortedBy(r, key) && SortedBy(r', key)
    requires forall x, y :: x in s && y in s && key(x) == key(y) ==> x == y
    ensures r == r'
    decreases |r|
  {
    assert r != [] ==> r[0] in r && r[0] in s;
    assert r' != [] ==> r'[0] in r' && r'[0] in s;
    if r != [] && r' != [] {
      SameFirst(r, r', s, key);
      WithoutFirst(r, s);
      WithoutFirst(r', s);
      SortedUnique(r[1..], r'[1..], s - {r[0]}, key);
      assert r == [r[0]] + r[1..] && r' == [r'[0]] + r'[1..];
    }
  }

  lemma SameFirst<T(!new)>(r: seq<T>, r': seq<T>, s: set<T>, key: T -> string)
    requires Enumerates(r, s) && Enumerates(r', s) && SortedBy(r, key) && SortedBy(r', key) && r != [] && r' != []
    requires forall x, y :: x in s && y in s && key(x) == key(y) ==> x == y
    ensures r[0] == r'[0]
  {
    assert r[0] in r && r'[0] in r';
    var i :| 0 <= i < |r| && r[i] == r'[0];
    var j :| 0 <= j < |r'| && r'[j] == r[0];
    LessTotal(key(r[0]), key(r[0]));
    LessTotal(key(r'[0]), key(r'[0]));
    assert LessEq(key(r[0]), key(r[i])) && LessEq(key(r'[0]), key(r'[j]));
    LessAntisym(key(r[0]), key(r'[0]));
  }

  lemma WithoutFirst<T(!new)>(r: seq<T>, s: set<T>)
    requires Enumerates(r, s) && r != []
    ensures Enumerates(r[1..], s - {r[0]})
  {
    forall x
      ensures x in r[1..] <==> x in s - {r[0]}
    {
      if x in r && x != r[0] {
        var i :| 0 <= i < |r| && r[i] == x;
        assert r[1..][i - 1] == x;
      }
      if x in r[1..] {
        var i :| 0 <= i < |r[1..]| && r[1..][i] == x;
        assert r[i + 1] == x && x in r;
      }
    }
  }

  /** Where the new element goes: behind everything that is not greater. */
  method Insert<T(!new)>(r: seq<T>, x: T, key: T -> string) returns (r': seq<T>, ghost at: nat)
    requires SortedBy(r, key)
    ensures at <= |r| && r' == r[..at] + [x] + r[at..] && SortedBy(r', key)
  {
    var i := 0;
    while i < |r| && LessEq(key(r[i]), key(x))
      invariant i <= |r| && forall j :: 0 <= j < i ==> LessEq(key(r[j]), key(x))
    {
      i := i + 1;
    }
    at := i;
    r' := r[..i] + [x] + r[i..];
    forall j | i <= j < |r|
      ensures LessEq(key(x), key(r[j]))
    {
      LessTotal(key(x), key(r[i]));
      if j > i {
        LessTrans(key(x), key(r[i]), key(r[j]));
      }
    }
  }

  /** The elements of a set in the order of their keys. */
  method Sort<T(==, !new)>(s: set<T>, key: T -> string) returns (r: seq<T>)
    ensures Enumerates(r, s) && SortedBy(r, key)
  {
    r := [];
    var rest := s;
    while rest != {}
      invariant rest <= s && Enumerates(r, s - rest) && SortedBy(r, key)
      decreases rest
    {
      var x :| x in rest;
      ghost var before := r;
      ghost var at;
      r, at := Insert(r, x, key);
      Inserted(before, at, x, s - rest);
      rest := rest - {x};
      assert s - rest == s - (rest + {x}) + {x};
    }
    assert s - {} == s;
  }

  lemma Inserted<T(!new)>(r: seq<T>, at: nat, x: T, s: set<T>)
    requires Enumerates(r, s) && x !in s && at <= |r|
    ensures Enumerates(r[..at] + [x] + r[at..], s + {x})
  {
    var r' := r[..at] + [x] + r[at..];
    forall i | 0 <= i < |r'|
      ensures r'[i] == if i < at then r[i] else if i == at then x else r[i - 1]
      ensures r'[i] == x <==> i == at
    {
      assert i < at ==> r[i] in r;
      assert i > at ==> r[i - 1] in r;
    }
    forall y | y in s
      ensures y in r'
    {
      var i :| 0 <= i < |r| && r[i] == y;
      assert r'[if i < at then i else i + 1] == y;
    }
  }

  /** The components joined with slashes. */
  function Join(p: Path): string {
    if p == [] then "" else if |p| == 1 then p[0] else Join(p[..|p| - 1]) + "/" + p[|p| - 1]
  }

  /** A directory sorts before everything below it. */
  lemma ParentFirst(p: Path)
    requires |p| >= 1 && (|p| == 1 ==> p[0] != "")
    ensures !LessEq(Join(p), Join(p[..|p| - 1]))
  {
    var parent := p[..|p| - 1];
    if |p| == 1 {
      assert parent == [];
      PrefixFirst(p[0], "");
      assert "" + p[0] == p[0];
    } else {
      PrefixFirst("/" + p[|p| - 1], Join(parent));
      assert Join(p) == Join(parent) + ("/" + p[|p| - 1]);
    }
  }

  // ------------------------------------------------------------- names as arguments

  function LowerSlashed(c: char): char {
    if c == '\\' then '/' else if 'A' <= c <= 'Z' then (c as int + 32) as char else c
  }

  /** Backslashes become slashes, upper-case letters lower-case ones. */
  function Normalized(text: string): (r: string)
    ensures |r| == |text| && forall i :: 0 <= i < |r| ==> r[i] == LowerSlashed(text[i])
  {
    seq(|text|, i requires 0 <= i < |text| => LowerSlashed(text[i]))
  }

  /** The length of the part before the first slash. */
  function PartLength(s: string): (n: nat)
    ensures n <= |s| && (n < |s| ==> s[n] == '/') && forall i :: 0 <= i < n ==> s[i] != '/'
    ensures s != "" && s[0] != '/' ==> n > 0
  {
    if s == "" || s[0] == '/' then 0 else 1 + PartLength(s[1..])
  }

  /** The parts between slashes, without the empty ones. */
  function Parts(s: string): Path {
    if s == "" then []
    else if s[0] == '/' then Parts(s[1..])
    else [s[..PartLength(s)]] + Parts(s[PartLength(s)..])
  }

  /** The components of the name in an --extent argument. */
  function ParseName(text: string): Path {
    Parts(Normalized(text))
  }

  lemma {:induction false} RunDropped(run: string, rest: string)
    requires OnlySeparators(run)
    ensures Parts(Normalized(run + rest)) == Parts(Normalized(rest))
  {
    if run == "" {
      assert run + rest == rest;
    } else {
      RunDropped(run[1..], rest);
      assert Normalized(run + rest)[1..] == Normalized(run[1..] + rest);
    }
  }

  lemma PartTaken(part: string, rest: string)
    requires part != "" && NoSeparator(part) && (rest == "" || IsSeparator(rest[0]))
    ensures Parts(Normalized(part + rest)) == [Normalized(part)] + Parts(Normalized(rest))
  {
    var s := Normalized(part + rest);
    assert s == Normalized(part) + Normalized(rest);
    assert forall i :: 0 <= i < |part| ==> s[i] == LowerSlashed(part[i]) != '/';
    assert rest != "" ==> s[|part|] == '/';
    assert PartLength(s) == |part|;
    assert s[..|part|] == Normalized(part) && s[|part|..] == Normalized(rest);
  }

  /** The parts of the name, whatever separators and letter case they were given with. */
  lemma {:induction false} ParsedAssembled(parts: Path, runs: seq<string>)
    requires Separated(parts, runs)
    ensures var p := ParseName(Assembled(parts, runs));
      |p| == |parts| && forall i :: 0 <= i < |p| ==> p[i] == Normalized(parts[i]) && InLowerCase(p[i], parts[i])
    decreases |parts|
  {
    hide Normalized, Parts, InLowerCase;
    if parts == [] {
      RunDropped(runs[0], "");
      NoParts();
      assert runs[0] + "" == runs[0];
    } else {
      var rest := Assembled(parts[1..], runs[1..]);
      ParsedAssembled(parts[1..], runs[1..]);
      RunDropped(runs[0], parts[0] + rest);
      RestBegins(parts[1..], runs[1..]);
      PartTaken(parts[0], rest);
      LowerCased(parts[0]);
    }
  }

  lemma NoParts()
    ensures Parts(Normalized("")) == []
  {
  }

  /** The same text up to case, without capital letters. */
  ghost predicate InLowerCase(r: string, text: string) {
    |r| == |text| && forall i :: 0 <= i < |r| ==> SameLetter(r[i], text[i]) && !('A' <= r[i] <= 'Z')
  }

  lemma LowerCased(text: string)
    requires NoSeparator(text)
    ensures InLowerCase(Normalized(text), text)
  {
  }

  predicate Printable(s: string) {
    forall i :: 0 <= i < |s| ==> ' ' <= s[i] < 128 as char
  }

  /** Whatever printable name is given, the components are canonical. */
  lemma ParsedIsCanonical(text: string)
    requires Printable(text)
    ensures CanonicalPath(ParseName(text))
  {
    PartsAreCanonical(Normalized(text));
  }

  predicate Plain(s: string) {
    Printable(s) && forall i :: 0 <= i < |s| ==> !('A' <= s[i] <= 'Z')
  }

  lemma {:induction false} PartsAreCanonical(s: string)
    requires Plain(s)
    ensures CanonicalPath(Parts(s))
    decreases |s|
  {
    if s != "" {
      if s[0] == '/' {
        PartsAreCanonical(s[1..]);
      } else {
        PartsAreCanonical(s[PartLength(s)..]);
        assert Canonical(s[..PartLength(s)]);
      }
    }
  }

  /** A canonical path can be told from its joined text. */
  lemma {:induction false} PartsOfJoin(p: Path)
    requires CanonicalPath(p)
    ensures Parts(Join(p)) == p
  {
    if p != [] {
      var last := p[|p| - 1];
      assert p == p[..|p| - 1] + [last];
      PartOfName(last);
      if |p| > 1 {
        PartsOfJoin(p[..|p| - 1]);
        PartsAppend(Join(p[..|p| - 1]), last);
        assert Join(p[..|p| - 1]) + ("/" + last) == Join(p);
      }
    }
  }

  lemma {:induction false} PartOfName(name: string)
    requires Canonical(name)
    ensures Parts(name) == [name]
  {
    var n := PartLength(name);
    assert n == |name| && name[..n] == name && name[n..] == "";
  }

  lemma {:induction false} PartsAppend(a: string, b: string)
    ensures Parts(a + ("/" + b)) == Parts(a) + Parts(b)
    decreases |a|
  {
    hide PartLength;
    var s := a + ("/" + b);
    if a == "" {
      assert s == "/" + b && s[1..] == b;
    } else if a[0] == '/' {
      assert s[1..] == a[1..] + ("/" + b);
      PartsAppend(a[1..], b);
    } else {
      var n := PartLength(a);
      PartKept(a, "/" + b);
      assert s[..n] == a[..n];
      assert s[n..] == a[n..] + ("/" + b);
      PartsAppend(a[n..], b);
      JoinParts([a[..n]], Parts(a[n..]), Parts(b));
    }
  }

  lemma JoinParts(a: Path, b: Path, c: Path)
    ensures a + (b + c) == a + b + c
  {
  }

  lemma {:induction false} PartKept(a: string, b: string)
    requires b != "" && b[0] == '/'
    ensures PartLength(a + b) == PartLength(a)
  {
    if a == "" {
      assert a + b == b;
    } else if a[0] != '/' {
      assert (a + b)[1..] == a[1..] + b;
      PartKept(a[1..], b);
    }
  }
}
