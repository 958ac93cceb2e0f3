/** Extension names and dependency files of the Tiny Core repository. */
module TczNames {

  predicate IsSpace(c: char) {
    || '\t' <= c <= '\r' || '\U{1C}' <= c <= ' ' || c == '\U{85}' || c == '\U{A0}' || c == '\U{1680}'
    || '\U{2000}' <= c <= '\U{200A}' || c == '\U{2028}' || c == '\U{2029}' || c == '\U{202F}' || c == '\U{205F}'
    || c == '\U{3000}'
  }

  /** The characters at which a text is split into lines. */
  predicate IsLineBreak(c: char) {
    '\n' <= c <= '\r' || '\U{1C}' <= c <= '\U{1E}' || c == '\U{85}' || c == '\U{2028}' || c == '\U{2029}'
  }

  function StripLeft(s: string): (r: string)
    ensures r == "" || !IsSpace(r[0])
    ensures s != "" && !IsSpace(s[0]) ==> r == s
  {
    if s != "" && IsSpace(s[0]) then StripLeft(s[1..]) else s
  }

  function StripRight(s: string): (r: string)
    ensures r <= s
    ensures r == "" || !IsSpace(r[|r| - 1])
    ensures s != "" && !IsSpace(s[|s| - 1]) ==> r == s
  {
    if s != "" && IsSpace(s[|s| - 1]) then StripRight(s[..|s| - 1]) else s
  }

  function Strip(s: string): (r: string)
    ensures r != "" ==> !IsSpace(r[0]) && !IsSpace(r[|r| - 1])
    ensures s != "" && !IsSpace(s[0]) && !IsSpace(s[|s| - 1]) ==> r == s
  {
    StripRight(StripLeft(s))
  }

  const SUFFIX := ".tcz"

  predicate EndsWith(s: string, t: string) {
    |t| <= |s| && s[|s| - |t|..] == t
  }

  predicate Blank(name: string) {
    Strip(name) == ""
  }

  /** The normalised name; blank names are refused by the callers. */
  function Normalize(name: string): (r: string)
    requires !Blank(name)
    ensures EndsWith(r, SUFFIX)
  {
    var s := Strip(name);
    if EndsWith(s, SUFFIX) then s else s + SUFFIX
  }

  /** Normalising again changes nothing, so names found as dependencies and names given
      as seeds are compared on equal terms. */
  lemma NormalizeIdempotent(name: string)
    requires !Blank(name)
    ensures !Blank(Normalize(name)) && Normalize(Normalize(name)) == Normalize(name)
  {
    var r := Normalize(name);
    assert r[0] == Strip(name)[0] && r[|r| - 1] == 'z' by {
      assert r[|r| - |SUFFIX|..][3] == SUFFIX[3];
    }
  }

  /** The lines of a text; a trailing partial line counts. */
  function Lines(text: string, current: string): seq<string> {
    if text == "" then [current]
    else if IsLineBreak(text[0]) then [current] + Lines(text[1..], "")
    else Lines(text[1..], current + [text[0]])
  }

  predicate IsEntry(line: string) {
    Strip(line) != "" && Strip(line)[0] != '#'
  }

  /** The dependencies that a list of lines names: blank lines and comments are skipped. */
  function EntriesOf(lines: seq<string>): (deps: seq<string>)
    ensures forall d :: d in deps ==> !Blank(d) && Normalize(d) == d
  {
    if lines == [] then []
    else if IsEntry(lines[0]) then
      StripTwice(lines[0]);
      NormalizeIdempotent(lines[0]);
      [Normalize(Strip(lines[0]))] + EntriesOf(lines[1..])
    else EntriesOf(lines[1..])
  }

  lemma StripTwice(s: string)
    ensures Strip(Strip(s)) == Strip(s)
  {
  }

  /** The dependency files by name; a name without one has no dependencies. */
  type Repository = map<string, string>

  function Dependencies(repo: Repository, name: string): (deps: seq<string>)
    ensures forall d :: d in deps ==> !Blank(d) && Normalize(d) == d
  {
    if name in repo then EntriesOf(Lines(repo[name], "")) else []
  }

  // ------------------------------------------------------- what a file of text lists

  /** One line: a body between blanks, and the character that ends it. */
  datatype Line = Line(left: string, body: string, right: string, end: char)

  ghost predicate Spaces(s: string) {
    forall i :: 0 <= i < |s| ==> IsSpace(s[i])
  }

  ghost predicate Unbroken(s: string) {
    forall i :: 0 <= i < |s| ==> !IsLineBreak(s[i])
  }

  ghost predicate Trimmed(body: string) {
    body == "" || (!IsSpace(body[0]) && !IsSpace(body[|body| - 1]))
  }

  ghost predicate WellMade(line: Line) {
    && Spaces(line.left) && Trimmed(line.body) && Spaces(line.right) && IsLineBreak(line.end)
    && Unbroken(line.left) && Unbroken(line.body) && Unbroken(line.right)
  }

  ghost function Content(line: Line): string {
    line.left + (line.body + line.right)
  }

  ghost function TextOf(lines: seq<Line>): string {
    if lines == [] then "" else Content(lines[0]) + ([lines[0].end] + TextOf(lines[1..]))
  }

  /** The names in the lines that are not blank and no comments, each with the suffix. */
  ghost function NamesIn(lines: seq<Line>): seq<string> {
    if lines == [] then []
    else
      var body := lines[0].body;
      (if body == "" || body[0] == '#' then []
       else if |body| >= 4 && body[|body| - 4..] == ".tcz" then [body] else [body + ".tcz"])
      + NamesIn(lines[1..])
  }

  lemma {:induction false} LeftStripped(left: string, rest: string)
    requires Spaces(left) && (rest == "" || !IsSpace(rest[0]))
    ensures StripLeft(left + rest) == rest
  {
    if left == "" {
      assert left + rest == rest;
    } else {
      assert (left + rest)[0] == left[0] && (left + rest)[1..] == left[1..] + rest;
      LeftStripped(left[1..], rest);
    }
  }

  lemma {:induction false} RightStripped(body: string, right: string)
    requires Spaces(right) && (body == "" || !IsSpace(body[|body| - 1]))
    ensures StripRight(body + right) == body
    decreases |right|
  {
    if right == "" {
      assert body + right == body;
    } else {
      var n := |right| - 1;
      assert (body + right)[..|body + right| - 1] == body + right[..n];
      assert (body + right)[|body + right| - 1] == right[n];
      RightStripped(body, right[..n]);
    }
  }

  lemma StripsToBody(line: Line)
    requires WellMade(line)
    ensures Strip(Content(line)) == line.body
  {
    if line.body == "" {
      var blanks := line.left + line.right;
      assert Content(line) == blanks + "";
      LeftStripped(blanks, "");
    } else {
      LeftStripped(line.left, line.body + line.right);
      RightStripped(line.body, line.right);
    }
  }

  /** Normalising keeps the name, up to surrounding blanks and the suffix; a name is refused
      exactly if it has nothing but blanks. */
  lemma NormalizeKeepsName(line: Line)
    requires WellMade(line)
    ensures Blank(Content(line)) <==> line.body == ""
    ensures line.body != "" ==>
              Normalize(Content(line)) ==
              if |line.body| >= 4 && line.body[|line.body| - 4..] == ".tcz" then line.body else line.body + ".tcz"
  {
    hide Content, Strip;
    StripsToBody(line);
  }

  lemma {:induction false} LineTaken(line: string, end: char, rest: string, current: string)
    requires Unbroken(line) && IsLineBreak(end)
    ensures Lines(line + ([end] + rest), current) == [current + line] + Lines(rest, "")
    decreases |line|
  {
    var s := line + ([end] + rest);
    if line == "" {
      assert s[0] == end && s[1..] == rest && current + line == current;
    } else {
      assert s[0] == line[0] && s[1..] == line[1..] + ([end] + rest);
      LineTaken(line[1..], end, rest, current + [line[0]]);
      assert current + [line[0]] + line[1..] == current + line;
    }
  }

  lemma {:induction false} LastTaken(line: string, current: string)
    requires Unbroken(line)
    ensures Lines(line, current) == [current + line]
    decreases |line|
  {
    if line == "" {
      assert current + line == current;
    } else {
      LastTaken(line[1..], current + [line[0]]);
      assert current + [line[0]] + line[1..] == current + line;
    }
  }

  lemma EntryTaken(line: Line, rest: seq<string>)
    requires WellMade(line)
    ensures EntriesOf([Content(line)] + rest) == NamesIn([line]) + EntriesOf(rest)
  {
    hide Content, Normalize, WellMade, Strip;
    StripsToBody(line);
    assert ([Content(line)] + rest)[1..] == rest && [line][1..] == [];
    assert NamesIn([]) == [];
    if IsEntry(Content(line)) {
      NormalizeKeepsName(line);
      StripTwice(Content(line));
      SameNormal(Content(line));
    }
  }

  lemma SameNormal(s: string)
    requires !Blank(s)
    ensures !Blank(Strip(s)) && Normalize(Strip(s)) == Normalize(s)
  {
    hide Strip;
    StripTwice(s);
  }

  lemma {:induction false} EntriesListed(lines: seq<Line>, last: Line)
    requires (forall i :: 0 <= i < |lines| ==> WellMade(lines[i])) && WellMade(last)
    ensures EntriesOf(Lines(TextOf(lines) + Content(last), "")) == NamesIn(lines) + NamesIn([last])
  {
    hide Content, EntriesOf, Lines, WellMade, NamesIn;
    if lines == [] {
      BareLine(last);
      LastTaken(Content(last), "");
      assert TextOf(lines) + Content(last) == Content(last) && "" + Content(last) == Content(last);
      EntryTaken(last, []);
      assert [Content(last)] + [] == [Content(last)];
      NothingListed();
      assert NamesIn([]) + NamesIn([last]) == NamesIn([last]) + [];
    } else {
      var rest := TextOf(lines[1..]) + Content(last);
      BareLine(lines[0]);
      assert TextOf(lines) + Content(last) == Content(lines[0]) + ([lines[0].end] + rest);
      LineTaken(Content(lines[0]), lines[0].end, rest, "");
      assert "" + Content(lines[0]) == Content(lines[0]);
      EntryTaken(lines[0], Lines(rest, ""));
      EntriesListed(lines[1..], last);
      NamesOfFirst(lines);
    }
  }

  lemma BareLine(line: Line)
    requires WellMade(line)
    ensures Unbroken(Content(line)) && IsLineBreak(line.end)
  {
  }

  lemma NothingListed()
    ensures NamesIn([]) == [] && EntriesOf([]) == []
  {
  }

  lemma NamesOfFirst(lines: seq<Line>)
    requires lines != []
    ensures NamesIn(lines) == NamesIn([lines[0]]) + NamesIn(lines[1..])
  {
    assert [lines[0]][1..] == [];
    NothingListed();
  }

  /** A dependency file that is made of these lines, the last of them not ended, lists
      exactly the names in them. */
  lemma DependenciesListed(repo: Repository, name: string, lines: seq<Line>, last: Line)
    requires (forall i :: 0 <= i < |lines| ==> WellMade(lines[i])) && WellMade(last)
    requires name in repo && repo[name] == TextOf(lines) + Content(last)
    ensures Dependencies(repo, name) == NamesIn(lines) + NamesIn([last])
  {
    hide WellMade, NamesIn, EntriesOf, TextOf, Content, Lines;
    EntriesListed(lines, last);
  }

  lemma {:induction false} LineOf(s: string) returns (line: Line)
    requires Unbroken(s)
    ensures WellMade(line) && Content(line) == s
    decreases |s|
  {
    if s == "" {
      line := Line("", "", "", '\n');
    } else if IsSpace(s[0]) {
      line := LineOf(s[1..]);
      line := line.(left := [s[0]] + line.left);
    } else if IsSpace(s[|s| - 1]) {
      line := LineOf(s[..|s| - 1]);
      assert s == s[..|s| - 1] + [s[|s| - 1]];
      line := line.(right := line.right + [s[|s| - 1]]);
    } else {
      line := Line("", s, "", '\n');
    }
  }

  /** Every text is made of such lines, so the law above covers every dependency file. */
  lemma {:induction false} EveryTextIsMade(text: string, current: string) returns (lines: seq<Line>, last: Line)
    requires Unbroken(current)
    ensures (forall i :: 0 <= i < |lines| ==> WellMade(lines[i])) && WellMade(last)
    ensures current + text == TextOf(lines) + Content(last)
    decreases |text|
  {
    hide Content, WellMade;
    if text == "" {
      last := LineOf(current);
      lines := [];
      assert current + text == current;
    } else if IsLineBreak(text[0]) {
      var first := LineOf(current);
      EndedBy(first, text[0]);
      first := first.(end := text[0]);
      lines, last := EveryTextIsMade(text[1..], "");
      assert ([first] + lines)[1..] == lines;
      assert "" + text[1..] == text[1..] && text == [text[0]] + text[1..];
      lines := [first] + lines;
    } else {
      lines, last := EveryTextIsMade(text[1..], current + [text[0]]);
      assert current + [text[0]] + text[1..] == current + text;
    }
  }

  lemma EndedBy(line: Line, end: char)
    requires WellMade(line) && IsLineBreak(end)
    ensures WellMade(line.(end := end)) && Content(line.(end := end)) == Content(line)
  {
  }
}
