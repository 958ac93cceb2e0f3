/** The text that the stager reads and writes: paths on the volume, decimal numbers and
    the lines of the boot configuration. */
module FatxText {
  import opened Bytes
  import opened FatSlot
  import opened FatxVolume
  import opened PathText

  // ---------------------------------------------------------------------- paths

  /** Splits at slashes and backslashes and drops empty components. */
  function Components(path: string, current: string): seq<string> {
    if path == "" then (if current == "" then [] else [current])
    else if path[0] == '/' || path[0] == '\\' then
      (if current == "" then [] else [current]) + Components(path[1..], "")
    else Components(path[1..], current + [path[0]])
  }

  function SplitPath(path: string): (r: Outcome<seq<string>, Error>)
    ensures r.Ok? ==> r.value != [] && ValidNames(r.value)
  {
    var parts := Components(path, "");
    if parts == [] || !ValidNames(parts) then Err(BadPath) else Ok(parts)
  }

  lemma {:induction false} SkipRun(run: string, rest: string)
    requires OnlySeparators(run)
    ensures Components(run + rest, "") == Components(rest, "")
  {
    if run == "" {
      assert run + rest == rest;
    } else {
      SkipRun(run[1..], rest);
      assert (run + rest)[0] == run[0] && (run + rest)[1..] == run[1..] + rest;
    }
  }

  lemma {:induction false} GatherPart(part: string, rest: string, current: string)
    requires NoSeparator(part)
    ensures Components(part + rest, current) == Components(rest, current + part)
    decreases |part|
  {
    if part == "" {
      assert part + rest == rest && current + part == current;
    } else {
      GatherPart(part[1..], rest, current + [part[0]]);
      assert (part + rest)[0] == part[0] && (part + rest)[1..] == part[1..] + rest;
      assert current + [part[0]] + part[1..] == current + part;
    }
  }

  lemma PartEnds(rest: string, current: string)
    requires current != "" && (rest == "" || IsSeparator(rest[0]))
    ensures Components(rest, current) == [current] + Components(rest, "")
  {
  }

  lemma {:induction false} ComponentsOfAssembled(parts: seq<string>, runs: seq<string>)
    requires Separated(parts, runs)
    ensures Components(Assembled(parts, runs), "") == parts
    decreases |parts|
  {
    if parts == [] {
      SkipRun(runs[0], "");
      assert runs[0] + "" == runs[0];
    } else {
      var rest := Assembled(parts[1..], runs[1..]);
      ComponentsOfAssembled(parts[1..], runs[1..]);
      SkipRun(runs[0], parts[0] + rest);
      GatherPart(parts[0], rest, "");
      assert "" + parts[0] == parts[0];
      assert rest == "" || IsSeparator(rest[0]) by {
        RestBegins(parts[1..], runs[1..]);
      }
      PartEnds(rest, parts[0]);
      assert [parts[0]] + parts[1..] == parts;
    }
  }

  /** Exactly what splitting gives: the parts, if there are any and all are valid names.
      Every path is assembled in this way, so this covers all of them. */
  lemma SplitAssembled(parts: seq<string>, runs: seq<string>)
    requires Separated(parts, runs)
    ensures SplitPath(Assembled(parts, runs)) ==
            if parts != [] && (forall i :: 0 <= i < |parts| ==> 1 <= |parts[i]| <= 42 && IsAscii(parts[i])) then Ok(parts)
            else Err(BadPath)
  {
    hide Components, Separated, Assembled, IsAscii;
    ComponentsOfAssembled(parts, runs);
  }

  /** Leading separators and a valid name without any make a path of one component. */
  lemma SplitName(run: string, name: string)
    requires OnlySeparators(run) && ValidName(name) && NoSeparator(name)
    ensures SplitPath(run + name) == Ok([name])
  {
    hide SplitPath, Assembled, Separated;
    OnePart(run, name);
    SplitAssembled([name], [run, ""]);
  }

  // -------------------------------------------------------------------- numbers

  function Digits(n: nat): string {
    if n < 10 then [(n + '0' as int) as char] else Digits(n / 10) + [(n % 10 + '0' as int) as char]
  }

  ghost predicate IsDecimal(s: string) {
    s != "" && forall i :: 0 <= i < |s| ==> '0' <= s[i] <= '9'
  }

  /** Reads a number from left to right. */
  ghost function ParseDecimal(s: string, value: nat): nat
    requires forall i :: 0 <= i < |s| ==> '0' <= s[i] <= '9'
  {
    if s == "" then value else ParseDecimal(s[1..], 10 * value + (s[0] as int - '0' as int))
  }

  lemma {:induction false} ParseLast(s: string, c: char, value: nat)
    requires '0' <= c <= '9' && forall i :: 0 <= i < |s| ==> '0' <= s[i] <= '9'
    ensures ParseDecimal(s + [c], value) == 10 * ParseDecimal(s, value) + (c as int - '0' as int)
    decreases |s|
  {
    if s == "" {
      assert (s + [c])[1..] == "";
    } else {
      assert (s + [c])[1..] == s[1..] + [c];
      ParseLast(s[1..], c, 10 * value + (s[0] as int - '0' as int));
    }
  }

  /** A printed number is a decimal without leading zeros and reads as itself. */
  lemma {:induction false} DigitsRoundTrip(n: nat)
    ensures IsDecimal(Digits(n)) && ParseDecimal(Digits(n), 0) == n
    ensures Digits(n)[0] == '0' ==> n == 0 && Digits(n) == "0"
  {
    if n < 10 {
      assert Digits(n)[1..] == "";
    } else {
      DigitsRoundTrip(n / 10);
      ParseLast(Digits(n / 10), (n % 10 + '0' as int) as char, 0);
    }
  }

  /** The text up to the next blank. */
  ghost function Word(s: string): (w: string)
    ensures w <= s
  {
    if s == "" || s[0] == ' ' then "" else [s[0]] + Word(s[1..])
  }

  /** The text begins with the key and a decimal number of that value, up to the next blank
      or the end; rest is what follows. */
  ghost predicate SaysNumber(s: string, key: string, value: nat, rest: string) {
    && key <= s
    && var word := Word(s[|key|..]);
    && IsDecimal(word) && ParseDecimal(word, 0) == value && rest == s[|key| + |word|..]
  }

  lemma {:induction false} WordEnds(word: string, rest: string)
    requires (forall i :: 0 <= i < |word| ==> word[i] != ' ') && (rest == "" || rest[0] == ' ')
    ensures Word(word + rest) == word
  {
    if word == "" {
      assert word + rest == rest;
    } else {
      WordEnds(word[1..], rest);
      assert (word + rest)[1..] == word[1..] + rest;
    }
  }

  lemma NumberSaid(key: string, n: nat, rest: string)
    requires rest == "" || rest[0] == ' '
    ensures SaysNumber(key + Digits(n) + rest, key, n, rest)
  {
    hide Digits, Word, ParseDecimal;
    DigitsRoundTrip(n);
    var s := key + Digits(n) + rest;
    assert s[|key|..] == Digits(n) + rest;
    WordEnds(Digits(n), rest);
  }

  function PayloadInfo(offset: nat, size: nat, name: string): string {
    " tc_payload_offset=" + Digits(offset) + " tc_payload_size=" + Digits(size) + " tc_payload_file=/" + name
  }

  /** Read from the left, the text names this offset, this size and this file. */
  ghost predicate NamesPayload(s: string, offset: nat, size: nat, name: string) {
    exists rest :: SaysNumber(s, " tc_payload_offset=", offset, rest)
                   && SaysNumber(rest, " tc_payload_size=", size, " tc_payload_file=/" + name)
  }

  lemma PayloadInfoReads(offset: nat, size: nat, name: string)
    ensures NamesPayload(PayloadInfo(offset, size, name), offset, size, name)
  {
    hide Digits, SaysNumber;
    var file := " tc_payload_file=/" + name;
    var rest := " tc_payload_size=" + Digits(size) + file;
    assert PayloadInfo(offset, size, name) == " tc_payload_offset=" + Digits(offset) + rest;
    NumberSaid(" tc_payload_offset=", offset, rest);
    NumberSaid(" tc_payload_size=", size, file);
  }

  // ---------------------------------------------------------------------- lines

  /** The lines of a text, each ended by a newline. */
  ghost function Lines(s: string, current: string): seq<string>
    decreases |s|
  {
    if s == "" then (if current == "" then [] else [current])
    else if s[0] == '\n' then [current] + Lines(s[1..], "")
    else Lines(s[1..], current + [s[0]])
  }

  ghost predicate OneLine(s: string) {
    forall i :: 0 <= i < |s| ==> s[i] != '\n'
  }

  lemma {:induction false} LineThen(line: string, rest: string, current: string)
    requires OneLine(line)
    ensures Lines(line + ("\n" + rest), current) == [current + line] + Lines(rest, "")
    decreases |line|
  {
    var s := line + ("\n" + rest);
    if line == "" {
      assert s[0] == '\n' && s[1..] == rest && current + line == current;
    } else {
      LineThen(line[1..], rest, current + [line[0]]);
      assert s[0] == line[0] && s[1..] == line[1..] + ("\n" + rest);
      assert current + [line[0]] + line[1..] == current + line;
    }
  }
}
