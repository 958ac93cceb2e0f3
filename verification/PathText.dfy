/** Paths as text: separators, the parts between them, and letters up to case. */
module PathText {

  predicate IsSeparator(c: char) {
    c == '/' || c == '\\'
  }

  ghost predicate OnlySeparators(s: string) {
    forall i :: 0 <= i < |s| ==> IsSeparator(s[i])
  }

  ghost predicate NoSeparator(s: string) {
    forall i :: 0 <= i < |s| ==> !IsSeparator(s[i])
  }

  /** Parts between runs of separators: a run before each part and one behind the last.
      Only the outer runs may be empty. */
  ghost predicate Separated(parts: seq<string>, runs: seq<string>) {
    && |runs| == |parts| + 1
    && (forall i :: 0 <= i < |runs| ==> OnlySeparators(runs[i]))
    && (forall i :: 0 < i < |parts| ==> runs[i] != "")
    && (forall i :: 0 <= i < |parts| ==> parts[i] != "" && NoSeparator(parts[i]))
  }

  ghost function Assembled(parts: seq<string>, runs: seq<string>): string
    requires |runs| == |parts| + 1
  {
    if parts == [] then runs[0] else runs[0] + (parts[0] + Assembled(parts[1..], runs[1..]))
  }

  /** What follows a part begins with a separator, if anything follows. */
  lemma RestBegins(parts: seq<string>, runs: seq<string>)
    requires |runs| == |parts| + 1 && OnlySeparators(runs[0]) && (parts != [] ==> runs[0] != "")
    ensures Assembled(parts, runs) == "" || IsSeparator(Assembled(parts, runs)[0])
  {
  }

  /** Every path is assembled in this way. */
  lemma {:induction false} EveryPathIsAssembled(path: string) returns (parts: seq<string>, runs: seq<string>)
    ensures Separated(parts, runs) && path == Assembled(parts, runs)
    decreases |path|
  {
    if path == "" {
      return [], [""];
    }
    var ps, rs := EveryPathIsAssembled(path[1..]);
    assert path == [path[0]] + path[1..];
    if IsSeparator(path[0]) {
      parts, runs := ps, rs[0 := [path[0]] + rs[0]];
      assert runs[1..] == rs[1..];
    } else if ps != [] && rs[0] == "" {
      parts, runs := ps[0 := [path[0]] + ps[0]], rs;
      assert parts[1..] == ps[1..];
      assert path == runs[0] + (parts[0] + Assembled(parts[1..], runs[1..]));
    } else {
      parts, runs := [[path[0]]] + ps, [""] + rs;
      assert parts[1..] == ps && runs[1..] == rs;
      assert path == runs[0] + (parts[0] + Assembled(ps, rs));
    }
  }

  lemma OnePart(run: string, name: string)
    requires OnlySeparators(run) && name != "" && NoSeparator(name)
    ensures Separated([name], [run, ""]) && Assembled([name], [run, ""]) == run + name
  {
    var parts, runs := [name], [run, ""];
    assert parts[1..] == [] && runs[1..] == [""];
    assert Assembled([], [""]) == "";
  }

  /** Two characters that are the same up to the case of an ASCII letter. */
  ghost predicate SameLetter(a: char, b: char) {
    || a == b
    || ('A' <= a <= 'Z' && b as int == a as int + 32)
    || ('A' <= b <= 'Z' && a as int == b as int + 32)
  }
}
