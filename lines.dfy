/**
  Rust's `str::lines`, which `get_diff` uses to cut both texts into lines:
  lines end at "\n" or "\r\n", the terminator is not part of the line, and a
  final line ending is optional (it does not add an empty last line).
*/
module TextLines {

  /** Position of the first `c` in `s`, or |s| when there is none. */
  function IndexOf(s: string, c: char): (i: nat)
    ensures i <= |s|
    ensures i < |s| ==> s[i] == c
    ensures forall j :: 0 <= j < i ==> s[j] != c
  {
    if s == [] then 0
    else if s[0] == c then 0
    else 1 + IndexOf(s[1..], c)
  }

  /** Drops the '\r' of a "\r\n" terminator. */
  function StripCr(l: string): string {
    if |l| > 0 && l[|l| - 1] == '\r' then l[..|l| - 1] else l
  }

  /** `s.lines().collect()`. */
  function Lines(s: string): (ls: seq<string>)
    ensures |ls| == 0 <==> s == ""
    ensures forall i :: 0 <= i < |ls| ==> '\n' !in ls[i]
    decreases |s|
  {
    if s == "" then []
    else
      var i := IndexOf(s, '\n');
      if i == |s| then [s]
      else [StripCr(s[..i])] + Lines(s[i + 1..])
  }

  /** Every line followed by `terminator`. */
  function Terminated(ls: seq<string>, terminator: string): string {
    if ls == [] then "" else ls[0] + terminator + Terminated(ls[1..], terminator)
  }

  /** The first line of `l + "\n" + rest` is `l`, minus a final '\r'. */
  lemma LinesOfFirstLine(l: string, rest: string)
    requires '\n' !in l
    ensures Lines(l + "\n" + rest) == [StripCr(l)] + Lines(rest)
  {
    var s := l + "\n" + rest;
    var i := IndexOf(s, '\n');
    assert s[|l|] == '\n';
    assert i == |l|;
    assert s[..i] == l && s[i + 1..] == rest;
  }

  /** Lines ended by "\r\n" come back unchanged. */
  lemma {:induction false} LinesOfCrLfText(ls: seq<string>)
    requires forall i :: 0 <= i < |ls| ==> '\n' !in ls[i]
    ensures Lines(Terminated(ls, "\r\n")) == ls
    decreases |ls|
  {
    if ls != [] {
      var rest := Terminated(ls[1..], "\r\n");
      assert Terminated(ls, "\r\n") == (ls[0] + "\r") + "\n" + rest;
      LinesOfFirstLine(ls[0] + "\r", rest);
      assert StripCr(ls[0] + "\r") == ls[0];
      LinesOfCrLfText(ls[1..]);
    }
  }

  /** Lines ended by "\n" come back unchanged, unless a line itself ends in
      '\r', which is then taken as part of a "\r\n" terminator. */
  lemma {:induction false} LinesOfLfText(ls: seq<string>)
    requires forall i :: 0 <= i < |ls| ==> '\n' !in ls[i]
    requires forall i :: 0 <= i < |ls| ==> ls[i] == [] || ls[i][|ls[i]| - 1] != '\r'
    ensures Lines(Terminated(ls, "\n")) == ls
    decreases |ls|
  {
    if ls != [] {
      var rest := Terminated(ls[1..], "\n");
      assert Terminated(ls, "\n") == ls[0] + "\n" + rest;
      LinesOfFirstLine(ls[0], rest);
      LinesOfLfText(ls[1..]);
    }
  }

  /** A final line ending adds no empty line. */
  lemma {:induction false} FinalNewlineOptional(s: string)
    requires s != "" && s[|s| - 1] != '\n' && s[|s| - 1] != '\r'
    ensures Lines(s + "\n") == Lines(s)
    decreases |s|
  {
    var i := IndexOf(s, '\n');
    if i == |s| {
      SingleLine(s);
    } else {
      var l, rest := s[..i], s[i + 1..];
      FirstLineOf(s, i);
      LinesOfFirstLine(l, rest);
      LinesOfFirstLine(l, rest + "\n");
      FinalNewlineOptional(rest);
    }
  }

  /** Text without '\n' and not ending in '\r' is one line, with or
      without a final '\n'. */
  lemma SingleLine(s: string)
    requires s != "" && IndexOf(s, '\n') == |s| && s[|s| - 1] != '\r'
    ensures Lines(s) == [s] && Lines(s + "\n") == [s]
  {
    LinesOfFirstLine(s, "");
    assert s + "\n" == s + "\n" + "";
  }

  /** Text cut at its first '\n', which is not its last character. */
  lemma FirstLineOf(s: string, i: nat)
    requires i == IndexOf(s, '\n') && i < |s| && s[|s| - 1] != '\n'
    ensures s == s[..i] + "\n" + s[i + 1..]
    ensures s + "\n" == s[..i] + "\n" + (s[i + 1..] + "\n")
    ensures '\n' !in s[..i]
    ensures s[i + 1..] != "" && s[i + 1..][|s[i + 1..]| - 1] == s[|s| - 1]
  {
    assert s == s[..i] + "\n" + s[i + 1..];
  }
}
