/** What RemoveDotSegmentsEx of UriCommon.c computes in absolute mode from the texts of path segments. */
module DotSegments {

  // ----- what it computes

  predicate IsDots(s: string) { s == "." || s == ".." }

  function Pop(out: seq<string>): seq<string> { if out == [] then [] else out[..|out| - 1] }

  /** One segment, with the segments kept so far as a stack. A last "." or ".." leaves "", for the trailing slash. */
  function Step(out: seq<string>, s: string, last: bool, hostSet: bool): seq<string> {
    if s == "." then
      if !last then out else if out == [] && !hostSet then [] else out + [""]
    else if s == ".." then
      if out == [] then [] else if last then Pop(out) + [""] else Pop(out)
    else out + [s]
  }

  function Fold(out: seq<string>, segments: seq<string>, hostSet: bool): seq<string>
    decreases segments
  {
    if segments == [] then out
    else Fold(Step(out, segments[0], |segments| == 1, hostSet), segments[1..], hostSet)
  }

  function Removed(segments: seq<string>, hostSet: bool): seq<string> { Fold([], segments, hostSet) }

  ghost predicate Dotless(segments: seq<string>) { forall i :: 0 <= i < |segments| ==> !IsDots(segments[i]) }

  lemma {:induction false} FoldDotless(out: seq<string>, segments: seq<string>, hostSet: bool)
    requires Dotless(out)
    ensures Dotless(Fold(out, segments, hostSet))
    decreases segments
  {
    if segments != [] {
      FoldDotless(Step(out, segments[0], |segments| == 1, hostSet), segments[1..], hostSet);
    }
  }

  lemma {:induction false} FoldKeeps(out: seq<string>, segments: seq<string>, hostSet: bool)
    requires Dotless(segments)
    ensures Fold(out, segments, hostSet) == out + segments
    decreases segments
  {
    if segments != [] {
      FoldKeeps(out + [segments[0]], segments[1..], hostSet);
      assert out + [segments[0]] + segments[1..] == out + segments;
    } else {
      assert out + segments == out;
    }
  }

  /** No dot segment is left, and there is nothing to remove a second time. */
  lemma RemovedTwice(segments: seq<string>, hostSet: bool)
    ensures Dotless(Removed(segments, hostSet))
    ensures Removed(Removed(segments, hostSet), hostSet) == Removed(segments, hostSet)
  {
    FoldDotless([], segments, hostSet);
    FoldKeeps([], Removed(segments, hostSet), hostSet);
  }

  // ----- section 5.2.4 of RFC 3986, on strings

  /** The string starts with a prefix of two to four characters. */
  predicate Starts(s: string, prefix: string)
    requires 2 <= |prefix| <= 4
  {
    && |prefix| <= |s| && s[0] == prefix[0] && s[1] == prefix[1]
    && (|prefix| >= 3 ==> s[2] == prefix[2]) && (|prefix| >= 4 ==> s[3] == prefix[3])
  }

  predicate Is(s: string, text: string)
    requires 2 <= |text| <= 4
  {
    |s| == |text| && Starts(s, text)
  }

  /** The end of the first path segment, with its initial "/" if it has one. */
  function SegmentEnd(s: string): (n: nat)
    requires s != ""
    ensures 0 < n <= |s|
  {
    1 + NextSlash(s[1..])
  }

  function NextSlash(s: string): (n: nat)
    ensures n <= |s|
  {
    if s == "" || s[0] == '/' then 0 else 1 + NextSlash(s[1..])
  }

  /** The output without its last segment and the "/" before it. */
  function RemoveLast(output: string): (r: string)
    ensures |r| <= |output|
  {
    if output == "" then "" else
      var front, c := output[..|output| - 1], output[|output| - 1];
      if c == '/' then front else RemoveLast(front)
  }

  /** Steps 2A to 2E, until the input is empty. */
  function RemoveDots(input: string, output: string): string
    decreases |input|
  {
    if input == "" then output
    else if Starts(input, "../") then RemoveDots(input[3..], output)
    else if Starts(input, "./") then RemoveDots(input[2..], output)
    else if Starts(input, "/./") then RemoveDots(input[2..], output)
    else if Is(input, "/.") then RemoveDots("/", output)
    else if Starts(input, "/../") then RemoveDots(input[3..], RemoveLast(output))
    else if Is(input, "/..") then RemoveDots("/", RemoveLast(output))
    else if input == "." || input == ".." then output
    else RemoveDots(input[SegmentEnd(input)..], output + input[..SegmentEnd(input)])
  }

  /** A path: each segment with a "/" before it. */
  function Path(segments: seq<string>): string {
    if segments == [] then "" else "/" + segments[0] + Path(segments[1..])
  }

  ghost predicate NoSlash(s: string) { forall i :: 0 <= i < |s| ==> s[i] != '/' }

  ghost predicate Segments(segments: seq<string>) { forall i :: 0 <= i < |segments| ==> NoSlash(segments[i]) }

  /** The RFC's algorithm on segments: a last "." or ".." always leaves a trailing slash. */
  function StandardStep(out: seq<string>, s: string, last: bool): seq<string> {
    if IsDots(s) then (if s == "." then out else Pop(out)) + if last then [""] else [] else out + [s]
  }

  function Standard(out: seq<string>, segments: seq<string>): seq<string>
    decreases segments
  {
    if segments == [] then out else Standard(StandardStep(out, segments[0], |segments| == 1), segments[1..])
  }

  lemma {:induction false} PathSnoc(out: seq<string>, s: string)
    ensures Path(out + [s]) == Path(out) + "/" + s
  {
    if out != [] {
      assert (out + [s])[1..] == out[1..] + [s];
      PathSnoc(out[1..], s);
    }
  }

  lemma {:induction false} RemoveLastOne(front: string, s: string)
    requires NoSlash(s)
    ensures RemoveLast(front + "/" + s) == front
  {
    var text := front + "/" + s;
    if s == "" {
      assert text[..|text| - 1] == front;
    } else {
      assert text[..|text| - 1] == front + "/" + s[..|s| - 1];
      RemoveLastOne(front, s[..|s| - 1]);
    }
  }

  lemma RemoveLastSegment(out: seq<string>)
    requires Segments(out)
    ensures RemoveLast(Path(out)) == Path(Pop(out))
  {
    if out != [] {
      var last := out[|out| - 1];
      assert out == Pop(out) + [last];
      PathSnoc(Pop(out), last);
      RemoveLastOne(Path(Pop(out)), last);
    }
  }

  lemma {:induction false} SlashAfter(s: string, rest: string)
    requires NoSlash(s) && (rest == "" || rest[0] == '/')
    ensures NextSlash(s + rest) == |s|
  {
    if s == "" {
      assert s + rest == rest;
    } else {
      assert (s + rest)[1..] == s[1..] + rest;
      SlashAfter(s[1..], rest);
    }
  }

  /** Steps 2B and 2C on a dot segment. */
  lemma DotStep(segments: seq<string>, output: string)
    requires segments != [] && IsDots(segments[0])
    ensures var output' := if segments[0] == "." then output else RemoveLast(output);
      RemoveDots(Path(segments), output) ==
        RemoveDots(if |segments| == 1 then "/" else Path(segments[1..]), output')
  {
    var input, s, rest := Path(segments), segments[0], Path(segments[1..]);
    assert input == "/" + s + rest;
    assert input[0] == '/' && input[1] == '.' && (s == ".." ==> input[2] == '.');
    assert rest == input[1 + |s|..];
    if |segments| > 1 { assert rest[0] == '/' && input[1 + |s|] == '/'; }
  }

  /** Step 2E. */
  lemma SegmentMoves(input: string, output: string)
    requires input != "" && input[0] == '/' && !Is(input, "/.") && !Is(input, "/..")
    requires !Starts(input, "/./") && !Starts(input, "/../")
    ensures RemoveDots(input, output) == RemoveDots(input[SegmentEnd(input)..], output + input[..SegmentEnd(input)])
  {
    assert input != "." && input != ".." && !Starts(input, "../") && !Starts(input, "./");
  }

  /** Step 2E on any other segment. */
  lemma OtherStep(s: string, rest: string, output: string)
    requires NoSlash(s) && !IsDots(s) && (rest == "" || rest[0] == '/')
    ensures RemoveDots("/" + s + rest, output) == RemoveDots(rest, output + "/" + s)
  {
    var input := "/" + s + rest;
    NotDots(s, rest, input);
    FirstSegment(s, rest, input);
    FirstMoves(input, output, "/" + s, rest);
    Appended(output, "/", s);
  }

  lemma FirstMoves(input: string, output: string, head: string, rest: string)
    requires input != "" && input[0] == '/' && !Is(input, "/.") && !Is(input, "/..")
    requires !Starts(input, "/./") && !Starts(input, "/../")
    requires SegmentEnd(input) == |head| <= |input| && input[..|head|] == head && input[|head|..] == rest
    ensures RemoveDots(input, output) == RemoveDots(rest, output + head)
  {
    SegmentMoves(input, output);
  }

  lemma Appended(a: string, b: string, c: string)
    ensures a + (b + c) == a + b + c
  {}

  lemma FirstSegment(s: string, rest: string, input: string)
    requires NoSlash(s) && (rest == "" || rest[0] == '/') && input == "/" + s + rest
    ensures SegmentEnd(input) == 1 + |s| && input[..1 + |s|] == "/" + s && input[1 + |s|..] == rest
  {
    assert input[1..] == s + rest;
    SlashAfter(s, rest);
  }

  lemma NotDots(s: string, rest: string, input: string)
    requires NoSlash(s) && !IsDots(s) && (rest == "" || rest[0] == '/') && input == "/" + s + rest
    ensures input[0] == '/' && !Is(input, "/.") && !Is(input, "/..") && !Starts(input, "/./") && !Starts(input, "/../")
  {
    assert forall i :: 0 <= i < |s| ==> input[i + 1] == s[i];
    if |s| == 1 { assert s == [s[0]]; }
    if |s| == 2 { assert s == [s[0], s[1]]; }
    if |s| > 1 { assert input[2] == s[1] != '/'; }
    if |s| > 2 { assert input[3] == s[2] != '/'; }
  }

  lemma SlashAlone(output: string)
    ensures RemoveDots("/", output) == output + "/"
  {
    OtherStep("", "", output);
    assert "/" + "" + "" == "/" && output + "/" + "" == output + "/";
  }

  /** On a path of segments the RFC's string algorithm is the one on segments. */
  lemma {:induction false} StandardIsRemoveDots(out: seq<string>, segments: seq<string>)
    requires Segments(out) && Segments(segments)
    ensures RemoveDots(Path(segments), Path(out)) == Path(Standard(out, segments))
    decreases segments
  {
    if segments == [] { return; }
    var s, last, rest := segments[0], |segments| == 1, segments[1..];
    var out' := StandardStep(out, s, last);
    if IsDots(s) {
      DotStep(segments, Path(out));
      RemoveLastSegment(out);
      if last {
        SlashAlone(Path(if s == "." then out else Pop(out)));
        PathSnoc(if s == "." then out else Pop(out), "");
      } else {
        assert out' == if s == "." then out else Pop(out);
      }
    } else {
      OtherStep(s, Path(rest), Path(out));
      PathSnoc(out, s);
    }
    if !last || !IsDots(s) { StandardIsRemoveDots(out', rest); }
  }

  /** The segments kept in front of the last one. */
  function Kept(out: seq<string>, segments: seq<string>): seq<string>
    decreases segments
  {
    if |segments| <= 1 then out else Kept(StandardStep(out, segments[0], false), segments[1..])
  }

  /** Nothing is kept in front of a last ".." or, without a host, of a last "." */
  predicate LosesSlash(segments: seq<string>, hostSet: bool) {
    && segments != [] && Kept([], segments) == []
    && (segments[|segments| - 1] == ".." || (segments[|segments| - 1] == "." && !hostSet))
  }

  lemma {:induction false} FoldIsStandard(out: seq<string>, segments: seq<string>, hostSet: bool)
    requires segments != []
    ensures var s := segments[|segments| - 1];
      if Kept(out, segments) == [] && (s == ".." || (s == "." && !hostSet))
      then Fold(out, segments, hostSet) == [] && Standard(out, segments) == [""]
      else Fold(out, segments, hostSet) == Standard(out, segments)
    decreases segments
  {
    if |segments| > 1 {
      var next := StandardStep(out, segments[0], false);
      assert next == Step(out, segments[0], false, hostSet);
      FoldIsStandard(next, segments[1..], hostSet);
      assert segments[1..][|segments| - 2] == segments[|segments| - 1];
    } else {
      assert segments[1..] == [];
    }
  }

  /**
   * The path that is left is the one of the RFC's algorithm exactly when no trailing slash is lost: where nothing
   * is kept in front of a last dot segment, the RFC leaves "/" and the code no segment at all.
   */
  lemma MatchesStandard(segments: seq<string>, hostSet: bool)
    requires Segments(segments)
    ensures Path(Removed(segments, hostSet)) == RemoveDots(Path(segments), "") <==> !LosesSlash(segments, hostSet)
    ensures LosesSlash(segments, hostSet) ==> Removed(segments, hostSet) == [] && RemoveDots(Path(segments), "") == "/"
  {
    StandardIsRemoveDots([], segments);
    assert Path([]) == "";
    if segments != [] {
      FoldIsStandard([], segments, hostSet);
      assert Path([""]) == "/" + "" + Path([""][1..]) == "/";
    }
  }

  /** The smallest paths that lose their slash. */
  lemma LostSlash()
    ensures Removed([".."], true) == [] && RemoveDots(Path([".."]), "") == "/"
    ensures Removed(["."], false) == [] && RemoveDots(Path(["."]), "") == "/"
  {
    MatchesStandard([".."], true);
    MatchesStandard(["."], false);
  }
}
