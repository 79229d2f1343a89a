/** The printed form of an instruction whose lengths count UTF-8 characters, and where its parts stand. */
module Framing {
  import opened Wire
  import opened Utf8

  /** __guac_socket_write_length_string */
  function Item(s: string): string {
    Decimal(CharCount(s)) + "." + s
  }

  /** The first k elements, each with the separator that follows it. */
  function Prefix(list: seq<string>, k: nat): string
    requires k <= |list|
  {
    if k == 0 then "" else Prefix(list, k - 1) + Item(list[k - 1]) + (if k == |list| then ";" else ",")
  }

  function Printed(list: seq<string>): string {
    Prefix(list, |list|)
  }

  /** Where the length of element k starts. */
  function Start(list: seq<string>, k: nat): nat
    requires k <= |list|
  {
    |Prefix(list, k)|
  }

  function ContentStart(list: seq<string>, k: nat): nat
    requires k < |list|
  {
    Start(list, k) + |Decimal(CharCount(list[k]))| + 1
  }

  /** Where the separator after element k stands. */
  function ContentEnd(list: seq<string>, k: nat): nat
    requires k < |list|
  {
    ContentStart(list, k) + |list[k]|
  }

  lemma {:induction false} PrefixGrows(list: seq<string>, k: nat, m: nat)
    requires k <= m <= |list|
    ensures Prefix(list, k) <= Prefix(list, m)
    decreases m - k
  {
    if k < m {
      PrefixGrows(list, k, m - 1);
    }
  }

  /** In t, s is printed with its length at a, its content from c to e, and a separator behind it. */
  ghost predicate PieceAt(t: string, s: string, last: bool, a: nat, c: nat, e: nat) {
    && c == a + |Decimal(CharCount(s))| + 1 && e == c + |s| && e < |t|
    && (forall i :: 0 <= i < |Decimal(CharCount(s))| ==> t[a + i] == Decimal(CharCount(s))[i])
    && t[c - 1] == '.'
    && (forall i :: 0 <= i < |s| ==> t[c + i] == s[i])
    && t[e] == (if last then ';' else ',')
  }

  lemma PartsBehind(before: string, number: string, s: string, separator: char, t: string)
    requires before + (number + "." + s) + [separator] <= t
    ensures var a, c := |before|, |before| + |number| + 1;
      && c + |s| < |t|
      && (forall i :: 0 <= i < |number| ==> t[a + i] == number[i])
      && t[c - 1] == '.'
      && (forall i :: 0 <= i < |s| ==> t[c + i] == s[i])
      && t[c + |s|] == separator
  {
    var item := number + "." + s;
    var upTo := before + item + [separator];
    assert forall i :: 0 <= i < |item| ==> t[|before| + i] == upTo[|before| + i] == item[i];
    assert forall i :: 0 <= i < |number| ==> item[i] == number[i];
    assert item[|number|] == '.';
    assert forall i :: 0 <= i < |s| ==> item[|number| + 1 + i] == s[i];
    assert t[|before| + |item|] == upTo[|before| + |item|];
    forall i | 0 <= i < |s| ensures t[|before| + |number| + 1 + i] == s[i] {
      assert t[|before| + (|number| + 1 + i)] == item[|number| + 1 + i];
    }
  }

  lemma PieceBehind(before: string, s: string, last: bool, t: string)
    requires before + Item(s) + (if last then ";" else ",") <= t
    ensures var c := |before| + |Decimal(CharCount(s))| + 1; PieceAt(t, s, last, |before|, c, c + |s|)
  {
    PartsBehind(before, Decimal(CharCount(s)), s, if last then ';' else ',', t);
  }

  lemma PrefixStep(list: seq<string>, k: nat)
    requires k < |list|
    ensures Prefix(list, k) + Item(list[k]) + (if k == |list| - 1 then ";" else ",") <= Printed(list)
    ensures Start(list, k + 1) == ContentEnd(list, k) + 1
  {
    PrefixGrows(list, k + 1, |list|);
  }

  /** The parts of element k in the printed text. */
  lemma Layout(list: seq<string>, k: nat, t: string)
    requires k < |list| && t == Printed(list)
    ensures PieceAt(t, list[k], k == |list| - 1, Start(list, k), ContentStart(list, k), ContentEnd(list, k))
  {
    PrefixStep(list, k);
    PieceBehind(Prefix(list, k), list[k], k == |list| - 1, t);
  }

  lemma {:induction false} Ordered(list: seq<string>, j: nat, k: nat)
    requires j < k <= |list|
    ensures ContentEnd(list, j) < Start(list, k)
    decreases k - j
  {
    assert Start(list, j + 1) == ContentEnd(list, j) + 1;
    PrefixGrows(list, j + 1, k);
  }

  /** Reading more digits only makes a number larger. */
  lemma {:induction false} ValueGrows(s: string, k: nat)
    requires AllDigits(s) && k <= |s|
    ensures AllDigits(s[..k]) && Value(s[..k]) <= Value(s)
    decreases |s| - k
  {
    if k == |s| {
      assert s[..k] == s;
    } else {
      ValueGrows(s, k + 1);
      assert s[..k + 1][..k] == s[..k];
    }
  }

  /** The value of the first i digits of a printed number. */
  function ValueSoFar(n: nat, i: nat): nat
    requires i <= |Decimal(n)|
  {
    Value(Decimal(n)[..i])
  }

  lemma ValueSoFarSteps(n: nat, i: nat)
    requires i <= |Decimal(n)|
    ensures ValueSoFar(n, 0) == 0 && ValueSoFar(n, i) <= n
    ensures i < |Decimal(n)| ==> ValueSoFar(n, i + 1) == ValueSoFar(n, i) * 10 + DigitValue(Decimal(n)[i])
    ensures i == |Decimal(n)| ==> ValueSoFar(n, i) == n
  {
    var s := Decimal(n);
    DecimalValue(n);
    ValueGrows(s, i);
    if i < |s| {
      assert s[..i + 1][..i] == s[..i];
    } else {
      assert s[..i] == s;
    }
  }

  // ----- the same, as a table

  datatype Frame = Frame(list: seq<string>, text: string, start: seq<nat>, content: seq<nat>, end: seq<nat>)

  /** Whole, non-NUL characters, and not too many of them. */
  ghost predicate ReadableString(s: string, maxLength: nat) {
    Whole(s) && NoNul(s) && CharCount(s) <= maxLength
  }

  /** What the reader can handle. */
  ghost predicate Readable(list: seq<string>, maxLength: nat) {
    list != [] && forall k {:trigger ReadableString(list[k], maxLength)} :: 0 <= k < |list| ==>
      ReadableString(list[k], maxLength)
  }

  ghost predicate Piece(f: Frame, k: nat)
    requires |f.start| == |f.content| == |f.end| == |f.list| && k < |f.list|
  {
    PieceAt(f.text, f.list[k], k == |f.list| - 1, f.start[k], f.content[k], f.end[k])
  }

  ghost predicate Laid(f: Frame) {
    && |f.start| == |f.content| == |f.end| == |f.list| > 0
    && (forall k :: 0 <= k < |f.list| ==> f.start[k] < f.content[k] <= f.end[k] < |f.text|)
    && (forall k {:trigger Piece(f, k)} :: 0 <= k < |f.list| ==> Piece(f, k))
    && f.start[0] == 0 && f.end[|f.list| - 1] + 1 == |f.text|
    && (forall j, k :: 0 <= j < k < |f.list| && k == j + 1 ==> f.start[k] == f.end[j] + 1)
    && (forall j, k :: 0 <= j < k < |f.list| ==> f.end[j] < f.start[k])
  }

  ghost function FrameOf(list: seq<string>): (f: Frame)
    requires list != []
    ensures f.list == list && f.text == Printed(list)
    ensures |f.start| == |f.content| == |f.end| == |list|
    ensures forall k :: 0 <= k < |list| ==>
      f.start[k] == Start(list, k) && f.content[k] == ContentStart(list, k) && f.end[k] == ContentEnd(list, k)
  {
    Frame(list, Printed(list),
          seq(|list|, k requires 0 <= k < |list| => Start(list, k)),
          seq(|list|, k requires 0 <= k < |list| => ContentStart(list, k)),
          seq(|list|, k requires 0 <= k < |list| => ContentEnd(list, k)))
  }

  lemma PieceOf(list: seq<string>, k: nat)
    requires k < |list|
    ensures Piece(FrameOf(list), k) && FrameOf(list).end[k] + 1 == Start(list, k + 1)
    ensures var f := FrameOf(list); f.start[k] < f.content[k] <= f.end[k] < |f.text|
  {
    Layout(list, k, FrameOf(list).text);
    PrefixStep(list, k);
  }

  lemma FrameEnds(list: seq<string>, f: Frame)
    requires list != [] && f == FrameOf(list)
    ensures f.start[0] == 0 && f.end[|list| - 1] + 1 == |f.text|
  {
    PieceOf(list, |list| - 1);
  }

  lemma FramePieces(list: seq<string>, f: Frame)
    requires list != [] && f == FrameOf(list)
    ensures forall k :: 0 <= k < |list| ==> Piece(f, k)
    ensures forall k :: 0 <= k < |list| ==> f.start[k] < f.content[k] <= f.end[k] < |f.text|
  {
    forall k | 0 <= k < |list| ensures Piece(f, k) && f.start[k] < f.content[k] <= f.end[k] < |f.text| {
      PieceOf(list, k);
    }
  }

  lemma FrameSteps(list: seq<string>, f: Frame)
    requires list != [] && f == FrameOf(list)
    ensures forall j, k :: 0 <= j < k < |list| && k == j + 1 ==> f.start[k] == f.end[j] + 1
  {
    forall j, k | 0 <= j < k < |list| && k == j + 1 ensures f.start[k] == f.end[j] + 1 {
      PieceOf(list, j);
    }
  }

  lemma FrameOrdered(list: seq<string>, f: Frame)
    requires list != [] && f == FrameOf(list)
    ensures forall j, k :: 0 <= j < k < |list| ==> f.end[j] < f.start[k]
  {
    forall j, k | 0 <= j < k < |list| ensures f.end[j] < f.start[k] {
      Ordered(list, j, k);
    }
  }

  lemma FrameIsLaid(list: seq<string>)
    requires list != []
    ensures Laid(FrameOf(list))
  {
    var f := FrameOf(list);
    FrameEnds(list, f);
    FramePieces(list, f);
    FrameSteps(list, f);
    FrameOrdered(list, f);
  }
}
