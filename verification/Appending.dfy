/** guac_parser_append of parser.cpp, and where it stands in the printed form of a list. */
module Appending {
  import opened Numbers
  import opened Wire
  import opened Utf8
  import opened Framing

  const MAX_LENGTH := 8192
  const MAX_ELEMENTS := 64

  datatype ParseState = LENGTH | CONTENT | COMPLETE | ERROR

  // ----- where a parser stands in the printed form of a list

  ghost predicate Wanted(f: Frame) {
    Laid(f) && Readable(f.list, MAX_LENGTH) && |f.list| <= MAX_ELEMENTS
  }

  lemma WantedExists()
    ensures Wanted(FrameOf([""]))
  {
    FrameIsLaid([""]);
    assert FrameOf([""]).list == [""];
    assert CharCount("") == 0 && Whole("") && NoNul("");
  }

  /** The printed form of a list the parser accepts, with its layout. */
  type Text = f: Frame | Wanted(f) ghost witness (WantedExists(); FrameOf([""]))

  /** Of the length of s, which starts at a, the digits before p have been read. */
  ghost predicate InLength(s: string, a: nat, p: nat, length: int) {
    && a <= p && p - a <= |Decimal(CharCount(s))|
    && length == ValueSoFar(CharCount(s), p - a)
  }

  /** Of the content s, which starts at c, what is left from p on is `length` whole characters. */
  ghost predicate InContent(s: string, c: nat, p: nat, length: int) {
    c <= p && p - c <= |s| && length >= 0 && length == WholeCount(s, p - c)
  }

  lemma DigitStep(t: string, s: string, last: bool, a: nat, c: nat, e: nat, p: nat, length: int)
    requires PieceAt(t, s, last, a, c, e) && InLength(s, a, p, length)
    ensures p < c && 0 <= length <= CharCount(s)
    ensures p < c - 1 ==> IsDigit(t[p]) && InLength(s, a, p + 1, length * 10 + DigitValue(t[p]))
    ensures p == c - 1 ==> t[p] == '.' && length == CharCount(s)
  {
    var n, i := CharCount(s), p - a;
    ValueSoFarSteps(n, i);
    if i < |Decimal(n)| {
      assert t[a + i] == Decimal(n)[i];
    }
  }

  lemma CharacterStep(t: string, s: string, last: bool, a: nat, c: nat, e: nat, p: nat, length: int)
    requires PieceAt(t, s, last, a, c, e) && InContent(s, c, p, length)
    ensures p <= e && length >= 0
    ensures length > 0 ==> p + CharSize(t[p]) <= e && InContent(s, c, p + CharSize(t[p]), length - 1)
    ensures length == 0 ==> p == e
  {
    if length > 0 {
      assert t[c + (p - c)] == s[p - c];
    }
  }

  /** After exactly the first p characters the parser is in this state, with this length left and this many elements. */
  ghost predicate Position(f: Text, p: nat, state: ParseState, length: int, count: nat)
  {
    match state
    case LENGTH => count < |f.list| && InLength(f.list[count], f.start[count], p, length)
    case CONTENT => 0 < count <= |f.list| && InContent(f.list[count - 1], f.content[count - 1], p, length)
    case COMPLETE => count == |f.list| && p == |f.text|
    case ERROR => false
  }

  /** Behind a separator the next length begins, or the instruction is complete. */
  lemma BehindSeparator(f: Text, k: nat)
    requires k < |f.list|
    ensures Position(f, f.end[k] + 1, if k == |f.list| - 1 then COMPLETE else LENGTH, 0, k + 1)
  {
    if k < |f.list| - 1 {
      ValueSoFarSteps(CharCount(f.list[k + 1]), 0);
      assert f.start[k + 1] == f.end[k] + 1;
    }
  }

  // ----- what one call of guac_parser_append does with the data it is given

  datatype End = Starved | Period | Comma | Semicolon | Invalid

  /** How far a scan got, the length it holds then, and why it stopped. */
  datatype Scan = Scan(parsed: nat, length: int, end: End)

  /** The length is a 32-bit int, and wraps around. */
  function ScanLength(data: string, i: nat, length: int): (r: Scan)
    requires i <= |data|
    ensures i <= r.parsed <= |data| && (r.end == Starved ==> r.parsed == |data|) && (r.end == Period ==> i < r.parsed)
    ensures r.end in {Starved, Period, Invalid}
    decreases |data| - i
  {
    if i == |data| then Scan(i, length, Starved)
    else if IsDigit(data[i]) then ScanLength(data, i + 1, Wrap32(length * 10 + DigitValue(data[i])))
    else if data[i] == '.' then Scan(i + 1, length, Period)
    else Scan(i, length, Invalid)
  }

  function ScanContent(data: string, i: nat, length: int): (r: Scan)
    requires i <= |data|
    ensures i <= r.parsed <= |data| && (r.end in {Comma, Semicolon} ==> i < r.parsed) &&
      (r.end == Invalid ==> r.parsed < |data|)
    ensures r.end != Period
    decreases |data| - i
  {
    if i == |data| || length < 0 || i + CharSize(data[i]) > |data| then Scan(i, length, Starved)
    else if length == 0 then
      if data[i] == ';' then Scan(i + 1, 0, Semicolon)
      else if data[i] == ',' then Scan(i + 1, 0, Comma)
      else Scan(i, 0, Invalid)
    else ScanContent(data, i + CharSize(data[i]), length - 1)
  }

  /** Data that arrives at position p of a text, possibly with the start of what comes after it. */
  ghost predicate Arrives(t: string, p: nat, data: string) {
    forall i :: 0 <= i < |data| && p + i < |t| ==> data[i] == t[p + i]
  }

  /** One turn of the scan of a length. */
  lemma ScanLengthStep(t: string, s: string, last: bool, a: nat, c: nat, e: nat, p: nat, data: string, i: nat,
    length: int)
    requires PieceAt(t, s, last, a, c, e) && InLength(s, a, p + i, length) && CharCount(s) <= MAX_LENGTH
    requires i < |data| && Arrives(t, p, data)
    ensures p + i == c - 1 ==> length == CharCount(s) && ScanLength(data, i, length) == Scan(i + 1, length, Period)
    ensures p + i != c - 1 ==> IsDigit(data[i]) && var longer := length * 10 + DigitValue(data[i]);
      InLength(s, a, p + (i + 1), longer) && ScanLength(data, i, length) == ScanLength(data, i + 1, longer)
  {
    DigitStep(t, s, last, a, c, e, p + i, length);
    assert data[i] == t[p + i];
    if p + i < c - 1 {
      assert p + i + 1 == p + (i + 1);
      DigitStep(t, s, last, a, c, e, p + (i + 1), length * 10 + DigitValue(data[i]));
    }
  }

  /** Scanning a length stays in step with the text. */
  lemma {:induction false} ScanLengthOf(t: string, s: string, last: bool, a: nat, c: nat, e: nat,
                                        p: nat, data: string, i: nat, length: int, r: Scan)
    requires PieceAt(t, s, last, a, c, e) && InLength(s, a, p + i, length) && CharCount(s) <= MAX_LENGTH
    requires i <= |data| && Arrives(t, p, data) && r == ScanLength(data, i, length)
    ensures r.length <= CharCount(s) && (r.end == Starved || r.end == Period)
    ensures r.end == Starved ==> InLength(s, a, p + |data|, r.length)
    ensures r.end == Period ==> r.length == CharCount(s) && p + r.parsed == c
    decreases |data| - i
  {
    if i == |data| {
      DigitStep(t, s, last, a, c, e, p + i, length);
    } else {
      ScanLengthStep(t, s, last, a, c, e, p, data, i, length);
      if p + i != c - 1 {
        ScanLengthOf(t, s, last, a, c, e, p, data, i + 1, length * 10 + DigitValue(data[i]), r);
      }
    }
  }

  /** One turn of the scan of content. */
  lemma ScanContentStep(t: string, s: string, last: bool, a: nat, c: nat, e: nat, p: nat, data: string, i: nat,
    length: int)
    requires PieceAt(t, s, last, a, c, e) && InContent(s, c, p + i, length)
    requires i <= |data| && Arrives(t, p, data)
    ensures p + i <= e && length >= 0
    ensures i < |data| && length == 0 ==>
      p + i == e && ScanContent(data, i, length) == Scan(i + 1, 0, if last then Semicolon else Comma)
    ensures i < |data| && length > 0 ==> var next := i + CharSize(data[i]);
      && p + next <= e && InContent(s, c, p + next, length - 1)
      && ScanContent(data, i, length) == if next > |data| then Scan(i, length, Starved)
        else ScanContent(data, next, length - 1)
  {
    CharacterStep(t, s, last, a, c, e, p + i, length);
    if i < |data| {
      assert data[i] == t[p + i];
      if length > 0 {
        assert p + i + CharSize(data[i]) == p + (i + CharSize(data[i]));
      }
    }
  }

  /** Scanning content stays in step with the text, and stops short only if less than the element arrived. */
  lemma {:induction false} ScanContentOf(t: string, s: string, last: bool, a: nat, c: nat, e: nat,
                                         p: nat, data: string, i: nat, length: int, r: Scan)
    requires PieceAt(t, s, last, a, c, e) && InContent(s, c, p + i, length)
    requires i <= |data| && Arrives(t, p, data) && r == ScanContent(data, i, length)
    ensures r.end == Starved || r.end == if last then Semicolon else Comma
    ensures r.end == Starved ==> InContent(s, c, p + r.parsed, r.length) && p + |data| <= e
    ensures r.end != Starved ==> r.length == 0 && p + r.parsed == e + 1
    decreases |data| - i
  {
    ScanContentStep(t, s, last, a, c, e, p, data, i, length);
    if i < |data| && length > 0 && i + CharSize(data[i]) <= |data| {
      ScanContentOf(t, s, last, a, c, e, p, data, i + CharSize(data[i]), length - 1, r);
    }
  }

  /** The fields of a parser that decide what it does next. */
  datatype Config = Config(state: ParseState, length: int, count: nat)

  /**
   * A new configuration, the bytes taken, where an element began, and where a NUL was written, as offsets into the
   * data.
   */
  datatype Step = Step(config: Config, parsed: nat, element: Option<nat>, nul: Option<nat>)

  function ContentSpec(c: Config, data: string, i: nat, element: Option<nat>): (s: Step)
    requires i <= |data|
    ensures s.parsed <= |data| && (s.nul.Some? ==> s.nul.value < |data|) && s.config.count == c.count &&
      s.element == element
  {
    var r := ScanContent(data, i, c.length);
    if r.end == Starved then Step(c.(length := r.length), r.parsed, element, None)
    else if r.end == Semicolon then Step(Config(COMPLETE, 0, c.count), r.parsed, element, Some(r.parsed - 1))
    else if r.end == Comma then Step(Config(LENGTH, 0, c.count), r.parsed, element, Some(r.parsed - 1))
    else Step(Config(ERROR, 0, c.count), 0, element, Some(r.parsed))
  }

  /** guac_parser_append, once the digits at the front of the data have been scanned. */
  function AppendScanned(c: Config, data: string, r: Scan): (s: Step)
    requires r.parsed <= |data|
    ensures s.parsed <= |data| && (s.nul.Some? ==> s.nul.value < |data|)
    ensures s.config.count == c.count + (if s.element.Some? then 1 else 0)
    ensures s.element.Some? ==> c.count != MAX_ELEMENTS
  {
    if c.count == MAX_ELEMENTS && c.state != COMPLETE then Step(c.(state := ERROR), 0, None, None)
    else if c.state == LENGTH then
      if r.end == Invalid then Step(c.(state := ERROR), 0, None, None)
      else
        var found := r.end == Period;
        var element := if found then Some(r.parsed) else None;
        var count := if found then c.count + 1 else c.count;
        if r.length > MAX_LENGTH then Step(Config(ERROR, c.length, count), 0, element, None)
        else if !found then Step(Config(LENGTH, r.length, count), r.parsed, element, None)
        else ContentSpec(Config(CONTENT, r.length, count), data, r.parsed, element)
    else if c.state == CONTENT then ContentSpec(c, data, 0, None)
    else Step(c, 0, None, None)
  }

  /** guac_parser_append as a function. */
  function AppendSpec(c: Config, data: string): (s: Step)
    ensures s.parsed <= |data| && (s.nul.Some? ==> s.nul.value < |data|)
    ensures s.config.count == c.count + (if s.element.Some? then 1 else 0)
    ensures s.element.Some? ==> c.count != MAX_ELEMENTS
  {
    AppendScanned(c, data, ScanLength(data, 0, c.length))
  }

  ghost predicate At(f: Text, p: nat, c: Config)
  {
    Position(f, p, c.state, c.length, c.count)
  }

  /** A step through content, from the i-th byte of the data on. */
  lemma ContentStays(f: Text, p: nat, c: Config, data: string, i: nat, element: Option<nat>, s: Step)
    requires c.state == CONTENT && i <= |data| && At(f, p + i, c) && Arrives(f.text, p, data)
    requires s == ContentSpec(c, data, i, element)
    ensures At(f, p + s.parsed, s.config)
    ensures s.nul.None? ==> s.config.state == CONTENT && p + |data| < |f.text|
    ensures s.nul.Some? ==> p + s.nul.value == f.end[c.count - 1] && s.parsed == s.nul.value + 1
    ensures s.parsed >= i
  {
    var k := c.count - 1;
    assert Piece(f, k);
    var r := ScanContent(data, i, c.length);
    ScanContentOf(f.text, f.list[k], k == |f.list| - 1, f.start[k], f.content[k], f.end[k], p, data, i, c.length, r);
    if r.end != Starved {
      BehindSeparator(f, k);
      assert p + r.parsed == f.end[k] + 1;
    }
  }

  /** What append promises of a step from position p of the printed text. */
  ghost predicate Stays(f: Text, p: nat, c: Config, data: string, s: Step)
  {
    && At(f, p + s.parsed, s.config)
    && (s.element.Some? ==> c.count < |f.list| && p + s.element.value == f.content[c.count])
    && (s.nul.Some? ==>
         0 < s.config.count <= |f.list| && p + s.nul.value == f.end[s.config.count - 1] && s.parsed == s.nul.value + 1)
    && (s.nul.None? ==> s.config.state in {LENGTH, CONTENT} || s.config == c)
    && (c.state != COMPLETE && p + |data| >= |f.text| ==> s.parsed > 0)
  }

  lemma ContentBegins(f: Text, k: nat)
    requires k < |f.list|
    ensures Position(f, f.content[k], CONTENT, CharCount(f.list[k]), k + 1) && CharCount(f.list[k]) <= MAX_LENGTH
  {
    assert ReadableString(f.list[k], MAX_LENGTH);
    assert f.list[k][0..] == f.list[k];
    WholeCountIsCharCount(f.list[k], 0);
  }

  lemma LengthEnds(f: Text, p: nat, c: Config, data: string, r: Scan)
    requires c.state == LENGTH && At(f, p, c) && Arrives(f.text, p, data) && r == ScanLength(data, 0, c.length)
    ensures r.length <= MAX_LENGTH && (r.end == Starved || r.end == Period) && p < |f.text|
    ensures r.end == Starved ==> Position(f, p + |data|, LENGTH, r.length, c.count)
    ensures r.end == Period ==>
      p + r.parsed == f.content[c.count] && Position(f, p + r.parsed, CONTENT, r.length, c.count + 1)
  {
    var k := c.count;
    assert Piece(f, k);
    ContentBegins(f, k);
    ScanLengthOf(f.text, f.list[k], k == |f.list| - 1, f.start[k], f.content[k], f.end[k], p, data, 0, c.length, r);
    DigitStep(f.text, f.list[k], k == |f.list| - 1, f.start[k], f.content[k], f.end[k], p, c.length);
  }

  lemma PositionInText(f: Text, p: nat, length: int, count: nat)
    requires Position(f, p, LENGTH, length, count)
    ensures p < |f.text|
  {
    assert Piece(f, count);
  }

  /** A step that reads the rest of a length and goes on into the content. */
  lemma ThroughContent(f: Text, p: nat, c: Config, data: string, i: nat, s: Step)
    requires c.state == LENGTH && c.count < |f.list| && 0 < i <= s.parsed && p + i == f.content[c.count]
    requires At(f, p + s.parsed, s.config) && s.element == Some(i) && s.config.count == c.count + 1
    requires s.nul.None? ==> s.config.state == CONTENT
    requires s.nul.Some? ==> p + s.nul.value == f.end[c.count] && s.parsed == s.nul.value + 1
    ensures Stays(f, p, c, data, s)
  {}

  lemma PeriodStays(f: Text, p: nat, c: Config, data: string, r: Scan, s: Step)
    requires c.state == LENGTH && c.count < |f.list| && Arrives(f.text, p, data)
    requires 0 < r.parsed <= |data| && r.end == Period && p + r.parsed == f.content[c.count]
    requires Position(f, p + r.parsed, CONTENT, r.length, c.count + 1)
    requires s == ContentSpec(Config(CONTENT, r.length, c.count + 1), data, r.parsed, Some(r.parsed))
    ensures Stays(f, p, c, data, s)
  {
    ContentStays(f, p, Config(CONTENT, r.length, c.count + 1), data, r.parsed, Some(r.parsed), s);
    ThroughContent(f, p, c, data, r.parsed, s);
  }

  lemma StarvedStays(f: Text, p: nat, c: Config, data: string, length: int, s: Step)
    requires c.state == LENGTH && Position(f, p + |data|, LENGTH, length, c.count)
    requires s == Step(Config(LENGTH, length, c.count), |data|, None, None)
    ensures Stays(f, p, c, data, s)
  {
    PositionInText(f, p + |data|, length, c.count);
  }

  /** Append, in a length. */
  lemma LengthSpec(c: Config, data: string, r: Scan, s: Step)
    requires c.state == LENGTH && c.count != MAX_ELEMENTS && s == AppendSpec(c, data)
    requires r == ScanLength(data, 0, c.length) && r.length <= MAX_LENGTH && r.end in {Starved, Period}
    ensures s == if r.end == Period then ContentSpec(Config(CONTENT, r.length, c.count + 1), data, r.parsed,
      Some(r.parsed))
                 else Step(Config(LENGTH, r.length, c.count), |data|, None, None)
  {}

  lemma LengthStays(f: Text, p: nat, c: Config, data: string, s: Step)
    requires c.state == LENGTH && At(f, p, c) && Arrives(f.text, p, data) && s == AppendSpec(c, data)
    ensures Stays(f, p, c, data, s)
  {
    var r := ScanLength(data, 0, c.length);
    LengthEnds(f, p, c, data, r);
    LengthSpec(c, data, r, s);
    if r.end == Period {
      PeriodStays(f, p, c, data, r, s);
    } else {
      StarvedStays(f, p, c, data, r.length, s);
    }
  }

  /** Whatever part of the printed text arrives, append moves on in it; with all of it there, append makes progress. */
  lemma AppendStays(f: Text, p: nat, c: Config, data: string)
    requires At(f, p, c) && Arrives(f.text, p, data) && (c.state == CONTENT ==> c.count < MAX_ELEMENTS)
    ensures Stays(f, p, c, data, AppendSpec(c, data))
  {
    if c.state == LENGTH {
      LengthStays(f, p, c, data, AppendSpec(c, data));
    } else if c.state == CONTENT {
      ContentStays(f, p, c, data, 0, None, AppendSpec(c, data));
    }
  }

  // ----- the length is an int

  function ScanExact(data: string, i: nat, length: int): (r: Scan)
    requires i <= |data|
    ensures i <= r.parsed <= |data|
    decreases |data| - i
  {
    if i == |data| then Scan(i, length, Starved)
    else if IsDigit(data[i]) then ScanExact(data, i + 1, length * 10 + DigitValue(data[i]))
    else if data[i] == '.' then Scan(i + 1, length, Period)
    else Scan(i, length, Invalid)
  }

  /** Append with a length of unbounded size. */
  function AppendExact(c: Config, data: string): Step {
    AppendScanned(c, data, ScanExact(data, 0, c.length))
  }

  /** The length scanned is the exact one modulo 2^32, also when the digits come in several pieces. */
  lemma {:induction false} ScanWraps(data: string, i: nat, length: int)
    requires i <= |data|
    ensures var r := ScanExact(data, i, length); ScanLength(data, i, Wrap32(length)) == r.(length := Wrap32(r.length))
    decreases |data| - i
  {
    if i < |data| && IsDigit(data[i]) {
      WrapDigit(length, DigitValue(data[i]));
      ScanWraps(data, i + 1, length * 10 + DigitValue(data[i]));
    }
  }

  /** Characters are counted down to zero, not below. */
  lemma {:induction false} CountsDown(data: string, i: nat, length: int)
    requires i <= |data|
    ensures var r := ScanContent(data, i, length); if length < 0 then r == Scan(i, length, Starved) else r.length >= 0
    decreases |data| - i
  {
    if i < |data| && length > 0 && i + CharSize(data[i]) <= |data| {
      CountsDown(data, i + CharSize(data[i]), length - 1);
    }
  }

  /** A length is refused or taken as if it were exact, unless it wraps to one that is taken. */
  lemma AgreesWithExact(c: Config, data: string)
    requires Wrap32(c.length) == c.length && c.state == LENGTH && c.count != MAX_ELEMENTS
    ensures var r := ScanExact(data, 0, c.length);
      AppendSpec(c, data) == AppendExact(c, data) <==>
        r.end == Invalid || Wrap32(r.length) == r.length || (r.length > MAX_LENGTH && Wrap32(r.length) > MAX_LENGTH)
  {
    var r := ScanExact(data, 0, c.length);
    ScanWraps(data, 0, c.length);
    CountsDown(data, r.parsed, r.length);
    CountsDown(data, r.parsed, Wrap32(r.length));
  }

  lemma {:induction false} NumberScans(n: nat, data: string, i: nat)
    requires i <= |Decimal(n)| && data == Decimal(n) + "."
    ensures ScanExact(data, i, ValueSoFar(n, i)) == Scan(|data|, n, Period)
    decreases |data| - i
  {
    ValueSoFarSteps(n, i);
    if i < |Decimal(n)| {
      assert data[i] == Decimal(n)[i];
      NumberScans(n, data, i + 1);
    }
  }

  /** A printed length that arrives in one piece is taken modulo 2^32, where its documented meaning is n itself. */
  lemma PrintedLength(n: nat, data: string)
    requires data == Decimal(n) + "."
    ensures AppendSpec(Config(LENGTH, 0, 0), data).config ==
            if Wrap32(n) > MAX_LENGTH then Config(ERROR, 0, 1) else Config(CONTENT, Wrap32(n), 1)
    ensures AppendExact(Config(LENGTH, 0, 0), data).config == if n > MAX_LENGTH then Config(ERROR, 0, 1)
      else Config(CONTENT, n, 1)
  {
    ValueSoFarSteps(n, 0);
    NumberScans(n, data, 0);
    ScanWraps(data, 0, 0);
  }

  lemma OneDigit(data: string, i: nat, length: int, longer: int)
    requires i < |data| && IsDigit(data[i]) && longer == length * 10 + DigitValue(data[i])
    ensures ScanExact(data, i, length) == ScanExact(data, i + 1, longer)
  {}

  lemma FirstDigits(data: string)
    requires "42949" <= data
    ensures ScanExact(data, 0, 0) == ScanExact(data, 5, 42949)
  {
    OneDigit(data, 0, 0, 4);
    OneDigit(data, 1, 4, 42);
    OneDigit(data, 2, 42, 429);
    OneDigit(data, 3, 429, 4294);
    OneDigit(data, 4, 4294, 42949);
  }

  lemma LastDigits(data: string)
    requires |data| == 11 && data[5..] == "67301."
    ensures ScanExact(data, 5, 42949) == Scan(11, 4294967301, Period)
  {
    assert forall i :: 5 <= i < 11 ==> data[i] == data[5..][i - 5];
    OneDigit(data, 5, 42949, 429496);
    OneDigit(data, 6, 429496, 4294967);
    OneDigit(data, 7, 4294967, 42949673);
    OneDigit(data, 8, 42949673, 429496730);
    OneDigit(data, 9, 429496730, 4294967301);
  }

  /** A length that wraps to 5. */
  lemma WrappedLength(data: string)
    requires data == "4294967301."
    ensures AppendSpec(Config(LENGTH, 0, 0), data).config == Config(CONTENT, 5, 1)
    ensures AppendExact(Config(LENGTH, 0, 0), data).config.state == ERROR
  {
    FirstDigits(data);
    LastDigits(data);
    ScanWraps(data, 0, 0);
  }

  // ----- lists of as many elements as there is room for

  /**
   * The last of 64 elements is accepted only if everything from its period to the semicolon is in the data of one
   * call: otherwise that call leaves the parser with 64 elements and no end, which the next one refuses.
   */
  lemma LastOfMany(f: Text, p: nat, c: Config, data: string)
    requires |f.list| == MAX_ELEMENTS && c.state == LENGTH && c.count == MAX_ELEMENTS - 1
    requires At(f, p, c) && Arrives(f.text, p, data)
    ensures var s, at := AppendSpec(c, data), p + |data|;
      && (s.config.state == COMPLETE <==> at >= |f.text|)
      && (at < f.content[c.count] ==> s.parsed == |data| && s.config.state == LENGTH && At(f, at, s.config))
      && (f.content[c.count] <= at < |f.text| ==>
           s.config.state == CONTENT && forall more :: AppendSpec(s.config, more).config.state == ERROR)
  {
    var r, s := ScanLength(data, 0, c.length), AppendSpec(c, data);
    LengthEnds(f, p, c, data, r);
    LengthSpec(c, data, r, s);
    if r.end == Period {
      ContentStays(f, p, Config(CONTENT, r.length, c.count + 1), data, r.parsed, Some(r.parsed), s);
    } else {
      assert Piece(f, c.count);
    }
  }
}
