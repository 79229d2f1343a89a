/** What another call of guac_parser_read makes of an instruction that a time-out has interrupted. */
module Resumption {
  import opened Wire
  import opened Utf8
  import opened Framing
  import opened Appending
  import opened Reading
  import opened ReadingInStep

  /** Between two calls: g characters of the text are consumed, and the rest is in the buffer or to come. */
  ghost predicate Expects(t: Target, m: Reader) {
    && Sane(m) && m.instr == m.start
    && |t.f.list| < MAX_ELEMENTS && |t.f.text| <= BUFFER_SIZE + t.g && t.g <= |t.f.text|
    && At(t.f, t.g, Ready(m).config) && t.b == Ready(m).config.count
    && Data(m) + m.incoming == (t.f.text + t.after)[t.g..]
  }

  /** The list was read, as far as its elements from b on are concerned. */
  ghost predicate Delivered(t: Target, b: nat, r: (Reader, Outcome)) {
    && r.1 == Done && Sane(r.0) && r.0.config.state == COMPLETE && r.0.config.count == |t.f.list|
    && Data(r.0) + r.0.incoming == t.after
    && forall k :: b <= k < |t.f.list| ==> r.0.elements[k] >= 0 && CString(r.0.mem, r.0.elements[k]) == t.f.list[k]
  }

  /** A parser between two instructions, when the next one is printed in the buffer and the stream. */
  lemma ExpectsPrinted(list: seq<string>, after: string, m: Reader)
    requires Readable(list, MAX_LENGTH) && |list| < MAX_ELEMENTS && |Printed(list)| <= BUFFER_SIZE
    requires Sane(m) && m.instr == m.start && Ready(m).config == Config(LENGTH, 0, 0)
    requires Data(m) + m.incoming == Printed(list) + after
    ensures Laid(FrameOf(list)) && Expects(Target(FrameOf(list), after, 0, 0), m)
  {
    FrameIsLaid(list);
    ValueSoFarSteps(CharCount(list[0]), 0);
    assert (Printed(list) + after)[0..] == Printed(list) + after;
  }

  lemma StartsInStep(t: Target, m: Reader)
    requires Expects(t, m)
    ensures InStep(t, Ready(m))
  {
    PositionBounded(t.f, t.g, Ready(m).config);
    PositionBehind(t.f, t.g, Ready(m).config);
  }

  lemma CompletesInStep(t: Target, m: Reader, m': Reader)
    requires InStep(t, m) && m.config.state == COMPLETE && m' == m.(instr := m.start)
    ensures Delivered(t, t.b, (m', Done))
  {
    forall k | t.b <= k < |t.f.list| ensures m.elements[k] >= 0 && CString(m.mem, m.elements[k]) == t.f.list[k] {
      CompleteInStep(t, m, k);
    }
    assert (t.f.text + t.after)[|t.f.text|..] == t.after;
  }

  /** However the bytes arrive, the instruction is read, unless a read times out. */
  lemma ReadDelivers(t: Target, m: Reader)
    requires Expects(t, m)
    ensures Delivered(t, t.b, ReadSpec(m)) || (ReadSpec(m).1 == TimedOut && 0 in m.sizes)
  {
    StartsInStep(t, m);
    var r := Loop(Ready(m));
    RunsInStep(t, Ready(m), r);
    if r.1 == Done {
      CompletesInStep(t, r.0, ReadSpec(m).0);
    }
  }

  /**
   * A time-out leaves the bounds of the unparsed bytes as they were, but the parser at the position p it had reached,
   * and the stream at the position q from which nothing was received: only part of a character is between them.
   */
  lemma TimeOutLeaves(t: Target, m: Reader, m': Reader) returns (p: nat, q: nat)
    requires Expects(t, m) && ReadSpec(m) == (m', TimedOut)
    ensures m'.start == m.start && m'.end == m.end
    ensures At(t.f, p, m'.config) && t.g <= p <= q < p + 4 && (m'.config.state == LENGTH ==> q == p)
    ensures m'.config.state == LENGTH || m'.config.state == CONTENT
    ensures t.g + (m.end - m.start) <= q <= |t.f.text + t.after| && m'.incoming == (t.f.text + t.after)[q..]
  {
    StartsInStep(t, m);
    var r := Loop(Ready(m));
    RunsInStep(t, Ready(m), r);
    p := Reached(t, r.0);
    q := p + (r.0.end - r.0.start);
    ToCome(t.f.text + t.after, p, Data(r.0), r.0.incoming, q);
    LoopTakes(Ready(m));
  }

  lemma ToCome(whole: string, p: nat, data: string, incoming: string, q: nat)
    requires p <= |whole| && data + incoming == whole[p..] && q == p + |data|
    ensures q <= |whole| && incoming == whole[q..]
  {
    assert |data + incoming| == |whole| - p;
    assert incoming == (data + incoming)[|data|..];
    assert whole[p..][|data|..] == whole[q..];
  }

  lemma {:induction false} LoopTakes(m: Reader)
    requires Sane(m)
    ensures Loop(m).0.end - Loop(m).0.instr >= m.end - m.instr
    decreases Measure(m)
  {
    if m.config.state != COMPLETE && m.config.state != ERROR && Turn(m).1.None? {
      LoopTakes(Turn(m).0);
    }
  }

  /** With nothing unread in the buffer before, and nothing lost of what was received, the parser can go on. */
  lemma GoesOn(t: Target, m: Reader, m': Reader, p: nat)
    requires Expects(t, m) && ReadSpec(m) == (m', TimedOut) && m.start == m.end
    requires t.g <= p <= |t.f.text| && At(t.f, p, m'.config) && m'.incoming == (t.f.text + t.after)[p..]
    requires m'.start == m.start && m'.end == m.end && m'.config.state != COMPLETE
    ensures Expects(t.(g := p, b := m'.config.count), m')
  {
    assert Data(m') == "";
  }

  /** Then the next call completes the instruction; only the elements found before the time-out can be wrong. */
  lemma NextCallCompletes(t: Target, m: Reader, m': Reader, p: nat)
    requires Expects(t, m) && ReadSpec(m) == (m', TimedOut) && m.start == m.end && 0 !in m'.sizes
    requires t.g <= p <= |t.f.text| && At(t.f, p, m'.config) && m'.incoming == (t.f.text + t.after)[p..]
    ensures Delivered(t, m'.config.count, ReadSpec(m'))
  {
    var p', q' := TimeOutLeaves(t, m, m');
    GoesOn(t, m, m', p);
    ReadDelivers(t.(g := p, b := m'.config.count), m');
  }

  // ----- elements found before a time-out

  lemma {:induction false} CStringSame(mem: string, mem': string, at: nat)
    requires |mem'| == |mem| && forall j :: at <= j < |mem| ==> mem'[j] == mem[j]
    ensures CString(mem', at) == CString(mem, at)
    decreases |mem| - at
  {
    if at < |mem| && mem[at] != NUL {
      CStringSame(mem, mem', at + 1);
    }
  }

  /** Nothing behind this position is changed, nor any element found before. */
  ghost predicate Untouched(m: Reader, m': Reader, hi: nat) {
    && |m'.mem| == |m.mem| && |m'.elements| == |m.elements| && m.config.count <= m'.config.count
    && (forall j :: hi <= j < |m.mem| ==> m'.mem[j] == m.mem[j])
    && (forall k :: 0 <= k < m.config.count && k < |m.elements| ==> m'.elements[k] == m.elements[k])
  }

  lemma TakenUntouched(m: Reader, taken: Reader)
    requires Sane(m) && taken == Taken(m)
    ensures Sane(taken) && taken.end == m.end && taken.instr == m.instr && Untouched(m, taken, m.end)
  {}

  lemma MoreUntouched(m: Reader, more: (Reader, Option<Outcome>))
    requires Sane(m) && more == More(m) && more.0.instr == m.instr
    ensures m.end <= more.0.end && Untouched(m, more.0, more.0.end)
  {}

  /** A turn that does not move the instruction changes memory up to its end only. */
  lemma TurnUntouched(m: Reader, turn: (Reader, Option<Outcome>))
    requires Sane(m) && turn == Turn(m) && turn.0.instr == m.instr
    ensures m.end <= turn.0.end && Untouched(m, turn.0, turn.0.end)
  {
    var taken := Taken(m);
    TakenUntouched(m, taken);
    if taken.start == m.start {
      MoreUntouched(taken, turn);
    }
  }

  lemma TurnMoves(m: Reader, turn: (Reader, Option<Outcome>))
    requires Sane(m) && turn == Turn(m)
    ensures turn.0.instr == m.instr || turn.0.instr == 0
  {}

  lemma {:induction false} LoopMoves(m: Reader)
    requires Sane(m)
    ensures Loop(m).0.instr == m.instr || Loop(m).0.instr == 0
    decreases Measure(m)
  {
    if m.config.state != COMPLETE && m.config.state != ERROR {
      TurnMoves(m, Turn(m));
      if Turn(m).1.None? { LoopMoves(Turn(m).0); }
    }
  }

  lemma {:induction false} LoopUntouched(m: Reader, r: (Reader, Outcome))
    requires Sane(m) && r == Loop(m) && r.0.instr == m.instr
    ensures m.end <= r.0.end && Untouched(m, r.0, r.0.end)
    decreases Measure(m)
  {
    if m.config.state != COMPLETE && m.config.state != ERROR {
      var turn := Turn(m);
      TurnMoves(m, turn);
      if turn.1.None? { LoopMoves(turn.0); }
      TurnUntouched(m, turn);
      if turn.1.None? {
        LoopUntouched(turn.0, r);
      }
    }
  }

  /**
   * When a time-out comes between two elements, one that was found before is still right after the next call if the
   * bytes of that call end before it, and the instruction is not moved.
   */
  lemma ElementSurvives(t: Target, m: Reader, m': Reader, r: (Reader, Outcome), k: nat)
    requires Expects(t, m) && ReadSpec(m) == (m', TimedOut) && m'.config.state == LENGTH
    requires Sane(m') && m'.instr == m'.start && t.b <= k < m'.config.count
    requires r == Loop(m') && r.0.instr == m'.instr && r.0.end <= m'.elements[k]
    ensures ReadSpec(m').0.mem == r.0.mem && ReadSpec(m').0.elements == r.0.elements
    ensures k < |t.f.list| && m'.elements[k] >= 0 && r.0.elements[k] == m'.elements[k]
    ensures CString(r.0.mem, m'.elements[k]) == t.f.list[k]
  {
    StartsInStep(t, m);
    var first := Loop(Ready(m));
    RunsInStep(t, Ready(m), first);
    FoundInStep(t, first.0, k);
    LoopUntouched(m', r);
    CStringSame(m'.mem, r.0.mem, m'.elements[k]);
  }

  // ----- a length whose digits are read again

  /** The number read when digits follow those of a length read so far. */
  function Continued(length: int, digits: string): int
    requires AllDigits(digits)
    decreases |digits|
  {
    if digits == "" then length else Continued(length * 10 + DigitValue(digits[0]), digits[1..])
  }

  lemma {:induction false} ContinuedTwice(length: int, a: string, b: string)
    requires AllDigits(a) && AllDigits(b)
    ensures AllDigits(a + b) && Continued(length, a + b) == Continued(Continued(length, a), b)
    decreases |a|
  {
    if a == "" {
      assert a + b == b;
    } else {
      assert (a + b)[1..] == a[1..] + b;
      ContinuedTwice(length * 10 + DigitValue(a[0]), a[1..], b);
    }
  }

  lemma {:induction false} ContinuedGrows(less: int, more: int, digits: string)
    requires AllDigits(digits) && 0 <= less < more
    ensures less <= Continued(less, digits) < Continued(more, digits)
    decreases |digits|
  {
    if digits != "" {
      var d := DigitValue(digits[0]);
      ContinuedGrows(less * 10 + d, more * 10 + d, digits[1..]);
    }
  }

  /** Numbers below this do not wrap around when k digits follow, nor come near it. */
  function Cap(k: nat): nat
    requires k <= 4
  {
    if k == 0 then 82_000_000 else if k == 1 then 8_200_000 else if k == 2 then 820_000 else if k == 3 then 82_000
      else 8200
  }

  lemma {:induction false} ContinuedBound(length: nat, digits: string)
    requires AllDigits(digits) && |digits| <= 4 && length < Cap(|digits|)
    ensures Continued(length, digits) < 82_000_000
    decreases |digits|
  {
    if digits != "" {
      ContinuedBound(length * 10 + DigitValue(digits[0]), digits[1..]);
    }
  }

  lemma {:induction false} ContinuedNumber(n: nat, i: nat)
    requires i <= |Decimal(n)|
    ensures Continued(ValueSoFar(n, i), Decimal(n)[i..]) == n
    decreases |Decimal(n)| - i
  {
    ValueSoFarSteps(n, i);
    if i < |Decimal(n)| {
      assert Decimal(n)[i..][1..] == Decimal(n)[i + 1..];
      ContinuedNumber(n, i + 1);
    }
  }

  /** A printed number does not begin with a zero unless it is zero. */
  lemma {:induction false} LeadingDigit(n: nat, i: nat)
    requires n > 0 && 0 < i <= |Decimal(n)|
    ensures ValueSoFar(n, i) > 0
  {
    ValueSoFarSteps(n, i);
    if i < |Decimal(n)| {
      assert Decimal(n)[..i] == Decimal(n / 10)[..i];
      LeadingDigit(n / 10, i);
    }
  }

  lemma FewDigits(n: nat)
    requires n <= MAX_LENGTH
    ensures |Decimal(n)| <= 4
  {
    var tens := n / 10;
    var hundreds := tens / 10;
    var thousands := hundreds / 10;
    assert |Decimal(thousands)| == 1;
    assert |Decimal(hundreds)| <= 2;
    assert |Decimal(tens)| <= 3;
  }

  /** Reading some of the digits of a positive number again makes it larger, and too small to wrap around. */
  lemma ReadAgain(n: nat, g: nat, u: nat, p: nat, a: string, b: string)
    requires 0 < n <= MAX_LENGTH && g < g + u <= p <= |Decimal(n)| && a == Decimal(n)[g..g + u] && b == Decimal(n)[p..]
    ensures AllDigits(a + b) && n < Continued(ValueSoFar(n, p), a + b) < 0x8000_0000
  {
    var v := ValueSoFar(n, p);
    ValueSoFarSteps(n, p);
    LeadingDigit(n, p);
    ContinuedNumber(n, p);
    ContinuedTwice(v, a, b);
    LongerNumber(v, a);
    ContinuedGrows(v, Continued(v, a), b);
    FewDigits(n);
    ContinuedBound(v, a + b);
  }

  lemma LongerNumber(v: nat, digits: string)
    requires v > 0 && AllDigits(digits) && digits != ""
    ensures Continued(v, digits) > v
  {
    var longer := v * 10 + DigitValue(digits[0]);
    ContinuedGrows(longer, longer + 1, digits[1..]);
  }

  // ----- a first element that is read too long

  predicate IsSeparator(c: char) { c == ',' || c == ';' }

  /** x begins with s and a separator. */
  ghost predicate Opens(x: string, s: string) {
    |s| < |x| && x[..|s|] == s && IsSeparator(x[|s|])
  }

  /** x begins with digits, a period, s and a separator. */
  ghost predicate Begins(x: string, digits: string, s: string) {
    digits + "." <= x && Opens(x[|digits| + 1..], s)
  }

  ghost function Stream(m: Reader): string
    requires Sane(m)
  {
    Data(m) + m.incoming
  }

  /** In the first length, with digits to come that make it larger than that of s, which follows. */
  ghost predicate LongLength(m: Reader, digits: string, s: string) {
    && Sane(m) && m.config.state == LENGTH && m.config.count == 0 && m.config.length >= 0
    && AllDigits(digits) && CharCount(s) < Continued(m.config.length, digits) < 0x8000_0000
    && Begins(Stream(m), digits, s)
  }

  /** In the first content, with more characters to come than are left of s, from its byte y on. */
  ghost predicate LongContent(m: Reader, y: nat, s: string) {
    && Sane(m) && m.config.state == CONTENT && m.config.count == 1
    && y <= |s| && m.instr <= m.elements[0] == m.start - y && Opens(Stream(m), s[y..])
    && 0 <= WholeCount(s, y) < m.config.length
  }

  /** The separator behind s was read as part of the first element. */
  ghost predicate Overrun(m: Reader, s: string) {
    && Sane(m) && m.config.count >= 1 && m.instr <= m.elements[0] && m.elements[0] + |s| < m.start
    && IsSeparator(m.mem[m.elements[0] + |s|])
  }

  lemma {:induction false} ScanLong(data: string, i: nat, length: int, digits: string, r: Scan)
    requires i <= |data| && AllDigits(digits) && 0 <= length && Continued(length, digits) < 0x8000_0000
    requires forall j :: 0 <= j < |digits| && i + j < |data| ==> data[i + j] == digits[j]
    requires i + |digits| < |data| ==> data[i + |digits|] == '.'
    requires r == ScanLength(data, i, length)
    ensures r.end == Starved || r.end == Period
    ensures r.end == Starved ==>
      && r.parsed == |data| <= i + |digits| && r.length >= 0
      && Continued(r.length, digits[|data| - i..]) == Continued(length, digits)
    ensures r.end == Period ==> r.parsed == i + |digits| + 1 && r.length == Continued(length, digits)
    decreases |digits|
  {
    if i == |data| {
      assert digits[0..] == digits;
    } else if digits != "" {
      assert data[i + 0] == digits[0];
      var longer := length * 10 + DigitValue(digits[0]);
      ContinuedGrows(longer, longer + 1, digits[1..]);
      forall j | 0 <= j < |digits[1..]| && i + 1 + j < |data| ensures data[i + 1 + j] == digits[1..][j] {
        assert data[i + (j + 1)] == digits[j + 1];
      }
      ScanLong(data, i + 1, longer, digits[1..], r);
      if r.end == Starved {
        assert digits[1..][|data| - (i + 1)..] == digits[|data| - i..];
      }
    } else {
      assert data[i + 0] == '.';
    }
  }

  lemma {:induction false} ScanOver(data: string, i: nat, length: int, s: string, y: nat, e: nat, r: Scan)
    requires i <= |data| && y <= |s| && e == i + (|s| - y) && 0 <= WholeCount(s, y) < length
    requires forall j :: y <= j < |s| && e - |s| + j < |data| ==> data[e - |s| + j] == s[j]
    requires e < |data| ==> IsSeparator(data[e])
    requires r == ScanContent(data, i, length)
    ensures r.end == Starved && r.parsed <= e ==>
      var y' := y + (r.parsed - i); y' <= |s| && 0 <= WholeCount(s, y') < r.length
    ensures r.end == Comma || r.end == Semicolon ==> e + 1 < r.parsed
    decreases |data| - i
  {
    if i < |data| {
      if y < |s| {
        assert data[e - |s| + y] == s[y];
        var size := CharSize(s[y]);
        if i + size <= |data| {
          ScanOver(data, i + size, length - 1, s, y + size, e, r);
        }
      } else {
        assert r == ScanContent(data, e + 1, length - 1);
      }
    }
  }

  /** The first element is going to be longer than s, or no element at all. */
  ghost predicate Astray(m: Reader, s: string) {
    && Sane(m)
    && (m.config.state == ERROR || (exists digits :: LongLength(m, digits, s)) ||
      (exists y :: LongContent(m, y, s)) || Overrun(m, s))
  }

  /** The part of a stream that is in memory, when s from its byte y on and a separator are at i in the stream. */
  lemma DataOpens(data: string, stream: string, i: nat, s: string, y: nat, e: nat)
    requires data <= stream && y <= |s| && i <= |stream| && Opens(stream[i..], s[y..]) && e == i + (|s| - y)
    ensures forall j :: y <= j < |s| && e - |s| + j < |data| ==> data[e - |s| + j] == s[j]
    ensures e < |data| ==> IsSeparator(data[e])
  {
    var x := stream[i..];
    forall j | y <= j < |s| && e - |s| + j < |data| ensures data[e - |s| + j] == s[j] {
      assert x[..|s[y..]|][j - y] == s[y..][j - y];
    }
    if e < |data| {
      assert x[|s[y..]|] == data[e];
    }
  }

  lemma OpensLater(x: string, i: nat, s: string, y: nat, n: nat, x': string, left: string)
    requires i <= |x| && y + n <= |s| && Opens(x[i..], s[y..])
    requires i + n <= |x| && x' == x[i + n..] && left == s[y + n..]
    ensures Opens(x', left)
  {
    assert x'[..|left|] == x[i..][..|s| - y][n..];
    assert s[y..][n..] == left;
    assert x'[|left|] == x[i..][|s| - y];
  }

  /** A step through content that ends within s. */
  lemma ContentStarves(m: Reader, st: Step, m': Reader, i: nat, y: nat, s: string, n: nat)
    requires Sane(m) && st.nul.None? && m' == After(m, st) && i <= st.parsed <= |Data(m)| && st.config.state == CONTENT
    requires st.config.count == 1 && y <= |s| && Opens(Stream(m)[i..], s[y..]) && st.parsed == i + n && y + n <= |s|
    requires m.instr <= m'.elements[0] == m.start + i - y
    requires 0 <= WholeCount(s, y + n) < st.config.length
    ensures LongContent(m', y + n, s)
  {
    var x := Stream(m);
    AfterIs(m, st, m');
    AfterData(x, 0, m, st, m');
    OpensLater(x, i, s, y, n, Stream(m'), s[y + n..]);
  }

  /** A step that goes past the separator behind s. */
  lemma ContentOverruns(m: Reader, st: Step, m': Reader, e: nat, s: string)
    requires Sane(m) && e < st.parsed <= |Data(m)| && IsSeparator(Data(m)[e])
    requires (st.nul.Some? ==> e < st.nul.value < st.parsed) && m' == After(m, st) &&
      1 <= st.config.count <= MAX_ELEMENTS
    requires m.instr <= m'.elements[0] == m.start + e - |s|
    ensures Overrun(m', s)
  {}

  /** A step from byte i of the data on, which is byte y of s, and the separator behind s would be at e. */
  ghost predicate GoesOver(st: Step, i: nat, y: nat, s: string, e: nat) {
    st.config.state != ERROR ==>
      && i <= st.parsed && (st.nul.Some? ==> e < st.nul.value < st.parsed)
      && (st.parsed <= e ==>
           && y + (st.parsed - i) <= |s| && st.nul.None? && st.config.state == CONTENT
           && 0 <= WholeCount(s, y + (st.parsed - i)) < st.config.length)
  }

  lemma ContentStepIs(c: Config, data: string, i: nat, element: Option<nat>, st: Step, s: string, y: nat, e: nat)
    requires i <= |data| && st == ContentSpec(c, data, i, element) && c.state == CONTENT
    requires y <= |s| && e == i + (|s| - y) && 0 <= WholeCount(s, y) < c.length
    requires forall j :: y <= j < |s| && e - |s| + j < |data| ==> data[e - |s| + j] == s[j]
    requires e < |data| ==> IsSeparator(data[e])
    ensures GoesOver(st, i, y, s, e)
  {
    ScanOver(data, i, c.length, s, y, e, ScanContent(data, i, c.length));
  }

  /** A step through content that has more characters to come than are left of s. */
  lemma ContentAstray(m: Reader, st: Step, m': Reader, i: nat, y: nat, s: string, e: nat)
    requires Sane(m) && st.parsed <= |Data(m)| && st.config.count == 1
    requires (st.nul.Some? ==> st.nul.value < |Data(m)|) && m' == After(m, st)
    requires i <= |Data(m)| && y <= |s| && e == i + (|s| - y) && Opens(Stream(m)[i..], s[y..])
    requires e < |Data(m)| ==> IsSeparator(Data(m)[e])
    requires m.instr <= m'.elements[0] == m.start + i - y
    requires GoesOver(st, i, y, s, e)
    ensures Astray(m', s)
  {
    if st.config.state != ERROR {
      if st.parsed <= e {
        ContentStarves(m, st, m', i, y, s, st.parsed - i);
      } else {
        ContentOverruns(m, st, m', e, s);
      }
    }
  }

  lemma InContentAstray(m: Reader, y: nat, s: string, m': Reader)
    requires LongContent(m, y, s) && m' == Taken(m)
    ensures Astray(m', s)
  {
    var st, e := AppendSpec(m.config, Data(m)), |s| - y;
    assert Stream(m)[0..] == Stream(m);
    DataOpens(Data(m), Stream(m), 0, s, y, e);
    ContentStepIs(m.config, Data(m), 0, None, st, s, y, e);
    ContentAstray(m, st, m', 0, y, s, e);
  }

  /** A stream that begins with a length and s, after some of the digits. */
  lemma DigitsLeft(x: string, digits: string, n: nat, s: string, x': string, left: string)
    requires Begins(x, digits, s) && n <= |digits| && x' == x[n..] && left == digits[n..]
    ensures Begins(x', left, s)
  {
    assert left + "." == (digits + ".")[n..];
    assert x'[..|left| + 1] == x[..|digits| + 1][n..];
    assert x'[|left| + 1..] == x[|digits| + 1..];
  }

  lemma DigitsInData(data: string, x: string, digits: string)
    requires data <= x && digits + "." <= x
    ensures forall j :: 0 <= j < |digits| && 0 + j < |data| ==> data[0 + j] == digits[j]
    ensures 0 + |digits| < |data| ==> data[0 + |digits|] == '.'
  {
    assert forall j :: 0 <= j <= |digits| ==> x[j] == (digits + ".")[j];
  }

  /** The stream once some of the digits are taken. */
  lemma StreamStarves(m: Reader, digits: string, s: string, n: nat, st: Step, m': Reader, left: string, x': string)
    requires Sane(m) && Begins(Stream(m), digits, s) && n == |Data(m)| <= |digits| && left == digits[n..]
    requires st == Step(Config(LENGTH, st.config.length, 0), n, None, None) && m' == After(m, st) && Sane(m')
    requires x' == Stream(m')
    ensures Begins(x', left, s)
  {
    AfterData(Stream(m), 0, m, st, m');
    DigitsLeft(Stream(m), digits, n, s, x', left);
  }

  lemma LengthStarves(m: Reader, digits: string, s: string, st: Step, m': Reader, left: string)
    requires LongLength(m, digits, s) && |Data(m)| <= |digits| && left == digits[|Data(m)|..] && st.config.length >= 0
    requires st == Step(Config(LENGTH, st.config.length, 0), |Data(m)|, None, None) && m' == After(m, st)
    requires Continued(st.config.length, left) == Continued(m.config.length, digits)
    ensures LongLength(m', left, s)
  {
    AfterIs(m, st, m');
    StreamStarves(m, digits, s, |Data(m)|, st, m', left, Stream(m'));
    StillLong(m', left, s, Stream(m'));
  }

  lemma StillLong(m: Reader, digits: string, s: string, x: string)
    requires Sane(m) && m.config.state == LENGTH && m.config.count == 0 && m.config.length >= 0
    requires AllDigits(digits) && CharCount(s) < Continued(m.config.length, digits) < 0x8000_0000
    requires x == Stream(m) && Begins(x, digits, s)
    ensures LongLength(m, digits, s)
  {}

  lemma InLengthScans(m: Reader, digits: string, s: string, r: Scan)
    requires LongLength(m, digits, s) && r == ScanLength(Data(m), 0, m.config.length)
    ensures r.end == Starved || r.end == Period
    ensures r.end == Starved ==>
      && r.parsed == |Data(m)| <= |digits| && r.length >= 0
      && Continued(r.length, digits[|Data(m)|..]) == Continued(m.config.length, digits)
    ensures r.end == Period ==> r.parsed == |digits| + 1 && r.length == Continued(m.config.length, digits)
  {
    DigitsInData(Data(m), Stream(m), digits);
    ScanLong(Data(m), 0, m.config.length, digits, r);
  }

  lemma PeriodStepIs(data: string, stream: string, i: nat, s: string, length: int, st: Step, e: nat)
    requires data <= stream && i <= |data| && e == i + |s| && Opens(stream[i..], s[0..]) && Whole(s) &&
      CharCount(s) < length
    requires st == ContentSpec(Config(CONTENT, length, 1), data, i, Some(i))
    ensures e < |data| ==> IsSeparator(data[e])
    ensures GoesOver(st, i, 0, s, e)
  {
    assert s[0..] == s;
    WholeCountIsCharCount(s, 0);
    DataOpens(data, stream, i, s, 0, e);
    ContentStepIs(Config(CONTENT, length, 1), data, i, Some(i), st, s, 0, e);
  }

  lemma PeriodAstray(m: Reader, i: nat, s: string, st: Step, m': Reader, e: nat)
    requires Sane(m) && m.config.count == 0 && i <= |Data(m)| && e == i + |s| && Opens(Stream(m)[i..], s[0..])
    requires st.element == Some(i) && st.config.count == 1 && st.parsed <= |Data(m)|
    requires (st.nul.Some? ==> st.nul.value < |Data(m)|) && m' == After(m, st)
    requires e < |Data(m)| ==> IsSeparator(Data(m)[e])
    requires GoesOver(st, i, 0, s, e)
    ensures Astray(m', s)
  {
    ContentAstray(m, st, m', i, 0, s, e);
  }

  lemma PastPeriod(m: Reader, i: nat, s: string, length: int, st: Step, m': Reader)
    requires Sane(m) && m.config.count == 0 && i <= |Data(m)| && Opens(Stream(m)[i..], s) && Whole(s) &&
      CharCount(s) < length
    requires st == ContentSpec(Config(CONTENT, length, 1), Data(m), i, Some(i)) && m' == After(m, st)
    ensures Astray(m', s)
  {
    assert s[0..] == s;
    PeriodStepIs(Data(m), Stream(m), i, s, length, st, i + |s|);
    PeriodAstray(m, i, s, st, m', i + |s|);
  }

  lemma InLengthAstray(m: Reader, digits: string, s: string, m': Reader, r: Scan, st: Step)
    requires LongLength(m, digits, s) && Whole(s) && r == ScanLength(Data(m), 0, m.config.length)
    requires st == AppendSpec(m.config, Data(m)) && m' == After(m, st)
    ensures Astray(m', s)
  {
    InLengthScans(m, digits, s, r);
    if r.length <= MAX_LENGTH {
      LengthSpec(m.config, Data(m), r, st);
      if r.end == Starved {
        LengthStarves(m, digits, s, st, m', digits[|Data(m)|..]);
      } else {
        PastPeriod(m, r.parsed, s, r.length, st, m');
      }
    }
  }

  lemma OverrunStays(m: Reader, s: string, m': Reader)
    requires Overrun(m, s) && m' == Taken(m)
    ensures Overrun(m', s)
  {}

  lemma AlikeAstray(m: Reader, s: string, m': Reader)
    requires Astray(m, s) && Alike(m, m')
    ensures Astray(m', s)
  {
    if digits :| LongLength(m, digits, s) {
      assert LongLength(m', digits, s);
    } else if y :| LongContent(m, y, s) {
      assert |Past(m')| == |Past(m)|;
      assert LongContent(m', y, s);
    } else if m.config.state != ERROR {
      var at := m.elements[0] - m.instr + |s|;
      assert |Past(m')| == |Past(m)|;
      assert Past(m')[at] == Past(m)[at];
    }
  }

  lemma TakenAstray(m: Reader, s: string, m': Reader)
    requires Astray(m, s) && m.config.state != ERROR && Whole(s) && m' == Taken(m)
    ensures Astray(m', s)
  {
    if digits :| LongLength(m, digits, s) {
      InLengthAstray(m, digits, s, m', ScanLength(Data(m), 0, m.config.length), AppendSpec(m.config, Data(m)));
    } else if y :| LongContent(m, y, s) {
      InContentAstray(m, y, s, m');
    } else {
      OverrunStays(m, s, m');
    }
  }

  /** Moving memory and receiving more keep what is read and to be read. */
  lemma MoreAlike(m: Reader, more: (Reader, Option<Outcome>))
    requires Sane(m) && more == More(m) && more.1.None?
    ensures Alike(m, more.0)
  {
    var ready := MadeRoom(m);
    if m.end == BUFFER_SIZE {
      ShiftedAlike(m, ready);
    }
    FilledAlike(ready, ready.incoming[..ReadSize(ready.sizes, BUFFER_SIZE - ready.end, |ready.incoming|)], more.0);
  }

  /** If an instruction is read at all, its first element goes past s. */
  lemma {:induction false} RunsAstray(m: Reader, s: string, r: (Reader, Outcome))
    requires Astray(m, s) && Whole(s) && r == Loop(m)
    ensures r.1 == Done ==> Overrun(r.0, s)
    decreases Measure(m)
  {
    if m.config.state != COMPLETE && m.config.state != ERROR {
      var taken, turn := Taken(m), Turn(m);
      TakenAstray(m, s, taken);
      if turn.1.None? {
        if taken.start == m.start {
          MoreAlike(taken, turn);
          AlikeAstray(taken, s, turn.0);
        }
        RunsAstray(turn.0, s, r);
      }
    }
  }

  lemma {:induction false} CStringEnds(mem: string, at: nat)
    ensures var s := CString(mem, at); at < |mem| ==> at + |s| >= |mem| || mem[at + |s|] == NUL
    decreases |mem| - at
  {
    if at < |mem| && mem[at] != NUL {
      CStringEnds(mem, at + 1);
    }
  }

  lemma OverrunReads(m: Reader, s: string)
    requires Overrun(m, s)
    ensures m.elements[0] >= 0 && CString(m.mem, m.elements[0]) != s
  {
    CStringEnds(m.mem, m.elements[0]);
  }

  // ----- a time-out within the first length

  lemma TurnCounts(m: Reader, taken: Reader, turn: (Reader, Option<Outcome>))
    requires Sane(m) && taken == Taken(m) && turn == Turn(m)
    ensures m.config.count <= taken.config.count == turn.0.config.count
  {}

  lemma {:induction false} CountGrows(m: Reader)
    requires Sane(m)
    ensures Loop(m).0.config.count >= m.config.count
    decreases Measure(m)
  {
    if m.config.state != COMPLETE && m.config.state != ERROR {
      TurnCounts(m, Taken(m), Turn(m));
      if Turn(m).1.None? {
        CountGrows(Turn(m).0);
      }
    }
  }

  lemma AtFirstLength(t: Target, m: Reader, r: Scan, s: Step)
    requires InStep(t, m) && m.config.state == LENGTH && m.config.count == 0
    requires r == ScanLength(Data(m), 0, m.config.length) && s == AppendSpec(m.config, Data(m)) && s.config.count == 0
    ensures s.nul.None? && t.g + (m.end - m.instr) <= |Decimal(CharCount(t.f.list[0]))|
  {
    AppendMoves(t, m, s);
    LengthEnds(t.f, Reached(t, m), m.config, Data(m), r);
    LengthSpec(m.config, Data(m), r, s);
  }

  lemma {:induction false} TakenCounts(m: Reader)
    requires Sane(m) && Loop(m).0.config.count == 0 && m.config.state != COMPLETE && m.config.state != ERROR
    ensures Taken(m).config.count == 0
  {
    var turn := Turn(m);
    TurnCounts(m, Taken(m), turn);
    if turn.1.None? {
      CountGrows(turn.0);
    }
  }

  /** While a run stays within the first length, its period has not arrived. */
  lemma NoPeriod(t: Target, m: Reader)
    requires InStep(t, m) && Loop(m).0.config.count == 0
    ensures m.config.state == LENGTH && m.config.count == 0 && Taken(m).mem == m.mem
    ensures t.g + (m.end - m.instr) <= 4
  {
    CountGrows(m);
    TakenCounts(m);
    AtFirstLength(t, m, ScanLength(Data(m), 0, m.config.length), AppendSpec(m.config, Data(m)));
    ContentBegins(t.f, 0);
    FewDigits(CharCount(t.f.list[0]));
  }

  /** Memory between lo and hi is u: the start of the instruction, or the place it was moved away from. */
  ghost predicate Window(m: Reader, lo: nat, hi: nat, u: string) {
    && Sane(m) && lo <= hi <= |m.mem| && m.mem[lo..hi] == u
    && ((m.instr == lo && hi <= m.end) || (m.instr == 0 && 4 <= lo))
  }

  lemma SameWindow(mem: string, mem': string, lo: nat, hi: nat)
    requires lo <= hi <= |mem| == |mem'| && forall j :: lo <= j < hi ==> mem'[j] == mem[j]
    ensures mem'[lo..hi] == mem[lo..hi]
  {}

  lemma ShiftKeeps(m: Reader, lo: nat, hi: nat, u: string, ready: Reader)
    requires Window(m, lo, hi, u) && ready == Shifted(m) && m.end - m.instr <= 4 && m.end == BUFFER_SIZE
    ensures Window(ready, lo, hi, u)
  {
    SameWindow(m.mem, ready.mem, lo, hi);
  }

  lemma FillKeeps(m: Reader, lo: nat, hi: nat, u: string, data: string, m': Reader)
    requires Window(m, lo, hi, u) && m.end + |data| <= BUFFER_SIZE && |data| <= |m.incoming| && m' == Filled(m, data)
    requires m'.end - m'.instr <= 4
    ensures Window(m', lo, hi, u)
  {
    SameWindow(m.mem, m'.mem, lo, hi);
  }

  lemma MoreKeeps(m: Reader, lo: nat, hi: nat, u: string, more: (Reader, Option<Outcome>))
    requires Window(m, lo, hi, u) && more == More(m) && m.end - m.instr <= 4 && more.0.end - more.0.instr <= 4
    ensures Window(more.0, lo, hi, u)
  {
    var ready := MadeRoom(m);
    if m.end == BUFFER_SIZE {
      ShiftKeeps(m, lo, hi, u, ready);
    }
    if more.1.None? {
      FillKeeps(ready, lo, hi, u, ready.incoming[..ReadSize(ready.sizes, BUFFER_SIZE - ready.end, |ready.incoming|)],
        more.0);
    }
  }

  lemma WaitKeeps(t: Target, m: Reader, lo: nat, hi: nat, u: string, more: (Reader, Option<Outcome>))
    requires InStep(t, m) && Window(m, lo, hi, u) && m.config.state != COMPLETE && m.config.state != ERROR
    requires Loop(m).0.config.count == 0 && Taken(m).start == m.start && more == More(m)
    ensures Turn(m) == more && Window(more.0, lo, hi, u) && (more.1.None? ==> InStep(t, more.0))
  {
    NoPeriod(t, m);
    MoreInStep(t, m, more);
    if more.1.None? {
      NoPeriod(t, more.0);
    }
    MoreKeeps(m, lo, hi, u, more);
  }

  lemma {:induction false} LoopKeeps(t: Target, m: Reader, lo: nat, hi: nat, u: string, r: (Reader, Outcome))
    requires InStep(t, m) && Window(m, lo, hi, u) && r == Loop(m) && r.1 == TimedOut && r.0.config.count == 0
    ensures hi <= |r.0.mem| && r.0.mem[lo..hi] == u
    decreases Measure(m)
  {
    var taken := Taken(m);
    if taken.start > m.start {
      NoPeriod(t, m);
      TakenInStep(t, m, taken);
      LoopKeeps(t, taken, lo, hi, u, r);
    } else {
      var more := More(m);
      WaitKeeps(t, m, lo, hi, u, more);
      if more.1.None? {
        LoopKeeps(t, more.0, lo, hi, u, r);
      }
    }
  }

  /** A time-out within the first length leaves the unread bytes in the buffer as they were. */
  lemma StillUnread(t: Target, m: Reader, m': Reader)
    requires Expects(t, m) && ReadSpec(m) == (m', TimedOut) && m'.config.count == 0
    ensures m'.start == m.start && m'.end == m.end && Data(m') == Data(m)
  {
    StartsInStep(t, m);
    LoopKeeps(t, Ready(m), m.start, m.end, Data(m), Loop(Ready(m)));
  }

  /** The first element in the text. */
  lemma TextBegins(t: Target, x: string)
    requires x == t.f.text + t.after
    ensures Begins(x, Decimal(CharCount(t.f.list[0])), t.f.list[0])
  {
    var f, d, s := t.f, Decimal(CharCount(t.f.list[0])), t.f.list[0];
    assert Piece(f, 0);
    assert forall i :: 0 <= i < |d| ==> x[0 + i] == d[i];
    assert x[..|d| + 1] == d + ".";
    assert forall i :: 0 <= i < |s| ==> x[|d| + 1 + i] == f.text[f.content[0] + i] == s[i];
    assert x[|d| + 1..][..|s|] == s;
  }

  /** The stream with u of the digits from g on in front, and then what follows the first p. */
  lemma StreamAgain(x: string, d: string, s: string, g: nat, u: nat, p: nat)
    requires Begins(x, d, s) && g + u <= p <= |d|
    ensures d[g..g + u] == x[g..g + u] && Begins(x[g..g + u] + x[p..], d[g..g + u] + d[p..], s)
  {
    var y, digits := x[g..g + u] + x[p..], d[g..g + u] + d[p..];
    assert x[..|d| + 1] == d + ".";
    assert forall i :: 0 <= i < |d| ==> x[i] == d[i];
    assert y[..|digits| + 1] == digits + ".";
    assert y[|digits| + 1..] == x[|d| + 1..];
  }

  /** With digits of the length to be parsed again, it becomes too large. */
  lemma BecomesLong(m: Reader, x: string, s: string, n: nat, g: nat, u: nat, p: nat)
    requires Sane(m) && n == CharCount(s) && 0 < n <= MAX_LENGTH && g < g + u <= p <= |Decimal(n)|
    requires m.config == Config(LENGTH, ValueSoFar(n, p), 0) && Begins(x, Decimal(n), s)
    requires Stream(m) == x[g..g + u] + x[p..]
    ensures Astray(m, s)
  {
    var a, b := Decimal(n)[g..g + u], Decimal(n)[p..];
    StreamAgain(x, Decimal(n), s, g, u, p);
    ReadAgain(n, g, u, p, a, b);
    assert LongLength(m, a + b, s);
  }

  lemma UnreadIs(x: string, g: nat, data: string, incoming: string)
    requires g <= |x| && data + incoming == x[g..]
    ensures g + |data| <= |x| && data == x[g..g + |data|]
  {
    assert |data + incoming| == |x| - g;
    assert data == (data + incoming)[..|data|];
  }

  /** Where the first length ends. */
  lemma FirstLength(f: Text, p: nat, c: Config)
    requires At(f, p, c) && c.state == LENGTH && c.count == 0
    ensures p <= |Decimal(CharCount(f.list[0]))| && c.length == ValueSoFar(CharCount(f.list[0]), p)
    ensures CharCount(f.list[0]) <= MAX_LENGTH
  {
    ContentBegins(f, 0);
  }

  /** Unread bytes that were parsed are parsed again. */
  lemma ReadsTooLong(t: Target, m: Reader, m': Reader, p: nat, s: string, x: string, u: nat)
    requires x == t.f.text + t.after && t.g <= |x| && Sane(m) && Data(m) + m.incoming == x[t.g..]
    requires Sane(m') && m'.config.count == 0 && m'.config.state == LENGTH && Data(m') == Data(m) && u == |Data(m)| > 0
    requires s == t.f.list[0] && s != "" && At(t.f, p, m'.config) && t.g + u <= p <= |x| && m'.incoming == x[p..]
    ensures Astray(m', s)
  {
    TextBegins(t, x);
    UnreadIs(x, t.g, Data(m), m.incoming);
    CountAtMostLength(s);
    FirstLength(t.f, p, m'.config);
    BecomesLong(m', x, s, CharCount(s), t.g, u, p);
  }

  /** A length "0" that was parsed has changed nothing. */
  lemma StartsAgain(t: Target, m: Reader, m': Reader, p: nat)
    requires Expects(t, m) && Sane(m') && m'.instr == m'.start && m'.config.count == 0 && m.start < m.end
    requires Data(m') == Data(m) && t.f.list[0] == "" && m'.config.state == LENGTH && At(t.f, p, m'.config)
    requires t.g + (m.end - m.start) <= p <= |t.f.text| && m'.incoming == (t.f.text + t.after)[p..]
    ensures Expects(t.(g := 0, b := 0), m')
  {
    var x := t.f.text + t.after;
    assert CharCount("") == 0 && Decimal(0) == "0";
    assert Piece(t.f, 0);
    ValueSoFarSteps(0, 0);
    ValueSoFarSteps(0, 1);
    assert t.g == 0 && p == 1 && m.end == m.start + 1;
    assert Data(m) == (Data(m) + m.incoming)[..1] == x[..1];
    assert x[..1] + x[1..] == x == x[0..];
  }

  lemma MissesTooLong(t: Target, m: Reader)
    requires Sane(m) && m.instr == m.start && m.config.state == LENGTH && Astray(m, t.f.list[0])
    ensures !Delivered(t, 0, ReadSpec(m))
  {
    var s, r := t.f.list[0], Loop(m);
    assert ReadableString(s, MAX_LENGTH);
    RunsAstray(m, s, r);
    if r.1 == Done {
      OverrunReads(r.0, s);
    }
  }

  lemma Reads(t: Target, m: Reader, g: nat)
    requires Expects(t.(g := g, b := 0), m) && 0 !in m.sizes
    ensures Delivered(t, 0, ReadSpec(m))
  {
    ReadDelivers(t.(g := g, b := 0), m);
  }

  /**
   * After a time-out within the first length, the next call reads the instruction if and only if there was nothing
   * unread in the buffer before, or the length is that of an empty element.
   */
  lemma AfterTimeOut(t: Target, m: Reader, m': Reader)
    requires Expects(t, m) && ReadSpec(m) == (m', TimedOut) && m'.config.count == 0 && 0 !in m'.sizes
    ensures Delivered(t, 0, ReadSpec(m')) <==> m.start == m.end || t.f.list[0] == ""
  {
    var p, q := TimeOutLeaves(t, m, m');
    PositionBounded(t.f, p, m'.config);
    StillUnread(t, m, m');
    if m.start == m.end {
      GoesOn(t, m, m', p);
      Reads(t, m', p);
    } else if t.f.list[0] == "" {
      StartsAgain(t, m, m', p);
      Reads(t, m', 0);
    } else {
      ReadsTooLong(t, m, m', p, t.f.list[0], t.f.text + t.after, m.end - m.start);
      MissesTooLong(t, m');
    }
  }
}
