/** Time-outs at inputs of a few bytes: one for each way in which the next call can go wrong, or by chance right. */
module TimeOutExamples {
  import opened Numbers
  import opened Wire
  import opened Utf8
  import opened Appending
  import opened Reading

  /** A turn that parses something. */
  lemma Parses(m: Reader, s: Step, m': Reader)
    requires Sane(m) && m.config.state in {LENGTH, CONTENT} && s == AppendSpec(m.config, Data(m)) && s.parsed > 0
    requires m' == After(m, s)
    ensures Sane(m') && Loop(m) == Loop(m')
  {}

  lemma NothingTaken(m: Reader)
    requires Sane(m) && m.config.state in {LENGTH, CONTENT} && m.start == m.end
    requires m.config.count < MAX_ELEMENTS && m.config.length <= MAX_LENGTH
    ensures Taken(m) == m
  {
    assert Data(m) == "";
  }

  /** With nothing to parse, and room in the buffer, a turn times out or receives. */
  lemma Waits(m: Reader)
    requires Sane(m) && m.config.state in {LENGTH, CONTENT} && m.start == m.end < BUFFER_SIZE
    requires m.config.count < MAX_ELEMENTS && m.config.length <= MAX_LENGTH
    ensures TimesOut(m.sizes) ==> Loop(m) == (m.(sizes := Later(m.sizes)), TimedOut)
    ensures !TimesOut(m.sizes) && m.incoming == "" ==> Loop(m) == (m.(sizes := Later(m.sizes)), Closed)
    ensures !TimesOut(m.sizes) && m.incoming != "" ==> Loop(m) == Loop(Refilled(m))
  {
    NothingTaken(m);
  }

  lemma Receives(m: Reader, data: string, m': Reader)
    requires Sane(m) && m.config.state in {LENGTH, CONTENT} && m.start == m.end < BUFFER_SIZE
    requires m.config.count < MAX_ELEMENTS && m.config.length <= MAX_LENGTH
    requires 0 < |data| <= BUFFER_SIZE - m.end && data <= m.incoming && m.sizes != [] && m.sizes[0] == |data|
    requires m' == Filled(m, data)
    ensures Loop(m) == Loop(m')
  {
    assert m.incoming[..ReadSize(m.sizes, BUFFER_SIZE - m.end, |m.incoming|)] == data;
    Waits(m);
  }

  lemma Received(m: Reader, data: string, m': Reader)
    requires Sane(m) && m.start == m.end && |data| <= BUFFER_SIZE - m.end && data <= m.incoming && m' == Filled(m, data)
    ensures Sane(m') && Data(m') == data
  {}

  lemma Three(c: Config, data: string)
    requires c.state == LENGTH && 0 <= c.length < 1000 && c.count == 0 && data == "3"
    ensures AppendSpec(c, data) == Step(Config(LENGTH, c.length * 10 + 3, 0), 1, None, None) ||
      c.length * 10 + 3 > MAX_LENGTH
  {
    assert ScanLength(data, 1, c.length * 10 + 3) == Scan(1, c.length * 10 + 3, Starved);
  }

  lemma FourOfMany(data: string)
    requires data == ".abc;"
    ensures AppendSpec(Config(LENGTH, 33, 0), data) == Step(Config(CONTENT, 29, 1), 5, Some(1), None)
  {
    assert ScanLength(data, 0, 33) == Scan(1, 33, Period);
    assert ScanContent(data, 5, 29) == Scan(5, 29, Starved);
    assert ScanContent(data, 3, 31) == ScanContent(data, 4, 30) == ScanContent(data, 5, 29);
    assert ScanContent(data, 1, 33) == ScanContent(data, 2, 32) == ScanContent(data, 3, 31);
  }

  /** The first call: the digit is parsed, but stays in the buffer as not parsed. */
  lemma ThreeTimesOut(m: Reader, m': Reader)
    requires Sane(m) && m.instr == m.start && m.config == Config(LENGTH, 0, 0) && m.end < BUFFER_SIZE
    requires Data(m) == "3" && TimesOut(m.sizes)
    requires m' == m.(config := Config(LENGTH, 3, 0), sizes := Later(m.sizes))
    ensures ReadSpec(m) == (m', TimedOut)
  {
    var s := AppendSpec(m.config, Data(m));
    Three(m.config, Data(m));
    Parses(m, s, After(m, s));
    Waits(After(m, s));
  }

  lemma ManyMissing(m: Reader)
    requires Sane(m) && m.config == Config(LENGTH, 33, 0) && m.start == m.end <= BUFFER_SIZE - 6
    requires m.incoming == ".abc;" && m.sizes == [5]
    ensures Loop(m).1 == Closed && Loop(m).0.config == Config(CONTENT, 29, 1)
  {
    var b := Filled(m, m.incoming);
    Receives(m, m.incoming, b);
    Received(m, m.incoming, b);
    FourOfMany(Data(b));
    var c := After(b, AppendSpec(b.config, Data(b)));
    Parses(b, AppendSpec(b.config, Data(b)), c);
    Waits(c);
  }

  /** The second call parses it again. */
  lemma ThreeAgain(m: Reader)
    requires Sane(m) && m.instr == m.start && m.config == Config(LENGTH, 3, 0) && m.end <= BUFFER_SIZE - 6
    requires Data(m) == "3" && m.incoming == ".abc;" && m.sizes == [5]
    ensures ReadSpec(m).1 == Closed && ReadSpec(m).0.config == Config(CONTENT, 29, 1)
  {
    Three(m.config, Data(m));
    var a := After(m, AppendSpec(m.config, Data(m)));
    Parses(m, AppendSpec(m.config, Data(m)), a);
    ManyMissing(a);
  }

  /**
   * "3" is in the buffer, a read times out, then ".abc;" arrives: 33 characters are expected, of which 29 are
   * missing.
   */
  lemma LengthReadTwice(m: Reader)
    requires Sane(m) && m.instr == m.start && m.config == Config(LENGTH, 0, 0) && m.end <= BUFFER_SIZE - 6
    requires Data(m) == "3" && m.incoming == ".abc;" && m.sizes == [0, 5]
    ensures ReadSpec(m).1 == TimedOut
    ensures var r := ReadSpec(ReadSpec(m).0); r.1 == Closed && r.0.config == Config(CONTENT, 29, 1)
  {
    var m' := m.(config := Config(LENGTH, 3, 0), sizes := Later(m.sizes));
    ThreeTimesOut(m, m');
    ThreeAgain(m');
  }

  // ----- after the first period

  lemma OnePeriod(data: string)
    requires data == "1."
    ensures AppendSpec(Config(LENGTH, 0, 0), data) == Step(Config(CONTENT, 1, 1), 2, Some(2), None)
  {
    assert ScanLength(data, 0, 0) == ScanLength(data, 1, 1) == Scan(2, 1, Period);
  }

  lemma OneCharacter(data: string)
    requires data == "a;"
    ensures AppendSpec(Config(CONTENT, 1, 1), data) == Step(Config(COMPLETE, 0, 1), 2, None, Some(1))
  {
    assert ScanContent(data, 0, 1) == ScanContent(data, 1, 0) == Scan(2, 0, Semicolon);
  }

  lemma OneElement(data: string, last: bool, k: nat)
    requires data == (if last then "1.a;" else "1.a,") && k < MAX_ELEMENTS
    ensures AppendSpec(Config(LENGTH, 0, k), data) ==
      Step(Config(if last then COMPLETE else LENGTH, 0, k + 1), 4, Some(2), Some(3))
  {
    assert ScanLength(data, 0, 0) == ScanLength(data, 1, 1) == Scan(2, 1, Period);
    assert ScanContent(data, 2, 1) == ScanContent(data, 3, 0) == Scan(4, 0, if last then Semicolon else Comma);
  }

  /** Receive some bytes into an empty buffer, parse them all. */
  lemma ReceivesParses(m: Reader, data: string, s: Step, m': Reader)
    requires Sane(m) && m.config.state in {LENGTH, CONTENT} && m.start == m.end < BUFFER_SIZE
    requires m.config.count < MAX_ELEMENTS && m.config.length <= MAX_LENGTH
    requires 0 < |data| <= BUFFER_SIZE - m.end && data <= m.incoming && m.sizes != [] && m.sizes[0] == |data|
    requires s == AppendSpec(m.config, data) && s.parsed == |data| && m' == After(Filled(m, data), s)
    ensures Sane(m') && Loop(m) == Loop(m') && m'.start == m'.end == m.end + |data|
  {
    Receives(m, data, Filled(m, data));
    Received(m, data, Filled(m, data));
    Parses(Filled(m, data), s, m');
  }

  /** A call that receives and parses some bytes, and then times out. */
  lemma TimesOutAfter(m: Reader, data: string, s: Step, next: Reader)
    requires Sane(m) && m.config.state in {LENGTH, CONTENT} && m.instr == m.start == m.end < BUFFER_SIZE
    requires m.config.count < MAX_ELEMENTS && m.config.length <= MAX_LENGTH
    requires 0 < |data| < BUFFER_SIZE - m.end && data <= m.incoming && |m.sizes| > 1 && m.sizes[0] == |data| &&
      m.sizes[1] == 0
    requires s == AppendSpec(m.config, data) && s.parsed == |data| && next == After(Filled(m, data), s)
    requires s.config.state in {LENGTH, CONTENT} && s.config.count < MAX_ELEMENTS && s.config.length <= MAX_LENGTH
    ensures ReadSpec(m) == (next.(start := m.start, end := m.end, sizes := m.sizes[2..]), TimedOut)
  {
    ReceivesParses(m, data, s, next);
    Waits(next);
  }

  /** A call that receives and parses the end of an instruction. */
  lemma CompletesAfter(m: Reader, data: string, s: Step, next: Reader)
    requires Sane(m) && m.config.state in {LENGTH, CONTENT} && m.instr == m.start == m.end < BUFFER_SIZE
    requires m.config.count < MAX_ELEMENTS && m.config.length <= MAX_LENGTH
    requires 0 < |data| <= BUFFER_SIZE - m.end && data <= m.incoming && m.sizes != [] && m.sizes[0] == |data|
    requires s == AppendSpec(m.config, data) && s.parsed == |data| && next == After(Filled(m, data), s)
    requires s.config.state == COMPLETE
    ensures ReadSpec(m) == (next.(instr := next.start), Done)
  {
    ReceivesParses(m, data, s, next);
    assert Loop(next) == (next, Done);
  }

  /** "1." is received, a read times out, then "a;" arrives: it is put where "1." was, and the element is not found. */
  lemma ElementLost(m: Reader)
    requires Sane(m) && m.config == Config(LENGTH, 0, 0) && m.instr == m.start == m.end <= BUFFER_SIZE - 4
    requires m.incoming == "1.a;" && m.sizes == [2, 0, 2] && m.mem[m.end + 2] == NUL
    ensures ReadSpec(m).1 == TimedOut
    ensures var r := ReadSpec(ReadSpec(m).0);
      r.1 == Done && r.0.config.count == 1 && r.0.elements[0] >= 0 && CString(r.0.mem, r.0.elements[0]) == ""
  {
    var one, two := m.incoming[..2], m.incoming[2..];
    OnePeriod(one);
    var s := AppendSpec(m.config, one);
    var next := After(Filled(m, one), s);
    TimesOutAfter(m, one, s, next);
    var m' := next.(start := m.start, end := m.end, sizes := m.sizes[2..]);
    OneCharacter(two);
    var s' := AppendSpec(m'.config, two);
    CompletesAfter(m', two, s', After(Filled(m', two), s'));
  }

  lemma FirstOfTwo(m: Reader, m': Reader)
    requires Sane(m) && m.config == Config(LENGTH, 0, 0) && m.instr == m.start == m.end <= BUFFER_SIZE - 5
    requires m.incoming == "1.a,1.a;" && m.sizes == [4, 0, 4] && m' == ReadSpec(m).0
    ensures ReadSpec(m).1 == TimedOut && Sane(m') && m'.instr == m'.start == m'.end == m.end
    ensures m'.config == Config(LENGTH, 0, 1) && m'.elements[0] == m.end + 2 && m'.incoming == "1.a;" && m'.sizes == [4]
  {
    var data := m.incoming[..4];
    OneElement(data, false, 0);
    var s := AppendSpec(m.config, data);
    TimesOutAfter(m, data, s, After(Filled(m, data), s));
  }

  lemma SecondOfTwo(m: Reader, r: (Reader, Outcome))
    requires Sane(m) && m.config == Config(LENGTH, 0, 1) && m.instr == m.start == m.end <= BUFFER_SIZE - 5
    requires m.incoming == "1.a;" && m.sizes == [4] && m.elements[0] == m.end + 2 && r == ReadSpec(m)
    ensures r.1 == Done && r.0.config.count == 2 && r.0.elements[0] == r.0.elements[1] >= 0
    ensures CString(r.0.mem, r.0.elements[0]) == "a"
  {
    var data := m.incoming;
    OneElement(data, true, 1);
    var s := AppendSpec(m.config, data);
    CompletesAfter(m, data, s, After(Filled(m, data), s));
    CStringIs(r.0.mem, m.end + 2, "a");
  }

  /** "1.a," is received, a read times out, then "1.a;" arrives: put in the same place, it serves for both elements. */
  lemma ElementFoundByChance(m: Reader)
    requires Sane(m) && m.config == Config(LENGTH, 0, 0) && m.instr == m.start == m.end <= BUFFER_SIZE - 5
    requires m.incoming == "1.a,1.a;" && m.sizes == [4, 0, 4]
    ensures ReadSpec(m).1 == TimedOut
    ensures var r := ReadSpec(ReadSpec(m).0);
      && r.1 == Done && r.0.config.count == 2 && r.0.elements[0] == r.0.elements[1] >= 0
      && CString(r.0.mem, r.0.elements[0]) == "a"
  {
    FirstOfTwo(m, ReadSpec(m).0);
    SecondOfTwo(ReadSpec(m).0, ReadSpec(ReadSpec(m).0));
  }
}
