/** guac_parser_read of parser.cpp on values, and how it stays in step with a printed instruction. */
module Reading {
  import opened Numbers
  import opened Wire
  import opened Utf8
  import opened Framing
  import opened Appending

  const BUFFER_SIZE := 32768

  // ----- what guac_parser_read does

  /** The NUL-terminated string at an offset. */
  function CString(mem: string, at: nat): string
    decreases |mem| - at
  {
    if at >= |mem| || mem[at] == NUL then "" else [mem[at]] + CString(mem, at + 1)
  }

  lemma {:induction false} CStringIs(mem: string, at: nat, s: string)
    requires at + |s| < |mem| && mem[at + |s|] == NUL && NoNul(s)
    requires forall i :: 0 <= i < |s| ==> mem[at + i] == s[i]
    ensures CString(mem, at) == s
    decreases |s|
  {
    if s != "" {
      assert mem[at + 0] == s[0];
      forall i | 0 <= i < |s[1..]| ensures mem[at + 1 + i] == s[1..][i] {
        assert mem[at + (i + 1)] == s[i + 1];
      }
      CStringIs(mem, at + 1, s[1..]);
    }
  }

  /**
   * The parser and its socket. The instruction that is read starts at `instr` in memory, what is not parsed yet is
   * between `start` and `end`. `incoming` is what the socket will still deliver; each entry of `sizes` is the number
   * of bytes the next read finds, or zero for one that times out.
   */
  datatype Reader = Reader(mem: string, elements: seq<int>, config: Config, instr: nat, start: nat, end: nat,
                           incoming: string, sizes: seq<nat>)

  predicate Sane(m: Reader) {
    && |m.mem| == BUFFER_SIZE && |m.elements| == MAX_ELEMENTS && m.config.count <= MAX_ELEMENTS
    && m.instr <= m.start <= m.end <= BUFFER_SIZE
  }

  /** The bytes in memory that are not parsed. */
  function Data(m: Reader): string
    requires m.start <= m.end <= |m.mem|
  {
    m.mem[m.start..m.end]
  }

  function WithNul(mem: string, at: nat, nul: Option<nat>): string
    requires nul.Some? ==> at + nul.value < |mem|
  {
    if nul.Some? then mem[at + nul.value := NUL] else mem
  }

  function WithElement(elements: seq<int>, count: nat, start: nat, element: Option<nat>): seq<int> {
    if element.Some? && count < |elements| then elements[count := start + element.value] else elements
  }

  function After(m: Reader, s: Step): Reader
    requires s.nul.Some? ==> m.start + s.nul.value < |m.mem|
  {
    m.(mem := WithNul(m.mem, m.start, s.nul), elements := WithElement(m.elements, m.config.count, m.start, s.element),
       config := s.config, start := m.start + s.parsed)
  }

  /** An append to the parser of what is in memory. */
  function Taken(m: Reader): Reader
    requires Sane(m)
  {
    After(m, AppendSpec(m.config, Data(m)))
  }

  /** The elements found so far, when the buffer moves by an offset. */
  function Moved(elements: seq<int>, count: nat, offset: nat): seq<int> {
    seq(|elements|, k requires 0 <= k < |elements| => if k < count then elements[k] - offset else elements[k])
  }

  function Shifted(m: Reader): Reader
    requires Sane(m)
  {
    m.(mem := m.mem[m.instr..m.end] + m.mem[m.end - m.instr..], elements := Moved(m.elements, m.config.count, m.instr),
       instr := 0, start := m.start - m.instr, end := m.end - m.instr)
  }

  /** Move the instruction to the start of the buffer if there is no room behind it. */
  function MadeRoom(m: Reader): Reader
    requires Sane(m)
  {
    if m.end == BUFFER_SIZE then Shifted(m) else m
  }

  /** How many bytes a read returns: at least one unless the stream has ended, at most as many as there is room for. */
  function ReadSize(sizes: seq<nat>, room: nat, available: nat): nat {
    Min(if sizes == [] then 1 else sizes[0], Min(room, available))
  }

  predicate TimesOut(sizes: seq<nat>) { sizes != [] && sizes[0] == 0 }

  function Later(sizes: seq<nat>): seq<nat> { if sizes == [] then [] else sizes[1..] }

  function Filled(m: Reader, data: string): Reader
    requires Sane(m) && m.end + |data| <= BUFFER_SIZE && |data| <= |m.incoming|
  {
    m.(mem := m.mem[..m.end] + data + m.mem[m.end + |data|..], end := m.end + |data|,
       incoming := m.incoming[|data|..], sizes := Later(m.sizes))
  }

  function Refilled(m: Reader): Reader
    requires Sane(m)
  {
    Filled(m, m.incoming[..ReadSize(m.sizes, BUFFER_SIZE - m.end, |m.incoming|)])
  }

  /** Read, or why nothing was. */
  datatype Outcome = Done | Malformed | Full | TimedOut | Closed

  /** Read more, if there is room or can be made: what becomes of the reader, and the reason to stop if there is one. */
  function More(m: Reader): (r: (Reader, Option<Outcome>))
    requires Sane(m)
    ensures Sane(r.0) && (r.1.None? ==> Measure(r.0) < Measure(m))
  {
    if m.end == BUFFER_SIZE && m.instr == 0 then (m, Some(Full))
    else
      var ready := MadeRoom(m);
      if TimesOut(m.sizes) then (ready.(sizes := Later(m.sizes)), Some(TimedOut))
      else if m.incoming == "" then (ready.(sizes := Later(m.sizes)), Some(Closed))
      else (Refilled(ready), None)
  }

  /** One turn of the loop of guac_parser_read. */
  function Turn(m: Reader): (r: (Reader, Option<Outcome>))
    requires Sane(m)
    ensures Sane(r.0) && (r.1.None? ==> Measure(r.0) < Measure(m))
  {
    var taken := Taken(m);
    if taken.start > m.start then (taken, None) else More(taken)
  }

  /** Every turn parses or receives something. */
  function Measure(m: Reader): nat
    requires Sane(m)
  {
    2 * |m.incoming| + (m.end - m.start)
  }

  /** The loop of guac_parser_read. */
  function Loop(m: Reader): (r: (Reader, Outcome))
    requires Sane(m)
    ensures Sane(r.0)
    decreases Measure(m)
  {
    if m.config.state == COMPLETE then (m, Done)
    else if m.config.state == ERROR then (m, Malformed)
    else
      var turn := Turn(m);
      if turn.1.Some? then (turn.0, turn.1.value) else Loop(turn.0)
  }

  /** guac_parser_reset for a parser that has completed an instruction. */
  function Ready(m: Reader): Reader {
    if m.config.state == COMPLETE then m.(config := Config(LENGTH, 0, 0)) else m
  }

  /** guac_parser_read: the bounds of what is not parsed are stored only when an instruction was read. */
  function ReadSpec(m: Reader): (r: (Reader, Outcome))
    requires Sane(m) && m.instr == m.start
    ensures Sane(r.0) && r.0.instr == r.0.start
  {
    var r := Loop(Ready(m));
    (if r.1 == Done then r.0.(instr := r.0.start) else r.0.(instr := m.start, start := m.start, end := m.end), r.1)
  }

  // ----- in step with a printed instruction

  /** Number of separators consumed. */
  function Passed(c: Config): int {
    if c.state == CONTENT then c.count - 1 else c.count
  }

  /**
   * Of the text from its g-th character on, `past` is what is in memory once it is consumed: the parts of elements as
   * they were, and a NUL in place of each separator.
   */
  ghost predicate Stored(f: Text, g: nat, past: string)
  {
    && (forall k, j :: 0 <= k < |f.list| && f.content[k] <= j < f.end[k] && g <= j < g + |past| ==>
      past[j - g] == f.text[j])
    && (forall k :: 0 <= k < |f.list| && g <= f.end[k] < g + |past| ==> past[f.end[k] - g] == NUL)
  }

  /** Elements from b on lie behind position g. */
  ghost predicate Behind(f: Text, g: nat, b: nat) {
    forall k :: b <= k < |f.list| ==> g < f.content[k]
  }

  /**
   * The instruction expected, and what comes after it. The first g characters were consumed by earlier calls, which
   * found b elements in them.
   */
  datatype Target = Target(f: Text, after: string, g: nat, b: nat)

  /** The parser is at position p, and its elements, but for those found by earlier calls, point to where they are. */
  ghost predicate Placed(f: Text, b: nat, elements: seq<int>, c: Config, from: int, p: nat) {
    && p <= |f.text| && At(f, p, c) && c.count <= |f.list| < MAX_ELEMENTS && |elements| == MAX_ELEMENTS
    && forall k :: b <= k < c.count ==> elements[k] == from + f.content[k]
  }

  /** The bytes this call has consumed, as they are in memory now. */
  function Past(m: Reader): string
    requires Sane(m)
  {
    m.mem[m.instr..m.start]
  }

  /** How much of the text is consumed. */
  function Reached(t: Target, m: Reader): nat
    requires Sane(m)
  {
    t.g + (m.start - m.instr)
  }

  /**
   * What is left of the text, and what comes after it, is in memory up to `end` and still to come in `incoming`;
   * what was consumed of it is stored.
   */
  ghost predicate InStep(t: Target, m: Reader) {
    && Sane(m) && |t.f.text| <= BUFFER_SIZE + t.g && Behind(t.f, t.g, t.b)
    && Placed(t.f, t.b, m.elements, m.config, m.instr - t.g, Reached(t, m))
    && Stored(t.f, t.g, Past(m))
    && Data(m) + m.incoming == (t.f.text + t.after)[Reached(t, m)..]
  }

  /** At most the beginning of a character is left. */
  predicate Starving(m: Reader)
    requires Sane(m)
  {
    m.start == m.end || (m.config.state == CONTENT && m.end - m.start < CharSize(m.mem[m.start]))
  }

  /** The same bytes, in memory and to come, moved perhaps. */
  ghost predicate Alike(m: Reader, m': Reader) {
    && Sane(m) && Sane(m') && m'.config == m.config && Past(m') == Past(m)
    && Data(m') + m'.incoming == Data(m) + m.incoming
    && forall k :: 0 <= k < m.config.count ==> m'.elements[k] - m'.instr == m.elements[k] - m.instr
  }
}
