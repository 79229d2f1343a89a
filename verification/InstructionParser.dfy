/** DecodeInstruction of GuacInstructionParser.cpp. */
module InstructionParser {
  import opened Wire

  const MAX_GUAC_ELEMENT_LENGTH := 3450
  const MAX_GUAC_FRAME_LENGTH := 6144

  datatype Next = Malformed | Last(content: string) | More(content: string, pos: nat)

  /** One turn of the loop: the element at `pos`, and where the next one starts if there is one. */
  function NextElement(input: string, pos: nat, maxElement: nat): (n: Next)
    requires pos <= |input|
    ensures !n.Malformed? ==> |n.content| < maxElement
    ensures n.More? ==> pos < n.pos <= |input|
  {
    match ExtractUnsigned(input, pos)
    case None => Malformed
    case Some((length, p)) =>
      if length >= maxElement || length >= |input| || p >= |input| || input[p] != '.' then Malformed
      else
        var stop := p + 1 + length;
        if stop >= |input| then Malformed  // content cut short, or no separator
        else if input[stop] == ';' then Last(input[p + 1..stop])
        else if input[stop] == ',' then More(input[p + 1..stop], stop + 1)
        else Malformed
  }

  function Prepend(head: seq<string>, tail: Option<seq<string>>): Option<seq<string>> {
    match tail case None => None case Some(rest) => Some(head + rest)
  }

  /** The elements from `pos` up to the terminating semicolon; None for anything malformed. */
  function ElementsFrom(input: string, pos: nat, maxElement: nat): Option<seq<string>>
    requires pos <= |input|
    decreases |input| - pos
  {
    match NextElement(input, pos, maxElement)
    case Malformed => None
    case Last(s) => Some([s])
    case More(s, next) => Prepend([s], ElementsFrom(input, next, maxElement))
  }

  /** What an instruction decodes to; the empty list when it is refused. */
  function Decoded(input: string): seq<string> {
    if input == "" || input[|input| - 1] != ';' || |input| >= MAX_GUAC_FRAME_LENGTH then []
    else
      match ElementsFrom(input, 0, MAX_GUAC_ELEMENT_LENGTH)
      case None => []
      case Some(list) => list
  }

  lemma PrependNothing(tail: Option<seq<string>>)
    ensures Prepend([], tail) == tail
  {
    assert tail.Some? ==> [] + tail.value == tail.value;
  }

  lemma PrependMore(head: seq<string>, s: string, tail: Option<seq<string>>)
    ensures Prepend(head, Prepend([s], tail)) == Prepend(head + [s], tail)
  {
    assert tail.Some? ==> head + ([s] + tail.value) == head + [s] + tail.value;
  }

  /** The reads of one turn of the loop: number, period, content, separator. */
  method ReadElement(input: string, pos: nat) returns (n: Next)
    requires pos <= |input|
    ensures n == NextElement(input, pos, MAX_GUAC_ELEMENT_LENGTH)
  {
    var number := ExtractUnsigned(input, pos);
    if number.None? { return Malformed; }
    var (length, p) := number.value;
    if length >= MAX_GUAC_ELEMENT_LENGTH || length >= |input| { return Malformed; }
    if p == |input| || input[p] != '.' { return Malformed; }
    var stop := p + 1 + length;
    if stop >= |input| { return Malformed; }
    var content := input[p + 1..stop];
    if input[stop] != ',' {
      if input[stop] == ';' { return Last(content); }
      return Malformed;
    }
    return More(content, stop + 1);
  }

  /** DecodeInstruction, reading an istringstream. */
  method DecodeInstruction(input: string) returns (output: seq<string>)
    ensures output == Decoded(input)
  {
    output := [];
    if input == "" || input[|input| - 1] != ';' {
      return;
    }
    if |input| >= MAX_GUAC_FRAME_LENGTH {
      return;
    }
    var pos := 0;
    ghost var all := ElementsFrom(input, 0, MAX_GUAC_ELEMENT_LENGTH);
    PrependNothing(all);
    while true
      invariant pos <= |input|
      invariant all == Prepend(output, ElementsFrom(input, pos, MAX_GUAC_ELEMENT_LENGTH))
      decreases |input| - pos
    {
      var next := ReadElement(input, pos);
      if next.Malformed? { return []; }
      output := output + [next.content];
      if next.Last? { return; }
      PrependMore(output[..|output| - 1], next.content, ElementsFrom(input, next.pos, MAX_GUAC_ELEMENT_LENGTH));
      pos := next.pos;
    }
  }

  // ----- round trip

  lemma ElementParts(s: string)
    ensures var e, n := Element(s), |Decimal(|s|)|;
      |e| == n + 1 + |s| && e[..n] == Decimal(|s|) && e[n] == '.' && e[n + 1..] == s
  {}

  lemma SliceOfSlice(input: string, from: nat, to: nat, a: nat, b: nat)
    requires from <= to <= |input| && a <= b <= to - from
    ensures input[from..to][a..b] == input[from + a..from + b]
  {
    var whole, part := input[from..to], input[from + a..from + b];
    assert forall i :: 0 <= i < b - a ==> whole[a..b][i] == part[i];
  }

  lemma Follows(input: string, pos: nat, e: string, rest: string)
    requires pos <= |input| && input[pos..] == e + rest
    ensures pos + |e| + |rest| == |input| && input[pos..pos + |e|] == e && input[pos + |e|..] == rest
  {
    assert input[pos..pos + |e|] == input[pos..][..|e|];
    assert input[pos + |e|..] == input[pos..][|e|..];
  }

  lemma ElementPlaced(input: string, pos: nat, s: string, p: nat, stop: nat)
    requires p == pos + |Decimal(|s|)| && stop == pos + |Element(s)| <= |input| && input[pos..stop] == Element(s)
    ensures p < stop && input[pos..p] == Decimal(|s|) && input[p] == '.' && stop == p + 1 + |s| &&
      input[p + 1..stop] == s
  {
    ElementParts(s);
    var number, e := Decimal(|s|), Element(s);
    SliceOfSlice(input, pos, stop, 0, |number|);
    SliceOfSlice(input, pos, stop, |number| + 1, |e|);
    assert e[0..|number|] == number && e[|number| + 1..|e|] == s;
    assert input[p] == e[|number|];
  }

  lemma NextIs(input: string, pos: nat, maxElement: nat, length: nat, p: nat)
    requires pos <= |input| && ExtractUnsigned(input, pos) == Some((length, p))
    requires length < maxElement && p + 1 + length < |input| && input[p] == '.'
    ensures var stop := p + 1 + length;
      && (input[stop] == ';' ==> NextElement(input, pos, maxElement) == Last(input[p + 1..stop]))
      && (input[stop] == ',' ==> NextElement(input, pos, maxElement) == More(input[p + 1..stop], stop + 1))
  {}

  /** Where a printed element stands in the input, followed by a separator, it is read. */
  lemma ElementRead(input: string, pos: nat, s: string, maxElement: nat)
    requires |s| < maxElement && |s| < ULLONG_LIMIT
    requires pos + |Element(s)| < |input| && input[pos..pos + |Element(s)|] == Element(s)
    ensures var stop := pos + |Element(s)|;
      && (input[stop] == ';' ==> NextElement(input, pos, maxElement) == Last(s))
      && (input[stop] == ',' ==> NextElement(input, pos, maxElement) == More(s, stop + 1))
  {
    var p := pos + |Decimal(|s|)|;
    ElementPlaced(input, pos, s, p, pos + |Element(s)|);
    ExtractDecimal(input, pos, |s|);
    NextIs(input, pos, maxElement, |s|, p);
  }

  /** Splitting off the first printed element. */
  lemma EncodeFirst(list: seq<string>)
    requires list != []
    ensures Encode(list) == Element(list[0]) + if |list| == 1 then ";" else "," + Encode(list[1..])
  {}

  /** The first printed element, and what follows it in the input. */
  lemma FirstPrinted(input: string, pos: nat, list: seq<string>, maxElement: nat) returns (next: nat)
    requires list != [] && pos <= |input| && input[pos..] == Encode(list)
    requires |list[0]| < maxElement && |list[0]| < ULLONG_LIMIT
    ensures |list| == 1 ==> NextElement(input, pos, maxElement) == Last(list[0])
    ensures |list| > 1 ==> pos < next <= |input| && input[next..] == Encode(list[1..])
    ensures |list| > 1 ==> NextElement(input, pos, maxElement) == More(list[0], next)
  {
    var s := list[0];
    EncodeFirst(list);
    var stop := pos + |Element(s)|;
    var rest := if |list| == 1 then ";" else "," + Encode(list[1..]);
    Follows(input, pos, Element(s), rest);
    assert input[stop] == rest[0];
    ElementRead(input, pos, s, maxElement);
    next := stop + 1;
    if |list| > 1 {
      Follows(input, stop, ",", Encode(list[1..]));
    }
  }

  lemma ElementsUnfold(input: string, pos: nat, maxElement: nat, s: string, next: nat)
    requires pos <= |input| && next <= |input| && NextElement(input, pos, maxElement) == More(s, next)
    ensures ElementsFrom(input, pos, maxElement) == Prepend([s], ElementsFrom(input, next, maxElement))
  {}

  lemma ElementsMore(input: string, pos: nat, maxElement: nat, s: string, next: nat, rest: seq<string>)
    requires pos <= |input| && next <= |input| && NextElement(input, pos, maxElement) == More(s, next)
    requires ElementsFrom(input, next, maxElement) == Some(rest)
    ensures ElementsFrom(input, pos, maxElement) == Some([s] + rest)
  {
    ElementsUnfold(input, pos, maxElement, s, next);
  }

  lemma ElementsEnd(input: string, pos: nat, maxElement: nat, s: string)
    requires pos <= |input| && NextElement(input, pos, maxElement) == Last(s)
    ensures ElementsFrom(input, pos, maxElement) == Some([s])
  {}

  lemma {:induction false} ElementsPrinted(input: string, pos: nat, list: seq<string>, maxElement: nat)
    requires list != [] && pos <= |input| && input[pos..] == Encode(list)
    requires forall s :: s in list ==> |s| < maxElement && |s| < ULLONG_LIMIT
    ensures ElementsFrom(input, pos, maxElement) == Some(list)
    decreases |list|
  {
    var s, rest := list[0], list[1..];
    assert s in list && list == [s] + rest;
    var next := FirstPrinted(input, pos, list, maxElement);
    if rest == [] {
      ElementsEnd(input, pos, maxElement, s);
      assert list == [s];
    } else {
      ElementsPrinted(input, next, rest, maxElement);
      ElementsMore(input, pos, maxElement, s, next, rest);
    }
  }

  lemma {:induction false} ElementsBounded(input: string, pos: nat, maxElement: nat)
    requires pos <= |input|
    ensures var r := ElementsFrom(input, pos, maxElement);
      r.Some? ==> r.value != [] && forall s :: s in r.value ==> |s| < maxElement
    decreases |input| - pos
  {
    var n := NextElement(input, pos, maxElement);
    if n.More? {
      ElementsBounded(input, n.pos, maxElement);
      ElementsUnfold(input, pos, maxElement, n.content, n.pos);
    }
  }

  /** The decoder inverts the printer on everything within its limits. */
  lemma DecodeInvertsEncode(list: seq<string>)
    requires list != [] && |Encode(list)| < MAX_GUAC_FRAME_LENGTH
    requires forall s :: s in list ==> |s| < MAX_GUAC_ELEMENT_LENGTH
    ensures Decoded(Encode(list)) == list
  {
    ElementsPrinted(Encode(list), 0, list, MAX_GUAC_ELEMENT_LENGTH);
  }

  /** A receiver without size limits reads back every printed list. */
  lemma ReadsBack(list: seq<string>, maxElement: nat)
    requires list != [] && forall s :: s in list ==> |s| < maxElement && |s| < ULLONG_LIMIT
    ensures ElementsFrom(Encode(list), 0, maxElement) == Some(list)
  {
    ElementsPrinted(Encode(list), 0, list, maxElement);
  }

  /** Printing is inverted exactly within the decoder's limits. */
  lemma DecodeInvertsExactly(list: seq<string>)
    requires list != [] && forall s :: s in list ==> |s| < ULLONG_LIMIT
    ensures Decoded(Encode(list)) == list <==>
      |Encode(list)| < MAX_GUAC_FRAME_LENGTH && forall s :: s in list ==> |s| < MAX_GUAC_ELEMENT_LENGTH
  {
    if |Encode(list)| < MAX_GUAC_FRAME_LENGTH && forall s :: s in list ==> |s| < MAX_GUAC_ELEMENT_LENGTH {
      DecodeInvertsEncode(list);
    } else {
      ElementsBounded(Encode(list), 0, MAX_GUAC_ELEMENT_LENGTH);
    }
  }
}
