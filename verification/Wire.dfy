/**
 * The text layer: instructions are lists of length-prefixed elements, "3.foo,2.ba;".
 * A char stands for the byte with its code.
 */
module Wire {

  datatype Option<T> = None | Some(value: T)

  // ----- decimal numbers, as std::to_string writes them

  predicate IsDigit(c: char) { '0' <= c <= '9' }

  function DigitChar(d: nat): (c: char)
    requires d < 10
    ensures IsDigit(c)
  {
    '0' + d as char
  }

  function DigitValue(c: char): (d: nat)
    requires IsDigit(c)
    ensures d < 10 && DigitChar(d) == c
  {
    (c - '0') as nat
  }

  predicate AllDigits(s: string) { forall i :: 0 <= i < |s| ==> IsDigit(s[i]) }

  function Decimal(n: nat): (s: string)
    ensures |s| > 0 && AllDigits(s)
  {
    if n < 10 then [DigitChar(n)] else Decimal(n / 10) + [DigitChar(n % 10)]
  }

  function Value(s: string): nat
    requires AllDigits(s)
  {
    if s == [] then 0 else Value(s[..|s| - 1]) * 10 + DigitValue(s[|s| - 1])
  }

  lemma {:induction false} DecimalValue(n: nat)
    ensures Value(Decimal(n)) == n
  {
    var s := Decimal(n);
    if n >= 10 {
      assert s[..|s| - 1] == Decimal(n / 10);
      DecimalValue(n / 10);
    } else {
      assert s[..0] == [];
    }
  }

  // ----- the printer

  function Element(s: string): string {
    Decimal(|s|) + "." + s
  }

  function Elements(list: seq<string>): string
    requires list != []
  {
    if |list| == 1 then Element(list[0]) else Element(list[0]) + "," + Elements(list[1..])
  }

  function Encode(list: seq<string>): string
    requires list != []
  {
    Elements(list) + ";"
  }

  /** Printing one more element at the end. */
  lemma {:induction false} ElementsSnoc(list: seq<string>, s: string)
    requires list != []
    ensures Elements(list + [s]) == Elements(list) + "," + Element(s)
  {
    var longer := list + [s];
    if |list| == 1 {
      assert longer[1..] == [s];
    } else {
      assert longer[1..] == list[1..] + [s];
      ElementsSnoc(list[1..], s);
    }
  }

  // ----- reading a number: istream >> unsigned long long

  const ULLONG_LIMIT := 0x1_0000_0000_0000_0000

  predicate IsSpace(c: char) { c == ' ' || '\t' <= c <= '\r' }

  function SkipSpaces(s: string, pos: nat): (p: nat)
    requires pos <= |s|
    ensures pos <= p <= |s|
    decreases |s| - pos
  {
    if pos < |s| && IsSpace(s[pos]) then SkipSpaces(s, pos + 1) else pos
  }

  /** End of the run of digits that starts at pos. */
  function DigitsEnd(s: string, pos: nat): (p: nat)
    requires pos <= |s|
    ensures pos <= p <= |s| && AllDigits(s[pos..p])
    ensures p < |s| ==> !IsDigit(s[p])
    decreases |s| - pos
  {
    if pos < |s| && IsDigit(s[pos]) then
      var p := DigitsEnd(s, pos + 1);
      assert s[pos..p] == [s[pos]] + s[pos + 1..p];
      p
    else pos
  }

  /** The number and the position behind it, or None when the stream fails. A minus sign negates modulo 2^64. */
  function ExtractUnsigned(s: string, pos: nat): (r: Option<(nat, nat)>)
    requires pos <= |s|
    ensures r.Some? ==> pos < r.value.1 <= |s|
  {
    var start := SkipSpaces(s, pos);
    var signed := start < |s| && (s[start] == '+' || s[start] == '-');
    var first := if signed then start + 1 else start;
    var end := DigitsEnd(s, first);
    if end == first then None
    else
      var value := Value(s[first..end]);
      if value >= ULLONG_LIMIT then None
      else Some((if signed && s[start] == '-' then (ULLONG_LIMIT - value) % ULLONG_LIMIT else value, end))
  }

  lemma {:induction false} DigitsEndStops(s: string, pos: nat, end: nat)
    requires pos <= end < |s| && AllDigits(s[pos..end]) && !IsDigit(s[end])
    ensures DigitsEnd(s, pos) == end
    decreases end - pos
  {
    if pos < end {
      assert s[pos..end][0] == s[pos];
      assert s[pos + 1..end] == s[pos..end][1..];
      DigitsEndStops(s, pos + 1, end);
    }
  }

  /** A printed number followed by a period is read back. */
  lemma ExtractDecimal(s: string, pos: nat, n: nat)
    requires n < ULLONG_LIMIT
    requires pos + |Decimal(n)| < |s| && s[pos..pos + |Decimal(n)|] == Decimal(n)
    requires s[pos + |Decimal(n)|] == '.'
    ensures ExtractUnsigned(s, pos) == Some((n, pos + |Decimal(n)|))
  {
    var end := pos + |Decimal(n)|;
    assert s[pos] == Decimal(n)[0];
    assert IsDigit(s[pos]);
    assert SkipSpaces(s, pos) == pos;
    DigitsEndStops(s, pos, end);
    DecimalValue(n);
  }
}
