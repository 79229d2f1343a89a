/** unicode.cpp. A char stands for the byte with its code. */
module Utf8 {

  const NUL := 0 as char

  /** guac_utf8_charsize: the size of a character in bytes, from its first byte. */
  function CharSize(c: char): (n: nat)
    ensures 1 <= n <= 4
  {
    if c <= 0x7F as char then 1
    else if 0xC0 as char <= c <= 0xDF as char then 2
    else if 0xE0 as char <= c <= 0xEF as char then 3
    else if 0xF0 as char <= c <= 0xF7 as char then 4
    else 1
  }

  /** Number of characters; a character cut short at the end counts. */
  function CharCount(s: string): nat {
    if s == "" then 0
    else if CharSize(s[0]) >= |s| then 1
    else 1 + CharCount(s[CharSize(s[0])..])
  }

  /** The string consists of whole characters. */
  predicate Whole(s: string) {
    s == "" || (CharSize(s[0]) <= |s| && Whole(s[CharSize(s[0])..]))
  }

  predicate NoNul(s: string) {
    forall i :: 0 <= i < |s| ==> s[i] != NUL
  }

  /** Dropping the first of several whole characters. */
  lemma WholeStep(s: string)
    requires Whole(s) && s != ""
    ensures CharSize(s[0]) <= |s| && Whole(s[CharSize(s[0])..])
    ensures CharCount(s) == 1 + CharCount(s[CharSize(s[0])..])
  {}

  /** Number of characters from byte i on, or -1 if the last of them is cut short. */
  function WholeCount(s: string, i: nat): (n: int)
    requires i <= |s|
    ensures -1 <= n && (n == 0 <==> i == |s|)
    decreases |s| - i
  {
    if i == |s| then 0
    else if i + CharSize(s[i]) > |s| then -1
    else
      var rest := WholeCount(s, i + CharSize(s[i]));
      if rest < 0 then -1 else rest + 1
  }

  lemma {:induction false} WholeCountIsCharCount(s: string, i: nat)
    requires i <= |s| && Whole(s[i..])
    ensures WholeCount(s, i) == CharCount(s[i..])
    decreases |s| - i
  {
    if i < |s| {
      var left, size := s[i..], CharSize(s[i]);
      WholeStep(left);
      assert left[0] == s[i] && left[size..] == s[i + size..];
      WholeCountIsCharCount(s, i + size);
    }
  }

  lemma {:induction false} CountAtMostLength(s: string)
    ensures CharCount(s) <= |s|
    ensures s != "" ==> CharCount(s) > 0
    decreases |s|
  {
    if s != "" && CharSize(s[0]) < |s| {
      CountAtMostLength(s[CharSize(s[0])..]);
    }
  }

  /** In ASCII characters and bytes are the same. */
  lemma {:induction false} AsciiCount(s: string)
    requires forall i :: 0 <= i < |s| ==> s[i] <= 0x7F as char
    ensures CharCount(s) == |s| && Whole(s)
    decreases |s|
  {
    if s != "" {
      AsciiCount(s[1..]);
    }
  }

  /** The number of characters from byte n on. */
  function Left(str: string, n: nat): nat { if n <= |str| then CharCount(str[n..]) else 0 }

  lemma CountFrom(str: string, i: nat)
    requires i < |str|
    ensures Left(str, i) == 1 + Left(str, i + CharSize(str[i]))
  {
    var rest, next := str[i..], i + CharSize(str[i]);
    assert rest[0] == str[i];
    if next <= |str| { assert rest[CharSize(rest[0])..] == str[next..]; }
  }

  lemma CountEnds(str: string, n: nat)
    requires n >= |str|
    ensures Left(str, n) == 0 && Left(str, 0) == CharCount(str)
  {
    assert str[0..] == str;
  }

  /** guac_utf8_strlen on the bytes before the terminating NUL. */
  method Strlen(str: string) returns (length: nat)
    ensures length == CharCount(str)
  {
    length := 0;
    var skip := 0;
    var i := 0;
    CountEnds(str, |str|);
    while i < |str|
      invariant i <= |str| && skip >= 0
      invariant CharCount(str) == length + Left(str, i + skip)
    {
      if skip > 0 {
        skip := skip - 1;
      } else {
        CountFrom(str, i);
        skip := CharSize(str[i]) - 1;
        length := length + 1;
      }
      i := i + 1;
    }
    CountEnds(str, i + skip);
  }

  // ----- single code points

  /** The bytes of a code point: six bits in each trailing byte, the rest and the size mark in the first. */
  function Bytes(codepoint: int): seq<int> {
    if codepoint <= 0x7F then [codepoint % 256]
    else if codepoint <= 0x7FF then [0xC0 + codepoint / 64, 0x80 + codepoint % 64]
    else if codepoint <= 0xFFFF then [0xE0 + codepoint / 4096, 0x80 + codepoint / 64 % 64, 0x80 + codepoint % 64]
    else if codepoint <= 0x1FFFFF then
      [0xF0 + codepoint / 262144, 0x80 + codepoint / 4096 % 64, 0x80 + codepoint / 64 % 64, 0x80 + codepoint % 64]
    else ['?' as int]
  }

  /** guac_utf8_write: fills `utf8` from the back, nothing if there is no room. */
  method Write(codepoint: int, utf8: array<int>, length: int) returns (written: int)
    requires length <= utf8.Length
    modifies utf8
    ensures |Bytes(codepoint)| > length ==> written == 0 && utf8[..] == old(utf8[..])
    ensures |Bytes(codepoint)| <= length ==>
      written == |Bytes(codepoint)| && utf8[..] == Bytes(codepoint) + old(utf8[written..])
  {
    if length <= 0 {
      return 0;
    }
    var mask, bytes;
    if codepoint <= 0x007F {
      mask, bytes := 0x00, 1;
    } else if codepoint <= 0x7FF {
      mask, bytes := 0xC0, 2;
    } else if codepoint <= 0xFFFF {
      mask, bytes := 0xE0, 3;
    } else if codepoint <= 0x1FFFFF {
      mask, bytes := 0xF0, 4;
    } else {
      utf8[0] := '?' as int;
      return 1;
    }
    if bytes > length {
      return 0;
    }
    WriteBytes(codepoint, utf8, mask, bytes);
    BytesAre(codepoint);
    return bytes;
  }

  /** Six bits to each trailing byte, from the back, and the rest to the first. */
  method WriteBytes(codepoint: int, utf8: array<int>, mask: int, bytes: nat)
    requires 0 < bytes <= utf8.Length
    modifies utf8
    ensures utf8[0] == (mask + Quotient(codepoint, bytes - 1)) % 256
    ensures forall j :: 0 < j < bytes ==> utf8[j] == 0x80 + Quotient(codepoint, bytes - 1 - j) % 64
    ensures forall j :: bytes <= j < utf8.Length ==> utf8[j] == old(utf8[j])
  {
    var at, left := bytes - 1, codepoint;
    for i := 1 to bytes
      invariant at == bytes - i && left == Quotient(codepoint, i - 1)
      invariant forall j :: at < j < bytes ==> utf8[j] == 0x80 + Quotient(codepoint, bytes - 1 - j) % 64
      invariant forall j :: bytes <= j < utf8.Length ==> utf8[j] == old(utf8[j])
    {
      utf8[at] := 0x80 + left % 64;
      at := at - 1;
      left := left / 64;
    }
    utf8[0] := (mask + left) % 256;
  }

  /** What is left of a code point when n times six bits are shifted out. */
  function Quotient(codepoint: int, n: nat): int { if n == 0 then codepoint else Quotient(codepoint, n - 1) / 64 }

  /** Shifting out six bits at a time. */
  lemma Quotients(n: nat)
    ensures Quotient(n, 0) == n && Quotient(n, 1) == n / 64
    ensures Quotient(n, 2) == n / 4096 && Quotient(n, 3) == n / 262144
  {
    Halves(n);
    assert Quotient(n, 1) == Quotient(n, 0) / 64;
    assert Quotient(n, 2) == Quotient(n, 1) / 64;
  }

  /** What is left for the first byte fits beside its mark. */
  lemma FirstBits(n: nat)
    requires n <= 0x1FFFFF
    ensures n <= 0x7FF ==> n / 64 < 32
    ensures n <= 0xFFFF ==> n / 4096 < 16
    ensures n / 262144 < 8
  {}

  lemma BytesAre(codepoint: int)
    requires codepoint <= 0x1FFFFF
    ensures var all := Bytes(codepoint); var n := |all|;
      && all[0] == ((if n == 1 then 0 else if n == 2 then 0xC0 else if n == 3 then 0xE0 else 0xF0)
                    + Quotient(codepoint, n - 1)) % 256
      && forall j :: 0 < j < n ==> all[j] == 0x80 + Quotient(codepoint, n - 1 - j) % 64
  {
    var all := Bytes(codepoint);
    if codepoint > 0x7F {
      Quotients(codepoint);
      FirstBits(codepoint);
      assert all[0] < 256;
    }
  }

  function CharSizeOf(b: int): nat {
    if 0 <= b <= 255 then CharSize(b as char) else 1
  }

  /** The bits of a first byte that belong to the code point. */
  function Initial(b: int): int {
    if b < 0x80 then b else if b <= 0xDF then b % 32 else if b <= 0xEF then b % 16 else b % 8
  }

  function Trailing(result: int, rest: seq<int>): int
    decreases |rest|
  {
    if rest == [] then result else Trailing(result, rest[..|rest| - 1]) * 64 + rest[|rest| - 1] % 64
  }

  /** Size and code point of the first character; size 0 if bytes are missing. */
  function First(utf8: seq<int>): (int, int) {
    if utf8 == [] then (0, 0)
    else
      var bytes := CharSizeOf(utf8[0]);
      if utf8[0] >= 0x80 && bytes == 1 then (1, 0xFFFD)
      else if bytes > |utf8| then (0, 0)
      else (bytes, Trailing(Initial(utf8[0]), utf8[1..bytes]))
  }

  /** guac_utf8_read */
  method Read(utf8: seq<int>) returns (size: int, codepoint: int)
    ensures size == First(utf8).0 && (size > 0 ==> codepoint == First(utf8).1)
  {
    codepoint := 0;
    if |utf8| <= 0 {
      return 0, codepoint;
    }
    var initial := utf8[0];
    var bytes := CharSizeOf(initial);
    if initial >= 0x80 && bytes == 1 {
      return 1, 0xFFFD;
    }
    if bytes > |utf8| {
      return 0, codepoint;
    }
    var result := Initial(initial);
    for i := 1 to bytes
      invariant result == Trailing(Initial(initial), utf8[1..i])
    {
      assert utf8[1..i + 1][..i - 1] == utf8[1..i];
      result := result * 64 + utf8[i] % 64;
    }
    return bytes, result;
  }

  lemma TrailingStep(result: int, rest: seq<int>, b: int, bits: int)
    requires b == 0x80 + bits && 0 <= bits < 64
    ensures Trailing(result, rest + [b]) == Trailing(result, rest) * 64 + bits
  {
    assert (rest + [b])[..|rest|] == rest;
  }

  lemma Halves(n: nat)
    ensures n / 4096 == n / 64 / 64 && n / 262144 == n / 64 / 64 / 64
  {}

  lemma TrailingTwo(i: int, b: seq<int>, x: int, y: int)
    requires b == [0x80 + x, 0x80 + y] && 0 <= x < 64 && 0 <= y < 64
    ensures Trailing(i, b) == (i * 64 + x) * 64 + y
  {
    TrailingStep(i, [], b[0], x);
    TrailingStep(i, [b[0]], b[1], y);
    assert [] + [b[0]] == [b[0]] && [b[0]] + [b[1]] == b;
  }

  lemma TrailingThree(i: int, b: seq<int>, x: int, y: int, z: int)
    requires b == [0x80 + x, 0x80 + y, 0x80 + z] && 0 <= x < 64 && 0 <= y < 64 && 0 <= z < 64
    ensures Trailing(i, b) == ((i * 64 + x) * 64 + y) * 64 + z
  {
    TrailingTwo(i, [b[0], b[1]], x, y);
    TrailingStep(i, [b[0], b[1]], b[2], z);
    assert [b[0], b[1]] + [b[2]] == b;
  }

  lemma InitialBits(n: nat)
    ensures n < 32 ==> Initial(0xC0 + n) == n
    ensures n < 16 ==> Initial(0xE0 + n) == n
    ensures n < 8 ==> Initial(0xF0 + n) == n
  {}

  /** The trailing bytes of a code point restore it. */
  lemma TrailingBytes(codepoint: int)
    requires 0x7F < codepoint <= 0x1FFFFF
    ensures Trailing(Initial(Bytes(codepoint)[0]), Bytes(codepoint)[1..]) == codepoint
  {
    var b := Bytes(codepoint);
    Halves(codepoint);
    FirstBits(codepoint);
    if |b| == 2 {
      InitialBits(codepoint / 64);
      TrailingStep(codepoint / 64, [], b[1], codepoint % 64);
      assert b[1..] == [] + [b[1]];
    } else if |b| == 3 {
      InitialBits(codepoint / 4096);
      TrailingTwo(codepoint / 4096, b[1..], codepoint / 64 % 64, codepoint % 64);
    } else {
      InitialBits(codepoint / 262144);
      TrailingThree(codepoint / 262144, b[1..], codepoint / 4096 % 64, codepoint / 64 % 64, codepoint % 64);
    }
  }

  /** What is written is read back, whatever follows it. */
  lemma ReadInvertsWrite(codepoint: int, after: seq<int>)
    requires 0 <= codepoint <= 0x1FFFFF
    ensures First(Bytes(codepoint) + after) == (|Bytes(codepoint)|, codepoint)
  {
    var b := Bytes(codepoint);
    assert (b + after)[1..|b|] == b[1..];
    if codepoint > 0x7F {
      TrailingBytes(codepoint);
    } else {
      assert b[1..] == [];
    }
  }
}
