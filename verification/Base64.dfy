/** The streaming encoder of Base64.h and the in-place decoder of protocol.cpp. */
module Base64 {
  import opened Numbers

  predicate IsByte(b: int) { 0 <= b < 256 }

  ghost predicate AllBytes(s: seq<int>) { forall i :: 0 <= i < |s| ==> IsByte(s[i]) }

  /** __guac_socket_BASE64_CHARACTERS, indexed by 0 to 63 only. */
  function Character(v: int): char {
    if 0 <= v < 26 then 'A' + v as char
    else if 26 <= v < 52 then 'a' + (v - 26) as char
    else if 52 <= v < 62 then '0' + (v - 52) as char
    else if v == 62 then '+' else '/'
  }

  /** __guac_base64_value */
  function CharacterValue(c: char): (v: int)
    ensures 0 <= v < 64
  {
    if 'A' <= c <= 'Z' then (c - 'A') as int
    else if 'a' <= c <= 'z' then (c - 'a') as int + 26
    else if '0' <= c <= '9' then (c - '0') as int + 52
    else if c == '+' then 62
    else if c == '/' then 63
    else 0
  }

  lemma CharacterInverse(v: int)
    requires 0 <= v < 64
    ensures CharacterValue(Character(v)) == v && Character(v) != '=' && Character(v) != 0 as char
  {}

  // ----- section 4 of RFC 4648: 24-bit groups as four characters

  /** Four characters for up to three bytes; a negative b or c stands for a missing byte, padded with '='. */
  function Quad(a: int, b: int, c: int): (q: string)
    ensures |q| == 4
  {
    if b < 0 then [Character(a / 4), Character(a % 4 * 16), '=', '=']
    else if c < 0 then [Character(a / 4), Character(a % 4 * 16 + b / 16), Character(b % 16 * 4), '=']
    else [Character(a / 4), Character(a % 4 * 16 + b / 16), Character(b % 16 * 4 + c / 64), Character(c % 64)]
  }

  /** The four characters stand for the 24 bits of the group, most significant first. */
  lemma QuadIsGroup(a: int, b: int, c: int)
    requires IsByte(a) && IsByte(b) && IsByte(c)
    ensures var q := Quad(a, b, c);
      a * 65536 + b * 256 + c ==
        CharacterValue(q[0]) * 262144 + CharacterValue(q[1]) * 4096 + CharacterValue(q[2]) * 64 + CharacterValue(q[3])
  {
    CharacterInverse(a / 4);
    CharacterInverse(a % 4 * 16 + b / 16);
    CharacterInverse(b % 16 * 4 + c / 64);
    CharacterInverse(c % 64);
  }

  /** Three bytes to four characters; one or two bytes left over are padded with '='. */
  function Encoded(bytes: seq<int>): string
  {
    if |bytes| == 0 then ""
    else if |bytes| == 1 then Quad(bytes[0], -1, -1)
    else if |bytes| == 2 then Quad(bytes[0], bytes[1], -1)
    else Quad(bytes[0], bytes[1], bytes[2]) + Encoded(bytes[3..])
  }

  /** The length announced in front of the data. */
  lemma {:induction false} EncodedLength(bytes: seq<int>)
    ensures |Encoded(bytes)| == (|bytes| + 2) / 3 * 4
  {
    if |bytes| >= 3 { EncodedLength(bytes[3..]); }
  }

  /** Whole groups, then the rest. */
  lemma {:induction false} EncodedConcat(whole: seq<int>, rest: seq<int>)
    requires |whole| % 3 == 0
    ensures Encoded(whole + rest) == Encoded(whole) + Encoded(rest)
  {
    if whole == [] {
      assert whole + rest == rest;
    } else {
      var both := whole + rest;
      assert both[3..] == whole[3..] + rest;
      EncodedConcat(whole[3..], rest);
    }
  }

  // ----- the encoder

  ghost predicate Triplet(a: int, b: int, c: int) {
    IsByte(a) && -1 <= b < 256 && -1 <= c < 256 && (b < 0 ==> c < 0)
  }

  /** The bytes of a triplet that are there. */
  function Present(a: int, b: int, c: int): seq<int> {
    if b < 0 then [a] else if c < 0 then [a, b] else [a, b, c]
  }

  lemma EncodedTriplet(a: int, b: int, c: int)
    requires Triplet(a, b, c)
    ensures Encoded(Present(a, b, c)) == Quad(a, b, c)
  {
    if c >= 0 { assert [a, b, c][3..] == []; }
  }

  lemma GroupDone(base: string, done: seq<int>, group: seq<int>, was: string, now: string)
    requires |done| % 3 == 0 && was == base + Encoded(done) && now == was + Encoded(group)
    ensures now == base + Encoded(done + group)
  {
    EncodedConcat(done, group);
    Associative(base, Encoded(done), Encoded(group));
  }

  /** A third byte completes a group, and its characters are written. */
  lemma TripletDone(base: string, done: seq<int>, ready: seq<int>, b: int, group: seq<int>, was: string, now: string)
    requires |done| % 3 == 0 && was == base + Encoded(done) && |ready| == 2 && group == ready + [b] && AllBytes(group)
    requires now == was + Quad(ready[0], ready[1], b)
    ensures |done + group| % 3 == 0 && now == base + Encoded(done + group)
  {
    assert group[0] == ready[0] && group[1] == ready[1] && group[2] == b;
    EncodedTriplet(ready[0], ready[1], b);
    assert group == Present(ready[0], ready[1], b);
    GroupDone(base, done, group, was, now);
  }

  /** A slot filled is one more byte that is ready. */
  lemma SlotFilled(buf: seq<int>, n: nat, b: int)
    requires n < |buf|
    ensures buf[n := b][..n + 1] == buf[..n] + [b]
  {}

  lemma WrittenNext(done: seq<int>, ready: seq<int>, b: int)
    ensures done + ready + [b] == done + (ready + [b])
  {}

  lemma Associative(a: string, b: string, c: string)
    ensures a + b + c == a + (b + c)
  {}

  class Encoder {
    var stream: string
    var readyBuf: seq<int>  // base64_ready_buf_, three slots
    var ready: nat          // how many of them are filled
    ghost var base: string         // the stream at the last flush
    ghost var done: seq<int>      // bytes written out since

    /** The bytes written since the last flush. */
    ghost function Written(): seq<int>
      reads this
      requires ready <= |readyBuf|
    {
      done + readyBuf[..ready]
    }

    ghost predicate Valid()
      reads this
    {
      && |readyBuf| == 3 && ready < 3 && |done| % 3 == 0
      && (forall i :: 0 <= i < ready ==> IsByte(readyBuf[i]))
      && stream == base + Encoded(done)
    }

    constructor (stream: string)
      ensures Valid() && this.stream == base == stream && Written() == []
    {
      this.stream, readyBuf, ready := stream, [0, 0, 0], 0;
      base, done := stream, [];
    }

    /** WriteBase64Triplet; a negative b or c stands for a missing byte. */
    method WriteTriplet(a: int, b: int, c: int)
      requires Triplet(a, b, c)
      modifies this`stream
      ensures stream == old(stream) + Quad(a, b, c)
    {
      var first := stream + [Character(a / 4)];                          // (a & 0xFC) >> 2
      if b >= 0 {
        var second := first + [Character(a % 4 * 16 + b / 16)];          // ((a & 0x03) << 4) | ((b & 0xF0) >> 4)
        if c >= 0 {
          stream := second + [Character(b % 16 * 4 + c / 64), Character(c % 64)];
        } else {
          stream := second + [Character(b % 16 * 4), '='];
        }
      } else {
        stream := first + [Character(a % 4 * 16), '=', '='];
      }
    }

    /** WriteBase64Byte; -1 stands for a missing byte. */
    method Push(buf: int)
      requires |readyBuf| == 3 && ready < 3
      requires ready == 2 ==> Triplet(readyBuf[0], readyBuf[1], buf)
      modifies this`stream, this`readyBuf, this`ready
      ensures readyBuf == old(readyBuf)[old(ready) := buf]
      ensures old(ready) < 2 ==> ready == old(ready) + 1 && stream == old(stream)
      ensures old(ready) == 2 ==> ready == 0 && stream == old(stream) + Quad(readyBuf[0], readyBuf[1], buf)
    {
      readyBuf := readyBuf[ready := buf];
      ready := ready + 1;
      if ready == 3 {
        WriteTriplet(readyBuf[0], readyBuf[1], readyBuf[2]);
        ready := 0;
      }
    }

    /** WriteBase64Byte on a byte of data, when it completes no group. */
    method WriteEarly(b: int)
      requires Valid() && IsByte(b) && ready < 2
      modifies this`stream, this`readyBuf, this`ready
      ensures Valid() && Written() == old(Written()) + [b]
    {
      SlotFilled(readyBuf, ready, b);
      WrittenNext(done, readyBuf[..ready], b);
      Push(b);
    }

    /** WriteBase64Byte on a byte of data, when it completes a group. */
    method WriteLast(b: int)
      requires Valid() && IsByte(b) && ready == 2
      modifies this
      ensures Valid() && base == old(base) && ready == 0 && done == old(Written()) + [b]
    {
      ghost var was, two := stream, readyBuf[..2];
      WrittenNext(done, two, b);
      Push(b);
      TripletDone(base, done, two, b, two + [b], was, stream);
      done := done + (two + [b]);
    }

    /** WriteBase64Byte on a byte of data. */
    method WriteByte(b: int)
      requires Valid() && IsByte(b)
      modifies this
      ensures Valid() && base == old(base) && Written() == old(Written()) + [b]
    {
      if ready < 2 {
        WriteEarly(b);
      } else {
        WriteLast(b);
        assert Written() == done;
      }
    }

    /** WriteBase64 */
    method WriteBytes(data: seq<int>)
      requires Valid() && AllBytes(data)
      modifies this
      ensures Valid() && base == old(base) && Written() == old(Written()) + data
    {
      for i := 0 to |data|
        invariant Valid() && base == old(base) && Written() == old(Written()) + data[..i]
      {
        WriteByte(data[i]);
      }
      assert data[..|data|] == data;
    }

    /** FlushBase64: writes -1 until the last group is full. */
    method Flush()
      requires Valid()
      modifies this
      ensures Valid() && ready == 0 && Written() == [] && stream == base
      ensures stream == old(base) + Encoded(old(Written()))
    {
      ghost var rest, was := readyBuf[..ready], stream;
      while ready > 0
        invariant |readyBuf| == 3 && ready < 3 && base == old(base) && done == old(done)
        invariant ready > 0 ==> rest != [] && |rest| <= ready && readyBuf[..|rest|] == rest
        invariant ready > 0 ==> forall i :: |rest| <= i < ready ==> readyBuf[i] == -1
        invariant stream == was + if ready > 0 then "" else Encoded(rest)
        decreases if ready > 0 then 3 - ready else 0
      {
        assert readyBuf[0] == rest[0] && (|rest| == 2 ==> readyBuf[1] == rest[1]);
        Push(-1);
        if ready == 0 {
          EncodedTriplet(readyBuf[0], readyBuf[1], -1);
          assert rest == Present(readyBuf[0], readyBuf[1], -1);
        }
      }
      GroupDone(base, done, rest, was, stream);
      base, done := stream, [];
    }
  }

  function Flat(chunks: seq<seq<int>>): seq<int> {
    if chunks == [] then [] else Flat(chunks[..|chunks| - 1]) + chunks[|chunks| - 1]
  }

  /** However the writes are chunked, one flush gives the encoding of all the bytes. */
  method EncodeChunks(encoder: Encoder, chunks: seq<seq<int>>)
    requires encoder.Valid() && encoder.ready == 0 && encoder.base == encoder.stream
    requires forall i :: 0 <= i < |chunks| ==> AllBytes(chunks[i])
    modifies encoder
    ensures encoder.Valid() && encoder.ready == 0 && encoder.base == encoder.stream && encoder.Written() == []
    ensures encoder.stream == old(encoder.stream) + Encoded(Flat(chunks))
  {
    for i := 0 to |chunks|
      invariant encoder.Valid() && encoder.base == old(encoder.base) && encoder.Written() == Flat(chunks[..i])
    {
      encoder.WriteBytes(chunks[i]);
      assert chunks[..i + 1][..i] == chunks[..i];
    }
    assert chunks[..|chunks|] == chunks;
    encoder.Flush();
  }

  // ----- the decoder

  /** The bytes held by a run of 6-bit values: every whole eight bits. */
  function Decoded(v: seq<int>): seq<int> {
    if |v| < 2 then []
    else if |v| == 2 then [Byte0(v[0], v[1])]
    else if |v| == 3 then [Byte0(v[0], v[1]), Byte1(v[1], v[2])]
    else [Byte0(v[0], v[1]), Byte1(v[1], v[2]), Byte2(v[2], v[3])] + Decoded(v[4..])
  }

  function Byte0(p: int, q: int): int { p * 4 + q / 16 }
  function Byte1(p: int, q: int): int { p % 16 * 16 + q / 4 }
  function Byte2(p: int, q: int): int { p % 4 * 64 + q }

  ghost predicate AllSextets(v: seq<int>) { forall i :: 0 <= i < |v| ==> 0 <= v[i] < 64 }

  /** What one more value adds, by its place in the group. */
  function Added(n: nat, p: int, q: int): seq<int> {
    if n % 4 == 0 then [] else if n % 4 == 1 then [Byte0(p, q)] else if n % 4 == 2 then [Byte1(p, q)] else [Byte2(p, q)]
  }

  lemma {:induction false} DecodedSnoc(v: seq<int>, q: int)
    ensures Decoded(v + [q]) == Decoded(v) + Added(|v|, if v == [] then 0 else v[|v| - 1], q)
  {
    if |v| >= 4 {
      assert (v + [q])[4..] == v[4..] + [q];
      DecodedSnoc(v[4..], q);
    }
  }

  lemma {:induction false} DecodedLength(v: seq<int>)
    ensures |Decoded(v)| == |v| * 3 / 4
  {
    if |v| >= 4 { DecodedLength(v[4..]); }
  }

  /** The values of the characters before the first '=' or NUL. */
  function Sextets(text: string): (v: seq<int>)
    ensures |v| <= |text| && AllSextets(v)
  {
    if text == "" || text[0] == '=' || text[0] == 0 as char then []
    else [CharacterValue(text[0])] + Sextets(text[1..])
  }

  lemma {:induction false} SextetsAt(text: string, i: nat)
    requires i <= |Sextets(text)|
    ensures Sextets(text[i..]) == Sextets(text)[i..]
    ensures i < |Sextets(text)| ==>
      Sextets(text)[i] == CharacterValue(text[i]) && text[i] != '=' && text[i] != 0 as char
    ensures i == |Sextets(text)| ==> i == |text| || text[i] == '=' || text[i] == 0 as char
  {
    if i == 0 {
      assert text[0..] == text;
    } else {
      SextetsAt(text[1..], i - 1);
      assert text[1..][i - 1..] == text[i..];
    }
  }

  lemma SextetsEnd(text: string, nul: nat)
    requires nul < |text| && text[nul] == 0 as char
    ensures |Sextets(text)| <= nul
  {
    if |Sextets(text)| > nul { SextetsAt(text, nul); }
  }

  /** value >> (bits % 8), for 8, 10 or 12 bits */
  function Down(value: nat, bits: nat): nat {
    if bits == 12 then value / 16 else if bits == 10 then value / 4 else value
  }

  /** The low twelve bits of the accumulator are the last two values. */
  lemma Accumulated(value: nat, q: nat) returns (high: int)
    requires q < 64
    ensures (value * 64 + q) % UINT32_LIMIT == high * 4096 + value % 64 * 64 + q && high >= 0
  {
    var shifted := value * 64 + q;
    high := value / 64 - shifted / UINT32_LIMIT * 1048576;
  }

  lemma Remainder(x: int, h: int, m: int)
    requires x == h * 256 + m && 0 <= m < 256
    ensures x % 256 == m
  {}

  lemma Quotients(high: nat, p: nat, q: nat, kept: nat)
    requires p < 64 && q < 64 && kept == high * 4096 + p * 64 + q
    ensures kept / 16 == high * 256 + (p * 4 + q / 16)
    ensures kept / 4 == (high * 4 + p / 16) * 256 + (p % 16 * 16 + q / 4)
    ensures kept == (high * 16 + p / 4) * 256 + (p % 4 * 64 + q)
  {
    var p1, p0 := p / 16, p % 16;
    assert kept / 4 == high * 1024 + p * 16 + q / 4;
  }

  lemma LastSix(high: nat, p: nat, q: nat, kept: nat)
    requires q < 64 && kept == high * 4096 + p * 64 + q
    ensures kept % 64 == q
  {}

  lemma ByteTaken(high: nat, p: nat, q: nat, kept: nat)
    requires p < 64 && q < 64 && kept == high * 4096 + p * 64 + q
    ensures kept / 16 % 256 == Byte0(p, q) && kept / 4 % 256 == Byte1(p, q) && kept % 256 == Byte2(p, q)
  {
    Quotients(high, p, q, kept);
    Remainder(kept / 16, high, p * 4 + q / 16);
    Remainder(kept / 4, high * 4 + p / 16, p % 16 * 16 + q / 4);
    Remainder(kept, high * 16 + p / 4, p % 4 * 64 + q);
  }

  /** bits_read after n values. */
  function BitsLeft(n: nat): nat { if n % 4 == 0 then 0 else if n % 4 == 1 then 6 else if n % 4 == 2 then 4 else 2 }

  /** The byte written in a round, if any. */
  function Taken(n: nat, next: nat): seq<int> {
    if n % 4 == 0 then [] else [Down(next, BitsLeft(n) + 6) % 256]
  }

  lemma BitsNext(n: nat, next: nat)
    ensures var bits := BitsLeft(n) + 6;
      && BitsLeft(n + 1) == (if bits >= 8 then bits - 8 else bits)
      && Taken(n, next) == if bits >= 8 then [Down(next, bits) % 256] else []
  {}

  lemma StoredNext(was: string, bytes: seq<int>, text: string, b: int, now: string)
    requires Stored(was, bytes, text) && |bytes| < |was| && IsByte(b) && now == was[|bytes| := b as char]
    ensures Stored(now, bytes + [b], text)
  {}

  lemma TakenCases(n: nat, p: nat, q: nat, next: nat)
    requires next / 16 % 256 == Byte0(p, q) && next / 4 % 256 == Byte1(p, q) && next % 256 == Byte2(p, q)
    ensures Taken(n, next) == Added(n, p, q)
  {}

  lemma TakenIsAdded(n: nat, p: nat, q: nat, high: nat, next: nat)
    requires p < 64 && q < 64 && next == high * 4096 + p * 64 + q
    ensures next % 64 == q && Taken(n, next) == Added(n, p, q)
  {
    LastSix(high, p, q, next);
    ByteTaken(high, p, q, next);
    TakenCases(n, p, q, next);
  }

  /** One round of the decoder. */
  lemma Round(v: seq<int>, i: nat, value: nat, next: nat)
    requires i < |v| && AllSextets(v) && (i > 0 ==> value % 64 == v[i - 1])
    requires next == (value * 64 + v[i]) % UINT32_LIMIT
    ensures next % 64 == v[i] && |Decoded(v[..i])| == i * 3 / 4
    ensures Decoded(v[..i + 1]) == Decoded(v[..i]) + Taken(i, next)
  {
    var high := Accumulated(value, v[i]);
    TakenIsAdded(i, value % 64, v[i], high, next);
    assert v[..i + 1] == v[..i] + [v[i]];
    DecodedSnoc(v[..i], v[i]);
    DecodedLength(v[..i]);
  }

  /** The bytes at the front of the buffer, and behind them the text as it was. */
  ghost predicate Stored(buffer: string, bytes: seq<int>, text: string) {
    && |bytes| <= |buffer| == |text|
    && (forall k :: 0 <= k < |bytes| ==> buffer[k] as int == bytes[k])
    && (forall k :: |bytes| <= k < |text| ==> buffer[k] == text[k])
  }

  datatype Registers = Registers(output: nat, bits: nat, value: nat)

  /** One round on the registers and the buffer: shift in six bits, write a byte once there are eight. */
  ghost predicate Shifted(was: string, r: Registers, q: int, now: string, r': Registers) {
    && r'.value == (r.value * 64 + q) % UINT32_LIMIT
    && (r.bits < 2 ==> now == was && r'.output == r.output && r'.bits == r.bits + 6)
    && (r.bits >= 2 ==>
      && r'.output == r.output + 1 && r'.bits == r.bits - 2 && r.output < |was|
      && now == was[r.output := (Down(r'.value, r.bits + 6) % 256) as char])
  }

  /** The decoder's state after n values, all of them read before anything at or behind them is overwritten. */
  ghost predicate Decoding(buffer: string, text: string, n: nat, r: Registers) {
    var v := Sextets(text);
    && n <= |v|
    && Stored(buffer, Decoded(v[..n]), text)
    && r.output == |Decoded(v[..n])| <= n
    && r.bits == BitsLeft(n)
    && (n > 0 ==> r.value % 64 == v[n - 1])
  }

  lemma DecodingNext(was: string, text: string, n: nat, r: Registers, now: string, r': Registers)
    requires Decoding(was, text, n, r) && n < |Sextets(text)| && Shifted(was, r, Sextets(text)[n], now, r')
    ensures Decoding(now, text, n + 1, r')
  {
    var v := Sextets(text);
    Round(v, n, r.value, r'.value);
    BitsNext(n, r'.value);
    if r.bits >= 2 { StoredNext(was, Decoded(v[..n]), text, Down(r'.value, r.bits + 6) % 256, now); }
  }

  method ShiftIn(base64: array<char>, r: Registers, current: char) returns (r': Registers)
    requires r.output < base64.Length
    modifies base64
    ensures Shifted(old(base64[..]), r, CharacterValue(current), base64[..], r')
  {
    var value := (r.value * 64 + CharacterValue(current)) % UINT32_LIMIT;
    var output, bits := r.output, r.bits + 6;
    if bits >= 8 {
      base64[output] := (Down(value, bits) % 256) as char;
      output := output + 1;
      bits := bits - 8;
    }
    r' := Registers(output, bits, value);
  }

  /** The body of the loop: current, the n-th character, is shifted in and the next one is read. */
  method Take(base64: array<char>, ghost text: string, n: nat, r: Registers, current: char)
      returns (r': Registers, current': char)
    requires Decoding(base64[..], text, n, r) && n < |Sextets(text)| < |text| && current == text[n]
    modifies base64
    ensures Decoding(base64[..], text, n + 1, r') && current' == text[n + 1]
  {
    ghost var was := base64[..];
    r' := ShiftIn(base64, r, current);
    SextetsAt(text, n);
    DecodingNext(was, text, n, r, base64[..], r');
    current' := base64[n + 1];
  }

  /**
   * guac_protocol_decode_base64 overwrites its input, which is read up to '=' or NUL. The accumulator is 32 bits
   * wide and is never cleared; the bits shifted out are never needed again.
   */
  method DecodeInPlace(base64: array<char>) returns (length: nat)
    requires exists nul :: 0 <= nul < base64.Length && base64[nul] == 0 as char
    modifies base64
    ensures Stored(base64[..], Decoded(Sextets(old(base64[..]))), old(base64[..]))
    ensures length == |Decoded(Sextets(old(base64[..])))|
  {
    ghost var text := base64[..];
    ghost var v := Sextets(text);
    ghost var nul :| 0 <= nul < base64.Length && base64[nul] == 0 as char;
    SextetsEnd(text, nul);
    var r := Registers(0, 0, 0);
    var current, input := base64[0], 1;
    while current != 0 as char
      invariant 1 <= input <= |v| + 1 && current == text[input - 1]
      invariant Decoding(base64[..], text, input - 1, r)
      decreases |v| - input
    {
      SextetsAt(text, input - 1);
      if current == '=' { break; }
      r, current := Take(base64, text, input - 1, r, current);
      input := input + 1;
    }
    SextetsAt(text, input - 1);
    assert v[..|v|] == v;
    length := r.output;
  }

  // ----- decoding inverts encoding

  lemma SextetsNext(v: int, rest: string)
    requires 0 <= v < 64
    ensures Sextets([Character(v)] + rest) == [v] + Sextets(rest)
  {
    CharacterInverse(v);
    assert ([Character(v)] + rest)[1..] == rest;
  }

  lemma SextetsPair(u: int, v: int, rest: string)
    requires 0 <= u < 64 && 0 <= v < 64
    ensures Sextets([Character(u), Character(v)] + rest) == [u, v] + Sextets(rest)
  {
    SextetsNext(v, rest);
    SextetsNext(u, [Character(v)] + rest);
    assert [Character(u), Character(v)] + rest == [Character(u)] + ([Character(v)] + rest);
  }

  lemma SextetsTwo(a: int, rest: string)
    requires IsByte(a)
    ensures Sextets(Quad(a, -1, -1) + rest) == [a / 4, a % 4 * 16]
  {
    SextetsPair(a / 4, a % 4 * 16, ['=', '='] + rest);
    assert Quad(a, -1, -1) + rest == [Character(a / 4), Character(a % 4 * 16)] + (['=', '='] + rest);
  }

  lemma SextetsThree(a: int, b: int, rest: string)
    requires IsByte(a) && IsByte(b)
    ensures Sextets(Quad(a, b, -1) + rest) == [a / 4, a % 4 * 16 + b / 16, b % 16 * 4]
  {
    var last := [Character(b % 16 * 4)] + (['='] + rest);
    SextetsNext(b % 16 * 4, ['='] + rest);
    SextetsPair(a / 4, a % 4 * 16 + b / 16, last);
    assert Quad(a, b, -1) + rest == [Character(a / 4), Character(a % 4 * 16 + b / 16)] + last;
  }

  lemma SextetsFour(a: int, b: int, c: int, rest: string)
    requires IsByte(a) && IsByte(b) && IsByte(c)
    ensures Sextets(Quad(a, b, c) + rest) ==
      [a / 4, a % 4 * 16 + b / 16, b % 16 * 4 + c / 64, c % 64] + Sextets(rest)
  {
    var last := [Character(b % 16 * 4 + c / 64), Character(c % 64)] + rest;
    SextetsPair(b % 16 * 4 + c / 64, c % 64, rest);
    SextetsPair(a / 4, a % 4 * 16 + b / 16, last);
    assert Quad(a, b, c) + rest == [Character(a / 4), Character(a % 4 * 16 + b / 16)] + last;
  }

  /** The three bytes of a group from its four values. */
  lemma BytesOfSextets(a: int, b: int, c: int)
    requires IsByte(a) && IsByte(b) && IsByte(c)
    ensures Byte0(a / 4, a % 4 * 16 + b / 16) == a
    ensures Byte1(a % 4 * 16 + b / 16, b % 16 * 4 + c / 64) == b
    ensures Byte2(b % 16 * 4 + c / 64, c % 64) == c
  {}

  lemma DecodedGroup(p: int, q: int, r: int, s: int, v: seq<int>)
    ensures Decoded([p, q, r, s] + v) == [Byte0(p, q), Byte1(q, r), Byte2(r, s)] + Decoded(v)
  {
    assert ([p, q, r, s] + v)[4..] == v;
  }

  lemma DecodedQuad(a: int, b: int, c: int, rest: string)
    requires IsByte(a) && IsByte(b) && IsByte(c)
    ensures Decoded(Sextets(Quad(a, b, c) + rest)) == [a, b, c] + Decoded(Sextets(rest))
    ensures Decoded(Sextets(Quad(a, b, -1) + rest)) == [a, b]
    ensures Decoded(Sextets(Quad(a, -1, -1) + rest)) == [a]
  {
    SextetsTwo(a, rest);
    SextetsThree(a, b, rest);
    SextetsFour(a, b, c, rest);
    DecodedGroup(a / 4, a % 4 * 16 + b / 16, b % 16 * 4 + c / 64, c % 64, Sextets(rest));
    BytesOfSextets(a, b, c);
    BytesOfSextets(a, b, 0);
    BytesOfSextets(a, 0, 0);
  }

  lemma EncodedMore(bytes: seq<int>, after: string)
    requires |bytes| >= 3
    ensures Encoded(bytes) + after == Quad(bytes[0], bytes[1], bytes[2]) + (Encoded(bytes[3..]) + after)
  {
    Associative(Quad(bytes[0], bytes[1], bytes[2]), Encoded(bytes[3..]), after);
  }

  lemma DecodedMore(bytes: seq<int>, text: string, rest: string)
    requires AllBytes(bytes) && |bytes| >= 3 && text == Quad(bytes[0], bytes[1], bytes[2]) + rest
    requires Decoded(Sextets(rest)) == bytes[3..]
    ensures Decoded(Sextets(text)) == bytes
  {
    DecodedQuad(bytes[0], bytes[1], bytes[2], rest);
  }

  lemma EncodedShort(bytes: seq<int>)
    requires 0 < |bytes| < 3
    ensures Encoded(bytes) == Quad(bytes[0], if |bytes| == 1 then -1 else bytes[1], -1)
  {}

  lemma DecodedShort(bytes: seq<int>, after: string)
    requires AllBytes(bytes) && |bytes| < 3 && (after == "" || after[0] == 0 as char)
    ensures Decoded(Sextets(Encoded(bytes) + after)) == bytes
  {
    if |bytes| == 0 {
      assert "" + after == after;
    } else {
      EncodedShort(bytes);
      DecodedQuad(bytes[0], bytes[|bytes| - 1], 0, after);
    }
  }

  /** A text that begins with an encoding and ends there decodes to the bytes encoded. */
  lemma {:induction false} DecodeInvertsEncode(bytes: seq<int>, after: string)
    requires AllBytes(bytes) && (after == "" || after[0] == 0 as char)
    ensures Decoded(Sextets(Encoded(bytes) + after)) == bytes
  {
    if |bytes| < 3 {
      DecodedShort(bytes, after);
    } else {
      DecodeInvertsEncode(bytes[3..], after);
      EncodedMore(bytes, after);
      DecodedMore(bytes, Encoded(bytes) + after, Encoded(bytes[3..]) + after);
    }
  }
}
