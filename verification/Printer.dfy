/** The printers of protocol.cpp, and the two readers on what they print. */
module Printer {
  import opened Wire
  import opened Utf8
  import opened Framing
  import opened InstructionParser
  import opened Appending
  import opened Reading
  import opened Resumption
  import GuacParser

  /** __guac_socket_write_length_string appends to the socket's stream. */
  method WriteLengthString(stream: string, str: string) returns (stream': string)
    ensures stream' == stream + Item(str)
  {
    var length := Strlen(str);
    stream' := stream + Decimal(length);
    stream' := stream' + ".";
    stream' := stream' + str;
  }

  /** __guac_protocol_send_args prints the list that starts with "args". */
  method SendArgs(args: seq<string>) returns (stream: string)
    ensures stream == Printed(["args"] + args)
  {
    ghost var list := ["args"] + args;
    stream := "4.args";
    assert stream == Item("args") by {
      AsciiCount("args");
      assert Decimal(4) == "4";
    }
    for i := 0 to |args|
      invariant stream == Prefix(list, i) + Item(list[i])
    {
      stream := stream + ",";
      assert stream == Prefix(list, i + 1);
      stream := WriteLengthString(stream, args[i]);
      assert args[i] == list[i + 1];
    }
    stream := stream + ";";
  }

  predicate Ascii(s: string) { forall i :: 0 <= i < |s| ==> NUL < s[i] <= 0x7F as char }

  lemma AsciiItem(s: string)
    requires Ascii(s)
    ensures Item(s) == Element(s)
  {
    AsciiCount(s);
  }

  /** One more item, and the separator behind it. */
  lemma OneMore(prefix: string, elements: string, item: string, separator: string, longer: string, all: string)
    requires prefix == elements + "," && longer == prefix + item + separator && all == elements + "," + item
    ensures longer == all + separator
  {}

  lemma {:induction false} AsciiPrefix(list: seq<string>, k: nat)
    requires 0 < k <= |list| && forall s :: s in list ==> Ascii(s)
    ensures Prefix(list, k) == Elements(list[..k]) + if k == |list| then ";" else ","
  {
    var s, separator := list[k - 1], if k == |list| then ";" else ",";
    assert s in list;
    AsciiItem(s);
    if k == 1 {
      assert list[..1] == [s];
      assert Prefix(list, 0) + Item(s) == Item(s);
    } else {
      AsciiPrefix(list, k - 1);
      assert list[..k] == list[..k - 1] + [s];
      ElementsSnoc(list[..k - 1], s);
      OneMore(Prefix(list, k - 1), Elements(list[..k - 1]), Item(s), separator, Prefix(list, k), Elements(list[..k]));
    }
  }

  /** On ASCII lists both printers print the same, and both readers read the list back. */
  lemma ReadersAgree(list: seq<string>)
    requires list != [] && forall s :: s in list ==> Ascii(s) && |s| < MAX_GUAC_ELEMENT_LENGTH
    requires |Encode(list)| < MAX_GUAC_FRAME_LENGTH
    ensures Printed(list) == Encode(list) && Decoded(Printed(list)) == list
    ensures Readable(list, MAX_LENGTH) && |Printed(list)| <= BUFFER_SIZE
  {
    AsciiPrefix(list, |list|);
    assert list[..|list|] == list;
    DecodeInvertsEncode(list);
    forall k | 0 <= k < |list| ensures ReadableString(list[k], MAX_LENGTH) {
      assert list[k] in list;
      AsciiCount(list[k]);
    }
  }

  /** Reading a printed ASCII instruction from a socket gives what the one-shot reader gives. */
  method ReadAgrees(parser: GuacParser.Parser, socket: GuacParser.Socket, ghost list: seq<string>, ghost after: string)
    returns (status: int)
    requires parser.Shape() && Ready(parser.Rest(socket)).config == Config(LENGTH, 0, 0) && |list| < MAX_ELEMENTS
    requires list != [] && forall s :: s in list ==> Ascii(s) && |s| < MAX_GUAC_ELEMENT_LENGTH
    requires |Encode(list)| < MAX_GUAC_FRAME_LENGTH
    requires parser.buffer[parser.unparsedStart..parser.unparsedEnd] + socket.incoming == Encode(list) + after
    modifies parser, parser.buffer, parser.elementv, socket
    ensures parser.Shape() && (0 !in old(socket.sizes) ==> status == 0)
    ensures status == 0 ==> parser.elementc == |Decoded(Encode(list))| && forall k :: 0 <= k < parser.elementc ==>
      parser.elementv[k] >= 0 && CString(parser.buffer[..], parser.elementv[k]) == Decoded(Encode(list))[k]
  {
    ReadersAgree(list);
    ghost var m := parser.Rest(socket);
    ExpectsPrinted(list, after, m);
    ReadDelivers(Target(FrameOf(list), after, 0, 0), m);
    var error;
    status, error := parser.Read(socket);
  }
}
