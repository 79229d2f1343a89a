/** The circular chat history of CollabVM.cpp, with its three indices of one byte each. */
module ChatHistory {
  import opened Numbers
  import opened Wire

  newtype uint8 = x | 0 <= x < 256

  /** A user's name, shared by the user and the messages: renaming a user renames the author of its messages. */
  class Username {
    var text: string

    constructor (text: string)
      ensures this.text == text
    {
      this.text := text;
    }
  }

  datatype ChatMessage = ChatMessage(username: Username, message: string)

  /** Names and messages in turn, as the instruction lists them. */
  ghost function Fields(messages: seq<ChatMessage>): seq<string>
    reads set m | m in messages :: m.username
  {
    if messages == [] then []
    else
      var last := messages[|messages| - 1];
      Fields(messages[..|messages| - 1]) + [last.username.text, last.message]
  }

  /** The last messages, as many as there is room for. */
  function Recent(all: seq<ChatMessage>, size: nat): seq<ChatMessage> { all[|all| - Min(|all|, size)..] }

  /** The messages in a circular buffer from begin up to end; all of it when they are equal. */
  function Circle(messages: seq<ChatMessage>, begin: nat, end: nat): seq<ChatMessage>
    requires begin <= |messages| && end <= |messages|
  {
    if begin < end then messages[begin..end] else messages[begin..] + messages[..end]
  }

  function After(i: nat, size: nat): nat { if i == size - 1 then 0 else i + 1 }

  /** Writing at the end of a circle with room adds a message. */
  lemma CircleGrows(messages: seq<ChatMessage>, begin: nat, end: nat, m: ChatMessage)
    requires begin < |messages| && end < |messages| && begin != end
    ensures Circle(messages[end := m], begin, After(end, |messages|)) == Circle(messages, begin, end) + [m]
  {}

  /** Writing at the end of a full circle replaces its first message. */
  lemma CircleTurns(messages: seq<ChatMessage>, begin: nat, m: ChatMessage)
    requires begin < |messages|
    ensures Circle(messages[begin := m], After(begin, |messages|), After(begin, |messages|)) ==
            Circle(messages, begin, begin)[1..] + [m]
  {}

  lemma RecentSnoc(all: seq<ChatMessage>, size: nat, m: ChatMessage)
    requires size > 0
    ensures Recent(all + [m], size) ==
            (if |all| < size then Recent(all, size) else Recent(all, size)[1..]) + [m]
  {}

  class ChatHistory {
    const size: uint8  // ChatMsgHistory
    const messages: array<ChatMessage>
    var begin: uint8
    var end: uint8
    var count: uint8
    ghost var all: seq<ChatMessage>  // every message ever inserted

    ghost predicate Valid()
      reads this, messages
    {
      && messages.Length == size as int
      && count as int == Min(|all|, size as int)
      && (size > 0 ==> begin < size && end < size)
      && (count == 0 ==> begin == end == 0)
      && (count > 0 ==> Circle(messages[..], begin as int, end as int) == Recent(all, size as int))
    }

    constructor (size: uint8, blank: ChatMessage)
      ensures Valid() && this.size == size && all == [] && fresh(messages)
    {
      this.size := size;
      messages := new ChatMessage[size as int](_ => blank);
      begin, end, count, all := 0, 0, 0, [];
    }

    /** What OnChatInstruction does with the history. */
    method Insert(m: ChatMessage)
      requires Valid()
      modifies this, messages
      ensures Valid() && all == old(all) + [m]
    {
      if size != 0 {
        ghost var was, from, to := messages[..], begin as int, end as int;
        RecentSnoc(all, size as int, m);
        if from != to { CircleGrows(was, from, to, m); } else { CircleTurns(was, from, m); }
        messages[end as int] := m;
        assert messages[..] == was[to := m];
        var lastIndex := size - 1;
        if end == begin && count != 0 {
          begin := if begin == lastIndex then 0 else begin + 1;
        } else {
          count := count + 1;
        }
        end := if end == lastIndex then 0 else end + 1;
      }
      all := all + [m];
    }

    /** AppendChatMessage on each message from one index up to another, behind those shown already. */
    method AppendRange(ss: string, from: uint8, to: uint8, ghost shown: seq<ChatMessage>) returns (ss': string)
      requires from as int <= to as int <= messages.Length && ss == Listing(shown)
      ensures ss' == Listing(shown + messages[from..to])
    {
      ss' := ss;
      ghost var so := shown;
      for i := from to to
        invariant so == shown + messages[from..i] && ss' == Listing(so)
      {
        ss' := AppendChatMessage(ss', messages[i as int], so);
        so := so + [messages[i as int]];
      }
    }

    /** The loops over the circle: one stretch, or two around its end. */
    method AppendCircle(ss: string) returns (ss': string)
      requires Valid() && count > 0 && ss == Listing([])
      ensures ss' == Listing(Circle(messages[..], begin as int, end as int))
    {
      ghost var ring, from, to := messages[..], begin as int, end as int;
      if end > begin {
        assert [] + messages[begin..end] == Circle(ring, from, to);
        ss' := AppendRange(ss, begin, end, []);
      } else {
        ghost var first := ring[from..];
        assert [] + messages[begin..size] == first && first + messages[0 as uint8..end] == Circle(ring, from, to);
        ss' := AppendRange(ss, begin, size, []);
        ss' := AppendRange(ss', 0, end, first);
      }
    }

    /** SendChatHistory: nothing before the first message, and then the most recent ones in order. */
    method SendChatHistory() returns (instr: Option<string>)
      requires Valid()
      ensures instr.None? <==> Recent(all, size as int) == []
      ensures instr.Some? ==> instr.value == Encode(["chat"] + Fields(Recent(all, size as int)))
    {
      if count == 0 { return None; }
      NothingListed();
      var ss := AppendCircle("4.chat");
      instr := Some(ss + ";");
    }
  }

  /** The instruction so far, before the semicolon. */
  ghost function Listing(shown: seq<ChatMessage>): string
    reads set m | m in shown :: m.username
  {
    Elements(["chat"] + Fields(shown))
  }

  lemma NothingListed()
    ensures Listing([]) == "4.chat"
  {
    assert ["chat"] + [] == ["chat"];
    assert Decimal(4) == "4";
  }

  method AppendChatMessage(ss: string, m: ChatMessage, ghost shown: seq<ChatMessage>) returns (ss': string)
    requires ss == Listing(shown)
    ensures ss' == Listing(shown + [m])
  {
    FieldsSnoc(shown, m);
    TwoMore(["chat"], Fields(shown), m.username.text, m.message);
    ss' := ss + "," + Element(m.username.text) + "," + Element(m.message);
  }

  lemma FieldsSnoc(messages: seq<ChatMessage>, m: ChatMessage)
    ensures Fields(messages + [m]) == Fields(messages) + [m.username.text, m.message]
  {
    assert (messages + [m])[..|messages|] == messages;
  }

  lemma TwoMore(list: seq<string>, fields: seq<string>, s: string, t: string)
    requires list != []
    ensures Elements(list + (fields + [s, t])) == Elements(list + fields) + "," + Element(s) + "," + Element(t)
  {
    ElementsSnoc(list + fields, s);
    ElementsSnoc(list + fields + [s], t);
    assert list + (fields + [s, t]) == list + fields + [s] + [t];
  }
}
