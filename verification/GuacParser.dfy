/** guac_parser of parser.cpp: an incremental reader of length-prefixed instructions. */
module GuacParser {
  import opened Numbers
  import opened Wire
  import opened Utf8
  import opened Appending
  import opened Reading

  /** The socket: bytes still to come, and how many of them each read finds; zero for one that times out. */
  class Socket {
    var incoming: string
    var sizes: seq<nat>

    constructor (incoming: string, sizes: seq<nat>)
      ensures this.incoming == incoming && this.sizes == sizes
    {
      this.incoming, this.sizes := incoming, sizes;
    }

    /** guac_socket_select and, unless it times out, guac_socket_read. */
    method Receive(room: nat) returns (late: bool, data: string)
      modifies this
      ensures late == TimesOut(old(sizes)) && sizes == Later(old(sizes))
      ensures data == if late then "" else old(incoming[..ReadSize(sizes, room, |incoming|)])
      ensures incoming == old(incoming)[|data|..]
    {
      late := sizes != [] && sizes[0] == 0;
      var n := if sizes == [] then 1 else sizes[0];
      n := Min(n, Min(room, |incoming|));
      sizes := if sizes == [] then [] else sizes[1..];
      data := incoming[..n];
      incoming := incoming[n..];
    }
  }

  class Parser {
    const buffer: array<char>
    const elementv: array<int>
    var state: ParseState
    var elementLength: int
    var elementc: nat
    var unparsedStart: nat
    var unparsedEnd: nat

    /** guac_parser_alloc */
    constructor ()
      ensures Shape() && Configuration() == Config(LENGTH, 0, 0) && unparsedStart == unparsedEnd == 0
      ensures fresh(buffer) && fresh(elementv)
    {
      buffer := new char[BUFFER_SIZE](_ => NUL);
      elementv := new int[MAX_ELEMENTS](_ => 0);
      state, elementLength, elementc, unparsedStart, unparsedEnd := LENGTH, 0, 0, 0, 0;
    }

    ghost predicate Shape()
      reads this
    {
      && buffer.Length == BUFFER_SIZE && elementv.Length == MAX_ELEMENTS && elementc <= MAX_ELEMENTS
      && unparsedStart <= unparsedEnd <= BUFFER_SIZE
    }

    function Configuration(): Config
      reads this
    {
      Config(state, elementLength, elementc)
    }

    /** The parser and its socket as a value, with the local variables of guac_parser_read. */
    ghost function View(socket: Socket, instr: nat, start: nat, end: nat): Reader
      reads this, buffer, elementv, socket
    {
      Reader(buffer[..], elementv[..], Configuration(), instr, start, end, socket.incoming, socket.sizes)
    }

    /** The same between two calls. */
    ghost function Rest(socket: Socket): Reader
      reads this, buffer, elementv, socket
    {
      View(socket, unparsedStart, unparsedStart, unparsedEnd)
    }

    /** The loop over the content of an element in guac_parser_append. */
    method AppendContent(at: nat, i: nat, length: nat) returns (parsed: nat)
      requires Shape() && state == CONTENT && at + length <= BUFFER_SIZE && i <= length
      modifies this`state, this`elementLength, buffer
      ensures Shape()
      ensures var s := ContentSpec(old(Configuration()), old(buffer[at..at + length]), i, None);
        && Configuration() == s.config && parsed == s.parsed
        && buffer[..] == WithNul(old(buffer[..]), at, s.nul)
    {
      ghost var data := buffer[at..at + length];
      parsed := i;
      while parsed < length && elementLength >= 0
        invariant i <= parsed <= length && Shape() && state == CONTENT && elementc == old(elementc)
        invariant buffer[..] == old(buffer[..])
        invariant ScanContent(data, i, old(elementLength)) == ScanContent(data, parsed, elementLength)
        decreases length - parsed
      {
        var c := buffer[at + parsed];
        assert c == data[parsed];
        var size := CharSize(c);
        if parsed + size > length {
          break;
        }
        if elementLength == 0 {
          buffer[at + parsed] := NUL;
          if c == ';' {
            state := COMPLETE;
            parsed := parsed + size;
            return;
          } else if c == ',' {
            state := LENGTH;
            parsed := parsed + size;
            return;
          } else {
            state := ERROR;
            return 0;
          }
        }
        elementLength := elementLength - 1;
        parsed := parsed + size;
      }
    }

    /** The loop over the digits of a length in guac_parser_append. */
    method AppendLength(at: nat, length: nat) returns (r: Scan)
      requires Shape() && state == LENGTH && at + length <= BUFFER_SIZE
      ensures r == ScanLength(buffer[at..at + length], 0, elementLength)
    {
      ghost var data := buffer[at..at + length];
      var parsedLength, parsed := elementLength, 0;
      while parsed < length
        invariant parsed <= length
        invariant ScanLength(data, 0, elementLength) == ScanLength(data, parsed, parsedLength)
      {
        var c := buffer[at + parsed];
        assert c == data[parsed];
        if '0' <= c <= '9' {
          parsedLength := Wrap32(parsedLength * 10 + (c - '0') as int);
        } else if c == '.' {
          return Scan(parsed + 1, parsedLength, Period);
        } else {
          return Scan(parsed, parsedLength, Invalid);
        }
        parsed := parsed + 1;
      }
      return Scan(parsed, parsedLength, Starved);
    }

    /** guac_parser_append on `length` bytes of the buffer. */
    method Append(at: nat, length: nat) returns (parsed: nat)
      requires Shape() && at + length <= BUFFER_SIZE
      modifies this`state, this`elementLength, this`elementc, buffer, elementv
      ensures Shape()
      ensures var s := AppendSpec(old(Configuration()), old(buffer[at..at + length]));
        && Configuration() == s.config && parsed == s.parsed
        && buffer[..] == WithNul(old(buffer[..]), at, s.nul)
        && elementv[..] == WithElement(old(elementv[..]), old(elementc), at, s.element)
    {
      if elementc == MAX_ELEMENTS && state != COMPLETE {
        state := ERROR;
        return 0;
      }
      parsed := 0;
      if state == LENGTH {
        var r := AppendLength(at, length);
        if r.end == Invalid {
          state := ERROR;
          return 0;
        }
        if r.end == Period {
          elementv[elementc] := at + r.parsed;
          elementc := elementc + 1;
          state := CONTENT;
        }
        if r.length > MAX_LENGTH {
          state := ERROR;
          return 0;
        }
        elementLength := r.length;
        parsed := r.parsed;
      }
      if state == CONTENT {
        parsed := AppendContent(at, parsed, length);
      }
    }

    /** Move the instruction to the start of the buffer, and its elements with it. */
    method Shift(from: nat, end: nat)
      requires Shape() && from <= end <= BUFFER_SIZE
      modifies buffer, elementv
      ensures buffer[..] == old(buffer[from..end]) + old(buffer[end - from..])
      ensures elementv[..] == Moved(old(elementv[..]), elementc, from)
    {
      MoveBytes(from, end);
      MoveElements(from);
    }

    /** memmove */
    method MoveBytes(from: nat, end: nat)
      requires Shape() && from <= end <= BUFFER_SIZE
      modifies buffer
      ensures buffer[..] == old(buffer[from..end]) + old(buffer[end - from..])
    {
      for i := 0 to end - from
        invariant forall j :: 0 <= j < i ==> buffer[j] == old(buffer[from + j])
        invariant forall j :: i <= j < BUFFER_SIZE ==> buffer[j] == old(buffer[j])
      {
        buffer[i] := buffer[from + i];
      }
    }

    method MoveElements(offset: nat)
      requires Shape()
      modifies elementv
      ensures elementv[..] == Moved(old(elementv[..]), elementc, offset)
    {
      for i := 0 to elementc
        invariant forall k :: 0 <= k < MAX_ELEMENTS ==>
          elementv[k] == if k < i then old(elementv[k]) - offset else old(elementv[k])
      {
        elementv[i] := elementv[i] - offset;
      }
    }

    method Fill(end: nat, data: string)
      requires Shape() && end + |data| <= BUFFER_SIZE
      modifies buffer
      ensures buffer[..] == old(buffer[..end]) + data + old(buffer[end + |data|..])
    {
      for i := 0 to |data|
        invariant forall j :: 0 <= j < BUFFER_SIZE ==>
          buffer[j] == if end <= j < end + i then data[j - end] else old(buffer[j])
      {
        buffer[end + i] := data[i];
      }
    }

    /** One append to the parser of what is in the buffer. */
    method Take(socket: Socket, instr: nat, start: nat, end: nat) returns (parsed: nat)
      requires Shape() && instr <= start <= end <= BUFFER_SIZE
      modifies this`state, this`elementLength, this`elementc, buffer, elementv
      ensures Shape() && start + parsed <= end
      ensures View(socket, instr, start + parsed, end) == Taken(old(View(socket, instr, start, end)))
    {
      parsed := Append(start, end - start);
    }

    /** Move the instruction down if there is no room behind it. */
    method MakeRoom(socket: Socket, instr: nat, start: nat, end: nat) returns (instr': nat, start': nat, end': nat)
      requires Shape() && instr <= start <= end <= BUFFER_SIZE
      modifies buffer, elementv
      ensures instr' <= start' <= end' <= BUFFER_SIZE
      ensures View(socket, instr', start', end') == MadeRoom(old(View(socket, instr, start, end)))
    {
      instr', start', end' := instr, start, end;
      if end == BUFFER_SIZE {
        Shift(instr, end);
        instr', start', end' := 0, start - instr, end - instr;
      }
    }

    /** Get more data. */
    method Refill(socket: Socket, instr: nat, start: nat, end: nat) returns (stop: Option<Outcome>, end': nat)
      requires Shape() && instr <= start <= end <= BUFFER_SIZE
      modifies buffer, socket
      ensures end <= end' <= BUFFER_SIZE
      ensures var m := old(View(socket, instr, start, end));
        (View(socket, instr, start, end'), stop) ==
          if TimesOut(m.sizes) then (m.(sizes := Later(m.sizes)), Some(TimedOut))
          else if ReadSize(m.sizes, BUFFER_SIZE - end, |m.incoming|) == 0
            then (m.(sizes := Later(m.sizes)), Some(Closed))
          else (Refilled(m), None)
    {
      stop, end' := None, end;
      var late, data := socket.Receive(BUFFER_SIZE - end);
      if late {
        stop := Some(TimedOut);
      } else if |data| == 0 {
        stop := Some(Closed);
      } else {
        Fill(end, data);
        end' := end + |data|;
      }
    }

    /** Read more, if there is room or can be made. */
    method ReadMore(socket: Socket, instr: nat, start: nat, end: nat)
      returns (stop: Option<Outcome>, instr': nat, start': nat, end': nat)
      requires Shape() && instr <= start <= end <= BUFFER_SIZE
      modifies buffer, elementv, socket
      ensures instr' <= start' <= end' <= BUFFER_SIZE
      ensures (View(socket, instr', start', end'), stop) == More(old(View(socket, instr, start, end)))
    {
      if end == BUFFER_SIZE && instr == 0 {
        return Some(Full), instr, start, end;
      }
      instr', start', end' := MakeRoom(socket, instr, start, end);
      stop, end' := Refill(socket, instr', start', end');
    }

    /** One turn of the loop of guac_parser_read. */
    method ReadTurn(socket: Socket, instr: nat, start: nat, end: nat)
      returns (stop: Option<Outcome>, instr': nat, start': nat, end': nat)
      requires Shape() && instr <= start <= end <= BUFFER_SIZE
      modifies this`state, this`elementLength, this`elementc, buffer, elementv, socket
      ensures Shape() && instr' <= start' <= end' <= BUFFER_SIZE
      ensures (View(socket, instr', start', end'), stop) == Turn(old(View(socket, instr, start, end)))
    {
      var parsed := Take(socket, instr, start, end);
      if parsed == 0 {
        stop, instr', start', end' := ReadMore(socket, instr, start, end);
      } else {
        stop, instr', start', end' := None, instr, start + parsed, end;
      }
    }

    /** The loop of guac_parser_read. */
    method ReadLoop(socket: Socket) returns (outcome: Outcome, start: nat, end: nat, ghost instr: nat)
      requires Shape()
      modifies this`state, this`elementLength, this`elementc, buffer, elementv, socket
      ensures Shape() && start <= end <= BUFFER_SIZE
      ensures (View(socket, instr, start, end), outcome) == Loop(old(Rest(socket)))
    {
      var first: nat;
      first, start, end := unparsedStart, unparsedStart, unparsedEnd;
      while state != COMPLETE && state != ERROR
        invariant Shape() && first <= start <= end <= BUFFER_SIZE
        invariant Loop(View(socket, first, start, end)) == Loop(old(Rest(socket)))
        decreases Measure(View(socket, first, start, end))
      {
        var stop;
        stop, first, start, end := ReadTurn(socket, first, start, end);
        if stop.Some? {
          return stop.value, start, end, first;
        }
      }
      return if state == ERROR then Malformed else Done, start, end, first;
    }

    /**
     * guac_parser_read. The error is what guac_error tells; reading from the socket, and timing out, is as its
     * schedule says.
     */
    method Read(socket: Socket) returns (status: int, error: Outcome)
      requires Shape()
      modifies this, buffer, elementv, socket
      ensures Shape() && (Rest(socket), error) == ReadSpec(old(Rest(socket)))
      ensures status == if error == Done then 0 else -1
    {
      if state == COMPLETE {
        state, elementLength, elementc := LENGTH, 0, 0;
      }
      var start, end;
      ghost var instr;
      error, start, end, instr := ReadLoop(socket);
      if error != Done {
        return -1, error;
      }
      unparsedStart, unparsedEnd := start, end;
      status := 0;
    }
  }
}
