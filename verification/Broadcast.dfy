/** The turn instruction of CollabVM.cpp: who is sent what when the turn or the queue changes. */
module Broadcast {
  import opened Numbers
  import opened Wire
  import opened InstructionParser
  import opened Collections
  import opened Turns
  import opened UserLists

  /** The elements of a turn instruction: time left, number of users, then the holder and the waiters. */
  function Info(time: nat, names: seq<string>): seq<string> {
    ["turn", Decimal(time), Decimal(|names|)] + names
  }

  /** The wait announced to the waiter at index k, in 32-bit arithmetic. */
  function AnnouncedTo(time: nat, turnMs: nat, k: nat): nat { (time + k * turnMs) % UINT32_LIMIT }

  ghost function Names(q: seq<CollabVMUser>): (names: seq<string>)
    reads q`username
    ensures |names| == |q| && forall i :: 0 <= i < |q| ==> names[i] == q[i].username
  {
    if q == [] then [] else [q[0].username] + Names(q[1..])
  }

  lemma {:induction false} ElementsConcat(a: seq<string>, b: seq<string>)
    requires a != [] && b != []
    ensures Elements(a + b) == Elements(a) + "," + Elements(b)
  {
    if |a| == 1 {
      assert (a + b)[1..] == b;
    } else {
      assert (a + b)[1..] == a[1..] + b;
      ElementsConcat(a[1..], b);
    }
  }

  lemma ElementsTwo(s: string, t: string)
    ensures Elements([s, t]) == Element(s) + "," + Element(t)
  {
    assert [s, t][1..] == [t];
  }

  /** length, period, text; as every += of the source's printers appends it */
  method AppendElement(instr: string, text: string) returns (instr': string)
    ensures instr' == instr + Element(text)
  {
    instr' := instr + Decimal(|text|);
    instr' := instr' + ".";
    instr' := instr' + text;
  }

  /** The string built for the holder and the spectators. */
  method TurnInstruction(queue: seq<CollabVMUser>, current: CollabVMUser, time: nat) returns (instr: string)
    ensures instr == Encode(Info(time, Names([current] + queue)))
  {
    ghost var list := [Decimal(|queue| + 1), current.username];
    var list' := AppendElement("", Decimal(|queue| + 1));
    list' := list' + ",";
    list' := AppendElement(list', current.username);
    ElementsTwo(list[0], list[1]);
    ghost var all := Names([current] + queue);
    for i := 0 to |queue|
      invariant list == [Decimal(|queue| + 1)] + all[..i + 1]
      invariant list' == Elements(list)
    {
      list' := list' + ",";
      list' := AppendElement(list', queue[i].username);
      assert all[i + 1] == queue[i].username;
      ElementsSnoc(list, queue[i].username);
      list := list + [queue[i].username];
    }
    assert all[..|all|] == all;
    list' := list' + ";";
    instr := "4.turn,";
    instr := AppendElement(instr, Decimal(time));
    instr := instr + ",";
    instr := instr + list';
    InfoText(time, all, instr);
  }

  /** A vote that is on: milliseconds left, and the votes counted. */
  datatype Ballot = Ballot(remaining: int, yes: nat, no: nat)

  /** The elements of a vote instruction. */
  function VoteInfo(ballot: Ballot): seq<string>
    requires ballot.remaining > 0
  {
    ["vote", "1", Decimal(ballot.remaining), Decimal(ballot.yes), Decimal(ballot.no)]
  }

  lemma VoteHead(head: seq<string>)
    requires head == ["vote", "1"]
    ensures Elements(head) + "," == "4.vote,1.1,"
  {
    assert Decimal(4) == "4" && Decimal(1) == "1";
    ElementsTwo(head[0], head[1]);
    assert Element(head[0]) == "4.vote" && Element(head[1]) == "1.1";
  }

  lemma VoteText(a: string, b: string, c: string, head: string)
    requires head == "4.vote,1.1,"
    ensures Encode(["vote", "1", a, b, c]) == head + Element(a) + "," + Element(b) + "," + Element(c) + ";"
  {
    var list := ["vote", "1"];
    VoteHead(list);
    ElementsSnoc(list, a);
    ElementsSnoc(list + [a], b);
    ElementsSnoc(list + [a] + [b], c);
    assert list + [a] + [b] + [c] == ["vote", "1", a, b, c];
  }

  /** The string SendVoteInfo builds. */
  method VoteInstruction(ballot: Ballot) returns (instr: string)
    requires ballot.remaining > 0
    ensures instr == Encode(VoteInfo(ballot))
  {
    instr := "4.vote,1.1,";
    instr := AppendElement(instr, Decimal(ballot.remaining));
    instr := instr + ",";
    instr := AppendElement(instr, Decimal(ballot.yes));
    instr := instr + ",";
    instr := AppendElement(instr, Decimal(ballot.no));
    instr := instr + ";";
    VoteText(Decimal(ballot.remaining), Decimal(ballot.yes), Decimal(ballot.no), "4.vote,1.1,");
  }

  lemma ElementTurn()
    ensures Element("turn") + "," == "4.turn,"
  {
    assert Decimal(4) == "4";
  }

  lemma Grouped(a: string, b: string, c: string, d: string, e: string)
    ensures a + b + c + (d + e) == a + b + c + d + e
  {}

  lemma InfoText(time: nat, names: seq<string>, text: string)
    requires text == "4.turn," + Element(Decimal(time)) + "," + (Elements([Decimal(|names|)] + names) + ";")
    ensures text == Encode(Info(time, names))
  {
    var front, back := ["turn", Decimal(time)], [Decimal(|names|)] + names;
    ElementTurn();
    ElementsTwo("turn", Decimal(time));
    ElementsConcat(front, back);
    assert front + back == Info(time, names);
    Grouped("4.turn,", Element(Decimal(time)), ",", Elements(back), ";");
  }

  // ----- the instructions sent

  datatype Sent = Sent(user: CollabVMUser, text: string)

  /** What the first n waiters are sent: the turn instruction and their own wait behind it. */
  function ToWaiters(queue: seq<CollabVMUser>, info: seq<string>, time: nat, turnMs: nat, n: nat): seq<Sent>
    requires n <= |queue| && info != []
  {
    if n == 0 then []
    else
      var own := Decimal(AnnouncedTo(time, turnMs, n - 1));
      ToWaiters(queue, info, time, turnMs, n - 1) + [Sent(queue[n - 1], Encode(info + [own]))]
  }

  /** What those of the first n viewers who neither hold the turn nor wait for it are sent. */
  function ToSpectators(nodes: seq<CollabVMUser>, t: Turns<CollabVMUser>, text: string, n: nat): seq<Sent>
    requires n <= |nodes|
  {
    if n == 0 then []
    else
      var u, others := nodes[n - 1], ToSpectators(nodes, t, text, n - 1);
      if u in t.queue || t.holder == Some(u) then others else others + [Sent(u, text)]
  }

  /** The instruction when nobody holds the turn. */
  const NOBODY := "4.turn,1.0,1.0;"

  function Messages(nodes: seq<CollabVMUser>, t: Turns<CollabVMUser>, info: seq<string>, time: nat,
    turnMs: nat): seq<Sent>
    requires info != []
  {
    if t.holder.None? then ToSpectators(nodes, t, NOBODY, |nodes|)
    else
      [Sent(t.holder.value, Encode(info))]
      + ToWaiters(t.queue, info, time, turnMs, |t.queue|)
      + ToSpectators(nodes, t, Encode(info), |nodes|)
  }

  /** The holder and the waiters are among the viewers, and exactly the waiters are flagged. */
  ghost predicate InTurn(nodes: seq<CollabVMUser>, t: Turns<CollabVMUser>)
    reads nodes`waitingTurn
  {
    && Ok(t)
    && (t.holder.Some? ==> t.holder.value in nodes)
    && (forall u :: u in t.queue ==> u in nodes)
    && (forall u :: u in nodes ==> (u.waitingTurn <==> u in t.queue))
  }

  function State(current: CollabVMUser?, queue: seq<CollabVMUser>): Turns<CollabVMUser> {
    if current == null then Turns(None, queue) else var holder: CollabVMUser := current; Turns(Some(holder), queue)
  }

  lemma NextWait(time: nat, turnMs: nat, k: nat)
    ensures (AnnouncedTo(time, turnMs, k) + turnMs) % UINT32_LIMIT == AnnouncedTo(time, turnMs, k + 1)
  {
    var exact := time + k * turnMs;
    assert time + (k + 1) * turnMs == exact + turnMs;
    var q := exact / UINT32_LIMIT;
    assert exact + turnMs == exact % UINT32_LIMIT + turnMs + q * UINT32_LIMIT;
  }

  lemma Together(was: seq<Sent>, a: seq<Sent>, b: seq<Sent>, c: seq<Sent>)
    ensures was + a + b + c == was + (a + b + c)
  {}

  /** Clearing the flag of the holder, who is not flagged. */
  method Unflag(ghost nodes: seq<CollabVMUser>, current: CollabVMUser, ghost t: Turns<CollabVMUser>)
    requires InTurn(nodes, t) && t.holder == Some(current)
    modifies nodes`waitingTurn
    ensures InTurn(nodes, t)
  {
    current.waitingTurn := false;
  }

  class Server {
    var sent: seq<Sent>

    constructor ()
      ensures sent == []
    {
      sent := [];
    }

    method SendWSMessage(user: CollabVMUser, text: string)
      modifies this`sent
      ensures sent == old(sent) + [Sent(user, text)]
    {
      sent := sent + [Sent(user, text)];
    }

    /** Each waiter's own wait is appended to the instruction, sent, and cut off again. */
    method SendToWaiters(queue: seq<CollabVMUser>, instr: string, time: nat, turnTime: nat, ghost info: seq<string>)
        returns (instr': string)
      requires info != [] && instr == Encode(info) && time < UINT32_LIMIT
      modifies this`sent
      ensures instr' == instr && sent == old(sent) + ToWaiters(queue, info, time, turnTime * 1000, |queue|)
    {
      instr' := instr[..|instr| - 1] + ",";
      var before := |instr'|;
      var turnMs, wait := turnTime * 1000, time;
      for i := 0 to |queue|
        invariant instr' == Elements(info) + "," && |instr'| == before
        invariant wait == AnnouncedTo(time, turnMs, i)
        invariant sent == old(sent) + ToWaiters(queue, info, time, turnMs, i)
      {
        ElementsSnoc(info, Decimal(wait));
        instr' := AppendElement(instr', Decimal(wait));
        instr' := instr' + ";";
        SendWSMessage(queue[i], instr');
        instr' := instr'[..before];
        NextWait(time, turnMs, i);
        wait := (wait + turnMs) % UINT32_LIMIT;
      }
      instr' := instr'[..|instr'| - 1] + ";";
    }

    /** ForEachUser with the function that skips the holder and the flagged users. */
    method SendToSpectators(users: UserList, current: CollabVMUser?, text: string, ghost t: Turns<CollabVMUser>)
      requires users.Linked() && InTurn(users.nodes, t) && t == State(current, t.queue)
      modifies this`sent
      ensures sent == old(sent) + ToSpectators(users.nodes, t, text, |users.nodes|)
    {
      var user := users.users;
      ghost var i := 0;
      while user != null
        invariant i <= |users.nodes| && user == At(users.nodes, i, null)
        invariant sent == old(sent) + ToSpectators(users.nodes, t, text, i)
        decreases |users.nodes| - i
      {
        if !(user.waitingTurn || user == current) { SendWSMessage(user, text); }
        assert user == users.nodes[i];
        user := user.next;
        i := i + 1;
      }
    }

    method BroadcastTurnInfo(users: UserList, queue: seq<CollabVMUser>, current: CollabVMUser?, time: nat,
      turnTime: nat)
      requires users.Linked() && InTurn(users.nodes, State(current, queue)) && time < UINT32_LIMIT
      modifies this`sent, users.nodes`waitingTurn
      ensures users.Linked() && InTurn(users.nodes, State(current, queue))
      ensures sent == old(sent) + Messages(users.nodes, State(current, queue),
        Info(time, Names(if current == null then [] else [current] + queue)), time, turnTime * 1000)
    {
      ghost var t := State(current, queue);
      if current == null {
        SendToSpectators(users, current, NOBODY, t);
      } else {
        SendHolder(users, queue, current, time, turnTime, t);
      }
    }

    method SendHolder(
      users: UserList, queue: seq<CollabVMUser>, current: CollabVMUser, time: nat, turnTime: nat,
      ghost t: Turns<CollabVMUser>
    )
      requires t == State(current, queue) && users.Linked() && InTurn(users.nodes, t) && time < UINT32_LIMIT
      modifies this`sent, users.nodes`waitingTurn
      ensures InTurn(users.nodes, t)
      ensures sent == old(sent) + Messages(users.nodes, t, Info(time, Names([current] + queue)), time, turnTime * 1000)
    {
      var instr := TurnInstruction(queue, current, time);
      ghost var info := Info(time, Names([current] + queue));
      Unflag(users.nodes, current, t);
      SendTurn(users, queue, current, instr, time, turnTime, info, t);
    }

    method SendTurn(
      users: UserList, queue: seq<CollabVMUser>, current: CollabVMUser, text: string, time: nat, turnTime: nat,
      ghost info: seq<string>, ghost t: Turns<CollabVMUser>
    )
      requires t == State(current, queue) && users.Linked() && InTurn(users.nodes, t) && time < UINT32_LIMIT
      requires info != [] && text == Encode(info)
      modifies this`sent
      ensures sent == old(sent) + Messages(users.nodes, t, info, time, turnTime * 1000)
    {
      var instr := text;
      SendWSMessage(current, instr);
      ghost var waiters := ToWaiters(queue, info, time, turnTime * 1000, |queue|);
      if queue != [] {
        instr := SendToWaiters(queue, instr, time, turnTime, info);
      }
      assert sent == old(sent) + [Sent(current, text)] + waiters;
      SendToSpectators(users, current, instr, t);
      Together(old(sent), [Sent(current, text)], waiters, ToSpectators(users.nodes, t, text, |users.nodes|));
    }
  }

  lemma NobodyText()
    ensures NOBODY == Encode(["turn", "0", "0"])
  {
    assert ["turn", "0", "0"] == ["turn"] + ["0", "0"];
    ElementsConcat(["turn"], ["0", "0"]);
    ElementsTwo("0", "0");
    ElementTurn();
    assert Decimal(1) == "1";
  }

  // ----- every viewer is sent exactly one instruction, and can read it

  function Recipients(messages: seq<Sent>): (users: seq<CollabVMUser>)
    ensures |users| == |messages| && forall i :: 0 <= i < |users| ==> users[i] == messages[i].user
  {
    if messages == [] then [] else [messages[0].user] + Recipients(messages[1..])
  }

  /** What a viewer is to be told: everyone the list of users, and a waiter its own wait as well. */
  ghost predicate Proper(t: Turns<CollabVMUser>, info: seq<string>, time: nat, turnMs: nat, m: Sent)
    requires info != []
  {
    if t.holder.None? then m.text == Encode(["turn", "0", "0"])
    else
      && (m.user !in t.queue ==> m.text == Encode(info))
      && (forall k :: 0 <= k < |t.queue| && t.queue[k] == m.user ==>
        m.text == Encode(info + [Decimal(AnnouncedTo(time, turnMs, k))]))
  }

  lemma {:induction false} WaitersSent(queue: seq<CollabVMUser>, info: seq<string>, time: nat, turnMs: nat, n: nat)
    requires n <= |queue| && info != []
    ensures var ms := ToWaiters(queue, info, time, turnMs, n);
      |ms| == n && forall k :: 0 <= k < n ==>
        ms[k].user == queue[k] && ms[k].text == Encode(info + [Decimal(AnnouncedTo(time, turnMs, k))])
  {
    if n > 0 { WaitersSent(queue, info, time, turnMs, n - 1); }
  }

  predicate Spectates(t: Turns<CollabVMUser>, u: CollabVMUser) { u !in t.queue && t.holder != Some(u) }

  /** The spectators among the first n viewers. */
  function Spectators(nodes: seq<CollabVMUser>, t: Turns<CollabVMUser>, n: nat): seq<CollabVMUser>
    requires n <= |nodes|
  {
    if n == 0 then []
    else if Spectates(t, nodes[n - 1]) then Spectators(nodes, t, n - 1) + [nodes[n - 1]]
    else Spectators(nodes, t, n - 1)
  }

  lemma {:induction false} SpectatorsAre(nodes: seq<CollabVMUser>, t: Turns<CollabVMUser>, n: nat)
    requires n <= |nodes| && NoDup(nodes)
    ensures var users := Spectators(nodes, t, n);
      NoDup(users) && forall u :: u in users <==> u in nodes[..n] && Spectates(t, u)
  {
    if n > 0 {
      SpectatorsAre(nodes, t, n - 1);
      assert nodes[..n] == nodes[..n - 1] + [nodes[n - 1]];
      assert nodes[n - 1] !in nodes[..n - 1];
    }
  }

  lemma {:induction false} SpectatorsSent(nodes: seq<CollabVMUser>, t: Turns<CollabVMUser>, text: string, n: nat)
    requires n <= |nodes|
    ensures var ms, users := ToSpectators(nodes, t, text, n), Spectators(nodes, t, n);
      |ms| == |users| && forall i :: 0 <= i < |ms| ==> ms[i].user == users[i] && ms[i].text == text
  {
    if n > 0 { SpectatorsSent(nodes, t, text, n - 1); }
  }

  lemma RecipientsConcat(a: seq<Sent>, b: seq<Sent>)
    ensures Recipients(a + b) == Recipients(a) + Recipients(b)
  {}

  lemma RecipientsAre(messages: seq<Sent>, users: seq<CollabVMUser>)
    requires |messages| == |users| && forall i :: 0 <= i < |users| ==> messages[i].user == users[i]
    ensures Recipients(messages) == users
  {}

  /** Who is sent a message, in order: the holder, the waiters and then the spectators. */
  lemma MessagesTo(nodes: seq<CollabVMUser>, t: Turns<CollabVMUser>, info: seq<string>, time: nat, turnMs: nat)
    requires info != []
    ensures Recipients(Messages(nodes, t, info, time, turnMs)) == InOrder(nodes, t)
  {
    var text := if t.holder.None? then NOBODY else Encode(info);
    var spectators := ToSpectators(nodes, t, text, |nodes|);
    SpectatorsSent(nodes, t, text, |nodes|);
    RecipientsAre(spectators, Spectators(nodes, t, |nodes|));
    if t.holder.Some? {
      var waiters := ToWaiters(t.queue, info, time, turnMs, |t.queue|);
      WaitersSent(t.queue, info, time, turnMs, |t.queue|);
      RecipientsAre(waiters, t.queue);
      var first := [Sent(t.holder.value, text)];
      RecipientsAre(first, [t.holder.value]);
      RecipientsConcat(first, waiters);
      RecipientsConcat(first + waiters, spectators);
    }
  }

  function InOrder(nodes: seq<CollabVMUser>, t: Turns<CollabVMUser>): seq<CollabVMUser> {
    if t.holder.None? then Spectators(nodes, t, |nodes|)
    else [t.holder.value] + t.queue + Spectators(nodes, t, |nodes|)
  }

  lemma EveryoneOnce(nodes: seq<CollabVMUser>, t: Turns<CollabVMUser>)
    requires NoDup(nodes) && InTurn(nodes, t)
    ensures NoDup(InOrder(nodes, t)) && forall u :: u in InOrder(nodes, t) <==> u in nodes
  {
    SpectatorsAre(nodes, t, |nodes|);
    assert nodes[..|nodes|] == nodes;
    var spectators := Spectators(nodes, t, |nodes|);
    forall i | 0 <= i < |spectators| ensures Spectates(t, spectators[i]) {
      assert spectators[i] in spectators;
    }
  }

  /** In a state of turns every viewer is sent exactly one instruction, and nobody else is sent any. */
  lemma EachViewerOnce(nodes: seq<CollabVMUser>, t: Turns<CollabVMUser>, info: seq<string>, time: nat, turnMs: nat)
    requires NoDup(nodes) && InTurn(nodes, t) && info != []
    ensures var users := Recipients(Messages(nodes, t, info, time, turnMs));
      NoDup(users) && forall u :: u in users <==> u in nodes
  {
    EveryoneOnce(nodes, t);
    MessagesTo(nodes, t, info, time, turnMs);
  }

  lemma WaiterProper(t: Turns<CollabVMUser>, info: seq<string>, time: nat, turnMs: nat, m: Sent)
    requires Ok(t) && t.holder.Some? && info != [] && m in ToWaiters(t.queue, info, time, turnMs, |t.queue|)
    ensures Proper(t, info, time, turnMs, m)
  {
    WaitersSent(t.queue, info, time, turnMs, |t.queue|);
  }

  lemma SpectatorProper(nodes: seq<CollabVMUser>, t: Turns<CollabVMUser>, text: string, m: Sent)
    requires NoDup(nodes) && m in ToSpectators(nodes, t, text, |nodes|)
    ensures m.text == text && m.user !in t.queue
  {
    SpectatorsAre(nodes, t, |nodes|);
    SpectatorsSent(nodes, t, text, |nodes|);
    var i :| 0 <= i < |ToSpectators(nodes, t, text, |nodes|)| && ToSpectators(nodes, t, text, |nodes|)[i] == m;
    assert m.user in Spectators(nodes, t, |nodes|);
  }

  /** Each instruction is the one proper to its recipient. */
  lemma EachMessageProper(nodes: seq<CollabVMUser>, t: Turns<CollabVMUser>, info: seq<string>, time: nat, turnMs: nat,
    m: Sent)
    requires NoDup(nodes) && InTurn(nodes, t) && info != [] && m in Messages(nodes, t, info, time, turnMs)
    ensures Proper(t, info, time, turnMs, m)
  {
    if t.holder.None? {
      NobodyText();
      SpectatorProper(nodes, t, NOBODY, m);
    } else if m in ToWaiters(t.queue, info, time, turnMs, |t.queue|) {
      WaiterProper(t, info, time, turnMs, m);
    } else if m in ToSpectators(nodes, t, Encode(info), |nodes|) {
      SpectatorProper(nodes, t, Encode(info), m);
    }
  }

  lemma {:induction false} ElementShorter(list: seq<string>, s: string)
    requires s in list
    ensures |s| <= |Elements(list)|
  {
    if list[0] != s { ElementShorter(list[1..], s); }
  }

  /** A proper instruction is read back as the list of the recipient's turn information. */
  lemma ProperReads(t: Turns<CollabVMUser>, info: seq<string>, time: nat, turnMs: nat, m: Sent, list: seq<string>)
    requires info != [] && Proper(t, info, time, turnMs, m) && |m.text| < ULLONG_LIMIT
    requires
      if t.holder.None? then list == ["turn", "0", "0"]
      else if m.user !in t.queue then list == info
      else exists k ::
        0 <= k < |t.queue| && t.queue[k] == m.user && list == info + [Decimal(AnnouncedTo(time, turnMs, k))]
    ensures ElementsFrom(m.text, 0, |m.text|) == Some(list)
  {
    assert m.text == Encode(list);
    forall s | s in list ensures |s| < |m.text| { ElementShorter(list, s); }
    ReadsBack(list, |m.text|);
  }

  /** Without wrap-around the announced wait is the time left and a full turn for everyone ahead. */
  lemma AnnouncedExactly(s: Timed<CollabVMUser>, k: nat, turnMs: nat)
    requires s.now <= s.expires && Wait(s, k, turnMs) < UINT32_LIMIT
    ensures AnnouncedTo(s.expires - s.now, turnMs, k) == Wait(s, k, turnMs)
  {}
}
