/** The turn scheduler of VMController.cpp: one controller's queue, timer and viewers. */
module Controllers {
  import opened Numbers
  import opened Wire
  import opened Collections
  import opened Turns
  import opened UserLists
  import opened Broadcast

  /** Milliseconds until the turn timer expires, as BroadcastTurnInfo receives them. */
  function Remaining(expires: int, now: int): nat { (expires - now) % UINT32_LIMIT }

  ghost function Everyone(current: CollabVMUser?, queue: seq<CollabVMUser>): seq<CollabVMUser> {
    if current == null then [] else [current] + queue
  }

  /** What a new viewer is told of the vote. */
  function VoteNews(user: CollabVMUser, vote: Option<Ballot>): seq<Sent> {
    if vote.Some? && vote.value.remaining > 0 then [Sent(user, Encode(VoteInfo(vote.value)))] else []
  }

  twostate lemma {:induction false} SameNames(q: seq<CollabVMUser>)
    requires forall u :: u in q ==> u.username == old(u.username)
    ensures Names(q) == old(Names(q))
  {
    if q != [] { SameNames(q[1..]); }
  }

  class VMController {
    const users: UserList
    const turnTime: nat
    var currentTurn: CollabVMUser?
    var turnQueue: seq<CollabVMUser>
    var expires: int  // of the turn timer

    constructor (turnTime: nat)
      ensures Good() && TurnState() == Turns(None, []) && users.nodes == [] && fresh(users)
    {
      users := new UserList();
      this.turnTime, currentTurn, turnQueue, expires := turnTime, null, [], 0;
    }

    ghost function TurnState(): Turns<CollabVMUser>
      reads this
    {
      State(currentTurn, turnQueue)
    }

    /**
     * The turn invariant: without a holder nobody waits; nobody waits twice or while holding the turn;
     * holder and waiters view this VM; and exactly the waiters are flagged.
     */
    ghost predicate Good()
      reads this, users, users.nodes
    {
      && users.Linked()
      && InTurn(users.nodes, TurnState())
      && (forall u :: u in users.nodes ==> u.vmController == this)
    }

    /** The scheduler's state with the clock and the timer. */
    ghost function Clock(now: int): Timed<CollabVMUser>
      reads this
    {
      Timed(TurnState(), now, expires)
    }

    /** What these viewers are told of the present state. */
    ghost function AnnouncementTo(viewers: seq<CollabVMUser>, time: nat): seq<Sent>
      reads this, Everyone(currentTurn, turnQueue)`username
    {
      Messages(viewers, TurnState(), Info(time, Names(Everyone(currentTurn, turnQueue))), time, turnTime * 1000)
    }

    ghost function Announcement(time: nat): seq<Sent>
      reads this, users, Everyone(currentTurn, turnQueue)`username
    {
      AnnouncementTo(users.nodes, time)
    }

    method Announce(server: Server, time: nat)
      requires Good() && time < UINT32_LIMIT
      modifies server, users.nodes`waitingTurn
      ensures Good() && server.sent == old(server.sent) + Announcement(time)
    {
      server.BroadcastTurnInfo(users, turnQueue, currentTurn, time, turnTime);
    }

    /** The loop that erases a user who waits here; one who waits for another VM is not found. */
    method Erase(user: CollabVMUser) returns (found: bool)
      requires Good()
      modifies this`turnQueue, users.nodes`waitingTurn
      ensures Good() && turnQueue == Without(old(turnQueue), user) && found == (user in old(turnQueue))
    {
      WithoutIsErase(turnQueue, user);
      found := false;
      var it := 0;
      while it < |turnQueue|
        invariant it <= |turnQueue| && user !in turnQueue[..it] && turnQueue == old(turnQueue) && Good()
      {
        if turnQueue[it] == user {
          WithoutAt(turnQueue, it);
          assert user in turnQueue;
          turnQueue := turnQueue[..it] + turnQueue[it + 1..];
          user.waitingTurn := false;
          return true;
        }
        it := it + 1;
      }
      WithoutAbsent(turnQueue, user);
    }

    /** Control goes to the first in the queue, with a new turn timer, or to nobody. */
    method Pass(now: int)
      requires Good()
      modifies this, users.nodes`waitingTurn
      ensures Good() && TurnState() == PassOn(old(TurnState()))
      ensures expires == if currentTurn == null then old(expires) else now + turnTime * 1000
      ensures Clock(now) == Timing(old(Clock(now)), Advance, turnTime * 1000)
    {
      StepOk(TurnState(), Advance);
      ExpireIs(TurnState(), now, expires, turnTime * 1000);
      if turnQueue != [] {
        assert turnQueue[0] in turnQueue;
        currentTurn := turnQueue[0];
        currentTurn.waitingTurn := false;
        turnQueue := turnQueue[1..];
        expires := now + turnTime * 1000;
      } else {
        currentTurn := null;
      }
    }

    method NextTurn(server: Server, now: int)
      requires Good()
      modifies this, server, users.nodes`waitingTurn
      ensures Good() && TurnState() == Step(old(TurnState()), Advance)
      ensures Clock(now) == Timing(old(Clock(now)), Advance, turnTime * 1000)
      ensures server.sent == old(server.sent) + Announcement(if currentTurn == null then 0 else Remaining(expires, now))
    {
      Pass(now);
      var time := if currentTurn == null then 0 else Remaining(expires, now);
      Announce(server, time);
    }

    method ClearTurnQueue(server: Server)
      requires Good()
      modifies this, server, users.nodes`waitingTurn
      ensures Good() && TurnState() == Step(old(TurnState()), Clear)
      ensures expires == old(expires) && server.sent == old(server.sent) + Announcement(0)
    {
      while turnQueue != []
        invariant Good() && expires == old(expires) && server.sent == old(server.sent)
        decreases |turnQueue|
      {
        Drop();
      }
      currentTurn := null;
      Announce(server, 0);
    }

    method Drop()
      requires Good() && turnQueue != []
      modifies this`turnQueue, users.nodes`waitingTurn
      ensures Good() && turnQueue == old(turnQueue)[1..]
    {
      assert turnQueue[0] in turnQueue;
      turnQueue[0].waitingTurn := false;
      turnQueue := turnQueue[1..];
    }

    /** EndTurn up to the broadcast. */
    method Release(user: CollabVMUser, now: int) returns (turnChange: bool)
      requires Good()
      modifies this, users.nodes`waitingTurn
      ensures Good() && TurnState() == Step(old(TurnState()), End(user))
      ensures turnChange <==> TurnState() != old(TurnState())
      ensures Clock(now) == Timing(old(Clock(now)), End(user), turnTime * 1000)
    {
      turnChange := false;
      if user !in turnQueue { WithoutAbsent(turnQueue, user); }
      if user.waitingTurn { turnChange := Erase(user); }
      WithoutIsErase(old(turnQueue), user);
      assert turnChange <==> user in old(turnQueue) && user !in turnQueue;
      if currentTurn == user {
        assert turnQueue != [] ==> turnQueue[0] in turnQueue;
        Pass(now);
        assert currentTurn != user;
        turnChange := true;
      }
    }

    method EndTurn(server: Server, user: CollabVMUser, now: int)
      requires Good()
      modifies this, server, users.nodes`waitingTurn
      ensures Good() && TurnState() == Step(old(TurnState()), End(user))
      ensures Clock(now) == Timing(old(Clock(now)), End(user), turnTime * 1000)
      ensures server.sent == old(server.sent) + (if TurnState() == old(TurnState()) then []
        else Announcement(if currentTurn == null then 0 else Remaining(expires, now)))
    {
      var turnChange := Release(user, now);
      if turnChange {
        var time := if currentTurn == null then 0 else Remaining(expires, now);
        Announce(server, time);
      }
    }

    /** TurnRequest when it is granted, up to the broadcast. */
    method Grant(user: CollabVMUser, turnJack: bool, now: int)
      requires Good() && user in users.nodes && currentTurn != user && (user in turnQueue ==> turnJack)
      modifies this, users.nodes`waitingTurn
      ensures Good() && TurnState() == Step(old(TurnState()), Request(user, turnJack)) != old(TurnState())
      ensures Clock(now) == Timing(old(Clock(now)), Request(user, turnJack), turnTime * 1000)
    {
      if user !in turnQueue { WithoutAbsent(turnQueue, user); }
      WithoutIsErase(turnQueue, user);
      if user.waitingTurn { var _ := Erase(user); }
      Place(user, turnJack, now);
      assert currentTurn == user || user in turnQueue;
    }

    /** A user who does not wait takes control, queues up or takes the turn from its holder. */
    method Place(user: CollabVMUser, turnJack: bool, now: int)
      requires Good() && user in users.nodes && currentTurn != user && user !in turnQueue
      modifies this, users.nodes`waitingTurn
      ensures Good() && currentTurn != null
      ensures old(currentTurn) == null ==> currentTurn == user && turnQueue == old(turnQueue)
      ensures old(currentTurn) != null && !turnJack ==>
        currentTurn == old(currentTurn) && turnQueue == old(turnQueue) + [user]
      ensures old(currentTurn) != null && turnJack ==>
        currentTurn == user && turnQueue == [old(currentTurn)] + old(turnQueue)
      ensures expires == if currentTurn == old(currentTurn) then old(expires) else now + turnTime * 1000
    {
      if currentTurn == null {
        currentTurn := user;
        expires := now + turnTime * 1000;
      } else if !turnJack {
        turnQueue := turnQueue + [user];
        user.waitingTurn := true;
      } else {
        turnQueue := [currentTurn] + turnQueue;
        currentTurn.waitingTurn := true;
        currentTurn := user;
        expires := now + turnTime * 1000;
      }
    }

    /** A request is refused unless the VM runs and takes turns, or to whoever already waits or holds the turn. */
    method TurnRequest(
      server: Server, user: CollabVMUser, turnJack: bool, isStaff: bool, running: bool, turnsEnabled: bool, now: int
    )
      requires Good() && user in users.nodes
      modifies this, server, users.nodes`waitingTurn
      ensures Good()
      ensures TurnState() ==
        if running && (turnsEnabled || isStaff) then Step(old(TurnState()), Request(user, turnJack))
          else old(TurnState())
      ensures Clock(now) == if running && (turnsEnabled || isStaff)
        then Timing(old(Clock(now)), Request(user, turnJack), turnTime * 1000) else old(Clock(now))
      ensures server.sent == old(server.sent) +
        if TurnState() == old(TurnState()) then [] else Announcement(Remaining(expires, now))
    {
      if !running || (!turnsEnabled && !isStaff) || (user.waitingTurn && !turnJack) || currentTurn == user {
        return;
      }
      Grant(user, turnJack, now);
      Announce(server, Remaining(expires, now));
    }

    method Link(user: CollabVMUser)
      requires Good() && user.vmController == null && !user.waitingTurn
      modifies users, users.nodes`prev, user`next, user`prev, user`vmController
      ensures Good() && users.nodes == [user] + old(users.nodes)
    {
      users.AddUser(user);
      user.vmController := this;
    }

    /** What a new viewer is told of the turn. */
    ghost function TurnNews(user: CollabVMUser, now: int): seq<Sent>
      reads this, Everyone(currentTurn, turnQueue)`username
    {
      if currentTurn == null || expires <= now then []
      else [Sent(user, Encode(Info(Remaining(expires, now), Names(Everyone(currentTurn, turnQueue)))))]
    }

    method TellNews(server: Server, user: CollabVMUser, now: int, vote: Option<Ballot>)
      modifies server
      ensures server.sent == old(server.sent) + TurnNews(user, now) + VoteNews(user, vote)
    {
      if currentTurn != null && expires - now > 0 {
        var instr := TurnInstruction(turnQueue, currentTurn, Remaining(expires, now));
        server.SendWSMessage(user, instr);
      }
      if vote.Some? && vote.value.remaining > 0 {
        var instr := VoteInstruction(vote.value);
        server.SendWSMessage(user, instr);
      }
    }

    /** AddUser tells the new viewer whose turn it is, and how the vote that is on stands. */
    method AddUser(server: Server, user: CollabVMUser, now: int, vote: Option<Ballot>)
      requires Good() && user.vmController == null && !user.waitingTurn
      modifies server, users, users.nodes`prev, user`next, user`prev, user`vmController
      ensures Good() && users.nodes == [user] + old(users.nodes)
      ensures server.sent == old(server.sent) + TurnNews(user, now) + VoteNews(user, vote)
    {
      Link(user);
      TellNews(server, user, now, vote);
    }

    method Unlink(user: CollabVMUser)
      requires Good() && user in users.nodes && currentTurn != user && user !in turnQueue
      modifies users, users.nodes`next, users.nodes`prev, user`vmController
      ensures Good() && users.nodes == Without(old(users.nodes), user)
      ensures user.vmController == null && !user.waitingTurn
    {
      users.RemoveUser(user);
      user.vmController := null;
      WithoutIsErase(old(users.nodes), user);
    }

    /** Leaving changes no name, and so nothing of what was announced. */
    method UnlinkAnnounced(user: CollabVMUser, ghost time: nat)
      requires Good() && user in users.nodes && currentTurn != user && user !in turnQueue
      modifies users, users.nodes`next, users.nodes`prev, user`vmController
      ensures Good() && users.nodes == Without(old(users.nodes), user)
      ensures user.vmController == null && !user.waitingTurn
      ensures AnnouncementTo(old(users.nodes), time) == old(Announcement(time))
    {
      Unlink(user);
      SameNames(Everyone(currentTurn, turnQueue));
    }

    /**
     * RemoveUser, but for the user's vote. What the viewers, the one who leaves among them, are told is EndTurn's
     * news.
     */
    method RemoveUser(server: Server, user: CollabVMUser, now: int)
      requires Good() && user in users.nodes
      modifies this, server, users, users.nodes`waitingTurn, users.nodes`next, users.nodes`prev, user`vmController
      ensures Good() && users.nodes == Without(old(users.nodes), user)
      ensures user.vmController == null && !user.waitingTurn
      ensures TurnState() == Step(old(TurnState()), End(user))
      ensures Clock(now) == Timing(old(Clock(now)), End(user), turnTime * 1000)
      ensures server.sent == old(server.sent) + (if TurnState() == old(TurnState()) then []
        else AnnouncementTo(old(users.nodes), if currentTurn == null then 0 else Remaining(expires, now)))
    {
      ghost var viewers := users.nodes;
      EndTurn(server, user, now);
      assert users.nodes == viewers;
      Departed(old(TurnState()), user);
      UnlinkAnnounced(user, if currentTurn == null then 0 else Remaining(expires, now));
    }
  }

  /** Whoever ends a turn neither holds it nor waits for it afterwards. */
  lemma Departed<U>(t: Turns<U>, u: U)
    requires Ok(t)
    ensures var after := Step(t, End(u)); after.holder != Some(u) && u !in after.queue
  {
    WithoutIsErase(t.queue, u);
    if t.holder == Some(u) && t.queue != [] {
      WithoutAbsent(t.queue, u);
      assert t.queue[0] in t.queue;
    }
  }
}
