/** The turn queue of one VM as a value, and what its holders and waiters may rely on over whole runs. */
module Turns {
  import opened Collections
  import opened Wire

  /** current_turn_ and turn_queue_ */
  datatype Turns<U> = Turns(holder: Option<U>, queue: seq<U>)

  datatype Event<U> =
    | Request(user: U, jack: bool)  // TurnRequest on a running VM
    | Advance                       // NextTurn
    | End(user: U)                  // EndTurn
    | Clear                         // ClearTurnQueue

  ghost predicate Ok<U>(t: Turns<U>) {
    && (t.holder.None? ==> t.queue == [])
    && NoDup(t.queue)
    && (t.holder.Some? ==> t.holder.value !in t.queue)
  }

  /** The queue after erasing the first entry of a user, if there is one. */
  function Without<U(==)>(q: seq<U>, u: U): seq<U> {
    if q == [] then [] else if q[0] == u then q[1..] else [q[0]] + Without(q[1..], u)
  }

  /** Control goes to the first in the queue, or to nobody. */
  function PassOn<U>(t: Turns<U>): Turns<U> {
    if t.queue == [] then Turns(None, []) else Turns(Some(t.queue[0]), t.queue[1..])
  }

  function Step<U(==)>(t: Turns<U>, e: Event<U>): Turns<U> {
    match e
    case Request(u, jack) =>
      if (u in t.queue && !jack) || t.holder == Some(u) then t
      else
        var others := Without(t.queue, u);
        if t.holder.None? then Turns(Some(u), others)
        else if !jack then Turns(t.holder, others + [u])
        else Turns(Some(u), [t.holder.value] + others)
    case Advance => PassOn(t)
    case End(u) =>
      var rest := Turns(t.holder, Without(t.queue, u));
      if t.holder == Some(u) then PassOn(rest) else rest
    case Clear => Turns(None, [])
  }

  function Run<U(==)>(t: Turns<U>, events: seq<Event<U>>): Turns<U>
    decreases events
  {
    if events == [] then t else Run(Step(t, events[0]), events[1..])
  }

  // ----- erasing one entry

  lemma {:induction false} WithoutAbsent<U>(q: seq<U>, u: U)
    requires u !in q
    ensures Without(q, u) == q
  {
    if q != [] { WithoutAbsent(q[1..], u); }
  }

  /** Erasing the entry at i closes the gap. */
  lemma {:induction false} WithoutAt<U>(q: seq<U>, i: nat)
    requires NoDup(q) && i < |q|
    ensures Without(q, q[i]) == q[..i] + q[i + 1..]
  {
    if i > 0 {
      assert q[0] != q[i];
      WithoutAt(q[1..], i - 1);
      assert q[..i] == [q[0]] + q[1..][..i - 1];
    }
  }

  /** Where the entry at i goes when the one at k is erased. */
  function Closed<U>(q: seq<U>, k: nat, i: nat): (i': nat)
    requires k < |q| && i < |q| && i != k
    ensures i' < |q[..k] + q[k + 1..]| && (q[..k] + q[k + 1..])[i'] == q[i]
  {
    if i < k then i else i - 1
  }

  lemma WithoutIsErase<U>(q: seq<U>, u: U)
    requires NoDup(q)
    ensures NoDup(Without(q, u)) && u !in Without(q, u)
    ensures forall w :: w in Without(q, u) <==> w in q && w != u
  {
    if u !in q {
      WithoutAbsent(q, u);
    } else {
      var i :| 0 <= i < |q| && q[i] == u;
      WithoutAt(q, i);
      var rest := q[..i] + q[i + 1..];
      forall w | w in q && w != u ensures w in rest {
        var j :| 0 <= j < |q| && q[j] == w;
        assert rest[Closed(q, i, j)] == w;
      }
    }
  }

  /** Ending the turn of someone who neither holds it nor waits changes nothing. */
  lemma Stranger<U>(t: Turns<U>, u: U)
    requires t.holder != Some(u) && u !in t.queue
    ensures Step(t, End(u)) == t
  {
    WithoutAbsent(t.queue, u);
  }

  // ----- the invariant over every run

  lemma StepOk<U>(t: Turns<U>, e: Event<U>)
    requires Ok(t)
    ensures Ok(Step(t, e))
  {
    if e.Request? || e.End? { WithoutIsErase(t.queue, e.user); }
  }

  lemma {:induction false} RunOk<U>(t: Turns<U>, events: seq<Event<U>>)
    requires Ok(t)
    ensures Ok(Run(t, events))
    decreases events
  {
    if events != [] {
      StepOk(t, events[0]);
      RunOk(Step(t, events[0]), events[1..]);
    }
  }

  // ----- waiting

  /** The event takes the turn from its holder and gives it to the first in the queue. */
  predicate Passes<U(==)>(t: Turns<U>, e: Event<U>) {
    t.queue != [] && (e.Advance? || (e.End? && t.holder == Some(e.user)))
  }

  /** The event is a turn-jack that takes the turn from a holder. */
  predicate Jacks<U(==)>(t: Turns<U>, e: Event<U>) {
    e.Request? && e.jack && t.holder.Some? && t.holder != Some(e.user)
  }

  function CountPasses<U(==)>(t: Turns<U>, events: seq<Event<U>>): nat
    decreases events
  {
    if events == [] then 0
    else (if Passes(t, events[0]) then 1 else 0) + CountPasses(Step(t, events[0]), events[1..])
  }

  function CountJacks<U(==)>(t: Turns<U>, events: seq<Event<U>>): nat
    decreases events
  {
    if events == [] then 0
    else (if Jacks(t, events[0]) then 1 else 0) + CountJacks(Step(t, events[0]), events[1..])
  }

  /** The user is in the queue all along the run. */
  predicate StaysWaiting<U(==)>(t: Turns<U>, events: seq<Event<U>>, w: U)
    decreases events
  {
    w in t.queue && (events == [] || StaysWaiting(Step(t, events[0]), events[1..], w))
  }

  /** Erasing another entry moves a waiter up by one, or not at all. */
  lemma WithoutMoves<U>(q: seq<U>, u: U, p: nat) returns (p': nat)
    requires NoDup(q) && p < |q| && q[p] != u
    ensures p' < |Without(q, u)| && Without(q, u)[p'] == q[p] && p - 1 <= p' <= p
  {
    if u !in q {
      WithoutAbsent(q, u);
      p' := p;
    } else {
      var i :| 0 <= i < |q| && q[i] == u;
      WithoutAt(q, i);
      p' := Closed(q, i, p);
    }
  }

  lemma StepMoves<U>(t: Turns<U>, e: Event<U>, p: nat) returns (p': nat)
    requires Ok(t) && p < |t.queue| && t.queue[p] in Step(t, e).queue
    ensures p' < |Step(t, e).queue| && Step(t, e).queue[p'] == t.queue[p]
    ensures p' + (if Passes(t, e) then 1 else 0) <= p + if Jacks(t, e) then 1 else 0
  {
    var w := t.queue[p];
    match e
    case Request(u, jack) =>
      if (u in t.queue && !jack) || t.holder == Some(u) {
        p' := p;
      } else {
        WithoutIsErase(t.queue, u);
        p' := WithoutMoves(t.queue, u, p);
        if jack { p' := p' + 1; }
      }
    case Advance =>
      assert p > 0;
      p' := p - 1;
    case End(u) =>
      WithoutIsErase(t.queue, u);
      if t.holder == Some(u) {
        WithoutAbsent(t.queue, u);
        p' := p - 1;
      } else {
        p' := WithoutMoves(t.queue, u, p);
      }
    case Clear => assert false;
  }

  /**
   * A user who stays in the queue, at index p at first, is after n turns passed on and m turn-jacks
   * at index p - n + m or before it.
   */
  lemma {:induction false} BoundedWaiting<U>(t: Turns<U>, events: seq<Event<U>>, p: nat, p': nat)
    requires Ok(t) && p < |t.queue| && StaysWaiting(t, events, t.queue[p])
    requires p' < |Run(t, events).queue| && Run(t, events).queue[p'] == t.queue[p]
    ensures p' <= p - CountPasses(t, events) + CountJacks(t, events)
    decreases events
  {
    if events == [] {
      assert p == p';
    } else {
      StepOk(t, events[0]);
      var next := StepMoves(t, events[0], p);
      BoundedWaiting(Step(t, events[0]), events[1..], next, p');
    }
  }

  lemma {:induction false} StillWaiting<U>(t: Turns<U>, events: seq<Event<U>>, w: U)
    requires StaysWaiting(t, events, w)
    ensures w in Run(t, events).queue
    decreases events
  {
    if events != [] { StillWaiting(Step(t, events[0]), events[1..], w); }
  }

  /** Once more turns were passed on than users were ahead, turn-jacks included, the user has left the queue. */
  lemma Served<U>(t: Turns<U>, events: seq<Event<U>>, p: nat)
    requires Ok(t) && p < |t.queue| && CountPasses(t, events) > p + CountJacks(t, events)
    ensures !StaysWaiting(t, events, t.queue[p])
  {
    if StaysWaiting(t, events, t.queue[p]) {
      StillWaiting(t, events, t.queue[p]);
      var p' :| 0 <= p' < |Run(t, events).queue| && Run(t, events).queue[p'] == t.queue[p];
      BoundedWaiting(t, events, p, p');
    }
  }

  /** How the queue is left: into control as its first or by turn-jack, by giving up, or when it is cleared. */
  lemma Departure<U>(t: Turns<U>, e: Event<U>, p: nat)
    requires Ok(t) && p < |t.queue|
    ensures var w, after := t.queue[p], Step(t, e);
      w !in after.queue <==> e.Clear? || e == End(w) || e == Request(w, true) || (p == 0 && Passes(t, e))
    ensures var w, after := t.queue[p], Step(t, e);
      after.holder == Some(w) <==> e == Request(w, true) || (p == 0 && Passes(t, e))
  {
    var w := t.queue[p];
    match e
    case Request(u, jack) =>
      WithoutIsErase(t.queue, u);
    case Advance =>
      if p > 0 { assert t.queue[1..][p - 1] == w; }
    case End(u) =>
      WithoutIsErase(t.queue, u);
      if t.holder == Some(u) {
        WithoutAbsent(t.queue, u);
        if p > 0 { assert t.queue[1..][p - 1] == w; }
      }
    case Clear =>
  }

  // ----- nobody is overtaken

  ghost predicate Ahead<U>(q: seq<U>, v: U, w: U) { exists i, j :: 0 <= i < j < |q| && q[i] == v && q[j] == w }

  lemma AheadAt<U>(q: seq<U>, i: nat, j: nat)
    requires i < j < |q|
    ensures Ahead(q, q[i], q[j])
  {}

  lemma WithoutKeepsOrder<U>(q: seq<U>, u: U, v: U, w: U)
    requires NoDup(q) && Ahead(q, v, w) && v != u && w != u
    ensures Ahead(Without(q, u), v, w)
  {
    if u !in q {
      WithoutAbsent(q, u);
    } else {
      var k :| 0 <= k < |q| && q[k] == u;
      var i, j :| 0 <= i < j < |q| && q[i] == v && q[j] == w;
      WithoutAt(q, k);
      AheadAt(Without(q, u), Closed(q, k, i), Closed(q, k, j));
    }
  }

  lemma AheadWithin<U>(front: seq<U>, q: seq<U>, back: seq<U>, v: U, w: U)
    requires Ahead(q, v, w)
    ensures Ahead(front + q + back, v, w)
  {
    var i, j :| 0 <= i < j < |q| && q[i] == v && q[j] == w;
    var longer := front + q + back;
    assert longer[|front| + i] == v && longer[|front| + j] == w;
  }

  lemma StepKeepsOrder<U>(t: Turns<U>, e: Event<U>, v: U, w: U)
    requires Ok(t) && Ahead(t.queue, v, w) && v in Step(t, e).queue && w in Step(t, e).queue
    ensures Ahead(Step(t, e).queue, v, w)
  {
    if e.Advance? || (e.End? && t.holder == Some(e.user)) {
      if e.End? { WithoutAbsent(t.queue, e.user); }
      var i, j :| 0 <= i < j < |t.queue| && t.queue[i] == v && t.queue[j] == w;
      assert t.queue[1..][i - 1] == v && t.queue[1..][j - 1] == w;
    } else if Step(t, e) != t {
      WithoutIsErase(t.queue, e.user);
      var others := Without(t.queue, e.user);
      WithoutKeepsOrder(t.queue, e.user, v, w);
      if e.Request? {
        AheadWithin([], others, [e.user], v, w);
        assert [] + others + [e.user] == others + [e.user];
        if t.holder.Some? {
          AheadWithin([t.holder.value], others, [], v, w);
          assert [t.holder.value] + others + [] == [t.holder.value] + others;
        }
      }
    }
  }

  /**
   * While both wait, the one ahead stays ahead; so when the other gets control, it is by turn-jack or after the
   * first has left the queue.
   */
  lemma {:induction false} NoOvertaking<U>(t: Turns<U>, events: seq<Event<U>>, v: U, w: U, last: Event<U>)
    requires Ok(t) && Ahead(t.queue, v, w) && StaysWaiting(t, events, v) && StaysWaiting(t, events, w)
    ensures Ahead(Run(t, events).queue, v, w)
    ensures Step(Run(t, events), last).holder == Some(w) ==> last == Request(w, true)
    decreases events
  {
    if events == [] {
      var i, j :| 0 <= i < j < |t.queue| && t.queue[i] == v && t.queue[j] == w;
      Departure(t, last, j);
    } else {
      StepOk(t, events[0]);
      StepKeepsOrder(t, events[0], v, w);
      NoOvertaking(Step(t, events[0]), events[1..], v, w, last);
    }
  }

  // ----- the announced waiting time

  /** A VM's turns with the clock and the moment the turn timer expires, in milliseconds. */
  datatype Timed<U> = Timed(turns: Turns<U>, now: int, expires: int)

  /** What can happen while no turn is jacked. A queue that is cleared leaves nobody waiting. */
  datatype TimedEvent<U> =
    | Tick(ms: nat)
    | Join(user: U)   // a turn request without turn-jack
    | Leave(user: U)  // EndTurn, for a user who gives up, leaves the VM or is made to
    | Expire          // the timer callback, and with it NextTurn

  /** Time passes up to the expiry of a turn, and only then the timer passes it on. */
  predicate Enabled<U>(s: Timed<U>, e: TimedEvent<U>) {
    match e
    case Tick(ms) => s.now + ms <= s.expires
    case Expire => s.now == s.expires && s.turns.holder.Some?
    case _ => true
  }

  /** The clock stands still for a step of the scheduler; a new holder starts the timer again. */
  function Timing<U(==)>(s: Timed<U>, e: Event<U>, turnTime: nat): Timed<U> {
    var next := Step(s.turns, e);
    Timed(next, s.now, if next.holder.None? || next.holder == s.turns.holder then s.expires else s.now + turnTime)
  }

  function TimedStep<U(==)>(s: Timed<U>, e: TimedEvent<U>, turnTime: nat): Timed<U> {
    match e
    case Tick(ms) => s.(now := s.now + ms)
    case Join(u) => Timing(s, Request(u, false), turnTime)
    case Leave(u) => Timing(s, End(u), turnTime)
    case Expire => Timing(s, Advance, turnTime)
  }

  /** Whoever gets the turn from the queue is a new holder. */
  lemma ExpireIs<U>(t: Turns<U>, now: int, expires: int, turnTime: nat)
    requires Ok(t)
    ensures var next := Step(t, Advance);
      TimedStep(Timed(t, now, expires), Expire, turnTime) ==
        Timed(next, now, if next.holder.None? then expires else now + turnTime)
  {
    if t.queue != [] { assert t.queue[0] in t.queue; }
  }

  predicate Possible<U(==)>(s: Timed<U>, events: seq<TimedEvent<U>>, turnTime: nat)
    decreases events
  {
    events == [] || (Enabled(s, events[0]) && Possible(TimedStep(s, events[0], turnTime), events[1..], turnTime))
  }

  function TimedRun<U(==)>(s: Timed<U>, events: seq<TimedEvent<U>>, turnTime: nat): Timed<U>
    decreases events
  {
    if events == [] then s else TimedRun(TimedStep(s, events[0], turnTime), events[1..], turnTime)
  }

  predicate WaitsAlong<U(==)>(s: Timed<U>, events: seq<TimedEvent<U>>, turnTime: nat, w: U)
    decreases events
  {
    w in s.turns.queue && (events == [] || WaitsAlong(TimedStep(s, events[0], turnTime), events[1..], turnTime, w))
  }

  /** What BroadcastTurnInfo announces to the waiter at index p, without the 32-bit wrap-around. */
  function Wait<U>(s: Timed<U>, p: nat, turnTime: nat): int { s.expires - s.now + p * turnTime }

  /** The time a waiter gains when somebody ahead leaves: the rest of a turn, or the whole of one. */
  ghost function Saving<U>(s: Timed<U>, e: TimedEvent<U>, turnTime: nat, w: U): int {
    if !e.Leave? then 0
    else if s.turns.holder == Some(e.user) then s.expires - s.now
    else if Ahead(s.turns.queue, e.user, w) then turnTime else 0
  }

  ghost function Saved<U>(s: Timed<U>, events: seq<TimedEvent<U>>, turnTime: nat, w: U): int
    decreases events
  {
    if events == [] then 0
    else Saving(s, events[0], turnTime, w) + Saved(TimedStep(s, events[0], turnTime), events[1..], turnTime, w)
  }

  lemma OneTurn(p: nat, turnTime: nat)
    ensures (p + 1) * turnTime == p * turnTime + turnTime
  {}

  /** Where a waiter stands when somebody else has left the queue. */
  lemma LeaveMoves<U>(q: seq<U>, u: U, p: nat) returns (p': nat)
    requires NoDup(q) && p < |q| && q[p] != u
    ensures p' < |Without(q, u)| && Without(q, u)[p'] == q[p] && p' == if Ahead(q, u, q[p]) then p - 1 else p
  {
    if u !in q {
      WithoutAbsent(q, u);
      p' := p;
    } else {
      var i :| 0 <= i < |q| && q[i] == u;
      WithoutAt(q, i);
      p' := Closed(q, i, p);
      if i < p { AheadAt(q, i, p); }
    }
  }

  /** The moment a waiter can expect control moves only by what is saved. */
  lemma LeaveSaves<U>(s: Timed<U>, u: U, p: nat, turnTime: nat) returns (p': nat)
    requires Ok(s.turns) && p < |s.turns.queue| && s.now <= s.expires
    requires s.turns.queue[p] in Step(s.turns, End(u)).queue
    ensures var next := TimedStep(s, Leave(u), turnTime);
      && p' < |next.turns.queue| && next.turns.queue[p'] == s.turns.queue[p] && next.now <= next.expires
      && next.expires + p' * turnTime == s.expires + p * turnTime - Saving(s, Leave(u), turnTime, s.turns.queue[p])
  {
    WithoutIsErase(s.turns.queue, u);
    if s.turns.holder == Some(u) {
      WithoutAbsent(s.turns.queue, u);
      p' := p - 1;
      OneTurn(p', turnTime);
    } else {
      p' := LeaveMoves(s.turns.queue, u, p);
      if p' < p { OneTurn(p', turnTime); }
    }
  }

  lemma StepSaves<U>(s: Timed<U>, e: TimedEvent<U>, p: nat, turnTime: nat) returns (p': nat)
    requires Ok(s.turns) && p < |s.turns.queue| && s.now <= s.expires && Enabled(s, e)
    requires s.turns.queue[p] in TimedStep(s, e, turnTime).turns.queue
    ensures var next := TimedStep(s, e, turnTime);
      && Ok(next.turns) && p' < |next.turns.queue| && next.turns.queue[p'] == s.turns.queue[p] &&
        next.now <= next.expires
      && next.expires + p' * turnTime == s.expires + p * turnTime - Saving(s, e, turnTime, s.turns.queue[p])
  {
    match e
    case Tick(_) => p' := p;
    case Join(u) =>
      StepOk(s.turns, Request(u, false));
      if u !in s.turns.queue { WithoutAbsent(s.turns.queue, u); }
      p' := p;
    case Leave(u) =>
      StepOk(s.turns, End(u));
      p' := LeaveSaves(s, u, p, turnTime);
    case Expire =>
      StepOk(s.turns, Advance);
      p' := p - 1;
      OneTurn(p', turnTime);
  }

  /** The moment a waiter was promised control does not move, but for the time others save by leaving. */
  lemma {:induction false} PromiseKept<U>(s: Timed<U>, events: seq<TimedEvent<U>>, p: nat, turnTime: nat)
    returns (p': nat)
    requires Ok(s.turns) && p < |s.turns.queue| && WaitsAlong(s, events, turnTime, s.turns.queue[p])
    requires Possible(s, events, turnTime) && s.now <= s.expires
    ensures var end := TimedRun(s, events, turnTime);
      && Ok(end.turns) && p' < |end.turns.queue| && end.turns.queue[p'] == s.turns.queue[p] && end.now <= end.expires
      && end.expires + p' * turnTime == s.expires + p * turnTime - Saved(s, events, turnTime, s.turns.queue[p])
      && Saved(s, events, turnTime, s.turns.queue[p]) >= 0
    decreases events
  {
    if events == [] {
      p' := p;
    } else {
      var next := TimedStep(s, events[0], turnTime);
      var w := s.turns.queue[p];
      assert w in next.turns.queue;
      var q := StepSaves(s, events[0], p, turnTime);
      p' := PromiseKept(next, events[1..], q, turnTime);
    }
  }

  /** The step that gives control to a waiter is the end of the turn before, whether it is over or given up. */
  lemma LastStep<U>(s: Timed<U>, e: TimedEvent<U>, p: nat, turnTime: nat)
    requires Ok(s.turns) && p < |s.turns.queue| && s.now <= s.expires && Enabled(s, e)
    ensures TimedStep(s, e, turnTime).now <= s.expires && Saving(s, e, turnTime, s.turns.queue[p]) >= 0
    ensures TimedStep(s, e, turnTime).turns.holder == Some(s.turns.queue[p]) ==>
      p == 0 && TimedStep(s, e, turnTime).now == s.expires - Saving(s, e, turnTime, s.turns.queue[p])
  {
    match e
    case Tick(_) =>
    case Join(u) => Departure(s.turns, Request(u, false), p);
    case Leave(u) => Departure(s.turns, End(u), p);
    case Expire => Departure(s.turns, Advance, p);
  }

  /** Somebody ahead of w leaves, with time to be saved. */
  ghost predicate Early<U>(s: Timed<U>, e: TimedEvent<U>, turnTime: nat, w: U) {
    && e.Leave?
    && if s.turns.holder == Some(e.user) then s.now < s.expires else turnTime > 0 && Ahead(s.turns.queue, e.user, w)
  }

  ghost predicate SomebodyEarly<U>(s: Timed<U>, events: seq<TimedEvent<U>>, turnTime: nat, w: U)
    decreases events
  {
    events != [] &&
    (Early(s, events[0], turnTime, w) || SomebodyEarly(TimedStep(s, events[0], turnTime), events[1..], turnTime, w))
  }

  lemma {:induction false} SavedIsEarly<U>(s: Timed<U>, events: seq<TimedEvent<U>>, p: nat, turnTime: nat)
    requires Ok(s.turns) && p < |s.turns.queue| && WaitsAlong(s, events, turnTime, s.turns.queue[p])
    requires Possible(s, events, turnTime) && s.now <= s.expires
    ensures var w := s.turns.queue[p]; Saved(s, events, turnTime, w) >= 0
    ensures var w := s.turns.queue[p]; Saved(s, events, turnTime, w) > 0 <==> SomebodyEarly(s, events, turnTime, w)
    decreases events
  {
    if events != [] {
      assert s.turns.queue[p] in TimedStep(s, events[0], turnTime).turns.queue;
      var q := StepSaves(s, events[0], p, turnTime);
      SavedIsEarly(TimedStep(s, events[0], turnTime), events[1..], q, turnTime);
    }
  }

  lemma WaitSaved<U>(s: Timed<U>, events: seq<TimedEvent<U>>, last: TimedEvent<U>, p: nat, turnTime: nat)
    requires Ok(s.turns) && p < |s.turns.queue| && WaitsAlong(s, events, turnTime, s.turns.queue[p])
    requires s.now <= s.expires && Possible(s, events, turnTime) && Enabled(TimedRun(s, events, turnTime), last)
    ensures var before, w := TimedRun(s, events, turnTime), s.turns.queue[p];
      var end := TimedStep(before, last, turnTime);
      && end.now <= s.now + Wait(s, p, turnTime)
      && (Saving(before, last, turnTime, w) > 0 <==> Early(before, last, turnTime, w))
      && Saving(before, last, turnTime, w) >= 0
      && (end.turns.holder == Some(w) ==>
           end.now == s.now + Wait(s, p, turnTime) - Saved(s, events, turnTime, w) - Saving(before, last, turnTime, w))
  {
    var p' := PromiseKept(s, events, p, turnTime);
    LastStep(TimedRun(s, events, turnTime), last, p', turnTime);
    assert 0 <= p' * turnTime;
  }

  /**
   * In every run without turn-jack at most the announced wait passes until the waiter gets control, and exactly that
   * if and only if nobody ahead has left early.
   */
  lemma AnnouncedWait<U>(s: Timed<U>, events: seq<TimedEvent<U>>, last: TimedEvent<U>, p: nat, turnTime: nat)
    requires Ok(s.turns) && p < |s.turns.queue| && WaitsAlong(s, events, turnTime, s.turns.queue[p])
    requires s.now <= s.expires && Possible(s, events, turnTime) && Enabled(TimedRun(s, events, turnTime), last)
    ensures var before, w := TimedRun(s, events, turnTime), s.turns.queue[p];
      var end := TimedStep(before, last, turnTime);
      && end.now <= s.now + Wait(s, p, turnTime)
      && (end.turns.holder == Some(w) ==>
           && end.now == s.now + Wait(s, p, turnTime)
                - Saved(s, events, turnTime, w) - Saving(before, last, turnTime, w)
           && (end.now == s.now + Wait(s, p, turnTime) <==>
                !SomebodyEarly(s, events, turnTime, w) && !Early(before, last, turnTime, w)))
  {
    WaitSaved(s, events, last, p, turnTime);
    SavedIsEarly(s, events, p, turnTime);
  }
}
