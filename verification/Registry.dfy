/**
 * IP records, connections and votes: the state that VMController.cpp and CollabVM.cpp keep redundantly in
 * counters, flags and maps.
 */
module Registry {
  import opened Numbers
  import opened Collections
  import opened Wire

  type UserId = nat
  type VmId = nat
  datatype Address = V4(bits: nat) | V6(bits: nat)

  datatype Decision = NotVoted | Yes | No

  datatype IPData = IPData(connections: nat, votes: map<VmId, Decision>)

  /** votes[vm], which std::map creates as kNotVoted */
  function VoteOf(d: IPData, vm: VmId): Decision { if vm in d.votes then d.votes[vm] else NotVoted }

  /** A user is validated on the handshake, added by the processing thread, and removed. */
  datatype Status = Validated | Connected | Removed

  datatype User = User(
    ip: Address, status: Status, vm: Option<VmId>, username: Option<string>, votedAmount: nat, votedLimit: bool)

  datatype VoteState = Idle | Voting | CoolingDown

  datatype VM = VM(voteState: VoteState, yes: nat, no: nat)

  type Users = map<UserId, User>
  type Records = map<Address, IPData>  // ipv4_data_ and ipv6_data_
  type VMs = map<VmId, VM>

  // ----- votes

  /** The IP records whose vote for a VM is the given one. */
  ghost function Voters(records: Records, vm: VmId, d: Decision): set<Address> {
    set r | r in records && VoteOf(records[r], vm) == d
  }

  /** The counters are the numbers of votes while a vote is on; otherwise there are no votes. */
  ghost predicate Tallied(records: Records, vm: VmId, state: VM) {
    var yes, no := Voters(records, vm, Yes), Voters(records, vm, No);
    if state.voteState.Voting? then state.yes == |yes| && state.no == |no| else yes == {} && no == {}
  }

  ghost predicate AllTallied(records: Records, vms: VMs) {
    forall vm :: vm in vms ==> Tallied(records, vm, vms[vm])
  }

  function WithVote(records: Records, r: Address, vm: VmId, d: Decision): Records
    requires r in records
  {
    records[r := records[r].(votes := records[r].votes[vm := d])]
  }

  lemma VoteSet(records: Records, r: Address, vm: VmId, d: Decision)
    requires r in records
    ensures forall x :: Voters(WithVote(records, r, vm, d), vm, x) ==
                        if x == d then Voters(records, vm, x) + {r} else Voters(records, vm, x) - {r}
    ensures forall w, x :: w != vm ==> Voters(WithVote(records, r, vm, d), w, x) == Voters(records, w, x)
  {}

  /** Two sets of records with the same votes. */
  ghost predicate SameVotes(a: Records, b: Records) {
    && (forall r :: r in a && r in b ==> a[r].votes == b[r].votes)
    && (forall r, vm :: r in a && r !in b ==> VoteOf(a[r], vm) == NotVoted)
    && (forall r, vm :: r in b && r !in a ==> VoteOf(b[r], vm) == NotVoted)
  }

  lemma SameVotesSameTally(a: Records, b: Records, vms: VMs)
    requires AllTallied(a, vms) && SameVotes(a, b)
    ensures AllTallied(b, vms)
  {
    forall vm, d | d != NotVoted ensures Voters(a, vm, d) == Voters(b, vm, d) {
      forall r ensures r in Voters(a, vm, d) <==> r in Voters(b, vm, d) {}
    }
  }

  function Inc(n: nat): nat { (n + 1) % UINT32_LIMIT }
  function Dec(n: nat): nat { (n + UINT32_LIMIT - 1) % UINT32_LIMIT }

  lemma VotersFewer(records: Records, vm: VmId, d: Decision)
    ensures |Voters(records, vm, d)| <= |records|
  {
    assert Voters(records, vm, d) <= records.Keys;
    Subset(Voters(records, vm, d), records.Keys);
  }

  /** The counter of d after a record's vote changes from prev to next. */
  function Recounted(n: nat, prev: Decision, next: Decision, d: Decision): nat {
    var less := if prev == d then Dec(n) else n;
    if next == d then Inc(less) else less
  }

  lemma CounterMoves(records: Records, r: Address, vm: VmId, next: Decision, d: Decision)
    requires |records| < UINT32_LIMIT && r in records && VoteOf(records[r], vm) != next
    ensures |Voters(WithVote(records, r, vm, next), vm, d)| ==
            Recounted(|Voters(records, vm, d)|, VoteOf(records[r], vm), next, d)
    ensures VoteOf(records[r], vm) == d ==> |Voters(records, vm, d)| > 0
  {
    VoteSet(records, r, vm, next);
    VotersFewer(records, vm, d);
    VotersFewer(WithVote(records, r, vm, next), vm, d);
    var prev, before := VoteOf(records[r], vm), Voters(records, vm, d);
    var after := Voters(WithVote(records, r, vm, next), vm, d);
    assert r in before <==> prev == d;
    SizeMoves(before, after, r, prev == d, next == d);
    RecountedIs(|before|, |after|, prev, next, d);
  }

  lemma SizeMoves(before: set<Address>, after: set<Address>, r: Address, left: bool, joins: bool)
    requires (r in before <==> left) && !(left && joins) && after == if joins then before + {r} else before - {r}
    ensures |after| == |before| + (if joins then 1 else 0) - if left then 1 else 0
  {
    if !left && !joins { assert after == before; }
  }

  lemma RecountedIs(n: nat, m: nat, prev: Decision, next: Decision, d: Decision)
    requires n < UINT32_LIMIT && m < UINT32_LIMIT && prev != next
    requires m == n + (if next == d then 1 else 0) - if prev == d then 1 else 0
    ensures Recounted(n, prev, next, d) == m
  {
    Counters(n);
  }

  lemma Counters(n: nat)
    requires n < UINT32_LIMIT
    ensures n > 0 ==> Dec(n) == n - 1
    ensures n + 1 < UINT32_LIMIT ==> Inc(n) == n + 1
  {}

  /** Moving one vote of an ongoing vote, and the counters with it. */
  lemma VoteMoves(records: Records, vms: VMs, r: Address, vm: VmId, next: Decision, now: Records, state: VM)
    requires AllTallied(records, vms) && |records| < UINT32_LIMIT && r in records && vm in vms &&
      vms[vm].voteState.Voting?
    requires VoteOf(records[r], vm) != next && now == WithVote(records, r, vm, next)
    requires var prev := VoteOf(records[r], vm);
      state == VM(Voting, Recounted(vms[vm].yes, prev, next, Yes), Recounted(vms[vm].no, prev, next, No))
    ensures AllTallied(now, vms[vm := state])
  {
    assert Tallied(records, vm, vms[vm]);
    TallyMoves(records, vms[vm], r, vm, next, now, state);
    var after := vms[vm := state];
    forall w | w in after ensures Tallied(now, w, after[w]) {
      if w != vm {
        assert Tallied(records, w, vms[w]);
        OtherTally(records, vms[w], r, vm, next, now, w);
      }
    }
  }

  lemma TallyMoves(records: Records, was: VM, r: Address, vm: VmId, next: Decision, now: Records, state: VM)
    requires Tallied(records, vm, was) && was.voteState.Voting? && |records| < UINT32_LIMIT && r in records
    requires VoteOf(records[r], vm) != next && now == WithVote(records, r, vm, next)
    requires var prev := VoteOf(records[r], vm);
      state == VM(Voting, Recounted(was.yes, prev, next, Yes), Recounted(was.no, prev, next, No))
    ensures Tallied(now, vm, state)
  {
    CounterMoves(records, r, vm, next, Yes);
    CounterMoves(records, r, vm, next, No);
  }

  lemma OtherTally(records: Records, state: VM, r: Address, vm: VmId, next: Decision, now: Records, w: VmId)
    requires Tallied(records, w, state) && r in records && w != vm && now == WithVote(records, r, vm, next)
    ensures Tallied(now, w, state)
  {
    VoteSet(records, r, vm, next);
  }

  /** The first vote of a new vote. */
  lemma VoteStarts(records: Records, vms: VMs, r: Address, vm: VmId)
    requires AllTallied(records, vms) && r in records && vm in vms && vms[vm].voteState.Idle?
    ensures AllTallied(WithVote(records, r, vm, Yes), vms[vm := VM(Voting, 1, 0)])
  {
    VoteSet(records, r, vm, Yes);
  }

  /** All votes for one VM are taken back, and nothing else changes. */
  ghost predicate ClearedFor(records: Records, now: Records, vm: VmId) {
    && now.Keys == records.Keys
    && (forall r :: r in now ==> now[r].connections == records[r].connections && VoteOf(now[r], vm) == NotVoted)
    && (forall r, w :: r in now && w != vm ==> VoteOf(now[r], w) == VoteOf(records[r], w))
  }

  lemma VoteEnds(records: Records, vms: VMs, now: Records, vm: VmId, state: VM)
    requires AllTallied(records, vms) && ClearedFor(records, now, vm) && !state.voteState.Voting?
    ensures AllTallied(now, vms[vm := state])
  {
    forall d | d != NotVoted ensures Voters(now, vm, d) == {} {}
    forall w, d | w != vm ensures Voters(now, w, d) == Voters(records, w, d) {}
  }

  // ----- connections

  /** The users validated and not yet removed that refer to an IP record. */
  ghost function Referring(users: Users, r: Address): set<UserId> {
    set u | u in users && Refers(users[u], r)
  }

  predicate Refers(user: User, r: Address) { !user.status.Removed? && user.ip == r }

  /** A counter per record, of 8 bits, and no user without a record. */
  ghost predicate Counted(users: Users, records: Records) {
    && (forall r :: r in records ==> records[r].connections == |Referring(users, r)| <= 255)
    && (forall u :: u in users && !users[u].status.Removed? ==> users[u].ip in records)
  }

  lemma Referrals(users: Users, u: UserId, now: User)
    ensures forall r :: Referring(users[u := now], r) ==
                        if Refers(now, r) then Referring(users, r) + {u} else Referring(users, r) - {u}
  {}

  // ----- names

  /** How strcasecmp sees a character. */
  function FoldChar(c: char): char { if 'A' <= c <= 'Z' then c - 'A' + 'a' else c }

  function Fold(name: string): string {
    seq(|name|, i requires 0 <= i < |name| => FoldChar(name[i]))
  }

  function Guest(n: nat): string { "guest" + Decimal(n) }

  /** Generated names differ, whatever the case. */
  lemma GuestsDiffer(m: nat, n: nat)
    requires Fold(Guest(m)) == Fold(Guest(n))
    ensures m == n
  {
    GuestFolds(m);
    GuestFolds(n);
    assert Guest(m)[5..] == Decimal(m) && Guest(n)[5..] == Decimal(n);
    DecimalValue(m);
    DecimalValue(n);
  }

  lemma GuestFolds(n: nat)
    ensures Fold(Guest(n)) == Guest(n)
  {
    var g := Guest(n);
    forall i | 0 <= i < |g| ensures FoldChar(g[i]) == g[i] {
      if i >= 5 { assert g[i] == Decimal(n)[i - 5]; }
    }
  }

  /** The i-th number tried, counting in 32 bits. */
  function Number(start: nat, i: nat): nat { (start + i) % UINT32_LIMIT }

  /** The numbers do not come again within 2^32. */
  lemma NumbersDiffer(start: nat, i: nat, j: nat)
    requires j < i < UINT32_LIMIT
    ensures Number(start, i) != Number(start, j)
  {
    var a, b := (start + i) / UINT32_LIMIT, (start + j) / UINT32_LIMIT;
    assert Number(start, i) - Number(start, j) == i - j - (a - b) * UINT32_LIMIT;
  }

  /** So the first n names are n different ones, and not all of them can be taken by fewer users. */
  lemma {:induction false} NamesDiffer(start: nat, n: nat) returns (names: set<string>)
    requires n <= UINT32_LIMIT
    ensures |names| == n && forall k :: k in names <==> exists j :: 0 <= j < n && k == Fold(Guest(Number(start, j)))
  {
    if n == 0 { return {}; }
    names := NamesDiffer(start, n - 1);
    var key := Fold(Guest(Number(start, n - 1)));
    if key in names {
      var j :| 0 <= j < n - 1 && key == Fold(Guest(Number(start, j)));
      GuestsDiffer(Number(start, n - 1), Number(start, j));
      NumbersDiffer(start, n - 1, j);
      assert false;
    }
    names := names + {key};
  }

  lemma AllTaken(start: nat, n: nat, taken: set<string>)
    requires n <= UINT32_LIMIT && forall j :: 0 <= j < n ==> Fold(Guest(Number(start, j))) in taken
    ensures n <= |taken|
  {
    var names := NamesDiffer(start, n);
    Subset(names, taken);
  }

  lemma NextNumber(start: nat, i: nat)
    ensures (Number(start, i) + 1) % UINT32_LIMIT == Number(start, i + 1)
  {}

  /** The name map, keyed without regard to case, and the named users, who are all connected, match one to one. */
  ghost predicate Named(users: Users, usernames: map<string, UserId>) {
    && (forall k :: k in usernames ==>
      var u := usernames[k];
      u in users && users[u].status.Connected? && users[u].username.Some? && Fold(users[u].username.value) == k)
    && (forall u :: u in users && users[u].username.Some? ==>
      Fold(users[u].username.value) in usernames && usernames[Fold(users[u].username.value)] == u)
  }

  /** Who is connected, and views what. */
  ghost predicate Placed(users: Users, connections: set<UserId>, vms: VMs) {
    && (forall u :: u in connections <==> u in users && users[u].status.Connected?)
    && (forall u :: u in users && users[u].vm.Some? ==> users[u].status.Connected? && users[u].vm.value in vms)
  }

  // ----- how single changes keep the parts

  /** A change that leaves a user counted, or not, as before. */
  lemma KeepsCounted(users: Users, u: UserId, now: User, records: Records)
    requires Counted(users, records) && u in users
    requires now.ip == users[u].ip && (now.status.Removed? <==> users[u].status.Removed?)
    ensures Counted(users[u := now], records)
  {
    forall r ensures Referring(users[u := now], r) == Referring(users, r) {}
  }

  lemma KeepsNamed(users: Users, u: UserId, now: User, usernames: map<string, UserId>)
    requires Named(users, usernames) && (u in users ==> now.username == users[u].username)
    requires u !in users ==> now.username.None?
    requires now.username.Some? ==> now.status.Connected?
    ensures Named(users[u := now], usernames)
  {}

  lemma KeepsCountedVotes(users: Users, records: Records, r: Address, vm: VmId, d: Decision)
    requires Counted(users, records) && r in records
    ensures Counted(users, WithVote(records, r, vm, d))
  {}

  lemma KeepsCountedCleared(users: Users, records: Records, now: Records, vm: VmId)
    requires Counted(users, records) && ClearedFor(records, now, vm)
    ensures Counted(users, now)
  {}

  /** One reference less: the counter was positive. */
  lemma Leaves(users: Users, u: UserId, now: User, records: Records)
    requires Counted(users, records) && u in users && !users[u].status.Removed? && now.status.Removed?
    ensures var r := users[u].ip;
      && records[r].connections >= 1
      && Counted(users[u := now], records[r := records[r].(connections := records[r].connections - 1)])
  {
    var r := users[u].ip;
    Referrals(users, u, now);
    assert u in Referring(users, r);
    assert |Referring(users, r) - {u}| == |Referring(users, r)| - 1;
  }

  /** A record at zero can go: nobody refers to it. */
  lemma Dropped(users: Users, records: Records, r: Address)
    requires Counted(users, records) && r in records && records[r].connections == 0
    ensures Counted(users, records - {r})
  {
    assert Referring(users, r) == {};
    forall w | w in users && !users[w].status.Removed? ensures users[w].ip != r {
      assert w !in Referring(users, r);
    }
  }

  /** Users who differ in their votes only. */
  ghost predicate Alike(users: Users, now: Users) {
    && now.Keys == users.Keys
    && forall u :: u in users ==> now[u] == users[u].(votedAmount := now[u].votedAmount,
      votedLimit := now[u].votedLimit)
  }

  lemma AlikeKeeps(
    users: Users, now: Users, records: Records, usernames: map<string, UserId>, connections: set<UserId>, vms: VMs
  )
    requires Alike(users, now) && Counted(users, records) && Named(users, usernames) && Placed(users, connections, vms)
    ensures Counted(now, records) && Named(now, usernames) && Placed(now, connections, vms)
  {
    forall r ensures Referring(now, r) == Referring(users, r) {}
  }

  lemma KeepsPlaced(users: Users, u: UserId, now: User, connections: set<UserId>, vms: VMs)
    requires Placed(users, connections, vms) && u in users && now.status == users[u].status
    requires now.vm.Some? ==> now.status.Connected? && now.vm.value in vms
    ensures Placed(users[u := now], connections, vms)
  {}

  lemma Replaced(users: Users, u: UserId, now: User, connections: set<UserId>, vms: VMs)
    requires Placed(users, connections, vms) && now.vm.None?
    ensures Placed(users[u := now], if now.status.Connected? then connections + {u} else connections - {u}, vms)
  {}

  /** One more reference to a record that has room for it, or to a new one. */
  lemma Joins(users: Users, u: UserId, now: User, records: Records, r: Address, data: IPData)
    requires Counted(users, records) && u !in users && Refers(now, r)
    requires data.connections == 1 + if r in records then records[r].connections else 0
    requires data.connections <= 255
    ensures Counted(users[u := now], records[r := data])
  {
    if r !in records { assert Referring(users, r) == {}; }
    var more, after := users[u := now], records[r := data];
    forall s | s in after ensures after[s].connections == |Referring(more, s)| <= 255 {
      OneMoreReferring(users, u, now, s);
    }
  }

  lemma OneMoreReferring(users: Users, u: UserId, now: User, r: Address)
    requires u !in users
    ensures |Referring(users[u := now], r)| == |Referring(users, r)| + if Refers(now, r) then 1 else 0
  {
    Referrals(users, u, now);
    if !Refers(now, r) { assert Referring(users, r) - {u} == Referring(users, r); }
  }

  lemma LosesName(users: Users, usernames: map<string, UserId>, u: UserId)
    requires Named(users, usernames) && u in users && users[u].username.Some?
    ensures Named(users[u := users[u].(username := None)], usernames - {Fold(users[u].username.value)})
  {}

  lemma TakesName(users: Users, usernames: map<string, UserId>, u: UserId, name: string)
    requires Named(users, usernames) && u in users && users[u].status.Connected? && users[u].username.None?
    requires Fold(name) !in usernames
    ensures Named(users[u := users[u].(username := Some(name))], usernames[Fold(name) := u])
  {}

  /** The requested name can be had. */
  predicate Free(requested: Option<string>, valid: bool, usernames: map<string, UserId>) {
    requested.Some? && requested.value != "" && valid && Fold(requested.value) !in usernames
  }

  ghost predicate Voteless(d: IPData) { forall vm :: vm in d.votes ==> d.votes[vm] == NotVoted }

  lemma Unmoved(vms: VMs, vm: VmId)
    requires vm in vms
    ensures vms[vm := vms[vm]] == vms
  {}

  lemma Overwritten(users: Users, u: UserId, first: User, second: User)
    requires u in users
    ensures users[u := first][u := second] == users[u := second] && users[u := users[u]] == users
  {}

  /**
   * How a vote is held against a user: one for a vote counted, two for changing it; after five, none is counted.
   */
  function Marked(user: User, vm: VM, prev: Decision, vote: bool, timeRemaining: int): User {
    match vm.voteState
    case CoolingDown => user
    case Idle => if vote then user.(votedAmount := user.votedAmount + 1) else user
    case Voting =>
      if timeRemaining <= 0 || user.votedLimit then user
      else if user.votedAmount >= 5 then user.(votedLimit := true)
      else if prev == (if vote then Yes else No) then user
      else user.(votedAmount := user.votedAmount + if prev == NotVoted then 1 else 2)
  }

  /** When a vote is counted. */
  predicate IsCounted(user: User, vm: VM, prev: Decision, vote: bool, timeRemaining: int) {
    match vm.voteState
    case CoolingDown => false
    case Idle => vote
    case Voting =>
      timeRemaining > 0 && !user.votedLimit && user.votedAmount < 5 && prev != if vote then Yes else No
  }

  lemma MarkedVoting(user: User, vm: VM, prev: Decision, vote: bool)
    requires vm.voteState.Voting? && !user.votedLimit
    ensures var counted := user.votedAmount < 5 && prev != if vote then Yes else No;
      && IsCounted(user, vm, prev, vote, 1) == counted
      && Marked(user, vm, prev, vote, 1) ==
           if counted then user.(votedAmount := user.votedAmount + if prev == NotVoted then 1 else 2)
           else if user.votedAmount >= 5 then user.(votedLimit := true) else user
  {}

  /** The records once a user leaves: the vote of its IP for the VM it viewed is taken back while there is time left. */
  function TakenBack(records: Records, user: User, vms: VMs, timeRemaining: int): Records {
    if && user.vm.Some? && user.vm.value in vms && vms[user.vm.value].voteState.Voting? && timeRemaining > 0
       && user.ip in records && VoteOf(records[user.ip], user.vm.value) != NotVoted
    then WithVote(records, user.ip, user.vm.value, NotVoted) else records
  }

  lemma TakenBackKeeps(records: Records, user: User, vms: VMs, timeRemaining: int, now: Records)
    requires now == TakenBack(records, user, vms, timeRemaining)
    ensures now.Keys == records.Keys && forall r :: r in now ==>
      now[r].connections == records[r].connections && (r != user.ip ==> now[r] == records[r])
  {}

  /** A user who was removed: no VM, no name, not connected. */
  function Gone(user: User): User { user.(status := Removed, vm := None, username := None) }

  /** The silent connections but for those still to be looked at. */
  ghost function Silent(connections: set<UserId>, silent: set<UserId>, todo: set<UserId>): set<UserId> {
    connections * silent - todo
  }

  lemma SilentNext(connections: set<UserId>, silent: set<UserId>, todo: set<UserId>, u: UserId)
    requires u in todo && todo <= connections
    ensures u !in Silent(connections, silent, todo)
    ensures Silent(connections, silent, todo - {u}) == Silent(connections, silent, todo) + if u in silent then {u}
      else {}
  {}

  function AllGone(users: Users, gone: set<UserId>): Users {
    map u | u in users :: if u in gone then Gone(users[u]) else users[u]
  }

  lemma OneGone(users: Users, gone: set<UserId>, u: UserId)
    ensures u in users && u !in gone ==>
      AllGone(users, gone)[u := Gone(AllGone(users, gone)[u])] == AllGone(users, gone + {u})
    ensures AllGone(users, {}) == users
  {}

  function Reset(user: User, vm: VmId): User {
    if user.vm == Some(vm) then user.(votedAmount := 0, votedLimit := false) else user
  }

  // ----- the server

  datatype Instruction =
    | View(vm: VmId, nameFixed: bool)
    | CastVote(vote: bool, votesEnabled: bool, timeRemaining: int)
    | TakeName(requested: Option<string>, valid: bool, blacklisted: bool, limited: bool, start: nat)

  datatype VoteEvent = TimeUp(cooldownTime: nat) | Skip(pass: bool, cooldownTime: nat) | CooledDown

  datatype Action =
    | Validate(u: UserId, ip: Address, maxConnections: bv8)
    | Add(u: UserId)
    | Close(u: UserId, timeRemaining: int, stale: bool)
    | Ping(silent: set<UserId>, remaining: UserId -> int, staleIPs: set<Address>)
    | Clean(staleIPs: set<Address>)
    | Instruct(u: UserId, instruction: Instruction)
    | OnVM(vm: VmId, event: VoteEvent)

  class Server {
    var users: Users
    var connections: set<UserId>
    var records: Records
    var vms: VMs
    var usernames: map<string, UserId>

    ghost predicate Valid()
      reads this
    {
      && Counted(users, records)
      && AllTallied(records, vms)
      && Named(users, usernames)
      && Placed(users, connections, vms)
    }

    constructor ()
      ensures Valid() && users == map[] && records == map[] && vms == map[]
    {
      users, connections, records, vms, usernames := map[], {}, map[], map[], map[];
    }

    /** OnValidate: one more connection for the IP, unless it has too many; a new IP gets a record. */
    method OnValidate(u: UserId, ip: Address, maxConnections: nat) returns (accepted: bool)
      requires Valid() && maxConnections <= 255 && u !in users
      modifies this`users, this`records
      ensures Valid()
      ensures accepted <==> ip !in old(records) || old(records[ip].connections) < maxConnections
      ensures !accepted ==> users == old(users) && records == old(records)
      ensures accepted ==> users == old(users)[u := User(ip, Validated, None, None, 0, false)]
    {
      var data;
      if ip in records {
        if records[ip].connections >= maxConnections {
          return false;
        }
        data := records[ip].(connections := records[ip].connections + 1);
      } else {
        data := IPData(1, map[]);
      }
      var user := User(ip, Validated, None, None, 0, false);
      SameVotesSameTally(records, records[ip := data], vms);
      Joins(users, u, user, records, ip, data);
      Replaced(users, u, user, connections, vms);
      assert connections - {u} == connections;
      KeepsNamed(users, u, user, usernames);
      records := records[ip := data];
      users := users[u := user];
      accepted := true;
    }

    /** kAddConnection */
    method AddConnection(u: UserId)
      requires Valid() && u in users && users[u].status.Validated?
      modifies this`users, this`connections
      ensures Valid() && users == old(users)[u := old(users[u]).(status := Connected)]
    {
      var user := users[u].(status := Connected);
      KeepsCounted(users, u, user, records);
      KeepsNamed(users, u, user, usernames);
      Replaced(users, u, user, connections, vms);
      connections := connections + {u};
      users := users[u := user];
    }

    /** A change of a user's VM or votes, which no map or counter repeats. */
    method Put(u: UserId, user: User)
      requires Valid() && u in users
      requires user.ip == users[u].ip && user.status == users[u].status && user.username == users[u].username
      requires user.vm.Some? ==> user.status.Connected? && user.vm.value in vms
      modifies this`users
      ensures Valid() && users == old(users)[u := user]
    {
      KeepsCounted(users, u, user, records);
      KeepsNamed(users, u, user, usernames);
      KeepsPlaced(users, u, user, connections, vms);
      users := users[u := user];
    }

    /** UserStartedVote and the counters of a new vote. */
    method StartVote(r: Address, vm: VmId)
      requires Valid() && r in records && vm in vms && vms[vm].voteState.Idle?
      modifies this`records, this`vms
      ensures Valid() && records == WithVote(old(records), r, vm, Yes) && vms == old(vms)[vm := VM(Voting, 1, 0)]
    {
      VoteStarts(records, vms, r, vm);
      KeepsCountedVotes(users, records, r, vm, Yes);
      vms := vms[vm := VM(Voting, 1, 0)];
      records := WithVote(records, r, vm, Yes);
    }

    /** A vote of a user's IP changes, and the counters with it. */
    method MoveVote(r: Address, vm: VmId, next: Decision)
      requires Valid() && |records| < UINT32_LIMIT && r in records && vm in vms && vms[vm].voteState.Voting?
      requires VoteOf(records[r], vm) != next
      modifies this`records, this`vms
      ensures Valid() && records == WithVote(old(records), r, vm, next)
      ensures vm in vms && vms == old(vms)[vm := vms[vm]] && vms[vm].voteState.Voting?
    {
      var prev := VoteOf(records[r], vm);
      var state := vms[vm];
      VoteMoves(records, vms, r, vm, next, WithVote(records, r, vm, next),
        VM(Voting, Recounted(state.yes, prev, next, Yes), Recounted(state.no, prev, next, No)));
      KeepsCountedVotes(users, records, r, vm, next);
      if prev == No { state := state.(no := Dec(state.no)); }
      if prev == Yes { state := state.(yes := Dec(state.yes)); }
      if next == Yes { state := state.(yes := Inc(state.yes)); }
      if next == No { state := state.(no := Inc(state.no)); }
      vms := vms[vm := state];
      records := WithVote(records, r, vm, next);
    }

    method Vote(u: UserId, vote: bool, votesEnabled: bool, timeRemaining: int)
      requires Valid() && |records| < UINT32_LIMIT && u in users && users[u].vm.Some?
      modifies this`users, this`records, this`vms
      ensures Valid()
      ensures var vm, r := old(users[u].vm.value), old(users[u].ip);
        && records == (if votesEnabled && IsCounted(old(users[u]), old(vms[vm]), VoteOf(old(records[r]), vm), vote,
          timeRemaining)
            then WithVote(old(records), r, vm, if vote then Yes else No) else old(records))
        && vm in vms && vms == old(vms)[vm := vms[vm]] && (vms[vm] == old(vms[vm]) || vms[vm].voteState.Voting?)
        && users == old(users)[u := if votesEnabled
          then Marked(old(users[u]), old(vms[vm]), VoteOf(old(records[r]), vm), vote, timeRemaining)
                                    else old(users[u])]
    {
      var vm := users[u].vm.value;
      Overwritten(users, u, users[u], users[u]);
      Unmoved(vms, vm);
      if votesEnabled {
        match vms[vm].voteState
        case CoolingDown =>
        case Idle =>
          if vote { OpenVote(u, vm); }
        case Voting =>
          if timeRemaining > 0 && !users[u].votedLimit { CastVote(u, vm, vote); }
      }
    }

    /** A vote is started by voting yes. */
    method OpenVote(u: UserId, vm: VmId)
      requires Valid() && u in users && users[u].vm == Some(vm) && vms[vm].voteState.Idle?
      modifies this`users, this`records, this`vms
      ensures Valid() && vms == old(vms)[vm := VM(Voting, 1, 0)]
      ensures records == WithVote(old(records), old(users[u].ip), vm, Yes)
      ensures users == old(users)[u := old(users[u]).(votedAmount := old(users[u].votedAmount) + 1)]
    {
      var user := users[u].(votedAmount := users[u].votedAmount + 1);
      StartVote(user.ip, vm);
      Put(u, user);
    }

    /** A vote while there is time left, of a user who has not reached the limit. */
    method CastVote(u: UserId, vm: VmId, vote: bool)
      requires Valid() && |records| < UINT32_LIMIT && u in users && users[u].vm == Some(vm)
      requires vms[vm].voteState.Voting? && !users[u].votedLimit
      modifies this`users, this`records, this`vms
      ensures Valid() && vm in vms && vms == old(vms)[vm := vms[vm]] && vms[vm].voteState.Voting?
      ensures var user, prev := old(users[u]), VoteOf(old(records[users[u].ip]), vm);
        && users == old(users)[u := Marked(user, old(vms[vm]), prev, vote, 1)]
        && (IsCounted(user, old(vms[vm]), prev, vote, 1) ==>
             records == WithVote(old(records), user.ip, vm, if vote then Yes else No))
        && (!IsCounted(user, old(vms[vm]), prev, vote, 1) ==> records == old(records))
    {
      var user, prev := users[u], VoteOf(records[users[u].ip], vm);
      MarkedVoting(user, vms[vm], prev, vote);
      if user.votedAmount >= 5 {
        user := user.(votedLimit := true);
        Unmoved(vms, vm);
      } else if prev != (if vote then Yes else No) {
        user := user.(votedAmount := user.votedAmount + if prev == NotVoted then 1 else 2);
        MoveVote(user.ip, vm, if vote then Yes else No);
      } else {
        Unmoved(vms, vm);
      }
      Put(u, user);
    }

    /** BroadcastVoteEnded resets every viewer's count of votes. */
    method ResetVoters(vm: VmId)
      modifies this`users
      ensures Alike(old(users), users)
      ensures forall u :: u in users ==> users[u] == Reset(old(users[u]), vm)
    {
      var todo := set u | u in users && users[u].vm == Some(vm);
      while todo != {}
        invariant users.Keys == old(users).Keys && todo <= users.Keys
        invariant forall u :: u in todo ==> users[u] == old(users[u]) && users[u].vm == Some(vm)
        invariant forall u :: u in users && u !in todo ==> users[u] == Reset(old(users[u]), vm)
      {
        var u :| u in todo;
        users := users[u := users[u].(votedAmount := 0, votedLimit := false)];
        todo := todo - {u};
      }
    }

    /** BroadcastVoteEnded takes back the votes in every IP record. */
    method ClearVotes(vm: VmId)
      modifies this`records
      ensures ClearedFor(old(records), records, vm)
    {
      var todo := records.Keys;
      while todo != {}
        invariant records.Keys == old(records).Keys && todo <= records.Keys
        invariant forall r :: r in records ==> records[r].connections == old(records[r].connections)
        invariant forall r :: r in records && r !in todo ==> VoteOf(records[r], vm) == NotVoted
        invariant forall r, w :: r in records && w != vm ==> VoteOf(records[r], w) == VoteOf(old(records[r]), w)
      {
        var r :| r in todo;
        records := WithVote(records, r, vm, NotVoted);
        todo := todo - {r};
      }
    }

    /** EndVoteCommonLogic */
    method FinishVote(vm: VmId, cooldownTime: nat)
      requires Valid() && vm in vms && vms[vm].voteState.Voting?
      modifies this`users, this`records, this`vms
      ensures Valid() && ClearedFor(old(records), records, vm)
      ensures vms == old(vms)[vm := old(vms[vm]).(voteState := if cooldownTime > 0 then CoolingDown else Idle)]
      ensures users.Keys == old(users).Keys && forall u :: u in users ==> users[u] == Reset(old(users[u]), vm)
    {
      ResetVoters(vm);
      AlikeKeeps(old(users), users, records, usernames, connections, vms);
      ClearVotes(vm);
      var state := vms[vm].(voteState := if cooldownTime > 0 then CoolingDown else Idle);
      VoteEnds(old(records), vms, records, vm, state);
      KeepsCountedCleared(users, old(records), records, vm);
      vms := vms[vm := state];
    }

    /** EndVote: the vote passes when at least as many IP records are for it as against it. */
    method EndVote(vm: VmId, cooldownTime: nat) returns (restore: bool)
      requires Valid() && vm in vms
      modifies this`users, this`records, this`vms
      ensures Valid() && vm in vms && !vms[vm].voteState.Voting?
      ensures old(vms[vm].voteState.Voting?) ==>
        (restore <==> |Voters(old(records), vm, Yes)| >= |Voters(old(records), vm, No)|)
      ensures !old(vms[vm].voteState.Voting?) ==>
        !restore && records == old(records) && vms == old(vms) && users == old(users)
      ensures old(vms[vm].voteState.Voting?) ==> ClearedFor(old(records), records, vm)
      ensures old(vms[vm].voteState.Voting?) ==>
        vms == old(vms)[vm := old(vms[vm]).(voteState := if cooldownTime > 0 then CoolingDown else Idle)]
      ensures old(vms[vm].voteState.Voting?) ==>
        users.Keys == old(users).Keys && forall u :: u in users ==> users[u] == Reset(old(users[u]), vm)
    {
      if !vms[vm].voteState.Voting? { return false; }
      restore := vms[vm].yes >= vms[vm].no;
      FinishVote(vm, cooldownTime);
    }

    /** SkipVote: an administrator decides. */
    method SkipVote(vm: VmId, pass: bool, cooldownTime: nat) returns (restore: bool)
      requires Valid() && vm in vms
      modifies this`users, this`records, this`vms
      ensures Valid() && vm in vms && !vms[vm].voteState.Voting? &&
        (restore <==> pass && old(vms[vm].voteState.Voting?))
      ensures !old(vms[vm].voteState.Voting?) ==> records == old(records) && vms == old(vms) && users == old(users)
      ensures old(vms[vm].voteState.Voting?) ==> ClearedFor(old(records), records, vm)
      ensures old(vms[vm].voteState.Voting?) ==>
        vms == old(vms)[vm := old(vms[vm]).(voteState := if cooldownTime > 0 then CoolingDown else Idle)]
      ensures old(vms[vm].voteState.Voting?) ==>
        users.Keys == old(users).Keys && forall u :: u in users ==> users[u] == Reset(old(users[u]), vm)
    {
      if !vms[vm].voteState.Voting? { return false; }
      FinishVote(vm, cooldownTime);
      restore := pass;
    }

    /** The timer of the cool-down expires. */
    method CooldownOver(vm: VmId)
      requires Valid() && vm in vms && vms[vm].voteState.CoolingDown?
      modifies this`vms
      ensures Valid() && vms == old(vms)[vm := old(vms[vm]).(voteState := Idle)]
    {
      vms := vms[vm := vms[vm].(voteState := Idle)];
    }

    /** A new controller, with an identity never used before. */
    method AddController(vm: VmId)
      requires Valid() && vm !in vms && forall r :: r in records ==> vm !in records[r].votes
      modifies this`vms
      ensures Valid() && vms == old(vms)[vm := VM(Idle, 0, 0)]
    {
      vms := vms[vm := VM(Idle, 0, 0)];
    }

    /** A connect instruction; only a named user who views no VM, and whose IP may rename itself, connects to one. */
    method ConnectTo(u: UserId, vm: VmId, nameFixed: bool)
      requires Valid() && u in connections && vm in vms
      modifies this`users
      ensures Valid()
      ensures users == if old(users[u].vm).None? && old(users[u].username).Some? && !nameFixed
        then old(users)[u := old(users[u]).(vm := Some(vm))] else old(users)
    {
      if users[u].vm.Some? || users[u].username.None? || nameFixed { return; }
      Put(u, users[u].(vm := Some(vm)));
    }

    /** RemoveUser takes back the vote of the user's IP while there is time left to vote. */
    method RemoveUser(u: UserId, timeRemaining: int)
      requires Valid() && |records| < UINT32_LIMIT && u in users && users[u].vm.Some?
      modifies this`users, this`records, this`vms
      ensures Valid() && users == old(users)[u := old(users[u]).(vm := None)]
      ensures var vm, r := old(users[u].vm.value), old(users[u].ip);
        && vms.Keys == old(vms).Keys && vms[vm].voteState == old(vms[vm].voteState)
        && records == if vms[vm].voteState.Voting? && timeRemaining > 0 && VoteOf(old(records[r]), vm) != NotVoted
          then WithVote(old(records), r, vm, NotVoted) else old(records)
    {
      var vm, r := users[u].vm.value, users[u].ip;
      if vms[vm].voteState.Voting? && timeRemaining > 0 && VoteOf(records[r], vm) != NotVoted {
        MoveVote(r, vm, NotVoted);
      }
      Put(u, users[u].(vm := None));
    }

    /** A named user loses the name, which is free again. */
    method LoseName(u: UserId)
      requires Valid() && u in users && users[u].username.Some?
      modifies this`users, this`usernames
      ensures Valid() && users == old(users)[u := old(users[u]).(username := None)]
      ensures usernames == old(usernames) - {Fold(old(users[u].username.value))}
    {
      var user := users[u].(username := None);
      KeepsCounted(users, u, user, records);
      LosesName(users, usernames, u);
      KeepsPlaced(users, u, user, connections, vms);
      usernames := usernames - {Fold(users[u].username.value)};
      users := users[u := user];
    }

    /** ShouldCleanUpIPData: a record with a vote is kept; `stale` stands for its conditions on times and uploads. */
    method ShouldCleanUp(r: Address, stale: bool) returns (clean: bool)
      requires r in records
      ensures clean <==> stale && Voteless(records[r])
    {
      if !stale { return false; }
      var todo := records[r].votes.Keys;
      while todo != {}
        invariant todo <= records[r].votes.Keys
        invariant forall vm :: vm in records[r].votes && vm !in todo ==> records[r].votes[vm] == NotVoted
      {
        var vm :| vm in todo;
        if records[r].votes[vm] != NotVoted { return false; }
        todo := todo - {vm};
      }
      return true;
    }

    /** A record that nobody refers to and that holds no vote is erased. */
    method Drop(r: Address)
      requires Valid() && r in records && records[r].connections == 0 && Voteless(records[r])
      modifies this`records
      ensures Valid() && records == old(records) - {r}
    {
      Dropped(users, records, r);
      SameVotesSameTally(records, records - {r}, vms);
      records := records - {r};
    }

    /** The connection is counted off. */
    method CountOff(u: UserId)
      requires Valid() && u in connections && users[u].vm.None? && users[u].username.None?
      modifies this`users, this`records, this`connections
      ensures Valid() && old(users[u].ip) in old(records) && users == old(users)[u := old(users[u]).(status := Removed)]
      ensures old(records[users[u].ip].connections) >= 1
      ensures records == old(records)[old(users[u].ip) :=
        old(records[users[u].ip]).(connections := old(records[users[u].ip].connections) - 1)]
      ensures connections == old(connections) - {u}
    {
      var user, r := users[u].(status := Removed), users[u].ip;
      Leaves(users, u, user, records);
      var after := records[r := records[r].(connections := records[r].connections - 1)];
      var more, others := users[u := user], connections - {u};
      assert Counted(more, after);
      Replaced(users, u, user, connections, vms);
      KeepsNamed(users, u, user, usernames);
      SameVotesSameTally(records, after, vms);
      connections, records, users := others, after, more;
    }

    method LeaveVM(u: UserId, timeRemaining: int)
      requires Valid() && |records| < UINT32_LIMIT && u in users
      modifies this`users, this`records, this`vms
      ensures Valid() && users == old(users)[u := old(users[u]).(vm := None)]
      ensures records == TakenBack(old(records), old(users[u]), old(vms), timeRemaining)
    {
      Overwritten(users, u, users[u], users[u]);
      if users[u].vm.Some? { RemoveUser(u, timeRemaining); }
    }

    method LeaveName(u: UserId)
      requires Valid() && u in users
      modifies this`users, this`usernames
      ensures Valid() && users == old(users)[u := old(users[u]).(username := None)]
    {
      Overwritten(users, u, users[u], users[u]);
      if users[u].username.Some? { LoseName(u); }
    }

    /** What a user held is given back: the vote, the place among the viewers and the name. */
    method GiveUp(u: UserId, timeRemaining: int)
      requires Valid() && |records| < UINT32_LIMIT && u in users
      modifies this`users, this`records, this`vms, this`usernames
      ensures Valid() && users == old(users)[u := old(users[u]).(vm := None, username := None)]
      ensures records == TakenBack(old(records), old(users[u]), old(vms), timeRemaining)
    {
      Overwritten(users, u, users[u].(vm := None), users[u].(vm := None, username := None));
      LeaveVM(u, timeRemaining);
      LeaveName(u);
    }

    method DropIfClean(r: Address, stale: bool) returns (kept: bool)
      requires Valid() && r in records && records[r].connections == 0
      modifies this`records
      ensures Valid() && (kept <==> !stale || !Voteless(old(records[r])))
      ensures records == if kept then old(records) else old(records) - {r}
    {
      var clean := ShouldCleanUp(r, stale);
      if clean { Drop(r); }
      kept := !clean;
    }

    /**
     * RemoveConnection of a connected user: its vote and its connection are given back, and the record is dropped only
     * without connections and votes.
     */
    method RemoveConnection(u: UserId, timeRemaining: int, stale: bool)
      requires Valid() && |records| < UINT32_LIMIT && u in connections
      modifies this`users, this`records, this`vms, this`usernames, this`connections
      ensures Valid() && connections == old(connections) - {u} && records.Keys <= old(records).Keys
      ensures users == old(users)[u := Gone(old(users[u]))]
      ensures forall r :: r in old(records) && r != old(users[u].ip) ==> r in records && records[r] == old(records[r])
      ensures var r, now := old(users[u].ip), TakenBack(old(records), old(users[u]), old(vms), timeRemaining);
        && r in old(records) && r in now && now[r].connections == old(records[r].connections) > 0
        && if r in records then records[r] == now[r].(connections := now[r].connections - 1)
           else now[r].connections == 1 && stale && Voteless(now[r])
    {
      var r := users[u].ip;
      ghost var now := TakenBack(records, users[u], vms, timeRemaining);
      TakenBackKeeps(records, users[u], vms, timeRemaining, now);
      Overwritten(users, u, users[u].(vm := None, username := None), Gone(users[u]));
      GiveUp(u, timeRemaining);
      LetGo(u, r, stale);
    }

    /** The connection is counted off, and the record dropped if it was the last one and nothing else holds it. */
    method LetGo(u: UserId, r: Address, stale: bool)
      requires Valid() && u in connections && users[u].ip == r && users[u].vm.None? && users[u].username.None?
      modifies this`users, this`records, this`connections
      ensures Valid() && connections == old(connections) - {u} && users == old(users)[u := Gone(old(users[u]))]
      ensures records.Keys <= old(records).Keys && r in old(records)
      ensures forall s :: s in old(records) && s != r ==> s in records && records[s] == old(records[s])
      ensures old(records[r].connections) > 0
      ensures if r in records then records[r] == old(records[r]).(connections := old(records[r].connections) - 1)
        else old(records[r].connections) == 1 && stale && Voteless(old(records[r]))
    {
      CountOff(u);
      if records[r].connections == 0 { var _ := DropIfClean(r, stale); }
    }

    /** kRemoveConnection does nothing for a user who was removed already. */
    method OnClose(u: UserId, timeRemaining: int, stale: bool)
      requires Valid() && |records| < UINT32_LIMIT && u in users
      modifies this`users, this`records, this`vms, this`usernames, this`connections
      ensures Valid() && connections == old(connections) - {u} && records.Keys <= old(records).Keys
      ensures !old(users[u].status.Connected?) ==> users == old(users) && records == old(records)
    {
      if users[u].status.Connected? { RemoveConnection(u, timeRemaining, stale); }
    }

    /** kKeepAlive removes the connections that have not responded. */
    method KeepAlive(silent: set<UserId>, timeRemaining: UserId -> int, stale: set<Address>)
      requires Valid() && |records| < UINT32_LIMIT
      modifies this`users, this`records, this`vms, this`usernames, this`connections
      ensures Valid() && connections == old(connections) - silent && records.Keys <= old(records).Keys
      ensures users == AllGone(old(users), old(connections) * silent)
    {
      var todo := connections;
      ghost var gone: set<UserId> := {};
      OneGone(users, {}, 0);
      while todo != {}
        invariant Valid() && records.Keys <= old(records).Keys
        invariant gone == Silent(old(connections), silent, todo) && todo <= old(connections)
        invariant connections == old(connections) - gone && users == AllGone(old(users), gone)
      {
        var u :| u in todo;
        SilentNext(old(connections), silent, todo, u);
        if u in silent {
          Subset(records.Keys, old(records).Keys);
          OneGone(old(users), gone, u);
          RemoveConnection(u, timeRemaining(u), users[u].ip in stale);
          gone := gone + {u};
        }
        todo := todo - {u};
      }
      assert gone == old(connections) * silent;
    }

    /** IPDataTimerCallback drops the records that nobody refers to, hold no vote and are stale, and no others. */
    method CleanUp(stale: set<Address>) returns (shouldRun: bool)
      requires Valid()
      modifies this`records
      ensures Valid()
      ensures forall r :: r in records <==>
        r in old(records) && !(old(records[r].connections) == 0 && r in stale && Voteless(old(records[r])))
      ensures forall r :: r in records ==> records[r] == old(records[r])
      ensures shouldRun <==> exists r :: r in records && records[r].connections == 0
    {
      shouldRun := false;
      var todo := records.Keys;
      while todo != {}
        invariant Valid() && todo <= records.Keys <= old(records).Keys
        invariant forall r :: r in records ==> records[r] == old(records[r])
        invariant forall r :: r in old(records) && r !in todo ==>
          (r in records <==> !(old(records[r].connections) == 0 && r in stale && Voteless(old(records[r]))))
        invariant shouldRun <==> exists r :: r in records && r !in todo && records[r].connections == 0
      {
        var r :| r in todo;
        if records[r].connections == 0 {
          var kept := DropIfClean(r, r in stale);
          if kept { shouldRun := true; }
        }
        todo := todo - {r};
      }
    }

    /** The part of ChangeUsername that updates the maps. */
    method Rename(u: UserId, name: string)
      requires Valid() && u in connections && Fold(name) !in usernames
      modifies this`users, this`usernames
      ensures Valid() && users == old(users)[u := old(users[u]).(username := Some(name))]
    {
      Overwritten(users, u, users[u].(username := None), users[u].(username := Some(name)));
      LeaveName(u);
      TakeName(u, name);
    }

    method TakeName(u: UserId, name: string)
      requires Valid() && u in connections && users[u].username.None? && Fold(name) !in usernames
      modifies this`users, this`usernames
      ensures Valid() && users == old(users)[u := old(users[u]).(username := Some(name))]
    {
      var user := users[u].(username := Some(name));
      KeepsCounted(users, u, user, records);
      TakesName(users, usernames, u, name);
      KeepsPlaced(users, u, user, connections, vms);
      usernames := usernames[Fold(name) := u];
      users := users[u := user];
    }

    /** GenerateUsername counts up, modulo 2^32, to the first free name; there is one among 2^32. */
    method GenerateUsername(start: nat) returns (name: string)
      requires start < UINT32_LIMIT && |usernames| < UINT32_LIMIT
      ensures Fold(name) !in usernames
      ensures exists i: nat ::
        && name == Guest(Number(start, i))
        && forall j :: 0 <= j < i ==> Fold(Guest(Number(start, j))) in usernames
    {
      var num := start;
      ghost var i: nat := 0;
      name := Guest(num);
      while Fold(name) in usernames
        invariant num == Number(start, i) && name == Guest(num) && i <= |usernames|
        invariant forall j :: 0 <= j < i ==> Fold(Guest(Number(start, j))) in usernames
        decreases |usernames| - i
      {
        AllTaken(start, i + 1, usernames.Keys);
        NextNumber(start, i);
        i := i + 1;
        num := (num + 1) % UINT32_LIMIT;
        name := Guest(num);
      }
    }

    /** ChangeUsername; a user whose IP changes names too often is refused. */
    method ChangeUsername(u: UserId, name: string, success: bool, limited: bool)
      requires Valid() && u in connections && (success ==> Fold(name) !in usernames)
      modifies this`users, this`usernames
      ensures Valid()
      ensures users == if success && !limited then old(users)[u := old(users[u]).(username := Some(name))]
        else old(users)
    {
      if limited || !success { return; }
      Rename(u, name);
    }

    /**
     * OnRenameInstruction. A user without a name always gets one, unless the requested one is blacklisted; a user
     * with a name keeps it when the requested one is invalid or taken; and nobody gets a name that was taken.
     */
    method OnRename(
      u: UserId, requested: Option<string>, valid: bool, blacklisted: bool, limited: bool, start: nat
    ) returns (name: Option<string>)
      requires Valid() && u in connections && |usernames| < UINT32_LIMIT && start < UINT32_LIMIT
      modifies this`users, this`usernames
      ensures Valid() && users == old(users)[u := old(users[u]).(username := name)]
      ensures name != old(users[u].username) ==>
        !limited && name.Some? && Fold(name.value) !in old(usernames) &&
        ((name == requested && valid && !blacklisted) || exists n :: name == Some(Guest(n)))
      ensures old(users[u].username).None? && !limited && !(blacklisted && Free(requested, valid, old(usernames))) ==>
        name.Some?
      ensures requested.Some? && requested.value != "" && !Free(requested, valid, old(usernames)) ==>
        old(users[u].username).None? || name == old(users[u].username)
      ensures Free(requested, valid, old(usernames)) && !blacklisted && !limited ==> name == requested
    {
      name := users[u].username;
      Overwritten(users, u, users[u], users[u]);
      var named := name.Some?;
      if requested.None? && named { return; }
      if requested.Some? && name == requested { return; }
      if Free(requested, valid, usernames) {
        if !blacklisted {
          ChangeUsername(u, requested.value, true, limited);
          if !limited { name := requested; }
        }
      } else if !named || requested.value == "" {
        var generated := GenerateUsername(start);
        ChangeUsername(u, generated, true, limited);
        if !limited { name := Some(generated); }
      } else {
        ChangeUsername(u, name.value, false, limited);
      }
    }

    /** One action of the server; those of users not connected, or on VMs there are not, have no effect. */
    method Process(a: Action)
      requires Valid() && |records| < UINT32_LIMIT && |usernames| < UINT32_LIMIT
      modifies this
      ensures Valid()
    {
      match a
      case Validate(u, ip, maxConnections) =>
        if u !in users { var _ := OnValidate(u, ip, maxConnections as nat); }
      case Add(u) =>
        if u in users && users[u].status.Validated? { AddConnection(u); }
      case Close(u, timeRemaining, stale) =>
        if u in users { OnClose(u, timeRemaining, stale); }
      case Ping(silent, timeRemaining, stale) => KeepAlive(silent, timeRemaining, stale);
      case Clean(stale) => var _ := CleanUp(stale);
      case Instruct(u, instruction) =>
        if u in connections { Obey(u, instruction); }
      case OnVM(vm, event) =>
        if vm in vms { Handle(vm, event); }
        else if forall r | r in records :: vm !in records[r].votes { AddController(vm); }
    }

    method Obey(u: UserId, instruction: Instruction)
      requires Valid() && |records| < UINT32_LIMIT && |usernames| < UINT32_LIMIT && u in connections
      modifies this
      ensures Valid()
    {
      match instruction
      case View(vm, nameFixed) => if vm in vms { ConnectTo(u, vm, nameFixed); }
      case CastVote(vote, votesEnabled, timeRemaining) =>
        if users[u].vm.Some? { Vote(u, vote, votesEnabled, timeRemaining); }
      case TakeName(requested, valid, blacklisted, limited, start) =>
        var _ := OnRename(u, requested, valid, blacklisted, limited, start % UINT32_LIMIT);
    }

    method Handle(vm: VmId, event: VoteEvent)
      requires Valid() && vm in vms
      modifies this`users, this`records, this`vms
      ensures Valid()
    {
      match event
      case TimeUp(cooldownTime) => var _ := EndVote(vm, cooldownTime);
      case Skip(pass, cooldownTime) => var _ := SkipVote(vm, pass, cooldownTime);
      case CooledDown => if vms[vm].voteState.CoolingDown? { CooldownOver(vm); }
    }

    /** Every run keeps counters, flags and maps consistent, as long as there are fewer than 2^32 records and names. */
    method Run(actions: seq<Action>)
      requires Valid()
      modifies this
      ensures Valid()
    {
      for i := 0 to |actions|
        invariant Valid()
      {
        if |records| >= UINT32_LIMIT || |usernames| >= UINT32_LIMIT { return; }
        Process(actions[i]);
      }
    }
  }
}
