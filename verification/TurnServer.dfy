/** All VMs at once: the actions of the processing thread that touch turns, and the invariant they all keep. */
module TurnServer {
  import opened Wire
  import opened Turns
  import opened UserLists
  import opened Broadcast
  import opened Controllers

  datatype Instruction =
    | ToConnect(vm: VMController, vote: Option<Ballot>)
    | TakeTurn(turnJack: bool, isStaff: bool, running: bool, turnsEnabled: bool)
    | GiveTurn(target: CollabVMUser)  // the sender's own turn, or an administrator's kEndUserTurn

  datatype Action =
    | Open(user: CollabVMUser)
    | Close(user: CollabVMUser)
    | Message(user: CollabVMUser, instruction: Instruction)
    | VMAction(vm: VMController, clear: bool)
    | Register(vm: VMController)

  class CollabVMServer {
    const log: Server
    var controllers: set<VMController>
    var connections: set<CollabVMUser>

    constructor ()
      ensures Valid() && controllers == {} && connections == {} && fresh(log)
    {
      log := new Server();
      controllers, connections := {}, {};
    }

    /** Every VM is in order, with viewers and a list of its own; who views no VM does not wait. */
    ghost predicate Valid()
      reads this, controllers, connections, set v | v in controllers :: v.users
    {
      && (forall v :: v in controllers ==> forall u :: u in v.users.nodes ==> u in connections)
      && (forall v :: v in controllers ==> v.Good())
      && (forall v, w :: v in controllers && w in controllers && v.users == w.users ==> v == w)
      && (forall u :: u in connections ==>
        if u.vmController == null then !u.waitingTurn
        else
          && u.vmController is VMController
          && u.vmController as VMController in controllers
          && u in (u.vmController as VMController).users.nodes)
    }

    /** The VMs other than one have the turns and the viewers they had. */
    twostate predicate OthersKept(vm: VMController)
      reads this, controllers, set v | v in controllers :: v.users
    {
      controllers == old(controllers) &&
      forall v :: v in controllers && v != vm ==>
        v.TurnState() == old(v.TurnState()) && v.users.nodes == old(v.users.nodes)
    }

    /** A step on one VM that keeps it in order keeps them all in order. */
    twostate lemma Kept(vm: VMController)
      requires old(Valid()) && controllers == old(controllers) && connections == old(connections) && vm in controllers
      requires vm.Good() && forall u :: u in vm.users.nodes ==> u in connections
      requires forall v :: v in controllers && v != vm ==> unchanged(v) && unchanged(v.users)
      requires forall u :: u in connections && old(u.vmController) != null && old(u.vmController) != vm ==> unchanged(u)
      requires forall u :: u in connections && (old(u.vmController) == null || old(u.vmController) == vm) ==>
        (u.vmController == null && !u.waitingTurn) || (u.vmController == vm && u in vm.users.nodes)
      ensures Valid() && OthersKept(vm)
    {
      forall v | v in controllers && v != vm ensures v.Good() && v.TurnState() == old(v.TurnState()) {
        assert old(v.Good());
        forall i | 0 <= i < |v.users.nodes| ensures unchanged(v.users.nodes[i]) {
          assert v.users.nodes[i] in v.users.nodes;
        }
      }
    }

    /** kTurnChange */
    method TurnChange(vm: VMController, now: int)
      requires Valid() && vm in controllers
      modifies log, controllers, connections
      ensures Valid() && OthersKept(vm) && connections == old(connections)
      ensures vm.TurnState() == Step(old(vm.TurnState()), Advance)
    {
      vm.NextTurn(log, now);
      Kept(vm);
    }

    /** kClearTurnQueue, and a controller that stops */
    method ClearTurnQueue(vm: VMController)
      requires Valid() && vm in controllers
      modifies log, controllers, connections
      ensures Valid() && OthersKept(vm) && connections == old(connections)
      ensures vm.TurnState() == Step(old(vm.TurnState()), Clear)
    {
      vm.ClearTurnQueue(log);
      Kept(vm);
    }

    method EndTurnOn(vm: VMController, user: CollabVMUser, now: int)
      requires Valid() && vm in controllers && user in connections
      modifies log, controllers, connections
      ensures Valid() && OthersKept(vm) && connections == old(connections)
      ensures vm.TurnState() == Step(old(vm.TurnState()), End(user))
    {
      vm.EndTurn(log, user, now);
      Kept(vm);
    }

    /** An instruction that ends a turn; an administrator's may name a user who views another VM. */
    method EndTurn(vm: VMController, user: CollabVMUser, now: int)
      requires Valid() && vm in controllers && user in connections
      modifies log, controllers, connections
      ensures Valid() && OthersKept(vm) && connections == old(connections)
      ensures vm.TurnState() == Step(old(vm.TurnState()), End(user))
      ensures old(user.vmController) != vm ==> vm.TurnState() == old(vm.TurnState())
    {
      if user !in vm.users.nodes { Stranger(vm.TurnState(), user); }
      EndTurnOn(vm, user, now);
    }

    /** A turn instruction, or with turn-jack an administrator's taking of the turn. */
    method TurnRequest(user: CollabVMUser, turnJack: bool, isStaff: bool, running: bool, turnsEnabled: bool, now: int)
      requires Valid() && user in connections && user.vmController != null
      modifies log, controllers, connections
      ensures Valid() && connections == old(connections) && user.vmController == old(user.vmController) != null
      ensures OthersKept(user.vmController as VMController)
      ensures var vm := user.vmController as VMController;
        vm.TurnState() == if running && (turnsEnabled || isStaff)
          then Step(old(vm.TurnState()), Request(user, turnJack))
          else old(vm.TurnState())
    {
      var vm := user.vmController as VMController;
      vm.TurnRequest(log, user, turnJack, isStaff, running, turnsEnabled, now);
      Kept(vm);
    }

    /** A connect instruction. */
    method Connect(user: CollabVMUser, vm: VMController, now: int, vote: Option<Ballot>)
      requires Valid() && user in connections && user.vmController == null && vm in controllers
      modifies log, controllers, connections, vm.users
      ensures Valid() && OthersKept(vm) && connections == old(connections)
      ensures vm.TurnState() == old(vm.TurnState()) && vm.users.nodes == [user] + old(vm.users.nodes)
    {
      vm.AddUser(log, user, now, vote);
      Kept(vm);
    }

    /** A viewer leaves: RemoveConnection. */
    method Leave(user: CollabVMUser, now: int)
      requires Valid() && user in connections && user.vmController != null
      modifies log, controllers, connections, (user.vmController as VMController).users
      ensures Valid() && connections == old(connections) && user.vmController == null && !user.waitingTurn
      ensures OthersKept(old(user.vmController as VMController))
      ensures var vm := old(user.vmController as VMController);
        vm.TurnState() == Step(old(vm.TurnState()), End(user)) && vm.users.nodes == Without(old(vm.users.nodes), user)
    {
      var vm := user.vmController as VMController;
      vm.RemoveUser(log, user, now);
      WithoutIsErase(old(vm.users.nodes), user);
      Kept(vm);
    }

    /** kAddConnection */
    method AddConnection(user: CollabVMUser)
      requires Valid() && user.vmController == null && !user.waitingTurn
      modifies this`connections
      ensures Valid() && connections == old(connections) + {user}
    {
      connections := connections + {user};
    }

    method Disconnect(user: CollabVMUser)
      requires Valid() && user.vmController == null
      modifies this`connections
      ensures Valid() && connections == old(connections) - {user}
    {
      connections := connections - {user};
    }

    /** kRemoveConnection, of a user who is connected. */
    method RemoveConnection(user: CollabVMUser, now: int)
      requires Valid() && user in connections
      modifies this`connections, log, controllers, connections, set v | v in controllers :: v.users
      ensures Valid() && connections == old(connections) - {user} && controllers == old(controllers)
      ensures user.vmController == null && !user.waitingTurn
      ensures old(user.vmController) == null ==>
        forall v :: v in controllers ==> v.TurnState() == old(v.TurnState()) && v.users.nodes == old(v.users.nodes)
      ensures old(user.vmController) != null ==> var vm := old(user.vmController as VMController);
        && OthersKept(vm) && vm.TurnState() == Step(old(vm.TurnState()), End(user))
        && vm.users.nodes == Without(old(vm.users.nodes), user)
    {
      if user.vmController != null { Leave(user, now); }
      Disconnect(user);
    }

    /** A controller that has been made and has no viewers yet. */
    ghost predicate Spare(vm: VMController)
      reads vm, vm.users
    {
      vm.users.nodes == [] && vm.Good()
    }

    /** A new controller. */
    method AddController(vm: VMController)
      requires Valid() && vm !in controllers && Spare(vm)
      requires forall v :: v in controllers ==> v.users != vm.users
      modifies this`controllers
      ensures Valid() && controllers == old(controllers) + {vm}
    {
      controllers := controllers + {vm};
    }

    /** One action. Those of users who are not connected, or view no VM, and on VMs there are not, have no effect. */
    method Process(a: Action, now: int)
      requires Valid()
      requires a.Register? && a.vm !in controllers ==>
        Spare(a.vm) && forall v :: v in controllers ==> v.users != a.vm.users
      modifies this`connections, this`controllers, log, controllers, connections, set v | v in controllers :: v.users
      ensures Valid() && controllers == if a.Register? then old(controllers) + {a.vm} else old(controllers)
      ensures connections == if a.Open? && !Busy(a.user) then old(connections) + {a.user}
        else if a.Close? then old(connections) - {a.user} else old(connections)
    {
      match a
      case Open(user) =>
        if user.vmController == null && !user.waitingTurn { AddConnection(user); }
      case Close(user) =>
        if user in connections { RemoveConnection(user, now); }
      case Message(user, instruction) =>
        if user in connections { Obey(user, instruction, now); }
      case VMAction(vm, clear) =>
        if vm in controllers {
          if clear { ClearTurnQueue(vm); } else { TurnChange(vm, now); }
        }
      case Register(vm) =>
        if vm !in controllers { AddController(vm); }
    }

    predicate Busy(user: CollabVMUser)
      reads user
    {
      user.vmController != null || user.waitingTurn
    }

    method Obey(user: CollabVMUser, instruction: Instruction, now: int)
      requires Valid() && user in connections
      modifies log, controllers, connections, set v | v in controllers :: v.users
      ensures Valid() && controllers == old(controllers) && connections == old(connections)
    {
      match instruction
      case ToConnect(vm, vote) =>
        if user.vmController == null && vm in controllers { Connect(user, vm, now, vote); }
      case TakeTurn(jack, staff, running, enabled) =>
        if user.vmController != null { TurnRequest(user, jack, staff, running, enabled, now); }
      case GiveTurn(target) =>
        if user.vmController != null && target in connections {
          EndTurn(user.vmController as VMController, target, now);
        }
    }

    /** Every one of these controllers is registered, or spare, with a list of its own. */
    ghost predicate Known(machines: set<VMController>)
      reads this, machines, set v | v in machines :: v.users
    {
      && controllers <= machines
      && (forall v :: v in machines && v !in controllers ==> Spare(v))
      && (forall v, w :: v in machines && w in machines && v.users == w.users ==> v == w)
    }

    /** Whatever is done in whatever order, VMs that come to be included, every VM stays in order. */
    method Run(
      actions: seq<Action>, times: seq<int>, ghost everyone: set<CollabVMUser>, ghost machines: set<VMController>
    )
      requires Valid() && |times| == |actions| && connections <= everyone && Known(machines)
      requires forall i :: 0 <= i < |actions| ==>
        if actions[i].VMAction? || actions[i].Register? then actions[i].vm in machines else actions[i].user in everyone
      modifies this`connections, this`controllers, log, machines, everyone, set v | v in machines :: v.users
      ensures Valid() && old(controllers) <= controllers <= machines
    {
      for i := 0 to |actions|
        invariant Valid() && connections <= everyone && Known(machines) && old(controllers) <= controllers
      {
        Process(actions[i], times[i]);
      }
    }
  }
}
