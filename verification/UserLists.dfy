/** The intrusive doubly linked list of UserList.h. */
module UserLists {
  import opened Collections
  import opened Turns

  class CollabVMUser {
    var next: CollabVMUser?
    var prev: CollabVMUser?
    var vmController: object?
    var waitingTurn: bool
    var username: string

    constructor (name: string)
      ensures next == prev == null && vmController == null && !waitingTurn && username == name
    {
      next, prev, vmController, waitingTurn, username := null, null, null, false, name;
    }
  }

  /** The neighbours of an entry after the one at k is erased. */
  lemma AtErased(was: seq<CollabVMUser>, k: nat, i: nat)
    requires k < |was| && i < |was| - 1
    ensures var now, j := was[..k] + was[k + 1..], if i < k then i else i + 1;
      && now[i] == was[j]
      && At(now, i + 1, null) == (if j == k - 1 then At(was, k + 1, null) else At(was, j + 1, null))
      && At(now, i - 1, null) == if j == k + 1 then At(was, k - 1, null) else At(was, j - 1, null)
  {}

  lemma ErasedNext(was: seq<CollabVMUser>, k: nat, now: seq<CollabVMUser>)
    requires k < |was| && now == was[..k] + was[k + 1..]
    requires forall j {:trigger was[j].next} :: 0 <= j < |was| && j != k ==>
      was[j].next == if j == k - 1 then At(was, k + 1, null) else At(was, j + 1, null)
    ensures forall i {:trigger now[i].next} :: 0 <= i < |now| ==> now[i].next == At(now, i + 1, null)
  {
    forall i | 0 <= i < |now| ensures now[i].next == At(now, i + 1, null) {
      var j := if i < k then i else i + 1;
      AtErased(was, k, i);
      assert was[j].next == if j == k - 1 then At(was, k + 1, null) else At(was, j + 1, null);
    }
  }

  lemma ErasedPrev(was: seq<CollabVMUser>, k: nat, now: seq<CollabVMUser>)
    requires k < |was| && now == was[..k] + was[k + 1..]
    requires forall j {:trigger was[j].prev} :: 0 <= j < |was| && j != k ==>
      was[j].prev == if j == k + 1 then At(was, k - 1, null) else At(was, j - 1, null)
    ensures forall i {:trigger now[i].prev} :: 0 <= i < |now| ==> now[i].prev == At(now, i - 1, null)
  {
    forall i | 0 <= i < |now| ensures now[i].prev == At(now, i - 1, null) {
      var j := if i < k then i else i + 1;
      AtErased(was, k, i);
      assert was[j].prev == if j == k + 1 then At(was, k - 1, null) else At(was, j - 1, null);
    }
  }

  class UserList {
    var users: CollabVMUser?
    var connectedUsers: nat
    ghost var nodes: seq<CollabVMUser>

    /** nodes are what a walk along next finds, and prev leads back. */
    ghost predicate Linked()
      reads this, nodes`next, nodes`prev
    {
      && NoDup(nodes)
      && connectedUsers == |nodes|
      && users == At(nodes, 0, null)
      && (forall i {:trigger nodes[i].next} :: 0 <= i < |nodes| ==> nodes[i].next == At(nodes, i + 1, null))
      && (forall i {:trigger nodes[i].prev} :: 0 <= i < |nodes| ==> nodes[i].prev == At(nodes, i - 1, null))
    }

    constructor ()
      ensures Linked() && nodes == []
    {
      users, connectedUsers, nodes := null, 0, [];
    }

    method AddUser(user: CollabVMUser)
      requires Linked() && user !in nodes
      modifies this, user`next, user`prev, nodes`prev
      ensures Linked() && nodes == [user] + old(nodes)
    {
      user.prev := null;
      user.next := users;
      if users != null { users.prev := user; }
      users := user;
      connectedUsers := connectedUsers + 1;
      nodes := [user] + nodes;
    }

    /** The neighbours of the entry at k are linked to each other. */
    method Unlink(user: CollabVMUser, ghost k: nat)
      requires Linked() && k < |nodes| && nodes[k] == user
      modifies this`users, nodes`next, nodes`prev
      ensures users == At(nodes, if k == 0 then 1 else 0, null)
      ensures forall j {:trigger nodes[j].next} :: 0 <= j < |nodes| && j != k ==>
        nodes[j].next == if j == k - 1 then At(nodes, k + 1, null) else At(nodes, j + 1, null)
      ensures forall j {:trigger nodes[j].prev} :: 0 <= j < |nodes| && j != k ==>
        nodes[j].prev == if j == k + 1 then At(nodes, k - 1, null) else At(nodes, j - 1, null)
    {
      assert user.prev == At(nodes, k - 1, null) && user.next == At(nodes, k + 1, null);
      if user.prev != null { user.prev.next := user.next; } else { users := user.next; }
      if user.next != null { user.next.prev := user.prev; }
    }

    method RemoveUser(user: CollabVMUser)
      requires Linked() && user in nodes
      modifies this, nodes`next, nodes`prev
      ensures Linked() && nodes == Without(old(nodes), user)
    {
      ghost var k :| 0 <= k < |nodes| && nodes[k] == user;
      ghost var was := nodes;
      WithoutAt(nodes, k);
      WithoutIsErase(nodes, user);
      Unlink(user, k);
      connectedUsers := connectedUsers - 1;
      nodes := was[..k] + was[k + 1..];
      ErasedNext(was, k, nodes);
      ErasedPrev(was, k, nodes);
    }
  }
}
