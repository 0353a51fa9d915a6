/**
 * The list of user ids that have booked, a singly linked list of its own
 * (older than the generic list): a head node reference and a uint16 count over
 * nodes that each hold one id.
 */
module Booking {
  import opened Wrappers
  import opened LinkedList

  /** user_id is a uint16. */
  type UserId = x: int | 0 <= x < 0x1_0000

  /** booking_count is a uint16. */
  const MaxBookings := 65535

  predicate SameId(x: UserId, id: UserId) {
    x == id
  }

  /** What delete_booking does to the ids as written: None where it
      dereferences a null node, which happens on an empty list (the head's
      id is read) and when no later node holds the id (the last node's
      missing successor is read). */
  function DeleteWalk(ids: seq<UserId>, id: UserId): (r: Option<seq<UserId>>)
  {
    if ids == [] then None
    else if ids[0] == id then Some(ids[1..])
    else WalkFrom(ids, id, 0)
  }

  /** The loop of delete_booking with `current` at position i. */
  function WalkFrom(ids: seq<UserId>, id: UserId, i: nat): (r: Option<seq<UserId>>)
    requires i < |ids|
    decreases |ids| - i
  {
    if i + 1 == |ids| then None
    else if ids[i + 1] == id then Some(RemoveAt(ids, i + 1))
    else WalkFrom(ids, id, i + 1)
  }

  /** Past position i, the walk removes the first later occurrence of the id
      and fails exactly when there is none. */
  lemma {:induction false} WalkFromRemovesFirst(ids: seq<UserId>, id: UserId, i: nat)
    requires i < |ids|
    requires forall j :: 0 <= j <= i ==> ids[j] != id
    ensures WalkFrom(ids, id, i).Some? <==> id in ids
    ensures WalkFrom(ids, id, i).Some? ==>
      WalkFrom(ids, id, i).value == RemoveAt(ids, FirstMatch(ids, id, SameId))
    decreases |ids| - i
  {
    if i + 1 == |ids| {
      assert forall j :: 0 <= j < |ids| ==> ids[j] != id;
    } else if ids[i + 1] == id {
      assert FirstMatch(ids, id, SameId) == i + 1;
    } else {
      WalkFromRemovesFirst(ids, id, i + 1);
    }
  }

  /** As written, delete_booking succeeds exactly when the id is in the
      list, and then removes its first occurrence. */
  lemma DeleteWalkRemovesFirst(ids: seq<UserId>, id: UserId)
    ensures DeleteWalk(ids, id).Some? <==> id in ids
    ensures DeleteWalk(ids, id).Some? ==>
      DeleteWalk(ids, id).value == RemoveAt(ids, FirstMatch(ids, id, SameId))
  {
    if ids != [] && ids[0] != id {
      WalkFromRemovesFirst(ids, id, 0);
    }
  }

  /** An id that is not booked makes delete_booking dereference null, on an
      empty list and on a non-empty one alike, where the header promises
      that nothing happens. */
  lemma DeleteAbsentCrashes(ids: seq<UserId>, id: UserId)
    requires id !in ids
    ensures DeleteWalk(ids, id) == None
    ensures DeleteWalk([], id) == None
  {
    DeleteWalkRemovesFirst(ids, id);
  }

  /** The intended delete: the first occurrence goes, and an absent id
      leaves the ids as they are. */
  function DeleteFixed(ids: seq<UserId>, id: UserId): (r: seq<UserId>)
    ensures id in ids ==> Some(r) == DeleteWalk(ids, id)
    ensures id !in ids ==> r == ids
  {
    DeleteWalkRemovesFirst(ids, id);
    var k := FirstMatch(ids, id, SameId);
    if k == -1 then ids else RemoveAt(ids, k)
  }

  /** Booking an id that was not booked and then deleting it gives back the
      bookings as they were. */
  lemma AddThenDelete(ids: seq<UserId>, id: UserId)
    requires id !in ids
    ensures FirstMatch(ids + [id], id, SameId) == |ids|
    ensures DeleteWalk(ids + [id], id) == Some(ids)
    ensures DeleteFixed(ids + [id], id) == ids
  {
    var s := ids + [id];
    FirstMatchAppend(ids, id, id, SameId);
    assert FirstMatch(ids, id, SameId) == -1;
    DeleteWalkRemovesFirst(s, id);
    assert id in s;
    assert RemoveAt(s, |ids|) == ids by {
      assert s[..|ids|] == ids && s[|ids| + 1..] == [];
    }
    var r := DeleteFixed(s, id);
    assert Some(r) == DeleteWalk(s, id);
  }

  class BookingNode {
    var id: UserId
    var next: BookingNode?

    constructor (id: UserId)
      ensures this.id == id && next == null
    {
      this.id := id;
      next := null;
    }
  }

  class BookingList {
    var head: BookingNode?
    var bookingCount: nat
    /** The booked ids, from the head on. */
    ghost var Ids: seq<UserId>
    /** The nodes holding them, in the same order. */
    ghost var Nodes: seq<BookingNode>
    ghost var Repr: set<object>

    /** The nodes form a null-terminated chain from head, each holding the
        id at its position, and the count is the number of nodes. */
    ghost predicate Valid()
      reads this, Repr
    {
      this in Repr
      && |Nodes| == |Ids| == bookingCount <= MaxBookings
      && (forall i :: 0 <= i < |Nodes| ==> Nodes[i] in Repr)
      && (forall o: object :: o in Repr ==> o == this || o is BookingNode)
      && head == (if Nodes == [] then null else Nodes[0])
      && (forall i :: 0 <= i < |Nodes| ==> Nodes[i].id == Ids[i])
      && (forall i :: 0 <= i < |Nodes| ==>
            Nodes[i].next == (if i + 1 < |Nodes| then Nodes[i + 1] else null))
      && (forall i, j :: 0 <= i < j < |Nodes| ==> Nodes[i] != Nodes[j])
    }

    /** The link out of the node at position i. */
    lemma NextOf(i: nat)
      requires Valid() && i < |Nodes|
      ensures Nodes[i].next == (if i + 1 < |Nodes| then Nodes[i + 1] else null)
    {
    }

    /** create_booking_list: no bookings. */
    constructor ()
      ensures Valid() && fresh(Repr)
      ensures Ids == [] && head == null && bookingCount == 0
    {
      head := null;
      bookingCount := 0;
      Ids := [];
      Nodes := [];
      Repr := {this};
    }

    /** add_booking: walks to the last node and links a node for the id
        after it. */
    method AddBooking(id: UserId)
      requires Valid() && |Ids| < MaxBookings
      modifies Repr
      ensures Valid() && fresh(Repr - old(Repr))
      ensures Ids == old(Ids) + [id]
      ensures bookingCount == old(bookingCount) + 1
    {
      var n := new BookingNode(id);
      ghost var last: BookingNode? := null;
      var current := head;
      if head == null {
        head := n;
      } else {
        ghost var i := 0;
        while current.next != null
          invariant Valid() && Nodes == old(Nodes) && Ids == old(Ids) && Repr == old(Repr)
          invariant 0 <= i < |Nodes| && current == Nodes[i]
          invariant n.id == id && n.next == null
          decreases |Nodes| - i
        {
          NextOf(i);
          current := current.next;
          i := i + 1;
        }
        NextOf(i);
        assert i == |Nodes| - 1;
        current.next := n;
        last := current;
      }
      ghost var oldNodes := Nodes;
      assert oldNodes == [] <==> last == null;
      assert last != null ==> last == oldNodes[|oldNodes| - 1];
      bookingCount := bookingCount + 1;
      Nodes := Nodes + [n];
      Ids := Ids + [id];
      Repr := Repr + {n};
      forall j | 0 <= j < |Nodes|
        ensures Nodes[j].id == Ids[j]
      {
        if j < |oldNodes| {
          assert Nodes[j] == oldNodes[j];
          assert old(Nodes[j].id == Ids[j]);
        }
      }
      forall j | 0 <= j < |Nodes|
        ensures Nodes[j].next == (if j + 1 < |Nodes| then Nodes[j + 1] else null)
      {
        if j + 1 < |oldNodes| {
          assert Nodes[j] == oldNodes[j] && oldNodes[j] != last;
          assert old(Nodes[j].next == Nodes[j + 1]);
        } else if j + 1 == |oldNodes| {
          assert Nodes[j] == last;
        }
      }
    }

    /** search_booking: the position of the first node holding the id, or
        -1. */
    method SearchBooking(id: UserId) returns (index: int)
      requires Valid()
      ensures index == FirstMatch(Ids, id, SameId)
      ensures index == -1 <==> id !in Ids
      ensures index >= 0 ==> Ids[index] == id && id !in Ids[..index]
    {
      index := 0;
      var current := head;
      while current != null
        invariant 0 <= index <= |Nodes|
        invariant current == (if index < |Nodes| then Nodes[index] else null)
        invariant forall j :: 0 <= j < index ==> Ids[j] != id
        decreases |Nodes| - index
      {
        if current.id == id {
          return;
        }
        current := current.next;
        index := index + 1;
      }
      index := -1;
    }

    /** The head case of delete_booking: head moves to the second node. */
    method UnlinkHead()
      requires Valid() && Nodes != []
      modifies this
      ensures Valid() && Repr <= old(Repr)
      ensures Ids == old(Ids)[1..] && bookingCount == old(bookingCount) - 1
    {
      ghost var oldNodes := Nodes;
      NextOf(0);
      NextOf(|Nodes| - 1);
      var next := head.next;
      Repr := Repr - {head};
      head := next;
      bookingCount := bookingCount - 1;
      Nodes := Nodes[1..];
      Ids := Ids[1..];
      forall j | 0 <= j < |Nodes|
        ensures Nodes[j].next == (if j + 1 < |Nodes| then Nodes[j + 1] else null)
      {
        assert Nodes[j] == oldNodes[j + 1];
        assert old(Nodes[j + 1].next == (if j + 2 < |Nodes| then Nodes[j + 2] else null));
      }
    }

    /** The loop case of delete_booking: the node after `current`, at
        position k, is bypassed. */
    method UnlinkAfter(ghost k: nat, current: BookingNode)
      requires Valid() && 1 <= k < |Nodes| && current == Nodes[k - 1]
      modifies this, current
      ensures Valid() && Repr <= old(Repr)
      ensures Ids == RemoveAt(old(Ids), k) && bookingCount == old(bookingCount) - 1
    {
      ghost var oldNodes := Nodes;
      NextOf(k - 1);
      NextOf(k);
      NextOf(|Nodes| - 1);
      var toDelete := current.next;
      current.next := toDelete.next;
      bookingCount := bookingCount - 1;
      Nodes := RemoveAt(Nodes, k);
      Ids := RemoveAt(Ids, k);
      Repr := Repr - {toDelete};
      forall j | 0 <= j < |Nodes|
        ensures Nodes[j].next == (if j + 1 < |Nodes| then Nodes[j + 1] else null)
      {
        if j < k - 1 {
          assert Nodes[j] == oldNodes[j] != current;
          assert old(Nodes[j].next == Nodes[j + 1]);
        } else if j >= k {
          assert Nodes[j] == oldNodes[j + 1] != current;
          assert old(Nodes[j + 1].next == (if j + 2 < |Nodes| then Nodes[j + 2] else null));
        }
      }
    }

    /** delete_booking as written: the walk dereferences null unless the id
        is booked, so the id must be in the list; the first node holding it
        is unlinked. */
    method DeleteBooking(id: UserId)
      requires Valid() && id in Ids
      modifies Repr
      ensures Valid() && Repr <= old(Repr)
      ensures Some(Ids) == DeleteWalk(old(Ids), id)
      ensures bookingCount == old(bookingCount) - 1
    {
      DeleteWalkRemovesFirst(Ids, id);
      var current := head;
      if current.id == id {
        UnlinkHead();
      } else {
        ghost var i := 0;
        while current != null
          invariant Valid() && Nodes == old(Nodes) && Ids == old(Ids) && Repr == old(Repr)
          invariant 0 <= i < |Nodes| && current == Nodes[i]
          invariant forall j :: 0 <= j <= i ==> Ids[j] != id
          decreases |Nodes| - i
        {
          NextOf(i);
          if current.next.id == id {
            assert FirstMatch(Ids, id, SameId) == i + 1;
            UnlinkAfter(i + 1, current);
            return;
          }
          current := current.next;
          i := i + 1;
        }
        assert false;
      }
    }

    /** delete_booking as its header describes it: an id that is not booked
        leaves the list unchanged. */
    method DeleteBookingFixed(id: UserId)
      requires Valid()
      modifies Repr
      ensures Valid() && Repr <= old(Repr)
      ensures Ids == DeleteFixed(old(Ids), id)
      ensures bookingCount == |Ids|
    {
      var current := head;
      if current == null {
        return;
      }
      if current.id == id {
        UnlinkHead();
        return;
      }
      ghost var i := 0;
      while current.next != null
        invariant Valid() && Nodes == old(Nodes) && Ids == old(Ids) && Repr == old(Repr)
        invariant 0 <= i < |Nodes| && current == Nodes[i]
        invariant forall j :: 0 <= j <= i ==> Ids[j] != id
        decreases |Nodes| - i
      {
        NextOf(i);
        if current.next.id == id {
          assert FirstMatch(Ids, id, SameId) == i + 1;
          UnlinkAfter(i + 1, current);
          return;
        }
        current := current.next;
        i := i + 1;
      }
      NextOf(i);
      assert id !in Ids;
    }
  }
}
