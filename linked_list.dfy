/**
 * The generic singly linked list of the program: a head node reference and an
 * element count over nodes that hold opaque elements. Callers pass a
 * comparison callback (modelled as a total function) and an optional
 * delete callback (modelled by returning the element it would receive).
 */
module LinkedList {
  import opened Wrappers
  import opened BoundedArray

  /** element_count is a uint16. */
  const MaxCount := 65535

  /** The index of the first element that matches the target, or -1. */
  function FirstMatch<T, U>(s: seq<T>, target: U, matches: (T, U) -> bool): (r: int)
    ensures -1 <= r < |s|
    ensures r == -1 <==> forall i :: 0 <= i < |s| ==> !matches(s[i], target)
    ensures r >= 0 ==> matches(s[r], target) && forall i :: 0 <= i < r ==> !matches(s[i], target)
  {
    if s == [] then -1
    else if matches(s[0], target) then 0
    else
      var r := FirstMatch(s[1..], target, matches);
      if r == -1 then -1 else r + 1
  }

  /** Appending an element keeps an earlier match; without one, the new
      element is the match exactly when it matches. */
  lemma FirstMatchAppend<T, U>(s: seq<T>, x: T, target: U, matches: (T, U) -> bool)
    ensures FirstMatch(s + [x], target, matches) ==
      if FirstMatch(s, target, matches) != -1 then FirstMatch(s, target, matches)
      else if matches(x, target) then |s| else -1
  {
    var r := FirstMatch(s + [x], target, matches);
    assert forall i :: 0 <= i < |s| ==> (s + [x])[i] == s[i];
    assert (s + [x])[|s|] == x;
  }

  /** Replacing the first match by another matching element keeps it the
      first match. */
  lemma FirstMatchUpdate<T, U>(s: seq<T>, k: nat, x: T, target: U, matches: (T, U) -> bool)
    requires k < |s| && FirstMatch(s, target, matches) == k && matches(x, target)
    ensures FirstMatch(s[k := x], target, matches) == k
  {
    var t := s[k := x];
    assert forall i :: 0 <= i < k ==> t[i] == s[i] && !matches(t[i], target);
    assert matches(t[k], target);
  }

  /** The sequence without its element at index i. */
  function RemoveAt<T>(s: seq<T>, i: nat): (r: seq<T>)
    requires i < |s|
    ensures |r| == |s| - 1
    ensures forall j :: 0 <= j < i ==> r[j] == s[j]
    ensures forall j :: i <= j < |r| ==> r[j] == s[j + 1]
  {
    s[..i] + s[i + 1..]
  }

  /** Removing a position makes any earlier update of that position
      irrelevant. */
  lemma RemoveAtUpdate<T>(s: seq<T>, k: nat, x: T)
    requires k < |s|
    ensures RemoveAt(s[k := x], k) == RemoveAt(s, k)
  {
    assert s[k := x][..k] == s[..k];
    assert s[k := x][k + 1..] == s[k + 1..];
  }

  class Node<T> {
    var element: T
    var next: Node?<T>

    constructor (element: T)
      ensures this.element == element && next == null
    {
      this.element := element;
      next := null;
    }
  }

  class List<T> {
    var head: Node?<T>
    var elementCount: nat
    /** The elements, from the head on. */
    ghost var Contents: seq<T>
    /** The nodes holding them, in the same order. */
    ghost var Nodes: seq<Node<T>>
    ghost var Repr: set<object>

    /** The nodes form a null-terminated chain from head, each holding the
        element at its position, and the count is the number of nodes. */
    ghost predicate Valid()
      reads this, Repr
    {
      this in Repr
      && |Nodes| == |Contents| == elementCount <= MaxCount
      && (forall i :: 0 <= i < |Nodes| ==> Nodes[i] in Repr)
      && (forall o: object :: o in Repr ==> o == this || o is Node<T>)
      && head == (if Nodes == [] then null else Nodes[0])
      && (forall i :: 0 <= i < |Nodes| ==> Nodes[i].element == Contents[i])
      && (forall i :: 0 <= i < |Nodes| ==>
            Nodes[i].next == (if i + 1 < |Nodes| then Nodes[i + 1] else null))
      && (forall i, j :: 0 <= i < j < |Nodes| ==> Nodes[i] != Nodes[j])
    }

    /** The link out of the node at position i. */
    lemma NextOf(i: nat)
      requires Valid() && i < |Nodes|
      ensures Nodes[i].next == (if i + 1 < |Nodes| then Nodes[i + 1] else null)
    {
    }

    /** ll_create: an empty list. */
    constructor ()
      ensures Valid() && fresh(Repr)
      ensures Contents == [] && head == null && elementCount == 0
    {
      head := null;
      elementCount := 0;
      Contents := [];
      Nodes := [];
      Repr := {this};
    }

    /** ll_get_element_count. */
    function ElementCount(): (n: nat)
      reads this, Repr
      requires Valid()
      ensures n == |Contents|
    {
      elementCount
    }

    /** ll_add: walks to the last node and links a new node after it. */
    method Add(element: T)
      requires Valid() && |Contents| < MaxCount
      modifies Repr
      ensures Valid() && fresh(Repr - old(Repr))
      ensures Contents == old(Contents) + [element]
      ensures elementCount == old(elementCount) + 1
    {
      var n := new Node(element);
      ghost var last: Node?<T> := null;
      if head == null {
        head := n;
      } else {
        var current := head;
        ghost var i := 0;
        while current.next != null
          invariant Valid() && Nodes == old(Nodes) && Contents == old(Contents) && Repr == old(Repr)
          invariant 0 <= i < |Nodes| && current == Nodes[i]
          invariant n.element == element && n.next == null
          decreases |Nodes| - i
        {
          NextOf(i);
          current := current.next;
          i := i + 1;
        }
        NextOf(i);
        assert i == |Nodes| - 1;
        current.next := n;
        last := current;
      }
      ghost var oldNodes := Nodes;
      assert oldNodes == [] <==> last == null;
      assert last != null ==> last == oldNodes[|oldNodes| - 1];
      elementCount := elementCount + 1;
      Nodes := Nodes + [n];
      Contents := Contents + [element];
      Repr := Repr + {n};
      forall j | 0 <= j < |Nodes|
        ensures Nodes[j].element == Contents[j]
      {
        if j < |oldNodes| {
          assert Nodes[j] == oldNodes[j];
          assert old(Nodes[j].element == Contents[j]);
        }
      }
      forall j | 0 <= j < |Nodes|
        ensures Nodes[j].next == (if j + 1 < |Nodes| then Nodes[j + 1] else null)
      {
        if j + 1 < |oldNodes| {
          assert Nodes[j] == oldNodes[j] && oldNodes[j] != last;
          assert old(Nodes[j].next == Nodes[j + 1]);
        } else if j + 1 == |oldNodes| {
          assert Nodes[j] == last;
        }
      }
    }

    /** ll_search: the index of the first element the callback matches with
        the target, or -1. */
    method Search<U>(target: U, matches: (T, U) -> bool) returns (index: int)
      requires Valid()
      ensures index == FirstMatch(Contents, target, matches)
    {
      index := 0;
      var current := head;
      while current != null
        invariant 0 <= index <= |Nodes|
        invariant current == (if index < |Nodes| then Nodes[index] else null)
        invariant forall j :: 0 <= j < index ==> !matches(Contents[j], target)
        decreases |Nodes| - index
      {
        if matches(current.element, target) {
          return;
        }
        current := current.next;
        index := index + 1;
      }
      index := -1;
    }

    /** ll_get_at: the node holding the element at `index`, whose element
        field is the slot the caller reads; null when the index is past the
        count. An index equal to the count passes the guard and dereferences
        a null node, so it is excluded. */
    method GetAt(index: nat) returns (slot: Node?<T>)
      requires Valid() && index <= 65535 && index != |Contents|
      ensures index < |Contents| ==> slot == Nodes[index] && slot.element == Contents[index]
      ensures index > |Contents| ==> slot == null
    {
      if index > elementCount {
        return null;
      }
      var current := head;
      var i := 0;
      while current != null && index != i
        invariant 0 <= i <= index
        invariant current == Nodes[i]
        decreases index - i
      {
        i := i + 1;
        current := current.next;
      }
      slot := current;
    }

    /** ll_copy_list_to_array: appends every element, in list order. */
    method CopyToArray(arr: BoundedArray<T>)
      requires Valid() && arr.Valid() && |arr.items| + |Contents| <= arr.capacity
      requires arr !in Repr
      modifies arr
      ensures arr.Valid() && arr.items == old(arr.items) + Contents
    {
      var current := head;
      ghost var i := 0;
      while current != null
        invariant Valid() && Nodes == old(Nodes) && Contents == old(Contents)
        invariant 0 <= i <= |Nodes|
        invariant current == (if i < |Nodes| then Nodes[i] else null)
        invariant arr.Valid() && arr.items == old(arr.items) + Contents[..i]
        decreases |Nodes| - i
      {
        NextOf(i);
        arr.Add(current.element);
        assert Contents[..i + 1] == Contents[..i] + [Contents[i]];
        current := current.next;
        i := i + 1;
      }
      assert Contents[..i] == Contents;
    }

    /** Unlinks the head node and returns the element it held. */
    method UnlinkHead() returns (removed: T)
      requires Valid() && Nodes != []
      modifies this
      ensures Valid() && Repr <= old(Repr)
      ensures Contents == RemoveAt(old(Contents), 0) && elementCount == old(elementCount) - 1
      ensures removed == old(Contents)[0]
    {
      ghost var oldNodes := Nodes;
      NextOf(0);
      NextOf(|Nodes| - 1);
      var toDelete := head;
      head := toDelete.next;
      removed := toDelete.element;
      elementCount := elementCount - 1;
      Nodes := RemoveAt(Nodes, 0);
      Contents := RemoveAt(Contents, 0);
      Repr := Repr - {toDelete};
      forall j | 0 <= j < |Nodes|
        ensures Nodes[j].next == (if j + 1 < |Nodes| then Nodes[j + 1] else null)
      {
        assert Nodes[j] == oldNodes[j + 1];
        assert old(Nodes[j + 1].next == (if j + 2 < |Nodes| then Nodes[j + 2] else null));
      }
    }

    /** Unlinks the node after `prev`, which sits at position k - 1, and
        returns the element the unlinked node held. */
    method UnlinkAfter(ghost k: nat, prev: Node<T>) returns (removed: T)
      requires Valid() && 1 <= k < |Nodes| && prev == Nodes[k - 1]
      modifies this, prev
      ensures Valid() && Repr <= old(Repr)
      ensures Contents == RemoveAt(old(Contents), k) && elementCount == old(elementCount) - 1
      ensures removed == old(Contents)[k]
    {
      ghost var oldNodes := Nodes;
      NextOf(k - 1);
      NextOf(k);
      NextOf(|Nodes| - 1);
      var toDelete := prev.next;
      prev.next := toDelete.next;
      removed := toDelete.element;
      elementCount := elementCount - 1;
      Nodes := RemoveAt(Nodes, k);
      Contents := RemoveAt(Contents, k);
      Repr := Repr - {toDelete};
      forall j | 0 <= j < |Nodes|
        ensures Nodes[j].next == (if j + 1 < |Nodes| then Nodes[j + 1] else null)
      {
        if j < k - 1 {
          assert Nodes[j] == oldNodes[j] != prev;
          assert old(Nodes[j].next == Nodes[j + 1]);
        } else if j >= k {
          assert Nodes[j] == oldNodes[j + 1] != prev;
          assert old(Nodes[j + 1].next == (if j + 2 < |Nodes| then Nodes[j + 2] else null));
        }
      }
    }

    /** ll_delete_at: unlinks the node at `index` when it exists; `disposed`
        is what the delete callback receives, none when the caller passes no
        callback. */
    method DeleteAt(index: nat, withDelete: bool) returns (disposed: Option<T>)
      requires Valid() && index <= 65535
      modifies Repr
      ensures Valid() && Repr <= old(Repr)
      ensures index >= old(|Contents|) ==>
        Contents == old(Contents) && elementCount == old(elementCount) && disposed == None
      ensures index < old(|Contents|) ==>
        Contents == RemoveAt(old(Contents), index) && elementCount == old(elementCount) - 1
        && disposed == (if withDelete then Some(old(Contents)[index]) else None)
    {
      if index >= elementCount {
        return None;
      }
      var removed: T;
      if index == 0 {
        removed := UnlinkHead();
      } else {
        var current := head;
        var i := 0;
        while i < index - 1
          invariant Valid() && Nodes == old(Nodes) && Contents == old(Contents) && Repr == old(Repr)
          invariant 0 <= i <= index - 1
          invariant current == Nodes[i]
        {
          NextOf(i);
          current := current.next;
          i := i + 1;
        }
        removed := UnlinkAfter(index, current);
      }
      disposed := if withDelete then Some(removed) else None;
    }

    /** ll_delete_element: unlinks the first element the callback matches
        with the target, which is handed to the delete callback. */
    method DeleteElement<U>(target: U, matches: (T, U) -> bool) returns (disposed: Option<T>)
      requires Valid()
      modifies Repr
      ensures Valid() && Repr <= old(Repr)
      ensures FirstMatch(old(Contents), target, matches) == -1 ==>
        Contents == old(Contents) && elementCount == old(elementCount) && disposed == None
      ensures FirstMatch(old(Contents), target, matches) >= 0 ==>
        var k := FirstMatch(old(Contents), target, matches);
        Contents == RemoveAt(old(Contents), k) && elementCount == old(elementCount) - 1
        && disposed == Some(old(Contents)[k])
    {
      var current := head;
      if current != null && matches(current.element, target) {
        var removed := UnlinkHead();
        return Some(removed);
      }
      ghost var i := 0;
      while current != null && current.next != null
        invariant Valid() && Nodes == old(Nodes) && Contents == old(Contents) && Repr == old(Repr)
        invariant current == null ==> Nodes == []
        invariant current != null ==> 0 <= i < |Nodes| && current == Nodes[i]
        invariant forall j :: 0 <= j <= i && j < |Nodes| ==> !matches(Contents[j], target)
        decreases |Nodes| - i
      {
        NextOf(i);
        if matches(current.next.element, target) {
          var removed := UnlinkAfter(i + 1, current);
          return Some(removed);
        }
        current := current.next;
        i := i + 1;
      }
      if current != null {
        NextOf(i);
      }
      disposed := None;
    }

    /** ll_delete_list: hands every element, in list order, to the delete
        callback; the nodes and the list itself are then released. */
    method DeleteList() returns (disposed: seq<T>)
      requires Valid()
      ensures disposed == Contents
    {
      disposed := [];
      var current := head;
      ghost var i := 0;
      while current != null
        invariant 0 <= i <= |Nodes|
        invariant current == (if i < |Nodes| then Nodes[i] else null)
        invariant disposed == Contents[..i]
        decreases |Nodes| - i
      {
        var toDelete := current;
        current := current.next;
        disposed := disposed + [toDelete.element];
        i := i + 1;
      }
      assert Contents[..i] == Contents;
    }
  }
}
