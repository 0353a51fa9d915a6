/**
 * The fixed-capacity array of references the report copies the history into
 * (array_create, array_add, get_at, ptr_swap). Neither their declarations nor
 * their implementation are part of this model; this class gives them the
 * contract array.h states for the older create_array and add_element: an
 * element goes to the next free slot, and the caller must leave room for
 * every element it adds.
 */
module BoundedArray {

  class BoundedArray<T> {
    const capacity: nat
    var items: seq<T>

    ghost predicate Valid()
      reads this
    {
      |items| <= capacity
    }

    /** array_create(capacity): an empty array with room for `capacity` references. */
    constructor (capacity: nat)
      ensures Valid() && this.capacity == capacity && items == []
    {
      this.capacity := capacity;
      items := [];
    }

    /** array_add: the element goes into the next free slot. */
    method Add(element: T)
      requires Valid() && |items| < capacity
      modifies this
      ensures Valid() && items == old(items) + [element]
    {
      items := items + [element];
    }

    /** Exchanges the references held in two slots, as ptr_swap does on the
        slots get_at returns. */
    method Swap(i: nat, j: nat)
      requires Valid() && i < |items| && j < |items|
      modifies this
      ensures Valid() && items == old(items)[i := old(items)[j]][j := old(items)[i]]
    {
      items := items[i := items[j]][j := items[i]];
    }
  }
}
