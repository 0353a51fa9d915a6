/**
 * The fixed-size open-addressing table that maps a course id to its course.
 * Collisions are resolved by linear probing with wrap-around; an existing
 * key is overwritten in place; there is no removal of single keys, so a
 * lookup may stop at the first empty slot.
 */
module HashMap {
  import opened Wrappers

  /** Keys, the table size and the count are uint16 values. */
  type Key = k: nat | k < 0x1_0000

  /** The 32-bit mixing of hash_function; multiplication wraps around. */
  function Mix(key: Key): bv32 {
    var x0 := key as bv32;
    var x1 := ((x0 >> 7) ^ x0) * 0x85eb_ca6b;
    var x2 := ((x1 >> 11) ^ x1) * 0xc2b2_ae35;
    (x2 >> 15) ^ x2
  }

  /** hash_function: the home slot of a key is its mixed value modulo the
      table size. */
  function Hash(key: Key, size: nat): (h: nat)
    requires 0 < size < 0x1_0000
    ensures h < size
  {
    Mix(key) as nat % size
  }

  /** A zeroed (calloc'ed) slot is unoccupied; an occupied slot holds a key
      and its value. */
  datatype Slot<V> = Empty | Occupied(key: Key, value: V)

  /** The slot index reached after `d` probes from home slot `h`. */
  function ProbeIndex(h: nat, d: nat, n: nat): (r: nat)
    requires h < n && d < n
    ensures r < n && r == (h + d) % n
  {
    ModWrap(h + d, n);
    if h + d < n then h + d else h + d - n
  }

  /** A sum below twice the table size wraps around at most once. */
  lemma ModWrap(x: nat, n: nat)
    requires 0 < n && x < 2 * n
    ensures x % n == if x < n then x else x - n
  {
    if x < n {
      assert x == 0 * n + x;
    } else {
      assert x == 1 * n + (x - n);
    }
  }

  /** How many probes from home slot `h` it takes to reach slot `i`. */
  function Dist(h: nat, i: nat, n: nat): (d: nat)
    requires h < n && i < n
    ensures d < n && ProbeIndex(h, d, n) == i
  {
    if h <= i then i - h else i + n - h
  }

  /** Different probe counts below n reach different slots. */
  lemma ProbeIndexInjective(h: nat, d1: nat, d2: nat, n: nat)
    requires h < n && d1 < n && d2 < n && d1 != d2
    ensures ProbeIndex(h, d1, n) != ProbeIndex(h, d2, n)
  {
  }

  function ProbeSlot<V>(s: seq<Slot<V>>, h: nat, d: nat): Slot<V>
    requires h < |s| && d < |s|
  {
    s[ProbeIndex(h, d, |s|)]
  }

  function OccupiedCount<V>(s: seq<Slot<V>>): (c: nat)
    ensures c <= |s|
  {
    if s == [] then 0 else OccupiedCount(s[..|s| - 1]) + (if s[|s| - 1].Occupied? then 1 else 0)
  }

  /** The values of the occupied slots, in slot order. */
  function OccupiedValues<V>(s: seq<Slot<V>>): (vs: seq<V>)
    ensures |vs| == OccupiedCount(s)
    ensures forall i :: 0 <= i < |s| && s[i].Occupied? ==> s[i].value in vs
  {
    if s == [] then []
    else
      OccupiedValues(s[..|s| - 1]) + (if s[|s| - 1].Occupied? then [s[|s| - 1].value] else [])
  }

  ghost predicate DistinctKeys<V>(s: seq<Slot<V>>) {
    forall i, j :: 0 <= i < j < |s| && s[i].Occupied? && s[j].Occupied? ==> s[i].key != s[j].key
  }

  /** Every home slot lies inside a table of n slots. */
  ghost predicate HomeInRange(home: Key -> nat, n: nat) {
    forall k :: home(k) < n
  }

  /** The home slots hash_function gives in a table of `size` slots. */
  function HashOf(size: nat): (home: Key -> nat)
    requires 0 < size < 0x1_0000
    ensures HomeInRange(home, size)
  {
    k => Hash(k, size)
  }

  /** Every slot on the probe path from an occupied slot's home slot to the
      slot itself is occupied: this is what lets a lookup stop at the first
      empty slot. */
  ghost predicate ProbeClosed<V>(s: seq<Slot<V>>, home: Key -> nat)
    requires HomeInRange(home, |s|)
  {
    forall i, d :: 0 <= i < |s| && s[i].Occupied? && 0 <= d < Dist(home(s[i].key), i, |s|) ==>
      ProbeSlot(s, home(s[i].key), d).Occupied?
  }

  /** The abstract map holds exactly the pairs of the occupied slots. */
  ghost predicate Abstracts<V>(s: seq<Slot<V>>, m: map<Key, V>) {
    (forall i :: 0 <= i < |s| && s[i].Occupied? ==> s[i].key in m && m[s[i].key] == s[i].value)
    && (forall k :: k in m ==> exists i :: 0 <= i < |s| && s[i] == Occupied(k, m[k]))
  }

  /** The table invariant: keys are distinct, probe paths are closed, and
      the slots hold exactly the pairs of the abstract map. */
  ghost predicate Wf<V>(s: seq<Slot<V>>, m: map<Key, V>, home: Key -> nat) {
    HomeInRange(home, |s|) && DistinctKeys(s) && ProbeClosed(s, home) && Abstracts(s, m)
  }

  /** get_course's probe loop: from the home slot on, an empty slot ends the
      search, a slot holding the key yields its value, and after `|s|`
      probes there is nothing. */
  function Find<V>(s: seq<Slot<V>>, key: Key, h: nat, d: nat): Option<V>
    requires h < |s| && d <= |s|
    decreases |s| - d
  {
    if d == |s| then None
    else match ProbeSlot(s, h, d)
      case Empty => None
      case Occupied(k, v) => if k == key then Some(v) else Find(s, key, h, d + 1)
  }

  /** A key no occupied slot holds is not found. */
  lemma {:induction false} FindAbsent<V>(s: seq<Slot<V>>, key: Key, h: nat, d: nat)
    requires h < |s| && d <= |s|
    requires forall i :: 0 <= i < |s| && s[i].Occupied? ==> s[i].key != key
    ensures Find(s, key, h, d) == None
    decreases |s| - d
  {
    if d < |s| && ProbeSlot(s, h, d).Occupied? {
      FindAbsent(s, key, h, d + 1);
    }
  }

  /** A key held at slot p is found by probing from its home slot. */
  lemma {:induction false} FindPresent<V>(s: seq<Slot<V>>, home: Key -> nat, p: nat, d: nat)
    requires HomeInRange(home, |s|) && DistinctKeys(s) && ProbeClosed(s, home)
    requires p < |s| && s[p].Occupied?
    requires d <= Dist(home(s[p].key), p, |s|)
    ensures Find(s, s[p].key, home(s[p].key), d) == Some(s[p].value)
    decreases Dist(home(s[p].key), p, |s|) - d
  {
    var h := home(s[p].key);
    var dp := Dist(h, p, |s|);
    if d < dp {
      ProbeIndexInjective(h, d, dp, |s|);
      var q := ProbeIndex(h, d, |s|);
      assert ProbeSlot(s, h, d).Occupied?;
      assert s[q].key != s[p].key by {
        if q < p {} else {}
      }
      FindPresent(s, home, p, d + 1);
    }
  }

  /** Changing one slot changes the occupied count by the change of that
      slot alone. */
  lemma {:induction false} OccupiedCountUpdate<V>(s: seq<Slot<V>>, i: nat, x: Slot<V>)
    requires i < |s|
    ensures OccupiedCount(s[i := x]) ==
      OccupiedCount(s) - (if s[i].Occupied? then 1 else 0) + (if x.Occupied? then 1 else 0)
    decreases |s|
  {
    var t := s[i := x];
    assert t[..|t| - 1] == if i == |s| - 1 then s[..|s| - 1] else s[..|s| - 1][i := x];
    if i < |s| - 1 {
      OccupiedCountUpdate(s[..|s| - 1], i, x);
    }
  }

  /** When every slot is occupied the count is the table size. */
  lemma {:induction false} AllOccupiedCount<V>(s: seq<Slot<V>>)
    requires forall i :: 0 <= i < |s| ==> s[i].Occupied?
    ensures OccupiedCount(s) == |s|
    decreases |s|
  {
    if s != [] {
      AllOccupiedCount(s[..|s| - 1]);
    }
  }

  /** Filling the first empty slot on a new key's probe path keeps the
      table well formed and adds the pair to the abstract map. */
  lemma FillKeepsWf<V>(s: seq<Slot<V>>, m: map<Key, V>, home: Key -> nat, key: Key, value: V, d: nat)
    requires Wf(s, m, home) && key !in m
    requires d < |s| && ProbeSlot(s, home(key), d).Empty?
    requires forall e :: 0 <= e < d ==> ProbeSlot(s, home(key), e).Occupied?
    ensures Wf(s[ProbeIndex(home(key), d, |s|) := Occupied(key, value)], m[key := value], home)
  {
    var h := home(key);
    var idx := ProbeIndex(h, d, |s|);
    var t := s[idx := Occupied(key, value)];
    var m' := m[key := value];
    assert Dist(h, idx, |s|) == d by {
      var dd := Dist(h, idx, |s|);
      if dd != d { ProbeIndexInjective(h, dd, d, |s|); }
    }
    forall i, e | 0 <= i < |t| && t[i].Occupied? && 0 <= e < Dist(home(t[i].key), i, |t|)
      ensures ProbeSlot(t, home(t[i].key), e).Occupied?
    {
      if i != idx {
        assert ProbeSlot(s, home(s[i].key), e).Occupied?;
      } else {
        assert ProbeSlot(s, h, e).Occupied?;
      }
    }
    forall k | k in m'
      ensures exists i :: 0 <= i < |t| && t[i] == Occupied(k, m'[k])
    {
      if k == key {
        assert t[idx] == Occupied(k, m'[k]);
      } else {
        var i :| 0 <= i < |s| && s[i] == Occupied(k, m[k]);
        assert t[i] == Occupied(k, m'[k]);
      }
    }
  }

  /** Overwriting the value of the slot that holds a key keeps the table well
      formed and updates the abstract map at that key. */
  lemma ReplaceKeepsWf<V>(s: seq<Slot<V>>, m: map<Key, V>, home: Key -> nat, idx: nat, value: V)
    requires Wf(s, m, home) && idx < |s| && s[idx].Occupied?
    ensures Wf(s[idx := Occupied(s[idx].key, value)], m[s[idx].key := value], home)
  {
    var key := s[idx].key;
    var t := s[idx := Occupied(key, value)];
    var m' := m[key := value];
    forall i, e | 0 <= i < |t| && t[i].Occupied? && 0 <= e < Dist(home(t[i].key), i, |t|)
      ensures ProbeSlot(t, home(t[i].key), e).Occupied?
    {
      assert ProbeSlot(s, home(s[i].key), e).Occupied?;
    }
    forall k | k in m'
      ensures exists i :: 0 <= i < |t| && t[i] == Occupied(k, m'[k])
    {
      if k == key {
        assert t[idx] == Occupied(k, m'[k]);
      } else {
        var i :| 0 <= i < |s| && s[i] == Occupied(k, m[k]);
        assert t[i] == Occupied(k, m'[k]);
      }
    }
  }

  /** Lookup through the probe sequence agrees with the abstract map. */
  lemma FindIsLookup<V>(s: seq<Slot<V>>, m: map<Key, V>, home: Key -> nat, key: Key)
    requires Wf(s, m, home)
    ensures Find(s, key, home(key), 0) == if key in m then Some(m[key]) else None
  {
    if key in m {
      var p :| 0 <= p < |s| && s[p] == Occupied(key, m[key]);
      FindPresent(s, home, p, 0);
    } else {
      FindAbsent(s, key, home(key), 0);
    }
  }

  /** What insert_course reports: refused because the map is full, a new
      pair, or an overwritten pair whose old value is handed to the course
      delete callback. */
  datatype InsertOutcome<V> = MapFull | Added | Replaced(disposed: V)

  class HashMap<V> {
    const size: nat
    const table: array<Slot<V>>
    var count: nat
    /** The pairs the table holds. */
    ghost var Contents: map<Key, V>

    ghost predicate Valid()
      reads this, table
    {
      0 < size < 0x1_0000 && table.Length == size
      && count == OccupiedCount(table[..]) && Wf(table[..], Contents, HashOf(size))
    }

    /** create_hash_map: `size` zeroed slots and no pairs. */
    constructor (size: nat)
      requires 0 < size < 0x1_0000
      ensures Valid() && fresh(table)
      ensures this.size == size && count == 0 && Contents == map[]
      ensures forall i :: 0 <= i < size ==> table[i] == Empty
    {
      this.size := size;
      count := 0;
      table := new Slot<V>[size](_ => Empty);
      Contents := map[];
      new;
      AllEmptyCount(table[..]);
    }

    /** get_course: the value stored under the key, if any. The map is not
        changed. */
    function Get(key: Key): (r: Option<V>)
      reads this, table
      requires Valid()
      ensures r == if key in Contents then Some(Contents[key]) else None
    {
      FindIsLookup(table[..], Contents, HashOf(size), key);
      Find(table[..], key, Hash(key, size), 0)
    }

    /** insert_course: refused when the count has reached the size (even for
        a key already present); otherwise the probe from the key's home slot
        overwrites the slot holding the key or fills the first empty slot. */
    method Insert(key: Key, value: V) returns (outcome: InsertOutcome<V>)
      requires Valid()
      modifies this, table
      ensures Valid()
      ensures old(count) >= size ==>
        outcome == MapFull && count == old(count) && Contents == old(Contents)
        && table[..] == old(table[..])
      ensures old(count) < size && key !in old(Contents) ==>
        outcome == Added && count == old(count) + 1 && Contents == old(Contents)[key := value]
        && (exists d :: 0 <= d < size
             && table[..] == old(table[..])[ProbeIndex(Hash(key, size), d, size) := Occupied(key, value)]
             && old(ProbeSlot(table[..], Hash(key, size), d)).Empty?
             && (forall e :: 0 <= e < d ==> old(ProbeSlot(table[..], Hash(key, size), e)).Occupied?))
      ensures old(count) < size && key in old(Contents) ==>
        outcome == Replaced(old(Contents)[key]) && count == old(count)
        && Contents == old(Contents)[key := value]
    {
      if count >= size {
        return MapFull;
      }
      ghost var home := HashOf(size);
      var start := Hash(key, size);
      assert start == home(key);
      var i := 0;
      while i < size
        invariant 0 <= i <= size
        invariant table[..] == old(table[..]) && Contents == old(Contents) && count == old(count)
        invariant forall e :: 0 <= e < i ==>
          ProbeSlot(table[..], start, e).Occupied? && ProbeSlot(table[..], start, e).key != key
      {
        var idx := (start + i) % size;
        assert table[idx] == ProbeSlot(table[..], start, i);
        if table[idx].Empty? {
          Fill(key, value, i);
          return Added;
        }
        if table[idx].key == key {
          var oldValue := Overwrite(idx, value);
          return Replaced(oldValue);
        }
        i := i + 1;
      }
      ProbeCoversAll(table[..], start);
      AllOccupiedCount(table[..]);
      assert false;
    }

    /** The adding step of insert_course: the key is stored in the empty
        slot its probe reaches at distance d, past occupied slots holding
        other keys. */
    method Fill(key: Key, value: V, d: nat)
      requires Valid() && count < size && d < size
      requires ProbeSlot(table[..], Hash(key, size), d).Empty?
      requires forall e :: 0 <= e < d ==>
        ProbeSlot(table[..], Hash(key, size), e).Occupied? && ProbeSlot(table[..], Hash(key, size), e).key != key
      modifies this, table
      ensures Valid() && count == old(count) + 1
      ensures key !in old(Contents) && Contents == old(Contents)[key := value]
      ensures table[..] == old(table[..])[ProbeIndex(Hash(key, size), d, size) := Occupied(key, value)]
    {
      ghost var home := HashOf(size);
      var start := Hash(key, size);
      assert start == home(key);
      var idx := ProbeIndex(start, d, size);
      assert key !in Contents by {
        FindIsLookup(table[..], Contents, home, key);
        FindPast(table[..], key, start, d);
      }
      ghost var t := table[..][idx := Occupied(key, value)];
      FillKeepsWf(table[..], Contents, home, key, value, d);
      OccupiedCountUpdate(table[..], idx, Occupied(key, value));
      table[idx] := Occupied(key, value);
      assert table[..] == t;
      count := count + 1;
      Contents := Contents[key := value];
    }

    /** The replacing step of insert_course: the occupied slot at idx gets
        the new value under the same key. */
    method Overwrite(idx: nat, value: V) returns (oldValue: V)
      requires Valid() && idx < size && table[idx].Occupied?
      modifies this, table
      ensures Valid() && count == old(count)
      ensures oldValue == old(Contents)[old(table[idx]).key]
      ensures Contents == old(Contents)[old(table[idx]).key := value]
      ensures table[..] == old(table[..])[idx := Occupied(old(table[idx]).key, value)]
    {
      var key := table[idx].key;
      oldValue := table[idx].value;
      FindIsLookup(table[..], Contents, HashOf(size), key);
      ReplaceKeepsWf(table[..], Contents, HashOf(size), idx, value);
      OccupiedCountUpdate(table[..], idx, Occupied(key, value));
      table[idx] := Occupied(key, value);
      Contents := Contents[key := value];
    }

    /** delete_hash_map: the values handed to the course delete callback, in
        slot order, when the caller asks for the elements to be deleted. */
    method Dispose(deleteElements: bool) returns (disposed: seq<V>)
      requires Valid()
      ensures deleteElements ==>
        |disposed| == count && (forall k :: k in Contents ==> Contents[k] in disposed)
      ensures !deleteElements ==> disposed == []
    {
      disposed := [];
      if !deleteElements {
        return;
      }
      var i := 0;
      while i < size
        invariant 0 <= i <= size
        invariant disposed == OccupiedValues(table[..i])
      {
        assert table[..i + 1][..i] == table[..i];
        if table[i].Occupied? {
          disposed := disposed + [table[i].value];
        }
        i := i + 1;
      }
      assert table[..i] == table[..];
      forall k | k in Contents
        ensures Contents[k] in disposed
      {
        var p :| 0 <= p < size && table[p] == Occupied(k, Contents[k]);
      }
    }
  }

  lemma {:induction false} AllEmptyCount<V>(s: seq<Slot<V>>)
    requires forall i :: 0 <= i < |s| ==> s[i] == Empty
    ensures OccupiedCount(s) == 0
    decreases |s|
  {
    if s != [] {
      AllEmptyCount(s[..|s| - 1]);
    }
  }

  /** A search that went past d probes without a match does not return what
      it finds earlier: Find from 0 equals Find from d. */
  lemma {:induction false} FindPast<V>(s: seq<Slot<V>>, key: Key, h: nat, d: nat)
    requires h < |s| && d <= |s|
    requires forall e :: 0 <= e < d ==> ProbeSlot(s, h, e).Occupied? && ProbeSlot(s, h, e).key != key
    ensures Find(s, key, h, 0) == Find(s, key, h, d)
    decreases d
  {
    if d > 0 {
      FindPast(s, key, h, d - 1);
    }
  }

  /** |s| probes from any home slot visit every slot. */
  lemma ProbeCoversAll<V>(s: seq<Slot<V>>, h: nat)
    requires h < |s|
    requires forall e :: 0 <= e < |s| ==> ProbeSlot(s, h, e).Occupied?
    ensures forall i :: 0 <= i < |s| ==> s[i].Occupied?
  {
    forall i | 0 <= i < |s|
      ensures s[i].Occupied?
    {
      assert ProbeSlot(s, h, Dist(h, i, |s|)).Occupied?;
    }
  }
}
