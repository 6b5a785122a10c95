/** HashMapIterator of il/container/hash/HashMap.h: a position in the bucket array
    and the end position; ++ moves one slot on and then past every empty or tombstone
    slot. */
module Iteration {
  import opened Slots

  /** advance_past_empty_buckets from pos: the first occupied slot at or after pos,
      or the end |s|. */
  function NextOccupied<K(==), V>(p: Policy<K>, s: seq<KeyValue<K, V>>, pos: int): (r: int)
    requires 0 <= pos <= |s|
    ensures pos <= r <= |s|
    ensures r < |s| ==> State(p, s[r]) == Occupied
    ensures forall i :: pos <= i < r ==> State(p, s[i]) != Occupied
    decreases |s| - pos
  {
    if pos == |s| || State(p, s[pos]) == Occupied then pos else NextOccupied(p, s, pos + 1)
  }

  /** The indices of the occupied slots at or after pos, in increasing order. */
  function OccupiedFrom<K(==), V>(p: Policy<K>, s: seq<KeyValue<K, V>>, pos: int): seq<int>
    requires 0 <= pos <= |s|
    decreases |s| - pos
  {
    if pos == |s| then []
    else (if State(p, s[pos]) == Occupied then [pos] else []) + OccupiedFrom(p, s, pos + 1)
  }

  /** The positions an iterator standing at pos (an occupied slot or the end) shows,
      one ++ after another, until it equals the end iterator. */
  function Walk<K(==), V>(p: Policy<K>, s: seq<KeyValue<K, V>>, pos: int): seq<int>
    requires 0 <= pos <= |s|
    decreases |s| - pos
  {
    if pos == |s| then [] else [pos] + Walk(p, s, NextOccupied(p, s, pos + 1))
  }

  lemma {:induction false} WalkFrom<K, V>(p: Policy<K>, s: seq<KeyValue<K, V>>, pos: int)
    requires 0 <= pos <= |s|
    ensures Walk(p, s, NextOccupied(p, s, pos)) == OccupiedFrom(p, s, pos)
    decreases |s| - pos
  {
    if pos < |s| {
      WalkFrom(p, s, pos + 1);
    }
  }

  lemma {:induction false} OccupiedFromMembers<K, V>(p: Policy<K>, s: seq<KeyValue<K, V>>, pos: int)
    requires 0 <= pos <= |s|
    ensures forall i :: i in OccupiedFrom(p, s, pos) <==> pos <= i < |s| && State(p, s[i]) == Occupied
    ensures forall a, b :: 0 <= a < b < |OccupiedFrom(p, s, pos)| ==> OccupiedFrom(p, s, pos)[a] < OccupiedFrom(p, s, pos)[b]
    decreases |s| - pos
  {
    if pos < |s| {
      OccupiedFromMembers(p, s, pos + 1);
      var rest := OccupiedFrom(p, s, pos + 1);
      forall b | 0 <= b < |rest|
        ensures rest[b] > pos
      {
        assert rest[b] in rest;
      }
    }
  }

  /** The count of occupied slots from pos on, counted from the back like Count. */
  lemma {:induction false} OccupiedFromLength<K, V>(p: Policy<K>, s: seq<KeyValue<K, V>>, pos: int)
    requires 0 <= pos <= |s|
    ensures |OccupiedFrom(p, s, pos)| + Count(p, s[..pos], Occupied) == Count(p, s, Occupied)
    decreases |s| - pos
  {
    if pos < |s| {
      OccupiedFromLength(p, s, pos + 1);
      assert s[..pos + 1][..pos] == s[..pos];
    } else {
      assert s[..pos] == s;
    }
  }

  /** Iterating from begin (the first occupied slot) with ++ until end shows every
      occupied slot exactly once, in index order: as many positions as occupied slots. */
  lemma IterationVisitsOccupied<K, V>(p: Policy<K>, s: seq<KeyValue<K, V>>)
    ensures var w := Walk(p, s, NextOccupied(p, s, 0));
      |w| == Count(p, s, Occupied) &&
      (forall i :: i in w <==> 0 <= i < |s| && State(p, s[i]) == Occupied) &&
      (forall a, b :: 0 <= a < b < |w| ==> w[a] < w[b])
  {
    WalkFrom(p, s, 0);
    OccupiedFromMembers(p, s, 0);
    OccupiedFromLength(p, s, 0);
  }

  class HashMapIterator<K(==), V> {
    const policy: Policy<K>
    /** The bucket array pointer_ and end_ point into. */
    const slots: array<KeyValue<K, V>>
    /** pointer_, as an offset into slots. */
    var pos: int
    /** end_, as an offset into slots. */
    const end: int

    ghost predicate Valid()
      reads this
    {
      0 <= pos <= end && end == slots.Length
    }

    constructor (p: Policy<K>, slots: array<KeyValue<K, V>>, pos: int, end: int)
      requires 0 <= pos <= end == slots.Length
      ensures Valid() && this.policy == p && this.slots == slots && this.pos == pos && this.end == end
    {
      this.policy := p;
      this.slots := slots;
      this.pos := pos;
      this.end := end;
    }

    /** operator*: the slot the iterator stands on. */
    function Current(): KeyValue<K, V>
      reads this, slots
      requires 0 <= pos < slots.Length
    {
      slots[pos]
    }

    /** operator== compares the pointers. */
    predicate Equals(it: HashMapIterator<K, V>)
      reads this, it
    {
      slots == it.slots && pos == it.pos
    }

    /** advance_past_empty_buckets. */
    method AdvancePastEmptyBuckets()
      requires Valid()
      modifies this
      ensures Valid() && pos == NextOccupied(policy, slots[..], old(pos))
    {
      var emptyKey := policy.emptyKey;
      var tombstoneKey := policy.tombstoneKey;
      while pos != end && (slots[pos].key == emptyKey || slots[pos].key == tombstoneKey)
        invariant old(pos) <= pos <= end
        invariant NextOccupied(policy, slots[..], pos) == NextOccupied(policy, slots[..], old(pos))
        decreases end - pos
      {
        pos := pos + 1;
      }
    }

    /** Pre-increment ++it. */
    method Increment()
      requires Valid() && pos < end
      modifies this
      ensures Valid() && pos == NextOccupied(policy, slots[..], old(pos) + 1)
    {
      pos := pos + 1;
      AdvancePastEmptyBuckets();
    }
  }
}
