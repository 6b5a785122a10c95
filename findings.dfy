/** insert(key, value, il::io, i) as written grows the table only when it is full
    (nb_entries_ >= capacity). A table whose every slot is a tombstone is not full,
    yet search answers -(1 + capacity) for every absent key, and insert then stores
    at index capacity, one past the end of bucket_. */
module Findings {
  import opened Slots
  import opened Search
  import opened HashMaps

  /** The growth test of insert as written. */
  function GrowsAsWritten(nbEntries: int, cap: int): bool
  {
    nbEntries >= cap
  }

  /** A one-slot table holding a tombstone is well formed and has no entry; search
      for any key answers -(1 + 1), insert as written does not grow and writes at
      index 1, out of bounds. The corrected test grows. */
  lemma TombstoneTableWritesPastEnd<K, V>(p: Policy<K>, dv: V, b: K)
    requires ValidPolicy(p) && IsKey(p, b)
    ensures var s := [KeyValue(p.tombstoneKey, dv)];
      Wellformed(p, s) && Count(p, s, Occupied) == 0 && Count(p, s, Tombstone) == 1 &&
      SearchSlots(p, s, b) == -(1 + |s|) &&
      !GrowsAsWritten(Count(p, s, Occupied), |s|) &&
      InsertionSlot(SearchSlots(p, s, b)) == |s| &&
      GrowsOnInsert(Count(p, s, Occupied), |s|, SearchSlots(p, s, b))
  {
    var s := [KeyValue(p.tombstoneKey, dv)];
    assert State(p, s[0]) == Tombstone;
    SearchNoSpace(p, s, b);
  }

  /** The one-slot tombstone table is reached from an empty map by inserting a key and
      erasing it: insert grows to nb_bucket(0) = 1 slot, erase leaves a tombstone. */
  method TombstoneTable<K(==), V>(p: Policy<K>, dv: V, a: K, va: V) returns (m: HashMap<K, V>)
    requires ValidPolicy(p) && IsKey(p, a)
    ensures fresh(m) && fresh(m.bucket) && m.Valid() && m.policy == p
    ensures m.bucket[..] == [KeyValue(p.tombstoneKey, dv)] && m.nbEntries == 0 && m.Elements() == map[]
  {
    m := new HashMap.Empty(p, dv);
    var i := m.Search(a);
    m.InsertAt(a, va, i);
    var j := m.Search(a);
    m.Erase(j);
  }

  /** With the corrected test, inserting into that table grows it first and stores
      the key inside the new bucket array. */
  method InsertIntoTombstoneTable<K(==), V>(p: Policy<K>, dv: V, a: K, va: V, b: K, vb: V) returns (m: HashMap<K, V>)
    requires ValidPolicy(p) && IsKey(p, a) && IsKey(p, b)
    ensures fresh(m) && m.Valid() && m.Elements() == map[b := vb] && m.nbEntries == 1
    ensures m.nbTombstones == 0 && Count(p, m.bucket[..], Tombstone) == 0
  {
    m := TombstoneTable(p, dv, a, va);
    TombstoneTableWritesPastEnd(p, dv, b);
    var i := m.Search(b);
    m.InsertAt(b, vb, i);
  }
}
