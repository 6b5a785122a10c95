/** The HashMap class of il/container/hash/HashMap.h: one bucket array of KeyValue
    slots and two counters, updated in place by insert, erase and grow. */
module HashMaps {
  import opened Arith
  import opened Sizing
  import opened Probing
  import opened Slots
  import opened Search
  import opened Iteration
  import opened Displacement

  /** The entry counts this model covers: below 2^60 the capacity arithmetic
      3n/2 + 1 of nb_bucket stays far below the 2^62 limit of next_power_of_2. */
  const MaxEntries: int := 0x1000_0000_0000_0000

  /** found(i). */
  function Found(i: int): (r: bool)
    ensures r <==> InsertionSlot(i) < 0
  {
    i >= 0
  }

  /** When insert grows the table first: when it is full, or when search found no
      empty slot in a whole round of probes (every slot occupied or a tombstone). */
  function GrowsOnInsert(nbEntries: int, cap: int, i: int): bool
  {
    nbEntries >= cap || i == -(1 + cap)
  }

  /** The capacity insert grows to: nb_bucket(nb_entries_), and never less than the
      current capacity, as grow requires. */
  function GrowTarget(nbEntries: int, cap: int): (n: int)
    requires 0 <= nbEntries < MaxEntries && (cap == 0 || IsPow2(cap))
    ensures IsPow2(n) && n >= cap && n > nbEntries
    ensures nbEntries >= cap ==> n == NbBucket(nbEntries)
  {
    if NbBucket(nbEntries) >= cap then NbBucket(nbEntries) else cap
  }

  /** Insert's write index is in bounds whenever it does not grow first. */
  lemma InsertSlotInBounds<K, V>(p: Policy<K>, s: seq<KeyValue<K, V>>, key: K, nbEntries: int)
    requires SearchSlots(p, s, key) < 0 && !GrowsOnInsert(nbEntries, |s|, SearchSlots(p, s, key))
    ensures var j := InsertionSlot(SearchSlots(p, s, key)); 0 <= j < |s| && State(p, s[j]) != Occupied
  {
    SearchNotFound(p, s, key);
  }

  class HashMap<K(==), V> {
    const policy: Policy<K>
    /** V{}, the value a default-constructed KeyValue holds. */
    const defaultValue: V
    var bucket: array<KeyValue<K, V>>
    var nbEntries: int
    var nbTombstones: int

    /** The class invariant. nb_tombstones_ only bounds the tombstones from above: it
        is not decremented when insert reuses a tombstone slot. */
    ghost predicate Valid()
      reads this, bucket
    {
      ValidPolicy(policy) &&
      (bucket.Length == 0 || IsPow2(bucket.Length)) &&
      Wellformed(policy, bucket[..]) &&
      nbEntries == Count(policy, bucket[..], Occupied) &&
      Count(policy, bucket[..], Tombstone) <= nbTombstones
    }

    /** The key/value map the table represents. */
    ghost function Elements(): map<K, V>
      reads this, bucket
    {
      Contents(policy, bucket[..])
    }

    /** HashMap(): no slots at all. */
    constructor Empty(p: Policy<K>, defaultValue: V)
      requires ValidPolicy(p)
      ensures Valid() && fresh(bucket) && policy == p && this.defaultValue == defaultValue
      ensures bucket.Length == 0 && nbEntries == 0 && nbTombstones == 0 && Elements() == map[]
    {
      policy := p;
      this.defaultValue := defaultValue;
      bucket := new KeyValue<K, V>[0](_ => DefaultSlot(p, defaultValue));
      nbEntries := 0;
      nbTombstones := 0;
      new;
      EmptyTableWellformed(policy, bucket[..]);
    }

    /** HashMap(nb_entries): nb_bucket(nb_entries) empty slots. */
    constructor WithCapacity(p: Policy<K>, defaultValue: V, n: int)
      requires ValidPolicy(p) && 0 <= n < MaxEntries
      ensures Valid() && fresh(bucket) && policy == p && this.defaultValue == defaultValue
      ensures bucket.Length == NbBucket(n) && bucket.Length > n
      ensures nbEntries == 0 && nbTombstones == 0 && Elements() == map[]
    {
      policy := p;
      this.defaultValue := defaultValue;
      bucket := new KeyValue<K, V>[NbBucket(n)](_ => DefaultSlot(p, defaultValue));
      nbEntries := 0;
      nbTombstones := 0;
      new;
      EmptyTableWellformed(policy, bucket[..]);
    }

    /** HashMap(il::value, {{k0, v0}, ...}): nb_bucket(n) slots, then every pair
        inserted in turn; the keys must be distinct. */
    constructor FromList(p: Policy<K>, defaultValue: V, list: seq<KeyValue<K, V>>)
      requires ValidPolicy(p) && |list| < MaxEntries
      requires forall k :: 0 <= k < |list| ==> IsKey(p, list[k].key)
      requires forall k, l :: 0 <= k < l < |list| ==> list[k].key != list[l].key
      ensures Valid() && fresh(bucket) && policy == p && this.defaultValue == defaultValue
      ensures bucket.Length == NbBucket(|list|)
      ensures nbEntries == |list| && nbTombstones == 0
      ensures Elements() == ListMap(list)
    {
      policy := p;
      this.defaultValue := defaultValue;
      bucket := new KeyValue<K, V>[NbBucket(|list|)](_ => DefaultSlot(p, defaultValue));
      nbEntries := 0;
      nbTombstones := 0;
      new;
      EmptyTableWellformed(policy, bucket[..]);
      for k := 0 to |list|
        invariant Valid() && fresh(bucket) && bucket.Length == NbBucket(|list|)
        invariant nbEntries == k && nbTombstones == 0
        invariant Count(policy, bucket[..], Tombstone) == 0
        invariant Elements() == ListMap(list[..k])
      {
        var key, value := list[k].key, list[k].value;
        ListMapStep(list, k);
        SearchFoundIff(policy, bucket[..], key);
        SearchHasRoom(policy, bucket[..], key);
        var i := Search(key);
        InsertAt(key, value, i);
      }
      assert list[..|list|] == list;
    }

    /** search(key): the loop over at most capacity probes. */
    method Search(key: K) returns (r: int)
      requires IsKey(policy, key)
      ensures r == SearchSlots(policy, bucket[..], key)
    {
      var emptyKey := policy.emptyKey;
      var tombstoneKey := policy.tombstoneKey;
      var nbBucket := bucket.Length;
      if nbBucket == 0 {
        return -(1 + nbBucket);
      }
      ghost var s := bucket[..];
      assert SearchSlots(policy, s, key) == SearchFrom(policy, s, key, 0, -1);
      var h := policy.hash(key);
      var i := h % nbBucket;
      var iTombstone := -1;
      var deltaI := 1;
      for k := 0 to nbBucket
        invariant deltaI == k + 1 && i == Probe(h, nbBucket, k)
        invariant SearchFrom(policy, s, key, k, iTombstone) == SearchSlots(policy, s, key)
      {
        ProbeInRange(h, nbBucket, k);
        if bucket[i].key == key {
          return i;
        }
        if bucket[i].key == emptyKey {
          return if iTombstone == -1 then -(1 + i) else -(1 + iTombstone);
        }
        if bucket[i].key == tombstoneKey && iTombstone == -1 {
          iTombstone := i;
        }
        i := i + deltaI;
        deltaI := deltaI + 1;
        i := i % nbBucket;
      }
      return -(1 + nbBucket);
    }

    /** The store at the end of insert: key and value into slot j, one more entry. */
    method Store(j: int, key: K, value: V)
      requires 0 <= j < bucket.Length
      modifies this, bucket
      ensures bucket == old(bucket) && bucket[..] == old(bucket[..])[j := KeyValue(key, value)]
      ensures nbEntries == old(nbEntries) + 1 && nbTombstones == old(nbTombstones)
    {
      bucket[j] := bucket[j].(key := key);
      bucket[j] := bucket[j].(value := value);
      nbEntries := nbEntries + 1;
    }

    /** insert(key, value, il::io, i) with i the not-found answer of search(key): grow
        first if the table is full or has no empty slot, then store at the slot the
        (new) search answer names. */
    method InsertAt(key: K, value: V, i: int)
      requires Valid() && IsKey(policy, key) && nbEntries < MaxEntries
      requires i == SearchSlots(policy, bucket[..], key) && !Found(i)
      modifies this, bucket
      ensures Valid() && Elements() == old(Elements())[key := value]
      ensures nbEntries == old(nbEntries) + 1
      ensures var r := SearchSlots(policy, bucket[..], key); 0 <= r < bucket.Length && bucket[r] == KeyValue(key, value)
      ensures !GrowsOnInsert(old(nbEntries), old(bucket.Length), i) ==>
        0 <= InsertionSlot(i) < old(bucket.Length) && bucket == old(bucket) && bucket[..] == old(bucket[..])[InsertionSlot(i) := KeyValue(key, value)] &&
        nbTombstones == old(nbTombstones)
      ensures GrowsOnInsert(old(nbEntries), old(bucket.Length), i) ==>
        fresh(bucket) && bucket.Length == GrowTarget(old(nbEntries), old(bucket.Length)) &&
        nbTombstones == 0 && Count(policy, bucket[..], Tombstone) == 0
      ensures Count(policy, bucket[..], Tombstone) <= old(Count(policy, bucket[..], Tombstone))
      ensures bucket.Length >= old(bucket.Length)
    {
      SearchFoundIff(policy, bucket[..], key);
      var iLocal := InsertionSlot(i);
      if GrowsOnInsert(nbEntries, bucket.Length, i) {
        Grow(GrowTarget(nbEntries, bucket.Length));
        SearchFoundIff(policy, bucket[..], key);
        SearchHasRoom(policy, bucket[..], key);
        var j := Search(key);
        iLocal := InsertionSlot(j);
      } else {
        InsertSlotInBounds(policy, bucket[..], key, nbEntries);
      }
      StoreKeepsWellformed(policy, bucket[..], key, value);
      Store(iLocal, key, value);
    }

    /** insert(key, value): search, then insert at the answer; key must be absent. */
    method Insert(key: K, value: V)
      requires Valid() && IsKey(policy, key) && key !in Elements() && nbEntries < MaxEntries
      modifies this, bucket
      ensures Valid() && Elements() == old(Elements())[key := value]
      ensures nbEntries == old(nbEntries) + 1
      ensures var r := SearchSlots(policy, bucket[..], key); 0 <= r < bucket.Length && bucket[r] == KeyValue(key, value)
      ensures var i := old(SearchSlots(policy, bucket[..], key));
        !GrowsOnInsert(old(nbEntries), old(bucket.Length), i) ==>
          0 <= InsertionSlot(i) < old(bucket.Length) && bucket == old(bucket) &&
          bucket[..] == old(bucket[..])[InsertionSlot(i) := KeyValue(key, value)] && nbTombstones == old(nbTombstones)
      ensures var i := old(SearchSlots(policy, bucket[..], key));
        GrowsOnInsert(old(nbEntries), old(bucket.Length), i) ==>
          fresh(bucket) && bucket.Length == GrowTarget(old(nbEntries), old(bucket.Length)) &&
          nbTombstones == 0 && Count(policy, bucket[..], Tombstone) == 0
      ensures Count(policy, bucket[..], Tombstone) <= old(Count(policy, bucket[..], Tombstone))
      ensures bucket.Length >= old(bucket.Length)
    {
      var i := Search(key);
      SearchFoundIff(policy, bucket[..], key);
      InsertAt(key, value, i);
    }

    /** erase(i): lazy deletion, the slot becomes a tombstone holding V{}. */
    method Erase(i: int)
      requires Valid() && 0 <= i < bucket.Length && State(policy, bucket[i]) == Occupied
      modifies this, bucket
      ensures Valid() && bucket == old(bucket)
      ensures bucket[..] == old(bucket[..])[i := KeyValue(policy.tombstoneKey, defaultValue)]
      ensures nbEntries == old(nbEntries) - 1 && nbTombstones == old(nbTombstones) + 1
      ensures Elements() == old(Elements()) - {old(bucket[i].key)}
    {
      ghost var s := bucket[..];
      EraseKeepsWellformed(policy, s, i, defaultValue);
      bucket[i] := bucket[i].(key := policy.tombstoneKey);
      bucket[i] := bucket[i].(value := defaultValue);
      assert bucket[..] == s[i := KeyValue(policy.tombstoneKey, defaultValue)];
      nbEntries := nbEntries - 1;
      nbTombstones := nbTombstones + 1;
    }

    /** key(i). */
    function Key(i: int): (k: K)
      reads this, bucket
      requires 0 <= i < bucket.Length
      ensures IsKey(policy, k) <==> State(policy, bucket[i]) == Occupied
    {
      bucket[i].key
    }

    /** value(i), the read accessor. */
    function Value(i: int): V
      reads this, bucket
      requires 0 <= i < bucket.Length
    {
      bucket[i].value
    }

    /** Through key(i) and value(i) an occupied slot shows one pair of the map. */
    lemma SlotIsElement(i: int)
      requires Valid() && 0 <= i < bucket.Length && State(policy, bucket[i]) == Occupied
      ensures Key(i) in Elements() && Elements()[Key(i)] == Value(i)
    {
      WellformedUnique(policy, bucket[..]);
      ContentsValue(policy, bucket[..], i);
    }

    /** value(i) = v through the mutable accessor. */
    method SetValue(i: int, v: V)
      requires Valid() && 0 <= i < bucket.Length
      modifies bucket
      ensures Valid() && bucket[..] == old(bucket[..])[i := KeyValue(old(bucket[i].key), v)]
      ensures State(policy, bucket[i]) == Occupied ==> Elements() == old(Elements())[bucket[i].key := v]
      ensures State(policy, bucket[i]) != Occupied ==> Elements() == old(Elements())
    {
      SetValueKeepsWellformed(policy, bucket[..], i, v);
      bucket[i] := bucket[i].(value := v);
    }

    /** size(): the number of entries, which is the number of keys in the map. */
    function Size(): (n: int)
      reads this, bucket
      requires Valid()
      ensures n == Count(policy, bucket[..], Occupied) && n == |Elements()|
    {
      WellformedUnique(policy, bucket[..]);
      ContentsSize(policy, bucket[..]);
      nbEntries
    }

    /** capacity(): zero or a power of two, and never below the size. */
    function Capacity(): (c: int)
      reads this, bucket
      requires Valid()
      ensures (c == 0 || IsPow2(c)) && c >= Size()
    {
      bucket.Length
    }

    /** empty(): the map holds no key. */
    function IsEmpty(): (b: bool)
      reads this, bucket
      requires Valid()
      ensures b <==> Elements() == map[]
    {
      WellformedUnique(policy, bucket[..]);
      ContentsSize(policy, bucket[..]);
      nbEntries == 0
    }

    /** reserve(r): grow to nb_bucket(r) slots, which must not be fewer than now. */
    method Reserve(r: int)
      requires Valid() && 0 <= r < MaxEntries && NbBucket(r) >= bucket.Length
      modifies this
      ensures Valid() && fresh(bucket) && bucket.Length == NbBucket(r)
      ensures Elements() == old(Elements()) && nbEntries == old(nbEntries)
      ensures nbTombstones == 0 && Count(policy, bucket[..], Tombstone) == 0
    {
      Grow(NbBucket(r));
    }

    /** grow(n): a fresh array of n empty slots, into which every occupied slot of
        the old array is inserted again; tombstones are dropped. */
    method Grow(n: int)
      requires Valid() && n >= bucket.Length && IsPow2(n)
      modifies this
      ensures Valid() && fresh(bucket) && bucket.Length == n
      ensures Elements() == old(Elements()) && nbEntries == old(nbEntries)
      ensures nbTombstones == 0 && Count(policy, bucket[..], Tombstone) == 0
    {
      var emptyKey := policy.emptyKey;
      var tombstoneKey := policy.tombstoneKey;
      var oldBucket := bucket;
      ghost var previous := oldBucket[..];
      WellformedUnique(policy, previous);
      bucket := new KeyValue<K, V>[n](_ => DefaultSlot(policy, defaultValue));
      nbEntries := 0;
      nbTombstones := 0;
      EmptyTableWellformed(policy, bucket[..]);
      for i := 0 to oldBucket.Length
        invariant fresh(bucket) && bucket.Length == n && oldBucket[..] == previous
        invariant Valid() && nbTombstones == 0 && Count(policy, bucket[..], Tombstone) == 0
        invariant Elements() == Contents(policy, previous[..i])
        invariant nbEntries == Count(policy, previous[..i], Occupied)
      {
        if oldBucket[i].key != emptyKey && oldBucket[i].key != tombstoneKey {
          // insert(old_bucket[i].key, old_bucket[i].value); its growth branch is
          // never taken, since fewer entries than slots have been inserted so far.
          var key, value := oldBucket[i].key, oldBucket[i].value;
          ghost var t := bucket[..];
          RehashStep(policy, t, previous, i);
          var j := Search(key);
          Store(InsertionSlot(j), key, value);
          assert bucket[..] == t[InsertionSlot(j) := KeyValue(key, value)];
        } else {
          RehashSkip(policy, previous, i);
        }
      }
      assert previous[..oldBucket.Length] == previous;
    }

    /** displaced(): the number of entries away from their home slot. */
    method Displaced() returns (nbDisplaced: int)
      ensures nbDisplaced == DisplacedCount(policy, bucket[..], bucket.Length)
    {
      var nbBucket := bucket.Length;
      var emptyKey := policy.emptyKey;
      var tombstoneKey := policy.tombstoneKey;
      nbDisplaced := 0;
      for i := 0 to nbBucket
        invariant nbDisplaced == DisplacedCount(policy, bucket[..], i)
      {
        if bucket[i].key != emptyKey && bucket[i].key != tombstoneKey {
          var hashed := policy.hash(bucket[i].key) % nbBucket;
          if i != hashed {
            nbDisplaced := nbDisplaced + 1;
          }
        }
      }
    }

    /** displaced_twice(): the number of entries neither at their home slot nor just
        after it. */
    method DisplacedTwice() returns (nbDisplacedTwice: int)
      ensures nbDisplacedTwice == DisplacedTwiceCount(policy, bucket[..], bucket.Length)
    {
      var nbBucket := bucket.Length;
      var emptyKey := policy.emptyKey;
      var tombstoneKey := policy.tombstoneKey;
      nbDisplacedTwice := 0;
      for i := 0 to nbBucket
        invariant nbDisplacedTwice == DisplacedTwiceCount(policy, bucket[..], i)
      {
        if bucket[i].key != emptyKey && bucket[i].key != tombstoneKey {
          var hashed := policy.hash(bucket[i].key) % nbBucket;
          if i != hashed && (i > 0 && i - 1 != hashed) {
            nbDisplacedTwice := nbDisplacedTwice + 1;
          }
        }
      }
    }

    /** begin(): end() for an empty map, otherwise the first occupied slot. */
    method Begin() returns (it: HashMapIterator<K, V>)
      requires Valid()
      ensures fresh(it) && it.Valid() && it.slots == bucket && it.policy == policy
      ensures it.pos == NextOccupied(policy, bucket[..], 0)
    {
      if nbEntries == 0 {
        CountZero(policy, bucket[..], Occupied);
        it := End();
        return;
      }
      var emptyKey := policy.emptyKey;
      var tombstoneKey := policy.tombstoneKey;
      ghost var first := NextOccupied(policy, bucket[..], 0);
      CountZero(policy, bucket[..], Occupied);
      var i := 0;
      while true
        invariant 0 <= i <= first < bucket.Length
        invariant NextOccupied(policy, bucket[..], i) == first
        decreases first - i
      {
        if bucket[i].key != emptyKey && bucket[i].key != tombstoneKey {
          it := new HashMapIterator(policy, bucket, i, bucket.Length);
          return;
        }
        i := i + 1;
      }
    }

    /** end(): one past the last slot. */
    method End() returns (it: HashMapIterator<K, V>)
      ensures fresh(it) && it.Valid() && it.slots == bucket && it.policy == policy
      ensures it.pos == bucket.Length
    {
      it := new HashMapIterator(policy, bucket, bucket.Length, bucket.Length);
    }
  }

  /** The map a list of pairs with distinct keys describes. */
  function ListMap<K, V>(list: seq<KeyValue<K, V>>): map<K, V>
  {
    if |list| == 0 then map[] else ListMap(list[..|list| - 1])[list[|list| - 1].key := list[|list| - 1].value]
  }

  /** Adding the k-th pair of a list with distinct keys adds a fresh key. */
  lemma ListMapStep<K, V>(list: seq<KeyValue<K, V>>, k: int)
    requires 0 <= k < |list|
    requires forall i, j :: 0 <= i < j < |list| ==> list[i].key != list[j].key
    ensures list[k].key !in ListMap(list[..k])
    ensures ListMap(list[..k + 1]) == ListMap(list[..k])[list[k].key := list[k].value]
  {
    ListMapKeys(list[..k], list[k].key);
    assert list[..k + 1][..k] == list[..k];
  }

  lemma {:induction false} ListMapKeys<K, V>(list: seq<KeyValue<K, V>>, key: K)
    ensures key in ListMap(list) <==> exists k :: 0 <= k < |list| && list[k].key == key
  {
    if |list| > 0 {
      var n := |list|;
      var pre := list[..n - 1];
      ListMapKeys(pre, key);
      if k :| 0 <= k < n - 1 && pre[k].key == key {
        assert list[k] == pre[k];
      }
      if k :| 0 <= k < n - 1 && list[k].key == key {
        assert pre[k] == list[k];
      }
    }
  }

  lemma PrefixStep<T>(s: seq<T>, i: int)
    requires 0 <= i < |s|
    ensures s[..i + 1][..i] == s[..i] && s[..i + 1][i] == s[i]
  {
  }

  /** In a table with unique keys, an occupied slot's key is held by no earlier slot. */
  lemma PrefixKeyFresh<K, V>(p: Policy<K>, s: seq<KeyValue<K, V>>, i: int)
    requires Unique(p, s) && 0 <= i < |s| && State(p, s[i]) == Occupied
    ensures s[i].key !in Contents(p, s[..i])
  {
    UniquePrefix(p, s, i + 1);
    PrefixStep(s, i);
    LastKeyFresh(p, s[..i + 1]);
  }

  /** One step of grow's loop over an occupied old slot: the search in the new table
      answers a free slot (so insert does not grow), and storing the pair there keeps
      the new table well formed, free of tombstones and equal to the old prefix. */
  lemma RehashStep<K, V>(p: Policy<K>, t: seq<KeyValue<K, V>>, prev: seq<KeyValue<K, V>>, i: int)
    requires IsPow2(|t|) && Wellformed(p, t) && Count(p, t, Tombstone) == 0
    requires Unique(p, prev) && 0 <= i < |prev| <= |t| && State(p, prev[i]) == Occupied
    requires Contents(p, t) == Contents(p, prev[..i]) && Count(p, t, Occupied) == Count(p, prev[..i], Occupied)
    ensures var r := SearchSlots(p, t, prev[i].key); r < 0 && r != -(1 + |t|) && 0 <= InsertionSlot(r) < |t|
    ensures var t' := t[InsertionSlot(SearchSlots(p, t, prev[i].key)) := KeyValue(prev[i].key, prev[i].value)];
      Wellformed(p, t') && Count(p, t', Tombstone) == 0 &&
      Contents(p, t') == Contents(p, prev[..i + 1]) && Count(p, t', Occupied) == Count(p, prev[..i + 1], Occupied) &&
      Count(p, t', Occupied) == Count(p, t, Occupied) + 1
  {
    var key, v := prev[i].key, prev[i].value;
    PrefixUnfold(p, prev, i);
    assert Count(p, t, Occupied) < |t|;
    assert key !in Contents(p, t) by {
      PrefixKeyFresh(p, prev, i);
    }
    assert SearchSlots(p, t, key) < 0 by {
      SearchFoundIff(p, t, key);
    }
    SearchHasRoom(p, t, key);
    StoreKeepsWellformed(p, t, key, v);
    var t' := t[InsertionSlot(SearchSlots(p, t, key)) := KeyValue(key, v)];
    assert Contents(p, t') == Contents(p, t)[key := v];
  }

  /** The prefix of length i + 1 adds slot i to the map and the counts. */
  lemma PrefixUnfold<K, V>(p: Policy<K>, prev: seq<KeyValue<K, V>>, i: int)
    requires 0 <= i < |prev|
    ensures Contents(p, prev[..i + 1]) == Contents(p, prev[..i]) + (if State(p, prev[i]) == Occupied then map[prev[i].key := prev[i].value] else map[])
    ensures Count(p, prev[..i + 1], Occupied) == Count(p, prev[..i], Occupied) + (if State(p, prev[i]) == Occupied then 1 else 0)
    ensures Count(p, prev[..i + 1], Occupied) <= i + 1
  {
    PrefixStep(prev, i);
  }

  /** grow's loop passes over an empty or tombstone old slot. */
  lemma RehashSkip<K, V>(p: Policy<K>, prev: seq<KeyValue<K, V>>, i: int)
    requires 0 <= i < |prev| && State(p, prev[i]) != Occupied
    ensures Contents(p, prev[..i + 1]) == Contents(p, prev[..i])
    ensures Count(p, prev[..i + 1], Occupied) == Count(p, prev[..i], Occupied)
  {
    PrefixUnfold(p, prev, i);
  }
}
