/** The slot storage of il/container/hash/HashMap.h. A slot is a KeyValue; it has no
    state field of its own: its key, compared with the two sentinel keys of the key
    policy F, says whether it is empty, a tombstone or occupied. */
module Slots {

  /** KeyValue<K, V, F>: one slot of the bucket array. */
  datatype KeyValue<K, V> = KeyValue(key: K, value: V)

  /** The key policy F (HashFunction<K>, not part of this model): a hash into the
      integers, key equality (Dafny's ==) and the two sentinel keys. */
  datatype Policy<!K> = Policy(hash: K -> int, emptyKey: K, tombstoneKey: K)

  /** The two sentinels must differ. */
  predicate ValidPolicy<K(==)>(p: Policy<K>)
  {
    p.emptyKey != p.tombstoneKey
  }

  /** A key a caller may search for or insert: neither sentinel. */
  predicate IsKey<K(==)>(p: Policy<K>, k: K)
  {
    k != p.emptyKey && k != p.tombstoneKey
  }

  datatype SlotState = Empty | Tombstone | Occupied

  /** The state of a slot, read off its key. */
  function State<K(==), V>(p: Policy<K>, kv: KeyValue<K, V>): SlotState
  {
    if kv.key == p.emptyKey then Empty
    else if kv.key == p.tombstoneKey then Tombstone
    else Occupied
  }

  /** The default KeyValue: the empty key and the value type's default V{}. */
  function DefaultSlot<K(==), V>(p: Policy<K>, defaultValue: V): (kv: KeyValue<K, V>)
    ensures State(p, kv) == Empty && kv.value == defaultValue
  {
    KeyValue(p.emptyKey, defaultValue)
  }

  /** The number of slots of s in state st. */
  function Count<K(==), V>(p: Policy<K>, s: seq<KeyValue<K, V>>, st: SlotState): (n: nat)
    ensures n <= |s|
  {
    if |s| == 0 then 0
    else Count(p, s[..|s| - 1], st) + (if State(p, s[|s| - 1]) == st then 1 else 0)
  }

  /** Overwriting one slot moves it from its old state's count to its new one's. */
  lemma {:induction false} CountUpdate<K, V>(p: Policy<K>, s: seq<KeyValue<K, V>>, j: int, kv: KeyValue<K, V>, st: SlotState)
    requires 0 <= j < |s|
    ensures Count(p, s[j := kv], st) + (if State(p, s[j]) == st then 1 else 0)
         == Count(p, s, st) + (if State(p, kv) == st then 1 else 0)
  {
    var t := s[j := kv];
    var n := |s|;
    if j < n - 1 {
      assert t[..n - 1] == s[..n - 1][j := kv];
      CountUpdate(p, s[..n - 1], j, kv, st);
    } else {
      assert t[..n - 1] == s[..n - 1];
    }
  }

  /** Every slot is in exactly one of the three states. */
  lemma {:induction false} CountSum<K, V>(p: Policy<K>, s: seq<KeyValue<K, V>>)
    ensures Count(p, s, Empty) + Count(p, s, Tombstone) + Count(p, s, Occupied) == |s|
  {
    if |s| > 0 {
      CountSum(p, s[..|s| - 1]);
    }
  }

  /** No slot is in state st exactly when the count of st is zero. */
  lemma {:induction false} CountZero<K, V>(p: Policy<K>, s: seq<KeyValue<K, V>>, st: SlotState)
    ensures Count(p, s, st) == 0 <==> forall i :: 0 <= i < |s| ==> State(p, s[i]) != st
  {
    if |s| > 0 {
      var n := |s|;
      CountZero(p, s[..n - 1], st);
      assert forall i :: 0 <= i < n - 1 ==> s[..n - 1][i] == s[i];
    }
  }

  /** A slot in state st, when there is one. */
  lemma CountWitness<K, V>(p: Policy<K>, s: seq<KeyValue<K, V>>, st: SlotState) returns (i: int)
    requires Count(p, s, st) > 0
    ensures 0 <= i < |s| && State(p, s[i]) == st
  {
    CountZero(p, s, st);
    i :| 0 <= i < |s| && State(p, s[i]) == st;
  }

  /** The key/value pairs held by the occupied slots, as a map. */
  function Contents<K(==), V>(p: Policy<K>, s: seq<KeyValue<K, V>>): map<K, V>
  {
    if |s| == 0 then map[]
    else
      var last := s[|s| - 1];
      Contents(p, s[..|s| - 1]) + (if State(p, last) == Occupied then map[last.key := last.value] else map[])
  }

  /** No key is held by two occupied slots. */
  ghost predicate Unique<K, V>(p: Policy<K>, s: seq<KeyValue<K, V>>)
  {
    forall i, j :: 0 <= i < |s| && 0 <= j < |s| && State(p, s[i]) == Occupied && State(p, s[j]) == Occupied && s[i].key == s[j].key ==> i == j
  }

  lemma UniquePrefix<K, V>(p: Policy<K>, s: seq<KeyValue<K, V>>, n: nat)
    requires Unique(p, s) && n <= |s|
    ensures Unique(p, s[..n])
  {
    assert forall i :: 0 <= i < n ==> s[..n][i] == s[i];
  }

  /** The keys of Contents are exactly the keys of the occupied slots. */
  lemma {:induction false} ContentsKeys<K, V>(p: Policy<K>, s: seq<KeyValue<K, V>>, k: K)
    ensures k in Contents(p, s) <==> exists i :: 0 <= i < |s| && State(p, s[i]) == Occupied && s[i].key == k
  {
    if |s| > 0 {
      var n := |s|;
      ContentsKeys(p, s[..n - 1], k);
      if k in Contents(p, s[..n - 1]) {
        var i :| 0 <= i < n - 1 && State(p, s[..n - 1][i]) == Occupied && s[..n - 1][i].key == k;
        assert s[i] == s[..n - 1][i];
      }
      if i :| 0 <= i < n - 1 && State(p, s[i]) == Occupied && s[i].key == k {
        assert s[..n - 1][i] == s[i];
      }
    }
  }

  /** With unique keys, Contents maps each occupied slot's key to that slot's value. */
  lemma {:induction false} ContentsValue<K, V>(p: Policy<K>, s: seq<KeyValue<K, V>>, q: int)
    requires Unique(p, s) && 0 <= q < |s| && State(p, s[q]) == Occupied
    ensures s[q].key in Contents(p, s) && Contents(p, s)[s[q].key] == s[q].value
  {
    var n := |s|;
    if q < n - 1 {
      UniquePrefix(p, s, n - 1);
      assert s[..n - 1][q] == s[q];
      ContentsValue(p, s[..n - 1], q);
    } else {
      ContentsKeys(p, s, s[q].key);
    }
  }

  /** In a table with unique keys, the key of an occupied last slot is held by no
      earlier slot. */
  lemma LastKeyFresh<K, V>(p: Policy<K>, s: seq<KeyValue<K, V>>)
    requires Unique(p, s) && |s| > 0 && State(p, s[|s| - 1]) == Occupied
    ensures s[|s| - 1].key !in Contents(p, s[..|s| - 1])
  {
    var n := |s|;
    var pre := s[..n - 1];
    forall i | 0 <= i < n - 1
      ensures !(State(p, pre[i]) == Occupied && pre[i].key == s[n - 1].key)
    {
      assert pre[i] == s[i];
    }
    ContentsKeys(p, pre, s[n - 1].key);
  }

  /** A map has as many keys as a table with unique keys has occupied slots. */
  lemma {:induction false} ContentsSize<K, V>(p: Policy<K>, s: seq<KeyValue<K, V>>)
    requires Unique(p, s)
    ensures |Contents(p, s)| == Count(p, s, Occupied)
  {
    if |s| > 0 {
      var n := |s|;
      UniquePrefix(p, s, n - 1);
      ContentsSize(p, s[..n - 1]);
      if State(p, s[n - 1]) == Occupied {
        LastKeyFresh(p, s);
      }
    }
  }

  /** Filling a non-occupied slot with a new key adds that key to Contents. */
  lemma {:induction false} ContentsStore<K, V>(p: Policy<K>, s: seq<KeyValue<K, V>>, j: int, kv: KeyValue<K, V>)
    requires 0 <= j < |s| && State(p, s[j]) != Occupied && State(p, kv) == Occupied
    requires kv.key !in Contents(p, s)
    ensures Contents(p, s[j := kv]) == Contents(p, s)[kv.key := kv.value]
  {
    var n := |s|;
    var t := s[j := kv];
    if j < n - 1 {
      assert t[..n - 1] == s[..n - 1][j := kv];
      assert Contents(p, s[..n - 1]).Keys <= Contents(p, s).Keys;
      ContentsStore(p, s[..n - 1], j, kv);
      if State(p, s[n - 1]) == Occupied {
        assert s[n - 1].key in Contents(p, s);
      }
    } else {
      assert t[..n - 1] == s[..n - 1];
    }
  }

  /** Turning an occupied slot of a table with unique keys into a tombstone removes
      its key from Contents. */
  lemma {:induction false} ContentsErase<K, V>(p: Policy<K>, s: seq<KeyValue<K, V>>, j: int, kv: KeyValue<K, V>)
    requires Unique(p, s) && 0 <= j < |s| && State(p, s[j]) == Occupied && State(p, kv) != Occupied
    ensures Contents(p, s[j := kv]) == Contents(p, s) - {s[j].key}
  {
    var n := |s|;
    var t := s[j := kv];
    var pre := s[..n - 1];
    if j < n - 1 {
      assert t[..n - 1] == pre[j := kv];
      assert pre[j] == s[j];
      UniquePrefix(p, s, n - 1);
      ContentsErase(p, pre, j, kv);
      var last := s[n - 1];
      assert t[n - 1] == last;
      var m := if State(p, last) == Occupied then map[last.key := last.value] else map[];
      assert Contents(p, t) == Contents(p, pre[j := kv]) + m;
      assert Contents(p, s) == Contents(p, pre) + m;
      if State(p, last) == Occupied {
        assert last.key != s[j].key;
      }
      MapEraseUnion(Contents(p, pre), m, s[j].key);
    } else {
      assert t[..n - 1] == pre;
      LastKeyFresh(p, s);
    }
  }

  lemma MapEraseUnion<K, V>(a: map<K, V>, m: map<K, V>, k: K)
    requires k !in m
    ensures (a - {k}) + m == (a + m) - {k}
  {
  }

  /** Overwriting a slot's value: an occupied slot's key gets the new value, any other
      slot leaves Contents as it was. */
  lemma {:induction false} ContentsSetValue<K, V>(p: Policy<K>, s: seq<KeyValue<K, V>>, j: int, v: V)
    requires Unique(p, s) && 0 <= j < |s|
    ensures State(p, s[j]) == Occupied ==> Contents(p, s[j := KeyValue(s[j].key, v)]) == Contents(p, s)[s[j].key := v]
    ensures State(p, s[j]) != Occupied ==> Contents(p, s[j := KeyValue(s[j].key, v)]) == Contents(p, s)
  {
    var n := |s|;
    var kv := KeyValue(s[j].key, v);
    var t := s[j := kv];
    if j < n - 1 {
      assert t[..n - 1] == s[..n - 1][j := kv];
      assert s[..n - 1][j] == s[j];
      UniquePrefix(p, s, n - 1);
      ContentsSetValue(p, s[..n - 1], j, v);
    } else {
      assert t[..n - 1] == s[..n - 1];
    }
  }

  /** A table of empty slots holds nothing. */
  lemma {:induction false} ContentsOfEmpty<K, V>(p: Policy<K>, s: seq<KeyValue<K, V>>)
    requires forall i :: 0 <= i < |s| ==> State(p, s[i]) == Empty
    ensures Contents(p, s) == map[]
  {
    if |s| > 0 {
      assert forall i :: 0 <= i < |s| - 1 ==> s[..|s| - 1][i] == s[i];
      ContentsOfEmpty(p, s[..|s| - 1]);
    }
  }
}
