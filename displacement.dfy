/** The diagnostics displaced() and displaced_twice() of il/container/hash/HashMap.h,
    as the integer counts they divide by the number of entries. */
module Displacement {
  import opened Slots

  /** The home slot of a key: hash & (capacity - 1), the Euclidean remainder for a
      power-of-two capacity. */
  function Home<K>(p: Policy<K>, key: K, cap: int): int
    requires cap > 0
  {
    p.hash(key) % cap
  }

  /** Slot i holds a key away from its home slot. */
  predicate IsDisplaced<K(==), V>(p: Policy<K>, s: seq<KeyValue<K, V>>, i: int)
    requires 0 <= i < |s|
  {
    State(p, s[i]) == Occupied && i != Home(p, s[i].key, |s|)
  }

  /** Slot i holds a key that is neither at its home slot nor, for i > 0, just after
      it. Slot 0 is never counted: a key whose probe wrapped around to slot 0 from
      the last slot is not seen as displaced twice. */
  predicate IsDisplacedTwice<K(==), V>(p: Policy<K>, s: seq<KeyValue<K, V>>, i: int)
    requires 0 <= i < |s|
  {
    State(p, s[i]) == Occupied && i != Home(p, s[i].key, |s|) && i > 0 && i - 1 != Home(p, s[i].key, |s|)
  }

  /** The displaced slots among the first n. */
  function DisplacedCount<K(==), V>(p: Policy<K>, s: seq<KeyValue<K, V>>, n: int): nat
    requires 0 <= n <= |s|
  {
    if n == 0 then 0 else DisplacedCount(p, s, n - 1) + (if IsDisplaced(p, s, n - 1) then 1 else 0)
  }

  /** The slots displaced twice among the first n. */
  function DisplacedTwiceCount<K(==), V>(p: Policy<K>, s: seq<KeyValue<K, V>>, n: int): nat
    requires 0 <= n <= |s|
  {
    if n == 0 then 0 else DisplacedTwiceCount(p, s, n - 1) + (if IsDisplacedTwice(p, s, n - 1) then 1 else 0)
  }

  /** Displaced twice implies displaced, and only occupied slots are displaced, so
      displaced_twice <= displaced <= size. */
  lemma {:induction false} DisplacedBounds<K, V>(p: Policy<K>, s: seq<KeyValue<K, V>>, n: int)
    requires 0 <= n <= |s|
    ensures DisplacedTwiceCount(p, s, n) <= DisplacedCount(p, s, n) <= Count(p, s[..n], Occupied)
  {
    if n > 0 {
      DisplacedBounds(p, s, n - 1);
      assert s[..n][..n - 1] == s[..n - 1];
    }
  }
}
