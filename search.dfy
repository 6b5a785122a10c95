/** The search of il/container/hash/HashMap.h as a function of the slots, its
    three-way result, and the table invariant that insert, erase and grow keep: every
    occupied slot is where a search for its key stops. */
module Search {
  import opened Arith
  import opened Probing
  import opened Slots

  /** The search loop from probe step k on, with tomb the first tombstone passed so
      far (-1 for none). Non-negative: found there; -(1 + j): not found, insert at j;
      -(1 + |s|): no empty slot within |s| probes. */
  function SearchFrom<K(==), V>(p: Policy<K>, s: seq<KeyValue<K, V>>, key: K, k: nat, tomb: int): int
    requires 0 < |s| && k <= |s|
    decreases |s| - k
  {
    if k == |s| then -(1 + |s|)
    else
      ProbeInRange(p.hash(key), |s|, k);
      var i := Probe(p.hash(key), |s|, k);
      if s[i].key == key then i
      else if s[i].key == p.emptyKey then (if tomb == -1 then -(1 + i) else -(1 + tomb))
      else SearchFrom(p, s, key, k + 1, if s[i].key == p.tombstoneKey && tomb == -1 then i else tomb)
  }

  /** search(key): an empty table answers -1, which is -(1 + capacity). */
  function SearchSlots<K(==), V>(p: Policy<K>, s: seq<KeyValue<K, V>>, key: K): (r: int)
    ensures -(1 + |s|) <= r < |s|
  {
    if |s| == 0 then -1
    else
      SearchFromFound(p, s, key, 0, -1);
      SearchFromNotFound(p, s, key, 0, -1);
      SearchFrom(p, s, key, 0, -1)
  }

  /** The slot index a not-found result decodes to. */
  function InsertionSlot(r: int): int
  {
    -(1 + r)
  }

  /** The table invariant: a search for the key of any occupied slot stops at that slot. */
  ghost predicate Wellformed<K, V>(p: Policy<K>, s: seq<KeyValue<K, V>>)
  {
    forall q :: 0 <= q < |s| && State(p, s[q]) == Occupied ==> SearchSlots(p, s, s[q].key) == q
  }

  // ---------------------------------------------------------------------------
  // The loop, step by step

  lemma {:induction false} SearchFromFound<K, V>(p: Policy<K>, s: seq<KeyValue<K, V>>, key: K, k: nat, tomb: int)
    requires 0 < |s| && k <= |s| && -1 <= tomb
    ensures var r := SearchFrom(p, s, key, k, tomb); r >= 0 ==> r < |s| && s[r].key == key
    decreases |s| - k
  {
    if k < |s| {
      ProbeInRange(p.hash(key), |s|, k);
      var i := Probe(p.hash(key), |s|, k);
      if s[i].key != key && s[i].key != p.emptyKey {
        SearchFromFound(p, s, key, k + 1, if s[i].key == p.tombstoneKey && tomb == -1 then i else tomb);
      }
    }
  }

  /** Once a tombstone is recorded, a not-found answer names it, or says no space. */
  lemma {:induction false} SearchFromTombLatched<K, V>(p: Policy<K>, s: seq<KeyValue<K, V>>, key: K, k: nat, tomb: int)
    requires 0 < |s| && k <= |s| && tomb != -1
    ensures var r := SearchFrom(p, s, key, k, tomb); r >= 0 || r == -(1 + tomb) || r == -(1 + |s|)
    decreases |s| - k
  {
    if k < |s| {
      ProbeInRange(p.hash(key), |s|, k);
      SearchFromTombLatched(p, s, key, k + 1, tomb);
    }
  }

  /** A not-found answer other than no-space names a slot that is empty, or a
      tombstone passed before an empty slot. */
  lemma {:induction false} SearchFromNotFound<K, V>(p: Policy<K>, s: seq<KeyValue<K, V>>, key: K, k: nat, tomb: int)
    requires 0 < |s| && k <= |s|
    requires tomb == -1 || (0 <= tomb < |s| && State(p, s[tomb]) == Tombstone)
    ensures var r := SearchFrom(p, s, key, k, tomb);
      r < 0 && r != -(1 + |s|) ==>
        var j := InsertionSlot(r);
        0 <= j < |s| && State(p, s[j]) != Occupied &&
        (State(p, s[j]) == Tombstone ==> exists e :: 0 <= e < |s| && State(p, s[e]) == Empty)
    decreases |s| - k
  {
    if k < |s| {
      ProbeInRange(p.hash(key), |s|, k);
      var i := Probe(p.hash(key), |s|, k);
      if s[i].key != key && s[i].key != p.emptyKey {
        SearchFromNotFound(p, s, key, k + 1, if s[i].key == p.tombstoneKey && tomb == -1 then i else tomb);
      }
    }
  }

  /** No-space: every slot probed from step k on holds neither the empty key nor key. */
  lemma {:induction false} SearchFromNoSpace<K, V>(p: Policy<K>, s: seq<KeyValue<K, V>>, key: K, k: nat, tomb: int, k': nat)
    requires 0 < |s| && k <= k' < |s|
    requires tomb == -1 || 0 <= tomb < |s|
    requires SearchFrom(p, s, key, k, tomb) == -(1 + |s|)
    ensures var i := Probe(p.hash(key), |s|, k'); 0 <= i < |s| && s[i].key != p.emptyKey && s[i].key != key
    decreases k' - k
  {
    ProbeInRange(p.hash(key), |s|, k);
    var i := Probe(p.hash(key), |s|, k);
    if k < k' {
      SearchFromNoSpace(p, s, key, k + 1, if s[i].key == p.tombstoneKey && tomb == -1 then i else tomb, k');
    } else {
      ProbeInRange(p.hash(key), |s|, k');
    }
  }

  /** Conversely, with no empty slot and no slot holding key the loop runs to its end. */
  lemma {:induction false} SearchFromExhausts<K, V>(p: Policy<K>, s: seq<KeyValue<K, V>>, key: K, k: nat, tomb: int)
    requires 0 < |s| && k <= |s|
    requires forall j :: 0 <= j < |s| ==> s[j].key != p.emptyKey && s[j].key != key
    ensures SearchFrom(p, s, key, k, tomb) == -(1 + |s|)
    decreases |s| - k
  {
    if k < |s| {
      ProbeInRange(p.hash(key), |s|, k);
      var i := Probe(p.hash(key), |s|, k);
      SearchFromExhausts(p, s, key, k + 1, if s[i].key == p.tombstoneKey && tomb == -1 then i else tomb);
    }
  }

  /** A search depends on the keys of the slots only. */
  lemma {:induction false} SearchFromKeys<K, V>(p: Policy<K>, s: seq<KeyValue<K, V>>, t: seq<KeyValue<K, V>>, key: K, k: nat, tomb: int)
    requires 0 < |s| == |t| && k <= |s|
    requires forall j :: 0 <= j < |s| ==> s[j].key == t[j].key
    ensures SearchFrom(p, s, key, k, tomb) == SearchFrom(p, t, key, k, tomb)
    decreases |s| - k
  {
    if k < |s| {
      ProbeInRange(p.hash(key), |s|, k);
      var i := Probe(p.hash(key), |s|, k);
      SearchFromKeys(p, s, t, key, k + 1, if s[i].key == p.tombstoneKey && tomb == -1 then i else tomb);
    }
  }

  /** A successful search is not disturbed by writing, into any other slot, a key
      that is neither the empty key nor the key searched for; the tombstone seen so
      far does not matter either. */
  lemma {:induction false} SearchFromStable<K, V>(p: Policy<K>, s: seq<KeyValue<K, V>>, key: K, k: nat, tomb: int, tomb': int, j: int, kv: KeyValue<K, V>)
    requires 0 < |s| && k <= |s| && 0 <= j < |s| && -1 <= tomb && -1 <= tomb'
    requires kv.key != p.emptyKey && kv.key != key
    requires SearchFrom(p, s, key, k, tomb) >= 0 && SearchFrom(p, s, key, k, tomb) != j
    ensures SearchFrom(p, s[j := kv], key, k, tomb') == SearchFrom(p, s, key, k, tomb)
    decreases |s| - k
  {
    var t := s[j := kv];
    ProbeInRange(p.hash(key), |s|, k);
    var i := Probe(p.hash(key), |s|, k);
    if s[i].key != key {
      SearchFromStable(p, s, key, k + 1, if s[i].key == p.tombstoneKey && tomb == -1 then i else tomb,
        if t[i].key == p.tombstoneKey && tomb' == -1 then i else tomb', j, kv);
    }
  }

  /** Writing key into the slot a tombstone-free search named makes the search stop there. */
  lemma {:induction false} SearchFromStoreHits<K, V>(p: Policy<K>, s: seq<KeyValue<K, V>>, key: K, k: nat, v: V)
    requires 0 < |s| && k <= |s| && IsKey(p, key)
    requires SearchFrom(p, s, key, k, -1) < 0 && SearchFrom(p, s, key, k, -1) != -(1 + |s|)
    ensures var j := InsertionSlot(SearchFrom(p, s, key, k, -1));
      0 <= j < |s| && SearchFrom(p, s[j := KeyValue(key, v)], key, k, -1) == j
    decreases |s| - k
  {
    SearchFromNotFound(p, s, key, k, -1);
    var j := InsertionSlot(SearchFrom(p, s, key, k, -1));
    var t := s[j := KeyValue(key, v)];
    ProbeInRange(p.hash(key), |s|, k);
    var i := Probe(p.hash(key), |s|, k);
    if s[i].key == p.tombstoneKey {
      SearchFromTombLatched(p, s, key, k + 1, i);
    } else if s[i].key != p.emptyKey {
      SearchFromStoreHits(p, s, key, k + 1, v);
    }
  }

  // ---------------------------------------------------------------------------
  // The whole search

  /** found(i): a non-negative answer is a slot holding key. */
  lemma SearchFound<K, V>(p: Policy<K>, s: seq<KeyValue<K, V>>, key: K)
    ensures var r := SearchSlots(p, s, key); r >= 0 ==> r < |s| && s[r].key == key
  {
    if |s| > 0 {
      SearchFromFound(p, s, key, 0, -1);
    }
  }

  /** Probe step m of key's probe sequence, as a slot index. */
  function ProbeAt<K, V>(p: Policy<K>, s: seq<KeyValue<K, V>>, key: K, m: nat): (i: int)
    requires 0 < |s|
    ensures 0 <= i < |s|
  {
    ProbeInRange(p.hash(key), |s|, m);
    Probe(p.hash(key), |s|, m)
  }

  /** The first n probes of key's sequence hold neither key nor the empty key. */
  ghost predicate Passes<K, V>(p: Policy<K>, s: seq<KeyValue<K, V>>, key: K, n: nat)
    requires 0 < |s|
  {
    forall m :: 0 <= m < n ==> s[ProbeAt(p, s, key, m)].key != key && s[ProbeAt(p, s, key, m)].key != p.emptyKey
  }

  /** None of the first n probes of key's sequence is a tombstone. */
  ghost predicate TombFree<K, V>(p: Policy<K>, s: seq<KeyValue<K, V>>, key: K, n: nat)
    requires 0 < |s|
  {
    forall m :: 0 <= m < n ==> s[ProbeAt(p, s, key, m)].key != p.tombstoneKey
  }

  /** Slot j, reached at probe step k, is where a search that misses key places it:
      the k earlier probes hold neither key nor the empty key nor a tombstone, j does
      not hold key, and j is either empty or a tombstone followed, at a later probe
      step k2 < capacity, by an empty slot with no key and no empty slot before it. */
  ghost predicate InsertsAt<K, V>(p: Policy<K>, s: seq<KeyValue<K, V>>, key: K, j: int, k: nat)
    requires 0 < |s|
  {
    k < |s| && ProbeAt(p, s, key, k) == j && s[j].key != key &&
    Passes(p, s, key, k) && TombFree(p, s, key, k) &&
    (s[j].key == p.emptyKey ||
     (s[j].key == p.tombstoneKey &&
      exists k2 :: k < k2 < |s| && s[ProbeAt(p, s, key, k2)].key == p.emptyKey && Passes(p, s, key, k2)))
  }

  /** A tombstone at step kt, with no tombstone before it, followed at step k by an
      empty slot with no key and no empty slot before it, is where key goes. */
  lemma TombstoneThenEmpty<K, V>(p: Policy<K>, s: seq<KeyValue<K, V>>, key: K, kt: nat, k: nat)
    requires 0 < |s| && kt < k < |s| && Passes(p, s, key, k) && TombFree(p, s, key, kt)
    requires s[ProbeAt(p, s, key, kt)].key == p.tombstoneKey && s[ProbeAt(p, s, key, k)].key == p.emptyKey
    ensures InsertsAt(p, s, key, ProbeAt(p, s, key, kt), kt)
  {
    assert Passes(p, s, key, kt);
  }

  /** The search loop from step k, having passed k probes without key or an empty
      slot, and either no tombstone or first the tombstone at step kt: a not-found
      answer places key as InsertsAt describes, reached at step k'. */
  lemma {:induction false} SearchFromInsertsAt<K, V>(p: Policy<K>, s: seq<KeyValue<K, V>>, key: K, k: nat, tomb: int, kt: nat)
    returns (k': nat)
    requires 0 < |s| && k <= |s| && Passes(p, s, key, k)
    requires (tomb == -1 && TombFree(p, s, key, k)) ||
      (kt < k && tomb == ProbeAt(p, s, key, kt) && s[tomb].key == p.tombstoneKey && TombFree(p, s, key, kt))
    requires SearchFrom(p, s, key, k, tomb) < 0 && SearchFrom(p, s, key, k, tomb) != -(1 + |s|)
    ensures InsertsAt(p, s, key, InsertionSlot(SearchFrom(p, s, key, k, tomb)), k')
    decreases |s| - k
  {
    var i := ProbeAt(p, s, key, k);
    if s[i].key == p.emptyKey {
      if tomb == -1 {
        k' := k;
      } else {
        TombstoneThenEmpty(p, s, key, kt, k);
        k' := kt;
      }
    } else {
      assert Passes(p, s, key, k + 1);
      if s[i].key == p.tombstoneKey && tomb == -1 {
        k' := SearchFromInsertsAt(p, s, key, k + 1, i, k);
      } else {
        assert tomb == -1 ==> TombFree(p, s, key, k + 1);
        k' := SearchFromInsertsAt(p, s, key, k + 1, tomb, kt);
      }
    }
  }

  /** A not-found answer names an empty slot, or the first tombstone passed before an
      empty slot; capacity 0 and a probe round without an empty slot give -(1 + capacity). */
  lemma SearchNotFound<K, V>(p: Policy<K>, s: seq<KeyValue<K, V>>, key: K)
    ensures var r := SearchSlots(p, s, key);
      r < 0 && r != -(1 + |s|) ==>
        var j := InsertionSlot(r);
        0 <= j < |s| && State(p, s[j]) != Occupied &&
        (State(p, s[j]) == Tombstone ==> exists e :: 0 <= e < |s| && State(p, s[e]) == Empty)
    ensures var r := SearchSlots(p, s, key);
      r < 0 && r != -(1 + |s|) ==> 0 < |s| && exists k :: InsertsAt(p, s, key, InsertionSlot(r), k)
  {
    if |s| > 0 {
      SearchFromNotFound(p, s, key, 0, -1);
      if SearchFrom(p, s, key, 0, -1) < 0 && SearchFrom(p, s, key, 0, -1) != -(1 + |s|) {
        var k := SearchFromInsertsAt(p, s, key, 0, -1, 0);
      }
    }
  }

  /** On a power-of-two table the no-space answer comes exactly when no slot is empty
      and none holds key: the probe sequence reaches every slot within capacity steps. */
  lemma SearchNoSpace<K, V>(p: Policy<K>, s: seq<KeyValue<K, V>>, key: K)
    requires |s| == 0 || IsPow2(|s|)
    ensures SearchSlots(p, s, key) == -(1 + |s|)
        <==> forall j :: 0 <= j < |s| ==> s[j].key != p.emptyKey && s[j].key != key
  {
    if |s| > 0 {
      if SearchSlots(p, s, key) == -(1 + |s|) {
        forall j | 0 <= j < |s|
          ensures s[j].key != p.emptyKey && s[j].key != key
        {
          var k := ProbeCovers(p.hash(key), |s|, j);
          SearchFromNoSpace(p, s, key, 0, -1, k);
        }
      }
      if forall j :: 0 <= j < |s| ==> s[j].key != p.emptyKey && s[j].key != key {
        SearchFromExhausts(p, s, key, 0, -1);
      }
    }
  }

  /** A power-of-two table without tombstones and with fewer entries than slots always
      has room for a new key. */
  lemma SearchHasRoom<K, V>(p: Policy<K>, s: seq<KeyValue<K, V>>, key: K)
    requires IsPow2(|s|)
    requires Count(p, s, Tombstone) == 0 && Count(p, s, Occupied) < |s|
    ensures SearchSlots(p, s, key) != -(1 + |s|)
  {
    CountSum(p, s);
    var e := CountWitness(p, s, Empty);
    SearchNoSpace(p, s, key);
  }

  lemma WellformedUnique<K, V>(p: Policy<K>, s: seq<KeyValue<K, V>>)
    requires Wellformed(p, s)
    ensures Unique(p, s)
  {
  }

  /** On a well-formed table, search finds key exactly when the map holds it, and then
      at the slot holding its value. */
  lemma SearchFoundIff<K, V>(p: Policy<K>, s: seq<KeyValue<K, V>>, key: K)
    requires Wellformed(p, s) && IsKey(p, key)
    ensures var r := SearchSlots(p, s, key);
      (r >= 0 <==> key in Contents(p, s)) &&
      (r >= 0 ==> r < |s| && s[r].key == key && Contents(p, s)[key] == s[r].value)
  {
    var r := SearchSlots(p, s, key);
    SearchFound(p, s, key);
    ContentsKeys(p, s, key);
    if r >= 0 {
      ContentsValue(p, s, r);
    }
  }

  /** A table of empty slots is well formed and holds nothing. */
  lemma EmptyTableWellformed<K, V>(p: Policy<K>, s: seq<KeyValue<K, V>>)
    requires forall i :: 0 <= i < |s| ==> State(p, s[i]) == Empty
    ensures Wellformed(p, s) && Contents(p, s) == map[]
    ensures Count(p, s, Occupied) == 0 && Count(p, s, Tombstone) == 0
  {
    ContentsOfEmpty(p, s);
    CountZero(p, s, Occupied);
    CountZero(p, s, Tombstone);
  }

  /** Insert's store (bucket_[i].key = key, bucket_[i].value = value) into the slot a
      not-found search named keeps the table well formed, adds key to the map, and
      takes one slot from the empty or tombstone count into the occupied count. */
  lemma StoreKeepsWellformed<K, V>(p: Policy<K>, s: seq<KeyValue<K, V>>, key: K, v: V)
    requires Wellformed(p, s) && IsKey(p, key)
    requires SearchSlots(p, s, key) < 0 && SearchSlots(p, s, key) != -(1 + |s|)
    ensures var j := InsertionSlot(SearchSlots(p, s, key)); 0 <= j < |s| && State(p, s[j]) != Occupied
    ensures var j := InsertionSlot(SearchSlots(p, s, key));
      var t := s[j := KeyValue(key, v)];
      Wellformed(p, t) && SearchSlots(p, t, key) == j &&
      Contents(p, t) == Contents(p, s)[key := v] &&
      Count(p, t, Occupied) == Count(p, s, Occupied) + 1 &&
      Count(p, t, Tombstone) <= Count(p, s, Tombstone)
  {
    SearchNotFound(p, s, key);
    var j := InsertionSlot(SearchSlots(p, s, key));
    var kv := KeyValue(key, v);
    var t := s[j := kv];
    SearchFoundIff(p, s, key);
    SearchFromStoreHits(p, s, key, 0, v);
    forall q | 0 <= q < |t| && State(p, t[q]) == Occupied
      ensures SearchSlots(p, t, t[q].key) == q
    {
      if q != j {
        assert t[q] == s[q];
        ContentsKeys(p, s, key);
        SearchFromStable(p, s, s[q].key, 0, -1, -1, j, kv);
      }
    }
    ContentsStore(p, s, j, kv);
    CountUpdate(p, s, j, kv, Occupied);
    CountUpdate(p, s, j, kv, Tombstone);
  }

  /** erase(i): a tombstone written over an occupied slot keeps the table well formed
      and removes that slot's key from the map. */
  lemma EraseKeepsWellformed<K, V>(p: Policy<K>, s: seq<KeyValue<K, V>>, q: int, v: V)
    requires ValidPolicy(p) && Wellformed(p, s) && 0 <= q < |s| && State(p, s[q]) == Occupied
    ensures var t := s[q := KeyValue(p.tombstoneKey, v)];
      Wellformed(p, t) && Contents(p, t) == Contents(p, s) - {s[q].key} &&
      Count(p, t, Occupied) == Count(p, s, Occupied) - 1 &&
      Count(p, t, Tombstone) == Count(p, s, Tombstone) + 1
  {
    var kv := KeyValue(p.tombstoneKey, v);
    var t := s[q := kv];
    forall q2 | 0 <= q2 < |t| && State(p, t[q2]) == Occupied
      ensures SearchSlots(p, t, t[q2].key) == q2
    {
      assert q2 != q && t[q2] == s[q2];
      SearchFromStable(p, s, s[q2].key, 0, -1, -1, q, kv);
    }
    WellformedUnique(p, s);
    ContentsErase(p, s, q, kv);
    CountUpdate(p, s, q, kv, Occupied);
    CountUpdate(p, s, q, kv, Tombstone);
  }

  /** value(i) = v: overwriting a slot's value leaves every search, and so the
      invariant, as it was; the map changes only if the slot is occupied. */
  lemma SetValueKeepsWellformed<K, V>(p: Policy<K>, s: seq<KeyValue<K, V>>, q: int, v: V)
    requires Wellformed(p, s) && 0 <= q < |s|
    ensures var t := s[q := KeyValue(s[q].key, v)];
      Wellformed(p, t) &&
      (State(p, s[q]) == Occupied ==> Contents(p, t) == Contents(p, s)[s[q].key := v]) &&
      (State(p, s[q]) != Occupied ==> Contents(p, t) == Contents(p, s)) &&
      forall st :: Count(p, t, st) == Count(p, s, st)
  {
    var t := s[q := KeyValue(s[q].key, v)];
    forall q2 | 0 <= q2 < |t| && State(p, t[q2]) == Occupied
      ensures SearchSlots(p, t, t[q2].key) == q2
    {
      SearchFromKeys(p, s, t, t[q2].key, 0, -1);
    }
    WellformedUnique(p, s);
    ContentsSetValue(p, s, q, v);
    forall st {
      CountUpdate(p, s, q, KeyValue(s[q].key, v), st);
    }
  }
}
