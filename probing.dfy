/** The probe sequence of the hash table's search loop
    (il/container/hash/HashMap.h, search): start at hash & (cap - 1), then add 1, 2, 3, ...
    modulo the capacity. With a power-of-two capacity the masking is the Euclidean
    remainder, also for a negative hash (two's complement), so the model writes % cap. */
module Probing {
  import opened Arith

  /** The slot examined at step k (k = 0, 1, ...) of a search for a key whose hash is h. */
  function Probe(h: int, cap: nat, k: nat): int
    requires cap > 0
  {
    if k == 0 then h % cap else (Probe(h, cap, k - 1) + k) % cap
  }

  lemma ProbeInRange(h: int, cap: nat, k: nat)
    requires cap > 0
    ensures 0 <= Probe(h, cap, k) < cap
  {
  }

  /** Step k lands h plus the k-th triangular number away from slot 0. */
  lemma {:induction false} ProbeClosedForm(h: int, cap: nat, k: nat)
    requires cap > 0
    ensures Probe(h, cap, k) == (h + Tri(k)) % cap
  {
    if k > 0 {
      ProbeClosedForm(h, cap, k - 1);
      TriStep(h, k);
      ProbeStep(h, cap, k, h + Tri(k - 1));
    }
  }

  lemma TriStep(h: int, k: nat)
    requires k > 0
    ensures h + Tri(k - 1) + k == h + Tri(k)
  {
  }

  lemma ProbeStep(h: int, cap: nat, k: nat, a: int)
    requires cap > 0 && k > 0 && Probe(h, cap, k - 1) == a % cap
    ensures Probe(h, cap, k) == (a + k) % cap
  {
    ModAddMod(a, k, cap);
  }

  /** Within one round of cap steps no slot of a power-of-two table is probed twice. */
  lemma ProbeInjective(h: int, cap: nat, a: nat, b: nat)
    requires IsPow2(cap)
    requires a < cap && b < cap && a != b
    ensures Probe(h, cap, a) != Probe(h, cap, b)
  {
    var m := Log2(cap);
    ProbeClosedForm(h, cap, a);
    ProbeClosedForm(h, cap, b);
    var hi, lo := if a < b then b else a, if a < b then a else b;
    TriDifferenceNonMultiple(hi, lo, m);
    if (h + Tri(hi)) % cap == (h + Tri(lo)) % cap {
      ModEqualDifference(h + Tri(hi), h + Tri(lo), cap);
    }
  }

  /** The slots probed by the first n steps. */
  function Probed(h: int, cap: nat, n: nat): (r: set<int>)
    requires cap > 0
    ensures forall i :: i in r ==> 0 <= i < cap
  {
    if n == 0 then {} else Probed(h, cap, n - 1) + {Probe(h, cap, n - 1)}
  }

  lemma {:induction false} ProbedCard(h: int, cap: nat, n: nat)
    requires IsPow2(cap) && n <= cap
    ensures |Probed(h, cap, n)| == n
    ensures forall k :: 0 <= k < n ==> Probe(h, cap, k) in Probed(h, cap, n)
  {
    if n > 0 {
      ProbedCard(h, cap, n - 1);
      if Probe(h, cap, n - 1) in Probed(h, cap, n - 1) {
        var k := ProbedStep(h, cap, n - 1, Probe(h, cap, n - 1));
        ProbeInjective(h, cap, k, n - 1);
      }
    }
  }

  /** A step among the first n that probed slot i. */
  lemma {:induction false} ProbedStep(h: int, cap: nat, n: nat, i: int) returns (k: nat)
    requires cap > 0 && i in Probed(h, cap, n)
    ensures k < n && Probe(h, cap, k) == i
  {
    if Probe(h, cap, n - 1) == i {
      k := n - 1;
    } else {
      k := ProbedStep(h, cap, n - 1, i);
    }
  }

  /** Triangular probing of a power-of-two table visits every slot within cap steps. */
  lemma ProbeCovers(h: int, cap: nat, i: int) returns (k: nat)
    requires IsPow2(cap) && 0 <= i < cap
    ensures k < cap && Probe(h, cap, k) == i
  {
    ProbedCard(h, cap, cap);
    SubsetFullCard(Probed(h, cap, cap), Range(cap));
    k := ProbedStep(h, cap, cap, i);
  }
}
