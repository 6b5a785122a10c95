/** Integer facts the hash table's capacity arithmetic and probe sequence rest on:
    powers of two, Euclidean remainders, triangular numbers and the cardinality of
    finite sets of integers. */
module Arith {

  /** 2 to the power m. */
  function Pow2(m: nat): (r: nat)
    ensures r >= 1
  {
    if m == 0 then 1 else 2 * Pow2(m - 1)
  }

  /** n is a positive power of two (1, 2, 4, ...). */
  predicate IsPow2(n: int)
    decreases if n < 0 then 0 else n
  {
    n == 1 || (n > 1 && n % 2 == 0 && IsPow2(n / 2))
  }

  /** The exponent of a power of two. */
  function Log2(n: int): (m: nat)
    requires IsPow2(n)
    ensures Pow2(m) == n
    decreases if n < 0 then 0 else n
  {
    if n == 1 then 0 else Log2(n / 2) + 1
  }

  lemma MulSign(x: int, m: int)
    requires m > 0
    ensures x >= 1 ==> x * m >= m
    ensures x <= -1 ==> x * m <= -m
  {
  }

  /** Euclidean division is determined by its defining equation. */
  lemma DivModUnique(a: int, m: int, q: int, r: int)
    requires m > 0 && 0 <= r < m && a == q * m + r
    ensures a / m == q && a % m == r
  {
    var q', r' := a / m, a % m;
    assert (q' - q) * m == r - r';
    MulSign(q' - q, m);
  }

  /** Adding a multiple of m does not change the remainder. */
  lemma ModAddMultiple(a: int, q: int, m: int)
    requires m > 0
    ensures (a + q * m) % m == a % m
  {
    DivModUnique(a + q * m, m, a / m + q, a % m);
  }

  /** Reducing the left operand first does not change a sum's remainder. */
  lemma ModAddMod(a: int, b: int, m: int)
    requires m > 0
    ensures (a % m + b) % m == (a + b) % m
  {
    ModAddMultiple(a % m + b, a / m, m);
  }

  /** Two numbers with equal remainders differ by a multiple of m. */
  lemma ModEqualDifference(x: int, y: int, m: int)
    requires m > 0 && x % m == y % m
    ensures (x - y) % m == 0
  {
    DivModUnique(x - y, m, x / m - y / m, 0);
  }

  /** Doubling both operands doubles the remainder. */
  lemma ModDouble(n: int, p: int)
    requires p > 0
    ensures (2 * n) % (2 * p) == 2 * (n % p)
  {
    DivModUnique(2 * n, 2 * p, n / p, 2 * (n % p));
  }

  /** Reducing modulo an even number keeps parity. */
  lemma ModEvenParity(n: int, p: int)
    requires p > 0
    ensures (n % (2 * p)) % 2 == n % 2
  {
    var q := n / (2 * p);
    var r := n % (2 * p);
    assert n == q * (2 * p) + r;
    DivModUnique(n, 2, q * p + r / 2, r % 2);
  }

  lemma OddProduct(x: int, y: int)
    requires x % 2 == 1 && y % 2 == 1
    ensures (x * y) % 2 == 1
  {
    var a, b := x / 2, y / 2;
    assert x * y == (2 * a + 1) * (2 * b + 1);
    assert (2 * a + 1) * (2 * b + 1) == 2 * (2 * a * b + a + b) + 1;
    DivModUnique(x * y, 2, 2 * a * b + a + b, 1);
  }

  lemma Double(x: int, y: int)
    ensures x * (2 * y) == 2 * (x * y)
  {
  }

  /** An odd factor cannot supply the powers of two a product needs: if y is not a
      multiple of 2^m, neither is n = x*y for odd x. */
  lemma {:induction false} OddTimesNonMultiple(x: int, y: int, n: int, m: nat)
    requires x % 2 == 1 && n == x * y
    ensures y % Pow2(m) != 0 ==> n % Pow2(m) != 0
    decreases m
  {
    if m > 0 {
      var p := Pow2(m - 1);
      assert Pow2(m) == 2 * p;
      if y % 2 == 1 {
        OddProduct(x, y);
        ModEvenParity(n, p);
      } else {
        var y' := y / 2;
        assert y == 2 * y';
        Double(x, y');
        var z := x * y';
        assert n == 2 * z;
        ModDouble(y', p);
        OddTimesNonMultiple(x, y', z, m - 1);
        ModDouble(z, p);
      }
    }
  }

  /** The t-th triangular number 0 + 1 + ... + t. */
  function Tri(t: nat): nat
  {
    if t == 0 then 0 else Tri(t - 1) + t
  }

  lemma {:induction false} TriClosedForm(t: nat)
    ensures 2 * Tri(t) == t * (t + 1)
  {
    if t > 0 {
      TriClosedForm(t - 1);
      assert t * (t + 1) == (t - 1) * t + 2 * t;
    }
  }

  lemma DiffOfProducts(a: int, b: int)
    ensures a * (a + 1) - b * (b + 1) == (a - b) * (a + b + 1)
  {
  }

  lemma {:induction false} TriDifference(a: nat, b: nat)
    ensures 2 * (Tri(a) - Tri(b)) == (a - b) * (a + b + 1)
  {
    TriClosedForm(a);
    TriClosedForm(b);
    DiffOfProducts(a, b);
  }

  /** Halving the even factor of a product. */
  lemma HalveFactor(x: int, y: int, n: int)
    requires 2 * n == x * y && y % 2 == 0
    ensures n == x * (y / 2)
  {
    Double(x, y / 2);
  }

  lemma SmallNonMultiple(y: int, p: int)
    requires 0 < y < p
    ensures y % p != 0
  {
    DivModUnique(y, p, 0, y);
  }

  lemma Commute(x: int, y: int)
    ensures x * y == y * x
  {
  }

  /** a - b and a + b + 1 differ by the odd number 2b + 1. */
  lemma OppositeParity(a: nat, b: nat)
    ensures (a - b) % 2 == 1 <==> (a + b + 1) % 2 == 0
  {
  }

  /** Distinct triangular numbers below 2^m differ by a non-multiple of 2^m: of
      Tri(a) - Tri(b) = (a - b) * (a + b + 1) / 2 one factor is odd and the other,
      once halved if even, is a positive number below 2^m. */
  lemma TriDifferenceNonMultiple(a: nat, b: nat, m: nat)
    requires b < a < Pow2(m)
    ensures (Tri(a) - Tri(b)) % Pow2(m) != 0
  {
    var d, s := a - b, a + b + 1;
    var D := Tri(a) - Tri(b);
    TriDifference(a, b);
    OppositeParity(a, b);
    if d % 2 == 1 {
      HalveFactor(d, s, D);
      SmallNonMultiple(s / 2, Pow2(m));
      OddTimesNonMultiple(d, s / 2, D, m);
    } else {
      Commute(d, s);
      HalveFactor(s, d, D);
      SmallNonMultiple(d / 2, Pow2(m));
      OddTimesNonMultiple(s, d / 2, D, m);
    }
  }

  /** The integers 0 .. n-1 as a set. */
  function Range(n: nat): (r: set<int>)
    ensures forall j :: j in r <==> 0 <= j < n
    ensures |r| == n
  {
    if n == 0 then {} else Range(n - 1) + {n - 1}
  }

  lemma {:induction false} SubsetCard<T>(a: set<T>, b: set<T>)
    requires a <= b
    ensures |a| <= |b|
    decreases a
  {
    if a != {} {
      var x :| x in a;
      SubsetCard(a - {x}, b - {x});
    }
  }

  /** A subset of a finite set with as many elements is the whole set. */
  lemma SubsetFullCard<T>(a: set<T>, b: set<T>)
    requires a <= b && |a| == |b|
    ensures a == b
  {
    if x :| x in b && x !in a {
      SubsetCard(a, b - {x});
    }
  }
}
