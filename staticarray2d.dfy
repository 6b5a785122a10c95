/** StaticArray2D<T, n0, n1> of il/container/2d/StaticArray2D.h: an n0 x n1 array
    stored column by column in one flat buffer of n0 * n1 elements (one element when
    that product is 0); element (i0, i1) sits at offset i1 * n0 + i0. */
module StaticArrays {
  import opened Arith

  /** The length of data_: n0 * n1, or 1 when that is 0. */
  function StorageLength(n0: int, n1: int): int
  {
    if n0 * n1 > 0 then n0 * n1 else 1
  }

  /** The column-major offset of element (i0, i1). */
  function Offset(n0: int, i0: int, i1: int): int
  {
    i1 * n0 + i0
  }

  lemma MulNonneg(x: int, y: int)
    requires x >= 0 && y >= 0
    ensures x * y >= 0
  {
  }

  lemma MulStep(x: int, y: int)
    ensures (x + 1) * y == x * y + y
  {
  }

  lemma {:induction false} MulMonotone(a: int, b: int, c: int)
    requires 0 <= a <= b && c >= 0
    ensures a * c <= b * c
    decreases b - a
  {
    if a < b {
      MulMonotone(a + 1, b, c);
      MulStep(a, c);
    }
  }

  /** An in-range pair addresses an element of the n0 * n1 elements, all of which
      lie inside the buffer. */
  lemma OffsetInRange(n0: int, n1: int, i0: int, i1: int)
    requires 0 <= i0 < n0 && 0 <= i1 < n1
    ensures 0 <= Offset(n0, i0, i1) < n0 * n1 && n0 * n1 == StorageLength(n0, n1)
  {
    MulNonneg(i1, n0);
    MulStep(i1, n0);
    MulMonotone(i1 + 1, n1, n0);
    assert n1 * n0 == n0 * n1;
  }

  /** The offset decodes back into the pair: offset / n0 and offset % n0. */
  lemma OffsetDecode(n0: int, i0: int, i1: int)
    requires 0 <= i0 < n0
    ensures Offset(n0, i0, i1) / n0 == i1 && Offset(n0, i0, i1) % n0 == i0
  {
    DivModUnique(Offset(n0, i0, i1), n0, i1, i0);
  }

  /** Distinct in-range pairs have distinct offsets. */
  lemma OffsetInjective(n0: int, i0: int, i1: int, j0: int, j1: int)
    requires 0 <= i0 < n0 && 0 <= j0 < n0
    requires Offset(n0, i0, i1) == Offset(n0, j0, j1)
    ensures i0 == j0 && i1 == j1
  {
    OffsetDecode(n0, i0, i1);
    OffsetDecode(n0, j0, j1);
  }

  /** Every element of the n0 * n1 is addressed by some in-range pair. */
  lemma OffsetCovers(n0: int, n1: int, k: int) returns (i0: int, i1: int)
    requires 0 <= k < n0 * n1 && n0 > 0 && n1 >= 0
    ensures 0 <= i0 < n0 && 0 <= i1 < n1 && Offset(n0, i0, i1) == k
  {
    i0, i1 := k % n0, k / n0;
    assert k == i1 * n0 + i0;
    if i1 >= n1 {
      MulMonotone(n1, i1, n0);
      assert false;
    }
  }

  class StaticArray2D<T(0)> {
    const n0: int
    const n1: int
    /** data_. */
    const data: array<T>

    ghost predicate Valid()
    {
      n0 >= 0 && n1 >= 0 && data.Length == StorageLength(n0, n1)
    }

    /** StaticArray2D(): the buffer is left as it is (uninitialised in a release build). */
    constructor Default(n0: int, n1: int)
      requires n0 >= 0 && n1 >= 0
      ensures Valid() && this.n0 == n0 && this.n1 == n1 && fresh(data)
    {
      this.n0 := n0;
      this.n1 := n1;
      data := new T[StorageLength(n0, n1)];
    }

    /** StaticArray2D(value): every one of the n0 * n1 elements is value. */
    constructor Fill(n0: int, n1: int, value: T)
      requires n0 >= 0 && n1 >= 0
      ensures Valid() && this.n0 == n0 && this.n1 == n1 && fresh(data)
      ensures forall k :: 0 <= k < n0 * n1 ==> data[k] == value
      ensures forall i0, i1 :: 0 <= i0 < n0 && 0 <= i1 < n1 ==> Get(i0, i1) == value
    {
      this.n0 := n0;
      this.n1 := n1;
      var storage := new T[StorageLength(n0, n1)];
      MulNonneg(n0, n1);
      for k := 0 to n0 * n1
        invariant forall j :: 0 <= j < k ==> storage[j] == value
      {
        storage[k] := value;
      }
      data := storage;
      new;
      forall i0, i1 | 0 <= i0 < n0 && 0 <= i1 < n1
        ensures Get(i0, i1) == value
      {
        OffsetInRange(n0, n1, i0, i1);
      }
    }

    /** StaticArray2D(il::value, {{...}, ...}): n1 lists of n0 elements each; list
        i1 supplies the elements (0, i1), ..., (n0 - 1, i1). */
    constructor FromLists(n0: int, n1: int, list: seq<seq<T>>)
      requires n0 >= 0 && n1 >= 0
      requires |list| == n1 && forall i1 :: 0 <= i1 < n1 ==> |list[i1]| == n0
      ensures Valid() && this.n0 == n0 && this.n1 == n1 && fresh(data)
      ensures forall i0, i1 :: 0 <= i0 < n0 && 0 <= i1 < n1 ==> Get(i0, i1) == list[i1][i0]
    {
      this.n0 := n0;
      this.n1 := n1;
      var storage := new T[StorageLength(n0, n1)];
      for i1 := 0 to n1
        invariant Filled(storage[..], n0, list, i1, 0)
      {
        for i0 := 0 to n0
          invariant Filled(storage[..], n0, list, i1, i0)
        {
          OffsetInRange(n0, n1, i0, i1);
          ghost var before := storage[..];
          var o := Offset(n0, i0, i1);
          storage[o] := list[i1][i0];
          assert storage[..] == before[o := list[i1][i0]];
          FilledStep(before, n0, n1, list, i1, i0);
        }
        FilledRow(storage[..], n0, list, i1);
      }
      FilledAll(storage[..], n0, n1, list);
      data := storage;
    }

    /** operator() const: the element at offset i1 * n0 + i0. */
    function Get(i0: int, i1: int): T
      reads data
      requires Valid() && 0 <= i0 < n0 && 0 <= i1 < n1
    {
      OffsetInRange(n0, n1, i0, i1);
      data[Offset(n0, i0, i1)]
    }

    /** A(i0, i1) = v through the mutable operator(): that element becomes v and no
        other element changes. */
    method Set(i0: int, i1: int, v: T)
      requires Valid() && 0 <= i0 < n0 && 0 <= i1 < n1
      modifies data
      ensures Get(i0, i1) == v
      ensures forall j0, j1 :: 0 <= j0 < n0 && 0 <= j1 < n1 && (j0 != i0 || j1 != i1) ==> Get(j0, j1) == old(Get(j0, j1))
    {
      OffsetInRange(n0, n1, i0, i1);
      OffsetSeparates(n0, n1, i0, i1);
      var o := Offset(n0, i0, i1);
      data[o] := v;
    }

    /** size(d), for d = 0 or 1. */
    function Size(d: int): (r: int)
      requires Valid() && 0 <= d < 2
      ensures r >= 0 && (d == 0 ==> r == n0) && (d == 1 ==> r == n1)
    {
      if d == 0 then n0 else n1
    }
  }

  /** The elements of columns 0 .. i1 - 1, and of column i1 up to row i0, hold the
      values of list. */
  ghost predicate Filled<T>(s: seq<T>, n0: int, list: seq<seq<T>>, i1: int, i0: int)
  {
    forall j0, j1 :: 0 <= j0 < n0 && 0 <= j1 < |list| && (j1 < i1 || (j1 == i1 && j0 < i0)) ==>
      0 <= Offset(n0, j0, j1) < |s| && j0 < |list[j1]| && s[Offset(n0, j0, j1)] == list[j1][j0]
  }

  lemma FilledStep<T>(s: seq<T>, n0: int, n1: int, list: seq<seq<T>>, i1: int, i0: int)
    requires 0 <= i0 < n0 && 0 <= i1 < n1 && |list| == n1 && |list[i1]| == n0
    requires n0 * n1 == |s| && Filled(s, n0, list, i1, i0)
    ensures 0 <= Offset(n0, i0, i1) < |s|
    ensures Filled(s[Offset(n0, i0, i1) := list[i1][i0]], n0, list, i1, i0 + 1)
  {
    OffsetInRange(n0, n1, i0, i1);
    OffsetSeparates(n0, n1, i0, i1);
  }

  lemma FilledRow<T>(s: seq<T>, n0: int, list: seq<seq<T>>, i1: int)
    requires Filled(s, n0, list, i1, n0)
    ensures Filled(s, n0, list, i1 + 1, 0)
  {
  }

  lemma FilledAll<T>(s: seq<T>, n0: int, n1: int, list: seq<seq<T>>)
    requires |list| == n1 && Filled(s, n0, list, n1, 0)
    ensures forall i0, i1 :: 0 <= i0 < n0 && 0 <= i1 < n1 ==> 0 <= Offset(n0, i0, i1) < |s| && s[Offset(n0, i0, i1)] == list[i1][i0]
  {
  }

  /** Writing offset (i0, i1) does not touch the offset of any other in-range pair. */
  lemma OffsetSeparates(n0: int, n1: int, i0: int, i1: int)
    requires 0 <= i0 < n0 && 0 <= i1 < n1
    ensures forall j0, j1 :: 0 <= j0 < n0 && (j0 != i0 || j1 != i1) ==> Offset(n0, j0, j1) != Offset(n0, i0, i1)
  {
    forall j0, j1 | 0 <= j0 < n0 && Offset(n0, j0, j1) == Offset(n0, i0, i1)
      ensures j0 == i0 && j1 == i1
    {
      OffsetInjective(n0, i0, i1, j0, j1);
    }
  }
}
