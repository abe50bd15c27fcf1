/** Unsigned 64-bit arithmetic helpers of the kernel, and small set facts that the page accounting uses. */
module Arith {

  const TWO_63: nat := 0x8000_0000_0000_0000
  const TWO_64: nat := 0x1_0000_0000_0000_0000
  const PAGE_SIZE: nat := 4096

  datatype Option<+T> = None | Some(value: T)

  /** `divide_round_up` on `uint64_t`: the sum wraps before it is divided. */
  function DivideRoundUp(a: nat, b: nat): nat {
    if b == 0 then 0 else ((a + b - 1) % TWO_64) / b
  }

  /** The mathematical ceiling: the least `q` with `a <= q * b`. */
  ghost predicate IsCeiling(a: nat, b: nat, q: nat) {
    a <= q * b && (q > 0 ==> (q - 1) * b < a)
  }

  lemma CeilingOfSum(a: nat, b: nat)
    requires b > 0
    ensures IsCeiling(a, b, (a + b - 1) / b)
  {
    var q := (a + b - 1) / b;
    assert q * b + (a + b - 1) % b == a + b - 1;
    if q > 0 {
      assert (q - 1) * b == q * b - b;
    }
  }

  lemma CeilingUnique(a: nat, b: nat, q: nat, r: nat)
    requires b > 0 && IsCeiling(a, b, q) && IsCeiling(a, b, r)
    ensures q == r
  {
    if q < r {
      Monotone(q, r - 1, b);
    } else if r < q {
      Monotone(r, q - 1, b);
    }
  }

  lemma Monotone(x: nat, y: nat, b: nat)
    requires x <= y
    ensures x * b <= y * b
  {
  }

  /** The result is the ceiling exactly when the intermediate sum fits in 64 bits. */
  lemma DivideRoundUpIsCeiling(a: nat, b: nat)
    requires a < TWO_64 && 0 < b < TWO_64
    ensures IsCeiling(a, b, DivideRoundUp(a, b)) <==> a + b - 1 < TWO_64
  {
    CeilingOfSum(a, b);
    var x := a + b - 1;
    if x >= TWO_64 {
      var wrapped := x - TWO_64;
      assert x % TWO_64 == wrapped;
      DivisionStep(x, wrapped, b);
      assert DivideRoundUp(a, b) < x / b;
      if IsCeiling(a, b, DivideRoundUp(a, b)) {
        CeilingUnique(a, b, DivideRoundUp(a, b), x / b);
      }
    }
  }

  lemma DivisionStep(x: nat, y: nat, b: nat)
    requires b > 0 && y + b <= x
    ensures y / b < x / b
  {
    var p, q := y / b, x / b;
    assert y == p * b + y % b;
    assert x == q * b + x % b;
    if q <= p {
      Monotone(q, p, b);
    }
  }

  /** For whole pages the division is exact. */
  lemma PagesOfBytes(n: nat)
    requires n * PAGE_SIZE < TWO_64 - PAGE_SIZE
    ensures DivideRoundUp(n * PAGE_SIZE, PAGE_SIZE) == n
  {
    assert (n * PAGE_SIZE + PAGE_SIZE - 1) % TWO_64 == n * PAGE_SIZE + PAGE_SIZE - 1;
  }

  /** The page numbers `from .. from + n`. */
  function PageRange(from: nat, n: nat): set<nat> {
    set i: nat | from <= i < from + n && IsPageIn(i, from, n)
  }

  predicate IsPageIn(i: nat, from: nat, n: nat) {
    from <= i < from + n
  }

  lemma {:induction false} PageRangeSize(from: nat, n: nat)
    ensures |PageRange(from, n)| == n
  {
    if n == 0 {
      assert PageRange(from, 0) == {};
    } else {
      PageRangeSize(from, n - 1);
      assert PageRange(from, n) == PageRange(from, n - 1) + {from + n - 1};
    }
  }

  lemma {:induction false} SubsetSize<T>(a: set<T>, b: set<T>)
    requires a <= b
    ensures |b - a| == |b| - |a|
  {
    assert b == a + (b - a);
  }
}
