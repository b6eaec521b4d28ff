/** Bitwise facts behind the ring's index mask and the rounding of its size. */
module Bits {

  function Pow2(n: nat): (p: nat)
    ensures p >= 1
  {
    if n == 0 then 1 else 2 * Pow2(n - 1)
  }

  ghost predicate IsPow2(m: nat) {
    exists n: nat :: Pow2(n) == m
  }

  /** Bitwise and of two unsigned integers. */
  function BitAnd(a: nat, b: nat): nat
    decreases a + b
  {
    if a == 0 || b == 0 then 0
    else (if a % 2 == 1 && b % 2 == 1 then 1 else 0) + 2 * BitAnd(a / 2, b / 2)
  }

  /** Masking with a power of two less one keeps the low bits. */
  lemma MaskStep(a: nat, n: nat)
    requires n > 0
    ensures BitAnd(a, Pow2(n) - 1) == a % 2 + 2 * BitAnd(a / 2, Pow2(n - 1) - 1)
  {
  }

  /** The masked value is below the power of two, and a small number is its own masked value. */
  lemma {:induction false} MaskBelow(a: nat, n: nat)
    ensures BitAnd(a, Pow2(n) - 1) < Pow2(n)
    ensures a < Pow2(n) ==> BitAnd(a, Pow2(n) - 1) == a
  {
    if n > 0 {
      MaskBelow(a / 2, n - 1);
      MaskStep(a, n);
    }
  }

  lemma {:induction false} MaskPeriodic(a: nat, n: nat)
    ensures BitAnd(a + Pow2(n), Pow2(n) - 1) == BitAnd(a, Pow2(n) - 1)
  {
    if n > 0 {
      var m := Pow2(n - 1);
      MaskPeriodic(a / 2, n - 1);
      MaskStep(a, n);
      MaskStep(a + 2 * m, n);
      assert (a + 2 * m) / 2 == a / 2 + m && (a + 2 * m) % 2 == a % 2;
    }
  }

  /** Two numbers with the same masked value are at least the power of two apart. */
  lemma {:induction false} MaskApart(a: nat, b: nat, n: nat)
    requires a < b && BitAnd(a, Pow2(n) - 1) == BitAnd(b, Pow2(n) - 1)
    ensures a + Pow2(n) <= b
  {
    if n > 0 {
      MaskStep(a, n);
      MaskStep(b, n);
      assert a / 2 < b / 2;
      MaskApart(a / 2, b / 2, n - 1);
    }
  }

  /** The power-of-two test: m and m - 1 share no bit exactly when m is a power of two. */
  lemma {:induction false} PowerOfTwoTest(m: nat)
    requires m > 0
    ensures BitAnd(m, m - 1) == 0 <==> IsPow2(m)
  {
    if m == 1 {
      assert Pow2(0) == 1;
    } else if m % 2 == 0 {
      PowerOfTwoTest(m / 2);
      assert (m - 1) / 2 == m / 2 - 1;
      if IsPow2(m / 2) {
        var n: nat :| Pow2(n) == m / 2;
        assert Pow2(n + 1) == m;
      }
      if IsPow2(m) {
        var n: nat :| Pow2(n) == m;
        assert Pow2(n - 1) == m / 2;
      }
    } else {
      assert (m - 1) / 2 == m / 2;
      BitAndSelf(m / 2);
      assert BitAnd(m, m - 1) == 2 * (m / 2);
      hide BitAnd;
      forall n: nat ensures Pow2(n) != m {
      }
    }
  }

  lemma {:induction false} BitAndSelf(a: nat)
    ensures BitAnd(a, a) == a
  {
    if a > 0 {
      BitAndSelf(a / 2);
    }
  }

  lemma {:induction false} Pow2Increasing(i: nat, j: nat)
    requires i < j
    ensures Pow2(i) < Pow2(j)
  {
    if i < j - 1 {
      Pow2Increasing(i, j - 1);
    }
  }
}
