/**
JavaScript's 32-bit integer operators, stated on unbounded integers.
 */
module Bits {
  import opened Bytes

  const INT32_SPAN: int := 0x1_0000_0000

  function Pow2(k: nat): (p: nat)
    ensures p >= 1
  {
    if k == 0 then 1 else 2 * Pow2(k - 1)
  }

  /** The signed value of the low 32 bits, as `| 0` gives it. */
  function ToInt32(n: int): (r: int)
    ensures -0x8000_0000 <= r < 0x8000_0000
    ensures -0x8000_0000 <= n < 0x8000_0000 ==> r == n
  {
    var low := n % INT32_SPAN;
    if low >= 0x8000_0000 then low - INT32_SPAN else low
  }

  lemma {:induction false} WrapIgnoresSpans(n: int, k: int)
    ensures ToInt32(n + k * INT32_SPAN) == ToInt32(n)
  {
    assert (n + k * INT32_SPAN) % INT32_SPAN == n % INT32_SPAN;
  }

  /** Bitwise or of two bit patterns. */
  function BitOr(a: nat, b: nat): nat
    decreases a + b
  {
    if a == 0 then b
    else if b == 0 then a
    else 2 * BitOr(a / 2, b / 2) + (if a % 2 == 1 || b % 2 == 1 then 1 else 0)
  }

  /** Bit `k` of `n`. */
  predicate Bit(n: nat, k: nat) {
    if k == 0 then n % 2 == 1 else Bit(n / 2, k - 1)
  }

  lemma {:induction false} OrWithEven(a: nat, c: nat)
    ensures BitOr(a, 2 * c) == 2 * BitOr(a / 2, c) + a % 2
  {
    assert 2 * c / 2 == c && 2 * c % 2 == 0;
    if a == 0 || c == 0 {
      assert BitOr(a / 2, 0) == a / 2;
    }
  }

  /** Or-ing bits above the pattern adds them. */
  lemma {:induction false} OrAbove(a: nat, high: nat, k: nat)
    requires a < Pow2(k)
    ensures BitOr(a, high * Pow2(k)) == a + high * Pow2(k)
  {
    if k == 0 {
      assert high * Pow2(k) == high;
    } else {
      var c := high * Pow2(k - 1);
      assert high * Pow2(k) == 2 * c;
      OrWithEven(a, c);
      OrAbove(a / 2, high, k - 1);
    }
  }

  lemma {:induction false} Pow2Adds(j: nat, k: nat)
    ensures Pow2(j + k) == Pow2(j) * Pow2(k)
  {
    if k > 0 {
      Pow2Adds(j, k - 1);
      assert Pow2(j + k) == 2 * Pow2(j + (k - 1));
      assert 2 * (Pow2(j) * Pow2(k - 1)) == Pow2(j) * (2 * Pow2(k - 1));
    } else {
      assert Pow2(j) * 1 == Pow2(j);
    }
  }

  // ---------- Bit by bit ----------

  lemma {:induction false} ZeroHasNoBits(k: nat)
    ensures !Bit(0, k)
  {
    if k > 0 {
      ZeroHasNoBits(k - 1);
    }
  }

  lemma {:induction false} OrBits(a: nat, b: nat, k: nat)
    ensures Bit(BitOr(a, b), k) <==> Bit(a, k) || Bit(b, k)
    decreases k
  {
    ZeroHasNoBits(k);
    if a != 0 && b != 0 && k > 0 {
      OrBits(a / 2, b / 2, k - 1);
    }
  }

  lemma {:induction false} OrBound(a: nat, b: nat, w: nat)
    requires a < Pow2(w) && b < Pow2(w)
    ensures BitOr(a, b) < Pow2(w)
    decreases w
  {
    if w > 0 && a != 0 && b != 0 {
      OrBound(a / 2, b / 2, w - 1);
    }
  }

  lemma {:induction false} ShiftedBits(n: nat, s: nat, k: nat)
    ensures n * Pow2(s) >= 0
    ensures Bit(n * Pow2(s), k) <==> k >= s && Bit(n, k - s)
    decreases s
  {
    if s == 0 {
      assert n * Pow2(0) == n;
    } else {
      var half := n * Pow2(s - 1);
      assert n * Pow2(s) == 2 * half;
      ShiftedBits(n, s - 1, if k > 0 then k - 1 else 0);
      assert 2 * half / 2 == half && 2 * half % 2 == 0;
    }
  }

  lemma {:induction false} Parts(n: nat, m: nat) returns (q: nat, r: nat)
    requires m > 0
    ensures n == q * m + r && r < m && r == n % m
  {
    r := n % m;
    q := n / m;
  }

  /** Halving first, or reducing first. */
  lemma {:induction false} HalfOfRemainder(n: nat, p: nat)
    requires p > 0
    ensures n % (2 * p) / 2 == n / 2 % p && n % (2 * p) % 2 == n % 2
  {
    var q, r := Parts(n, 2 * p);
    DoubleProduct(q, p);
    HalvesAdd(n, q * p, r);
    ModOfSum(q, r / 2, p);
  }

  lemma {:induction false} DoubleProduct(q: nat, p: nat)
    ensures q * (2 * p) == 2 * (q * p) && q * p >= 0
  {
  }

  lemma {:induction false} HalvesAdd(n: nat, whole: nat, r: nat)
    requires n == 2 * whole + r
    ensures n / 2 == whole + r / 2 && n % 2 == r % 2
  {
  }

  lemma {:induction false} LowBits(n: nat, w: nat, k: nat)
    ensures Bit(n % Pow2(w), k) <==> k < w && Bit(n, k)
    decreases w
  {
    if w == 0 {
      assert n % 1 == 0;
      ZeroHasNoBits(k);
    } else {
      HalfOfRemainder(n, Pow2(w - 1));
      if k > 0 {
        LowBits(n / 2, w - 1, k - 1);
      }
    }
  }

  lemma {:induction false} HighBits(n: nat, k: nat)
    ensures Bit(n / 128, k) <==> Bit(n, k + 7)
  {
    var n2, n4, n8 := n / 2, n / 4, n / 8;
    assert Bit(n, k + 7) == Bit(n2, k + 6) == Bit(n4, k + 5) == Bit(n8, k + 4);
    assert Bit(n8, k + 4) == Bit(n / 16, k + 3) == Bit(n / 32, k + 2) == Bit(n / 64, k + 1) == Bit(n / 128, k);
  }

  /** Numbers with the same bits are the same. */
  lemma {:induction false} SameBits(a: nat, b: nat, w: nat)
    requires a < Pow2(w) && b < Pow2(w) && forall k: nat :: k < w ==> (Bit(a, k) <==> Bit(b, k))
    ensures a == b
    decreases w
  {
    if w > 0 {
      assert Bit(a, 0) <==> Bit(b, 0);
      forall k: nat | k < w - 1 ensures Bit(a / 2, k) <==> Bit(b / 2, k) {
        assert Bit(a, k + 1) <==> Bit(b, k + 1);
      }
      SameBits(a / 2, b / 2, w - 1);
    }
  }

  lemma {:induction false} Pow2Monotone(j: nat, k: nat)
    requires j <= k
    ensures Pow2(j) <= Pow2(k)
  {
    if j < k {
      Pow2Monotone(j, k - 1);
    }
  }

  lemma {:induction false} Pow2Values()
    ensures Pow2(3) == 8 && Pow2(7) == 128 && Pow2(8) == 0x100 && Pow2(24) == 0x100_0000
    ensures Pow2(28) == 0x1000_0000 && Pow2(32) == INT32_SPAN
  {
    Pow2Adds(4, 4);
    Pow2Adds(8, 8);
    Pow2Adds(16, 8);
    Pow2Adds(24, 4);
    Pow2Adds(28, 4);
  }
}
