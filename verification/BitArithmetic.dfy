/** Python's `&`, `|`, `<<` and `>>` on integers, by recursion on bits. */
module BitArithmetic {

  function Shl(x: int, n: nat): (r: int)
    ensures x >= 0 ==> r >= x
    decreases n
  {
    if n == 0 then x else 2 * Shl(x, n - 1)
  }

  function Pow2(n: nat): (r: nat)
    ensures r >= 1
  {
    Shl(1, n)
  }

  /** Rounds down, as `>>` does for negative numbers, too. */
  function Shr(x: int, n: nat): (r: int)
    ensures x >= 0 ==> 0 <= r <= x
    decreases n
  {
    if n == 0 then x else Shr(x / 2, n - 1)
  }

  /** `x & mask`, on two's complement numbers of any length. */
  function And(x: int, mask: nat): nat
    decreases mask
  {
    if mask == 0 then 0 else (x % 2) * (mask % 2) + 2 * And(x / 2, mask / 2)
  }

  function Or(x: nat, y: nat): nat
    decreases x + y
  {
    if x == 0 && y == 0 then 0
    else (if x % 2 == 1 || y % 2 == 1 then 1 else 0) + 2 * Or(x / 2, y / 2)
  }

  /** The low `n` bits. */
  function Low(x: int, n: nat): nat
    decreases n
  {
    if n == 0 then 0 else x % 2 + 2 * Low(x / 2, n - 1)
  }

  lemma {:induction false} MaskIsLow(x: int, n: nat)
    ensures And(x, Pow2(n) - 1) == Low(x, n)
    decreases n
  {
    hide Pow2;
    MaskNext(n);
    if n > 0 {
      MaskIsLow(x / 2, n - 1);
    }
  }

  lemma MaskNext(n: nat)
    ensures if n == 0 then Pow2(n) == 1 else (Pow2(n) - 1) % 2 == 1 && (Pow2(n) - 1) / 2 == Pow2(n - 1) - 1
  {
    assert n > 0 ==> Pow2(n) == 2 * Pow2(n - 1);
  }

  lemma {:induction false} LowBounds(x: int, n: nat)
    ensures Low(x, n) < Pow2(n)
    decreases n
  {
    if n > 0 {
      LowBounds(x / 2, n - 1);
    }
  }

  lemma {:induction false} LowOfSmall(x: nat, n: nat)
    requires x < Pow2(n)
    ensures Low(x, n) == x
    decreases n
  {
    if n > 0 {
      LowOfSmall(x / 2, n - 1);
    }
  }

  /** The low bits are the remainder, the other bits the quotient. */
  lemma {:induction false} Split(x: int, n: nat)
    ensures x == Low(x, n) + Shl(Shr(x, n), n)
    decreases n
  {
    if n > 0 {
      Split(x / 2, n - 1);
    }
  }

  lemma {:induction false} ShrOfSum(x: nat, y: int, n: nat)
    requires x < Pow2(n)
    ensures Shr(x + Shl(y, n), n) == y
    decreases n
  {
    if n > 0 {
      assert (x + Shl(y, n)) / 2 == x / 2 + Shl(y, n - 1);
      ShrOfSum(x / 2, y, n - 1);
    }
  }

  lemma {:induction false} LowOfSum(x: int, y: int, n: nat, k: nat)
    requires k <= n
    ensures Low(x + Shl(y, n), k) == Low(x, k)
    decreases k
  {
    if k > 0 {
      assert (x + Shl(y, n)) / 2 == x / 2 + Shl(y, n - 1);
      LowOfSum(x / 2, y, n - 1, k - 1);
    }
  }

  lemma {:induction false} ShrOfSumBelow(x: int, y: int, n: nat, k: nat)
    requires k <= n
    ensures Shr(x + Shl(y, n), k) == Shr(x, k) + Shl(y, n - k)
    decreases k
  {
    if k > 0 {
      assert (x + Shl(y, n)) / 2 == x / 2 + Shl(y, n - 1);
      ShrOfSumBelow(x / 2, y, n - 1, k - 1);
    }
  }

  lemma {:induction false} LowOfLonger(x: int, a: nat, b: nat)
    ensures Low(x, a + b) == Low(x, a) + Shl(Low(Shr(x, a), b), a)
    decreases a
  {
    if a > 0 {
      LowOfLonger(x / 2, a - 1, b);
    }
  }

  lemma {:induction false} OrZero(x: nat)
    ensures Or(x, 0) == x && Or(0, x) == x
  {
    if x > 0 {
      OrZero(x / 2);
    }
  }

  /** Bits that do not overlap add up. */
  lemma {:induction false} OrIsSum(x: nat, y: nat, n: nat)
    requires x < Pow2(n)
    ensures Or(x, Shl(y, n)) == x + Shl(y, n)
    decreases n
  {
    if n == 0 {
      OrZero(y);
    } else {
      OrIsSum(x / 2, y, n - 1);
    }
  }

  lemma {:induction false} Pow2Sum(a: nat, b: nat)
    ensures Shl(Pow2(a), b) == Pow2(a + b)
  {
    if b > 0 {
      Pow2Sum(a, b - 1);
    }
  }

  lemma {:induction false} ShlMonotone(x: int, y: int, n: nat)
    requires x <= y
    ensures Shl(x, n) <= Shl(y, n)
    decreases n
  {
    if n > 0 {
      ShlMonotone(x, y, n - 1);
    }
  }

  lemma {:induction false} ShlAdds(x: int, y: int, n: nat)
    ensures Shl(x + y, n) == Shl(x, n) + Shl(y, n)
    decreases n
  {
    if n > 0 {
      ShlAdds(x, y, n - 1);
    }
  }

  /** A number above another's bits stays within the bits of both. */
  lemma SumBounds(x: nat, y: nat, a: nat, b: nat)
    requires x < Pow2(a) && y < Pow2(b)
    ensures x + Shl(y, a) < Pow2(a + b)
  {
    ShlMonotone(y + 1, Pow2(b), a);
    ShlAdds(y, 1, a);
    Pow2Sum(b, a);
  }

  lemma ShlZero(n: nat)
    ensures Shl(0, n) == 0
  {
    ShlAdds(0, 0, n);
  }

  lemma {:induction false} ShlScales(x: int, n: nat)
    ensures Shl(x, n) == x * Pow2(n)
    decreases n
  {
    if n > 0 {
      ShlScales(x, n - 1);
      assert Pow2(n) == 2 * Pow2(n - 1);
    }
  }

  lemma ShlNone(x: int)
    ensures Shl(x, 0) == x
  {
  }

  lemma ShrLess(x: nat, n: nat)
    requires x > 0 && n > 0
    ensures 0 <= Shr(x, n) < x
  {
  }

  lemma {:induction false} ShlTwice(x: int, a: nat, b: nat)
    ensures Shl(Shl(x, a), b) == Shl(x, a + b)
  {
    if b > 0 {
      ShlTwice(x, a, b - 1);
    }
  }

  lemma {:induction false} Pow2Monotone(a: nat, b: nat)
    requires a <= b
    ensures Pow2(a) <= Pow2(b)
  {
    if a < b {
      Pow2Monotone(a, b - 1);
    }
  }

  lemma ShrNone(x: int)
    ensures Shr(x, 0) == x
  {
  }

  lemma {:induction false} ShrTwice(x: int, a: nat, b: nat)
    ensures Shr(Shr(x, a), b) == Shr(x, a + b)
    decreases a
  {
    if a > 0 {
      ShrTwice(x / 2, a - 1, b);
    }
  }

  lemma {:induction false} OrCommutes(x: nat, y: nat)
    ensures Or(x, y) == Or(y, x)
    decreases x + y
  {
    if x > 0 || y > 0 {
      OrCommutes(x / 2, y / 2);
    }
  }

  lemma LowNone(x: int)
    ensures Low(x, 0) == 0
  {
  }

  function BitLength(v: nat): nat {
    if v == 0 then 0 else 1 + BitLength(v / 2)
  }

  lemma {:induction false} BitLengthFits(v: nat, n: nat)
    ensures BitLength(v) <= n <==> v < Pow2(n)
    decreases n
  {
    if n > 0 && v > 0 {
      BitLengthFits(v / 2, n - 1);
    }
  }

  /** `x & (1 << j)` is not zero exactly when bit `j` is set. */
  lemma {:induction false} AndOneBit(x: nat, j: nat)
    ensures And(x, Pow2(j)) == Shl(Low(Shr(x, j), 1), j)
    decreases j
  {
    if j == 0 {
      assert And(x, 1) == x % 2;
      assert Low(x, 1) == x % 2;
    } else {
      AndOneBit(x / 2, j - 1);
      assert Pow2(j) == 2 * Pow2(j - 1);
    }
  }

  lemma MulAtLeast(d: int, n: int)
    requires d >= 1 && n > 0
    ensures d * n >= n
  {
    assert (d - 1) * n >= 0;
  }

  lemma DivModUnique(x: int, n: int, q: int, r: int)
    requires n > 0 && x == q * n + r && 0 <= r < n
    ensures x / n == q && x % n == r
  {
    var q', r' := x / n, x % n;
    assert x == q' * n + r';
    assert (q' - q) * n == q' * n - q * n && (q - q') * n == q * n - q' * n;
    if q' > q {
      MulAtLeast(q' - q, n);
    } else if q' < q {
      MulAtLeast(q - q', n);
    }
  }

  /** Shifting down divides, and the low bits are the remainder. */
  lemma ShrDivides(x: int, n: nat)
    ensures Shr(x, n) == x / Pow2(n) && Low(x, n) == x % Pow2(n)
  {
    hide Shr, Low, Shl, Pow2;
    Split(x, n);
    LowBounds(x, n);
    ShlScales(Shr(x, n), n);
    DivModUnique(x, Pow2(n), Shr(x, n), Low(x, n));
  }

  /** `x & (1 << j)` is not zero exactly when the number has bit `j`. */
  lemma AndTestsBit(x: nat, j: nat)
    ensures And(x, Pow2(j)) != 0 <==> x / Pow2(j) % 2 == 1
  {
    AndOneBit(x, j);
    ShrDivides(x, j);
    ShlZero(j);
    ShlNone(1);
    assert Low(Shr(x, j), 1) == Shr(x, j) % 2;
    hide And, Shr;
  }
}
