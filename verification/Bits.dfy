/** Unsigned words as natural numbers, with the bitwise operators of C. */
module Bits {

  function Pow2(k: nat): (r: nat)
    ensures r >= 1
  {
    if k == 0 then 1 else 2 * Pow2(k - 1)
  }

  function And(x: nat, y: nat): (r: nat)
    ensures r <= x && r <= y
  {
    if x == 0 || y == 0 then 0
    else 2 * And(x / 2, y / 2) + if x % 2 == 1 && y % 2 == 1 then 1 else 0
  }

  function Or(x: nat, y: nat): nat {
    if x == 0 then y else if y == 0 then x
    else 2 * Or(x / 2, y / 2) + if x % 2 == 1 || y % 2 == 1 then 1 else 0
  }

  /** Bit i of a word. */
  predicate Bit(x: nat, i: nat)
    decreases i
  {
    if i == 0 then x % 2 == 1 else Bit(x / 2, i - 1)
  }

  lemma {:induction false} AndSelf(x: nat)
    ensures And(x, x) == x
  {
    if x > 0 {
      AndSelf(x / 2);
    }
  }

  lemma {:induction false} OrSelf(x: nat)
    ensures Or(x, x) == x
  {
    if x > 0 {
      OrSelf(x / 2);
    }
  }

  lemma {:induction false} AndIsBitwise(x: nat, y: nat, i: nat)
    ensures Bit(And(x, y), i) <==> Bit(x, i) && Bit(y, i)
    decreases i
  {
    if x == 0 || y == 0 {
      ZeroHasNoBits(i);
    } else if i > 0 {
      AndIsBitwise(x / 2, y / 2, i - 1);
    }
  }

  lemma {:induction false} ZeroHasNoBits(i: nat)
    ensures !Bit(0, i)
  {
    if i > 0 {
      ZeroHasNoBits(i - 1);
    }
  }

  /** The mask 2^k - 1 keeps the remainder. */
  lemma {:induction false} AndLowMask(x: nat, k: nat)
    ensures And(x, Pow2(k) - 1) == x % Pow2(k)
  {
    if k > 0 {
      AndLowMask(x / 2, k - 1);
      AndOddMask(x, Pow2(k - 1));
      HalfMod(x, Pow2(k - 1));
    }
  }

  lemma AndOddMask(x: nat, p: nat)
    requires p >= 1
    ensures And(x, 2 * p - 1) == 2 * And(x / 2, p - 1) + x % 2
  {
    assert (2 * p - 1) / 2 == p - 1 && (2 * p - 1) % 2 == 1;
  }

  lemma HalfMod(x: nat, p: nat)
    requires p >= 1
    ensures x % (2 * p) == 2 * (x / 2 % p) + x % 2
  {
    var q, r := x / 2 / p, x / 2 % p;
    assert x / 2 == q * p + r && x == 2 * (x / 2) + x % 2;
    assert x == q * (2 * p) + (2 * r + x % 2);
    ModIs(x, 2 * p, q, 2 * r + x % 2);
  }

  lemma ModIs(x: nat, m: nat, q: nat, r: nat)
    requires m >= 1 && x == q * m + r && r < m
    ensures x % m == r && x / m == q
  {
    SameDivision(q, r, x / m, x % m, m);
  }

  lemma SameDivision(q: nat, r: nat, q': nat, r': nat, m: nat)
    requires q * m + r == q' * m + r' && r < m && r' < m
    ensures q == q' && r == r'
  {
    if q < q' {
      MulMono(q + 1, q', m);
    } else if q' < q {
      MulMono(q' + 1, q, m);
    }
  }

  lemma MulMono(a: nat, b: nat, m: nat)
    requires a <= b
    ensures a * m <= b * m
  {
    assert b * m == a * m + (b - a) * m;
  }

  ghost predicate IsPower(x: nat) {
    exists k: nat :: x == Pow2(k)
  }

  lemma DoubledPower(y: nat)
    requires y > 0
    ensures IsPower(2 * y) <==> IsPower(y)
  {
    if IsPower(y) {
      var k: nat :| y == Pow2(k);
      assert 2 * y == Pow2(k + 1);
    }
    if IsPower(2 * y) {
      var k: nat :| 2 * y == Pow2(k);
      assert k > 0 && y == Pow2(k - 1);
    }
  }

  lemma OddPower(x: nat)
    requires x % 2 == 1
    ensures IsPower(x) <==> x == 1
  {
    assert Pow2(0) == 1;
    if IsPower(x) {
      var k: nat :| x == Pow2(k);
      assert k > 0 ==> x == 2 * Pow2(k - 1);
    }
  }

  /** x & (x - 1) clears the lowest set bit: it is zero for powers of two only. */
  lemma {:induction false} OneBitAtMost(x: nat, y: nat)
    requires x > 0 && y == x - 1
    ensures And(x, y) == 0 <==> IsPower(x)
    decreases x
  {
    if x % 2 == 1 {
      AndSelf(x / 2);
      assert y / 2 == x / 2;
      OddPower(x);
    } else {
      assert y / 2 == x / 2 - 1;
      OneBitAtMost(x / 2, x / 2 - 1);
      DoubledPower(x / 2);
    }
  }

  /** `x << k`, before it is cut to the width of a word. */
  function Shl(x: nat, k: nat): nat {
    if k == 0 then x else 2 * Shl(x, k - 1)
  }

  lemma {:induction false} ShlIsTimes(x: nat, k: nat)
    ensures Shl(x, k) == x * Pow2(k)
  {
    if k > 0 {
      ShlIsTimes(x, k - 1);
    }
  }

  /** Disjoint bits add. */
  lemma {:induction false} OrAdds(m: nat, q: nat)
    ensures Or(Pow2(m) - 1, Shl(q, m)) == Shl(q, m) + Pow2(m) - 1
  {
    if m > 0 {
      OrAdds(m - 1, q);
      assert (Pow2(m) - 1) / 2 == Pow2(m - 1) - 1 && (Pow2(m) - 1) % 2 == 1;
    }
  }

  /** q, then a zero, then m ones. */
  function Tail(q: nat, m: nat): nat {
    if m == 0 then 2 * q else 2 * Tail(q, m - 1) + 1
  }

  lemma {:induction false} TailValue(q: nat, m: nat)
    ensures Tail(q, m) == Shl(q, m + 1) + Pow2(m) - 1
  {
    if m > 0 {
      TailValue(q, m - 1);
    }
  }

  /** a & (a + 1) drops the ones, a | (a + 1) adds one more. */
  lemma {:induction false} TailAndOr(q: nat, m: nat)
    ensures var a := Tail(q, m);
            And(a, a + 1) == Shl(q, m + 1) && Or(a, a + 1) == Shl(q, m + 1) + Pow2(m + 1) - 1
  {
    if m == 0 {
      assert (2 * q + 1) / 2 == q;
      AndSelf(q);
      OrSelf(q);
    } else {
      TailAndOr(q, m - 1);
      var b := Tail(q, m - 1);
      assert (2 * b + 1) / 2 == b && (2 * b + 2) / 2 == b + 1;
    }
  }

  lemma {:induction false} PowersAdd(i: nat, j: nat)
    ensures Pow2(i + j) == Pow2(i) * Pow2(j)
  {
    if i > 0 {
      PowersAdd(i - 1, j);
      assert 2 * Pow2(i - 1) * Pow2(j) == 2 * (Pow2(i - 1) * Pow2(j));
    }
  }

  lemma {:induction false} PowersGrow(i: nat, j: nat)
    requires i < j
    ensures 2 * Pow2(i) <= Pow2(j)
  {
    if i + 1 < j {
      PowersGrow(i, j - 1);
    }
  }

  /** A multiple of 2^j below 2^n leaves room for 2^j more. */
  lemma {:induction false} FitsBelow(q: nat, j: nat, n: nat)
    requires j <= n && Shl(q, j) < Pow2(n)
    ensures Shl(q, j) + Pow2(j) <= Pow2(n)
  {
    if j > 0 {
      FitsBelow(q, j - 1, n - 1);
    }
  }

  lemma {:induction false} AndCommutes(x: nat, y: nat)
    ensures And(x, y) == And(y, x)
  {
    if x > 0 && y > 0 {
      AndCommutes(x / 2, y / 2);
    }
  }

  /** `m & ~(1 << i)`. */
  function ClearBit(m: nat, i: nat): nat
    decreases i
  {
    if i == 0 then m - m % 2 else 2 * ClearBit(m / 2, i - 1) + m % 2
  }

  /** `m >> i`. */
  function ShiftRight(m: nat, i: nat): nat
    decreases i
  {
    if i == 0 then m else ShiftRight(m, i - 1) / 2
  }

  lemma {:induction false} ClearedBit(m: nat, i: nat, j: nat)
    ensures Bit(ClearBit(m, i), j) <==> j != i && Bit(m, j)
    decreases i
  {
    if i == 0 {
      assert j > 0 ==> (m - m % 2) / 2 == m / 2;
    } else {
      var c := ClearBit(m / 2, i - 1);
      assert (2 * c + m % 2) / 2 == c && (2 * c + m % 2) % 2 == m % 2;
      if j > 0 {
        ClearedBit(m / 2, i - 1, j - 1);
      }
    }
  }

  lemma {:induction false} ClearUnsetBit(m: nat, i: nat)
    requires !Bit(m, i)
    ensures ClearBit(m, i) == m
    decreases i
  {
    if i > 0 {
      ClearUnsetBit(m / 2, i - 1);
    }
  }

  lemma {:induction false} ShiftedBit(m: nat, i: nat, j: nat)
    ensures Bit(ShiftRight(m, i), j) <==> Bit(m, i + j)
    decreases i
  {
    if i > 0 {
      ShiftedBit(m, i - 1, j + 1);
    }
  }

  /** BITS_PER_LONG of a 64-bit hart. */
  const WORD_BITS: nat := 64

  lemma WordPower()
    ensures Pow2(WORD_BITS) == 0x1_0000_0000_0000_0000
  {
    var eight := 8;
    assert Pow2(eight) == 256;
    PowersAdd(eight, eight);
    PowersAdd(2 * eight, 2 * eight);
    PowersAdd(4 * eight, 4 * eight);
  }

  // ----- masks and empty words

  /** `~0UL >> (64 - k)` has the bits below k. */
  lemma {:induction false} LowMaskBits(k: nat, i: nat)
    ensures Bit(Pow2(k) - 1, i) <==> i < k
    decreases i
  {
    if k == 0 {
      ZeroHasNoBits(i);
    } else if i > 0 {
      LowMaskBits(k - 1, i - 1);
    }
  }

  /** `~0UL << k` in n bits has the bits from k on. */
  lemma {:induction false} HighMaskBits(n: nat, k: nat, i: nat)
    requires k <= n
    ensures Pow2(k) <= Pow2(n) && (Bit(Pow2(n) - Pow2(k), i) <==> k <= i < n)
    decreases i, k
  {
    if k < n {
      PowersGrow(k, n);
    }
    if k == 0 {
      LowMaskBits(n, i);
    } else {
      assert Pow2(n) - Pow2(k) == 2 * (Pow2(n - 1) - Pow2(k - 1));
      if i > 0 {
        HighMaskBits(n - 1, k - 1, i - 1);
      }
    }
  }

  lemma {:induction false} SomeBit(x: nat, n: nat) returns (i: nat)
    requires 0 < x < Pow2(n)
    ensures i < n && Bit(x, i)
    decreases n
  {
    if x % 2 == 1 {
      i := 0;
    } else {
      i := SomeBit(x / 2, n - 1);
      i := i + 1;
    }
  }
}
