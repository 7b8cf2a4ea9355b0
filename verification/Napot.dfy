/** Naturally aligned power-of-two regions in a PMP address register: the macro
    pmp_set_region and pmp_decode_napot, include/pmp.h, for 64-bit harts. */
module Napot {
  import opened Bits

  const XLEN: nat := WORD_BITS

  /** Arithmetic on uint64_t. */
  const WORDS: nat := 0x1_0000_0000_0000_0000
  const REGISTERS: nat := 0x4000_0000_0000_0000  // the register holds address bits 55:2 at most

  /** The macro, lines 48-56, with the address's two low bits dropped. */
  function SetRegion(addr: nat, mask: nat): nat
    requires mask < WORDS
  {
    Or((WORDS - 1 - mask) / 8, addr / 4)
  }

  /** The mask its callers pass, `~(size - 1)`. */
  function MaskOf(size: nat): (r: nat)
    requires 0 < size <= WORDS
    ensures r < WORDS
  {
    WORDS - 1 - (size - 1)
  }

  datatype Range = Range(addr: nat, size: nat)

  /** pmp_decode_napot. */
  function Decode(region: nat): Range {
    DecodeWord(Or(region * 4 % WORDS, 3))
  }

  /** Lines 39-40. */
  function DecodeWord(a: nat): Range {
    var next := if a + 1 == WORDS then 0 else a + 1;
    var addr := And(a, next);
    Range(addr, Minus(Or(a, next) + 1, addr))
  }

  /** Subtraction of uint64_t. */
  function Minus(x: nat, y: nat): nat {
    (x - y) % WORDS
  }

  // ----- reference: table 3.11 of the RISC-V Privileged Specification, section 3.7.1

  function TrailingOnes(region: nat): nat {
    if region % 2 == 0 then 0 else 1 + TrailingOnes(region / 2)
  }

  /** The bits of the address above the lowest zero of the register decide. */
  predicate Matches(region: nat, address: nat) {
    var t := TrailingOnes(region);
    address / 4 / Pow2(t + 1) == region / Pow2(t + 1)
  }

  lemma {:induction false} IsTail(region: nat) returns (q: nat)
    ensures region == Tail(q, TrailingOnes(region))
  {
    if region % 2 == 0 {
      q := region / 2;
    } else {
      q := IsTail(region / 2);
      assert region == 2 * (region / 2) + 1;
    }
  }

  lemma OrThree(r: nat)
    ensures Or(4 * r, 3) == 4 * r + 3
  {
    if r > 0 {
      assert Or(2 * r, 1) == 2 * r + 1;
      assert 4 * r / 2 == 2 * r;
    }
  }

  lemma Widths()
    ensures Pow2(XLEN) == WORDS && Pow2(XLEN - 2) == REGISTERS
  {
    WordPower();
    var top := XLEN - 1;
    assert Pow2(top + 1) == 2 * Pow2(top) && Pow2(top) == 2 * Pow2(top - 1);
  }

  lemma MinusIs(x: nat, y: nat)
    requires y <= x <= y + WORDS
    ensures Minus(x, y) == if x < y + WORDS then x - y else 0
  {
  }

  lemma DecodeShifts(region: nat, a: nat)
    requires region < REGISTERS && a == 4 * region + 3
    ensures Or(region * 4 % WORDS, 3) == a
  {
    OrThree(region);
  }

  /** Every register below the two unused bits decodes to the range it stands
      for; a range of the whole address space or more has its size cut to zero. */
  lemma DecodeTail(q: nat, t: nat)
    requires Tail(q, t) < REGISTERS
    ensures Decode(Tail(q, t)) == Range(Shl(q, t + 3), if t < XLEN - 3 then Pow2(t + 3) else 0)
  {
    var a := Tail(q, t + 2);
    assert a == 2 * Tail(q, t + 1) + 1;
    DecodeShifts(Tail(q, t), a);
    if a + 1 == WORDS {
      DecodeLast(q, t + 2);
    } else {
      DecodeBelow(q, t + 2);
    }
  }

  lemma DecodeBelow(q: nat, m: nat)
    requires Tail(q, m) + 1 < WORDS
    ensures DecodeWord(Tail(q, m)) == Range(Shl(q, m + 1), if m + 1 < XLEN then Pow2(m + 1) else 0)
  {
    var a := Tail(q, m);
    var addr := And(a, a + 1);
    TailAndOr(q, m);
    SizeFits(q, m);
    MinusIs(addr + Pow2(m + 1), addr);
  }

  lemma DecodeLast(q: nat, m: nat)
    requires Tail(q, m) + 1 == WORDS
    ensures DecodeWord(Tail(q, m)) == Range(Shl(q, m + 1), 0) && m + 1 > XLEN
  {
    LastWord(q, m);
    assert And(Tail(q, m), 0) == 0;
  }

  lemma SizeFits(q: nat, m: nat)
    requires Tail(q, m) + 1 < WORDS
    ensures Pow2(m + 1) <= WORDS && (Pow2(m + 1) == WORDS <==> m + 1 >= XLEN)
  {
    Widths();
    TailValue(q, m);
    if m + 1 < XLEN {
      PowersGrow(m + 1, XLEN);
    } else if m + 1 > XLEN {
      if m > XLEN {
        PowersGrow(XLEN, m);
      }
      assert false;
    }
  }

  /** Only all ones reaches the last word. */
  lemma LastWord(q: nat, m: nat)
    requires Tail(q, m) + 1 == WORDS
    ensures q == 0 && m == XLEN && Shl(q, m + 1) == 0
  {
    Widths();
    AllOnes(q, m, XLEN);
    ShlIsTimes(q, m + 1);
  }

  lemma {:induction false} AllOnes(q: nat, m: nat, k: nat)
    requires Tail(q, m) + 1 == Pow2(k)
    ensures q == 0 && m == k
  {
    if m > 0 && k > 0 {
      AllOnes(q, m - 1, k - 1);
    }
  }

  // ----- main results

  predicate Aligned(base: nat, k: nat) {
    base % Pow2(k) == 0
  }

  predicate RoundTrips(base: nat, size: nat)
    requires 0 < size <= WORDS
  {
    Decode(SetRegion(base, MaskOf(size))) == Range(base, size)
  }

  lemma Halves(q: nat, k: nat)
    requires k >= 3
    ensures Pow2(k) == 8 * Pow2(k - 3) && Shl(q, k) == 8 * Shl(q, k - 3)
  {
    assert Pow2(k) == 2 * Pow2(k - 1) && Pow2(k - 1) == 2 * Pow2(k - 2);
    assert Shl(q, k) == 2 * Shl(q, k - 1) && Shl(q, k - 1) == 2 * Shl(q, k - 2);
  }

  lemma SetRegionParts(addr: nat, size: nat, p: nat, x: nat)
    requires 0 < size <= WORDS && size == 8 * p && addr == 4 * x
    ensures SetRegion(addr, MaskOf(size)) == Or(p - 1, x)
  {
    assert (WORDS - 1 - MaskOf(size)) / 8 == p - 1;
  }

  /** What the macro writes for an aligned region. */
  lemma SetRegionIsTail(q: nat, k: nat, addr: nat, size: nat)
    requires 3 <= k && addr == Shl(q, k) && size == Pow2(k) <= WORDS
    ensures SetRegion(addr, MaskOf(size)) == Tail(q, k - 3)
  {
    Halves(q, k);
    SetRegionParts(addr, size, Pow2(k - 3), 2 * Shl(q, k - 3));
    OrIsTail(q, k - 3);
  }

  lemma OrIsTail(q: nat, m: nat)
    ensures Or(Pow2(m) - 1, 2 * Shl(q, m)) == Tail(q, m)
  {
    ShlTwice(q, m);
    OrAdds(m, 2 * q);
    TailValue(q, m);
  }

  lemma {:induction false} ShlTwice(q: nat, k: nat)
    ensures Shl(2 * q, k) == Shl(q, k + 1)
  {
    if k > 0 {
      ShlTwice(q, k - 1);
    }
  }

  lemma TailBelow(q: nat, k: nat)
    requires 3 <= k <= XLEN && Shl(q, k) < WORDS
    ensures Tail(q, k - 3) < REGISTERS
  {
    Widths();
    TailValue(q, k - 3);
    FitsBelow(q, k, XLEN);
    Halves(q, k);
    assert Shl(q, k - 2) == 2 * Shl(q, k - 3);
  }

  lemma PowerFits(k: nat)
    requires k <= XLEN
    ensures Pow2(k) <= WORDS && (k < XLEN ==> Pow2(k) < WORDS)
  {
    Widths();
    if k < XLEN {
      PowersGrow(k, XLEN);
    }
  }

  /** Decoding what the macro writes gives the region back exactly for sizes of
      8 bytes to half the address space. */
  lemma RoundTripExactly(base: nat, k: nat)
    requires k <= XLEN && base < WORDS && Aligned(base, k)
    ensures Pow2(k) <= WORDS
    ensures RoundTrips(base, Pow2(k)) <==> 3 <= k < XLEN
  {
    PowerFits(k);
    if k >= 3 {
      var q := Quotients(base, k);
      LargeEnough(q, k);
    } else {
      assert Pow2(0) == 1 && Pow2(1) == 2 && Pow2(2) == 4;
      TooSmall(base, Pow2(k));
    }
  }

  lemma Quotients(base: nat, k: nat) returns (q: nat)
    requires Aligned(base, k)
    ensures base == Shl(q, k)
  {
    q := base / Pow2(k);
    ShlIsTimes(q, k);
  }

  lemma LargeEnough(q: nat, k: nat)
    requires 3 <= k <= XLEN && Shl(q, k) < WORDS && Pow2(k) <= WORDS
    ensures RoundTrips(Shl(q, k), Pow2(k)) <==> k < XLEN
  {
    SetRegionIsTail(q, k, Shl(q, k), Pow2(k));
    TailBelow(q, k);
    DecodeTail(q, k - 3);
  }

  /** Below 8 bytes the register cannot say the size. */
  lemma TooSmall(base: nat, size: nat)
    requires 0 < size < 8 && base < WORDS
    ensures !RoundTrips(base, size)
  {
    var r := base / 4;
    assert SetRegion(base, MaskOf(size)) == r;
    var q := IsTail(r);
    var t := TrailingOnes(r);
    DecodeTail(q, t);
    Halves(0, t + 3);
  }

  /** And the other way: what a register decodes to is written back as the same register. */
  lemma EncodeDecoded(region: nat)
    requires region < REGISTERS && TrailingOnes(region) < XLEN - 3
    ensures var d := Decode(region);
            0 < d.size < WORDS && SetRegion(d.addr, MaskOf(d.size)) == region
  {
    var q := IsTail(region);
    var t := TrailingOnes(region);
    PowerFits(t + 3);
    DecodeTail(q, t);
    SetRegionIsTail(q, t + 3, Shl(q, t + 3), Pow2(t + 3));
  }

  /** The decoded range holds exactly the addresses that the hardware matches. */
  lemma DecodedIsMatched(region: nat, address: nat)
    requires region < REGISTERS && TrailingOnes(region) < XLEN - 3
    ensures var d := Decode(region);
            d.addr <= address < d.addr + d.size <==> Matches(region, address)
  {
    var q := IsTail(region);
    var t := TrailingOnes(region);
    DecodeTail(q, t);
    TailValue(q, t);
    PowersGrow(t, t + 1);
    ShlIsTimes(q, t + 1);
    ModIs(region, Pow2(t + 1), q, Pow2(t) - 1);
    Halves(q, t + 3);
    assert Shl(q, t + 1) == 2 * Shl(q, t);
    Quotient(address / 4, Pow2(t + 1), q);
  }

  /** Of a region of the whole address space or more the decoder makes an empty range. */
  lemma WholeSpaceIsLost(region: nat)
    requires region < REGISTERS && TrailingOnes(region) >= XLEN - 3
    ensures Decode(region).size == 0 && Matches(region, 0)
  {
    var q := IsTail(region);
    var t := TrailingOnes(region);
    DecodeTail(q, t);
    BelowPower(region, t + 1);
    ModIs(region, Pow2(t + 1), 0, region);
    ModIs(0, Pow2(t + 1), 0, 0);
  }

  lemma BelowPower(region: nat, n: nat)
    requires region < REGISTERS && n >= XLEN - 2
    ensures region < Pow2(n)
  {
    Widths();
    if n > XLEN - 2 {
      PowersGrow(XLEN - 2, n);
    }
  }

  /** So the decoder is right for every address exactly below that size. */
  lemma DecodesExactly(region: nat)
    requires region < REGISTERS
    ensures (forall a: nat :: a < WORDS ==>
               (Decode(region).addr <= a < Decode(region).addr + Decode(region).size <==> Matches(region, a)))
       <==> TrailingOnes(region) < XLEN - 3
  {
    if TrailingOnes(region) < XLEN - 3 {
      forall a: nat | a < WORDS
        ensures Decode(region).addr <= a < Decode(region).addr + Decode(region).size <==> Matches(region, a)
      {
        DecodedIsMatched(region, a);
      }
    } else {
      WholeSpaceIsLost(region);
      assert Matches(region, 0);
    }
  }

  lemma Quotient(y: nat, m: nat, q: nat)
    requires m >= 1
    ensures q * m <= y < q * m + m <==> y / m == q
  {
    if q * m <= y < q * m + m {
      ModIs(y, m, q, y - q * m);
    } else {
      assert y == y / m * m + y % m;
    }
  }
}
