/** What the CRC is: the remainder of the message, times x^16, modulo the
    polynomial x^16 + x^12 + x^5 + 1 over GF(2). */
module CrcRemainder {
  import opened Crc16

  /** x^16 + x^12 + x^5 + 1, highest coefficient first. */
  function Generator(): (r: Bits)
    ensures |r| == REG_BITS + 1 && r[0] && forall j :: 0 <= j < REG_BITS ==> r[j + 1] == POLY[j]
  {
    seq(REG_BITS + 1, i requires 0 <= i <= REG_BITS => REG_BITS - i in {16, 12, 5, 0})
  }

  /** The product of a polynomial with the generator, highest coefficient first. */
  function Product(q: Bits): (r: Bits)
    ensures |r| == |q| + REG_BITS
    decreases |q|
  {
    if q == [] then Zeros(REG_BITS)
    else
      var n := |q| - 1;
      var front := Product(q[..n]) + [false];
      if q[n] then Xor(front, Zeros(n) + Generator()) else front
  }

  /** One more coefficient. */
  lemma ProductSnoc(q: Bits, t: bool, i: nat)
    requires i <= |q| + REG_BITS
    ensures Product(q + [t])[i]
         == ((i < |q| + REG_BITS && Product(q)[i]) != (t && i >= |q| && Generator()[i - |q|]))
  {
    assert (q + [t])[..|q|] == q;
    var front := Product(q) + [false];
    assert front[i] == (i < |q| + REG_BITS && Product(q)[i]);
    var shifted := Zeros(|q|) + Generator();
    assert shifted[i] == (i >= |q| && Generator()[i - |q|]);
  }

  /** m * x^16 == q * generator + r */
  ghost predicate Divides(m: Bits, q: Bits, r: Reg) {
    |q| == |m| && m + Zeros(REG_BITS) == Xor(Product(q), Zeros(|m|) + r)
  }

  lemma DividesAt(m: Bits, q: Bits, r: Reg, i: nat)
    requires Divides(m, q, r) && i < |m| + REG_BITS
    ensures Product(q)[i] == ((i < |m| && m[i]) != (i >= |m| && r[i - |m|]))
  {
    var sum := Xor(Product(q), Zeros(|m|) + r);
    assert sum[i] == (m + Zeros(REG_BITS))[i];
    assert (Zeros(|m|) + r)[i] == (i >= |m| && r[i - |m|]);
  }

  /** The register after one more bit. */
  lemma BitFed(c: Reg, b: bool, j: nat)
    requires j < REG_BITS
    ensures BitStep(Xor(c, FirstBit(b)))[j]
         == ((j + 1 < REG_BITS && c[j + 1]) != ((c[0] != b) && POLY[j]))
  {
    var x := Xor(c, FirstBit(b));
    assert x[0] == (c[0] != b) && forall k :: 1 <= k < REG_BITS ==> x[k] == c[k];
  }

  /** Division goes on by one bit as the register does. */
  lemma DivideOneMore(m: Bits, q: Bits, c: Reg, b: bool)
    requires Divides(m, q, c)
    ensures Divides(m + [b], q + [c[0] != b], BitStep(Xor(c, FirstBit(b))))
  {
    var t, d, n := c[0] != b, BitStep(Xor(c, FirstBit(b))), |m|;
    var lhs, rhs := m + [b] + Zeros(REG_BITS), Xor(Product(q + [t]), Zeros(n + 1) + d);
    forall i: nat | i < n + 1 + REG_BITS ensures lhs[i] == rhs[i] {
      ProductSnoc(q, t, i);
      if i < n + REG_BITS {
        DividesAt(m, q, c, i);
      }
      if i > n {
        BitFed(c, b, i - n - 1);
        assert (Zeros(n + 1) + d)[i] == d[i - n - 1];
      } else {
        assert !(Zeros(n + 1) + d)[i];
      }
    }
  }

  /** Feeding the message computes quotient and remainder. */
  lemma {:induction false} Division(m: Bits) returns (q: Bits)
    ensures Divides(m, q, Feed(Zeros(REG_BITS), m))
    decreases |m|
  {
    if m == [] {
      q := [];
      assert m + Zeros(REG_BITS) == Xor(Product(q), Zeros(0) + Zeros(REG_BITS));
    } else {
      var front, b := m[..|m| - 1], m[|m| - 1];
      var p := Division(front);
      var c := Feed(Zeros(REG_BITS), front);
      DivideOneMore(front, p, c, b);
      FeedConcat(Zeros(REG_BITS), front, [b]);
      assert m == front + [b];
      FeedOne(c, b);
      q := p + [c[0] != b];
    }
  }

  lemma FeedOne(c: Reg, b: bool)
    ensures Feed(c, [b]) == BitStep(Xor(c, FirstBit(b)))
  {
    assert [b][1..] == [];
  }

  /** The high coefficients of a product determine the factor. */
  lemma {:induction false} FactorIsUnique(q: Bits, p: Bits)
    requires |q| == |p| && forall i :: 0 <= i < |q| ==> Product(q)[i] == Product(p)[i]
    ensures q == p
    decreases |q|
  {
    if q == [] {
      assert p == [];
    } else {
      var n := |q| - 1;
      assert q == q[..n] + [q[n]] && p == p[..n] + [p[n]];
      forall i: nat | i < n ensures Product(q[..n])[i] == Product(p[..n])[i] {
        ProductSnoc(q[..n], q[n], i);
        ProductSnoc(p[..n], p[n], i);
      }
      FactorIsUnique(q[..n], p[..n]);
      ProductSnoc(q[..n], q[n], n);
      ProductSnoc(p[..n], p[n], n);
    }
  }

  lemma RemainderIsUnique(m: Bits, q: Bits, r: Reg, p: Bits, s: Reg)
    requires Divides(m, q, r) && Divides(m, p, s)
    ensures q == p && r == s
  {
    forall i: nat | i < |m| ensures Product(q)[i] == Product(p)[i] {
      DividesAt(m, q, r, i);
      DividesAt(m, p, s, i);
    }
    FactorIsUnique(q, p);
    forall j: nat | j < REG_BITS ensures r[j] == s[j] {
      DividesAt(m, q, r, |m| + j);
      DividesAt(m, p, s, |m| + j);
    }
  }

  /** The CRC folded from zero is the remainder, and nothing else is. */
  lemma CrcIsRemainder(msg: seq<Byte>, r: Reg)
    ensures r == Crc(Zeros(REG_BITS), msg) <==> exists q: Bits :: Divides(Flat(msg), q, r)
  {
    CrcIsFeed(Zeros(REG_BITS), msg);
    var p := Division(Flat(msg));
    if q: Bits :| Divides(Flat(msg), q, r) {
      RemainderIsUnique(Flat(msg), q, r, p, Crc(Zeros(REG_BITS), msg));
    }
  }
}
