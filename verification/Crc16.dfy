/** The CRC of include/crc.h: polynomial x^16 + x^12 + x^5 + 1, most significant
    bit first.  Words are sequences of bits, most significant first, so that the
    linear algebra over GF(2) is plain. */
module Crc16 {
  import B = Bits

  type Bits = seq<bool>

  type Byte = b: int | 0 <= b < 256

  const REG_BITS: nat := 16
  const BYTE_BITS: nat := 8

  type Reg = w: Bits | |w| == REG_BITS
    witness [false, false, false, false, false, false, false, false,
             false, false, false, false, false, false, false, false]

  function Zeros(n: nat): (r: Bits)
    ensures |r| == n
  {
    seq(n, i => false)
  }

  function Xor(a: Bits, b: Bits): (r: Bits)
    requires |a| == |b|
    ensures |r| == |a|
  {
    seq(|a|, i requires 0 <= i < |a| => a[i] != b[i])
  }

  /** 0x1021 */
  const POLY: Reg :=
    [false, false, false, true, false, false, false, false, false, false, true, false, false, false, false, true]

  /** The n low bits of a number, most significant first. */
  function BitsOf(v: nat, n: nat): (r: Bits)
    ensures |r| == n
  {
    if n == 0 then [] else BitsOf(v / 2, n - 1) + [v % 2 == 1]
  }

  function Bits8(b: Byte): (r: Bits)
    ensures |r| == 8
  {
    BitsOf(b, BYTE_BITS)
  }

  /** `crc << 1` */
  function Shift(c: Reg): Reg {
    c[1..] + [false]
  }

  /** One turn of the loop at lines 26-31: `crc & 0x8000` is the first bit. */
  function BitStep(c: Reg): Reg {
    if c[0] then Xor(Shift(c), POLY) else Shift(c)
  }

  function Steps(c: Reg, n: nat): Reg
    decreases n
  {
    if n == 0 then c else Steps(BitStep(c), n - 1)
  }

  /** `(uint16_t)data << 8` */
  function HighByte(data: Byte): Reg {
    Bits8(data) + Zeros(8)
  }

  function Update(crc: Reg, data: Byte): Reg {
    Steps(Xor(crc, HighByte(data)), BYTE_BITS)
  }

  /** The CRC folded over a message. */
  function Crc(crc: Reg, msg: seq<Byte>): Reg
    decreases |msg|
  {
    if msg == [] then crc else Crc(Update(crc, msg[0]), msg[1..])
  }

  // ----- the two loops

  /** crc16_ccitt_update as compiled, lines 26-31. */
  method Crc16CcittUpdate(crc: Reg, data: Byte) returns (r: Reg)
    ensures r == Update(crc, data)
  {
    r := Xor(crc, HighByte(data));
    var i := 0;
    while i < 8
      invariant 0 <= i <= 8
      invariant Steps(r, 8 - i) == Update(crc, data)
    {
      if r[0] {
        r := Xor(Shift(r), POLY);
      } else {
        r := Shift(r);
      }
      i := i + 1;
    }
  }

  /** The 16-bit value `x - 1` for a bit x. */
  function MinusOne(x: bool): Reg {
    seq(REG_BITS, i => !x)
  }

  function Not(a: Reg): Reg {
    seq(REG_BITS, i requires 0 <= i < REG_BITS => !a[i])
  }

  function And(a: Reg, b: Reg): Reg {
    seq(REG_BITS, i requires 0 <= i < REG_BITS => a[i] && b[i])
  }

  lemma BranchFreeStep(r: Reg, tmp: Bits, sgn: Reg)
    requires tmp == r + [false] && sgn == And(Not(MinusOne(r[0])), POLY)
    ensures tmp[0] == r[0] && |tmp[1..]| == REG_BITS && Xor(tmp[1..], sgn) == BitStep(r)
  {
    assert tmp[1..] == Shift(r);
    var s := Shift(r);
    forall i | 0 <= i < REG_BITS ensures Xor(s, sgn)[i] == BitStep(r)[i] {
      assert sgn[i] == (r[0] && POLY[i]);
    }
  }

  /** The branch-free form at lines 33-37 computes the same. */
  method Crc16CcittUpdateBranchFree(crc: Reg, data: Byte) returns (r: Reg)
    ensures r == Update(crc, data)
  {
    r := Xor(crc, HighByte(data));
    var i := 0;
    while i < 8
      invariant 0 <= i <= 8
      invariant Steps(r, 8 - i) == Update(crc, data)
    {
      var tmp: Bits := r + [false];                   // 17 bits: (uint32_t)crc << 1
      var sgn := And(Not(MinusOne(tmp[0])), POLY);    // tmp >> 16 is the first bit
      BranchFreeStep(r, tmp, sgn);
      r := Xor(tmp[1..], sgn);
      i := i + 1;
    }
  }

  // ----- linear and bijective

  lemma BitStepLinear(a: Reg, b: Reg)
    ensures BitStep(Xor(a, b)) == Xor(BitStep(a), BitStep(b))
  {
    assert Shift(Xor(a, b)) == Xor(Shift(a), Shift(b));
  }

  lemma BitStepZero(a: Reg)
    ensures BitStep(a) == Zeros(REG_BITS) <==> a == Zeros(REG_BITS)
  {
    if BitStep(a) == Zeros(REG_BITS) {
      var s := BitStep(a);
      assert !s[15];
      assert !a[0];
      forall i | 0 < i < REG_BITS ensures !a[i] {
        assert s[i - 1] == a[i];
      }
    }
  }

  lemma {:induction false} StepsZero(a: Reg, n: nat)
    ensures Steps(a, n) == Zeros(REG_BITS) <==> a == Zeros(REG_BITS)
    decreases n
  {
    if n > 0 {
      BitStepZero(a);
      StepsZero(BitStep(a), n - 1);
    }
  }

  // ----- one bit at a time

  function FirstBit(b: bool): Reg {
    [b] + Zeros(15)
  }

  function Feed(c: Reg, bits: Bits): Reg
    decreases |bits|
  {
    if bits == [] then c else Feed(BitStep(Xor(c, FirstBit(bits[0]))), bits[1..])
  }

  function Flat(msg: seq<Byte>): (r: Bits)
    ensures |r| == 8 * |msg|
  {
    if msg == [] then [] else Bits8(msg[0]) + Flat(msg[1..])
  }

  lemma {:induction false} BitsOfIs(v: nat, n: nat, i: nat)
    requires i < n
    ensures BitsOf(v, n)[i] == B.Bit(v, n - 1 - i)
  {
    if i < n - 1 {
      BitsOfIs(v / 2, n - 1, i);
    }
  }

  /** The bits of a message: byte after byte, in each the highest bit first. */
  lemma {:induction false} FlatIs(msg: seq<Byte>, i: nat, j: nat)
    requires i < |msg| && j < 8
    ensures 8 * i + j < |Flat(msg)| && Flat(msg)[8 * i + j] == B.Bit(msg[i], 7 - j)
    decreases |msg|
  {
    if i == 0 {
      BitsOfIs(msg[0], BYTE_BITS, j);
    } else {
      FlatIs(msg[1..], i - 1, j);
    }
  }

  lemma {:induction false} FeedConcat(c: Reg, a: Bits, b: Bits)
    ensures Feed(c, a + b) == Feed(Feed(c, a), b)
    decreases |a|
  {
    if a == [] {
      assert a + b == b;
    } else {
      assert (a + b)[1..] == a[1..] + b;
      FeedConcat(BitStep(Xor(c, FirstBit(a[0]))), a[1..], b);
    }
  }

  lemma TopAndLow(c: Reg, w: Bits, low: Reg)
    requires 0 < |w| <= REG_BITS && low == [false] + w[1..] + Zeros(REG_BITS - |w|)
    ensures Xor(c, w + Zeros(REG_BITS - |w|)) == Xor(Xor(c, FirstBit(w[0])), low)
  {
    var x, y := w + Zeros(REG_BITS - |w|), FirstBit(w[0]);
    forall i | 0 <= i < REG_BITS ensures Xor(c, x)[i] == Xor(Xor(c, y), low)[i] {
      assert x[i] == if i == 0 then w[0] else low[i];
    }
  }

  lemma LowMovesUp(w: Bits, low: Reg)
    requires 0 < |w| <= REG_BITS && low == [false] + w[1..] + Zeros(REG_BITS - |w|)
    ensures BitStep(low) == w[1..] + Zeros(REG_BITS - |w[1..]|)
  {
    assert !low[0] && Shift(low) == w[1..] + Zeros(REG_BITS - |w[1..]|);
  }

  lemma XorNothing(c: Reg)
    ensures Xor(c, Zeros(REG_BITS)) == c && Xor(Zeros(REG_BITS), c) == c && Xor(c, c) == Zeros(REG_BITS)
  {
  }

  /** Up to 16 bits fed one by one are one xor into the top of the register. */
  lemma {:induction false} FeedIsXor(c: Reg, w: Bits, x: Reg)
    requires |w| <= REG_BITS && x == Xor(c, w + Zeros(REG_BITS - |w|))
    ensures Feed(c, w) == Steps(x, |w|)
    decreases |w|
  {
    if w == [] {
      assert w + Zeros(REG_BITS) == Zeros(REG_BITS);
      XorNothing(c);
    } else {
      var top := Xor(c, FirstBit(w[0]));
      var low: Reg := [false] + w[1..] + Zeros(REG_BITS - |w|);
      TopAndLow(c, w, low);
      BitStepLinear(top, low);
      LowMovesUp(w, low);
      FeedIsXor(BitStep(top), w[1..], BitStep(x));
    }
  }

  lemma ByteIsFeed(c: Reg, b: Byte)
    ensures Update(c, b) == Feed(c, Bits8(b))
  {
    FeedIsXor(c, Bits8(b), Xor(c, HighByte(b)));
  }

  lemma {:induction false} CrcIsFeed(c: Reg, msg: seq<Byte>)
    ensures Crc(c, msg) == Feed(c, Flat(msg))
    decreases |msg|
  {
    if msg == [] {
      assert Flat(msg) == [];
    } else {
      ByteIsFeed(c, msg[0]);
      FeedConcat(c, Bits8(msg[0]), Flat(msg[1..]));
      CrcIsFeed(Update(c, msg[0]), msg[1..]);
    }
  }

  lemma {:induction false} FeedLinear(c: Reg, d: Reg, a: Bits, b: Bits)
    requires |a| == |b|
    ensures Feed(Xor(c, d), Xor(a, b)) == Xor(Feed(c, a), Feed(d, b))
    decreases |a|
  {
    if a != [] {
      var x, y := Xor(c, FirstBit(a[0])), Xor(d, FirstBit(b[0]));
      assert Xor(Xor(c, d), FirstBit(Xor(a, b)[0])) == Xor(x, y);
      BitStepLinear(x, y);
      assert Xor(a, b)[1..] == Xor(a[1..], b[1..]);
      FeedLinear(BitStep(x), BitStep(y), a[1..], b[1..]);
    }
  }

  lemma {:induction false} FeedZeros(c: Reg, n: nat)
    ensures Feed(c, Zeros(n)) == Zeros(REG_BITS) <==> c == Zeros(REG_BITS)
    decreases n
  {
    if n > 0 {
      assert Zeros(n)[1..] == Zeros(n - 1);
      assert Xor(c, FirstBit(false)) == c;
      BitStepZero(c);
      FeedZeros(BitStep(c), n - 1);
    }
  }

  lemma {:induction false} CrcConcat(c: Reg, a: seq<Byte>, b: seq<Byte>)
    ensures Crc(c, a + b) == Crc(Crc(c, a), b)
    decreases |a|
  {
    if a == [] {
      assert a + b == b;
    } else {
      assert (a + b)[1..] == a[1..] + b;
      CrcConcat(Update(c, a[0]), a[1..], b);
    }
  }

  lemma CrcSnoc(c: Reg, msg: seq<Byte>, b: Byte)
    ensures Crc(c, msg + [b]) == Update(Crc(c, msg), b)
  {
    CrcConcat(c, msg, [b]);
    assert Crc(Crc(c, msg), [b]) == Crc(Update(Crc(c, msg), b), []);
  }

  // ----- error detection

  /** At least one bit is set and all set bits lie within 16 consecutive ones. */
  ghost predicate Burst(e: Bits) {
    && (exists i :: 0 <= i < |e| && e[i])
    && (exists at: nat :: Within(e, at))
  }

  ghost predicate Within(e: Bits, at: nat) {
    at <= |e| && forall i :: 0 <= i < |e| && e[i] ==> at <= i < at + REG_BITS
  }

  lemma WindowLeavesResidue(w: Bits, i: nat)
    requires |w| <= REG_BITS && i < |w| && w[i]
    ensures Feed(Zeros(REG_BITS), w) != Zeros(REG_BITS)
  {
    var padded: Reg := w + Zeros(REG_BITS - |w|);
    assert padded[i];
    XorNothing(padded);
    FeedIsXor(Zeros(REG_BITS), w, padded);
    StepsZero(padded, |w|);
  }

  lemma WindowInZeros(before: nat, w: Bits, after: nat)
    ensures Feed(Zeros(REG_BITS), Zeros(before) + (w + Zeros(after))) == Zeros(REG_BITS)
       <==> Feed(Zeros(REG_BITS), w) == Zeros(REG_BITS)
  {
    var z: Reg := Zeros(REG_BITS);
    FeedConcat(z, Zeros(before), w + Zeros(after));
    FeedZeros(z, before);
    FeedConcat(z, w, Zeros(after));
    FeedZeros(Feed(z, w), after);
  }

  /** A burst is a short window between zeros. */
  lemma BurstWindow(e: Bits) returns (before: nat, w: Bits, after: nat, i: nat)
    requires Burst(e)
    ensures e == Zeros(before) + (w + Zeros(after)) && |w| <= REG_BITS && i < |w| && w[i]
  {
    before :| Within(e, before);
    var end := if before + REG_BITS <= |e| then before + REG_BITS else |e|;
    w, after := e[before..end], |e| - end;
    var k :| 0 <= k < |e| && e[k];
    i := k - before;
    assert w[i];
  }

  lemma BurstLeavesResidue(e: Bits)
    requires Burst(e)
    ensures Feed(Zeros(REG_BITS), e) != Zeros(REG_BITS)
  {
    var before, w, after, i := BurstWindow(e);
    WindowInZeros(before, w, after);
    WindowLeavesResidue(w, i);
  }

  /** For messages of any length, damage confined to 16 consecutive bits always
      changes the CRC. */
  lemma BurstIsDetected(sent: seq<Byte>, received: seq<Byte>)
    requires |sent| == |received| && Burst(Xor(Flat(sent), Flat(received)))
    ensures Crc(Zeros(REG_BITS), sent) != Crc(Zeros(REG_BITS), received)
  {
    var z: Reg := Zeros(REG_BITS);
    CrcIsFeed(z, sent);
    CrcIsFeed(z, received);
    XorNothing(z);
    FeedLinear(z, z, Flat(sent), Flat(received));
    BurstLeavesResidue(Xor(Flat(sent), Flat(received)));
    XorNothing(Crc(z, sent));
  }

  lemma {:induction false} FlatConcat(a: seq<Byte>, b: seq<Byte>)
    ensures Flat(a + b) == Flat(a) + Flat(b)
  {
    if a == [] {
      assert a + b == b;
    } else {
      assert (a + b)[1..] == a[1..] + b;
      FlatConcat(a[1..], b);
    }
  }

  /** `buf_crc` as the receiver assembles it, src/xmodem.c:173 and 176. */
  function Word(hi: Byte, lo: Byte): Reg {
    Bits8(hi) + Bits8(lo)
  }

  function NatOf(b: Bits): nat {
    if b == [] then 0 else 2 * NatOf(b[..|b| - 1]) + (if b[|b| - 1] then 1 else 0)
  }

  lemma {:induction false} BitsRoundTrip(b: Bits)
    ensures BitsOf(NatOf(b), |b|) == b && NatOf(b) < B.Pow2(|b|)
  {
    if b != [] {
      BitsRoundTrip(b[..|b| - 1]);
      assert b == b[..|b| - 1] + [b[|b| - 1]];
    }
  }

  function ByteOf(b: Bits): (r: Byte)
    requires |b| == 8
    ensures Bits8(r) == b
  {
    BitsRoundTrip(b);
    assert B.Pow2(8) == 2 * 2 * 2 * 2 * B.Pow2(4) == 256;
    NatOf(b)
  }

  lemma {:induction false} NatRoundTrip(v: nat, n: nat)
    requires v < B.Pow2(n)
    ensures NatOf(BitsOf(v, n)) == v
  {
    if n > 0 {
      NatRoundTrip(v / 2, n - 1);
      var b := BitsOf(v / 2, n - 1);
      assert (b + [v % 2 == 1])[..n - 1] == b;
    }
  }

  lemma ByteFromBits(a: Byte, b: Byte)
    requires Bits8(a) == Bits8(b)
    ensures a == b
  {
    assert B.Pow2(BYTE_BITS) == 256;
    NatRoundTrip(a, BYTE_BITS);
    NatRoundTrip(b, BYTE_BITS);
  }

  lemma {:induction false} FlatFromBits(a: seq<Byte>, b: seq<Byte>)
    requires |a| == |b| && Flat(a) == Flat(b)
    ensures a == b
    decreases |a|
  {
    if a == [] {
      assert b == [];
    } else {
      assert Flat(a)[..8] == Bits8(a[0]) && Flat(b)[..8] == Bits8(b[0]);
      assert Flat(a)[8..] == Flat(a[1..]) && Flat(b)[8..] == Flat(b[1..]);
      ByteFromBits(a[0], b[0]);
      FlatFromBits(a[1..], b[1..]);
    }
  }

  /** The two bytes that a sender appends. */
  function Trailer(c: Reg): seq<Byte> {
    [ByteOf(c[..8]), ByteOf(c[8..])]
  }

  lemma TrailerWord(c: Reg)
    ensures Word(Trailer(c)[0], Trailer(c)[1]) == c
  {
    assert c == c[..8] + c[8..];
  }

  lemma XorZero(a: Reg, b: Reg)
    ensures Xor(a, b) == Zeros(REG_BITS) <==> a == b
  {
    if Xor(a, b) == Zeros(REG_BITS) {
      forall i | 0 <= i < REG_BITS ensures a[i] == b[i] {
        assert !Xor(a, b)[i];
      }
    }
  }

  lemma FlatPair(hi: Byte, lo: Byte)
    ensures Flat([hi, lo]) == Word(hi, lo)
  {
    assert [hi, lo][1..] == [lo];
    assert Flat([lo]) == Bits8(lo) + Flat([]);
  }

  /** The trailer fed behind a register gives zero exactly when it is the register. */
  lemma WordFedBehind(c: Reg, w: Reg)
    ensures Feed(c, w) == Zeros(REG_BITS) <==> c == w
  {
    assert w + Zeros(0) == w;
    FeedIsXor(c, w, Xor(c, w));
    StepsZero(Xor(c, w), REG_BITS);
    XorZero(c, w);
  }

  /** The test at src/xmodem.c:183 accepts exactly when the CRC over payload and
      trailer together is zero. */
  lemma AcceptIsZeroResidue(payload: seq<Byte>, hi: Byte, lo: Byte)
    ensures Crc(Zeros(REG_BITS), payload) == Word(hi, lo)
       <==> Crc(Zeros(REG_BITS), payload + [hi, lo]) == Zeros(REG_BITS)
  {
    var z: Reg := Zeros(REG_BITS);
    CrcIsFeed(z, payload);
    CrcIsFeed(z, payload + [hi, lo]);
    FlatConcat(payload, [hi, lo]);
    FlatPair(hi, lo);
    FeedConcat(z, Flat(payload), Word(hi, lo));
    WordFedBehind(Crc(z, payload), Word(hi, lo));
  }

  /** A payload and trailer that pass the test no longer pass it after damage
      within 16 consecutive bits of the two together. */
  lemma DamagedFrameIsRefused(sent: seq<Byte>, received: seq<Byte>)
    requires |sent| == |received| && Burst(Xor(Flat(sent), Flat(received)))
    requires Crc(Zeros(REG_BITS), sent) == Zeros(REG_BITS)
    ensures Crc(Zeros(REG_BITS), received) != Zeros(REG_BITS)
  {
    BurstIsDetected(sent, received);
  }

  // ----- a burst that reaches over two parts

  lemma XorConcat(a: Bits, b: Bits, c: Bits, d: Bits)
    requires |a| == |c| && |b| == |d|
    ensures Xor(a + b, c + d) == Xor(a, c) + Xor(b, d)
  {
  }

  /** The part of a burst in the second part is a burst, if there is any. */
  lemma BurstBehind(e: Bits, f: Bits)
    requires Burst(e + f) && exists i :: 0 <= i < |f| && f[i]
    ensures Burst(f)
  {
    var at: nat :| Within(e + f, at);
    var from := if at >= |e| then at - |e| else 0;
    forall i | 0 <= i < |f| && f[i] ensures from <= i < from + REG_BITS {
      assert (e + f)[|e| + i];
    }
    assert Within(f, from);
  }

  lemma ChangedBits(a: seq<Byte>, b: seq<Byte>)
    requires |a| == |b| && a != b
    ensures exists i :: 0 <= i < |Flat(a)| && Xor(Flat(a), Flat(b))[i]
  {
    if forall i :: 0 <= i < |Flat(a)| ==> !Xor(Flat(a), Flat(b))[i] {
      forall i | 0 <= i < |Flat(a)| ensures Flat(a)[i] == Flat(b)[i] {
        assert !Xor(Flat(a), Flat(b))[i];
      }
      FlatFromBits(a, b);
    }
  }

  lemma XorOfParts(head: seq<Byte>, tail: seq<Byte>, head2: seq<Byte>, tail2: seq<Byte>)
    requires |head| == |head2| && |tail| == |tail2|
    ensures Xor(Flat(head + tail), Flat(head2 + tail2)) == Xor(Flat(head), Flat(head2)) + Xor(Flat(tail), Flat(tail2))
  {
    FlatConcat(head, tail);
    FlatConcat(head2, tail2);
    XorConcat(Flat(head), Flat(tail), Flat(head2), Flat(tail2));
  }

  /** Of two messages that differ in a burst, the tails differ in one if at all. */
  lemma BurstInTail(head: seq<Byte>, tail: seq<Byte>, head2: seq<Byte>, tail2: seq<Byte>)
    requires |head| == |head2| && |tail| == |tail2| && tail != tail2
    requires Burst(Xor(Flat(head + tail), Flat(head2 + tail2)))
    ensures Burst(Xor(Flat(tail), Flat(tail2)))
  {
    XorOfParts(head, tail, head2, tail2);
    ChangedBits(tail, tail2);
    BurstBehind(Xor(Flat(head), Flat(head2)), Xor(Flat(tail), Flat(tail2)));
  }

  lemma BurstInFront(e: Bits, f: Bits)
    requires |e| == REG_BITS && (exists i :: 0 <= i < |e| && e[i]) && f == Zeros(|f|)
    ensures Burst(e + f)
  {
    var i :| 0 <= i < |e| && e[i];
    assert (e + f)[i];
    assert Within(e + f, 0);
  }

  lemma XorSame(a: Bits)
    ensures Xor(a, a) == Zeros(|a|)
  {
  }

  /** A change of the first two bytes alone lies within 16 consecutive bits. */
  lemma HeadIsBurst(head: seq<Byte>, head2: seq<Byte>, tail: seq<Byte>)
    requires |head| == |head2| == 2 && head != head2
    ensures Burst(Xor(Flat(head + tail), Flat(head2 + tail)))
  {
    XorOfParts(head, tail, head2, tail);
    ChangedBits(head, head2);
    XorSame(Flat(tail));
    BurstInFront(Xor(Flat(head), Flat(head2)), Xor(Flat(tail), Flat(tail)));
  }
}
