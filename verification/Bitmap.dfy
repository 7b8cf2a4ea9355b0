/** Searching words and bitmaps for set bits: include/bitops.h on a 64-bit hart. */
module Bitmap {
  import opened Bits

  const BITS: nat := WORD_BITS
  const WORDS: nat := Pow2(BITS)

  ghost predicate NoBitBelow(x: nat, n: nat) {
    forall i: nat :: i < n ==> !Bit(x, i)
  }

  // ----- sbi_ffs

  /** One narrowing: num bits are known clear, and a set bit lies in the next width. */
  ghost predicate Narrowed(word: nat, x: nat, num: nat, width: nat) {
    x == ShiftRight(word, num) && NoBitBelow(word, num)
    && (word != 0 ==> exists i: nat :: i < width && Bit(x, i))
  }

  lemma MaskTest(x: nat, k: nat)
    requires x < WORDS
    ensures And(x, Pow2(k) - 1) == 0 <==> NoBitBelow(x, k)
  {
    var masked := And(x, Pow2(k) - 1);
    if masked == 0 {
      forall i: nat | i < k ensures !Bit(x, i) {
        AndIsBitwise(x, Pow2(k) - 1, i);
        LowMaskBits(k, i);
        ZeroHasNoBits(i);
      }
    } else {
      var i := SomeBit(masked, BITS);
      AndIsBitwise(x, Pow2(k) - 1, i);
      LowMaskBits(k, i);
    }
  }

  lemma {:induction false} ShiftsAdd(x: nat, i: nat, j: nat)
    ensures ShiftRight(ShiftRight(x, i), j) == ShiftRight(x, i + j)
    decreases j
  {
    if j > 0 {
      ShiftsAdd(x, i, j - 1);
    }
  }

  lemma {:induction false} ShiftedBelow(x: nat, k: nat)
    ensures ShiftRight(x, k) <= x
  {
    if k > 0 {
      ShiftedBelow(x, k - 1);
    }
  }

  lemma Narrow(word: nat, x: nat, num: nat, width: nat)
    requires word < WORDS && Narrowed(word, x, num, 2 * width)
    ensures if And(x, Pow2(width) - 1) == 0 then Narrowed(word, ShiftRight(x, width), num + width, width)
            else Narrowed(word, x, num, width)
  {
    ShiftedBelow(word, num);
    MaskTest(x, width);
    if And(x, Pow2(width) - 1) == 0 {
      ShiftsAdd(word, num, width);
      forall i: nat | i < num + width ensures !Bit(word, i) {
        if i >= num {
          ShiftedBit(word, num, i - num);
        }
      }
      if word != 0 {
        var i: nat :| i < 2 * width && Bit(x, i);
        ShiftedBit(x, width, i - width);
        assert Bit(ShiftRight(x, width), i - width);
      }
    }
  }

  method NarrowStep(ghost word: nat, x: nat, num: nat, width: nat) returns (y: nat, n: nat)
    requires word < WORDS && Narrowed(word, x, num, 2 * width)
    ensures Narrowed(word, y, n, width)
    ensures num <= n <= num + width && (x == 0 ==> y == 0 && n == num + width)
  {
    Narrow(word, x, num, width);
    ZeroShifted(width);
    if And(x, Pow2(width) - 1) == 0 {
      return ShiftRight(x, width), num + width;
    }
    return x, num;
  }

  lemma {:induction false} ZeroShifted(k: nat)
    ensures ShiftRight(0, k) == 0
  {
    if k > 0 {
      ZeroShifted(k - 1);
    }
  }

  /** sbi_ffs: the least set bit, and 63 for zero. */
  method Ffs(word: nat) returns (num: nat)
    requires word < WORDS
    ensures num < BITS && NoBitBelow(word, num)
    ensures if word == 0 then num == BITS - 1 else Bit(word, num)
  {
    StartNarrow(word);
    var x: nat := word;
    num := 0;
    x, num := NarrowStep(word, x, num, 32);
    x, num := NarrowStep(word, x, num, 16);
    x, num := NarrowStep(word, x, num, 8);
    x, num := NarrowStep(word, x, num, 4);
    x, num := NarrowStep(word, x, num, 2);
    Narrow(word, x, num, 1);
    assert Pow2(1) == 2 && And(x, 1) == x % 2;
    if And(x, 1) == 0 {
      num := num + 1;
    }
    if word != 0 {
      ShiftedBit(word, num, 0);
    }
  }

  lemma StartNarrow(word: nat)
    requires word < WORDS
    ensures Narrowed(word, word, 0, BITS)
  {
    if word != 0 {
      var i := SomeBit(word, BITS);
    }
  }

  // ----- sbi_fls

  /** word moved up by some bits: its top set bit lies among the top width bits of x. */
  ghost predicate Raised(word: nat, x: nat, up: nat, width: nat) {
    x == Shl(word, up) && x < WORDS && width <= BITS && up + width <= BITS
    && (word != 0 ==> x >= Pow2(BITS - width))
  }

  lemma {:induction false} ShlsAdd(x: nat, i: nat, j: nat)
    ensures Shl(Shl(x, i), j) == Shl(x, i + j)
    decreases j
  {
    if j > 0 {
      ShlsAdd(x, i, j - 1);
    }
  }

  lemma {:induction false} ShlBounds(x: nat, y: nat, n: nat, k: nat)
    requires x < Pow2(n) && y >= Pow2(n)
    ensures Shl(x, k) < Pow2(n + k) <= Shl(y, k)
  {
    if k > 0 {
      ShlBounds(x, y, n, k - 1);
    }
  }

  /** `!(word & (~0ul << k))`. */
  lemma HighTest(x: nat, k: nat)
    requires x < WORDS && k <= BITS
    ensures Pow2(k) <= WORDS && (And(x, WORDS - Pow2(k)) == 0 <==> x < Pow2(k))
  {
    HighMaskBits(BITS, k, 0);
    AndHighMask(x, BITS, k);
  }

  lemma {:induction false} AndHighMask(x: nat, n: nat, k: nat)
    requires x < Pow2(n) && k <= n && Pow2(k) <= Pow2(n)
    ensures And(x, Pow2(n) - Pow2(k)) == 0 <==> x < Pow2(k)
    decreases k
  {
    if k == 0 {
      AndLowMask(x, n);
      ModIs(x, Pow2(n), 0, x);
    } else {
      var m := Pow2(n - 1) - Pow2(k - 1);
      AndHighMask(x / 2, n - 1, k - 1);
      AndEvenMask(x, m);
    }
  }

  lemma AndEvenMask(x: nat, m: nat)
    ensures And(x, 2 * m) == 2 * And(x / 2, m)
  {
    assert 2 * m / 2 == m;
  }

  lemma Raise(word: nat, x: nat, up: nat, width: nat)
    requires Raised(word, x, up, 2 * width)
    ensures if x < Pow2(BITS - width) then Raised(word, Shl(x, width), up + width, width)
            else Raised(word, x, up, width)
  {
    if x < Pow2(BITS - width) {
      ShlsAdd(word, up, width);
      ShlBounds(x, Pow2(BITS - width), BITS - width, width);
      if word != 0 {
        ShlBounds(0, x, BITS - 2 * width, width);
      }
    }
  }

  method RaiseStep(ghost word: nat, x: nat, ghost up: nat, num: nat, width: nat)
      returns (y: nat, ghost u: nat, n: nat)
    requires Raised(word, x, up, 2 * width) && num == BITS - 1 - up
    ensures Raised(word, y, u, width) && n == BITS - 1 - u
    ensures x == 0 ==> y == 0 && u == up + width
  {
    HighTest(x, BITS - width);
    Raise(word, x, up, width);
    if And(x, WORDS - Pow2(BITS - width)) == 0 {
      ShlIsTimes(0, width);
      return Shl(x, width), up + width, num - width;
    }
    return x, up, num;
  }

  /** sbi_fls: the number of the top set bit, and 0 for zero. */
  method Fls(word: nat) returns (num: nat)
    requires word < WORDS
    ensures num < BITS && word < Pow2(num + 1)
    ensures if word == 0 then num == 0 else word >= Pow2(num)
  {
    ghost var up: nat := 0;
    var x: nat := word;
    num := BITS - 1;
    x, up, num := RaiseStep(word, x, up, num, 32);
    x, up, num := RaiseStep(word, x, up, num, 16);
    x, up, num := RaiseStep(word, x, up, num, 8);
    x, up, num := RaiseStep(word, x, up, num, 4);
    x, up, num := RaiseStep(word, x, up, num, 2);
    x, up, num := RaiseStep(word, x, up, num, 1);
    TopBit(word, x, up);
  }

  lemma TopBit(word: nat, x: nat, up: nat)
    requires Raised(word, x, up, 1)
    ensures word < Pow2(BITS - up) && (word != 0 ==> word >= Pow2(BITS - 1 - up))
  {
    if word >= Pow2(BITS - up) {
      ShlBounds(0, word, BITS - up, up);
    }
    if 0 < word < Pow2(BITS - 1 - up) {
      ShlBounds(word, Pow2(BITS - 1 - up), BITS - 1 - up, up);
    }
  }

  // ----- find_next_bit

  predicate BitAt(addr: seq<nat>, i: nat)
    requires i / BITS < |addr|
  {
    Bit(addr[i / BITS], i % BITS)
  }

  /** Bit i, and no bit beyond the words. */
  predicate Set(addr: seq<nat>, i: nat) {
    i / BITS < |addr| && BitAt(addr, i)
  }

  ghost predicate Words(addr: seq<nat>) {
    forall p :: 0 <= p < |addr| ==> addr[p] < WORDS
  }

  ghost predicate NoneSet(addr: seq<nat>, from: nat, to: nat) {
    forall i: nat :: from <= i < to ==> !Set(addr, i)
  }

  /** The answer a search from offset must give. */
  ghost predicate IsNext(addr: seq<nat>, size: nat, offset: nat, r: nat) {
    if offset >= size then r == size
    else offset <= r <= size && NoneSet(addr, offset, r) && (r < size ==> Set(addr, r))
  }

  /** Bits lo to hi of word p are clear: so are theirs of the map. */
  lemma WordClear(addr: seq<nat>, p: nat, lo: nat, hi: nat)
    requires p < |addr| && hi <= BITS
    requires forall i: nat :: lo <= i < hi ==> !Bit(addr[p], i)
    ensures NoneSet(addr, p * BITS + lo, p * BITS + hi)
  {
    forall i: nat | p * BITS + lo <= i < p * BITS + hi ensures !Set(addr, i) {
      assert i / BITS == p && i % BITS == i - p * BITS;
    }
  }

  lemma WordBit(addr: seq<nat>, p: nat, i: nat)
    requires p < |addr| && i < BITS
    ensures Set(addr, p * BITS + i) <==> Bit(addr[p], i)
  {
    assert (p * BITS + i) / BITS == p && (p * BITS + i) % BITS == i;
  }

  lemma ZeroIsClear(x: nat, n: nat)
    requires x == 0
    ensures NoBitBelow(x, n)
  {
    forall i: nat | i < n ensures !Bit(x, i) {
      ZeroHasNoBits(i);
    }
  }

  /** Line 224: tmp is word p with the bits outside [lo, hi) masked away. */
  ghost predicate Masked(tmp: nat, word: nat, lo: nat, hi: nat) {
    tmp < WORDS && hi <= BITS
    && forall i: nat :: Bit(tmp, i) <==> lo <= i < hi && Bit(word, i)
  }

  method FoundMiddle(addr: seq<nat>, p: nat, tmp: nat, lo: nat, ghost hi: nat) returns (r: nat)
    requires p < |addr| && Masked(tmp, addr[p], lo, hi) && tmp != 0
    ensures p * BITS + lo <= r < p * BITS + hi && Set(addr, r) && NoneSet(addr, p * BITS + lo, r)
  {
    var bit := Ffs(tmp);
    WordClear(addr, p, lo, bit);
    WordBit(addr, p, bit);
    return p * BITS + bit;
  }

  /** Lines 219-222. */
  method FoundFirst(addr: seq<nat>, p: nat, tmp: nat, lo: nat, size: nat) returns (r: nat)
    requires p < |addr| && Masked(tmp, addr[p], lo, BITS) && lo <= size < BITS
    ensures p * BITS + lo <= r <= p * BITS + size && NoneSet(addr, p * BITS + lo, r)
    ensures r < p * BITS + size ==> Set(addr, r)
  {
    var cut := And(tmp, Pow2(size) - 1);
    MaskLow(addr[p], tmp, cut, lo, size);
    if cut == 0 {
      MaskedZero(addr, p, cut, lo, size);
      return p * BITS + size;
    }
    r := FoundMiddle(addr, p, cut, lo, size);
  }

  lemma LowBit(x: nat, size: nat, i: nat)
    ensures Bit(And(x, Pow2(size) - 1), i) <==> i < size && Bit(x, i)
  {
    AndIsBitwise(x, Pow2(size) - 1, i);
    LowMaskBits(size, i);
  }

  lemma HighBit(x: nat, lo: nat, i: nat)
    requires lo <= BITS
    ensures Pow2(lo) <= WORDS && (Bit(And(x, WORDS - Pow2(lo)), i) <==> lo <= i < BITS && Bit(x, i))
  {
    HighMaskBits(BITS, lo, i);
    AndIsBitwise(x, WORDS - Pow2(lo), i);
  }

  lemma MaskLow(word: nat, tmp: nat, cut: nat, lo: nat, size: nat)
    requires Masked(tmp, word, lo, BITS) && size <= BITS && cut == And(tmp, Pow2(size) - 1)
    ensures Masked(cut, word, lo, size)
  {
    forall i: nat ensures Bit(cut, i) <==> lo <= i < size && Bit(word, i) {
      LowBit(tmp, size, i);
    }
  }

  lemma MaskHigh(word: nat, lo: nat, tmp: nat)
    requires word < WORDS && lo <= BITS && Pow2(lo) <= WORDS && tmp == And(word, WORDS - Pow2(lo))
    ensures Masked(tmp, word, lo, BITS)
  {
    forall i: nat ensures Bit(tmp, i) <==> lo <= i < BITS && Bit(word, i) {
      HighBit(word, lo, i);
    }
  }

  lemma MaskNone(word: nat)
    requires word < WORDS
    ensures Masked(word, word, 0, BITS)
  {
    forall i: nat | Bit(word, i) ensures i < BITS {
      BitsBelow(word, BITS, i);
    }
  }

  lemma {:induction false} BitsBelow(x: nat, n: nat, i: nat)
    requires x < Pow2(n) && Bit(x, i)
    ensures i < n
    decreases i
  {
    if n == 0 {
      ZeroHasNoBits(i);
    } else if i > 0 {
      BitsBelow(x / 2, n - 1, i - 1);
    }
  }

  lemma MaskedZero(addr: seq<nat>, p: nat, tmp: nat, lo: nat, hi: nat)
    requires p < |addr| && Masked(tmp, addr[p], lo, hi) && tmp == 0
    ensures NoneSet(addr, p * BITS + lo, p * BITS + hi)
  {
    forall i: nat | lo <= i < hi ensures !Bit(addr[p], i) {
      ZeroHasNoBits(i);
      assert !Bit(tmp, i);
    }
    WordClear(addr, p, lo, hi);
  }

  lemma NoneJoined(addr: seq<nat>, a: nat, b: nat, c: nat)
    requires NoneSet(addr, a, b) && NoneSet(addr, b, c)
    ensures NoneSet(addr, a, c)
  {
  }

  /** The whole words from line 209 on; result is the first bit of word p. */
  method FindFromWord(addr: seq<nat>, size0: nat, p0: nat, ghost offset: nat) returns (r: nat)
    requires Words(addr) && p0 * BITS + size0 <= |addr| * BITS && offset <= p0 * BITS
    requires NoneSet(addr, offset, p0 * BITS)
    ensures offset <= r <= p0 * BITS + size0 && NoneSet(addr, offset, r)
    ensures r < p0 * BITS + size0 ==> Set(addr, r)
  {
    var p: nat, size: nat := p0, size0;
    while size >= BITS
      invariant p0 <= p && p * BITS + size == p0 * BITS + size0 && NoneSet(addr, offset, p * BITS)
      decreases size
    {
      MaskNone(addr[p]);
      if addr[p] != 0 {
        r := FoundMiddle(addr, p, addr[p], 0, BITS);
        NoneJoined(addr, offset, p * BITS, r);
        return;
      }
      MaskedZero(addr, p, addr[p], 0, BITS);
      NoneJoined(addr, offset, p * BITS, p * BITS + BITS);
      p, size := p + 1, size - BITS;
    }
    if size == 0 {
      return p * BITS;
    }
    MaskNone(addr[p]);
    r := FoundFirst(addr, p, addr[p], 0, size);
    NoneJoined(addr, offset, p * BITS, r);
  }

  /** find_next_bit. */
  method FindNextBit(addr: seq<nat>, size: nat, offset: nat) returns (r: nat)
    requires Words(addr) && size <= |addr| * BITS
    ensures IsNext(addr, size, offset, r)
  {
    if offset >= size {
      return size;
    }
    var p, off := offset / BITS, offset % BITS;
    var left := size - p * BITS;
    if off == 0 {
      r := FindFromWord(addr, left, p, offset);
      return;
    }
    HighBit(addr[p], off, 0);
    var tmp := And(addr[p], WORDS - Pow2(off));
    MaskHigh(addr[p], off, tmp);
    if left < BITS {
      r := FoundFirst(addr, p, tmp, off, left);
    } else if tmp != 0 {
      r := FoundMiddle(addr, p, tmp, off, BITS);
    } else {
      MaskedZero(addr, p, tmp, off, BITS);
      r := FindFromWord(addr, left - BITS, p + 1, offset);
    }
  }

  // ----- the loops over set bits

  /** Exactly the set bits of [from, to), each once, in order. */
  ghost predicate Visits(visited: seq<nat>, addr: seq<nat>, from: nat, to: nat) {
    (forall j, k :: 0 <= j < k < |visited| ==> visited[j] < visited[k])
    && (forall i: nat :: i in visited <==> from <= i < to && Set(addr, i))
  }

  lemma NoVisit(visited: seq<nat>, addr: seq<nat>, from: nat, bit: nat, next: nat)
    requires Visits(visited, addr, from, bit) && NoneSet(addr, bit, next) && bit <= next
    ensures Visits(visited, addr, from, next)
  {
  }

  lemma OneVisit(visited: seq<nat>, addr: seq<nat>, from: nat, bit: nat)
    requires Visits(visited, addr, from, bit) && Set(addr, bit) && from <= bit
    ensures Visits(visited + [bit], addr, from, bit + 1)
  {
    forall j, k | 0 <= j < k < |visited| + 1 ensures (visited + [bit])[j] < (visited + [bit])[k] {
      assert visited[j] in visited;
    }
  }

  /** for_each_set_bit_from. */
  method ForEachSetBitFrom(addr: seq<nat>, size: nat, from: nat) returns (visited: seq<nat>)
    requires Words(addr) && size <= |addr| * BITS
    ensures Visits(visited, addr, from, size)
  {
    visited := [];
    var bit := FindNextBit(addr, size, from);
    while bit < size
      invariant bit < size ==> from <= bit && Set(addr, bit) && Visits(visited, addr, from, bit)
      invariant bit >= size ==> Visits(visited, addr, from, size)
      decreases size - bit
    {
      OneVisit(visited, addr, from, bit);
      visited := visited + [bit];
      var next := FindNextBit(addr, size, bit + 1);
      NoVisit(visited, addr, from, bit + 1, next);
      bit := next;
    }
  }

  /** Exactly the set bits of the word below `to`, each once, in order. */
  ghost predicate VisitsBits(visited: seq<nat>, word: nat, to: nat) {
    (forall j, k :: 0 <= j < k < |visited| ==> visited[j] < visited[k])
    && (forall i: nat :: i in visited <==> i < to && Bit(word, i))
  }

  lemma OneBit(visited: seq<nat>, word: nat, bit: nat)
    requires VisitsBits(visited, word, bit) && Bit(word, bit)
    ensures VisitsBits(visited + [bit], word, bit + 1)
  {
    var more := visited + [bit];
    forall j, k | 0 <= j < k < |more| ensures more[j] < more[k] {
      assert visited[j] in visited;
    }
    forall i: nat ensures i in more <==> i < bit + 1 && Bit(word, i) {
      assert i in more <==> i in visited || i == bit;
    }
  }

  lemma NoBit(visited: seq<nat>, word: nat, bit: nat, next: nat)
    requires VisitsBits(visited, word, bit) && bit <= next
    requires forall i: nat :: bit <= i < next ==> !Bit(word, i)
    ensures VisitsBits(visited, word, next)
  {
  }

  lemma AllVisited(visited: seq<nat>, word: nat, to: nat)
    requires word < WORDS && VisitsBits(visited, word, to) && to >= BITS
    ensures Visits(visited, [word], 0, BITS)
  {
    forall i: nat ensures i in visited <==> 0 <= i < BITS && Set([word], i) {
      if i < BITS {
        WordBit([word], 0, i);
      } else if Bit(word, i) {
        BitsBelow(word, BITS, i);
      }
    }
  }

  /** No top bit: the shifts of for_each_set_bit by bit + 1 are defined. */
  ghost predicate NoTop(word: nat) {
    word < WORDS && forall i: nat :: Bit(word, i) ==> i < BITS - 1
  }

  lemma BelowTop(word: nat)
    requires word < Pow2(BITS - 1)
    ensures NoTop(word)
  {
    PowersGrow(BITS - 1, BITS);
    forall i: nat | Bit(word, i) ensures i < BITS - 1 {
      BitsBelow(word, BITS - 1, i);
    }
  }

  /** The loop of for_each_set_bit before its test of tmp. */
  ghost predicate AtBit(word: nat, tmp: nat, bit: nat, visited: seq<nat>) {
    tmp < WORDS && VisitsBits(visited, word, bit)
    && if tmp == 0 then bit >= BITS || word == 0 else Bit(word, bit)
  }

  /** for_each_set_bit, whose shift by bit + 1 is defined below the top bit only. */
  method ForEachSetBit(word: nat) returns (visited: seq<nat>)
    requires word < Pow2(BITS - 1)
    ensures Visits(visited, [word], 0, BITS)
  {
    visited := [];
    BelowTop(word);
    var bit: nat := Ffs(word);
    var tmp: nat := word;
    while tmp != 0
      invariant AtBit(word, tmp, bit, visited)
      decreases if tmp != 0 then BITS - bit else 0
    {
      ghost var before := visited;
      visited := visited + [bit];
      tmp := ShiftRight(word, bit + 1);
      ShiftedBelow(word, bit + 1);
      var step := Ffs(tmp);
      StepAt(word, tmp, bit, step, before);
      bit := bit + (step + 1);
    }
    LastVisit(word, bit, visited);
  }

  lemma LastVisit(word: nat, bit: nat, visited: seq<nat>)
    requires word < WORDS && AtBit(word, 0, bit, visited)
    ensures Visits(visited, [word], 0, BITS)
  {
    if word == 0 {
      ZeroIsClear(word, BITS);
      forall i: nat ensures !Bit(word, i) {
        ZeroHasNoBits(i);
      }
      NoBit(visited, word, bit, if bit >= BITS then bit else BITS);
      AllVisited(visited, word, if bit >= BITS then bit else BITS);
    } else {
      AllVisited(visited, word, bit);
    }
  }

  /** The next value of bit skips clear bits only; with none left it runs past the end. */
  lemma StepAt(word: nat, tmp: nat, bit: nat, step: nat, visited: seq<nat>)
    requires NoTop(word) && Bit(word, bit) && VisitsBits(visited, word, bit)
    requires tmp == ShiftRight(word, bit + 1) && tmp < WORDS
    requires NoBitBelow(tmp, step) && (if tmp == 0 then step == BITS - 1 else Bit(tmp, step))
    ensures AtBit(word, tmp, bit + (step + 1), visited + [bit])
    ensures tmp != 0 ==> bit + (step + 1) < BITS
  {
    var next := bit + (step + 1);
    VisitsPast(word, tmp, bit, step, visited, next);
    NextBit(word, tmp, bit, step, next);
  }

  lemma VisitsPast(word: nat, tmp: nat, bit: nat, step: nat, visited: seq<nat>, next: nat)
    requires Bit(word, bit) && VisitsBits(visited, word, bit) && next == bit + (step + 1)
    requires tmp == ShiftRight(word, bit + 1) && NoBitBelow(tmp, step)
    ensures VisitsBits(visited + [bit], word, next)
  {
    OneBit(visited, word, bit);
    GapClear(word, tmp, bit, step);
    NoBit(visited + [bit], word, bit + 1, next);
  }

  lemma NextBit(word: nat, tmp: nat, bit: nat, step: nat, next: nat)
    requires NoTop(word) && tmp == ShiftRight(word, bit + 1) && next == bit + (step + 1)
    requires tmp != 0 ==> Bit(tmp, step)
    ensures tmp != 0 ==> Bit(word, next) && next < BITS
  {
    ShiftedBit(word, bit + 1, step);
  }

  lemma GapClear(word: nat, tmp: nat, bit: nat, step: nat)
    requires tmp == ShiftRight(word, bit + 1) && NoBitBelow(tmp, step)
    ensures forall i: nat :: bit + 1 <= i < bit + (step + 1) ==> !Bit(word, i)
  {
    forall i: nat | bit + 1 <= i < bit + (step + 1) ensures !Bit(word, i) {
      ShiftedBit(word, bit + 1, i - (bit + 1));
    }
  }

  // ----- when for_each_set_bit ends

  function LowestBit(x: nat): nat
    requires x > 0
  {
    if x % 2 == 1 then 0 else 1 + LowestBit(x / 2)
  }

  lemma {:induction false} LowestBitIsSet(x: nat)
    requires x > 0
    ensures Bit(x, LowestBit(x))
  {
    if x % 2 == 0 {
      LowestBitIsSet(x / 2);
    }
  }

  /** What sbi_ffs answers. */
  function FfsOf(x: nat): nat {
    if x == 0 then BITS - 1 else LowestBit(x)
  }

  /** The loop's bit and tmp after n turns.  C leaves a shift by 64 undefined; RV64
      compiles it to srl, which takes the low six bits of the amount. */
  function AfterTurns(word: nat, n: nat): (nat, nat) {
    if n == 0 then (FfsOf(word), word)
    else
      var bit := AfterTurns(word, n - 1).0;
      var tmp := ShiftRight(word, (bit + 1) % BITS);
      (bit + (FfsOf(tmp) + 1), tmp)
  }

  ghost predicate LoopEnds(word: nat) {
    exists n: nat :: AfterTurns(word, n).1 == 0
  }

  lemma {:induction false} TopBitSet(x: nat, n: nat)
    requires Pow2(n) <= x < Pow2(n + 1)
    ensures Bit(x, n)
  {
    if n == 0 {
      assert x == 1;
    } else {
      TopBitSet(x / 2, n - 1);
    }
  }

  /** With the top bit set no turn leaves tmp zero. */
  lemma NeverZero(word: nat, n: nat)
    requires Bit(word, BITS - 1)
    ensures AfterTurns(word, n).1 != 0
  {
    if n == 0 {
      if word == 0 {
        ZeroHasNoBits(BITS - 1);
      }
    } else {
      var s := (AfterTurns(word, n - 1).0 + 1) % BITS;
      ShiftedBit(word, s, BITS - 1 - s);
      ZeroHasNoBits(BITS - 1 - s);
    }
  }

  lemma OneTurn(word: nat, bit: nat, tmp: nat)
    requires NoTop(word) && Bit(word, bit) && tmp == ShiftRight(word, (bit + 1) % BITS) && tmp != 0
    ensures bit + (FfsOf(tmp) + 1) < BITS - 1 && Bit(word, bit + (FfsOf(tmp) + 1))
  {
    LowestBitIsSet(tmp);
    assert (bit + 1) % BITS == bit + 1;
    NextBit(word, tmp, bit, FfsOf(tmp), bit + (FfsOf(tmp) + 1));
  }

  /** Without it every turn goes on to a higher bit. */
  lemma {:induction false} TurnsClimb(word: nat, n: nat)
    requires NoTop(word) && forall i: nat :: i <= n ==> AfterTurns(word, i).1 != 0
    ensures n <= AfterTurns(word, n).0 < BITS - 1 && Bit(word, AfterTurns(word, n).0)
  {
    if n == 0 {
      LowestBitIsSet(word);
    } else {
      TurnsClimb(word, n - 1);
      OneTurn(word, AfterTurns(word, n - 1).0, AfterTurns(word, n).1);
    }
  }

  /** The loop ends exactly for words without their top bit. */
  lemma ForEachSetBitEnds(word: nat)
    requires word < WORDS
    ensures LoopEnds(word) <==> word < Pow2(BITS - 1)
  {
    if word < Pow2(BITS - 1) {
      BelowTop(word);
      if !LoopEnds(word) {
        TurnsClimb(word, BITS);
      }
    } else {
      TopBitSet(word, BITS - 1);
      forall n: nat ensures AfterTurns(word, n).1 != 0 {
        NeverZero(word, n);
      }
    }
  }
}
