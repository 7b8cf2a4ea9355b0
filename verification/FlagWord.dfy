/** The lock word of src/spinlock.c and the tests the code makes on it.  The
    word is written as its bytes, one per hart, because bitwise operators act
    on each byte alone. */
module FlagWord {
  import S = Szymanski

  const WORD_BYTES: nat := 8

  type Word = w: seq<bv8> | |w| == WORD_BYTES witness [0, 0, 0, 0, 0, 0, 0, 0]

  // One bit per state, lines 90-96.
  const ST0: bv8 := 1
  const ST1: bv8 := 2
  const ST2: bv8 := 4
  const ST3: bv8 := 8
  const ST4: bv8 := 16

  /** MK_ASP_MASK, line 87: v in every byte. */
  function Mask(v: bv8): Word {
    seq(WORD_BYTES, i => v)
  }

  function ShiftBytes(v: bv32, k: nat): bv32 {
    if k == 0 then v else ShiftBytes(v, k - 1) << 8
  }

  /** `v << self_bits` for a 32-bit int and self_bits == 8 * p.  RV64 compiles it
      to sllw, which takes the low five bits of the amount (section 5.2 of the
      RISC-V Unprivileged ISA): p % 4 bytes.  C leaves it undefined from hart 4 on. */
  function IntShift(v: bv32, p: nat): bv32 {
    ShiftBytes(v, p % 4)
  }

  /** An int as an unsigned long: four bytes, then copies of the sign. */
  function WordOf(x: bv32): Word {
    var sign: bv8 := if x >> 31 == 0 then 0 else 0xff;
    [(x & 0xff) as bv8, ((x >> 8) & 0xff) as bv8, ((x >> 16) & 0xff) as bv8, (x >> 24) as bv8,
     sign, sign, sign, sign]
  }

  /** Line 113: `~((1 << self_bits) - 1)`. */
  function HighMask(p: nat): Word {
    WordOf(!(IntShift(1, p) - 1))
  }

  /** Line 141: `(1 << self_bits) - 1`. */
  function LowMask(p: nat): Word {
    WordOf(IntShift(1, p) - 1)
  }

  /** Line 112: `0xff << self_bits`. */
  function SelfMask(p: nat): Word {
    WordOf(IntShift(0xff, p))
  }

  lemma Shifts(k: nat)
    requires k < 4
    ensures ShiftBytes(1, k) == if k == 0 then 1 else if k == 1 then 0x100 else if k == 2 then 0x1_0000 else 0x100_0000
    ensures k == 1 ==> ShiftBytes(0xff, k) == 0xff00
    ensures k == 2 ==> ShiftBytes(0xff, k) == 0xff_0000
    ensures k == 3 ==> ShiftBytes(0xff, k) == 0xff00_0000
  {
    if k == 2 {
      assert ShiftBytes(1, 1) == 0x100 && ShiftBytes(0xff, 1) == 0xff00;
    } else if k == 3 {
      assert ShiftBytes(1, 2) == 0x1_0000 && ShiftBytes(0xff, 2) == 0xff_0000;
    }
  }

  /** The masks of hart p split the word at byte p % 4, and not at byte p. */
  lemma MaskBytes(p: nat, i: nat)
    requires i < WORD_BYTES
    ensures HighMask(p)[i] == if i < p % 4 then 0 else 0xff
    ensures LowMask(p)[i] == if i < p % 4 then 0xff else 0
    ensures i < p % 4 ==> SelfMask(p)[i] == 0
  {
    Shifts(p % 4);
    match p % 4
    case 0 => Bytes0();
    case 1 => Bytes1();
    case 2 => Bytes2();
    case _ => Bytes3();
  }

  lemma Bytes0()
    ensures WordOf(0) == [0, 0, 0, 0, 0, 0, 0, 0]
    ensures WordOf(0xffff_ffff) == [0xff, 0xff, 0xff, 0xff, 0xff, 0xff, 0xff, 0xff]
  {
  }

  lemma Bytes1()
    ensures WordOf(0xff) == [0xff, 0, 0, 0, 0, 0, 0, 0]
    ensures WordOf(0xffff_ff00) == [0, 0xff, 0xff, 0xff, 0xff, 0xff, 0xff, 0xff]
    ensures WordOf(0xff00)[0] == 0
  {
  }

  lemma Bytes2()
    ensures WordOf(0xffff) == [0xff, 0xff, 0, 0, 0, 0, 0, 0]
    ensures WordOf(0xffff_0000) == [0, 0, 0xff, 0xff, 0xff, 0xff, 0xff, 0xff]
    ensures WordOf(0xff_0000)[0] == WordOf(0xff_0000)[1] == 0
  {
  }

  lemma Bytes3()
    ensures WordOf(0xff_ffff) == [0xff, 0xff, 0xff, 0, 0, 0, 0, 0]
    ensures WordOf(0xff00_0000) == [0, 0, 0, 0xff, 0xff, 0xff, 0xff, 0xff]
  {
  }

  function Or(a: Word, b: Word): Word {
    seq(WORD_BYTES, i requires 0 <= i < WORD_BYTES => a[i] | b[i])
  }

  function And(a: Word, b: Word): Word {
    seq(WORD_BYTES, i requires 0 <= i < WORD_BYTES => a[i] & b[i])
  }

  function Not(a: Word): Word {
    seq(WORD_BYTES, i requires 0 <= i < WORD_BYTES => !a[i])
  }

  predicate IsZero(a: Word) {
    forall i :: 0 <= i < WORD_BYTES ==> a[i] == 0
  }

  /** Where asp_wait_all_in stops, line 100. */
  predicate AllIn(w: Word, mask: Word) {
    IsZero(And(w, Not(mask)))
  }

  /** Where asp_wait_any_eq stops, line 105. */
  predicate AnyEq(w: Word, mask: Word) {
    !IsZero(And(w, mask))
  }

  // The waits of lines 121, 134 and 145 and the test of line 124, as written.

  predicate DoorOpen(w: Word) {
    AllIn(w, Mask(ST0 | ST1 | ST2))
  }

  predicate SomeoneAtDoor(w: Word) {
    AnyEq(w, Mask(ST1))
  }

  predicate LowerDone(w: Word, p: nat) {
    AllIn(w, Or(Or(Mask(ST0 | ST1), HighMask(p)), SelfMask(p)))
  }

  predicate HigherDone(w: Word, p: nat) {
    AllIn(w, Or(Mask(ST0 | ST1 | ST4), LowMask(p)))
  }

  /** The wait of line 129 with the mask its name and the header ask for. */
  predicate SomeoneClosed(w: Word) {
    AnyEq(w, Mask(ST4))
  }

  /** The wait of line 129 as it is written: ASP_ST4 without MK_ASP_MASK. */
  predicate FirstHartClosed(w: Word) {
    AnyEq(w, [ST4, 0, 0, 0, 0, 0, 0, 0])
  }

  /** The one-hot code of a flag value. */
  function Code(v: nat): bv8 {
    match v
    case 0 => ST0
    case 1 => ST1
    case 2 => ST2
    case 3 => ST3
    case _ => ST4
  }

  /** The word stands for documented flags.  A byte that its hart has not
      written yet is zero and not ASP_ST0. */
  predicate Encodes(w: Word, flag: seq<nat>) {
    && |flag| <= WORD_BYTES
    && (forall i :: 0 <= i < |flag| ==> flag[i] <= 4 && (w[i] == Code(flag[i]) || (flag[i] == 0 && w[i] == 0)))
    && (forall i :: |flag| <= i < WORD_BYTES ==> w[i] == 0)
  }

  lemma AllInByByte(w: Word, mask: Word)
    ensures AllIn(w, mask) <==> forall i :: 0 <= i < WORD_BYTES ==> w[i] & !mask[i] == 0
  {
    assert forall i :: 0 <= i < WORD_BYTES ==> And(w, Not(mask))[i] == w[i] & !mask[i];
  }

  lemma AnyEqByByte(w: Word, mask: Word)
    ensures AnyEq(w, mask) <==> exists i :: 0 <= i < WORD_BYTES && w[i] & mask[i] != 0
  {
    assert forall i :: 0 <= i < WORD_BYTES ==> And(w, mask)[i] == w[i] & mask[i];
  }

  /** Which codes each mask lets through. */
  lemma CodeTests(v: nat)
    requires v <= 4
    ensures Code(v) & !(ST0 | ST1 | ST2) == 0 <==> v in {0, 1, 2}
    ensures Code(v) & !(ST0 | ST1) == 0 <==> v in {0, 1}
    ensures Code(v) & !(ST0 | ST1 | ST4) == 0 <==> v in {0, 1, 4}
    ensures Code(v) & ST1 != 0 <==> v == 1
    ensures Code(v) & ST4 != 0 <==> v == 4
  {
  }

  /** The word tests that look at all harts decide the condition that the
      protocol states, for every state of the flags.  The last clause is the
      wait of line 129 as written: it looks at hart 0 alone. */
  lemma TestsDecideTheProtocol(w: Word, s: S.State)
    requires S.Shape(s) && Encodes(w, s.flag) && s.flag != []
    ensures DoorOpen(w) <==> S.AllIn(s, {0, 1, 2}, 0, |s.flag|)
    ensures SomeoneAtDoor(w) <==> S.AnyIs(s, 1)
    ensures SomeoneClosed(w) <==> S.AnyIs(s, 4)
    ensures FirstHartClosed(w) <==> s.flag[0] == 4
  {
    DoorTests(w, s);
    AnyEqByByte(w, [ST4, 0, 0, 0, 0, 0, 0, 0]);
    CodeTests(s.flag[0]);
  }

  lemma DoorTests(w: Word, s: S.State)
    requires S.Shape(s) && Encodes(w, s.flag)
    ensures DoorOpen(w) <==> S.AllIn(s, {0, 1, 2}, 0, |s.flag|)
    ensures SomeoneAtDoor(w) <==> S.AnyIs(s, 1)
    ensures SomeoneClosed(w) <==> S.AnyIs(s, 4)
  {
    AllInByByte(w, Mask(ST0 | ST1 | ST2));
    AnyEqByByte(w, Mask(ST1));
    AnyEqByByte(w, Mask(ST4));
    forall i: nat | i < |s.flag|
      ensures w[i] & !(ST0 | ST1 | ST2) == 0 <==> s.flag[i] in {0, 1, 2}
      ensures w[i] & ST1 != 0 <==> s.flag[i] == 1
      ensures w[i] & ST4 != 0 <==> s.flag[i] == 4
    {
      CodeTests(s.flag[i]);
    }
  }

  /** The tests of lines 134 and 145 look at the harts below and from p % 4 on. */
  lemma OrderTests(w: Word, s: S.State, p: nat)
    requires S.Shape(s) && Encodes(w, s.flag) && p < |s.flag|
    ensures LowerDone(w, p) <==> S.AllIn(s, {0, 1}, 0, p % 4)
    ensures HigherDone(w, p) <==> S.AllIn(s, {0, 1, 4}, p % 4, |s.flag|)
  {
    var lower := Or(Or(Mask(ST0 | ST1), HighMask(p)), SelfMask(p));
    var higher := Or(Mask(ST0 | ST1 | ST4), LowMask(p));
    AllInByByte(w, lower);
    AllInByByte(w, higher);
    forall i: nat | i < WORD_BYTES
      ensures w[i] & !lower[i] == 0 <==> i >= p % 4 || w[i] & !(ST0 | ST1) == 0
      ensures w[i] & !higher[i] == 0 <==> i < p % 4 || w[i] & !(ST0 | ST1 | ST4) == 0
    {
      MaskBytes(p, i);
    }
    forall i: nat | i < |s.flag|
      ensures w[i] & !(ST0 | ST1) == 0 <==> s.flag[i] in {0, 1}
      ensures w[i] & !(ST0 | ST1 | ST4) == 0 <==> s.flag[i] in {0, 1, 4}
    {
      CodeTests(s.flag[i]);
    }
  }

  /** Hart p's two ordered waits end when the protocol says so; while it waits
      at line 145 its own flag is 4. */
  ghost predicate InOrder(w: Word, s: S.State, p: nat)
    requires S.Shape(s) && p < |s.flag|
  {
    (LowerDone(w, p) <==> S.AllIn(s, {0, 1}, 0, p))
    && (s.flag[p] == 4 ==> (HigherDone(w, p) <==> S.AllIn(s, {0, 1, 4}, p + 1, |s.flag|)))
  }

  ghost predicate OrderedAsStated(p: nat) {
    forall w: Word, s: S.State :: S.Shape(s) && Encodes(w, s.flag) && p < |s.flag| ==> InOrder(w, s, p)
  }

  /** Hart p and nobody else with a flag, but hart q with flag v. */
  function TwoFlags(p: nat, q: nat, v: nat): S.State {
    S.State(seq(WORD_BYTES, i => if i == p then 4 else if i == q then v else 0),
            seq(WORD_BYTES, i => S.Out), seq(WORD_BYTES, i => 0))
  }

  function WordFor(s: S.State): Word
    requires |s.flag| == WORD_BYTES
  {
    seq(WORD_BYTES, i requires 0 <= i < WORD_BYTES => Code(s.flag[i]))
  }

  /** Hart 4 waits for nobody at line 134: it goes on while hart 0 has flag 4. */
  lemma FourthHartWaitsForNobody()
    ensures var s := TwoFlags(4, 0, 4);
            Encodes(WordFor(s), s.flag) && LowerDone(WordFor(s), 4) && !S.AllIn(s, {0, 1}, 0, 4)
  {
    var s := TwoFlags(4, 0, 4);
    OrderTests(WordFor(s), s, 4);
    assert s.flag[0] == 4;
  }

  lemma UpToThree(w: Word, s: S.State, p: nat)
    requires S.Shape(s) && Encodes(w, s.flag) && p < |s.flag| && p <= 3
    ensures InOrder(w, s, p)
  {
    OrderTests(w, s, p);
  }

  /** The ordered waits are those of the protocol up to hart 3 and for no other:
      the masks are shifted as ints. */
  lemma OrderedExactlyToThree(p: nat)
    requires p < WORD_BYTES
    ensures OrderedAsStated(p) <==> p <= 3
  {
    if p <= 3 {
      forall w: Word, s: S.State | S.Shape(s) && Encodes(w, s.flag) && p < |s.flag| ensures InOrder(w, s, p) {
        UpToThree(w, s, p);
      }
    } else {
      FromFourOn(p);
    }
  }

  /** From hart 4 on both waits fail: the first ends while a lower hart is
      inside, the second goes on for the sake of a lower hart. */
  lemma FromFourOn(p: nat)
    requires 4 <= p < WORD_BYTES
    ensures var s := TwoFlags(p, p % 4, 4);
      Encodes(WordFor(s), s.flag) && LowerDone(WordFor(s), p) && !S.AllIn(s, {0, 1}, 0, p)
    ensures var s := TwoFlags(p, p % 4, 3);
      Encodes(WordFor(s), s.flag) && s.flag[p] == 4
      && !HigherDone(WordFor(s), p) && S.AllIn(s, {0, 1, 4}, p + 1, |s.flag|)
    ensures !OrderedAsStated(p)
  {
    var s, t := TwoFlags(p, p % 4, 4), TwoFlags(p, p % 4, 3);
    OrderTests(WordFor(s), s, p);
    OrderTests(WordFor(t), t, p);
    assert s.flag[p % 4] == 4 && t.flag[p % 4] == 3;
    assert !InOrder(WordFor(s), s, p);
  }

  /** The byte store of lines 60-69 writes the flag of its hart and no other. */
  lemma StoreIsTheWrite(w: Word, flag: seq<nat>, p: nat, v: nat)
    requires Encodes(w, flag) && p < |flag| && v <= 4
    ensures Encodes(w[p := Code(v)], flag[p := v])
  {
  }
}
