/** The counters of the L3 cache monitor, src/l3_pmu.c:79-336: each counter
    exists once per bank, and an event is counted in the banks of its mask. */
module L3Pmu {
  import opened Bits
  import opened Bitmap

  const COUNTERS: nat := 4       // SCR_L3_PMU_COUNTERS
  const NOP: nat := 0            // SCR_L3_CACHE_NOP

  datatype Event = Event(ctrl: nat, mask: nat, banks: nat)

  /** An SBI return value. */
  datatype Ret = Ok(value: nat) | InvalidParam | NotSupported

  /** One register per bank and counter. */
  type Regs = seq<seq<nat>>

  ghost predicate Shaped(r: Regs, banks: nat) {
    |r| == banks && forall b :: 0 <= b < |r| ==> |r[b]| == COUNTERS
  }

  predicate Active(e: Event) {
    e.ctrl != NOP
  }

  /** __builtin_popcount of the bits below n. */
  function Count(mask: nat, n: nat): nat {
    if n == 0 then 0 else Count(mask, n - 1) + if Bit(mask, n - 1) then 1 else 0
  }

  /** Lines 121-136, before the sum is cut to 64 bits. */
  function Sum(r: Regs, mask: nat, cidx: nat, n: nat): nat
    requires n <= |r| && forall b :: 0 <= b < |r| ==> cidx < |r[b]|
  {
    if n == 0 then 0 else Sum(r, mask, cidx, n - 1) + if Bit(mask, n - 1) then r[n - 1][cidx] else 0
  }

  /** Counter cidx written in the banks of the mask below n, the rest as before. */
  ghost predicate Written(r: Regs, old_r: Regs, mask: nat, cidx: nat, val: nat, n: nat) {
    |r| == |old_r| && forall b :: 0 <= b < |r| ==>
      cidx < |old_r[b]| && r[b] == if b < n && Bit(mask, b) then old_r[b][cidx := val] else old_r[b]
  }

  class Pmu {
    const supported: nat         // supported_banks
    const codes: nat             // scr_l3_cache_events
    var events: seq<Event>
    var counters: Regs           // L3B_PCE_CNTR_N
    var selects: Regs            // L3B_PCE_CTRL_N
    var stops: seq<nat>          // L3C_PCE_CTRL_N

    ghost predicate Valid()
      reads this
    {
      1 <= supported <= 32 && |events| == COUNTERS && |stops| == COUNTERS
      && Shaped(counters, supported) && Shaped(selects, supported)
      && forall i :: 0 <= i < COUNTERS ==> Good(events[i], supported)
    }

    /** scr_fdt_l3_pmu_init. */
    constructor (banks: nat, codes: nat, counters: Regs, selects: Regs, stops: seq<nat>)
      requires 1 <= banks <= 32 && Shaped(counters, banks) && Shaped(selects, banks) && |stops| == COUNTERS
      ensures Valid() && forall i :: 0 <= i < COUNTERS ==> !Active(events[i])
    {
      this.supported, this.codes := banks, codes;
      this.counters, this.selects, this.stops := counters, selects, stops;
      events := seq(COUNTERS, _ => Event(NOP, 0, 0));
    }

    /** The loops of lines 97-108 and 138-151 over the set bits of a mask. */
    method WriteBanks(r: Regs, mask: nat, cidx: nat, val: nat) returns (w: Regs)
      requires Valid() && Shaped(r, supported) && mask < WORDS && cidx < COUNTERS
      ensures Shaped(w, supported) && Written(w, r, mask, cidx, val, supported)
    {
      w := r;
      SupportedFits(supported);
      var bank := FindNextBit([mask], supported, 0);
      BanksSkipped(mask, supported, 0, bank);
      while bank < supported
        invariant bank <= supported && Shaped(w, supported)
        invariant Written(w, r, mask, cidx, val, bank) && (bank < supported ==> Bit(mask, bank))
      {
        var row: seq<nat> := w[bank];
        row := row[cidx := val];
        w := w[bank := row];
        var next := FindNextBit([mask], supported, bank + 1);
        BanksSkipped(mask, supported, bank + 1, next);
        bank := next;
      }
    }

    /** sbi_l3_pmu_hw_ctr_read. */
    method Read(cidx: nat) returns (r: Ret)
      requires Valid()
      ensures r == if cidx < COUNTERS && Active(events[cidx])
                   then Ok(Sum(counters, events[cidx].mask, cidx, supported) % WORDS) else InvalidParam
    {
      if cidx >= COUNTERS || !Active(events[cidx]) {
        return InvalidParam;
      }
      MaskFits(events[cidx].mask, supported);
      var val := SumBanks(events[cidx].mask, cidx);
      return Ok(val);
    }

    /** The loop of lines 127-132; the sum is of 64 bits. */
    method SumBanks(mask: nat, cidx: nat) returns (val: nat)
      requires Valid() && mask < WORDS && cidx < COUNTERS
      ensures val == Sum(counters, mask, cidx, supported) % WORDS
    {
      var bank := FindNextBit([mask], supported, 0);
      SumSkips(counters, mask, cidx, supported, 0, bank);
      val := 0;
      CutZero();
      while bank < supported
        invariant bank <= supported && val == Sum(counters, mask, cidx, bank) % WORDS
        invariant bank < supported ==> Bit(mask, bank)
      {
        var next := FindNextBit([mask], supported, bank + 1);
        SumAdds(Sum(counters, mask, cidx, bank), counters[bank][cidx]);
        SumSkips(counters, mask, cidx, supported, bank + 1, next);
        val := (val + counters[bank][cidx]) % WORDS;
        bank := next;
      }
    }

    /** sbi_l3_pmu_ctr_cfg_match, with the fields of event_idx, data1 and flags. */
    method CfgMatch(ctrMask: nat, skip: bool, clear: bool, autoStart: bool, code: nat, banksMask: nat) returns (r: Ret)
      requires Valid() && ctrMask < WORDS && banksMask < 256
      modifies this`events, this`counters, this`selects
      ensures Valid() && Answers(old(events), supported, codes, ctrMask, skip, code, banksMask, r)
      ensures banksMask == 0 ==> r == InvalidParam
      ensures banksMask != 0 && (code >= codes || code == NOP) ==> r == NotSupported
      ensures r.Ok? ==> r.value < COUNTERS
      ensures r.Ok? && skip ==> IsLowest(ctrMask, r.value) && Active(old(events)[r.value])
      ensures r.Ok? && !skip ==> ctrMask < Pow2(COUNTERS) && FirstFree(old(events), r.value)
      ensures if r.Ok? && !skip
              then IsEvent(events[r.value], code, banksMask, supported)
                   && events == old(events)[r.value := events[r.value]]
              else events == old(events)
      ensures if r.Ok? && clear then Written(counters, old(counters), 0xFFFF_FFFF, r.value, 0, supported)
              else counters == old(counters)
      ensures if r.Ok? && autoStart then Written(selects, old(selects), banksMask, r.value, code, supported)
              else selects == old(selects)
    {
      Small(banksMask);
      if banksMask == 0 {
        return InvalidParam;
      }
      if code >= codes || code == NOP {
        return NotSupported;
      }
      r := ChooseCounter(ctrMask, skip);
      if !r.Ok? {
        return;
      }
      var mask := banksMask;
      if !skip {
        var banks;
        mask, banks := TakeCounter(r.value, code, banksMask);
        if banks == 0 {
          return InvalidParam;
        }
      }
      ClearAndStart(r.value, mask, clear, autoStart, code);
      if autoStart {
        SameBanks(selects, old(selects), mask, banksMask, r.value, code, supported);
      }
    }

    /** Lines 232-241. */
    method TakeCounter(i: nat, code: nat, banksMask: nat) returns (mask: nat, banks: nat)
      requires Valid() && i < COUNTERS && banksMask < 256
      modifies this`events
      ensures Valid() && mask < WORDS && InBanks(mask, banksMask, supported)
      ensures banks == 0 <==> NoBank(banksMask, supported)
      ensures if banks == 0 then events == old(events)
              else IsEvent(events[i], code, banksMask, supported) && events == old(events)[i := events[i]]
    {
      mask := And(banksMask, Pow2(supported) - 1);
      banks := Count(mask, BITS);
      MaskedGood(banksMask, supported);
      CountZero(mask, BITS);
      BanksLeft(mask, banksMask, supported);
      if banks != 0 {
        events := events[i := Event(code, mask, banks)];
      }
    }

    /** Lines 244-248. */
    method ClearAndStart(i: nat, mask: nat, clear: bool, autoStart: bool, code: nat)
      requires Valid() && i < COUNTERS && mask < WORDS
      modifies this`counters, this`selects
      ensures Valid()
      ensures if clear then Written(counters, old(counters), 0xFFFF_FFFF, i, 0, supported)
              else counters == old(counters)
      ensures if autoStart then Written(selects, old(selects), mask, i, code, supported)
              else selects == old(selects)
    {
      if clear {
        AllBanks();
        counters := WriteBanks(counters, 0xFFFF_FFFF, i, 0);
      }
      if autoStart {
        selects := WriteBanks(selects, mask, i, code);
      }
    }

    /** Lines 208-230. */
    method ChooseCounter(ctrMask: nat, skip: bool) returns (r: Ret)
      requires Valid() && ctrMask < WORDS
      ensures r.Ok? ==> r.value < COUNTERS
      ensures if skip then Named(events, ctrMask, r) else Free(events, ctrMask, r)
    {
      if skip {
        var idx := Ffs(ctrMask);
        LowestIs(ctrMask, idx);
        if idx >= COUNTERS || !Active(events[idx]) {
          return InvalidParam;
        }
        return Ok(idx);
      }
      var top := Fls(ctrMask);
      if top >= COUNTERS {
        TopAbove(ctrMask, top);
        return NotSupported;
      }
      TopBelow(ctrMask, top);
      var idx := 0;
      while idx < COUNTERS && Active(events[idx])
        invariant idx <= COUNTERS && forall j :: 0 <= j < idx ==> Active(events[j])
      {
        idx := idx + 1;
      }
      return if idx < COUNTERS then Ok(idx) else NotSupported;
    }

    /** sbi_l3_pmu_ctr_start; ctrMask is `cmask << cbase`, so its bits start at cbase. */
    method Start(cbase: nat, ctrMask: nat, update: bool, init: nat) returns (r: Ret)
      requires Valid() && ctrMask < WORDS && NoBitBelow(ctrMask, cbase)
      modifies this`counters, this`selects
      ensures Valid()
      ensures r == if ctrMask < Pow2(COUNTERS) && exists i: nat :: Picked(events, ctrMask, i) then Ok(0)
                   else InvalidParam
      ensures !r.Ok? ==> counters == old(counters) && selects == old(selects)
      ensures r.Ok? ==>
        Started(counters, selects, old(counters), old(selects), events, ctrMask, update, init, COUNTERS)
    {
      var top := Fls(ctrMask);
      if top >= COUNTERS {
        TopAbove(ctrMask, top);
        return InvalidParam;
      }
      TopBelow(ctrMask, top);
      r := StartAll(cbase, ctrMask, update, init);
    }

    /** The loop of lines 280-299. */
    method StartAll(cbase: nat, ctrMask: nat, update: bool, init: nat) returns (r: Ret)
      requires Valid() && ctrMask < WORDS && NoBitBelow(ctrMask, cbase)
      modifies this`counters, this`selects
      ensures Valid()
      ensures r == if exists i: nat :: Picked(events, ctrMask, i) then Ok(0) else InvalidParam
      ensures !r.Ok? ==> counters == old(counters) && selects == old(selects)
      ensures Started(counters, selects, old(counters), old(selects), events, ctrMask, update, init, COUNTERS)
    {
      r := InvalidParam;
      ghost var was, chose := counters, selects;
      var i := FindNextBit([ctrMask], COUNTERS, cbase);
      NextChosen(ctrMask, cbase, i);
      StartedNone(was, chose, events, supported, ctrMask, update, init, i);
      while i < COUNTERS
        invariant Valid() && i <= COUNTERS && (i < COUNTERS ==> Bit(ctrMask, i))
        invariant Tally(events, ctrMask, i, r)
        invariant Started(counters, selects, was, chose, events, ctrMask, update, init, i)
      {
        r := TryStart(was, chose, ctrMask, i, update, init, r);
        i := NextCounter(was, chose, ctrMask, i, update, init, r);
      }
      StartedNothing(counters, selects, was, chose, events, ctrMask, update, init);
    }

    /** Lines 284-298: a counter without an event is passed over. */
    method TryStart(ghost was: Regs, ghost chose: Regs, ghost ctrMask: nat, i: nat, update: bool, init: nat, r0: Ret)
        returns (r: Ret)
      requires Valid() && i < COUNTERS && Bit(ctrMask, i) && Tally(events, ctrMask, i, r0)
      requires Started(counters, selects, was, chose, events, ctrMask, update, init, i)
      modifies this`counters, this`selects
      ensures Valid() && Tally(events, ctrMask, i + 1, r)
      ensures Started(counters, selects, was, chose, events, ctrMask, update, init, i + 1)
    {
      r := r0;
      if Active(events[i]) {
        StartOne(was, chose, ctrMask, i, update, init);
        r := Ok(0);
      } else {
        StartedSkip(counters, selects, was, chose, events, ctrMask, update, init, i, i + 1);
      }
      TallyOne(events, ctrMask, i, r);
    }

    /** On to the next counter of the mask. */
    method NextCounter(ghost was: Regs, ghost chose: Regs, ctrMask: nat, i: nat, ghost update: bool, ghost init: nat,
                       ghost r: Ret)
        returns (next: nat)
      requires Valid() && ctrMask < WORDS && i < COUNTERS
      requires Tally(events, ctrMask, i + 1, r)
      requires Started(counters, selects, was, chose, events, ctrMask, update, init, i + 1)
      ensures i < next <= COUNTERS && (next < COUNTERS ==> Bit(ctrMask, next))
      ensures Tally(events, ctrMask, next, r)
      ensures Started(counters, selects, was, chose, events, ctrMask, update, init, next)
    {
      next := FindNextBit([ctrMask], COUNTERS, i + 1);
      NextChosen(ctrMask, i + 1, next);
      StartedSkip(counters, selects, was, chose, events, ctrMask, update, init, i + 1, next);
    }

    /** Counter i is started; all below it are done. */
    method StartOne(ghost was: Regs, ghost chose: Regs, ghost ctrMask: nat, i: nat, update: bool, init: nat)
      requires Valid() && Picked(events, ctrMask, i) && i < COUNTERS
      requires Started(counters, selects, was, chose, events, ctrMask, update, init, i)
      modifies this`counters, this`selects
      ensures Valid()
      ensures Started(counters, selects, was, chose, events, ctrMask, update, init, i + 1)
    {
      ghost var c0, s0 := counters, selects;
      WriteOne(i, events[i], update, init);
      StartedMore(c0, s0, counters, selects, was, chose, events, supported, ctrMask, update, init, i);
    }

    /** scr_l3_pmu_ctr_start_hw with the event's share of the value. */
    method WriteOne(i: nat, e: Event, update: bool, init: nat)
      requires Valid() && i < COUNTERS && Active(e) && Good(e, supported)
      modifies this`counters, this`selects
      ensures Valid()
      ensures if update then Written(counters, old(counters), e.mask, i, init / e.banks, supported)
              else counters == old(counters)
      ensures Written(selects, old(selects), e.mask, i, e.ctrl, supported)
    {
      MaskFits(e.mask, supported);
      if update {
        counters := WriteBanks(counters, e.mask, i, init / e.banks);
      }
      selects := WriteBanks(selects, e.mask, i, e.ctrl);
    }

    /** sbi_l3_pmu_ctr_stop. */
    method Stop(cbase: nat, ctrMask: nat, reset: bool) returns (r: Ret)
      requires Valid() && ctrMask < WORDS && NoBitBelow(ctrMask, cbase)
      modifies this`events, this`stops
      ensures Valid()
      ensures r == if ctrMask < Pow2(COUNTERS) then Ok(0) else InvalidParam
      ensures Step(old(events), if r.Ok? && reset then Reset(ctrMask) else Other, supported, events)
      ensures forall i: nat :: i < COUNTERS ==>
        events[i] == (if r.Ok? && reset && Picked(old(events), ctrMask, i) then old(events)[i].(ctrl := NOP)
                      else old(events)[i])
        && stops[i] == if r.Ok? && Picked(old(events), ctrMask, i) then NOP else old(stops)[i]
    {
      var top := Fls(ctrMask);
      if top >= COUNTERS {
        TopAbove(ctrMask, top);
        return InvalidParam;
      }
      TopBelow(ctrMask, top);
      ghost var was, wrote := events, stops;
      var i := FindNextBit([ctrMask], COUNTERS, cbase);
      NextChosen(ctrMask, cbase, i);
      while i < COUNTERS
        invariant Valid() && i <= COUNTERS && (i < COUNTERS ==> Bit(ctrMask, i))
        invariant forall j: nat :: j < COUNTERS ==>
          events[j] == (if j < i && reset && Bit(ctrMask, j) && Active(was[j]) then was[j].(ctrl := NOP) else was[j])
          && stops[j] == if j < i && Bit(ctrMask, j) && Active(was[j]) then NOP else wrote[j]
      {
        if Active(events[i]) {
          if reset {
            events := events[i := events[i].(ctrl := NOP)];
          }
          stops := stops[i := NOP];
        }
        var next := FindNextBit([ctrMask], COUNTERS, i + 1);
        NextChosen(ctrMask, i + 1, next);
        i := next;
      }
      return Ok(0);
    }
  }

  /** What every call keeps: an active event counts in at least one supported bank. */
  ghost predicate Good(e: Event, supported: nat) {
    Active(e) ==> e.mask < Pow2(supported) && e.banks == Count(e.mask, BITS) && e.banks >= 1
  }

  /** The banks of the mask are those asked for that the device has. */
  ghost predicate InBanks(mask: nat, banksMask: nat, supported: nat) {
    forall b: nat :: Bit(mask, b) <==> b < supported && Bit(banksMask, b)
  }

  /** The device has none of the banks asked for. */
  ghost predicate NoBank(banksMask: nat, supported: nat) {
    forall b: nat :: b < supported ==> !Bit(banksMask, b)
  }

  /** The event of this code, in those of the banks asked for that the device has. */
  ghost predicate IsEvent(e: Event, code: nat, banksMask: nat, supported: nat) {
    e.ctrl == code && InBanks(e.mask, banksMask, supported)
    && e.mask < Pow2(supported) && e.banks == Count(e.mask, BITS)
  }

  ghost predicate IsLowest(mask: nat, i: nat) {
    Bit(mask, i) && NoBitBelow(mask, i)
  }

  /** The answer of the match call, case by case. */
  ghost predicate Answers(es: seq<Event>, supported: nat, codes: nat, ctrMask: nat, skip: bool, code: nat,
                          banksMask: nat, r: Ret)
    requires |es| == COUNTERS
  {
    if banksMask == 0 then r == InvalidParam
    else if code >= codes || code == NOP then r == NotSupported
    else if skip then Named(es, ctrMask, r)
    else if (exists i: nat :: FirstFree(es, i)) && ctrMask < Pow2(COUNTERS)
      && NoBank(banksMask, supported) then r == InvalidParam
    else Free(es, ctrMask, r)
  }

  /** With the skip flag: the first counter of the mask, if it has an event. */
  ghost predicate Named(es: seq<Event>, ctrMask: nat, r: Ret)
    requires |es| == COUNTERS
  {
    if r.Ok? then r.value < COUNTERS && IsLowest(ctrMask, r.value) && Active(es[r.value])
    else r == InvalidParam && forall i: nat :: i < COUNTERS && IsLowest(ctrMask, i) ==> !Active(es[i])
  }

  /** Without it: the first free counter, whatever the mask, if the mask names no others. */
  ghost predicate Free(es: seq<Event>, ctrMask: nat, r: Ret)
    requires |es| == COUNTERS
  {
    if ctrMask >= Pow2(COUNTERS) || (forall i :: 0 <= i < COUNTERS ==> Active(es[i])) then r == NotSupported
    else r.Ok? && FirstFree(es, r.value)
  }

  ghost predicate FirstFree(es: seq<Event>, i: nat) {
    i < |es| && !Active(es[i]) && forall j :: 0 <= j < i ==> Active(es[j])
  }

  // ----- masks

  /** The answer of sbi_ffs is the one lowest bit; for zero it is no counter. */
  lemma LowestIs(mask: nat, idx: nat)
    requires NoBitBelow(mask, idx) && if mask == 0 then idx == BITS - 1 else Bit(mask, idx)
    ensures idx < COUNTERS ==> IsLowest(mask, idx)
    ensures forall i: nat :: i < COUNTERS && IsLowest(mask, i) ==> i == idx
  {
    forall i: nat | i < COUNTERS && IsLowest(mask, i) ensures i == idx {
      if mask == 0 {
        ZeroHasNoBits(i);
      }
    }
  }

  lemma SupportedFits(supported: nat)
    requires supported <= 32
    ensures Pow2(supported) < WORDS && Pow2(supported) < 0x1_0000_0001
  {
    PowersGrow(supported, BITS);
    var half := 32;
    Power32();
    if supported < half {
      PowersGrow(supported, half);
    }
  }

  lemma Power32()
    ensures Pow2(32) == 0x1_0000_0000
  {
    var eight := 8;
    assert Pow2(eight) == 256;
    PowersAdd(eight, eight);
    PowersAdd(2 * eight, 2 * eight);
  }

  lemma MaskFits(mask: nat, supported: nat)
    requires supported <= 32 && mask < Pow2(supported)
    ensures mask < WORDS
  {
    SupportedFits(supported);
  }

  lemma Small(mask: nat)
    requires mask < 256
    ensures mask < WORDS
  {
    var eight := 8;
    assert Pow2(eight) == 256;
    PowersGrow(eight, BITS);
  }

  lemma AllBanks()
    ensures 0xFFFF_FFFF < WORDS
  {
    SupportedFits(32);
    Power32();
  }

  lemma TopBelow(x: nat, top: nat)
    requires x < Pow2(top + 1) && top < COUNTERS
    ensures x < Pow2(COUNTERS)
  {
    if top + 1 < COUNTERS {
      PowersGrow(top + 1, COUNTERS);
    }
  }

  lemma MaskedGood(banksMask: nat, supported: nat)
    requires supported <= 32 && banksMask < 256
    ensures var mask := And(banksMask, Pow2(supported) - 1);
            mask < Pow2(supported) && mask < WORDS && InBanks(mask, banksMask, supported)
  {
    SupportedFits(supported);
    MaskedBits(banksMask, supported, And(banksMask, Pow2(supported) - 1));
  }

  lemma MaskedBits(banksMask: nat, supported: nat, mask: nat)
    requires mask == And(banksMask, Pow2(supported) - 1)
    ensures InBanks(mask, banksMask, supported)
  {
    forall b: nat ensures Bit(mask, b) <==> b < supported && Bit(banksMask, b) {
      AndIsBitwise(banksMask, Pow2(supported) - 1, b);
      LowMaskBits(supported, b);
    }
  }

  lemma OneBankMore(mask: nat, n: nat)
    requires n > 0
    ensures NoBank(mask, n) <==> NoBank(mask, n - 1) && !Bit(mask, n - 1)
  {
    if NoBank(mask, n - 1) && !Bit(mask, n - 1) {
      forall b: nat | b < n ensures !Bit(mask, b) {
        if b < n - 1 {
          assert !Bit(mask, b);
        }
      }
    }
  }

  lemma {:induction false} CountZero(mask: nat, n: nat)
    ensures Count(mask, n) == 0 <==> NoBank(mask, n)
  {
    if n > 0 {
      CountZero(mask, n - 1);
      OneBankMore(mask, n);
    }
  }

  lemma BanksLeft(mask: nat, banksMask: nat, supported: nat)
    requires supported <= BITS && InBanks(mask, banksMask, supported)
    ensures NoBank(banksMask, supported) <==> NoBank(mask, BITS)
  {
    if NoBank(mask, BITS) {
      forall b: nat | b < supported ensures !Bit(banksMask, b) {
        assert !Bit(mask, b);
      }
    }
  }

  /** Only the banks that the device has matter. */
  lemma SameBanks(r: Regs, old_r: Regs, mask: nat, banksMask: nat, cidx: nat, val: nat, n: nat)
    requires mask == banksMask || InBanks(mask, banksMask, n)
    requires Written(r, old_r, mask, cidx, val, n) && |r| == n
    ensures Written(r, old_r, banksMask, cidx, val, n)
  {
    forall b: nat | b < n ensures Bit(mask, b) <==> Bit(banksMask, b) {
    }
  }

  lemma BanksSkipped(mask: nat, supported: nat, from: nat, bank: nat)
    requires supported <= BITS && IsNext([mask], supported, from, bank) && from <= supported
    ensures from <= bank <= supported && (bank < supported ==> Bit(mask, bank))
    ensures forall b: nat :: from <= b < bank ==> !Bit(mask, b)
  {
    if bank < supported {
      WordBit([mask], 0, bank);
    }
    forall b: nat | from <= b < bank ensures !Bit(mask, b) {
      WordBit([mask], 0, b);
    }
  }

  lemma {:induction false} SumOver(r: Regs, mask: nat, cidx: nat, from: nat, to: nat)
    requires from <= to <= |r| && (forall b :: 0 <= b < |r| ==> cidx < |r[b]|)
    requires forall b: nat :: from <= b < to ==> !Bit(mask, b)
    ensures Sum(r, mask, cidx, to) == Sum(r, mask, cidx, from)
  {
    if from < to {
      SumOver(r, mask, cidx, from, to - 1);
    }
  }

  lemma SumSkips(r: Regs, mask: nat, cidx: nat, supported: nat, from: nat, next: nat)
    requires Shaped(r, supported) && supported <= BITS && cidx < COUNTERS && from <= supported
    requires IsNext([mask], supported, from, next)
    ensures from <= next <= supported && (next < supported ==> Bit(mask, next))
    ensures Sum(r, mask, cidx, next) == Sum(r, mask, cidx, from)
  {
    BanksSkipped(mask, supported, from, next);
    SumOver(r, mask, cidx, from, next);
  }

  lemma CutZero()
    ensures 0 % WORDS == 0
  {
  }

  lemma SumAdds(s: nat, x: nat)
    ensures (s % WORDS + x) % WORDS == (s + x) % WORDS
  {
    AddCut(s, x, WORDS);
  }

  lemma AddCut(s: nat, x: nat, m: nat)
    requires m > 0
    ensures (s % m + x) % m == (s + x) % m
  {
    var q, y := s / m, s % m + x;
    var p, z := y / m, y % m;
    assert s == q * m + s % m && y == p * m + z;
    assert (q + p) * m == q * m + p * m;
    ModIs(s + x, m, q + p, z);
  }

  lemma TopAbove(x: nat, top: nat)
    requires (if x == 0 then top == 0 else x >= Pow2(top)) && top >= COUNTERS
    ensures x >= Pow2(COUNTERS)
  {
    if top > COUNTERS {
      PowersGrow(COUNTERS, top);
    }
  }

  /** The scan from a bit below which there is nothing, or after one already seen. */
  lemma NextChosen(ctrMask: nat, from: nat, i: nat)
    requires IsNext([ctrMask], COUNTERS, from, i)
    ensures i <= COUNTERS && (i < COUNTERS ==> Bit(ctrMask, i))
    ensures forall j: nat :: from <= j < i ==> !Bit(ctrMask, j)
  {
    if i < COUNTERS {
      WordBit([ctrMask], 0, i);
    }
    forall j: nat | from <= j < i ensures !Bit(ctrMask, j) {
      WordBit([ctrMask], 0, j);
    }
  }

  // ----- what a start call writes

  /** Counter i of a start or stop call: in its mask, and with an event. */
  predicate Picked(events: seq<Event>, ctrMask: nat, i: nat) {
    i < |events| && Bit(ctrMask, i) && Active(events[i])
  }

  /** A value per bank and counter below n that is picked, the old one elsewhere. */
  ghost predicate PickedAre(now: Regs, was: Regs, events: seq<Event>, ctrMask: nat, val: Event -> nat, n: nat) {
    |now| == |was| && |events| == COUNTERS && (forall b :: 0 <= b < |now| ==> |now[b]| == |was[b]| == COUNTERS)
    && forall b: nat, i: nat :: b < |now| && i < COUNTERS ==>
      now[b][i] == if i < n && Picked(events, ctrMask, i) && Bit(events[i].mask, b) then val(events[i]) else was[b][i]
  }

  function Share(init: nat): Event -> nat {
    (e: Event) => if e.banks == 0 then 0 else init / e.banks
  }

  function Code(): Event -> nat {
    (e: Event) => e.ctrl
  }

  /** The registers after the counters below n have been started. */
  ghost predicate Started(counters: Regs, selects: Regs, was: Regs, chose: Regs, events: seq<Event>,
                          ctrMask: nat, update: bool, init: nat, n: nat) {
    (if update then PickedAre(counters, was, events, ctrMask, Share(init), n) else counters == was)
    && PickedAre(selects, chose, events, ctrMask, Code(), n)
  }

  /** The answer so far: success once a counter has been started. */
  ghost predicate Tally(events: seq<Event>, ctrMask: nat, n: nat, r: Ret) {
    if exists j: nat :: j < n && Picked(events, ctrMask, j) then r == Ok(0) else r == InvalidParam
  }

  /** Without a counter to start nothing is written. */
  lemma StartedNothing(counters: Regs, selects: Regs, was: Regs, chose: Regs, events: seq<Event>,
                       ctrMask: nat, update: bool, init: nat)
    requires Started(counters, selects, was, chose, events, ctrMask, update, init, COUNTERS)
    ensures (forall j: nat :: !Picked(events, ctrMask, j)) ==> counters == was && selects == chose
  {
    if forall j: nat :: !Picked(events, ctrMask, j) {
      NothingPicked(selects, chose, events, ctrMask, Code());
      if update {
        NothingPicked(counters, was, events, ctrMask, Share(init));
      }
    }
  }

  lemma NothingPicked(now: Regs, was: Regs, events: seq<Event>, ctrMask: nat, val: Event -> nat)
    requires PickedAre(now, was, events, ctrMask, val, COUNTERS)
    requires forall j: nat :: !Picked(events, ctrMask, j)
    ensures now == was
  {
    forall b: nat | b < |now| ensures now[b] == was[b] {
      forall i: nat | i < COUNTERS ensures now[b][i] == was[b][i] {
        assert !Picked(events, ctrMask, i);
      }
    }
  }

  lemma TallyOne(events: seq<Event>, ctrMask: nat, i: nat, r: Ret)
    requires i < |events| && Bit(ctrMask, i)
    requires if Active(events[i]) then r == Ok(0) else Tally(events, ctrMask, i, r)
    ensures Tally(events, ctrMask, i + 1, r)
  {
    assert Picked(events, ctrMask, i) <==> Active(events[i]);
  }

  lemma NonePicked(was: Regs, events: seq<Event>, supported: nat, ctrMask: nat, val: Event -> nat, n: nat)
    requires Shaped(was, supported) && |events| == COUNTERS
    requires forall j: nat :: j < n ==> !Bit(ctrMask, j)
    ensures PickedAre(was, was, events, ctrMask, val, n)
  {
  }

  lemma StartedNone(was: Regs, chose: Regs, events: seq<Event>, supported: nat,
                    ctrMask: nat, update: bool, init: nat, n: nat)
    requires Shaped(was, supported) && Shaped(chose, supported) && |events| == COUNTERS
    requires forall j: nat :: j < n ==> !Bit(ctrMask, j)
    ensures Started(was, chose, was, chose, events, ctrMask, update, init, n)
  {
    NonePicked(was, events, supported, ctrMask, Share(init), n);
    NonePicked(chose, events, supported, ctrMask, Code(), n);
  }

  lemma OnePicked(r: Regs, now: Regs, was: Regs, events: seq<Event>, ctrMask: nat, val: Event -> nat,
                  v: nat, i: nat, supported: nat)
    requires PickedAre(r, was, events, ctrMask, val, i) && Picked(events, ctrMask, i) && i < COUNTERS
    requires |r| == supported && Written(now, r, events[i].mask, i, v, supported) && v == val(events[i])
    ensures PickedAre(now, was, events, ctrMask, val, i + 1)
  {
  }

  lemma StartedMore(c0: Regs, s0: Regs, c1: Regs, s1: Regs, was: Regs, chose: Regs, events: seq<Event>,
                    supported: nat, ctrMask: nat, update: bool, init: nat, i: nat)
    requires Started(c0, s0, was, chose, events, ctrMask, update, init, i)
    requires |c0| == |s0| == supported && Picked(events, ctrMask, i) && i < COUNTERS && events[i].banks > 0
    requires if update then Written(c1, c0, events[i].mask, i, init / events[i].banks, supported) else c1 == c0
    requires Written(s1, s0, events[i].mask, i, events[i].ctrl, supported)
    ensures Started(c1, s1, was, chose, events, ctrMask, update, init, i + 1)
  {
    if update {
      OnePicked(c0, c1, was, events, ctrMask, Share(init), init / events[i].banks, i, supported);
    }
    OnePicked(s0, s1, chose, events, ctrMask, Code(), events[i].ctrl, i, supported);
  }

  lemma StartedSkip(counters: Regs, selects: Regs, was: Regs, chose: Regs, events: seq<Event>,
                    ctrMask: nat, update: bool, init: nat, n: nat, m: nat)
    requires Started(counters, selects, was, chose, events, ctrMask, update, init, n) && n <= m
    requires forall j: nat :: n <= j < m ==> !Picked(events, ctrMask, j)
    ensures Started(counters, selects, was, chose, events, ctrMask, update, init, m)
  {
  }

  // ----- main results

  lemma {:induction false} SumOfEqual(r: Regs, mask: nat, cidx: nat, n: nat, x: nat)
    requires n <= |r| && (forall b :: 0 <= b < |r| ==> cidx < |r[b]|)
    requires forall b: nat :: b < n && Bit(mask, b) ==> r[b][cidx] == x
    ensures Sum(r, mask, cidx, n) == Count(mask, n) * x
  {
    if n > 0 {
      SumOfEqual(r, mask, cidx, n - 1, x);
      assert (Count(mask, n - 1) + 1) * x == Count(mask, n - 1) * x + x;
    }
  }

  lemma {:induction false} CountBelow(mask: nat, n: nat, k: nat)
    requires mask < Pow2(n) && n <= k
    ensures Count(mask, k) == Count(mask, n)
  {
    if n < k {
      CountBelow(mask, n, k - 1);
      if Bit(mask, k - 1) {
        BitsBelow(mask, n, k - 1);
      }
    }
  }

  /** Read back before anything is counted, a counter started at v gives v
      less the remainder of v by the number of its banks. */
  lemma ReadsWhatWasStarted(counters: Regs, e: Event, cidx: nat, supported: nat, v: nat)
    requires Shaped(counters, supported) && supported <= 32 && cidx < COUNTERS
    requires Good(e, supported) && Active(e) && v < WORDS
    requires forall b: nat :: b < supported && Bit(e.mask, b) ==> counters[b][cidx] == v / e.banks
    ensures Sum(counters, e.mask, cidx, supported) % WORDS == v - v % e.banks
  {
    SumOfEqual(counters, e.mask, cidx, supported, v / e.banks);
    CountBelow(e.mask, supported, BITS);
    Quotient(v, e.banks);
    ModIs(v - v % e.banks, WORDS, 0, v - v % e.banks);
  }

  /** So a read right after a start call that sets the value v. */
  lemma ReadAfterStart(counters: Regs, selects: Regs, was: Regs, chose: Regs, events: seq<Event>, ctrMask: nat,
                       v: nat, i: nat, supported: nat)
    requires Shaped(counters, supported) && supported <= 32 && v < WORDS
    requires Started(counters, selects, was, chose, events, ctrMask, true, v, COUNTERS)
    requires Picked(events, ctrMask, i) && Good(events[i], supported)
    ensures i < COUNTERS && Sum(counters, events[i].mask, i, supported) % WORDS == v - v % events[i].banks
  {
    ReadsWhatWasStarted(counters, events[i], i, supported, v);
  }

  lemma Quotient(v: nat, m: nat)
    requires m > 0
    ensures m * (v / m) == v - v % m
  {
  }

  /** What a call does to the table of events. */
  datatype Call = Match(counter: nat, code: nat, banksMask: nat) | Reset(mask: nat) | Other

  ghost predicate Step(es: seq<Event>, call: Call, supported: nat, fs: seq<Event>) {
    |es| == |fs| == COUNTERS &&
    match call
    case Match(i, code, banksMask) =>
      FirstFree(es, i) && code != NOP && IsEvent(fs[i], code, banksMask, supported) && fs == es[i := fs[i]]
    case Reset(m) => forall i: nat :: i < COUNTERS ==>
      fs[i] == if Bit(m, i) && Active(es[i]) then es[i].(ctrl := NOP) else es[i]
    case Other => fs == es
  }

  /** A successful match without the skip flag, as CfgMatch states it. */
  lemma MatchIsStep(es: seq<Event>, supported: nat, codes: nat, ctrMask: nat, code: nat, banksMask: nat, i: nat,
                    fs: seq<Event>)
    requires supported <= 32 && banksMask < 256 && |es| == |fs| == COUNTERS
    requires Answers(es, supported, codes, ctrMask, false, code, banksMask, Ok(i))
    requires i < COUNTERS && fs == es[i := fs[i]] && IsEvent(fs[i], code, banksMask, supported)
    ensures Step(es, Match(i, code, banksMask), supported, fs) && Active(fs[i]) && Good(fs[i], supported)
  {
    CountZero(fs[i].mask, BITS);
    BanksLeft(fs[i].mask, banksMask, supported);
  }

  ghost predicate Run(states: seq<seq<Event>>, calls: seq<Call>, supported: nat) {
    |states| == |calls| + 1 && forall t :: 0 <= t < |calls| ==> Step(states[t], calls[t], supported, states[t + 1])
  }

  /** A counter keeps its event until a stop call resets it. */
  lemma {:induction false} StaysActive(states: seq<seq<Event>>, calls: seq<Call>, supported: nat, i: nat,
                                       s: nat, t: nat)
    requires Run(states, calls, supported) && i < COUNTERS && s <= t <= |calls|
    requires |states[s]| == COUNTERS && Active(states[s][i])
    requires forall u :: s <= u < t && calls[u].Reset? ==> !Bit(calls[u].mask, i)
    ensures |states[t]| == COUNTERS && states[t][i] == states[s][i]
  {
    if s < t {
      StaysActive(states, calls, supported, i, s, t - 1);
      assert Step(states[t - 1], calls[t - 1], supported, states[t]);
    }
  }

  /** Two matches with no reset of the first's counter between them give two counters. */
  lemma MatchesAreDistinct(states: seq<seq<Event>>, calls: seq<Call>, supported: nat, s: nat, t: nat)
    requires Run(states, calls, supported) && s < t < |calls| && calls[s].Match? && calls[t].Match?
    requires forall u :: s < u < t && calls[u].Reset? ==> !Bit(calls[u].mask, calls[s].counter)
    ensures calls[s].counter != calls[t].counter
  {
    assert Step(states[s], calls[s], supported, states[s + 1]);
    assert Step(states[t], calls[t], supported, states[t + 1]);
    StaysActive(states, calls, supported, calls[s].counter, s + 1, t);
  }

  /** From match to start: a counter matched with a code and started at any later
      time before it is reset counts the events of that code in exactly those of
      the banks asked for that the device has. */
  lemma CountsWhatWasMatched(states: seq<seq<Event>>, calls: seq<Call>, supported: nat, s: nat, t: nat,
                             counters: Regs, selects: Regs, was: Regs, chose: Regs, ctrMask: nat, update: bool,
                             init: nat, b: nat)
    requires Run(states, calls, supported) && s < t <= |calls| && calls[s].Match?
    requires forall u :: s < u < t && calls[u].Reset? ==> !Bit(calls[u].mask, calls[s].counter)
    requires Started(counters, selects, was, chose, states[t], ctrMask, update, init, COUNTERS)
    requires Bit(ctrMask, calls[s].counter) && b < supported == |selects|
    ensures var i := calls[s].counter;
            && i < COUNTERS && |selects[b]| == |chose[b]| == COUNTERS
            && selects[b][i] == if Bit(calls[s].banksMask, b) then calls[s].code else chose[b][i]
  {
    var i := calls[s].counter;
    assert Step(states[s], calls[s], supported, states[s + 1]);
    StaysActive(states, calls, supported, i, s + 1, t);
    assert Picked(states[t], ctrMask, i);
    assert Bit(states[t][i].mask, b) <==> b < supported && Bit(calls[s].banksMask, b);
  }

  // ----- what a read counts

  /** Counter `counter` of bank `bank` has counted n more events; it is of 64 bits. */
  datatype Tick = Tick(bank: nat, counter: nat, n: nat)

  ghost predicate TicksFit(ticks: seq<Tick>, banks: nat) {
    forall k :: 0 <= k < |ticks| ==> ticks[k].bank < banks && ticks[k].counter < COUNTERS
  }

  function Ticked(r: Regs, tick: Tick): Regs
    requires tick.bank < |r| && tick.counter < |r[tick.bank]|
  {
    var row: seq<nat> := r[tick.bank];
    var now: nat := (row[tick.counter] + tick.n) % WORDS;
    r[tick.bank := row[tick.counter := now]]
  }

  ghost function AllTicked(r: Regs, ticks: seq<Tick>): (s: Regs)
    requires Shaped(r, |r|) && TicksFit(ticks, |r|)
    ensures Shaped(s, |r|)
  {
    if ticks == [] then r else Ticked(AllTicked(r, ticks[..|ticks| - 1]), ticks[|ticks| - 1])
  }

  /** The events that counter cidx has counted in the banks of the mask. */
  function Counted(ticks: seq<Tick>, mask: nat, cidx: nat): nat {
    if ticks == [] then 0
    else
      var last := ticks[|ticks| - 1];
      Counted(ticks[..|ticks| - 1], mask, cidx) + if last.counter == cidx && Bit(mask, last.bank) then last.n else 0
  }

  lemma TickedAt(r: Regs, tick: Tick, b: nat, cidx: nat)
    requires Shaped(r, |r|) && b < |r| && cidx < COUNTERS && tick.bank < |r| && tick.counter < COUNTERS
    ensures Shaped(Ticked(r, tick), |r|)
    ensures Ticked(r, tick)[b][cidx] % WORDS
         == (r[b][cidx] + if tick.counter == cidx && tick.bank == b then tick.n else 0) % WORDS
  {
    CutTwice(r[b][cidx] + tick.n);
    if tick.counter == cidx && tick.bank == b {
      assert Ticked(r, tick)[b][cidx] == (r[b][cidx] + tick.n) % WORDS;
    } else {
      assert Ticked(r, tick)[b][cidx] == r[b][cidx];
    }
  }

  lemma CutTwice(x: nat)
    ensures x % WORDS % WORDS == x % WORDS
  {
    ModIs(x % WORDS, WORDS, 0, x % WORDS);
  }

  lemma {:induction false} SumTicked(r: Regs, s: Regs, tick: Tick, mask: nat, cidx: nat, n: nat)
    requires Shaped(r, |r|) && n <= |r| && cidx < COUNTERS && tick.bank < |r| && tick.counter < COUNTERS
    requires s == Ticked(r, tick) && Shaped(s, |r|)
    ensures Sum(s, mask, cidx, n) % WORDS == (Sum(r, mask, cidx, n) + CountedBelow(tick, mask, cidx, n)) % WORDS
  {
    if n > 0 {
      SumTicked(r, s, tick, mask, cidx, n - 1);
      TickedAt(r, tick, n - 1, cidx);
      var before, after := Sum(r, mask, cidx, n - 1), Sum(s, mask, cidx, n - 1);
      var more := CountedBelow(tick, mask, cidx, n - 1);
      var here := if tick.counter == cidx && tick.bank == n - 1 then tick.n else 0;
      if Bit(mask, n - 1) {
        CutSum(after, s[n - 1][cidx], before + more, r[n - 1][cidx] + here);
      }
    }
  }

  function CountedBelow(tick: Tick, mask: nat, cidx: nat, n: nat): nat {
    if tick.counter == cidx && Bit(mask, tick.bank) && tick.bank < n then tick.n else 0
  }

  lemma CutSum(a: nat, x: nat, b: nat, y: nat)
    requires a % WORDS == b % WORDS && x % WORDS == y % WORDS
    ensures (a + x) % WORDS == (b + y) % WORDS
  {
    SumAdds(a, x);
    SumAdds(b, x);
    SumAdds(x, b);
    SumAdds(y, b);
  }

  /** A read gives what a read before gave and the events counted since by this
      counter in the banks of its event, and no others. */
  lemma {:induction false} ReadCountsEvents(r: Regs, ticks: seq<Tick>, mask: nat, cidx: nat)
    requires Shaped(r, |r|) && TicksFit(ticks, |r|) && cidx < COUNTERS
    ensures Sum(AllTicked(r, ticks), mask, cidx, |r|) % WORDS
         == (Sum(r, mask, cidx, |r|) + Counted(ticks, mask, cidx)) % WORDS
  {
    if ticks != [] {
      var front, last := ticks[..|ticks| - 1], ticks[|ticks| - 1];
      ReadCountsEvents(r, front, mask, cidx);
      var s := AllTicked(r, front);
      TickedAt(s, last, 0, cidx);
      SumTicked(s, Ticked(s, last), last, mask, cidx, |r|);
      var more := if last.counter == cidx && Bit(mask, last.bank) then last.n else 0;
      CutSum(Sum(AllTicked(r, front), mask, cidx, |r|), more,
             Sum(r, mask, cidx, |r|) + Counted(front, mask, cidx), more);
    }
  }
}
