/** Emulation of misaligned loads and stores, src/emu_ldst.c: one byte access
    after the other, each of which may trap, and a restart after a TLB miss. */
module Emulation {
  import opened Decode

  const ADDRESSES: nat := 0x1_0000_0000_0000_0000

  type Addr = a: nat | a < ADDRESSES

  type Cause = nat

  const EXC_MEM_FETCH: Cause := 1
  const EXC_MIS_LOAD: Cause := 4
  const EXC_MEM_LOAD: Cause := 5
  const EXC_MIS_STORE: Cause := 6
  const EXC_MEM_STORE: Cause := 7
  const EXC_PF_FETCH: Cause := 12
  const EXC_PF_LOAD: Cause := 13
  const EXC_TLB_MISS: Cause := 14

  const WORD_BYTES: nat := 8

  /** A 64-bit register as its bytes, the lowest first. */
  type Word = w: seq<bv8> | |w| == WORD_BYTES witness [0, 0, 0, 0, 0, 0, 0, 0]

  /** The hart when the emulation starts and when it returns: the saved registers
      (slot 0 stands for x0), memory, and the trap registers. */
  datatype State = State(regs: seq<Word>, mem: map<Addr, bv8>, mepc: Addr, mtval: Addr, mcause: Cause)

  datatype Option<T> = None | Some(value: T)

  /** What the outside does during one emulation: the instruction fetch, and
      which addresses trap now, with which cause.  The TLB refill itself is the
      environment's: it decides what still traps the next time. */
  datatype Fetch = Instr(ins: bv32) | FetchTrap(cause: Cause, at: Addr)
  datatype Env = Env(fetch: Fetch, faults: map<Addr, Cause>, trapPc: Addr)

  predicate Valid(s: State) {
    |s.regs| == 32
  }

  function Plus(a: Addr, i: nat): Addr {
    (a + i) % ADDRESSES
  }

  /** The trap, if any, of an access to address a. */
  function Fault(mem: map<Addr, bv8>, env: Env, a: Addr, unmapped: Cause): Option<Cause> {
    if a in env.faults then Some(env.faults[a]) else if a in mem then None else Some(unmapped)
  }

  // ----- words

  function Zero(): Word {
    [0, 0, 0, 0, 0, 0, 0, 0]
  }

  /** `a | ((unsigned long)v << (i * 8))`, line 499. */
  function OrByteAt(a: Word, v: bv8, i: nat): Word {
    seq(WORD_BYTES, j requires 0 <= j < WORD_BYTES => if j == i then a[j] | v else a[j])
  }

  /** `a << (8 * n)` */
  function ShiftLeft(a: Word, n: nat): Word
    requires n <= WORD_BYTES
  {
    seq(n, j => 0) + a[..WORD_BYTES - n]
  }

  predicate Negative(b: bv8) {
    b & 0x80 != 0
  }

  function Fill(n: nat, top: bv8): seq<bv8> {
    seq(n, j => if Negative(top) then 0xff else 0)
  }

  /** `(long)a >> (8 * n)` */
  function ShiftRightSigned(a: Word, n: nat): Word
    requires n <= WORD_BYTES
  {
    a[n..] + Fill(n, a[WORD_BYTES - 1])
  }

  /** Reference: the value of a load, section 2.6: the bytes read, low byte first,
      then copies of the sign or zeros. */
  function Extended(bytes: seq<bv8>, signed: bool): Word
    requires 0 < |bytes| <= WORD_BYTES
  {
    bytes + if signed then Fill(WORD_BYTES - |bytes|, bytes[|bytes| - 1]) else seq(WORD_BYTES - |bytes|, j => 0)
  }

  lemma SignExtension(w: Word, len: nat)
    requires 0 < len <= WORD_BYTES
    ensures ShiftRightSigned(ShiftLeft(w, WORD_BYTES - len), WORD_BYTES - len) == Extended(w[..len], true)
  {
    var n := WORD_BYTES - len;
    var up := ShiftLeft(w, n);
    assert up[n..] == w[..len];
    assert up[WORD_BYTES - 1] == w[len - 1];
  }

  // ----- what the emulation does, access by access

  /** The first of the bytes i, i + 1, ..., len - 1 whose access traps. */
  function FirstFault(s: State, env: Env, addr: Addr, i: nat, len: nat, unmapped: Cause): Option<nat>
    decreases len - i
  {
    if i >= len then None
    else if Fault(s.mem, env, Plus(addr, i), unmapped).Some? then Some(i)
    else FirstFault(s, env, addr, i + 1, len, unmapped)
  }

  function LoadBytes(s: State, addr: Addr, len: nat): seq<bv8>
    requires forall i :: 0 <= i < len ==> Plus(addr, i) in s.mem
  {
    seq(len, i requires 0 <= i < len => s.mem[Plus(addr, i)])
  }

  function StoreBytes(mem: map<Addr, bv8>, addr: Addr, bytes: seq<bv8>): map<Addr, bv8> {
    if bytes == [] then mem
    else StoreBytes(mem, addr, bytes[..|bytes| - 1])[Plus(addr, |bytes| - 1) := bytes[|bytes| - 1]]
  }

  /** The trap registers after a byte access at addr + i has trapped: the hardware
      has set mcause and mtval, and the code puts mepc back. */
  function Trapped(s: State, addr: Addr, i: nat, cause: Cause): State {
    s.(mcause := cause, mtval := Plus(addr, i))
  }

  /** Lines 514-530 and 626-642: the fetch trapped. */
  function FetchTrapped(s: State, env: Env): (State, nat) {
    var cause := if env.fetch.FetchTrap? then env.fetch.cause else s.mcause;
    if cause == EXC_TLB_MISS then
      (s.(mcause := cause, mtval := if env.fetch.FetchTrap? then env.fetch.at else s.mtval), 0)
    else
      var shown := if cause == EXC_MEM_LOAD then EXC_MEM_FETCH
                   else if cause == EXC_PF_LOAD then EXC_PF_FETCH else cause;
      (s.(mcause := shown, mtval := s.mepc), 1)
  }

  predicate NoInstruction(env: Env) {
    env.fetch.FetchTrap? || env.fetch.ins == 0
  }

  lemma FirstFaultBounds(s: State, env: Env, addr: Addr, i: nat, len: nat, unmapped: Cause)
    ensures var f := FirstFault(s, env, addr, i, len, unmapped);
            && (f.None? ==> forall j :: i <= j < len ==> Fault(s.mem, env, Plus(addr, j), unmapped).None?)
            && (f.Some? ==> i <= f.value < len && Fault(s.mem, env, Plus(addr, f.value), unmapped).Some?
                            && forall j :: i <= j < f.value ==> Fault(s.mem, env, Plus(addr, j), unmapped).None?)
    decreases len - i
  {
  }

  // ----- the whole emulation

  /** emu_misaligned_load: the state it leaves and its result, 0 to resume and 1
      to redirect the trap. */
  function LoadSpec(s: State, env: Env): (State, nat)
    requires Valid(s)
  {
    if NoInstruction(env) then FetchTrapped(s, env)
    else LoadOp(s, env, DecodeLoad(env.fetch.ins), InsLen(env.fetch.ins))
  }

  function LoadOp(s: State, env: Env, op: Load, insLen: nat): (State, nat)
    requires Valid(s) && (op.Load? ==> op.rd < 32 && 0 < op.len <= WORD_BYTES)
  {
    match op
    case NoLoad => (s.(mcause := EXC_MIS_LOAD), 1)
    case Load(len, signed, rd) =>
      FirstFaultBounds(s, env, s.mtval, 0, len, EXC_MEM_LOAD);
      match FirstFault(s, env, s.mtval, 0, len, EXC_MEM_LOAD)
      case Some(i) => Redirect(s, s.mtval, i, Fault(s.mem, env, Plus(s.mtval, i), EXC_MEM_LOAD).value)
      case None =>
        (s.(regs := s.regs[rd := Extended(LoadBytes(s, s.mtval, len), signed)], mepc := Plus(s.mepc, insLen)), 0)
  }

  /** A byte access trapped: repeat the instruction after a TLB miss, otherwise
      pass the trap on. */
  function Redirect(s: State, addr: Addr, i: nat, cause: Cause): (State, nat) {
    (Trapped(s, addr, i, cause), if cause == EXC_TLB_MISS then 0 else 1)
  }

  /** emu_misaligned_store. */
  function StoreSpec(s: State, env: Env): (State, nat)
    requires Valid(s)
  {
    if NoInstruction(env) then FetchTrapped(s, env)
    else StoreOp(s, env, DecodeStore(env.fetch.ins), InsLen(env.fetch.ins))
  }

  function StoreOp(s: State, env: Env, op: Store, insLen: nat): (State, nat)
    requires Valid(s) && (op.Store? ==> op.rs2 < 32 && 0 < op.len <= WORD_BYTES)
  {
    match op
    case NoStore => (s.(mcause := EXC_MIS_STORE), 1)
    case Store(len, rs2) =>
      FirstFaultBounds(s, env, s.mtval, 0, len, EXC_MEM_STORE);
      match FirstFault(s, env, s.mtval, 0, len, EXC_MEM_STORE)
      case Some(i) =>
        Redirect(s.(mem := StoreBytes(s.mem, s.mtval, s.regs[rs2][..i])), s.mtval, i,
                 Fault(s.mem, env, Plus(s.mtval, i), EXC_MEM_STORE).value)
      case None =>
        (s.(mem := StoreBytes(s.mem, s.mtval, s.regs[rs2][..len]), mepc := Plus(s.mepc, insLen)), 0)
  }

  /** The word holds the first n bytes from addr on, and zeros above. */
  predicate BytesOf(mem: map<Addr, bv8>, addr: Addr, n: nat, w: Word) {
    n <= WORD_BYTES
    && (forall j :: 0 <= j < n ==> Plus(addr, j) in mem && w[j] == mem[Plus(addr, j)])
    && (forall j :: n <= j < WORD_BYTES ==> w[j] == 0)
  }

  // ----- the code

  class Hart {
    const regs: array<Word>
    var mem: map<Addr, bv8>
    var mepc: Addr
    var mtval: Addr
    var mcause: Cause

    constructor (regs: array<Word>, mem: map<Addr, bv8>, mepc: Addr, mtval: Addr, mcause: Cause)
      requires regs.Length == 32
      ensures this.regs == regs && Now() == State(regs[..], mem, mepc, mtval, mcause)
    {
      this.regs, this.mem, this.mepc, this.mtval, this.mcause := regs, mem, mepc, mtval, mcause;
    }

    ghost function Now(): State
      reads this, regs
    {
      State(regs[..], mem, mepc, mtval, mcause)
    }

    /** The hardware takes a trap inside the emulation. */
    method Trap(cause: Cause, at: Addr, pc: Addr)
      modifies this
      ensures Now() == old(Now()).(mcause := cause, mtval := at, mepc := pc)
    {
      mcause, mtval, mepc := cause, at, pc;
    }

    /** emu_get_instr, lines 293-326: zero after a trap. */
    method GetInstr(env: Env) returns (ins: bv32)
      modifies this
      ensures ins == 0 <==> NoInstruction(env)
      ensures ins != 0 ==> ins == env.fetch.ins && Now() == old(Now())
      ensures ins == 0 ==> Now() == if env.fetch.FetchTrap?
        then old(Now()).(mcause := env.fetch.cause, mtval := env.fetch.at, mepc := env.trapPc) else old(Now())
    {
      match env.fetch
      case Instr(i) =>
        ins := i;
      case FetchTrap(cause, at) =>
        ins := 0;
        Trap(cause, at, env.trapPc);
    }

    /** emu_load8, lines 329-354; not ok stands for its result -1. */
    method Load8(env: Env, a: Addr) returns (ok: bool, v: bv8)
      modifies this
      ensures ok == Fault(old(mem), env, a, EXC_MEM_LOAD).None?
      ensures ok ==> v == old(mem)[a] && Now() == old(Now())
      ensures !ok ==> Now() == old(Now()).(mcause := Fault(old(mem), env, a, EXC_MEM_LOAD).value, mtval := a,
                                           mepc := env.trapPc)
    {
      match Fault(mem, env, a, EXC_MEM_LOAD)
      case None =>
        ok, v := true, mem[a];
      case Some(cause) =>
        ok, v := false, 0;
        Trap(cause, a, env.trapPc);
    }

    /** emu_store8, lines 357-382. */
    method Store8(env: Env, a: Addr, v: bv8) returns (ok: bool)
      modifies this
      ensures ok == Fault(old(mem), env, a, EXC_MEM_STORE).None?
      ensures ok ==> Now() == old(Now()).(mem := old(mem)[a := v])
      ensures !ok ==> Now() == old(Now()).(mcause := Fault(old(mem), env, a, EXC_MEM_STORE).value, mtval := a,
                                           mepc := env.trapPc)
    {
      match Fault(mem, env, a, EXC_MEM_STORE)
      case None =>
        ok, mem := true, mem[a := v];
      case Some(cause) =>
        ok := false;
        Trap(cause, a, env.trapPc);
    }

    /** Lines 514-530 and 626-642. */
    method AfterFetchTrap(insAddr: Addr) returns (ret: nat)
      modifies this
      ensures var cause := old(mcause);
              if cause == EXC_TLB_MISS then ret == 0 && Now() == old(Now()).(mepc := insAddr)
              else ret == 1 && Now() == old(Now()).(
                mcause := if cause == EXC_MEM_LOAD then EXC_MEM_FETCH
                          else if cause == EXC_PF_LOAD then EXC_PF_FETCH else cause,
                mtval := insAddr, mepc := insAddr)
    {
      if mcause == EXC_TLB_MISS {
        mepc := insAddr;
        return 0;
      } else if mcause == EXC_MEM_LOAD {
        mcause := EXC_MEM_FETCH;
      } else if mcause == EXC_PF_LOAD {
        mcause := EXC_PF_FETCH;
      }
      mtval := insAddr;
      mepc := insAddr;
      return 1;
    }

    /** Lines 483-496 and 648-660: a byte access at addr + i trapped. */
    method AfterAccessTrap(insAddr: Addr, memAddr: Addr, i: nat) returns (ret: nat)
      modifies this
      requires mtval == Plus(memAddr, i)
      ensures ret == (if old(mcause) == EXC_TLB_MISS then 0 else 1) && Now() == old(Now()).(mepc := insAddr)
    {
      if mcause == EXC_TLB_MISS {
        mepc := insAddr;
        return 0;
      }
      mtval := Plus(memAddr, i);
      mepc := insAddr;
      return 1;
    }

    /** emu_misaligned_load, lines 411-551. */
    method EmuMisalignedLoad(env: Env) returns (ret: nat)
      requires regs.Length == 32
      modifies this, regs
      ensures (Now(), ret) == LoadSpec(old(Now()), env)
    {
      ghost var s := Now();
      var insAddr, memAddr := mepc, mtval;
      var ins := GetInstr(env);
      if ins == 0 {
        ret := AfterFetchTrap(insAddr);
        return;
      }
      var op := DecodeLoad(ins);
      if op.NoLoad? {
        mcause := EXC_MIS_LOAD;
        mtval := memAddr;
        mepc := insAddr;
        return 1;
      }
      ret := LoadLoop(env, op, insAddr, memAddr, InsLen(ins));
    }

    /** Lines 476-512 and 532-548. */
    method LoadLoop(env: Env, op: Load, insAddr: Addr, memAddr: Addr, insLen: nat) returns (ret: nat)
      requires regs.Length == 32 && op.Load? && op.rd < 32 && 0 < op.len <= WORD_BYTES
      requires insAddr == mepc && memAddr == mtval
      modifies this, regs
      ensures (Now(), ret) == LoadOp(old(Now()), env, op, insLen)
    {
      ghost var s := Now();
      var i, regVal := ReadBytes(env, op.len, memAddr);
      FirstFaultBounds(s, env, memAddr, 0, op.len, EXC_MEM_LOAD);
      if i < op.len {
        ret := AfterAccessTrap(insAddr, memAddr, i);
        return;
      }
      Assembled(s, memAddr, op.len, regVal, op.signed);
      if op.signed {
        regVal := ShiftRightSigned(ShiftLeft(regVal, WORD_BYTES - op.len), WORD_BYTES - op.len);
      }
      regs[op.rd] := regVal;
      mepc := Plus(insAddr, insLen);
      assert regs[..] == s.regs[op.rd := regVal];
      return 0;
    }

    /** The loop of lines 481-505; it stops at the first byte whose access traps. */
    method ReadBytes(env: Env, len: nat, memAddr: Addr) returns (i: nat, regVal: Word)
      requires 0 < len <= WORD_BYTES && memAddr == mtval
      modifies this
      ensures FirstFault(old(Now()), env, memAddr, 0, len, EXC_MEM_LOAD) == if i < len then Some(i) else None
      ensures i >= len ==> i == len && Now() == old(Now()) && BytesOf(old(mem), memAddr, i, regVal)
      ensures i < len ==> Fault(old(mem), env, Plus(memAddr, i), EXC_MEM_LOAD).Some?
      ensures i < len ==> Now() == old(Now()).(mepc := env.trapPc, mtval := Plus(memAddr, i),
        mcause := Fault(old(mem), env, Plus(memAddr, i), EXC_MEM_LOAD).value)
    {
      ghost var s := Now();
      regVal, i := Zero(), 0;
      while i < len
        invariant 0 <= i <= len && Now() == s
        invariant FirstFault(s, env, memAddr, 0, len, EXC_MEM_LOAD)
               == FirstFault(s, env, memAddr, i, len, EXC_MEM_LOAD)
        invariant BytesOf(mem, memAddr, i, regVal)
      {
        var ok, v := Load8(env, Plus(memAddr, i));
        if !ok {
          return;
        }
        regVal := OrByteAt(regVal, v, i);
        i := i + 1;
      }
    }

    /** emu_misaligned_store, lines 553-666. */
    method EmuMisalignedStore(env: Env) returns (ret: nat)
      requires regs.Length == 32
      modifies this
      ensures (Now(), ret) == StoreSpec(old(Now()), env)
    {
      var insAddr, memAddr := mepc, mtval;
      var ins := GetInstr(env);
      if ins == 0 {
        ret := AfterFetchTrap(insAddr);
        return;
      }
      var op := DecodeStore(ins);
      if op.NoStore? {
        mcause := EXC_MIS_STORE;
        mtval := memAddr;
        mepc := insAddr;
        return 1;
      }
      ret := StoreLoop(env, op, insAddr, memAddr, InsLen(ins));
    }

    /** Lines 644-665. */
    method StoreLoop(env: Env, op: Store, insAddr: Addr, memAddr: Addr, insLen: nat) returns (ret: nat)
      requires regs.Length == 32 && op.Store? && op.rs2 < 32 && 0 < op.len <= WORD_BYTES
      requires insAddr == mepc && memAddr == mtval
      modifies this
      ensures (Now(), ret) == StoreOp(old(Now()), env, op, insLen)
    {
      ghost var s := Now();
      ghost var value := regs[op.rs2];
      var i := 0;
      assert value[..0] == [];
      while i < op.len
        invariant 0 <= i <= op.len && Now() == s.(mem := StoreBytes(s.mem, memAddr, value[..i]))
        invariant FirstFault(s, env, memAddr, 0, op.len, EXC_MEM_STORE)
               == FirstFault(s, env, memAddr, i, op.len, EXC_MEM_STORE)
      {
        NextStoredByte(s.mem, env, memAddr, value, i);
        var ok := Store8(env, Plus(memAddr, i), regs[op.rs2][i]);
        if !ok {
          ret := AfterAccessTrap(insAddr, memAddr, i);
          return;
        }
        i := i + 1;
      }
      mepc := Plus(insAddr, insLen);
      return 0;
    }
  }

  // ----- what a store does to memory

  /** The bytes read one by one, and the two shifts, are the value of the load. */
  lemma Assembled(s: State, addr: Addr, len: nat, w: Word, signed: bool)
    requires 0 < len <= WORD_BYTES && BytesOf(s.mem, addr, len, w)
    ensures Extended(LoadBytes(s, addr, len), signed)
         == if signed then ShiftRightSigned(ShiftLeft(w, WORD_BYTES - len), WORD_BYTES - len) else w
  {
    assert w[..len] == LoadBytes(s, addr, len);
    SignExtension(w, len);
  }

  lemma DistinctPlaces(addr: Addr, i: nat)
    requires i < WORD_BYTES
    ensures forall j :: 0 <= j < i ==> Plus(addr, j) != Plus(addr, i)
  {
  }

  lemma {:induction false} StoreFrame(mem: map<Addr, bv8>, addr: Addr, bytes: seq<bv8>, a: Addr)
    requires forall j :: 0 <= j < |bytes| ==> Plus(addr, j) != a
    ensures a in StoreBytes(mem, addr, bytes) <==> a in mem
    ensures a in mem ==> StoreBytes(mem, addr, bytes)[a] == mem[a]
  {
    if bytes != [] {
      StoreFrame(mem, addr, bytes[..|bytes| - 1], a);
    }
  }

  lemma {:induction false} StoredByte(mem: map<Addr, bv8>, addr: Addr, bytes: seq<bv8>, i: nat)
    requires i < |bytes| <= WORD_BYTES
    ensures Plus(addr, i) in StoreBytes(mem, addr, bytes)
    ensures StoreBytes(mem, addr, bytes)[Plus(addr, i)] == bytes[i]
  {
    DistinctPlaces(addr, |bytes| - 1);
    if i < |bytes| - 1 {
      StoredByte(mem, addr, bytes[..|bytes| - 1], i);
    }
  }

  /** Bytes stored so far neither make nor clear the trap of the next one. */
  lemma NextStoredByte(mem: map<Addr, bv8>, env: Env, addr: Addr, value: Word, i: nat)
    requires i < WORD_BYTES
    ensures Fault(StoreBytes(mem, addr, value[..i]), env, Plus(addr, i), EXC_MEM_STORE)
         == Fault(mem, env, Plus(addr, i), EXC_MEM_STORE)
    ensures StoreBytes(mem, addr, value[..i])[Plus(addr, i) := value[i]] == StoreBytes(mem, addr, value[..i + 1])
  {
    DistinctPlaces(addr, i);
    StoreFrame(mem, addr, value[..i], Plus(addr, i));
    assert value[..i + 1][..i] == value[..i];
  }
}
