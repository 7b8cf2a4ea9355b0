/** The emulated access is the architectural one, also across restarts. */
module EmulationTheorems {
  import opened Decode
  import opened Emulation

  // ----- reference: sections 2.6 and 16.3 of the RISC-V Unprivileged ISA

  /** The value of register x as an instruction reads it: x0 is zero. */
  function ArchReg(s: State, x: nat): Word
    requires Valid(s) && x < 32
  {
    if x == 0 then Zero() else s.regs[x]
  }

  /** A byte of memory after the len low bytes of w were stored at addr. */
  ghost predicate MemoryAfterStore(before: map<Addr, bv8>, after: map<Addr, bv8>, addr: Addr, w: seq<bv8>) {
    && (forall i :: 0 <= i < |w| ==> Plus(addr, i) in after && after[Plus(addr, i)] == w[i])
    && (forall a: Addr :: (forall i :: 0 <= i < |w| ==> a != Plus(addr, i)) ==>
          (a in after <==> a in before) && (a in before ==> after[a] == before[a]))
  }

  ghost predicate Accessible(s: State, env: Env, len: nat, unmapped: Cause) {
    forall i :: 0 <= i < len ==> Fault(s.mem, env, Plus(s.mtval, i), unmapped).None?
  }

  // ----- loads

  /** Every integer load of the ISA that can be misaligned, 16 or 32 bits long:
      the destination register of the ISA gets the extended little-endian value,
      every other register and memory stay, and the pc moves past the
      instruction. */
  lemma LoadIsArchitectural(s: State, env: Env, op: Load, x: nat)
    requires Valid(s) && x < 32
    requires env.fetch.Instr? && env.fetch.ins != 0 && op == IsaLoad(env.fetch.ins) && op.Load?
    requires op.rd < 32 && 0 < op.len <= WORD_BYTES && Accessible(s, env, op.len, EXC_MEM_LOAD)
    ensures var (t, ret) := LoadSpec(s, env);
            && ret == 0 && Valid(t) && t.mem == s.mem
            && t.mepc == Plus(s.mepc, IsaLength(env.fetch.ins))
            && (x != op.rd ==> t.regs[x] == s.regs[x])
            && (forall i :: 0 <= i < op.len ==>
                  Plus(s.mtval, i) in s.mem && t.regs[op.rd][i] == s.mem[Plus(s.mtval, i)])
            && (forall i :: op.len <= i < WORD_BYTES ==>
                  t.regs[op.rd][i] == if op.signed && Negative(t.regs[op.rd][op.len - 1]) then 0xff else 0)
  {
    LoadTableIsIsa(env.fetch.ins);
    NoFault(s, env, op.len, EXC_MEM_LOAD);
    LoadCompletes(s, env, op, InsLen(env.fetch.ins));
  }

  lemma NoFault(s: State, env: Env, len: nat, unmapped: Cause)
    requires Accessible(s, env, len, unmapped)
    ensures FirstFault(s, env, s.mtval, 0, len, unmapped).None?
  {
    FirstFaultBounds(s, env, s.mtval, 0, len, unmapped);
  }

  lemma LoadCompletes(s: State, env: Env, op: Load, insLen: nat)
    requires Valid(s) && op.Load? && op.rd < 32 && 0 < op.len <= WORD_BYTES
    requires Accessible(s, env, op.len, EXC_MEM_LOAD) && FirstFault(s, env, s.mtval, 0, op.len, EXC_MEM_LOAD).None?
    ensures forall i :: 0 <= i < op.len ==> Plus(s.mtval, i) in s.mem
    ensures LoadOp(s, env, op, insLen)
         == (s.(regs := s.regs[op.rd := Extended(LoadBytes(s, s.mtval, op.len), op.signed)],
                mepc := Plus(s.mepc, insLen)), 0)
  {
    forall i | 0 <= i < op.len ensures Plus(s.mtval, i) in s.mem {
      assert Fault(s.mem, env, Plus(s.mtval, i), EXC_MEM_LOAD).None?;
    }
  }

  /** The fetch or one of the byte accesses traps, or the instruction is none that
      is emulated. */
  ghost predicate LoadTraps(s: State, env: Env)
    requires Valid(s)
  {
    NoInstruction(env) ||
    match DecodeLoad(env.fetch.ins)
    case NoLoad => true
    case Load(len, _, _) => FirstFault(s, env, s.mtval, 0, len, EXC_MEM_LOAD).Some?
  }

  /** Whatever traps during a load, no register and no memory changes and the
      hart stays at the instruction. */
  lemma TrappedLoadChangesNothing(s: State, env: Env)
    requires Valid(s) && LoadTraps(s, env)
    ensures var (t, ret) := LoadSpec(s, env);
            && t.regs == s.regs && t.mem == s.mem && t.mepc == s.mepc
            && (ret == 0 <==> t.mcause == EXC_TLB_MISS)
  {
  }

  lemma FirstFaultAt(s: State, env: Env, len: nat, i: nat, unmapped: Cause)
    requires i < len && Accessible(s, env, i, unmapped) && Fault(s.mem, env, Plus(s.mtval, i), unmapped).Some?
    ensures FirstFault(s, env, s.mtval, 0, len, unmapped) == Some(i)
  {
    FirstFaultBounds(s, env, s.mtval, 0, len, unmapped);
  }

  /** Byte i of a load is the first whose access traps: the trap registers tell
      the cause and the address of that byte, nothing else changes, and the
      instruction is repeated after a TLB miss and redirected after any other trap. */
  lemma FaultingLoadStopsThere(s: State, env: Env, op: Load, i: nat, cause: Cause)
    requires Valid(s) && env.fetch.Instr? && env.fetch.ins != 0 && op == IsaLoad(env.fetch.ins) && op.Load?
    requires op.rd < 32 && i < op.len <= WORD_BYTES && Accessible(s, env, i, EXC_MEM_LOAD)
    requires Fault(s.mem, env, Plus(s.mtval, i), EXC_MEM_LOAD) == Some(cause)
    ensures var (t, ret) := LoadSpec(s, env);
            && t.mcause == cause && t.mtval == Plus(s.mtval, i) && t.mepc == s.mepc
            && t.regs == s.regs && t.mem == s.mem
            && ret == if cause == EXC_TLB_MISS then 0 else 1
  {
    LoadTableIsIsa(env.fetch.ins);
    FirstFaultAt(s, env, op.len, i, EXC_MEM_LOAD);
  }

  /** The fetch of the instruction traps, for loads and for stores: a miss
      repeats it; any other cause is redirected with the pc as its address, and
      access and page faults are turned from loads into fetches.  Registers,
      memory and mepc stay. */
  lemma TrappedFetch(s: State, env: Env, cause: Cause, at: Addr)
    requires Valid(s) && env.fetch == FetchTrap(cause, at)
    ensures StoreSpec(s, env) == LoadSpec(s, env)
    ensures var (t, ret) := LoadSpec(s, env);
            && t.regs == s.regs && t.mem == s.mem && t.mepc == s.mepc
            && (cause == EXC_TLB_MISS ==> ret == 0 && t.mcause == EXC_TLB_MISS && t.mtval == at)
            && (cause != EXC_TLB_MISS ==> ret == 1 && t.mtval == s.mepc)
            && (cause == EXC_MEM_LOAD ==> t.mcause == EXC_MEM_FETCH)
            && (cause == EXC_PF_LOAD ==> t.mcause == EXC_PF_FETCH)
            && (cause !in {EXC_TLB_MISS, EXC_MEM_LOAD, EXC_PF_LOAD} ==> t.mcause == cause)
  {
  }

  /** A word that is no load of the ISA is redirected as a misaligned load, a word
      that is no store as a misaligned store, with the address and the pc they came
      with; nothing else changes.  The word 0 is taken for a fetch that trapped:
      it keeps the cause that it came with and shows the pc as the address. */
  lemma NotEmulated(s: State, env: Env)
    requires Valid(s) && env.fetch.Instr?
    ensures env.fetch.ins != 0 && IsaLoad(env.fetch.ins).NoLoad? ==>
              LoadSpec(s, env) == (State(s.regs, s.mem, s.mepc, s.mtval, EXC_MIS_LOAD), 1)
    ensures env.fetch.ins != 0 && IsaStore(env.fetch.ins).NoStore? ==>
              StoreSpec(s, env) == (State(s.regs, s.mem, s.mepc, s.mtval, EXC_MIS_STORE), 1)
    ensures env.fetch.ins == 0 && s.mcause == EXC_MIS_LOAD ==>
              LoadSpec(s, env) == (State(s.regs, s.mem, s.mepc, s.mepc, EXC_MIS_LOAD), 1)
    ensures env.fetch.ins == 0 && s.mcause == EXC_MIS_STORE ==>
              StoreSpec(s, env) == (State(s.regs, s.mem, s.mepc, s.mepc, EXC_MIS_STORE), 1)
  {
    LoadTableIsIsa(env.fetch.ins);
    StoreTableIsIsa(env.fetch.ins);
  }

  // ----- stores

  lemma StoreBytesMeaning(mem: map<Addr, bv8>, addr: Addr, bytes: seq<bv8>)
    requires |bytes| <= WORD_BYTES
    ensures MemoryAfterStore(mem, StoreBytes(mem, addr, bytes), addr, bytes)
  {
    forall i: nat | i < |bytes|
      ensures Plus(addr, i) in StoreBytes(mem, addr, bytes)
           && StoreBytes(mem, addr, bytes)[Plus(addr, i)] == bytes[i]
    {
      StoredByte(mem, addr, bytes, i);
    }
    forall a: Addr | forall i :: 0 <= i < |bytes| ==> a != Plus(addr, i)
      ensures (a in StoreBytes(mem, addr, bytes) <==> a in mem)
           && (a in mem ==> StoreBytes(mem, addr, bytes)[a] == mem[a])
    {
      StoreFrame(mem, addr, bytes, a);
    }
  }

  lemma {:induction false} StoreBytesKeepsKeys(mem: map<Addr, bv8>, addr: Addr, bytes: seq<bv8>)
    ensures forall a :: a in mem ==> a in StoreBytes(mem, addr, bytes)
  {
    if bytes != [] {
      StoreBytesKeepsKeys(mem, addr, bytes[..|bytes| - 1]);
    }
  }

  lemma SameByte(m1: map<Addr, bv8>, addr: Addr, done: seq<bv8>, bytes: seq<bv8>, a: Addr)
    requires |bytes| <= WORD_BYTES && done <= bytes
    ensures var a1, a2 := StoreBytes(m1, addr, bytes), StoreBytes(StoreBytes(m1, addr, done), addr, bytes);
            (a in a1 <==> a in a2) && (a in a1 ==> a1[a] == a2[a])
  {
    var m2 := StoreBytes(m1, addr, done);
    if i :| 0 <= i < |bytes| && Plus(addr, i) == a {
      StoredByte(m1, addr, bytes, i);
      StoredByte(m2, addr, bytes, i);
    } else {
      StoreFrame(m1, addr, bytes, a);
      StoreFrame(m2, addr, bytes, a);
      assert forall j :: 0 <= j < |done| ==> Plus(addr, j) != a;
      StoreFrame(m1, addr, done, a);
    }
  }

  /** A complete store over part of the same store is that store. */
  lemma StoreDetermines(m1: map<Addr, bv8>, m2: map<Addr, bv8>, addr: Addr, done: seq<bv8>, bytes: seq<bv8>)
    requires |bytes| <= WORD_BYTES && done <= bytes && m2 == StoreBytes(m1, addr, done)
    ensures StoreBytes(m2, addr, bytes) == StoreBytes(m1, addr, bytes)
  {
    forall a: Addr ensures var a1, a2 := StoreBytes(m1, addr, bytes), StoreBytes(m2, addr, bytes);
                           (a in a1 <==> a in a2) && (a in a1 ==> a1[a] == a2[a])
    {
      SameByte(m1, addr, done, bytes, a);
    }
  }

  /** Every integer store of the ISA that can be misaligned stores the low bytes
      of its source register, if slot 0 of the saved registers is zero where the
      source is x0, and changes nothing else. */
  lemma StoreIsArchitectural(s: State, env: Env, op: Store)
    requires Valid(s)
    requires env.fetch.Instr? && env.fetch.ins != 0 && op == IsaStore(env.fetch.ins) && op.Store?
    requires op.rs2 < 32 && 0 < op.len <= WORD_BYTES && Accessible(s, env, op.len, EXC_MEM_STORE)
    ensures var (t, ret) := StoreSpec(s, env);
            && ret == 0 && t.regs == s.regs && t.mepc == Plus(s.mepc, IsaLength(env.fetch.ins))
            && MemoryAfterStore(s.mem, t.mem, s.mtval, s.regs[op.rs2][..op.len])
            && (MemoryAfterStore(s.mem, t.mem, s.mtval, ArchReg(s, op.rs2)[..op.len])
                <==> (op.rs2 == 0 ==> s.regs[0][..op.len] == Zero()[..op.len]))
  {
    StoreTableIsIsa(env.fetch.ins);
    NoFault(s, env, op.len, EXC_MEM_STORE);
    StoreBytesMeaning(s.mem, s.mtval, s.regs[op.rs2][..op.len]);
    var t := StoreSpec(s, env).0;
    if op.rs2 == 0 && MemoryAfterStore(s.mem, t.mem, s.mtval, Zero()[..op.len]) {
      forall i | 0 <= i < op.len ensures s.regs[0][..op.len][i] == Zero()[..op.len][i] {
        assert t.mem[Plus(s.mtval, i)] == s.regs[0][..op.len][i];
      }
    }
  }

  /** Byte i of a store is the first whose access traps: exactly the bytes below
      were stored, the trap registers tell the cause and the address of that byte,
      and the instruction is repeated after a TLB miss and redirected after any
      other trap. */
  lemma FaultingStoreStopsThere(s: State, env: Env, op: Store, i: nat, cause: Cause)
    requires Valid(s) && env.fetch.Instr? && env.fetch.ins != 0 && op == IsaStore(env.fetch.ins) && op.Store?
    requires op.rs2 < 32 && i < op.len <= WORD_BYTES && Accessible(s, env, i, EXC_MEM_STORE)
    requires Fault(s.mem, env, Plus(s.mtval, i), EXC_MEM_STORE) == Some(cause)
    ensures var (t, ret) := StoreSpec(s, env);
            && t.mcause == cause && t.mtval == Plus(s.mtval, i) && t.mepc == s.mepc && t.regs == s.regs
            && ret == (if cause == EXC_TLB_MISS then 0 else 1)
            && MemoryAfterStore(s.mem, t.mem, s.mtval, s.regs[op.rs2][..i])
  {
    StoreTableIsIsa(env.fetch.ins);
    FirstFaultAt(s, env, op.len, i, EXC_MEM_STORE);
    StoreBytesMeaning(s.mem, s.mtval, s.regs[op.rs2][..i]);
  }

  // ----- restarts

  /** The instruction is executed again: it traps as misaligned at the same
      effective address. */
  function Again(s: State, addr: Addr): State {
    s.(mtval := addr, mcause := EXC_MIS_STORE)
  }

  /** This attempt ends with a TLB miss, at the fetch or at a byte. */
  ghost predicate Misses(s: State, env: Env, ins: bv32)
    requires Valid(s)
  {
    && (env.fetch.Instr? ==> env.fetch.ins == ins)
    && StoreSpec(s, env).1 == 0 && StoreSpec(s, env).0.mcause == EXC_TLB_MISS
  }

  /** All attempts but the last end with a TLB miss; the last one is given. */
  ghost predicate Restarts(s: State, envs: seq<Env>, ins: bv32)
    requires Valid(s) && envs != []
    decreases |envs|
  {
    |envs| > 1 ==> Misses(s, envs[0], ins) && Restarts(Again(StoreSpec(s, envs[0]).0, s.mtval), envs[1..], ins)
  }

  function AfterRestarts(s: State, envs: seq<Env>): State
    requires Valid(s) && envs != []
    decreases |envs|
  {
    var t := StoreSpec(s, envs[0]).0;
    if |envs| == 1 then t else AfterRestarts(Again(t, s.mtval), envs[1..])
  }

  ghost predicate Partial(s: State, t: State, bytes: seq<bv8>) {
    && t.regs == s.regs && t.mepc == s.mepc && t.mtval == s.mtval && t.mcause == EXC_MIS_STORE
    && StoreBytes(t.mem, s.mtval, bytes) == StoreBytes(s.mem, s.mtval, bytes)
  }

  /** An attempt that ends with a TLB miss leaves a memory from which the complete
      store leads to the same end. */
  lemma MissIsPartial(s: State, env: Env, ins: bv32, op: Store)
    requires Valid(s) && s.mcause == EXC_MIS_STORE && ins != 0 && op == IsaStore(ins) && op.Store?
    requires op.rs2 < 32 && 0 < op.len <= WORD_BYTES && Misses(s, env, ins)
    ensures Partial(s, Again(StoreSpec(s, env).0, s.mtval), s.regs[op.rs2][..op.len])
    ensures forall a :: a in s.mem ==> a in StoreSpec(s, env).0.mem
  {
    StoreTableIsIsa(ins);
    var bytes := s.regs[op.rs2][..op.len];
    if !NoInstruction(env) {
      FirstFaultBounds(s, env, s.mtval, 0, op.len, EXC_MEM_STORE);
      var f := FirstFault(s, env, s.mtval, 0, op.len, EXC_MEM_STORE);
      if f.Some? {
        assert bytes[..f.value] == s.regs[op.rs2][..f.value];
        StoreDetermines(s.mem, StoreBytes(s.mem, s.mtval, bytes[..f.value]), s.mtval, bytes[..f.value], bytes);
        StoreBytesKeepsKeys(s.mem, s.mtval, bytes[..f.value]);
      }
    }
  }

  /** A store that restarts any number of times after TLB misses, wherever they
      strike, and then completes, has the effect of one store: memory, registers
      and pc are those of a single undisturbed execution. */
  lemma {:induction false} RestartableStore(s: State, envs: seq<Env>, ins: bv32, op: Store)
    requires Valid(s) && s.mcause == EXC_MIS_STORE && envs != []
    requires ins != 0 && op == IsaStore(ins) && op.Store? && op.rs2 < 32 && 0 < op.len <= WORD_BYTES
    requires Restarts(s, envs, ins)
    requires envs[|envs| - 1].fetch == Instr(ins)
    requires forall i :: 0 <= i < op.len ==>
               Plus(s.mtval, i) in s.mem && Plus(s.mtval, i) !in envs[|envs| - 1].faults
    ensures var t := AfterRestarts(s, envs);
            && t.mem == StoreBytes(s.mem, s.mtval, s.regs[op.rs2][..op.len])
            && t.regs == s.regs && t.mepc == Plus(s.mepc, IsaLength(ins))
    decreases |envs|
  {
    if |envs| == 1 {
      StoreTableIsIsa(ins);
      NoFault(s, envs[0], op.len, EXC_MEM_STORE);
    } else {
      var t := Again(StoreSpec(s, envs[0]).0, s.mtval);
      MissIsPartial(s, envs[0], ins, op);
      assert forall i :: 0 <= i < op.len ==> Plus(s.mtval, i) in t.mem;
      RestartableStore(t, envs[1..], ins, op);
    }
  }

  // ----- register x0

  /** The len low bytes of an extended value are zero exactly when the bytes
      read among them are. */
  lemma ExtendedZeros(bytes: seq<bv8>, signed: bool, len: nat)
    requires 0 < |bytes| <= WORD_BYTES && 0 < len <= WORD_BYTES
    ensures Extended(bytes, signed)[..len] == Zero()[..len]
       <==> forall i :: 0 <= i < |bytes| && i < len ==> bytes[i] == 0
  {
    var w := Extended(bytes, signed);
    assert forall i :: 0 <= i < |bytes| ==> w[i] == bytes[i];
    if w[..len] == Zero()[..len] {
      forall i | 0 <= i < |bytes| && i < len ensures bytes[i] == 0 {
        assert w[..len][i] == Zero()[..len][i];
      }
    }
  }

  lemma BytesRead(s: State, addr: Addr, n: nat, signed: bool, len: nat)
    requires 0 < n <= WORD_BYTES && 0 < len <= WORD_BYTES && forall i :: 0 <= i < n ==> Plus(addr, i) in s.mem
    ensures Extended(LoadBytes(s, addr, n), signed)[..len] == Zero()[..len]
       <==> forall i :: 0 <= i < n && i < len ==> s.mem[Plus(addr, i)] == 0
  {
    var bytes := LoadBytes(s, addr, n);
    ExtendedZeros(bytes, signed, len);
    forall i | 0 <= i < n ensures bytes[i] == s.mem[Plus(addr, i)] {
    }
    if forall i :: 0 <= i < n && i < len ==> bytes[i] == 0 {
      forall i | 0 <= i < n && i < len ensures s.mem[Plus(addr, i)] == 0 {
        assert bytes[i] == 0;
      }
    }
  }

  /** What a completed load leaves in its destination's slot, as far as a store
      of len bytes will see it. */
  lemma SlotAfterLoad(s: State, env: Env, op: Load, len: nat)
    requires Valid(s) && env.fetch.Instr? && env.fetch.ins != 0
    requires op == IsaLoad(env.fetch.ins) && op.Load? && op.rd < 32 && 0 < op.len <= WORD_BYTES
    requires Accessible(s, env, op.len, EXC_MEM_LOAD) && 0 < len <= WORD_BYTES
    ensures forall i :: 0 <= i < op.len ==> Plus(s.mtval, i) in s.mem
    ensures LoadSpec(s, env).0.regs[op.rd][..len] == Zero()[..len]
       <==> forall i :: 0 <= i < op.len && i < len ==> s.mem[Plus(s.mtval, i)] == 0
    ensures op.rd != 0 ==> LoadSpec(s, env).0.regs[0] == s.regs[0]
  {
    LoadTableIsIsa(env.fetch.ins);
    NoFault(s, env, op.len, EXC_MEM_LOAD);
    LoadCompletes(s, env, op, InsLen(env.fetch.ins));
    BytesRead(s, s.mtval, op.len, op.signed, len);
  }

  /** A store of x0 writes zeros, as the ISA asks, exactly when slot 0 is clean as
      far as the store is wide. */
  lemma ZeroStore(s: State, env: Env, op: Store)
    requires Valid(s) && env.fetch.Instr? && env.fetch.ins != 0 && op == IsaStore(env.fetch.ins)
    requires op.Store? && op.rs2 == 0 && 0 < op.len <= WORD_BYTES && Accessible(s, env, op.len, EXC_MEM_STORE)
    ensures MemoryAfterStore(s.mem, StoreSpec(s, env).0.mem, s.mtval, Zero()[..op.len])
       <==> s.regs[0][..op.len] == Zero()[..op.len]
  {
    StoreIsArchitectural(s, env, op);
  }

  /** Line 537 stores into slot 0 when the destination is x0, and a later store of
      x0 reads that slot.  That store writes zeros, as the ISA asks, exactly when
      the load had another destination or the bytes it read, as far as the store
      is wide, were zero.  (Slot 0 was clean before the load; `later` is the hart
      when the store traps.) */
  lemma ZeroStoreAfterLoad(s: State, env: Env, op: Load, later: State, env2: Env, op2: Store)
    requires Valid(s) && s.regs[0] == Zero() && env.fetch.Instr? && env.fetch.ins != 0
    requires op == IsaLoad(env.fetch.ins) && op.Load? && op.rd < 32 && 0 < op.len <= WORD_BYTES
    requires Accessible(s, env, op.len, EXC_MEM_LOAD)
    requires Valid(later) && later.regs[0] == LoadSpec(s, env).0.regs[0]
    requires env2.fetch.Instr? && env2.fetch.ins != 0 && op2 == IsaStore(env2.fetch.ins)
    requires op2.Store? && op2.rs2 == 0 && 0 < op2.len <= WORD_BYTES && Accessible(later, env2, op2.len, EXC_MEM_STORE)
    ensures forall i :: 0 <= i < op.len ==> Plus(s.mtval, i) in s.mem
    ensures MemoryAfterStore(later.mem, StoreSpec(later, env2).0.mem, later.mtval, Zero()[..op2.len])
       <==> op.rd != 0 || forall i :: 0 <= i < op.len && i < op2.len ==> s.mem[Plus(s.mtval, i)] == 0
  {
    SlotAfterLoad(s, env, op, op2.len);
    ZeroStore(later, env2, op2);
  }

  /** One emulated access: where the hart stood when it trapped, and the outside. */
  datatype Emulated = Emulated(s: State, env: Env, isLoad: bool)

  function Result(e: Emulated): State
    requires Valid(e.s)
  {
    if e.isLoad then LoadSpec(e.s, e.env).0 else StoreSpec(e.s, e.env).0
  }

  /** Slot 0 before and after. */
  function Before(e: Emulated): Word
    requires Valid(e.s)
  {
    e.s.regs[0]
  }

  function SlotZero(e: Emulated): Word
    requires Valid(e.s)
  {
    Result(e).regs[0]
  }

  /** A load that completes and reads a byte other than zero. */
  ghost predicate ReadsSomething(s: State, env: Env, len: nat) {
    Accessible(s, env, len, EXC_MEM_LOAD)
    && exists i :: 0 <= i < len && Plus(s.mtval, i) in s.mem && s.mem[Plus(s.mtval, i)] != 0
  }

  /** A load of x0 that does. */
  ghost predicate BringsIn(e: Emulated)
    requires Valid(e.s)
  {
    e.isLoad && !NoInstruction(e.env) &&
    match DecodeLoad(e.env.fetch.ins)
    case NoLoad => false
    case Load(len, _, rd) => rd == 0 && ReadsSomething(e.s, e.env, len)
  }

  lemma LoadSlotZero(s: State, env: Env, op: Load, insLen: nat)
    requires Valid(s) && s.regs[0] == Zero() && op.Load? && op.rd < 32 && 0 < op.len <= WORD_BYTES
    ensures LoadOp(s, env, op, insLen).0.regs[0] == Zero() <==> !(op.rd == 0 && ReadsSomething(s, env, op.len))
  {
    FirstFaultBounds(s, env, s.mtval, 0, op.len, EXC_MEM_LOAD);
    if FirstFault(s, env, s.mtval, 0, op.len, EXC_MEM_LOAD).None? {
      LoadCompletes(s, env, op, insLen);
      BytesRead(s, s.mtval, op.len, op.signed, WORD_BYTES);
      var w := Extended(LoadBytes(s, s.mtval, op.len), op.signed);
      assert w[..WORD_BYTES] == w && Zero()[..WORD_BYTES] == Zero();
    }
  }

  lemma SlotZeroAfter(e: Emulated)
    requires Valid(e.s) && Before(e) == Zero()
    ensures SlotZero(e) == Zero() <==> !BringsIn(e)
  {
    if e.isLoad && !NoInstruction(e.env) && DecodeLoad(e.env.fetch.ins).Load? {
      LoadSlotZero(e.s, e.env, DecodeLoad(e.env.fetch.ins), InsLen(e.env.fetch.ins));
    }
  }

  /** Between two emulated accesses the program does what it likes, but the slot
      of x0 is only written here. */
  ghost predicate Chained(run: seq<Emulated>) {
    && (forall i :: 0 <= i < |run| ==> Valid(run[i].s))
    && (forall i :: 0 < i < |run| ==> Before(run[i]) == SlotZero(run[i - 1]))
  }

  /** A chain of words from zero: each step keeps zero unless it brings something in. */
  lemma {:induction false} CleanChain(before: seq<Word>, after: seq<Word>, brings: seq<bool>, k: nat)
    requires k <= |before| == |after| == |brings| && (before != [] ==> before[0] == Zero())
    requires forall i :: 0 < i < |before| ==> before[i] == after[i - 1]
    requires forall i :: 0 <= i < |before| && before[i] == Zero() ==> (after[i] == Zero() <==> !brings[i])
    ensures (forall i :: 0 <= i < k ==> after[i] == Zero()) <==> (forall i :: 0 <= i < k ==> !brings[i])
  {
    if k > 0 {
      CleanChain(before, after, brings, k - 1);
      if k > 1 {
        assert before[k - 1] == after[k - 2];
      }
    }
  }

  /** Over any series of emulated accesses the slot of x0 stays zero exactly when
      no load of x0 brings in a byte other than zero. */
  lemma SlotZeroStaysClean(run: seq<Emulated>)
    requires Chained(run) && run != [] && Before(run[0]) == Zero()
    ensures (forall i :: 0 <= i < |run| ==> SlotZero(run[i]) == Zero())
       <==> (forall i :: 0 <= i < |run| ==> !BringsIn(run[i]))
  {
    var n := |run|;
    var before := seq(n, i requires 0 <= i < n => Before(run[i]));
    var after := seq(n, i requires 0 <= i < n => SlotZero(run[i]));
    var brings := seq(n, i requires 0 <= i < n => BringsIn(run[i]));
    forall i | 0 <= i < n && before[i] == Zero() ensures after[i] == Zero() <==> !brings[i] {
      SlotZeroAfter(run[i]);
    }
    CleanChain(before, after, brings, n);
    assert forall i :: 0 <= i < n ==> after[i] == SlotZero(run[i]) && brings[i] == BringsIn(run[i]);
  }

  /** An instance: `lw x0, 0(x0)` emulated at address 1, where the byte 1 stands,
      then `sw x0, 0(x0)` emulated there.  The store leaves the 1 in place. */
  lemma ZeroStoreExample()
    ensures var s := State(seq(32, i => Zero()), map[1 := 1, 2 := 0, 3 := 0, 4 := 0], 0, 1, EXC_MIS_LOAD);
            var later := LoadSpec(s, Env(Instr(0x2003), map[], 0)).0.(mtval := 1, mcause := EXC_MIS_STORE);
            !MemoryAfterStore(later.mem, StoreSpec(later, Env(Instr(0x2023), map[], 0)).0.mem, 1, Zero()[..4])
  {
    var s := State(seq(32, i => Zero()), map[1 := 1, 2 := 0, 3 := 0, 4 := 0], 0, 1, EXC_MIS_LOAD);
    var load, store := Env(Instr(0x2003), map[], 0), Env(Instr(0x2023), map[], 0);
    var later := LoadSpec(s, load).0.(mtval := 1, mcause := EXC_MIS_STORE);
    var op, op2 := IsaLoad(0x2003), IsaStore(0x2023);
    assert op == Load(4, true, 0) && op2 == Store(4, 0);
    assert forall i :: 0 <= i < 4 ==> Plus(1, i) == 1 + i;
    LoadIsArchitectural(s, load, op, 0);
    ZeroStoreAfterLoad(s, load, op, later, store, op2);
    assert s.mem[Plus(1, 0)] == 1;
  }
}
