/** The instructions that src/emu_ldst.c emulates (64-bit build, integer
    registers): its match and mask table against the encodings of the RISC-V
    Unprivileged ISA 20191213, sections 2.6, 5.3 and 16.3. */
module Decode {

  /** An integer load: bytes read, sign extension, destination register. */
  datatype Load = NoLoad | Load(len: nat, signed: bool, rd: nat)

  /** An integer store: bytes written, source register. */
  datatype Store = NoStore | Store(len: nat, rs2: nat)

  // ----- the table of the source

  /** REG_NUM, line 106. */
  function RegNum(ins: bv32, pos: bv5): (r: nat)
    ensures r < 32
  {
    ((ins >> pos) & 0x1f) as nat
  }

  /** RVC_RS2S, line 104. */
  function RvcRs2s(ins: bv32): bv32 {
    8 + ((ins >> 2) & 7)
  }

  lemma PrimeFields(ins: bv32)
    ensures RegNum(RvcRs2s(ins) << 7, 7) == 8 + ((ins >> 2) & 7) as nat
    ensures RegNum(RvcRs2s(ins), 0) == 8 + ((ins >> 2) & 7) as nat
  {
    var f: bv32 := (ins >> 2) & 7;
    assert ((((8 + f) << 7) >> 7) & 0x1f) == 8 + f;
    assert ((8 + f) & 0x1f) == 8 + f;
    assert (8 + f) as nat == 8 + f as nat;
  }

  /** Lines 428-474 and 532-537.  A compressed load moves its three-bit register
      field to where SET_RD looks for it. */
  function DecodeLoad(ins: bv32): (op: Load)
    ensures op.Load? ==> op.rd < 32 && (op.len == 2 || op.len == 4 || op.len == 8)
  {
    if ins & 0x707f == 0x2003 then Load(4, true, RegNum(ins, 7))
    else if ins & 0x707f == 0x3003 then Load(8, true, RegNum(ins, 7))
    else if ins & 0x707f == 0x6003 then Load(4, false, RegNum(ins, 7))
    else if ins & 0x707f == 0x1003 then Load(2, true, RegNum(ins, 7))
    else if ins & 0x707f == 0x5003 then Load(2, false, RegNum(ins, 7))
    else if ins & 0xe003 == 0x6000 then Load(8, true, RegNum(RvcRs2s(ins) << 7, 7))
    else if ins & 0xe003 == 0x6002 && RegNum(ins, 7) != 0 then Load(8, true, RegNum(ins, 7))
    else if ins & 0xe003 == 0x4000 then Load(4, true, RegNum(RvcRs2s(ins) << 7, 7))
    else if ins & 0xe003 == 0x4002 && RegNum(ins, 7) != 0 then Load(4, true, RegNum(ins, 7))
    else NoLoad
  }

  /** Lines 566-625. */
  function DecodeStore(ins: bv32): (op: Store)
    ensures op.Store? ==> op.rs2 < 32 && (op.len == 2 || op.len == 4 || op.len == 8)
  {
    if ins & 0x707f == 0x2023 then Store(4, RegNum(ins, 20))
    else if ins & 0x707f == 0x3023 then Store(8, RegNum(ins, 20))
    else if ins & 0x707f == 0x1023 then Store(2, RegNum(ins, 20))
    else if ins & 0xe003 == 0xe000 then Store(8, RegNum(RvcRs2s(ins), 0))
    else if ins & 0xe003 == 0xe002 then Store(8, RegNum(ins, 2))
    else if ins & 0xe003 == 0xc000 then Store(4, RegNum(RvcRs2s(ins), 0))
    else if ins & 0xe003 == 0xc002 then Store(4, RegNum(ins, 2))
    else NoStore
  }

  /** Line 417. */
  function InsLen(ins: bv32): nat {
    if ins & 3 == 3 then 4 else 2
  }

  // ----- the encodings of the ISA, field by field

  function Low2(ins: bv32): bv32 { ins & 3 }
  function Opcode(ins: bv32): bv32 { ins & 0x7f }
  function Funct3(ins: bv32): bv32 { (ins >> 12) & 7 }
  function CFunct3(ins: bv32): bv32 { (ins >> 13) & 7 }
  function Field5(ins: bv32, low: bv5): nat { ((ins >> low) & 31) as nat }
  function PrimeReg(ins: bv32): nat { 8 + ((ins >> 2) & 7) as nat }

  /** Section 1.5: the two low bits tell the length of an instruction. */
  function IsaLength(ins: bv32): nat {
    if Low2(ins) == 3 then 4 else 2
  }

  /** LH, LW, LD, LHU, LWU; C.LW, C.LD; C.LWSP and C.LDSP with rd other than
      x0.  (A byte access is never misaligned.) */
  function IsaLoad(ins: bv32): Load {
    if Low2(ins) == 3 then
      if Opcode(ins) != 0x03 then NoLoad
      else if Funct3(ins) == 1 then Load(2, true, Field5(ins, 7))
      else if Funct3(ins) == 2 then Load(4, true, Field5(ins, 7))
      else if Funct3(ins) == 3 then Load(8, true, Field5(ins, 7))
      else if Funct3(ins) == 5 then Load(2, false, Field5(ins, 7))
      else if Funct3(ins) == 6 then Load(4, false, Field5(ins, 7))
      else NoLoad
    else if Low2(ins) == 0 then
      if CFunct3(ins) == 2 then Load(4, true, PrimeReg(ins))
      else if CFunct3(ins) == 3 then Load(8, true, PrimeReg(ins))
      else NoLoad
    else if Low2(ins) == 2 && Field5(ins, 7) != 0 then
      if CFunct3(ins) == 2 then Load(4, true, Field5(ins, 7))
      else if CFunct3(ins) == 3 then Load(8, true, Field5(ins, 7))
      else NoLoad
    else NoLoad
  }

  /** SH, SW, SD; C.SW, C.SD; C.SWSP, C.SDSP. */
  function IsaStore(ins: bv32): Store {
    if Low2(ins) == 3 then
      if Opcode(ins) != 0x23 then NoStore
      else if Funct3(ins) == 1 then Store(2, Field5(ins, 20))
      else if Funct3(ins) == 2 then Store(4, Field5(ins, 20))
      else if Funct3(ins) == 3 then Store(8, Field5(ins, 20))
      else NoStore
    else if Low2(ins) == 0 then
      if CFunct3(ins) == 6 then Store(4, PrimeReg(ins))
      else if CFunct3(ins) == 7 then Store(8, PrimeReg(ins))
      else NoStore
    else if Low2(ins) == 2 then
      if CFunct3(ins) == 6 then Store(4, Field5(ins, 2))
      else if CFunct3(ins) == 7 then Store(8, Field5(ins, 2))
      else NoStore
    else NoStore
  }

  lemma LoadTableIsIsa(ins: bv32)
    ensures DecodeLoad(ins) == IsaLoad(ins)
  {
    PrimeFields(ins);
  }

  lemma StoreTableIsIsa(ins: bv32)
    ensures DecodeStore(ins) == IsaStore(ins)
  {
    PrimeFields(ins);
  }
}
