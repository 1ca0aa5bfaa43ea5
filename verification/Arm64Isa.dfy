/**
  The part of the A64 instruction set that the relocator reads or writes, after section C6.2 of
  the Arm Architecture Reference Manual (DDI 0487): the PC-relative instructions, the branches
  to a register, and the moves and the load that replace them. Every other instruction is
  `Plain`: its effect is a parameter of the machine.

  Memory is read in little-endian 32-bit words, the unit of every access modelled here.
 */
module Arm64Isa {
  import opened Words
  import opened Arm64Codec

  const TMP := 17

  datatype Flags = Flags(n: bool, z: bool, c: bool, v: bool)

  type Regs = x: seq<u64> | |x| == 31 witness seq(31, _ => 0)
  type VRegs = x: seq<nat> | |x| == 32 witness seq(32, _ => 0)

  /** sp is the stack pointer, sys whatever else instructions see: the system registers. */
  datatype State = State(pc: u64, x: Regs, sp: u64, v: VRegs, flags: Flags, sys: seq<u64>, mem: u64 -> u32)
  {
    /** General register r, where 31 is the zero register. */
    function X(r: u5): u64
    {
      if r == 31 then 0 else x[r]
    }

    function SetX(r: u5, value: u64): State
    {
      if r == 31 then this else this.(x := x[r := value])
    }

    function Load64(a: u64): u64 { mem(a) + mem(Wrap(a + 4)) * 0x1_0000_0000 }
    function Load128(a: u64): nat { Load64(a) + Load64(Wrap(a + 8)) * TWO64 }
  }

  /** The effect of all instructions this model does not interpret. */
  type PlainSem = (u32, State) -> State

  datatype Insn =
    | B(off: int)
    | BL(off: int)
    | BCond(cond: u4, off: int)
    | CompareBranch(is64: bool, nonZero: bool, rt: u5, off: int)
    | TestBranch(nonZero: bool, bitNo: u6, rt: u5, off: int)
    | Adr(rd: u5, off: int)
    | Adrp(rd: u5, off: int)
    | LdrLiteral(simd: bool, opc: u2, rt: u5, off: int)
    | MovZ(rd: u5, imm: u16, hw: u2)
    | MovK(rd: u5, imm: u16, hw: u2)
    | LdrX(rt: u5, rn: u5)
    | Br(rn: u5)
    | Blr(rn: u5)
    | Ret(rn: u5)
    | Plain(w: u32)

  function Decode(w: u32): Insn
  {
    var top := Top8(w);
    var off19 := SignExtend(Imm19(w) * 4, 0x10_0000);
    if w / 0x400_0000 == 0x05 then B(SignExtend(Imm26(w) * 4, 0x800_0000))
    else if w / 0x400_0000 == 0x25 then BL(SignExtend(Imm26(w) * 4, 0x800_0000))
    else if top == 0x54 then BCond(w % 16, off19)
    else if top % 128 / 2 == 0x1A then CompareBranch(top / 128 == 1, top % 2 == 1, Rd(w), off19)
    else if top % 128 / 2 == 0x1B then
      TestBranch(top % 2 == 1, top / 128 * 32 + B40(w), Rd(w), SignExtend(Imm14(w) * 4, 0x8000))
    else if top % 32 == 0x10 then
      var imm := SignExtend(Immlo(w) + Imm19(w) * 4, 0x10_0000);
      if top < 128 then Adr(Rd(w), imm) else Adrp(Rd(w), imm * 0x1000)
    else if top / 8 % 8 == 3 && top % 4 == 0 && !(top / 4 % 2 == 1 && top / 64 == 3) then
      LdrLiteral(top / 4 % 2 == 1, top / 64, Rd(w), off19)
    else if w / 0x80_0000 == 0x1A5 then MovZ(Rd(w), Imm16(w), w / 0x20_0000 % 4)
    else if w / 0x80_0000 == 0x1E5 then MovK(Rd(w), Imm16(w), w / 0x20_0000 % 4)
    else if w / 0x400 == 0x3E_5000 && w / 32 % 32 != 31 then LdrX(Rd(w), w / 32 % 32)
    else if w / 0x400 == 0x35_87C0 && Rd(w) == 0 then Br(w / 32 % 32)
    else if w / 0x400 == 0x35_8FC0 && Rd(w) == 0 then Blr(w / 32 % 32)
    else if w / 0x400 == 0x35_97C0 && Rd(w) == 0 then Ret(w / 32 % 32)
    else Plain(w)
  }

  /** ConditionHolds of section C1.2.4: the low bit negates, except in 0b1111. */
  predicate CondHolds(cond: u4, f: Flags)
  {
    var base :=
      match cond / 2
      case 0 => f.z
      case 1 => f.c
      case 2 => f.n
      case 3 => f.v
      case 4 => f.c && !f.z
      case 5 => f.n == f.v
      case 6 => f.n == f.v && !f.z
      case _ => true;
    if cond % 2 == 1 && cond != 15 then !base else base
  }

  function Pow16(hw: u2): nat
  {
    match hw case 0 => 1 case 1 => 0x1_0000 case 2 => 0x1_0000_0000 case _ => 0x1_0000_0000_0000
  }

  /** imm in the 16-bit lane hw */
  function InLane(imm: u16, hw: u2): u64
  {
    match hw
    case 0 => imm
    case 1 => imm * 0x1_0000
    case 2 => imm * 0x1_0000_0000
    case _ => imm * 0x1_0000_0000_0000
  }

  /** A word is what is above a lane, the lane, and what is below it. */
  lemma LaneParts(x: u64, p: nat)
    requires p > 0
    ensures p * 0x1_0000 > 0 && x == x / (p * 0x1_0000) * (p * 0x1_0000) + x / p % 0x1_0000 * p + x % p
    ensures x / (p * 0x1_0000) >= 0
  {
    DivDiv(x, p, 0x1_0000);
  }

  /** x with its 16-bit lane hw replaced */
  function SetLane(x: u64, hw: u2, imm: u16): u64
  {
    match hw
    case 0 => x - x % 0x1_0000 + imm
    case 1 =>
      LaneParts(x, 0x1_0000);
      x - x / 0x1_0000 % 0x1_0000 * 0x1_0000 + imm * 0x1_0000
    case 2 =>
      LaneParts(x, 0x1_0000_0000);
      x - x / 0x1_0000_0000 % 0x1_0000 * 0x1_0000_0000 + imm * 0x1_0000_0000
    case _ =>
      LaneParts(x, 0x1_0000_0000_0000);
      x - x / 0x1_0000_0000_0000 % 0x1_0000 * 0x1_0000_0000_0000 + imm * 0x1_0000_0000_0000
  }

  function SignExtend32(x: u32): u64 { if x < 0x8000_0000 then x else x + 0xFFFF_FFFF_0000_0000 }

  /** The tested operand of CBZ / CBNZ: a W form looks at the low half. */
  function CompareOperand(s: State, rt: u5, is64: bool): u64
  {
    if is64 then s.X(rt) else s.X(rt) % 0x1_0000_0000
  }

  predicate TestedBit(s: State, rt: u5, bitNo: u6)
  {
    s.X(rt) / Pow2(bitNo) % 2 == 1
  }

  /** Is the branch taken in s? (false for instructions that always fall through) */
  predicate Taken(i: Insn, s: State)
  {
    match i
    case B(_) => true
    case BL(_) => true
    case BCond(cond, _) => CondHolds(cond, s.flags)
    case CompareBranch(is64, nonZero, rt, _) => (CompareOperand(s, rt, is64) != 0) == nonZero
    case TestBranch(nonZero, bitNo, rt, _) => TestedBit(s, rt, bitNo) == nonZero
    case Br(_) => true
    case Blr(_) => true
    case Ret(_) => true
    case _ => false
  }

  /** One instruction, fetched as w, executed in s. */
  function Exec(plain: PlainSem, w: u32, s: State): State
  {
    var next := Wrap(s.pc + 4);
    match Decode(w)
    case B(off) => s.(pc := Wrap(s.pc + off))
    case BL(off) => s.(x := s.x[30 := next], pc := Wrap(s.pc + off))
    case BCond(cond, off) => s.(pc := if CondHolds(cond, s.flags) then Wrap(s.pc + off) else next)
    case CompareBranch(_, _, _, off) => s.(pc := if Taken(Decode(w), s) then Wrap(s.pc + off) else next)
    case TestBranch(_, _, _, off) => s.(pc := if Taken(Decode(w), s) then Wrap(s.pc + off) else next)
    case Adr(rd, off) => s.SetX(rd, Wrap(s.pc + off)).(pc := next)
    case Adrp(rd, off) => s.SetX(rd, Wrap(TruncPage(s.pc) + off)).(pc := next)
    case LdrLiteral(simd, opc, rt, off) => LoadLiteral(s, simd, opc, rt, Wrap(s.pc + off)).(pc := next)
    case MovZ(rd, imm, hw) => s.SetX(rd, InLane(imm, hw)).(pc := next)
    case MovK(rd, imm, hw) => s.SetX(rd, SetLane(s.X(rd), hw, imm)).(pc := next)
    case LdrX(rt, rn) => s.SetX(rt, s.Load64(s.X(rn))).(pc := next)
    case Br(rn) => s.(pc := s.X(rn))
    case Blr(rn) => s.(x := s.x[30 := next], pc := s.X(rn))
    case Ret(rn) => s.(pc := s.X(rn))
    case Plain(_) => plain(w, s).(pc := next)
  }

  /** What LDR (literal), LDRSW (literal), PRFM (literal) and their SIMD forms load from a. */
  function LoadLiteral(s: State, simd: bool, opc: u2, rt: u5, a: u64): State
  {
    if simd then
      s.(v := s.v[rt := if opc == 0 then s.mem(a) else if opc == 1 then s.Load64(a) else s.Load128(a)])
    else if opc == 0 then s.SetX(rt, s.mem(a))
    else if opc == 1 then s.SetX(rt, s.Load64(a))
    else if opc == 2 then s.SetX(rt, SignExtend32(s.mem(a)))
    else s
  }

  /** n instructions fetched from memory. */
  function Steps(plain: PlainSem, s: State, n: nat): State
    decreases n
  {
    if n == 0 then s else Steps(plain, Exec(plain, s.mem(s.pc), s), n - 1)
  }

  lemma {:induction false} StepsCompose(plain: PlainSem, s: State, m: nat, n: nat)
    ensures Steps(plain, s, m + n) == Steps(plain, Steps(plain, s, m), n)
    decreases m
  {
    hide Exec;
    if m > 0 {
      assert m + n - 1 == (m - 1) + n;
      StepsCompose(plain, Exec(plain, s.mem(s.pc), s), m - 1, n);
    }
  }
}
