/**
  The part of x86-64 the relocator reads or writes, on bytes: relative jumps and calls, jumps and
  calls through a RIP-relative memory operand, other RIP-relative instructions, the instructions
  that are given the address of the next one, and everything else as position-independent
  instructions whose effect is a parameter.
 */
module X64Isa {
  import opened Words

  function Sext8(x: u8): int { if x < 128 then x else x - 256 }
  function Sext32(x: u32): int { if x < 0x8000_0000 then x else x - TWO32 }

  /** Storing the low 32 bits of x and sign-extending them gives x back exactly when x is a signed 32-bit number. */
  lemma Disp32Exact(x: int)
    ensures Sext32(Wrap32(x)) == x <==> -0x8000_0000 <= x < 0x8000_0000
  {
  }

  // ----- machine

  datatype Flags = Flags(cf: bool, pf: bool, zf: bool, sf: bool, of: bool)

  type Regs = r: seq<u64> | |r| == 16 witness seq(16, _ => 0)
  const RCX := 1
  const RSP := 4

  /** What is at x after v has been stored at a. */
  function StoredByte(mem: u64 -> u8, a: u64, v: u64, x: u64): u8
  {
    var i := Wrap((x as int) - a);
    if i < 8 then ReadLE64(v); LE64(v)[i] else mem(x)
  }

  /** Everything but the instruction pointer. */
  datatype Machine = Machine(regs: Regs, vec: seq<nat>, flags: Flags, mem: u64 -> u8)
  {
    function Bytes(a: u64, n: nat): (r: seq<u8>)
      ensures |r| == n
    {
      seq<u8>(n, k requires 0 <= k < n => mem(Wrap(a + k)))
    }

    function Load64(a: u64): u64 { Read64(Bytes(a, 8)) }

    function Store64(a: u64, v: u64): Machine
    {
      this.(mem := (x: u64) => StoredByte(mem, a, v, x))
    }

    function Push64(v: u64): Machine
    {
      var sp := Wrap((regs[RSP] as int) - 8);
      this.(regs := regs[RSP := sp]).Store64(sp, v)
    }
  }

  datatype State = State(rip: u64, m: Machine)

  /** The effect of a position-independent instruction: a new machine, and a jump if it is one. */
  datatype Effect = Effect(m: Machine, jump: Option<u64>)

  /**
    The processor, as far as it is not spelled out here: plain instructions, given their bytes,
    instructions with a RIP-relative operand, given the bytes before the displacement, those
    behind it, and the effective address, and the targets of calls through a register or another
    memory operand; of far calls the target and, given the return address, what is pushed; where
    a system call enters the kernel, and with what but the return address; whether a transaction
    begins, and the machine if it does or does not. None sees the instruction pointer.
   */
  datatype Cpu = Cpu(plain: (seq<u8>, Machine) -> Effect, ripOperand: (seq<u8>, seq<u8>, u64, Machine) -> Effect,
                     callTarget: (seq<u8>, Machine) -> u64, farTarget: (seq<u8>, Option<u64>, Machine) -> u64,
                     farPush: (seq<u8>, u64, Machine) -> Machine, system: Machine -> State,
                     transaction: Machine -> (bool, Machine))

  // ----- decoded instructions

  /** The decoder's record: the bytes, the primary opcode and where it is, and the operand fields. */
  datatype Insn = Insn(bytes: seq<u8>, opcode: u8, opcodeAt: nat, escape: bool,
                       immOffset: nat, ripRelative: bool, dispOffset: nat)
  {
    function Length(): nat { |bytes| }

    /** The low byte of the immediate the decoder has read, unsigned; 0 if it has read none */
    function Imm8(): u8 { if 0 < immOffset < |bytes| then bytes[immOffset] else 0 }

    function Imm32(): u32
      requires |bytes| >= 4
    {
      Read32(bytes[|bytes| - 4..])
    }

    function Disp(): u32
      requires dispOffset + 4 <= |bytes|
    {
      Read32(bytes[dispOffset..dispOffset + 4])
    }
  }

  datatype Kind =
    | JccRel8 | JccRel32 | JmpRel8 | JmpRel32 | CallRel32 | LoopRel8
    | JmpMem        // through a RIP-relative memory operand
    | CallMem
    | FarCallMem
    | RipOperand    // any other instruction with one
    | CallIndirect  // through a register, or a memory operand that is not RIP-relative
    | FarCall       // through a memory operand that is not RIP-relative
    | SysCall
    | XBegin
    | Plain

  predicate IsPrefix(b: u8)
  {
    b == 0xF0 || b == 0xF2 || b == 0xF3 || b == 0x2E || b == 0x36 || b == 0x3E || b == 0x26 || b == 0x64 || b == 0x65
    || b == 0x66 || b == 0x67 || 0x40 <= b <= 0x4F
  }

  /** The operation that the ModRM byte behind opcode FF selects; 8 for other opcodes. */
  function Group5(d: Insn): int
  {
    if !d.escape && d.opcode == 0xFF && d.opcodeAt + 1 < |d.bytes| then d.bytes[d.opcodeAt + 1] / 8 % 8 else 8
  }

  /** XBEGIN has the opcode of a move, and a ModRM byte that no such move has. */
  predicate IsXBegin(d: Insn)
  {
    !d.escape && d.opcode == 0xC7 && d.opcodeAt + 1 < |d.bytes| && d.bytes[d.opcodeAt + 1] == 0xF8
  }

  /** What the instruction is. */
  function KindOf(d: Insn): Kind
  {
    if !d.escape && 0x70 <= d.opcode <= 0x7F then JccRel8
    else if d.escape && 0x80 <= d.opcode <= 0x8F then JccRel32
    else if !d.escape && d.opcode == 0xEB then JmpRel8
    else if !d.escape && d.opcode == 0xE9 then JmpRel32
    else if !d.escape && d.opcode == 0xE8 then CallRel32
    else if !d.escape && 0xE0 <= d.opcode <= 0xE3 then LoopRel8
    else if d.ripRelative then
      if Group5(d) == 4 then JmpMem else if Group5(d) == 2 then CallMem
      else if Group5(d) == 3 then FarCallMem else RipOperand
    else if Group5(d) == 2 then CallIndirect
    else if Group5(d) == 3 then FarCall
    else if d.escape && d.opcode == 0x05 then SysCall
    else if IsXBegin(d) then XBegin
    else Plain
  }

  /** The record describes its bytes. */
  ghost predicate WellFormed(d: Insn)
  {
    && 1 <= |d.bytes| <= 15 && d.opcodeAt < |d.bytes| && d.bytes[d.opcodeAt] == d.opcode
    && (forall k :: 0 <= k < d.opcodeAt ==>
         IsPrefix(d.bytes[k]) || (d.escape && k == d.opcodeAt - 1 && d.bytes[k] == 0x0F))
    && (d.escape <==> d.opcodeAt > 0 && d.bytes[d.opcodeAt - 1] == 0x0F)
    && (d.ripRelative ==> var k := KindOf(d); k.JmpMem? || k.CallMem? || k.FarCallMem? || k.RipOperand?)
    && (d.immOffset == 0 || d.opcodeAt < d.immOffset)
    && match KindOf(d)
       case JccRel8 => d.immOffset == d.opcodeAt + 1 == |d.bytes| - 1
       case JmpRel8 => d.immOffset == d.opcodeAt + 1 == |d.bytes| - 1
       case LoopRel8 => d.immOffset == d.opcodeAt + 1 == |d.bytes| - 1
       case JccRel32 => d.immOffset == d.opcodeAt + 1 == |d.bytes| - 4
       case JmpRel32 => d.immOffset == d.opcodeAt + 1 == |d.bytes| - 4
       case CallRel32 => d.immOffset == d.opcodeAt + 1 == |d.bytes| - 4
       case JmpMem => d.opcodeAt + 2 == d.dispOffset == |d.bytes| - 4 && d.immOffset == 0
       case CallMem => d.opcodeAt + 2 == d.dispOffset == |d.bytes| - 4 && d.immOffset == 0
       case FarCallMem => d.opcodeAt + 2 == d.dispOffset == |d.bytes| - 4 && d.immOffset == 0
       case RipOperand => d.opcodeAt + 2 == d.dispOffset
                          && if d.immOffset == 0 then d.dispOffset + 4 == |d.bytes|
                             else d.immOffset == d.dispOffset + 4 < |d.bytes|
       case XBegin => d.immOffset == d.opcodeAt + 2 == |d.bytes| - 4
       case _ => true
  }

  /** Condition code cc (the low four bits of a jcc opcode). */
  predicate CondHolds(cc: int, f: Flags)
    requires 0 <= cc < 16
  {
    var base :=
      match cc / 2
      case 0 => f.of
      case 1 => f.cf
      case 2 => f.zf
      case 3 => f.cf || f.zf
      case 4 => f.sf
      case 5 => f.pf
      case 6 => f.sf != f.of
      case _ => f.zf || f.sf != f.of;
    if cc % 2 == 1 then !base else base
  }

  /** The effect of an instruction with a RIP-relative operand. */
  function RipEffect(cpu: Cpu, d: Insn, s: State): Effect
    requires d.dispOffset + 4 <= |d.bytes|
  {
    cpu.ripOperand(d.bytes[..d.dispOffset], d.bytes[d.dispOffset + 4..],
        Wrap(Wrap(s.rip + d.Length()) + Sext32(d.Disp())), s.m)
  }

  /**
    One instruction, whose bytes are at s.rip, executed. SYSCALL leaves the address of the next one in
    RCX. LOOP and JCXZ are left to the plain effects.
   */
  function Exec(cpu: Cpu, d: Insn, s: State): State
    requires WellFormed(d)
  {
    var next := Wrap(s.rip + d.Length());
    match KindOf(d)
    case JccRel8 => State(if CondHolds(d.opcode % 16, s.m.flags) then Wrap(next + Sext8(d.Imm8())) else next, s.m)
    case JccRel32 => State(if CondHolds(d.opcode % 16, s.m.flags) then Wrap(next + Sext32(d.Imm32())) else next, s.m)
    case JmpRel8 => State(Wrap(next + Sext8(d.Imm8())), s.m)
    case JmpRel32 => State(Wrap(next + Sext32(d.Imm32())), s.m)
    case CallRel32 => State(Wrap(next + Sext32(d.Imm32())), s.m.Push64(next))
    case JmpMem => State(s.m.Load64(Wrap(next + Sext32(d.Disp()))), s.m)
    case CallMem => State(s.m.Load64(Wrap(next + Sext32(d.Disp()))), s.m.Push64(next))
    case FarCallMem =>
      State(cpu.farTarget(d.bytes[..d.dispOffset], Some(Wrap(next + Sext32(d.Disp()))), s.m),
          cpu.farPush(d.bytes[..d.dispOffset], next, s.m))
    case CallIndirect => State(cpu.callTarget(d.bytes, s.m), s.m.Push64(next))
    case FarCall => State(cpu.farTarget(d.bytes, None, s.m), cpu.farPush(d.bytes, next, s.m))
    case SysCall =>
      var e := cpu.system(s.m);
      State(e.rip, e.m.(regs := e.m.regs[RCX := next]))
    case XBegin =>
      var (begun, m) := cpu.transaction(s.m);
      State(if begun then next else Wrap(next + Sext32(d.Imm32())), m)
    case RipOperand =>
      var e := RipEffect(cpu, d, s);
      State(if e.jump.Some? then e.jump.value else next, e.m)
    case _ =>
      var e := cpu.plain(d.bytes, s.m);
      State(if e.jump.Some? then e.jump.value else next, e.m)
  }

  /** b sits at address a. */
  ghost predicate At(m: Machine, a: u64, b: seq<u8>)
  {
    m.Bytes(a, |b|) == b
  }

  /** Executing the instructions ds, each found at the instruction pointer in turn, leads from s to t. */
  ghost predicate Runs(cpu: Cpu, s: State, ds: seq<Insn>, t: State)
    decreases |ds|
  {
    if ds == [] then s == t
    else WellFormed(ds[0]) && At(s.m, s.rip, ds[0].bytes) && Runs(cpu, Exec(cpu, ds[0], s), ds[1..], t)
  }

  lemma {:induction false} RunsCompose(cpu: Cpu, s: State, ds: seq<Insn>, t: State, es: seq<Insn>, u: State)
    requires Runs(cpu, s, ds, t) && Runs(cpu, t, es, u)
    ensures Runs(cpu, s, ds + es, u)
    decreases |ds|
  {
    hide Exec, WellFormed;
    if ds == [] {
      assert ds + es == es;
    } else {
      RunsCompose(cpu, Exec(cpu, ds[0], s), ds[1..], t, es, u);
      assert (ds + es)[0] == ds[0] && (ds + es)[1..] == ds[1..] + es;
    }
  }

  // ----- bytes in memory

  /** Bytes in a row are the first of them and the rest. */
  lemma AtSplit(m: Machine, a: u64, x: seq<u8>, y: seq<u8>)
    requires At(m, a, x + y) && a + |x| < TWO64
    ensures At(m, a, x) && At(m, a + |x|, y)
  {
    var all := m.Bytes(a, |x + y|);
    forall k | 0 <= k < |x|
      ensures m.Bytes(a, |x|)[k] == x[k]
    {
      assert all[k] == (x + y)[k];
    }
    forall k | 0 <= k < |y|
      ensures m.Bytes(a + |x|, |y|)[k] == y[k]
    {
      assert all[|x| + k] == (x + y)[|x| + k];
    }
  }

  lemma AtLoad64(m: Machine, a: u64, v: u64)
    requires At(m, a, LE64(v))
    ensures m.Load64(a) == v
  {
    ReadLE64(v);
  }
}
