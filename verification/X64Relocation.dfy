/**
  The x86-64 relocator as a function from the decoded instructions of the window to the bytes it
  emits (GenRelocateSingleX86Insn, GenRelocateCodeFixed), and the proof that those bytes, with
  the detour sequences they refer to, simulate the window.
 */
module X64Relocation {
  import opened Words
  import opened X64Isa

  type Patch = (u64, seq<u8>)

  /** The bytes emitted for an instruction, and the detour sequence written elsewhere for it, if any. */
  datatype Piece = Piece(code: seq<u8>, patches: seq<Patch>)

  /** codegen_x64_jmp_absolute_addr: jmp [rip + 0], followed by the address */
  function JmpAbsolute(target: u64): (r: seq<u8>)
    ensures |r| == 14
  {
    [0xFF, 0x25] + LE32(0) + LE64(target)
  }

  /** The length of a detour sequence. */
  function DetourLength(d: Insn): nat { d.Length() + 6 + 8 }

  predicate UsesDetour(d: Insn) { !(0x70 <= d.opcode <= 0x7F) && d.ripRelative }

  /** Where the instruction's relative jump, call or memory operand leads from address ip. */
  function Rel8Target(d: Insn, ip: u64): u64
    requires d.bytes != []
  {
    Wrap(ip + d.Length() + Sext8(d.Imm8()))
  }

  function Rel32Target(d: Insn, ip: u64): u64
    requires |d.bytes| >= 4
  {
    Wrap(ip + d.Length() + Sext32(d.Imm32()))
  }

  function MemTarget(d: Insn, ip: u64): u64
    requires d.dispOffset + 4 <= |d.bytes|
  {
    Wrap(ip + d.Length() + Sext32(d.Disp()))
  }

  /** The detour sequence at seqAddr: the instruction with a new displacement, and the jump back. */
  function Detour(d: Insn, ip: u64, reloIp: u64, seqAddr: u64): seq<u8>
    requires d.dispOffset + 4 <= |d.bytes| && d.immOffset <= |d.bytes|
  {
    d.bytes[..d.dispOffset]
    + LE32(Wrap32(MemTarget(d, ip) - (seqAddr + d.Length())))
    + (if d.immOffset != 0 then d.bytes[d.immOffset..] else [])
    + JmpAbsolute(Wrap(reloIp + 14))
  }

  /** The relocator's assumptions about the decoder's record, which it does not check. */
  predicate Readable(d: Insn)
  {
    && d.bytes != []
    && (d.ripRelative ==> d.dispOffset + 4 <= |d.bytes| && d.immOffset <= |d.bytes|)
    && (d.opcode == 0xE8 || d.opcode == 0xE9 ==> |d.bytes| >= 4)
  }

  lemma WellFormedReadable(d: Insn)
    requires WellFormed(d) && InScope(d)
    ensures Readable(d)
  {
  }

  /**
    GenRelocateSingleX86Insn for the instruction at ip, emitted at reloIp, with seqAddr allocated
    for a detour. It looks at the primary opcode only, so not at the 0F escape. None is an abort.
   */
  function RelocateInsn(d: Insn, ip: u64, reloIp: u64, seqAddr: u64): Option<Piece>
    requires Readable(d)
  {
    if 0x70 <= d.opcode <= 0x7F then
      Some(Piece([d.opcode, 2] + [0xEB, 14] + JmpAbsolute(Rel8Target(d, ip)), []))
    else if d.ripRelative then
      Some(Piece(JmpAbsolute(seqAddr), [(seqAddr, Detour(d, ip, reloIp, seqAddr))]))
    else if d.opcode == 0xEB then
      Some(Piece(JmpAbsolute(Rel8Target(d, ip)), []))
    else if d.opcode == 0xE8 || d.opcode == 0xE9 then
      if d.immOffset != 1 then None
      else if d.opcode == 0xE8 then
        Some(Piece([0xFF, 0x15] + LE32(2) + [0xEB, 8] + LE64(Rel32Target(d, ip)), []))
      else
        Some(Piece(JmpAbsolute(Rel32Target(d, ip)), []))
    else if 0xE0 <= d.opcode <= 0xE3 then None
    else Some(Piece(d.bytes, []))
  }

  /** How many bytes are emitted: the same wherever the instruction and its relocation are. */
  function EmitLength(d: Insn): nat
  {
    if 0x70 <= d.opcode <= 0x7F then 18
    else if d.ripRelative then 14
    else if d.opcode == 0xEB then 14
    else if d.opcode == 0xE8 then 16
    else if d.opcode == 0xE9 then 14
    else d.Length()
  }

  /**
    The instructions the relocator is written for: it has no form for the long conditional jumps
    (0F 80 to 0F 8F) and XBEGIN, which it copies as they are, nor for LOOP and JCXZ (on which it
    aborts), and it takes the opcodes behind a 0F escape for the one-byte opcodes of the same
    number.
   */
  predicate InScope(d: Insn)
  {
    && !KindOf(d).JccRel32? && !KindOf(d).LoopRel8? && !KindOf(d).XBegin?
    && (d.escape ==> !(0x70 <= d.opcode <= 0x7F))
    && (d.escape && !d.ripRelative ==>
         !(d.opcode == 0xE8 || d.opcode == 0xE9 || d.opcode == 0xEB || 0xE0 <= d.opcode <= 0xE3))
  }

  // ----- the emitted instructions

  const JMP_MEM: Insn := Insn([0xFF, 0x25, 0, 0, 0, 0], 0xFF, 0, false, 0, true, 2)
  const CALL_MEM: Insn := Insn([0xFF, 0x15, 2, 0, 0, 0], 0xFF, 0, false, 0, true, 2)
  function JmpShort(rel: u8): Insn { Insn([0xEB, rel], 0xEB, 0, false, 1, false, 0) }
  function JccShort(opcode: u8, rel: u8): Insn { Insn([opcode, rel], opcode, 0, false, 1, false, 0) }

  lemma ExecShort(cpu: Cpu, t: State, opcode: u8, rel: u8)
    requires rel < 128 && t.rip + 2 + rel < TWO64
    ensures WellFormed(JmpShort(rel)) && Exec(cpu, JmpShort(rel), t) == State(t.rip + 2 + rel, t.m)
    ensures 0x70 <= opcode <= 0x7F ==>
              && WellFormed(JccShort(opcode, rel))
              && Exec(cpu, JccShort(opcode, rel), t)
                 == State(if CondHolds(opcode % 16, t.m.flags) then t.rip + 2 + rel else t.rip + 2, t.m)
  {
    hide CondHolds;
  }

  lemma ExecMem(cpu: Cpu, t: State)
    requires t.rip + 8 < TWO64
    ensures WellFormed(JMP_MEM) && Exec(cpu, JMP_MEM, t) == State(t.m.Load64(t.rip + 6), t.m)
    ensures WellFormed(CALL_MEM) && Exec(cpu, CALL_MEM, t) == State(t.m.Load64(t.rip + 8), t.m.Push64(t.rip + 6))
  {
    hide Machine.Load64, Machine.Push64, KindOf, WellFormed, JMP_MEM, CALL_MEM;
    MemForms();
    assert Sext32(0) == 0 && Sext32(2) == 2;
  }

  lemma MemForms()
    ensures WellFormed(JMP_MEM) && KindOf(JMP_MEM) == JmpMem && JMP_MEM.Length() == 6 && JMP_MEM.dispOffset == 2
            && JMP_MEM.Disp() == 0
    ensures WellFormed(CALL_MEM) && KindOf(CALL_MEM) == CallMem && CALL_MEM.Length() == 6
            && CALL_MEM.dispOffset == 2 && CALL_MEM.Disp() == 2
  {
    hide KindOf, WellFormed;
    MemForm(JMP_MEM, 4, 0);
    MemForm(CALL_MEM, 2, 2);
    assert JMP_MEM.bytes[1] / 8 % 8 == 4 && CALL_MEM.bytes[1] / 8 % 8 == 2;
  }

  /** FF /op with a RIP-relative operand at displacement disp */
  lemma MemForm(d: Insn, op: int, disp: u8)
    requires |d.bytes| == 6 && d == Insn(d.bytes, 0xFF, 0, false, 0, true, 2) && d.bytes[0] == 0xFF
             && (op == 2 || op == 4)
    requires d.bytes[2] == disp && d.bytes[3] == d.bytes[4] == d.bytes[5] == 0
    ensures d.Disp() == disp
    ensures d.bytes[1] / 8 % 8 == op ==> KindOf(d) == (if op == 4 then JmpMem else CallMem) && WellFormed(d)
  {
    assert d.bytes[2..6] == [disp, 0, 0, 0];
  }

  lemma RunOne(cpu: Cpu, t: State, d: Insn)
    requires WellFormed(d) && At(t.m, t.rip, d.bytes)
    ensures Runs(cpu, t, [d], Exec(cpu, d, t))
  {
    hide Exec, WellFormed;
    assert [d][1..] == [];
    assert Runs(cpu, Exec(cpu, d, t), [], Exec(cpu, d, t));
  }

  lemma RunTwo(cpu: Cpu, t: State, d: Insn, e: Insn)
    requires WellFormed(d) && WellFormed(e) && At(t.m, t.rip, d.bytes)
    requires At(Exec(cpu, d, t).m, Exec(cpu, d, t).rip, e.bytes)
    ensures Runs(cpu, t, [d, e], Exec(cpu, e, Exec(cpu, d, t)))
  {
    hide Exec, WellFormed;
    RunOne(cpu, Exec(cpu, d, t), e);
    assert [d, e][1..] == [e];
  }

  lemma Slots()
    ensures JMP_MEM.bytes == [0xFF, 0x25] + LE32(0)
    ensures CALL_MEM.bytes == [0xFF, 0x15] + LE32(2)
  {
  }

  /** jmp [rip + 0] in front of an address jumps to it. */
  lemma JmpAbsoluteRuns(cpu: Cpu, t: State, target: u64)
    requires At(t.m, t.rip, JmpAbsolute(target)) && t.rip + 14 <= TWO64
    ensures Runs(cpu, t, [JMP_MEM], State(target, t.m))
  {
    hide Exec, WellFormed, LE32, LE64, At, Runs, Machine.Load64;
    Slots();
    AtSplit(t.m, t.rip, JMP_MEM.bytes, LE64(target));
    AtLoad64(t.m, t.rip + 6, target);
    ExecMem(cpu, t);
    RunOne(cpu, t, JMP_MEM);
  }

  /** The emitted conditional jump. */
  lemma JccRuns(cpu: Cpu, t: State, opcode: u8, target: u64)
    requires 0x70 <= opcode <= 0x7F && t.rip + 18 < TWO64
    requires At(t.m, t.rip, [opcode, 2] + [0xEB, 14] + JmpAbsolute(target))
    ensures CondHolds(opcode % 16, t.m.flags) ==> Runs(cpu, t, [JccShort(opcode, 2), JMP_MEM], State(target, t.m))
    ensures !CondHolds(opcode % 16, t.m.flags) ==>
              Runs(cpu, t, [JccShort(opcode, 2), JmpShort(14)], State(t.rip + 18, t.m))
  {
    hide Exec, WellFormed, LE32, LE64, At, CondHolds, JmpAbsolute, JMP_MEM;
    assert [opcode, 2] + [0xEB, 14] + JmpAbsolute(target) == [opcode, 2] + ([0xEB, 14] + JmpAbsolute(target));
    AtSplit(t.m, t.rip, [opcode, 2], [0xEB, 14] + JmpAbsolute(target));
    AtSplit(t.m, t.rip + 2, [0xEB, 14], JmpAbsolute(target));
    ExecShort(cpu, t, opcode, 2);
    var jcc, jmp := JccShort(opcode, 2), JmpShort(14);
    var t1 := Exec(cpu, jcc, t);
    if CondHolds(opcode % 16, t.m.flags) {
      JmpAbsoluteRuns(cpu, t1, target);
      RunOne(cpu, t, jcc);
      RunsCompose(cpu, t, [jcc], t1, [JMP_MEM], State(target, t.m));
      assert [jcc] + [JMP_MEM] == [jcc, JMP_MEM];
    } else {
      ExecShort(cpu, t1, 0, 14);
      RunTwo(cpu, t, jcc, jmp);
    }
  }

  /** The emitted call: it pushes the address behind itself, from which one jump leads behind the slot. */
  lemma CallRuns(cpu: Cpu, t: State, target: u64)
    requires t.rip + 16 < TWO64
    requires At(t.m, t.rip, [0xFF, 0x15] + LE32(2) + [0xEB, 8] + LE64(target))
    ensures Runs(cpu, t, [CALL_MEM], State(target, t.m.Push64(t.rip + 6)))
    ensures Runs(cpu, State(t.rip + 6, t.m), [JmpShort(8)], State(t.rip + 16, t.m))
  {
    hide Exec, WellFormed, LE32, LE64, At, Runs, Machine.Load64, Machine.Push64;
    Slots();
    assert [0xFF, 0x15] + LE32(2) + [0xEB, 8] + LE64(target) == CALL_MEM.bytes + ([0xEB, 8] + LE64(target));
    AtSplit(t.m, t.rip, CALL_MEM.bytes, [0xEB, 8] + LE64(target));
    AtSplit(t.m, t.rip + 6, [0xEB, 8], LE64(target));
    AtLoad64(t.m, t.rip + 8, target);
    ExecMem(cpu, t);
    RunOne(cpu, t, CALL_MEM);
    ExecShort(cpu, State(t.rip + 6, t.m), 0, 8);
    RunOne(cpu, State(t.rip + 6, t.m), JmpShort(8));
  }

  // ----- detours

  /** d with another displacement */
  function Redirected(d: Insn, disp: u32): Insn
    requires d.dispOffset + 4 <= |d.bytes|
  {
    d.(bytes := d.bytes[..d.dispOffset] + LE32(disp) + d.bytes[d.dispOffset + 4..])
  }

  predicate IsRip(k: Kind) { k.JmpMem? || k.CallMem? || k.FarCallMem? || k.RipOperand? }

  lemma RedirectedInsn(d: Insn, disp: u32)
    requires WellFormed(d) && IsRip(KindOf(d))
    ensures d.dispOffset + 4 <= |d.bytes|
    ensures var e := Redirected(d, disp);
            && WellFormed(e) && KindOf(e) == KindOf(d) && e.Disp() == disp && |e.bytes| == |d.bytes|
            && e.bytes[..d.dispOffset] == d.bytes[..d.dispOffset]
               && e.bytes[d.dispOffset + 4..] == d.bytes[d.dispOffset + 4..]
  {
    hide Redirected, KindOf;
    RedirectedBytes(d, disp);
    RipForm(d);
    RipKindKept(d, Redirected(d, disp));
  }

  lemma RipForm(d: Insn)
    requires WellFormed(d) && IsRip(KindOf(d))
    ensures d.opcodeAt + 2 == d.dispOffset && d.dispOffset + 4 <= |d.bytes|
  {
  }

  /** Only the bytes before the displacement say what the instruction is. */
  lemma RipKindKept(d: Insn, e: Insn)
    requires WellFormed(d) && IsRip(KindOf(d)) && d.dispOffset <= |d.bytes|
    requires e == d.(bytes := e.bytes) && |e.bytes| == |d.bytes| && e.bytes[..d.dispOffset] == d.bytes[..d.dispOffset]
    ensures WellFormed(e) && KindOf(e) == KindOf(d)
  {
    RipForm(d);
    forall k | 0 <= k < d.dispOffset
      ensures e.bytes[k] == d.bytes[k]
    {
      assert e.bytes[..d.dispOffset][k] == d.bytes[..d.dispOffset][k];
    }
    assert Group5(e) == Group5(d);
  }

  lemma RedirectedBytes(d: Insn, disp: u32)
    requires d.dispOffset + 4 <= |d.bytes|
    ensures var e := Redirected(d, disp);
            && |e.bytes| == |d.bytes| && e.dispOffset == d.dispOffset && e.Disp() == disp
            && e == d.(bytes := e.bytes)
            && e.bytes[..d.dispOffset] == d.bytes[..d.dispOffset]
               && e.bytes[d.dispOffset + 4..] == d.bytes[d.dispOffset + 4..]
  {
    var e := Redirected(d, disp);
    assert e.bytes[d.dispOffset..d.dispOffset + 4] == LE32(disp);
    ReadLE32(disp);
  }

  /** The new displacement of the detoured instruction. */
  function NewDisp(d: Insn, ip: u64, seqAddr: u64): int
    requires d.dispOffset + 4 <= |d.bytes|
  {
    MemTarget(d, ip) - (seqAddr + d.Length())
  }

  lemma DetourParts(d: Insn, ip: u64, reloIp: u64, seqAddr: u64)
    requires WellFormed(d) && IsRip(KindOf(d))
    ensures d.dispOffset + 4 <= |d.bytes| && d.immOffset <= |d.bytes|
    ensures Detour(d, ip, reloIp, seqAddr)
            == Redirected(d, Wrap32(NewDisp(d, ip, seqAddr))).bytes + JmpAbsolute(Wrap(reloIp + 14))
    ensures |Detour(d, ip, reloIp, seqAddr)| == DetourLength(d)
  {
  }

  /**
    The detoured instruction reaches the operand the original does exactly when the distance fits
    in 32 signed bits: the displacement written is that distance, truncated.
   */
  lemma DetourOperand(d: Insn, ip: u64, seqAddr: u64)
    requires WellFormed(d) && IsRip(KindOf(d)) && seqAddr + d.Length() < TWO64
    ensures d.dispOffset + 4 <= |d.bytes|
    ensures var disp := NewDisp(d, ip, seqAddr);
            Wrap(seqAddr + d.Length() + Sext32(Wrap32(disp))) == MemTarget(d, ip)
            <==> exists k: int :: -0x8000_0000 <= disp + k * TWO64 < 0x8000_0000
  {
    hide MemTarget, Wrap, Wrap32, Sext32;
    RipHasDisp(d);
    DispArrivesExactly(seqAddr + d.Length(), MemTarget(d, ip));
  }

  lemma RipHasDisp(d: Insn)
    requires WellFormed(d) && IsRip(KindOf(d))
    ensures d.dispOffset + 4 <= |d.bytes|
  {
  }

  /** A truncated distance leads from base to target. */
  lemma DispArrivesExactly(base: u64, target: u64)
    ensures Wrap(base + Sext32(Wrap32(target - base))) == target
            <==> exists k: int :: -0x8000_0000 <= target - base + k * TWO64 < 0x8000_0000
  {
    hide Wrap32, Sext32;
    var q := Sext32(Wrap32(target - base));
    SextBounds(Wrap32(target - base));
    if Wrap(base + q) == target {
      var k := (base + q) / TWO64;
      assert target - base + k * TWO64 == q;
    }
    if k: int :| -0x8000_0000 <= target - base + k * TWO64 < 0x8000_0000 {
      var disp := target - base + k * TWO64;
      Disp32Exact(disp);
      SameLow32(target - base, k);
      assert base + q == target + k * TWO64;
      AddMultiple64(target, k);
    }
  }

  lemma SextBounds(x: u32)
    ensures -0x8000_0000 <= Sext32(x) < 0x8000_0000
  {
  }

  lemma SameLow32(x: int, k: int)
    ensures Wrap32(x + k * TWO64) == Wrap32(x)
  {
    assert k * TWO64 == (k * TWO32) * TWO32;
    AddMultiple(x, k * TWO32);
  }

  lemma AddMultiple(x: int, k: int)
    ensures (x + k * TWO32) % TWO32 == x % TWO32
  {
  }

  lemma AddMultiple64(x: int, k: int)
    ensures (x + k * TWO64) % TWO64 == x % TWO64
  {
  }

  // ----- the window

  function OrigOffset(ds: seq<Insn>, n: nat): nat
    requires n <= |ds|
  {
    if n == 0 then 0 else OrigOffset(ds, n - 1) + ds[n - 1].Length()
  }

  function CodeOffset(ds: seq<Insn>, n: nat): nat
    requires n <= |ds|
  {
    if n == 0 then 0 else CodeOffset(ds, n - 1) + EmitLength(ds[n - 1])
  }

  predicate AllReadable(ds: seq<Insn>) { forall d <- ds :: Readable(d) }

  /**
    The loop of GenRelocateCodeFixed over the first n instructions at src, emitting at dst;
    detours[i] is the address allocated for instruction i, if it needs one.
   */
  function RelocateInsns(ds: seq<Insn>, src: u64, dst: u64, detours: seq<u64>, n: nat): Option<Piece>
    requires n <= |ds| == |detours| && AllReadable(ds)
  {
    if n == 0 then Some(Piece([], []))
    else
      match RelocateInsns(ds, src, dst, detours, n - 1)
      case None => None
      case Some(a) =>
        match RelocateInsn(ds[n - 1], Wrap(src + OrigOffset(ds, n - 1)), Wrap(dst + |a.code|), detours[n - 1])
        case None => None
        case Some(p) => Some(Append(a, p))
  }

  function Append(a: Piece, p: Piece): Piece { Piece(a.code + p.code, a.patches + p.patches) }

  /** The whole relocation, with the jump to the rest of the original code. */
  function Relocate(ds: seq<Insn>, src: u64, dst: u64, detours: seq<u64>, branch: bool): Option<Piece>
    requires |ds| == |detours| && AllReadable(ds)
  {
    match RelocateInsns(ds, src, dst, detours, |ds|)
    case None => None
    case Some(a) => Some(if branch then Append(a, Piece(JmpAbsolute(Wrap(src + OrigOffset(ds, |ds|))), [])) else a)
  }

  /** Without the branch it is the same code and detours, up to there. */
  lemma BranchBehind(ds: seq<Insn>, src: u64, dst: u64, detours: seq<u64>)
    requires |ds| == |detours| && AllReadable(ds)
    ensures var with, without := Relocate(ds, src, dst, detours, true), Relocate(ds, src, dst, detours, false);
            && (with.None? <==> without.None?)
            && (with.Some? ==> with.value.code == without.value.code + JmpAbsolute(Wrap(src + OrigOffset(ds, |ds|)))
                               && with.value.patches == without.value.patches)
  {
  }

  function TotalLength(ds: seq<Insn>, branch: bool): nat { CodeOffset(ds, |ds|) + (if branch then 14 else 0) }

  lemma InsnLength(d: Insn, ip: u64, reloIp: u64, seqAddr: u64)
    requires Readable(d) && RelocateInsn(d, ip, reloIp, seqAddr).Some?
    ensures |RelocateInsn(d, ip, reloIp, seqAddr).value.code| == EmitLength(d)
  {
    hide JmpAbsolute, LE64, LE32, Rel8Target, Rel32Target, Detour;
  }

  /** The emitted length does not depend on where anything is placed. */
  lemma {:induction false} InsnsLength(ds: seq<Insn>, src: u64, dst: u64, detours: seq<u64>, n: nat)
    requires n <= |ds| == |detours| && AllReadable(ds)
    requires RelocateInsns(ds, src, dst, detours, n).Some?
    ensures |RelocateInsns(ds, src, dst, detours, n).value.code| == CodeOffset(ds, n)
  {
    hide RelocateInsn, EmitLength;
    if n > 0 {
      InsnsLength(ds, src, dst, detours, n - 1);
      InsnLength(ds[n - 1], Wrap(src + OrigOffset(ds, n - 1)),
                 Wrap(dst + |RelocateInsns(ds, src, dst, detours, n - 1).value.code|), detours[n - 1]);
    }
  }

  /** Whether relocation aborts depends on the instructions alone. */
  lemma {:induction false} AbortsExactly(ds: seq<Insn>, src: u64, dst: u64, detours: seq<u64>, n: nat)
    requires n <= |ds| == |detours| && AllReadable(ds)
    ensures RelocateInsns(ds, src, dst, detours, n).Some? <==> forall k :: 0 <= k < n ==> Relocatable(ds[k])
  {
    hide JmpAbsolute, LE64, LE32, Rel8Target, Rel32Target, Detour;
    if n > 0 {
      AbortsExactly(ds, src, dst, detours, n - 1);
    }
  }

  /** No LOOP or JCXZ, and no prefix in front of a relative call or jump. */
  predicate Relocatable(d: Insn)
  {
    (0x70 <= d.opcode <= 0x7F) || d.ripRelative || d.opcode == 0xEB
    || if d.opcode == 0xE8 || d.opcode == 0xE9 then d.immOffset == 1 else !(0xE0 <= d.opcode <= 0xE3)
  }

  lemma {:induction false} InsnsPrefix(ds: seq<Insn>, src: u64, dst: u64, detours: seq<u64>, i: nat, n: nat)
    requires i <= n <= |ds| == |detours| && AllReadable(ds)
    requires RelocateInsns(ds, src, dst, detours, n).Some?
    ensures RelocateInsns(ds, src, dst, detours, i).Some?
    ensures var a, b := RelocateInsns(ds, src, dst, detours, i).value, RelocateInsns(ds, src, dst, detours, n).value;
            a.code <= b.code && a.patches <= b.patches
    decreases n
  {
    hide RelocateInsn;
    if i < n {
      InsnsPrefix(ds, src, dst, detours, i, n - 1);
    }
  }
}
