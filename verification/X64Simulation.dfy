/**
  Relocated x86-64 code simulates the instructions it was made from.
 */
module X64Simulation {
  import opened Words
  import opened X64Isa
  import opened X64Relocation

  /** Does control leave the straight line? */
  predicate Transfers(cpu: Cpu, d: Insn, s: State)
    requires WellFormed(d)
  {
    match KindOf(d)
    case JccRel8 => CondHolds(d.opcode % 16, s.m.flags)
    case JccRel32 => CondHolds(d.opcode % 16, s.m.flags)
    case RipOperand => RipEffect(cpu, d, s).jump.Some?
    case XBegin => !cpu.transaction(s.m).0
    case Plain => cpu.plain(d.bytes, s.m).jump.Some?
    case LoopRel8 => cpu.plain(d.bytes, s.m).jump.Some?
    case _ => true
  }

  /** The instruction leaves the address of the next one for what it transfers control to, to return to. */
  predicate Calls(d: Insn)
  {
    var k := KindOf(d);
    k.CallRel32? || k.CallMem? || k.FarCallMem? || k.CallIndirect? || k.FarCall? || k.SysCall?
  }

  /** The return address that the relocation of a call at reloIp leaves. */
  function LinkOf(d: Insn, reloIp: u64, seqAddr: u64): u64
  {
    if KindOf(d).CallRel32? then Wrap(reloIp + 6)
    else if IsRip(KindOf(d)) then Wrap(seqAddr + d.Length())
    else Wrap(reloIp + d.Length())
  }

  /** The machine that a call in m leaves with the given return address: pushed, or for a system call in RCX. */
  function Told(cpu: Cpu, d: Insn, m: Machine, link: u64): Machine
    requires WellFormed(d)
  {
    match KindOf(d)
    case SysCall =>
      var m' := cpu.system(m).m;
      m'.(regs := m'.regs[RCX := link])
    case FarCall => cpu.farPush(d.bytes, link, m)
    case FarCallMem => cpu.farPush(d.bytes[..d.dispOffset], link, m)
    case _ => m.Push64(link)
  }

  lemma CallTells(cpu: Cpu, d: Insn, s: State)
    requires WellFormed(d) && Calls(d)
    ensures Transfers(cpu, d, s) && Exec(cpu, d, s).m == Told(cpu, d, s.m, Wrap(s.rip + d.Length()))
  {
    hide Machine.Push64, Machine.Load64, Wrap;
  }

  /**
    Where the relocated run must be when the original stands at Exec(d, s): the same machine at the
    same address, or at the image of the next instruction if control falls through; a call has
    left its own return address, link, in place of the original one.
   */
  function Counterpart(cpu: Cpu, d: Insn, s: State, image: u64, link: u64): State
    requires WellFormed(d)
  {
    var s' := Exec(cpu, d, s);
    State(if Transfers(cpu, d, s) then s'.rip else image, if Calls(d) then Told(cpu, d, s.m, link) else s'.m)
  }

  /** Some instructions, each found in memory, lead from t to t'. */
  ghost predicate Reaches(cpu: Cpu, t: State, t': State)
  {
    exists ds: seq<Insn> :: Runs(cpu, t, ds, t')
  }

  lemma ReachesTrans(cpu: Cpu, t: State, u: State, v: State)
    requires Reaches(cpu, t, u) && Reaches(cpu, u, v)
    ensures Reaches(cpu, t, v)
  {
    var ds: seq<Insn> :| Runs(cpu, t, ds, u);
    var es: seq<Insn> :| Runs(cpu, u, es, v);
    RunsCompose(cpu, t, ds, u, es, v);
  }

  /** The piece is in memory, at reloIp and wherever its detour is. */
  ghost predicate PieceAt(m: Machine, reloIp: u64, p: Piece)
  {
    && At(m, reloIp, p.code) && reloIp + |p.code| < TWO64
    && forall q <- p.patches :: At(m, q.0, q.1) && q.0 + |q.1| < TWO64
  }

  lemma SameMemory(m: Machine, m': Machine, dst: u64, whole: Piece)
    requires PieceAt(m, dst, whole) && m.mem == m'.mem
    ensures PieceAt(m', dst, whole)
  {
    assert forall a: u64, n: nat :: m.Bytes(a, n) == m'.Bytes(a, n);
  }

  /** The detour was allocated near enough to the operand for its displacement. */
  predicate Near(d: Insn, ip: u64, seqAddr: u64)
  {
    UsesDetour(d) ==> d.dispOffset + 4 <= |d.bytes| && -0x8000_0000 <= NewDisp(d, ip, seqAddr) < 0x8000_0000
  }

  /** d is relocated from s.rip to t.rip by p, which is in memory. */
  ghost predicate Placed(d: Insn, s: State, t: State, seqAddr: u64, p: Piece)
  {
    && WellFormed(d) && InScope(d) && Readable(d) && t.m == s.m
    && RelocateInsn(d, s.rip, t.rip, seqAddr) == Some(p) && PieceAt(t.m, t.rip, p)
  }

  function Image(d: Insn, reloIp: u64): u64 { Wrap(reloIp + EmitLength(d)) }

  function RelTarget(d: Insn, ip: u64): u64
    requires WellFormed(d) && IsRelJump(KindOf(d))
  {
    if KindOf(d).JccRel8? || KindOf(d).JmpRel8? then Rel8Target(d, ip) else Rel32Target(d, ip)
  }

  predicate IsRelJump(k: Kind) { k.JccRel8? || k.JmpRel8? || k.JmpRel32? || k.CallRel32? }

  lemma ExecRelJump(cpu: Cpu, d: Insn, s: State)
    requires WellFormed(d) && IsRelJump(KindOf(d))
    ensures Exec(cpu, d, s).rip == if Transfers(cpu, d, s) then RelTarget(d, s.rip) else Wrap(s.rip + d.Length())
    ensures Exec(cpu, d, s).m == if Calls(d) then s.m.Push64(Wrap(s.rip + d.Length())) else s.m
  {
    RelFields(d);
    hide KindOf, CondHolds, Machine.Push64, WellFormed, Sext8, Sext32, Insn.Imm32, Insn.Imm8, Wrap;
    if KindOf(d).JccRel8? || KindOf(d).JmpRel8? {
      WrapTwice(s.rip + d.Length(), Sext8(d.Imm8()));
    } else {
      WrapTwice(s.rip + d.Length(), Sext32(d.Imm32()));
    }
  }

  lemma RelFields(d: Insn)
    requires WellFormed(d) && IsRelJump(KindOf(d))
    ensures d.bytes != [] && (KindOf(d).JmpRel32? || KindOf(d).CallRel32? ==> |d.bytes| >= 4)
  {
  }

  /** The bytes in memory for a relative jump or call. */
  lemma PlacedRelJump(d: Insn, s: State, t: State, seqAddr: u64, p: Piece)
    requires Placed(d, s, t, seqAddr, p) && IsRelJump(KindOf(d))
    ensures var target := RelTarget(d, s.rip);
            At(t.m, t.rip, match KindOf(d)
                           case JccRel8 => [d.opcode, 2] + [0xEB, 14] + JmpAbsolute(target)
                           case CallRel32 => [0xFF, 0x15] + LE32(2) + [0xEB, 8] + LE64(target)
                           case _ => JmpAbsolute(target))
    ensures t.rip + EmitLength(d) < TWO64
    ensures EmitLength(d) == match KindOf(d) case JccRel8 => 18 case CallRel32 => 16 case _ => 14
    ensures KindOf(d).JccRel8? ==> 0x70 <= d.opcode <= 0x7F
  {
    hide At, JmpAbsolute, LE32, Rel8Target, Rel32Target;
    ReadLE64(RelTarget(d, s.rip));
    assert |p.code| == EmitLength(d);
  }

  lemma RelJumpSimulated(cpu: Cpu, d: Insn, s: State, t: State, seqAddr: u64, p: Piece)
    requires Placed(d, s, t, seqAddr, p) && IsRelJump(KindOf(d)) && !KindOf(d).CallRel32?
    ensures Reaches(cpu, t, Counterpart(cpu, d, s, Image(d, t.rip), 0))
  {
    hide Runs, JmpAbsolute, At, LE32, LE64, CondHolds, JMP_MEM, KindOf, WellFormed, Exec, EmitLength, RelTarget;
    PlacedRelJump(d, s, t, seqAddr, p);
    ExecRelJump(cpu, d, s);
    if KindOf(d).JccRel8? {
      JccRuns(cpu, t, d.opcode, RelTarget(d, s.rip));
    } else {
      JmpAbsoluteRuns(cpu, t, RelTarget(d, s.rip));
    }
  }

  /** A call is simulated, and the address it pushes leads back to the image of the next instruction. */
  lemma CallSimulated(cpu: Cpu, d: Insn, s: State, t: State, seqAddr: u64, p: Piece)
    requires Placed(d, s, t, seqAddr, p) && KindOf(d).CallRel32?
    ensures Reaches(cpu, t, Counterpart(cpu, d, s, Image(d, t.rip), LinkOf(d, t.rip, seqAddr)))
    ensures Reaches(cpu, State(LinkOf(d, t.rip, seqAddr), t.m), State(Image(d, t.rip), t.m))
  {
    hide Runs, At, LE32, LE64, JMP_MEM, CALL_MEM, Machine.Push64, KindOf, WellFormed, Exec, EmitLength, RelTarget;
    PlacedRelJump(d, s, t, seqAddr, p);
    ExecRelJump(cpu, d, s);
    CallRuns(cpu, t, RelTarget(d, s.rip));
  }

  lemma PlainSimulated(cpu: Cpu, d: Insn, s: State, t: State, seqAddr: u64, p: Piece)
    requires Placed(d, s, t, seqAddr, p) && KindOf(d).Plain?
    ensures Reaches(cpu, t, Counterpart(cpu, d, s, Image(d, t.rip), 0))
  {
    hide Runs, At, LE32, LE64, WellFormed;
    RunOne(cpu, t, d);
  }

  /** A kind of call that is copied. */
  predicate CopiedCall(k: Kind) { k.CallIndirect? || k.FarCall? || k.SysCall? }

  /**
    A call through a register, a far call and a system call are copied: the return address they push, or
    that a system call leaves in RCX, is that of the image of the next instruction.
   */
  lemma CopiedCallSimulated(cpu: Cpu, d: Insn, s: State, t: State, seqAddr: u64, p: Piece)
    requires Placed(d, s, t, seqAddr, p) && CopiedCall(KindOf(d))
    ensures Runs(cpu, t, [d], Counterpart(cpu, d, s, Image(d, t.rip), LinkOf(d, t.rip, seqAddr)))
    ensures LinkOf(d, t.rip, seqAddr) == Image(d, t.rip)
  {
    hide Runs, At, LE32, LE64, WellFormed, Machine.Push64;
    RunOne(cpu, t, d);
  }

  /** Standing still. */
  lemma ReachesSelf(cpu: Cpu, t: State)
    ensures Reaches(cpu, t, t)
  {
    assert Runs(cpu, t, [], t);
  }

  /**
    A detoured instruction: jump to the detour, the instruction with its new displacement, and,
    unless it transfers control itself, the jump back.
   */
  lemma DetourSimulated(cpu: Cpu, d: Insn, s: State, t: State, seqAddr: u64, p: Piece)
    requires Placed(d, s, t, seqAddr, p) && IsRip(KindOf(d)) && Near(d, s.rip, seqAddr)
    requires KindOf(d).RipOperand? && !Transfers(cpu, d, s) ==> PieceAt(Exec(cpu, d, s).m, t.rip, p)
    ensures Reaches(cpu, t, Counterpart(cpu, d, s, Image(d, t.rip), LinkOf(d, t.rip, seqAddr)))
    ensures Calls(d) ==> Reaches(cpu, State(LinkOf(d, t.rip, seqAddr), t.m), State(Image(d, t.rip), t.m))
  {
    hide Runs, At, LE32, LE64, JMP_MEM, CALL_MEM, Machine.Push64, JmpAbsolute, WellFormed, KindOf, Exec, MemTarget,
         Redirected, EmitLength, RelocateInsn, Detour, PieceAt;
    PlacedDetour(d, s, t, seqAddr, p);
    var e := Redirected(d, Wrap32(NewDisp(d, s.rip, seqAddr)));
    var back := Wrap(t.rip + 14);
    RedirectedInsn(d, Wrap32(NewDisp(d, s.rip, seqAddr)));
    var u := State(seqAddr, t.m);
    JmpAbsoluteRuns(cpu, t, seqAddr);
    assert Reaches(cpu, t, u);
    RunOne(cpu, u, e);
    assert Reaches(cpu, u, Exec(cpu, e, u));
    ReachesTrans(cpu, t, u, Exec(cpu, e, u));
    ExecRedirected(cpu, d, s, seqAddr);
    if KindOf(d).RipOperand? && !Transfers(cpu, d, s) {
      var v := Exec(cpu, e, u);
      PlacedDetour(d, State(s.rip, v.m), State(t.rip, v.m), seqAddr, p);
      JmpAbsoluteRuns(cpu, v, back);
      assert Reaches(cpu, v, State(back, v.m));
      ReachesTrans(cpu, t, v, State(back, v.m));
    } else {
      JmpAbsoluteRuns(cpu, State(seqAddr + d.Length(), t.m), back);
    }
  }

  /** What a detoured instruction's piece puts in memory. */
  lemma PlacedDetour(d: Insn, s: State, t: State, seqAddr: u64, p: Piece)
    requires Placed(d, s, t, seqAddr, p) && IsRip(KindOf(d))
    ensures d.dispOffset + 4 <= |d.bytes| && UsesDetour(d) && EmitLength(d) == 14
    ensures At(t.m, t.rip, JmpAbsolute(seqAddr)) && t.rip + 14 < TWO64
    ensures seqAddr + d.Length() + 14 < TWO64
    ensures At(t.m, seqAddr, Redirected(d, Wrap32(NewDisp(d, s.rip, seqAddr))).bytes)
    ensures At(t.m, seqAddr + d.Length(), JmpAbsolute(Wrap(t.rip + 14)))
  {
    hide At, LE32, LE64, JmpAbsolute, MemTarget;
    DetourParts(d, s.rip, t.rip, seqAddr);
    var e := Redirected(d, Wrap32(NewDisp(d, s.rip, seqAddr)));
    assert p.patches == [(seqAddr, Detour(d, s.rip, t.rip, seqAddr))];
    assert p.patches[0] in p.patches;
    AtSplit(t.m, seqAddr, e.bytes, JmpAbsolute(Wrap(t.rip + 14)));
  }

  lemma ExecRip(cpu: Cpu, d: Insn, s: State)
    requires WellFormed(d) && IsRip(KindOf(d)) && d.dispOffset + 4 <= |d.bytes|
    ensures KindOf(d).JmpMem? ==> Exec(cpu, d, s) == State(s.m.Load64(MemTarget(d, s.rip)), s.m)
    ensures KindOf(d).CallMem? ==>
              Exec(cpu, d, s) == State(s.m.Load64(MemTarget(d, s.rip)),
                                       Told(cpu, d, s.m, Wrap(s.rip + d.Length())))
    ensures KindOf(d).FarCallMem? ==>
              Exec(cpu, d, s) == State(cpu.farTarget(d.bytes[..d.dispOffset], Some(MemTarget(d, s.rip)), s.m),
                                       Told(cpu, d, s.m, Wrap(s.rip + d.Length())))
    ensures KindOf(d).RipOperand? ==>
              var e := cpu.ripOperand(d.bytes[..d.dispOffset], d.bytes[d.dispOffset + 4..], MemTarget(d, s.rip), s.m);
              && (Transfers(cpu, d, s) <==> e.jump.Some?)
              && Exec(cpu, d, s) == State(if e.jump.Some? then e.jump.value else Wrap(s.rip + d.Length()), e.m)
  {
    RipFields(d);
    hide KindOf, Machine.Push64, Machine.Load64, WellFormed, Sext32, Insn.Disp, Wrap;
    WrapTwice(s.rip + d.Length(), Sext32(d.Disp()));
  }

  lemma RipFields(d: Insn)
    requires WellFormed(d) && IsRip(KindOf(d))
    ensures d.dispOffset + 4 <= |d.bytes|
  {
  }

  /** The redirected instruction, run at seqAddr, does what the original does at s.rip. */
  lemma ExecRedirected(cpu: Cpu, d: Insn, s: State, seqAddr: u64)
    requires WellFormed(d) && IsRip(KindOf(d)) && seqAddr + d.Length() < TWO64
    requires d.dispOffset + 4 <= |d.bytes| && -0x8000_0000 <= NewDisp(d, s.rip, seqAddr) < 0x8000_0000
    ensures WellFormed(Redirected(d, Wrap32(NewDisp(d, s.rip, seqAddr))))
    ensures var s', u' := Exec(cpu, d, s),
            Exec(cpu, Redirected(d, Wrap32(NewDisp(d, s.rip, seqAddr))), State(seqAddr, s.m));
            && (KindOf(d).JmpMem? ==> u' == s')
            && (Calls(d) ==> u' == State(s'.rip, Told(cpu, d, s.m, Wrap(seqAddr + d.Length()))))
            && (KindOf(d).RipOperand? ==>
                 u' == State(if Transfers(cpu, d, s) then s'.rip else Wrap(seqAddr + d.Length()), s'.m))
  {
    hide KindOf, WellFormed, Machine.Push64, Machine.Load64, Exec, Redirected, Transfers, Calls;
    var e := Redirected(d, Wrap32(NewDisp(d, s.rip, seqAddr)));
    RedirectedInsn(d, Wrap32(NewDisp(d, s.rip, seqAddr)));
    DetourOperand(d, s.rip, seqAddr);
    assert -0x8000_0000 <= NewDisp(d, s.rip, seqAddr) + 0 * TWO64 < 0x8000_0000;
    RedirectedFields(d, Wrap32(NewDisp(d, s.rip, seqAddr)));
    ExecRip(cpu, d, s);
    ExecRip(cpu, e, State(seqAddr, s.m));
    assert MemTarget(e, seqAddr) == MemTarget(d, s.rip);
    RipCalls(d);
  }

  lemma RipCalls(d: Insn)
    requires IsRip(KindOf(d))
    ensures Calls(d) <==> KindOf(d).CallMem? || KindOf(d).FarCallMem?
  {
  }

  lemma RedirectedFields(d: Insn, disp: u32)
    requires d.dispOffset + 4 <= |d.bytes|
    ensures Redirected(d, disp).dispOffset == d.dispOffset
  {
  }

  /** Every instruction in scope is simulated. */
  lemma InsnSimulated(cpu: Cpu, d: Insn, s: State, t: State, seqAddr: u64, p: Piece)
    requires Placed(d, s, t, seqAddr, p) && Near(d, s.rip, seqAddr)
    requires KindOf(d).RipOperand? && !Transfers(cpu, d, s) ==> PieceAt(Exec(cpu, d, s).m, t.rip, p)
    ensures Reaches(cpu, t, Counterpart(cpu, d, s, Image(d, t.rip), LinkOf(d, t.rip, seqAddr)))
    ensures Calls(d) ==> Reaches(cpu, State(LinkOf(d, t.rip, seqAddr), t.m), State(Image(d, t.rip), t.m))
  {
    hide Exec, PieceAt, RelocateInsn, WellFormed, LinkOf, Image, Transfers, EmitLength;
    var k := KindOf(d);
    if IsRip(k) {
      DetourSimulated(cpu, d, s, t, seqAddr, p);
    } else if k.CallRel32? {
      CallSimulated(cpu, d, s, t, seqAddr, p);
    } else if IsRelJump(k) {
      RelJumpSimulated(cpu, d, s, t, seqAddr, p);
    } else if CopiedCall(k) {
      CopiedCallSimulated(cpu, d, s, t, seqAddr, p);
      ReachesSelf(cpu, State(Image(d, t.rip), t.m));
    } else {
      PlainSimulated(cpu, d, s, t, seqAddr, p);
    }
  }

  // ----- the whole window

  ghost predicate AllInScope(ds: seq<Insn>): (r: bool)
    ensures r ==> AllReadable(ds)
  {
    assert forall d <- ds :: WellFormed(d) && InScope(d) ==> Readable(d) by {
      forall d | d in ds && WellFormed(d) && InScope(d)
        ensures Readable(d)
      {
        WellFormedReadable(d);
      }
    }
    forall d <- ds :: WellFormed(d) && InScope(d)
  }

  /** The original run from instruction i until control is transferred or the window ends. */
  function WindowRun(cpu: Cpu, ds: seq<Insn>, i: nat, s: State): State
    requires i <= |ds| && AllInScope(ds)
    decreases |ds| - i
  {
    if i == |ds| then s
    else
      assert ds[i] in ds;
      if Transfers(cpu, ds[i], s) then Exec(cpu, ds[i], s)
      else WindowRun(cpu, ds, i + 1, Exec(cpu, ds[i], s))
  }

  /** The instruction at which the run leaves the window, or |ds|, and the state in which it is executed. */
  function ExitFrom(cpu: Cpu, ds: seq<Insn>, i: nat, s: State): (r: (nat, State))
    requires i <= |ds| && AllInScope(ds)
    ensures i <= r.0 <= |ds|
    decreases |ds| - i
  {
    if i == |ds| then (i, s)
    else
      assert ds[i] in ds;
      if Transfers(cpu, ds[i], s) then (i, s)
      else ExitFrom(cpu, ds, i + 1, Exec(cpu, ds[i], s))
  }

  /** Everything the relocation wrote is in memory; the addresses involved do not wrap; the detours are near. */
  ghost predicate Installed(ds: seq<Insn>, src: u64, dst: u64, detours: seq<u64>, m: Machine)
  {
    && AllInScope(ds) && |detours| == |ds| && src + OrigOffset(ds, |ds|) < TWO64
    && Relocate(ds, src, dst, detours, true).Some?
    && PieceAt(m, dst, Relocate(ds, src, dst, detours, true).value)
    && forall i :: 0 <= i < |ds| ==> Near(ds[i], Wrap(src + OrigOffset(ds, i)), detours[i])
  }

  /**
    The run from instruction i does not write over the relocated code or its detours: they are there
    after every instruction that falls through.
   */
  ghost predicate RunKeeps(cpu: Cpu, ds: seq<Insn>, i: nat, s: State, dst: u64, whole: Piece)
    requires i <= |ds| && AllInScope(ds)
    decreases |ds| - i
  {
    i < |ds| ==>
      assert ds[i] in ds;
      !Transfers(cpu, ds[i], s) ==>
        StepKeeps(cpu, ds[i], s, dst, whole) && RunKeeps(cpu, ds, i + 1, Exec(cpu, ds[i], s), dst, whole)
  }

  /** d, if it falls through, does not write over it either. */
  ghost predicate StepKeeps(cpu: Cpu, d: Insn, s: State, dst: u64, whole: Piece)
    requires WellFormed(d)
  {
    !Transfers(cpu, d, s) ==> PieceAt(Exec(cpu, d, s).m, dst, whole)
  }

  lemma CodeOffsetNext(ds: seq<Insn>, i: nat)
    requires i < |ds|
    ensures CodeOffset(ds, i + 1) == CodeOffset(ds, i) + EmitLength(ds[i])
  {
  }

  /** Where piece i sits in the whole relocation. */
  lemma PieceInWhole(ds: seq<Insn>, src: u64, dst: u64, detours: seq<u64>, i: nat)
    returns (before: seq<u8>, p: Piece, after: seq<u8>)
    requires i < |ds| == |detours| && AllReadable(ds) && Relocate(ds, src, dst, detours, true).Some?
    ensures Readable(ds[i])
    ensures RelocateInsn(ds[i], Wrap(src + OrigOffset(ds, i)), Wrap(dst + CodeOffset(ds, i)), detours[i]) == Some(p)
    ensures var whole := Relocate(ds, src, dst, detours, true).value;
            && whole.code == before + (p.code + after) && |before| == CodeOffset(ds, i) && |p.code| == EmitLength(ds[i])
            && |after| >= 14 && |whole.code| == TotalLength(ds, true)
            && forall q <- p.patches :: q in whole.patches
  {
    hide RelocateInsn, JmpAbsolute, Readable, EmitLength, OrigOffset, CodeOffset, Wrap;
    var n := |ds|;
    assert ds[i] in ds;
    CodeOffsetNext(ds, i);
    InsnsPrefix(ds, src, dst, detours, i + 1, n);
    InsnsPrefix(ds, src, dst, detours, i, i + 1);
    InsnsLength(ds, src, dst, detours, i);
    InsnsLength(ds, src, dst, detours, i + 1);
    InsnsLength(ds, src, dst, detours, n);
    var whole, y := Relocate(ds, src, dst, detours, true).value, RelocateInsns(ds, src, dst, detours, n).value;
    var a, b := RelocateInsns(ds, src, dst, detours, i).value, RelocateInsns(ds, src, dst, detours, i + 1).value;
    before := a.code;
    p := RelocateInsn(ds[i], Wrap(src + OrigOffset(ds, i)), Wrap(dst + |a.code|), detours[i]).value;
    after := y.code[|b.code|..] + whole.code[|y.code|..];
    assert b == Append(a, p);
    assert y.code == b.code + y.code[|b.code|..];
    assert whole.code == y.code + whole.code[|y.code|..];
    PatchesKept(a, p, b, y, whole);
  }

  lemma PatchesKept(a: Piece, p: Piece, b: Piece, y: Piece, whole: Piece)
    requires b == Append(a, p) && b.patches <= y.patches <= whole.patches
    ensures forall q <- p.patches :: q in whole.patches
  {
    assert forall q <- p.patches :: q in b.patches;
  }

  /** Piece i of an installed relocation. */
  lemma PieceInstalled(ds: seq<Insn>, src: u64, dst: u64, detours: seq<u64>, m: Machine, i: nat)
    requires i < |ds| && Installed(ds, src, dst, detours, m)
    ensures CodeOffset(ds, i) + EmitLength(ds[i]) + 14 <= TotalLength(ds, true)
    ensures dst + TotalLength(ds, true) < TWO64
    ensures Readable(ds[i])
    ensures var p := RelocateInsn(ds[i], Wrap(src + OrigOffset(ds, i)), Wrap(dst + CodeOffset(ds, i)), detours[i]);
            p.Some? && PieceAt(m, dst + CodeOffset(ds, i), p.value)
  {
    hide RelocateInsn, At, JmpAbsolute, AllInScope, Near, Readable, AllReadable, EmitLength, Relocate, PieceAt,
         CodeOffset, OrigOffset;
    var before, p, after := PieceInWhole(ds, src, dst, detours, i);
    PieceAtPart(m, dst, Relocate(ds, src, dst, detours, true).value, before, p, after);
  }

  lemma PieceAtPart(m: Machine, dst: u64, whole: Piece, before: seq<u8>, p: Piece, after: seq<u8>)
    requires PieceAt(m, dst, whole) && whole.code == before + (p.code + after)
    requires forall q <- p.patches :: q in whole.patches
    ensures dst + |whole.code| < TWO64 && PieceAt(m, dst + |before|, p)
  {
    hide At;
    AtSplit(m, dst, before, p.code + after);
    AtSplit(m, dst + |before|, p.code, after);
  }

  /**
    t' is where the relocated run stands when the original run has left the window by executing
    instruction e in state x, or at its end: the same address and machine, but for the return
    address a call has left. That address, whatever machine control comes back to it in, leads to
    the relocation of the instruction behind the call.
   */
  ghost predicate LeftAlike(cpu: Cpu, ds: seq<Insn>, src: u64, dst: u64, detours: seq<u64>, e: nat, x: State, t': State)
    requires e <= |ds| == |detours| && AllInScope(ds) && Relocate(ds, src, dst, detours, true).Some?
  {
    if e == |ds| then t' == State(Wrap(src + OrigOffset(ds, |ds|)), x.m)
    else
      assert ds[e] in ds;
      var s', link := Exec(cpu, ds[e], x), LinkOf(ds[e], Wrap(dst + CodeOffset(ds, e)), detours[e]);
      && t'.rip == s'.rip && (!Calls(ds[e]) ==> t' == s')
      && (Calls(ds[e]) ==>
            && t'.m == Told(cpu, ds[e], x.m, link)
            && LeadsOn(cpu, link, Wrap(dst + CodeOffset(ds, e + 1)), dst, Relocate(ds, src, dst, detours, true).value))
  }

  /** In every machine that has the relocation in memory, from leads to image and changes nothing. */
  ghost predicate LeadsOn(cpu: Cpu, from: u64, image: u64, dst: u64, whole: Piece)
  {
    forall m: Machine :: PieceAt(m, dst, whole) ==> Reaches(cpu, State(from, m), State(image, m))
  }

  /** The return address of a relocated call does. */
  lemma LinkLeadsOn(cpu: Cpu, ds: seq<Insn>, src: u64, dst: u64, detours: seq<u64>, e: nat, m: Machine)
    requires e < |ds| && Installed(ds, src, dst, detours, m) && Calls(ds[e])
    ensures |detours| == |ds| && Relocate(ds, src, dst, detours, true).Some?
    ensures LeadsOn(cpu, LinkOf(ds[e], Wrap(dst + CodeOffset(ds, e)), detours[e]),
            Wrap(dst + CodeOffset(ds, e + 1)), dst,
                    Relocate(ds, src, dst, detours, true).value)
  {
    hide PieceAt, Relocate, Near, WellFormed, InScope, EmitLength, Reaches, LinkOf, AllReadable, OrigOffset, CodeOffset,
         Wrap;
    assert ds[e] in ds;
    var whole := Relocate(ds, src, dst, detours, true).value;
    var link, image := LinkOf(ds[e], Wrap(dst + CodeOffset(ds, e)), detours[e]), Wrap(dst + CodeOffset(ds, e + 1));
    forall m': Machine | PieceAt(m', dst, whole)
      ensures Reaches(cpu, State(link, m'), State(image, m'))
    {
      var s, t := State(Wrap(src + OrigOffset(ds, e)), m'), State(Wrap(dst + CodeOffset(ds, e)), m');
      CallLeaves(cpu, ds[e], s, dst, whole);
      StepInWindow(cpu, ds, src, dst, detours, e, s, t);
    }
  }

  lemma CallLeaves(cpu: Cpu, d: Insn, s: State, dst: u64, whole: Piece)
    requires WellFormed(d) && Calls(d)
    ensures StepKeeps(cpu, d, s, dst, whole)
  {
    hide Exec, PieceAt, WellFormed;
  }

  /**
    Relocation preserves meaning. Whatever instruction of the window a run is entered at, the
    relocated code entered at that instruction's relocation reaches the address at which the
    original run leaves the window, with the machine the original run has there.
   */
  lemma {:induction false} RelocationSimulates(cpu: Cpu, ds: seq<Insn>, src: u64, dst: u64, detours: seq<u64>, i: nat,
                                               s: State, t: State)
    requires i <= |ds| && Installed(ds, src, dst, detours, t.m)
    requires RunKeeps(cpu, ds, i, s, dst, Relocate(ds, src, dst, detours, true).value)
    requires s.rip == Wrap(src + OrigOffset(ds, i)) && t == State(Wrap(dst + CodeOffset(ds, i)), s.m)
    ensures exists t' :: Reaches(cpu, t, t') &&
              var (e, x) := ExitFrom(cpu, ds, i, s); LeftAlike(cpu, ds, src, dst, detours, e, x, t')
    ensures var (e, x) := ExitFrom(cpu, ds, i, s);
            WindowRun(cpu, ds, i, s) == if e == |ds| then x else (assert ds[e] in ds; Exec(cpu, ds[e], x))
    decreases |ds| - i
  {
    hide Exec, PieceAt, Relocate, Near, Readable, WellFormed, InScope, Transfers, EmitLength, Reaches, LinkOf,
         AllReadable, Installed, RunKeeps, LeadsOn;
    InstalledFacts(ds, src, dst, detours, t.m);
    if i == |ds| {
      BranchBack(cpu, ds, src, dst, detours, t);
    } else {
      assert ds[i] in ds;
      KeepsOne(cpu, ds, i, s, dst, Relocate(ds, src, dst, detours, true).value);
      StepInWindow(cpu, ds, src, dst, detours, i, s, t);
      if Calls(ds[i]) {
        LinkLeadsOn(cpu, ds, src, dst, detours, i, t.m);
      }
      var link, image := LinkOf(ds[i], t.rip, detours[i]), Wrap(dst + CodeOffset(ds, i + 1));
      var t1 := Counterpart(cpu, ds[i], s, image, link);
      if !Transfers(cpu, ds[i], s) {
        var s1 := Exec(cpu, ds[i], s);
        FallsThrough(cpu, ds, src, dst, detours, i, s);
        KeepsNext(cpu, ds, i, s, dst, Relocate(ds, src, dst, detours, true).value);
        RelocationSimulates(cpu, ds, src, dst, detours, i + 1, s1, t1);
        var t' :| Reaches(cpu, t1, t') &&
          var (e, x) := ExitFrom(cpu, ds, i + 1, s1); LeftAlike(cpu, ds, src, dst, detours, e, x, t');
        ReachesTrans(cpu, t, t1, t');
      }
    }
  }

  lemma KeepsNext(cpu: Cpu, ds: seq<Insn>, i: nat, s: State, dst: u64, whole: Piece)
    requires i < |ds| && AllInScope(ds) && RunKeeps(cpu, ds, i, s, dst, whole) && !Transfers(cpu, ds[i], s)
    ensures WellFormed(ds[i]) && RunKeeps(cpu, ds, i + 1, Exec(cpu, ds[i], s), dst, whole)
  {
    hide Exec, PieceAt, WellFormed, InScope, Transfers;
    assert ds[i] in ds;
  }

  lemma KeepsOne(cpu: Cpu, ds: seq<Insn>, i: nat, s: State, dst: u64, whole: Piece)
    requires i < |ds| && AllInScope(ds) && RunKeeps(cpu, ds, i, s, dst, whole)
    ensures WellFormed(ds[i]) && StepKeeps(cpu, ds[i], s, dst, whole)
  {
    hide Exec, PieceAt, WellFormed, InScope, Transfers;
    assert ds[i] in ds;
  }

  lemma InstalledFacts(ds: seq<Insn>, src: u64, dst: u64, detours: seq<u64>, m: Machine)
    requires Installed(ds, src, dst, detours, m)
    ensures AllInScope(ds) && |detours| == |ds| && AllReadable(ds) && Relocate(ds, src, dst, detours, true).Some?
  {
  }

  lemma StepInWindow(cpu: Cpu, ds: seq<Insn>, src: u64, dst: u64, detours: seq<u64>, i: nat, s: State, t: State)
    requires i < |ds| && Installed(ds, src, dst, detours, t.m)
    requires WellFormed(ds[i]) && StepKeeps(cpu, ds[i], s, dst, Relocate(ds, src, dst, detours, true).value)
    requires s.rip == Wrap(src + OrigOffset(ds, i)) && t == State(Wrap(dst + CodeOffset(ds, i)), s.m)
    ensures var link, image := LinkOf(ds[i], t.rip, detours[i]), Wrap(dst + CodeOffset(ds, i + 1));
            && Reaches(cpu, t, Counterpart(cpu, ds[i], s, image, link))
            && (Calls(ds[i]) ==> Reaches(cpu, State(link, t.m), State(image, t.m)))
  {
    hide Exec, PieceAt, Relocate, Near, Readable, WellFormed, InScope, Transfers, EmitLength, Reaches, LinkOf,
         AllReadable, RelocateInsn, Counterpart, KindOf, Installed, AllInScope, StepKeeps, OrigOffset, PieceAt;
    InstalledAt(ds, src, dst, detours, t.m, i);
    PieceInstalled(ds, src, dst, detours, t.m, i);
    var d := ds[i];
    assert d in ds;
    var p := RelocateInsn(d, Wrap(src + OrigOffset(ds, i)), Wrap(dst + CodeOffset(ds, i)), detours[i]).value;
    if KindOf(d).RipOperand? && !Transfers(cpu, d, s) {
      CodeKept(cpu, ds, src, dst, detours, i, s);
      PieceInstalled(ds, src, dst, detours, Exec(cpu, d, s).m, i);
    }
    assert t.rip == dst + CodeOffset(ds, i);
    assert Placed(d, s, t, detours[i], p);
    InsnSimulated(cpu, d, s, t, detours[i], p);
    assert Image(d, t.rip) == Wrap(dst + CodeOffset(ds, i + 1));
  }

  lemma InstalledAt(ds: seq<Insn>, src: u64, dst: u64, detours: seq<u64>, m: Machine, i: nat)
    requires i < |ds| && Installed(ds, src, dst, detours, m)
    ensures AllReadable(ds) && |detours| == |ds|
    ensures WellFormed(ds[i]) && InScope(ds[i]) && Readable(ds[i])
            && Near(ds[i], Wrap(src + OrigOffset(ds, i)), detours[i])
  {
    hide WellFormed, InScope, Readable, Near, Relocate, PieceAt, OrigOffset, Wrap;
    assert ds[i] in ds;
  }

  lemma CodeKept(cpu: Cpu, ds: seq<Insn>, src: u64, dst: u64, detours: seq<u64>, i: nat, s: State)
    requires i < |ds| && Installed(ds, src, dst, detours, s.m) && WellFormed(ds[i]) && !Transfers(cpu, ds[i], s)
    requires StepKeeps(cpu, ds[i], s, dst, Relocate(ds, src, dst, detours, true).value)
    ensures Installed(ds, src, dst, detours, Exec(cpu, ds[i], s).m)
  {
    hide Exec, PieceAt, Relocate, Near, Readable, WellFormed, InScope, AllReadable, Calls;
    assert ds[i] in ds;
  }

  lemma FallsThrough(cpu: Cpu, ds: seq<Insn>, src: u64, dst: u64, detours: seq<u64>, i: nat, s: State)
    requires i < |ds| && Installed(ds, src, dst, detours, s.m) && WellFormed(ds[i])
    requires StepKeeps(cpu, ds[i], s, dst, Relocate(ds, src, dst, detours, true).value)
    requires !Transfers(cpu, ds[i], s) && s.rip == Wrap(src + OrigOffset(ds, i))
    ensures !Calls(ds[i]) && Installed(ds, src, dst, detours, Exec(cpu, ds[i], s).m)
    ensures Exec(cpu, ds[i], s).rip == Wrap(src + OrigOffset(ds, i + 1))
  {
    hide PieceAt, Relocate, Near, Readable, InScope, AllReadable, WellFormed, Exec, Transfers, Calls, Installed,
         StepKeeps;
    InstalledAt(ds, src, dst, detours, s.m, i);
    NoTransfer(cpu, ds[i], s);
    CodeKept(cpu, ds, src, dst, detours, i, s);
    assert Wrap(Wrap(src + OrigOffset(ds, i)) + ds[i].Length()) == Wrap(src + OrigOffset(ds, i + 1));
  }

  lemma NoTransfer(cpu: Cpu, d: Insn, s: State)
    requires WellFormed(d) && !Transfers(cpu, d, s)
    ensures !Calls(d) && Exec(cpu, d, s).rip == Wrap(s.rip + d.Length())
  {
    hide KindOf, CondHolds, Machine.Push64, Machine.Load64, Wrap;
  }

  lemma BranchBack(cpu: Cpu, ds: seq<Insn>, src: u64, dst: u64, detours: seq<u64>, t: State)
    requires Installed(ds, src, dst, detours, t.m) && t.rip == Wrap(dst + CodeOffset(ds, |ds|))
    ensures Reaches(cpu, t, State(Wrap(src + OrigOffset(ds, |ds|)), t.m))
  {
    hide PieceAt, Near, Readable, InScope, AllReadable, JmpAbsolute, AllInScope, OrigOffset, CodeOffset, At, Runs,
         RelocateInsn, RelocateInsns;
    var n := |ds|;
    InsnsLength(ds, src, dst, detours, n);
    var y, target := RelocateInsns(ds, src, dst, detours, n).value, Wrap(src + OrigOffset(ds, n));
    var whole := Relocate(ds, src, dst, detours, true).value;
    assert whole.code == y.code + (JmpAbsolute(target) + []);
    PieceAtPart(t.m, dst, whole, y.code, Piece(JmpAbsolute(target), []), []);
    PieceCode(t.m, dst + |y.code|, Piece(JmpAbsolute(target), []));
    JmpAbsoluteRuns(cpu, t, target);
  }

  lemma PieceCode(m: Machine, a: u64, p: Piece)
    requires PieceAt(m, a, p)
    ensures At(m, a, p.code) && a + |p.code| < TWO64
  {
  }

  predicate CopiedJump(k: Kind) { k.JccRel32? || k.XBegin? }

  /**
    The long conditional jumps and XBEGIN are copied as they are, displacement and all. One that falls
    through does what it should; one that is taken, or a transaction that does not begin, leads to the
    right address exactly if the code has not moved.
   */
  lemma CopiedJumpExactly(cpu: Cpu, d: Insn, s: State, t: State, seqAddr: u64)
    requires WellFormed(d) && CopiedJump(KindOf(d)) && t.m == s.m && PieceAt(t.m, t.rip, Piece(d.bytes, []))
    ensures Readable(d) && RelocateInsn(d, s.rip, t.rip, seqAddr) == Some(Piece(d.bytes, []))
    ensures Runs(cpu, t, [d], Exec(cpu, d, t)) && !Calls(d)
    ensures Transfers(cpu, d, s) ==> Exec(cpu, d, t).m == Exec(cpu, d, s).m
    ensures Exec(cpu, d, t) == Counterpart(cpu, d, s, Image(d, t.rip), 0) <==> !Transfers(cpu, d, s) || t.rip == s.rip
  {
    hide CondHolds, Sext32, Insn.Imm32, Wrap, Runs, Exec, Transfers;
    RunOne(cpu, t, d);
    ExecCopiedJump(cpu, d, s);
    ExecCopiedJump(cpu, d, t);
    WrapInjective(s.rip, t.rip, d.Length() + Sext32(d.Imm32()));
  }

  lemma ExecCopiedJump(cpu: Cpu, d: Insn, s: State)
    requires WellFormed(d) && CopiedJump(KindOf(d))
    ensures |d.bytes| >= 4
    ensures Transfers(cpu, d, s) <==> if KindOf(d).XBegin? then !cpu.transaction(s.m).0
                                      else CondHolds(d.opcode % 16, s.m.flags)
    ensures Exec(cpu, d, s) == State(if Transfers(cpu, d, s) then Wrap(s.rip + (d.Length() + Sext32(d.Imm32())))
                                     else Wrap(s.rip + d.Length()),
                                     if KindOf(d).XBegin? then cpu.transaction(s.m).1 else s.m)
  {
    hide CondHolds, Sext32, Insn.Imm32, Wrap;
    assert |d.bytes| >= 4;
    WrapTwice(s.rip + d.Length(), Sext32(d.Imm32()));
  }

  lemma WrapInjective(a: u64, b: u64, x: int)
    ensures Wrap(a + x) == Wrap(b + x) <==> a == b
  {
  }

  /**
    The two-byte opcodes 0F 70 to 0F 7F (vector shuffles, shifts, compares and moves) are relocated as
    the conditional jumps 70 to 7F: the machine is left as it is, and control goes where their immediate
    says if the flags happen to agree. This is what the instruction does exactly if it changes nothing,
    and the flags disagree or the immediate happens to lead to the next instruction.
   */
  lemma EscapedTakenForJcc(cpu: Cpu, d: Insn, ip: u64, t: State, seqAddr: u64, p: Piece)
    requires WellFormed(d) && d.escape && 0x70 <= d.opcode <= 0x7F
    requires RelocateInsn(d, ip, t.rip, seqAddr) == Some(p) && PieceAt(t.m, t.rip, p)
    ensures !IsRelJump(KindOf(d))
    ensures var s, holds, image := State(ip, t.m), CondHolds(d.opcode % 16, t.m.flags), Image(d, t.rip);
            var r := State(if holds then Rel8Target(d, ip) else image, t.m);
            && Reaches(cpu, t, r)
            && (!Transfers(cpu, d, s) ==>
                  (r == Counterpart(cpu, d, s, image, 0) <==>
                   Exec(cpu, d, s).m == t.m && (holds ==> Rel8Target(d, ip) == image)))
  {
    hide Runs, At, LE32, LE64, JMP_MEM, JmpAbsolute, CondHolds, Rel8Target, Exec;
    JccRuns(cpu, t, d.opcode, Rel8Target(d, ip));
    WrapSmall(t.rip + 18);
  }

  /**
    0F EB (a vector or) is relocated as a jump; 0F E0 to 0F E3, 0F E8 and 0F E9 abort as LOOP, JCXZ, and
    prefixed calls and jumps do.
   */
  lemma EscapedTakenForJump(cpu: Cpu, d: Insn, ip: u64, t: State, seqAddr: u64)
    requires WellFormed(d) && Readable(d) && d.escape && !d.ripRelative
    ensures d.opcode == 0xEB ==> RelocateInsn(d, ip, t.rip, seqAddr) == Some(Piece(JmpAbsolute(Rel8Target(d, ip)), []))
    ensures d.opcode == 0xEB && PieceAt(t.m, t.rip, Piece(JmpAbsolute(Rel8Target(d, ip)), [])) ==>
              Reaches(cpu, t, State(Rel8Target(d, ip), t.m))
    ensures 0xE0 <= d.opcode <= 0xE3 || d.opcode == 0xE8 || d.opcode == 0xE9 ==>
              RelocateInsn(d, ip, t.rip, seqAddr) == None
  {
    hide Runs, At, LE32, LE64, JMP_MEM, JmpAbsolute, Rel8Target;
    var p := Piece(JmpAbsolute(Rel8Target(d, ip)), []);
    if d.opcode == 0xEB && PieceAt(t.m, t.rip, p) {
      PieceCode(t.m, t.rip, p);
      JmpAbsoluteRuns(cpu, t, Rel8Target(d, ip));
    }
  }
}
