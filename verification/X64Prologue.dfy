/**
  The simulation at work on what is hooked most: a function that begins with push rbp. The two
  instructions of that prologue the processor leaves open get their real effect here, the store
  included, so that nothing is assumed of them.
 */
module X64Prologue {
  import opened Words
  import opened X64Isa
  import opened X64Relocation
  import opened X64Simulation

  const RBP := 5

  /** push rbp */
  const PUSH_RBP: Insn := Insn([0x55], 0x55, 0, false, 0, false, 0)

  /** mov rbp, rsp */
  const MOV_RBP_RSP: Insn := Insn([0x48, 0x89, 0xE5], 0x89, 1, false, 0, false, 0)

  function FramePlain(bytes: seq<u8>, m: Machine): Effect
  {
    if bytes == PUSH_RBP.bytes then Effect(m.Push64(m.regs[RBP]), None)
    else if bytes == MOV_RBP_RSP.bytes then Effect(m.(regs := m.regs[RBP := m.regs[RSP]]), None)
    else Effect(m, None)
  }

  /** Any processor, with these two; no other plain instruction occurs in the windows below. */
  function FrameCpu(cpu: Cpu): Cpu { cpu.(plain := FramePlain) }

  lemma FrameInsns()
    ensures WellFormed(PUSH_RBP) && InScope(PUSH_RBP) && KindOf(PUSH_RBP).Plain?
    ensures WellFormed(MOV_RBP_RSP) && InScope(MOV_RBP_RSP) && KindOf(MOV_RBP_RSP).Plain?
  {
  }

  /** The eight bytes below the stack pointer are apart from [a, a + n). */
  predicate StackApart(m: Machine, a: nat, n: nat)
  {
    8 <= m.regs[RSP] && (a + n <= m.regs[RSP] - 8 || m.regs[RSP] <= a)
  }

  lemma PushKeepsBytes(m: Machine, v: u64, a: u64, b: seq<u8>)
    requires At(m, a, b) && a + |b| < TWO64 && StackApart(m, a, |b|)
    ensures At(m.Push64(v), a, b)
  {
    forall k | 0 <= k < |b|
      ensures m.Push64(v).Bytes(a, |b|)[k] == b[k]
    {
      assert m.Bytes(a, |b|)[k] == b[k];
      WrapSmall(a + k);
      WrapSmall(m.regs[RSP] - 8);
      NotStored(m.mem, m.regs[RSP] - 8, v, a + k);
    }
  }

  lemma NotStored(mem: u64 -> u8, a: u64, v: u64, x: u64)
    requires x < a || a + 8 <= x
    ensures a + 8 <= TWO64 ==> StoredByte(mem, a, v, x) == mem(x)
  {
    ReadLE64(v);
  }

  /** The stack is apart from the relocated code and all its detours. */
  ghost predicate StackApartFrom(m: Machine, dst: u64, whole: Piece)
  {
    StackApart(m, dst, |whole.code|) && forall q <- whole.patches :: StackApart(m, q.0, |q.1|)
  }

  lemma PushKeepsPiece(m: Machine, v: u64, dst: u64, whole: Piece)
    requires PieceAt(m, dst, whole) && StackApartFrom(m, dst, whole)
    ensures PieceAt(m.Push64(v), dst, whole)
  {
    hide At, Machine.Push64, StackApart;
    PushKeepsBytes(m, v, dst, whole.code);
    forall q | q in whole.patches
      ensures At(m.Push64(v), q.0, q.1)
    {
      PushKeepsBytes(m, v, q.0, q.1);
    }
  }

  /** Behind the push: jumps, calls, and the move to rbp. */
  predicate NoStore(d: Insn) { d == MOV_RBP_RSP || !(KindOf(d).Plain? || KindOf(d).RipOperand?) }

  lemma ExecNoStore(cpu: Cpu, d: Insn, s: State)
    requires cpu.plain == FramePlain && WellFormed(d) && InScope(d) && NoStore(d) && !Transfers(cpu, d, s)
    ensures Exec(cpu, d, s).m.mem == s.m.mem
  {
    if d == MOV_RBP_RSP {
      FrameInsns();
    }
    hide CondHolds, Machine.Push64, Machine.Load64, WellFormed, Wrap;
  }

  lemma {:induction false} RestKeeps(cpu: Cpu, ds: seq<Insn>, i: nat, s: State, dst: u64, whole: Piece)
    requires cpu.plain == FramePlain && i <= |ds| && AllInScope(ds) && PieceAt(s.m, dst, whole)
    requires forall k :: i <= k < |ds| ==> NoStore(ds[k])
    ensures RunKeeps(cpu, ds, i, s, dst, whole)
    decreases |ds| - i
  {
    hide Exec, PieceAt, WellFormed, InScope, Transfers, NoStore, FramePlain;
    if i < |ds| {
      assert ds[i] in ds;
      if !Transfers(cpu, ds[i], s) {
        ExecNoStore(cpu, ds[i], s);
        SameMemory(s.m, Exec(cpu, ds[i], s).m, dst, whole);
        RestKeeps(cpu, ds, i + 1, Exec(cpu, ds[i], s), dst, whole);
      }
    }
  }

  lemma ExecPush(cpu: Cpu, s: State)
    requires cpu.plain == FramePlain
    ensures WellFormed(PUSH_RBP) && !Transfers(cpu, PUSH_RBP, s)
    ensures Exec(cpu, PUSH_RBP, s).m == s.m.Push64(s.m.regs[RBP])
  {
    hide Machine.Push64;
    FrameInsns();
  }

  /**
    A window that begins with push rbp, from its first instruction, with any stack that is apart from
    the relocated code and its detours: the relocated run leaves it as the original does.
   */
  lemma PrologueSimulates(rest: Cpu, ds: seq<Insn>, src: u64, dst: u64, detours: seq<u64>, s: State, t: State)
    requires Installed(ds, src, dst, detours, t.m) && s.rip == src && t == State(dst, s.m)
    requires ds != [] && ds[0] == PUSH_RBP && forall k :: 1 <= k < |ds| ==> NoStore(ds[k])
    requires StackApartFrom(s.m, dst, Relocate(ds, src, dst, detours, true).value)
    ensures var cpu := FrameCpu(rest);
            exists t' :: Reaches(cpu, t, t') &&
              var (e, x) := ExitFrom(cpu, ds, 0, s); LeftAlike(cpu, ds, src, dst, detours, e, x, t')
  {
    hide Exec, PieceAt, WellFormed, InScope, Transfers, NoStore, FramePlain, Relocate, Near, Readable, AllReadable,
         Reaches, StackApartFrom, LeftAlike, Machine.Push64, LinkOf;
    var cpu, whole := FrameCpu(rest), Relocate(ds, src, dst, detours, true).value;
    assert ds[0] in ds;
    ExecPush(cpu, s);
    PushKeepsPiece(s.m, s.m.regs[RBP], dst, whole);
    RestKeeps(cpu, ds, 1, Exec(cpu, ds[0], s), dst, whole);
    WrapSmall(src);
    WrapSmall(dst);
    RelocationSimulates(cpu, ds, src, dst, detours, 0, s, t);
  }
}
