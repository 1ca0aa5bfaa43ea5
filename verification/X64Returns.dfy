/**
  Runs of a relocated x86-64 window that call and are returned to. A call has left the return address
  of the relocation in place of the original one: on the stack, where it is dead when the call has
  returned, or for a system call in RCX, where it stays. From then on the two machines agree but for
  dead memory and, until it is written again, RCX. The simulation carries that relation through any
  number of calls, to where the run leaves the window for good.
 */
module X64Returns {
  import opened Words
  import opened X64Isa
  import opened X64Relocation
  import opened X64Simulation

  /** Equal machines but for the dead memory, and RCX if it may differ. */
  ghost predicate Alike(dead: iset<u64>, differs: bool, m: Machine, m': Machine)
  {
    && (forall r :: 0 <= r < 16 && r != RCX ==> m.regs[r] == m'.regs[r])
    && (!differs ==> m.regs[RCX] == m'.regs[RCX])
    && m.vec == m'.vec && m.flags == m'.flags && AgreeOutside(dead, m.mem, m'.mem)
  }

  /** What d does in s depends on nothing that may differ. What a call leaves for the one called is not asked here. */
  ghost predicate Carried(cpu: Cpu, dead: iset<u64>, differs: bool, d: Insn, s: State)
    requires WellFormed(d)
  {
    forall m: Machine {:trigger Alike(dead, differs, s.m, m)} :: Alike(dead, differs, s.m, m) ==>
      var u := State(s.rip, m);
      && Transfers(cpu, d, u) == Transfers(cpu, d, s) && Exec(cpu, d, u).rip == Exec(cpu, d, s).rip
      && (!Calls(d) ==> Alike(dead, true, Exec(cpu, d, s).m, Exec(cpu, d, u).m))
  }

  /** Executing d in s makes RCX the same again. */
  ghost predicate Settles(cpu: Cpu, dead: iset<u64>, differs: bool, d: Insn, s: State)
    requires WellFormed(d)
  {
    forall m: Machine {:trigger Alike(dead, differs, s.m, m)} :: Alike(dead, differs, s.m, m) ==>
      Exec(cpu, d, State(s.rip, m)).m.regs[RCX] == Exec(cpu, d, s).m.regs[RCX]
  }

  /** The return address on top of the stack. */
  function Link(m: Machine): u64 { m.Load64(m.regs[RSP]) }

  /** The address k bytes behind a. */
  function Behind(a: u64, k: nat): u64 { Wrap(a + k) }

  /** Eight dead bytes at a. */
  ghost predicate SlotDead(dead: iset<u64>, a: u64)
  {
    forall k :: 0 <= k < 8 ==> Behind(a, k) in dead
  }

  /** From t control comes back to link, in a machine like back's. */
  ghost predicate ComesBack(cpu: Cpu, dead: iset<u64>, differs: bool, t: State, link: u64, back: State)
  {
    exists m: Machine {:trigger Alike(dead, differs, back.m, m)} ::
      Alike(dead, differs, back.m, m) && Reaches(cpu, t, State(link, m))
  }

  /**
    What d calls in s comes back, to whatever return address it is told, and does what it does when it is told
    that of the next instruction: the state it leaves then is back.
   */
  ghost predicate Returns(cpu: Cpu, dead: iset<u64>, differs: bool, after: bool, d: Insn, s: State, back: State,
                          dst: u64, whole: Piece)
    requires WellFormed(d)
  {
    && back.rip == Wrap(s.rip + d.Length()) && PieceAt(back.m, dst, whole)
    && forall m: Machine, link: u64 {:trigger Told(cpu, d, m, link)} ::
         Alike(dead, differs, s.m, m) && PieceAt(m, dst, whole) ==>
         ComesBack(cpu, dead, after, State(Exec(cpu, d, s).rip, Told(cpu, d, m, link)), link, back)
  }

  /** The original run from instruction i through all calls, whose outcomes call gives. */
  function Through(cpu: Cpu, call: State -> State, ds: seq<Insn>, i: nat, s: State): State
    requires i <= |ds| && AllInScope(ds)
    decreases |ds| - i
  {
    if i == |ds| then s
    else
      assert ds[i] in ds;
      var s1 := Exec(cpu, ds[i], s);
      if Calls(ds[i]) then Through(cpu, call, ds, i + 1, call(s1))
      else if Transfers(cpu, ds[i], s) then s1
      else Through(cpu, call, ds, i + 1, s1)
  }

  /** May RCX differ behind d? */
  ghost predicate DiffersBehind(cpu: Cpu, call: State -> State, dead: iset<u64>, differs: bool, d: Insn, s: State,
                                dst: u64, whole: Piece)
    requires WellFormed(d)
  {
    if Calls(d) then !Returns(cpu, dead, differs, false, d, s, call(Exec(cpu, d, s)), dst, whole)
    else !Settles(cpu, dead, differs, d, s)
  }

  /** May it where that run ends? */
  ghost predicate DiffersAfter(cpu: Cpu, call: State -> State, dead: iset<u64>, differs: bool, ds: seq<Insn>, i: nat,
                               s: State, dst: u64, whole: Piece)
    requires i <= |ds| && AllInScope(ds)
    decreases |ds| - i
  {
    if i == |ds| then differs
    else
      assert ds[i] in ds;
      var s1, differs1 := Exec(cpu, ds[i], s), DiffersBehind(cpu, call, dead, differs, ds[i], s, dst, whole);
      if Calls(ds[i]) then DiffersAfter(cpu, call, dead, differs1, ds, i + 1, call(s1), dst, whole)
      else if Transfers(cpu, ds[i], s) then differs1
      else DiffersAfter(cpu, call, dead, differs1, ds, i + 1, s1, dst, whole)
  }

  /**
    What is asked of that run: every instruction it executes is carried, every call returns, and none
    overwrites the relocation.
   */
  ghost predicate RunCarried(cpu: Cpu, call: State -> State, dead: iset<u64>, differs: bool, ds: seq<Insn>, i: nat,
                             s: State, dst: u64, whole: Piece)
    requires i <= |ds| && AllInScope(ds)
    decreases |ds| - i
  {
    i < |ds| ==>
      assert ds[i] in ds;
      var s1, differs1 := Exec(cpu, ds[i], s), DiffersBehind(cpu, call, dead, differs, ds[i], s, dst, whole);
      && Carried(cpu, dead, differs, ds[i], s)
      && if Calls(ds[i]) then
           && Returns(cpu, dead, differs, true, ds[i], s, call(s1), dst, whole)
           && RunCarried(cpu, call, dead, differs1, ds, i + 1, call(s1), dst, whole)
         else
           && StepKeeps(cpu, ds[i], s, dst, whole)
           && (!Transfers(cpu, ds[i], s) ==> RunCarried(cpu, call, dead, differs1, ds, i + 1, s1, dst, whole))
  }

  /** No byte at a is dead. */
  ghost predicate Spares(dead: iset<u64>, a: u64, b: seq<u8>)
  {
    forall k :: 0 <= k < |b| ==> Behind(a, k) !in dead
  }

  ghost predicate Spared(dead: iset<u64>, dst: u64, whole: Piece)
  {
    Spares(dead, dst, whole.code) && forall q <- whole.patches :: Spares(dead, q.0, q.1)
  }

  lemma StillThere(dead: iset<u64>, m: Machine, m': Machine, a: u64, b: seq<u8>)
    requires AgreeOutside(dead, m.mem, m'.mem) && Spares(dead, a, b) && At(m, a, b)
    ensures At(m', a, b)
  {
    forall k | 0 <= k < |b|
      ensures m'.Bytes(a, |b|)[k] == b[k]
    {
      assert m.Bytes(a, |b|)[k] == b[k];
      assert Behind(a, k) !in dead;
    }
  }

  lemma StillPlaced(dead: iset<u64>, m: Machine, m': Machine, dst: u64, whole: Piece)
    requires AgreeOutside(dead, m.mem, m'.mem) && Spared(dead, dst, whole) && PieceAt(m, dst, whole)
    ensures PieceAt(m', dst, whole)
  {
    hide At, AgreeOutside, Spares;
    StillThere(dead, m, m', dst, whole.code);
    forall q | q in whole.patches
      ensures At(m', q.0, q.1)
    {
      StillThere(dead, m, m', q.0, q.1);
    }
  }

  lemma MemAlike(dead: iset<u64>, differs: bool, m: Machine, m': Machine)
    requires Alike(dead, differs, m, m')
    ensures AgreeOutside(dead, m.mem, m'.mem)
  {
  }

  /** Both runs end at the same address in machines alike. */
  ghost predicate EndAlike(cpu: Cpu, dead: iset<u64>, differs: bool, t: State, s': State)
  {
    exists m: Machine {:trigger Alike(dead, differs, s'.m, m)} ::
      Alike(dead, differs, s'.m, m) && Reaches(cpu, t, State(s'.rip, m))
  }

  lemma EndFurther(cpu: Cpu, dead: iset<u64>, differs: bool, t: State, t1: State, s': State)
    requires Reaches(cpu, t, t1) && EndAlike(cpu, dead, differs, t1, s')
    ensures EndAlike(cpu, dead, differs, t, s')
  {
    hide Reaches, Alike;
    var m: Machine :| Alike(dead, differs, s'.m, m) && Reaches(cpu, t1, State(s'.rip, m));
    ReachesTrans(cpu, t, t1, State(s'.rip, m));
  }

  lemma EndHere(cpu: Cpu, dead: iset<u64>, differs: bool, t: State, s': State, m: Machine)
    requires Alike(dead, differs, s'.m, m) && Reaches(cpu, t, State(s'.rip, m))
    ensures EndAlike(cpu, dead, differs, t, s')
  {
  }

  /** t1 is where the relocated run stands after d, which is no call. */
  ghost predicate StepAlike(cpu: Cpu, dead: iset<u64>, differs: bool, d: Insn, s: State, t1: State, image: u64)
    requires WellFormed(d)
  {
    && t1.rip == (if Transfers(cpu, d, s) then Exec(cpu, d, s).rip else image)
    && Alike(dead, !Settles(cpu, dead, differs, d, s), Exec(cpu, d, s).m, t1.m)
  }

  lemma StepIsAlike(cpu: Cpu, dead: iset<u64>, differs: bool, d: Insn, s: State, m: Machine, image: u64)
    requires WellFormed(d) && !Calls(d) && Alike(dead, differs, s.m, m) && Carried(cpu, dead, differs, d, s)
    ensures StepAlike(cpu, dead, differs, d, s, Counterpart(cpu, d, State(s.rip, m), image, 0), image)
  {
    hide Exec, Transfers, WellFormed, KindOf, AgreeOutside;
    var u := State(s.rip, m);
    assert Alike(dead, true, Exec(cpu, d, s).m, Exec(cpu, d, u).m);
  }

  /** Relocation preserves meaning over runs through calls and their returns. */
  lemma {:induction false} RunsThroughCalls(cpu: Cpu, call: State -> State, dead: iset<u64>, differs: bool,
                                            ds: seq<Insn>, src: u64, dst: u64, detours: seq<u64>, i: nat, s: State,
                                            t: State)
    requires i <= |ds| && Installed(ds, src, dst, detours, t.m)
    requires s.rip == Wrap(src + OrigOffset(ds, i)) && t.rip == Wrap(dst + CodeOffset(ds, i))
             && Alike(dead, differs, s.m, t.m)
    requires var whole := Relocate(ds, src, dst, detours, true).value;
             Spared(dead, dst, whole) && RunCarried(cpu, call, dead, differs, ds, i, s, dst, whole)
    ensures var whole := Relocate(ds, src, dst, detours, true).value;
            EndAlike(cpu, dead, DiffersAfter(cpu, call, dead, differs, ds, i, s, dst, whole), t,
                Through(cpu, call, ds, i, s))
    decreases |ds| - i
  {
    hide Exec, PieceAt, Relocate, WellFormed, InScope, Transfers, EmitLength, Reaches, LinkOf, AllReadable, Installed,
         StepKeeps, Carried, Returns, Settles, Alike, Spared, StepAlike, EndAlike, OrigOffset, CodeOffset, Wrap,
         AllInScope, KindOf, DiffersBehind;
    InstalledFacts(ds, src, dst, detours, t.m);
    var whole := Relocate(ds, src, dst, detours, true).value;
    if i == |ds| {
      BranchBack(cpu, ds, src, dst, detours, t);
      EndHere(cpu, dead, differs, t, s, t.m);
    } else {
      InstalledAt(ds, src, dst, detours, t.m, i);
      var differs1 := DiffersBehind(cpu, call, dead, differs, ds[i], s, dst, whole);
      var s1 := Exec(cpu, ds[i], s);
      if Calls(ds[i]) {
        var t2 := CallReturns(cpu, call, dead, differs, ds, src, dst, detours, i, s, t);
        RunsThroughCalls(cpu, call, dead, differs1, ds, src, dst, detours, i + 1, call(s1), t2);
        EndFurther(cpu, dead, DiffersAfter(cpu, call, dead, differs1, ds, i + 1, call(s1), dst, whole), t, t2,
            Through(cpu, call, ds, i + 1, call(s1)));
      } else {
        var t1 := OneStep(cpu, dead, differs, ds, src, dst, detours, i, s, t);
        StepFacts(cpu, call, dead, differs, ds, src, dst, detours, i, s, t, t1);
        if Transfers(cpu, ds[i], s) {
          EndHere(cpu, dead, differs1, t, s1, t1.m);
        } else {
          RunsThroughCalls(cpu, call, dead, differs1, ds, src, dst, detours, i + 1, s1, t1);
          EndFurther(cpu, dead, DiffersAfter(cpu, call, dead, differs1, ds, i + 1, s1, dst, whole), t, t1,
              Through(cpu, call, ds, i + 1, s1));
        }
      }
    }
  }

  lemma PlacedIn(ds: seq<Insn>, src: u64, dst: u64, detours: seq<u64>, m: Machine)
    requires Installed(ds, src, dst, detours, m)
    ensures |ds| == |detours| && AllReadable(ds) && Relocate(ds, src, dst, detours, true).Some?
    ensures PieceAt(m, dst, Relocate(ds, src, dst, detours, true).value)
  {
    hide PieceAt, Relocate, Near;
  }

  lemma StillInstalled(ds: seq<Insn>, src: u64, dst: u64, detours: seq<u64>, m: Machine, m': Machine)
    requires Installed(ds, src, dst, detours, m) && PieceAt(m', dst, Relocate(ds, src, dst, detours, true).value)
    ensures Installed(ds, src, dst, detours, m')
  {
    hide PieceAt, Relocate, Near, AllInScope, OrigOffset, Wrap;
  }

  lemma OneStep(cpu: Cpu, dead: iset<u64>, differs: bool, ds: seq<Insn>, src: u64, dst: u64, detours: seq<u64>,
                i: nat, s: State, t: State) returns (t1: State)
    requires i < |ds| && Installed(ds, src, dst, detours, t.m) && WellFormed(ds[i]) && !Calls(ds[i])
    requires s.rip == Wrap(src + OrigOffset(ds, i)) && t.rip == Wrap(dst + CodeOffset(ds, i))
             && Alike(dead, differs, s.m, t.m)
    requires Carried(cpu, dead, differs, ds[i], s)
    requires var whole := Relocate(ds, src, dst, detours, true).value;
             Spared(dead, dst, whole) && StepKeeps(cpu, ds[i], s, dst, whole)
    ensures Reaches(cpu, t, t1)
    ensures StepAlike(cpu, dead, differs, ds[i], s, t1, Wrap(dst + CodeOffset(ds, i + 1)))
  {
    hide Exec, PieceAt, Relocate, InScope, Transfers, EmitLength, Reaches, LinkOf, AllReadable, Installed, Spared,
         Alike, AllInScope, StepAlike, OrigOffset, CodeOffset, Wrap, KindOf, WellFormed, Calls;
    InstalledFacts(ds, src, dst, detours, t.m);
    var whole, d, u := Relocate(ds, src, dst, detours, true).value, ds[i], State(s.rip, t.m);
    var image := Wrap(dst + CodeOffset(ds, i + 1));
    if !Transfers(cpu, d, s) {
      MemAlike(dead, true, Exec(cpu, d, s).m, Exec(cpu, d, u).m);
      StillPlaced(dead, Exec(cpu, d, s).m, Exec(cpu, d, u).m, dst, whole);
    }
    StepInWindow(cpu, ds, src, dst, detours, i, u, t);
    StepIsAlike(cpu, dead, differs, d, s, t.m, image);
    t1 := Counterpart(cpu, d, u, image, 0);
  }

  lemma StepFacts(cpu: Cpu, call: State -> State, dead: iset<u64>, differs: bool, ds: seq<Insn>, src: u64, dst: u64,
                  detours: seq<u64>, i: nat, s: State, t: State, t1: State)
    requires i < |ds| && Installed(ds, src, dst, detours, t.m) && WellFormed(ds[i]) && !Calls(ds[i])
    requires s.rip == Wrap(src + OrigOffset(ds, i))
    requires StepAlike(cpu, dead, differs, ds[i], s, t1, Wrap(dst + CodeOffset(ds, i + 1)))
    requires var whole := Relocate(ds, src, dst, detours, true).value;
             Spared(dead, dst, whole) && StepKeeps(cpu, ds[i], s, dst, whole)
    ensures var s1, whole := Exec(cpu, ds[i], s), Relocate(ds, src, dst, detours, true).value;
            && Alike(dead, DiffersBehind(cpu, call, dead, differs, ds[i], s, dst, whole), s1.m, t1.m)
            && (Transfers(cpu, ds[i], s) ==> t1.rip == s1.rip)
            && (!Transfers(cpu, ds[i], s) ==>
                  && s1.rip == Wrap(src + OrigOffset(ds, i + 1)) && t1.rip == Wrap(dst + CodeOffset(ds, i + 1))
                  && Installed(ds, src, dst, detours, t1.m))
  {
    hide Exec, PieceAt, Relocate, InScope, Transfers, EmitLength, AllReadable, Installed, Spared, Alike, Settles,
         AllInScope, CodeOffset, Wrap, KindOf, WellFormed, Calls;
    InstalledFacts(ds, src, dst, detours, t.m);
    if !Transfers(cpu, ds[i], s) {
      NoTransfer(cpu, ds[i], s);
      var differs1 := !Settles(cpu, dead, differs, ds[i], s);
      MemAlike(dead, differs1, Exec(cpu, ds[i], s).m, t1.m);
      StillPlaced(dead, Exec(cpu, ds[i], s).m, t1.m, dst, Relocate(ds, src, dst, detours, true).value);
      StillInstalled(ds, src, dst, detours, t.m, t1.m);
      WrapTwice(src + OrigOffset(ds, i), ds[i].Length());
    }
  }

  /** From a call in the window to the image of the instruction behind it. */
  lemma CallReturns(cpu: Cpu, call: State -> State, dead: iset<u64>, differs: bool, ds: seq<Insn>, src: u64, dst: u64,
                    detours: seq<u64>, i: nat, s: State, t: State) returns (t2: State)
    requires i < |ds| && Installed(ds, src, dst, detours, t.m) && WellFormed(ds[i]) && Calls(ds[i])
    requires s.rip == Wrap(src + OrigOffset(ds, i)) && t.rip == Wrap(dst + CodeOffset(ds, i))
             && Alike(dead, differs, s.m, t.m) && Carried(cpu, dead, differs, ds[i], s)
    requires var whole, back := Relocate(ds, src, dst, detours, true).value, call(Exec(cpu, ds[i], s));
             Spared(dead, dst, whole) && Returns(cpu, dead, differs, true, ds[i], s, back, dst, whole)
    ensures var back, whole := call(Exec(cpu, ds[i], s)), Relocate(ds, src, dst, detours, true).value;
            && back.rip == Wrap(src + OrigOffset(ds, i + 1)) && t2.rip == Wrap(dst + CodeOffset(ds, i + 1))
            && Reaches(cpu, t, t2) && Installed(ds, src, dst, detours, t2.m)
            && Alike(dead, DiffersBehind(cpu, call, dead, differs, ds[i], s, dst, whole), back.m, t2.m)
  {
    hide Exec, PieceAt, Relocate, InScope, Transfers, EmitLength, Reaches, LinkOf, AllReadable, Installed, Spared,
         Alike, AllInScope, CodeOffset, Wrap, KindOf, WellFormed, Calls, Told, LeadsOn;
    InstalledFacts(ds, src, dst, detours, t.m);
    PlacedIn(ds, src, dst, detours, t.m);
    var whole, d, u := Relocate(ds, src, dst, detours, true).value, ds[i], State(s.rip, t.m);
    var link, back := LinkOf(d, t.rip, detours[i]), call(Exec(cpu, d, s));
    var differs1 := DiffersBehind(cpu, call, dead, differs, d, s, dst, whole);
    CallLeaves(cpu, d, u, dst, whole);
    CallTells(cpu, d, u);
    StepInWindow(cpu, ds, src, dst, detours, i, u, t);
    var t1 := State(Exec(cpu, d, s).rip, Told(cpu, d, t.m, link));
    assert Reaches(cpu, t, t1);
    assert ComesBack(cpu, dead, differs1, t1, link, back);
    var m: Machine :| Alike(dead, differs1, back.m, m) && Reaches(cpu, t1, State(link, m));
    MemAlike(dead, differs1, back.m, m);
    StillPlaced(dead, back.m, m, dst, whole);
    t2 := State(Wrap(dst + CodeOffset(ds, i + 1)), m);
    Onward(cpu, ds, src, dst, detours, i, t.m, m);
    ReachesTrans(cpu, t1, State(link, m), t2);
    ReachesTrans(cpu, t, t1, t2);
    StillInstalled(ds, src, dst, detours, t.m, m);
    WrapTwice(src + OrigOffset(ds, i), d.Length());
  }

  lemma Onward(cpu: Cpu, ds: seq<Insn>, src: u64, dst: u64, detours: seq<u64>, i: nat, m: Machine, m': Machine)
    requires i < |ds| && Installed(ds, src, dst, detours, m) && Calls(ds[i])
    requires PieceAt(m', dst, Relocate(ds, src, dst, detours, true).value)
    ensures Reaches(cpu, State(LinkOf(ds[i], Wrap(dst + CodeOffset(ds, i)), detours[i]), m'),
                    State(Wrap(dst + CodeOffset(ds, i + 1)), m'))
  {
    hide Installed, PieceAt, Relocate, Reaches, LinkOf, CodeOffset, Wrap, Calls;
    LinkLeadsOn(cpu, ds, src, dst, detours, i, m);
  }

  // ----- what is asked of the run, for jumps and calls and for the simplest callees

  /** Relative jumps and calls are carried, whatever is dead or differs; none of them changes RCX. */
  lemma RelJumpCarried(cpu: Cpu, dead: iset<u64>, differs: bool, d: Insn, s: State)
    requires WellFormed(d) && IsRelJump(KindOf(d))
    ensures Carried(cpu, dead, differs, d, s) && (!differs ==> Settles(cpu, dead, differs, d, s))
  {
    hide WellFormed, KindOf, Exec, AgreeOutside, Machine.Push64, Wrap, CondHolds;
    forall m: Machine | Alike(dead, differs, s.m, m)
      ensures var u := State(s.rip, m);
              && Transfers(cpu, d, u) == Transfers(cpu, d, s) && Exec(cpu, d, u).rip == Exec(cpu, d, s).rip
              && (!Calls(d) ==> Alike(dead, true, Exec(cpu, d, s).m, Exec(cpu, d, u).m))
              && (!differs ==> Exec(cpu, d, u).m.regs[RCX] == Exec(cpu, d, s).m.regs[RCX])
    {
      ExecRelJump(cpu, d, s);
      ExecRelJump(cpu, d, State(s.rip, m));
      PushKeepsRcx(s.m, Wrap(s.rip + d.Length()));
      PushKeepsRcx(m, Wrap(s.rip + d.Length()));
    }
  }

  lemma PushKeepsRcx(m: Machine, v: u64)
    ensures m.Push64(v).regs[RCX] == m.regs[RCX]
  {
  }

  /** Jumps and calls through memory are, if what they read is not dead. */
  lemma MemJumpCarried(cpu: Cpu, dead: iset<u64>, differs: bool, d: Insn, s: State)
    requires WellFormed(d) && (KindOf(d).JmpMem? || KindOf(d).CallMem?)
    requires d.dispOffset + 4 <= |d.bytes| && forall k :: 0 <= k < 8 ==> Behind(MemTarget(d, s.rip), k) !in dead
    ensures Carried(cpu, dead, differs, d, s)
  {
    hide WellFormed, KindOf, Exec, AgreeOutside, Machine.Push64, Machine.Load64, Wrap, MemTarget;
    forall m: Machine | Alike(dead, differs, s.m, m)
      ensures var u := State(s.rip, m);
              && Transfers(cpu, d, u) == Transfers(cpu, d, s) && Exec(cpu, d, u).rip == Exec(cpu, d, s).rip
              && (!Calls(d) ==> Alike(dead, true, Exec(cpu, d, s).m, Exec(cpu, d, u).m))
    {
      ExecRip(cpu, d, s);
      ExecRip(cpu, d, State(s.rip, m));
      LoadsSame(dead, s.m, m, MemTarget(d, s.rip));
    }
  }

  lemma LoadsSame(dead: iset<u64>, m: Machine, m': Machine, a: u64)
    requires AgreeOutside(dead, m.mem, m'.mem) && forall k :: 0 <= k < 8 ==> Behind(a, k) !in dead
    ensures m.Load64(a) == m'.Load64(a)
  {
    hide Read64;
    forall k | 0 <= k < 8
      ensures m.Bytes(a, 8)[k] == m'.Bytes(a, 8)[k]
    {
      assert Behind(a, k) !in dead;
    }
    assert m.Bytes(a, 8) == m'.Bytes(a, 8);
  }

  /** A push to a dead slot changes nothing else. */
  lemma PushAgrees(dead: iset<u64>, m: Machine, v: u64)
    requires SlotDead(dead, m.Push64(v).regs[RSP])
    ensures AgreeOutside(dead, m.mem, m.Push64(v).mem)
  {
    forall a: u64 | a !in dead
      ensures m.Push64(v).mem(a) == m.mem(a)
    {
      OutsideSlot(dead, m.Push64(v).regs[RSP], a);
    }
  }

  /** A push that differs in the value alone leaves machines alike, if its slot is dead; and it can be read back. */
  lemma PushesAlike(dead: iset<u64>, differs: bool, m: Machine, m': Machine, v: u64, v': u64)
    requires Alike(dead, differs, m, m') && SlotDead(dead, m.Push64(v).regs[RSP])
    ensures Alike(dead, differs, m.Push64(v), m'.Push64(v'))
  {
    var sp := m.Push64(v).regs[RSP];
    forall a: u64 | a !in dead
      ensures m.Push64(v).mem(a) == m'.Push64(v').mem(a)
    {
      OutsideSlot(dead, sp, a);
    }
  }

  lemma OutsideSlot(dead: iset<u64>, sp: u64, a: u64)
    requires SlotDead(dead, sp) && a !in dead
    ensures Wrap((a as int) - sp) >= 8
  {
    WrapBack(sp, a);
  }

  lemma WrapBack(sp: u64, a: u64)
    ensures Behind(sp, Wrap((a as int) - sp)) == a
  {
  }

  lemma PushedLink(m: Machine, v: u64)
    ensures Link(m.Push64(v)) == v
  {
    var m1 := m.Push64(v);
    var sp := m1.regs[RSP];
    forall k | 0 <= k < 8
      ensures m1.Bytes(sp, 8)[k] == LE64(v)[k]
    {
      WrapForth(sp, k);
    }
    assert m1.Bytes(sp, 8) == LE64(v);
    ReadLE64(v);
  }

  lemma WrapForth(sp: u64, k: nat)
    requires k < 8
    ensures Wrap((Wrap(sp + k) as int) - sp) == k
  {
  }

  /** ret */
  const RET: Insn := Insn([0xC3], 0xC3, 0, false, 0, false, 0)

  function Returned(m: Machine): State
  {
    State(Link(m), m.(regs := m.regs[RSP := Wrap((m.regs[RSP] as int) + 8)]))
  }

  /** What ret does, which the processor leaves open. */
  ghost predicate HasRet(cpu: Cpu)
  {
    forall m: Machine {:trigger cpu.plain(RET.bytes, m)} ::
          cpu.plain(RET.bytes, m) == Effect(Returned(m).m, Some(Returned(m).rip))
  }

  predicate NearCall(k: Kind) { k.CallRel32? || k.CallMem? || k.CallIndirect? }

  lemma NearCallPushes(cpu: Cpu, d: Insn, m: Machine, link: u64)
    requires WellFormed(d) && NearCall(KindOf(d))
    ensures Calls(d) && Told(cpu, d, m, link) == m.Push64(link)
  {
  }

  /** A callee that is a mere ret is one that returns, wherever the stack says. */
  lemma LeafReturns(cpu: Cpu, dead: iset<u64>, differs: bool, d: Insn, s: State, dst: u64, whole: Piece)
    requires HasRet(cpu) && WellFormed(d) && NearCall(KindOf(d)) && PieceAt(s.m, dst, whole) && Spared(dead, dst, whole)
    requires var to := Exec(cpu, d, s).rip;
             At(s.m, to, RET.bytes) && Spares(dead, to, RET.bytes)
    requires SlotDead(dead, Wrap((s.m.regs[RSP] as int) - 8))
    ensures Returns(cpu, dead, differs, differs, d, s, Returned(Exec(cpu, d, s).m), dst, whole)
  {
    hide PieceAt, HasRet, At, Spares, Spared, SlotDead, Exec, Told, Alike, Machine.Push64, Returned, KindOf, WellFormed,
         Calls, Wrap;
    var next, to := Wrap(s.rip + d.Length()), Exec(cpu, d, s).rip;
    NearCallPushes(cpu, d, s.m, next);
    CallTells(cpu, d, s);
    LeafBack(dead, s.m, next, dst, whole);
    var back := Returned(s.m.Push64(next));
    forall m: Machine, link: u64 | Alike(dead, differs, s.m, m) && PieceAt(m, dst, whole)
      ensures ComesBack(cpu, dead, differs, State(to, Told(cpu, d, m, link)), link, back)
    {
      NearCallPushes(cpu, d, m, link);
      LeafComesBack(cpu, dead, differs, s.m, m, next, link, to);
    }
  }

  lemma PushedSlot(m: Machine, v: u64)
    ensures m.Push64(v).regs[RSP] == Wrap((m.regs[RSP] as int) - 8)
  {
  }

  lemma LeafBack(dead: iset<u64>, m: Machine, next: u64, dst: u64, whole: Piece)
    requires PieceAt(m, dst, whole) && Spared(dead, dst, whole) && SlotDead(dead, Wrap((m.regs[RSP] as int) - 8))
    ensures Returned(m.Push64(next)).rip == next && PieceAt(Returned(m.Push64(next)).m, dst, whole)
  {
    hide PieceAt, Spared, SlotDead, Machine.Push64, Link;
    PushedSlot(m, next);
    PushedLink(m, next);
    PushAgrees(dead, m, next);
    StillPlaced(dead, m, m.Push64(next), dst, whole);
    SameMemory(m.Push64(next), Returned(m.Push64(next)).m, dst, whole);
  }

  lemma LeafComesBack(cpu: Cpu, dead: iset<u64>, differs: bool, m0: Machine, m: Machine, next: u64, link: u64, to: u64)
    requires HasRet(cpu) && At(m0, to, RET.bytes) && Spares(dead, to, RET.bytes) && Alike(dead, differs, m0, m)
    requires SlotDead(dead, Wrap((m0.regs[RSP] as int) - 8))
    ensures ComesBack(cpu, dead, differs, State(to, m.Push64(link)), link, Returned(m0.Push64(next)))
  {
    hide HasRet, At, Spares, SlotDead, Machine.Push64, Link, Wrap, AgreeOutside, Reaches;
    PushedSlot(m0, next);
    PushedSlot(m, link);
    PushesAlike(dead, differs, m0, m, next, link);
    PushAgrees(dead, m0, next);
    StillThere(dead, m0, m0.Push64(next), to, RET.bytes);
    MemAlike(dead, differs, m0.Push64(next), m.Push64(link));
    StillThere(dead, m0.Push64(next), m.Push64(link), to, RET.bytes);
    RetRuns(cpu, State(to, m.Push64(link)));
    PushedLink(m, link);
    assert Alike(dead, differs, Returned(m0.Push64(next)).m, Returned(m.Push64(link)).m);
  }

  lemma RetRuns(cpu: Cpu, t: State)
    requires HasRet(cpu) && At(t.m, t.rip, RET.bytes)
    ensures Reaches(cpu, t, Returned(t.m))
  {
    hide At, Link, Runs;
    assert WellFormed(RET) && KindOf(RET).Plain?;
    RunOne(cpu, t, RET);
  }

  /** sysret to 64-bit code */
  const SYSRET: Insn := Insn([0x48, 0x0F, 0x07], 0x07, 2, true, 0, false, 0)
  const R11 := 11

  /** What sysret does: it goes to the address in RCX, with the flags from R11. */
  ghost predicate HasSysret(cpu: Cpu, flags: u64 -> Flags)
  {
    forall m: Machine {:trigger cpu.plain(SYSRET.bytes, m)} ::
      cpu.plain(SYSRET.bytes, m) == Effect(m.(flags := flags(m.regs[R11])), Some(m.regs[RCX]))
  }

  /** The kernel is entered at the same address and in machines alike from machines alike. */
  ghost predicate EntersAlike(cpu: Cpu, dead: iset<u64>, differs: bool, m0: Machine)
  {
    forall m: Machine {:trigger cpu.system(m)} :: Alike(dead, differs, m0, m) ==>
      cpu.system(m).rip == cpu.system(m0).rip && Alike(dead, true, cpu.system(m0).m, cpu.system(m).m)
  }

  /** The machine behind a system call to a kernel that returns at once. */
  function Served(cpu: Cpu, flags: u64 -> Flags, m: Machine, link: u64): Machine
  {
    var e := cpu.system(m).m;
    e.(regs := e.regs[RCX := link], flags := flags(e.regs[R11]))
  }

  /** A system call is carried; and a kernel that is a mere sysret is one that returns, wherever RCX says. */
  lemma SystemReturns(cpu: Cpu, dead: iset<u64>, differs: bool, flags: u64 -> Flags, d: Insn, s: State, dst: u64,
                      whole: Piece)
    requires HasSysret(cpu, flags) && WellFormed(d) && KindOf(d).SysCall? && EntersAlike(cpu, dead, differs, s.m)
    requires PieceAt(cpu.system(s.m).m, dst, whole)
    requires At(cpu.system(s.m).m, cpu.system(s.m).rip, SYSRET.bytes)
             && Spares(dead, cpu.system(s.m).rip, SYSRET.bytes)
    ensures Calls(d) && Carried(cpu, dead, differs, d, s)
    ensures var next := Wrap(s.rip + d.Length());
            Returns(cpu, dead, differs, true, d, s, State(next, Served(cpu, flags, s.m, next)), dst, whole)
  {
    hide PieceAt, HasSysret, At, Spares, Wrap, WellFormed, AgreeOutside, Reaches;
    var next, to := Wrap(s.rip + d.Length()), cpu.system(s.m).rip;
    var back := State(next, Served(cpu, flags, s.m, next));
    SameMemory(cpu.system(s.m).m, back.m, dst, whole);
    forall m: Machine, link: u64 | Alike(dead, differs, s.m, m) && PieceAt(m, dst, whole)
      ensures ComesBack(cpu, dead, true, State(Exec(cpu, d, s).rip, Told(cpu, d, m, link)), link, back)
    {
      var e, e' := cpu.system(s.m).m, Told(cpu, d, m, link);
      StillThere(dead, e, e', to, SYSRET.bytes);
      SysretRuns(cpu, flags, State(to, e'));
      assert Alike(dead, true, back.m, e'.(flags := flags(e'.regs[R11])));
    }
  }

  lemma SysretRuns(cpu: Cpu, flags: u64 -> Flags, t: State)
    requires HasSysret(cpu, flags) && At(t.m, t.rip, SYSRET.bytes)
    ensures Reaches(cpu, t, State(t.m.regs[RCX], t.m.(flags := flags(t.m.regs[R11]))))
  {
    hide At, Runs;
    assert WellFormed(SYSRET) && KindOf(SYSRET).Plain?;
    RunOne(cpu, t, SYSRET);
  }
}
