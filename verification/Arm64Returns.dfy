/**
  Runs of a relocated A64 window that call and are returned to. A call leaves the image of its next
  word in X30, and whatever it calls may leave that address behind in memory that is dead when it
  returns, so that from then on the two runs agree but for these. The simulation carries that
  relation through any number of calls, to where the run leaves the window for good.
 */
module Arm64Returns {
  import opened Words
  import opened Arm64Codec
  import opened Arm64Isa
  import opened Arm64Relocation
  import opened Arm64Simulation

  /** Equal states but for the program counter, X17, the dead memory, and X30 if it may differ. */
  ghost predicate Alike(dead: iset<u64>, differs: bool, s: State, t: State)
  {
    && s.sp == t.sp && s.v == t.v && s.flags == t.flags && s.sys == t.sys
    && (forall r :: 0 <= r < 30 && r != TMP ==> s.x[r] == t.x[r])
    && (!differs ==> s.x[30] == t.x[30])
    && AgreeOutside(dead, s.mem, t.mem)
  }

  /** s with another link and other memory */
  function With(s: State, link: u64, mem: u64 -> u32): State { s.(x := s.x[30 := link], mem := mem) }

  ghost predicate Variant(dead: iset<u64>, differs: bool, s: State, link: u64, mem: u64 -> u32)
  {
    (!differs ==> link == s.x[30]) && AgreeOutside(dead, s.mem, mem)
  }

  /** Word w is preserved by relocation, and what it does in s depends on nothing that may differ. */
  ghost predicate Carried(plain: PlainSem, dead: iset<u64>, differs: bool, w: u32, s: State)
  {
    forall link: u64, mem: u64 -> u32 {:trigger With(s, link, mem)} :: Variant(dead, differs, s, link, mem) ==>
      var u := With(s, link, mem);
      && Preserved(w, u) && IsTaken(w, u) == IsTaken(w, s) && Exec(plain, w, u).pc == Exec(plain, w, s).pc
      && Alike(dead, true, Exec(plain, w, s), Exec(plain, w, u))
  }

  /** Executing w in s makes X30 the same again. */
  ghost predicate Settles(plain: PlainSem, dead: iset<u64>, differs: bool, w: u32, s: State)
  {
    forall link: u64, mem: u64 -> u32 {:trigger With(s, link, mem)} :: Variant(dead, differs, s, link, mem) ==>
      Exec(plain, w, With(s, link, mem)).x[30] == Exec(plain, w, s).x[30]
  }

  /**
    What is called in s, wherever it is told to return to, goes there, and does what it does when it is
    told to return to X30: the state it leaves then is back.
   */
  ghost predicate Returns(plain: PlainSem, dead: iset<u64>, s: State, back: State, dst: u64, code: seq<u32>)
  {
    && back.pc == s.x[30] && Loaded(back.mem, dst, code)
    && forall t: State {:trigger Alike(dead, true, s, t)} ::
         Alike(dead, true, s, t) && t.pc == s.pc && Loaded(t.mem, dst, code) ==>
         exists m: nat {:trigger Steps(plain, t, m)} ::
           Steps(plain, t, m).pc == t.x[30] && Alike(dead, true, back, Steps(plain, t, m))
  }

  /**
    The original run from word i through all calls, whose outcomes call gives, until another branch is taken
    or the window ends.
   */
  function Through(plain: PlainSem, call: State -> State, ws: seq<u32>, i: nat, s: State): State
    requires i <= |ws|
    decreases |ws| - i
  {
    if i == |ws| then s
    else
      var s1 := Exec(plain, ws[i], s);
      if Calls(Decode(ws[i])) then Through(plain, call, ws, i + 1, call(s1))
      else if IsTaken(ws[i], s) then s1
      else Through(plain, call, ws, i + 1, s1)
  }

  /** May X30 differ where that run ends? */
  ghost predicate DiffersAfter(plain: PlainSem, call: State -> State, dead: iset<u64>, differs: bool, ws: seq<u32>,
                               i: nat, s: State)
    requires i <= |ws|
    decreases |ws| - i
  {
    if i == |ws| then differs
    else
      var s1 := Exec(plain, ws[i], s);
      if Calls(Decode(ws[i])) then DiffersAfter(plain, call, dead, true, ws, i + 1, call(s1))
      else
        var differs1 := !Settles(plain, dead, differs, ws[i], s);
        if IsTaken(ws[i], s) then differs1 else DiffersAfter(plain, call, dead, differs1, ws, i + 1, s1)
  }

  /**
    What is asked of that run: every word it executes is carried, every call returns, and none overwrites the
    code at dst.
   */
  ghost predicate RunCarried(plain: PlainSem, call: State -> State, dead: iset<u64>, differs: bool, ws: seq<u32>,
                             i: nat, s: State, dst: u64, code: seq<u32>)
    requires i <= |ws|
    decreases |ws| - i
  {
    i < |ws| ==>
      var s1 := Exec(plain, ws[i], s);
      && Carried(plain, dead, differs, ws[i], s)
      && if Calls(Decode(ws[i])) then
           && Returns(plain, dead, s1, call(s1), dst, code)
           && RunCarried(plain, call, dead, true, ws, i + 1, call(s1), dst, code)
         else !IsTaken(ws[i], s) ==>
                && Loaded(s1.mem, dst, code)
                && RunCarried(plain, call, dead, !Settles(plain, dead, differs, ws[i], s), ws, i + 1, s1, dst, code)
  }

  /** No word of the code is dead. */
  ghost predicate Spared(dead: iset<u64>, dst: u64, code: seq<u32>)
  {
    forall k :: 0 <= k < |code| ==> Wrap(dst + 4 * k) !in dead
  }

  lemma StillLoaded(dead: iset<u64>, differs: bool, s: State, t: State, dst: u64, code: seq<u32>)
    requires Alike(dead, differs, s, t) && Spared(dead, dst, code) && Loaded(s.mem, dst, code)
    ensures Loaded(t.mem, dst, code)
  {
  }

  lemma WithIsSame(dead: iset<u64>, differs: bool, s: State, t: State)
    requires Alike(dead, differs, s, t)
    ensures Variant(dead, differs, s, t.x[30], t.mem) && Same(With(s, t.x[30], t.mem), t)
  {
  }

  lemma AlikeOn(dead: iset<u64>, s: State, u: State, t: State, differs: bool)
    requires Alike(dead, true, s, u) && SameButLink(u, t) && (!differs ==> s.x[30] == t.x[30])
    ensures Alike(dead, differs, s, t)
  {
  }

  /** One word, from states alike to states alike. */
  lemma StepAlike(plain: PlainSem, dead: iset<u64>, differs: bool, ws: seq<u32>, src: u64, dst: u64, i: nat, s: State,
                  t: State)
    requires i < |ws| && Installed(ws, src, dst, t.mem) && PlainAgrees(plain, ws[i])
    requires s.pc == src + 4 * i && t.pc == dst + RelocatedOffset(ws, src, i) && Alike(dead, differs, s, t)
    requires Carried(plain, dead, differs, ws[i], s)
    ensures exists m: nat {:trigger Steps(plain, t, m)} ::
              StepsAlike(plain, dead, differs, ws[i], s, Steps(plain, t, m),
                  Wrap(dst + RelocatedOffset(ws, src, i + 1)))
  {
    hide Loaded, RelocatedOffset, RelocatedCode, Steps, StepCount, Counterpart, Exec, IsTaken, Preserved, PlainAgrees,
         Alike, Same, SameButLink, Decode, Variant, Wrap, Settles;
    WithIsSame(dead, differs, s, t);
    var u := With(s, t.x[30], t.mem);
    StepInWindow(plain, ws, src, true, dst, i, u, t);
    var t1 := Steps(plain, t, StepCount(ws[i], u));
    FromCounterpart(plain, dead, differs, ws[i], s, t.x[30], t.mem, t1, Wrap(dst + RelocatedOffset(ws, src, i + 1)));
  }

  /** t1 is where the relocated run stands after w. */
  ghost predicate StepsAlike(plain: PlainSem, dead: iset<u64>, differs: bool, w: u32, s: State, t1: State, image: u64)
  {
    var s1 := Exec(plain, w, s);
    && t1.pc == (if IsTaken(w, s) then s1.pc else image)
    && Alike(dead, Calls(Decode(w)) || !Settles(plain, dead, differs, w, s), s1, t1)
    && (Calls(Decode(w)) ==> s1.x[30] == Wrap(s.pc + 4) && t1.x[30] == image)
  }

  lemma FromCounterpart(plain: PlainSem, dead: iset<u64>, differs: bool, w: u32, s: State, link: u64, mem: u64 -> u32,
                        t1: State, image: u64)
    requires Variant(dead, differs, s, link, mem) && Carried(plain, dead, differs, w, s)
    requires Counterpart(plain, w, With(s, link, mem), t1, image)
    ensures StepsAlike(plain, dead, differs, w, s, t1, image)
  {
    var u := With(s, link, mem);
    assert Calls(Decode(w)) ==> Exec(plain, w, s).x[30] == Wrap(s.pc + 4);
    hide Exec, IsTaken, Alike, SameButLink, Decode, Variant, Wrap, Preserved;
    AlikeOn(dead, Exec(plain, w, s), Exec(plain, w, u), t1, Calls(Decode(w)) || !Settles(plain, dead, differs, w, s));
  }

  /** The same state and address where both runs end, but for what may differ. */
  ghost predicate EndAlike(dead: iset<u64>, differs: bool, s': State, t': State)
  {
    t'.pc == s'.pc && Alike(dead, differs, s', t')
  }

  /** Relocation preserves meaning over runs through calls and their returns. */
  lemma {:induction false} RunsThroughCalls(plain: PlainSem, call: State -> State, dead: iset<u64>, differs: bool,
                                            ws: seq<u32>, src: u64, dst: u64, i: nat, s: State, t: State)
    requires i <= |ws| && Installed(ws, src, dst, t.mem) && AllAgree(plain, ws)
    requires s.pc == src + 4 * i && t.pc == dst + RelocatedOffset(ws, src, i) && Alike(dead, differs, s, t)
    requires var code := RelocatedCode(ws, src, true).value;
             Spared(dead, dst, code) && RunCarried(plain, call, dead, differs, ws, i, s, dst, code)
    ensures exists n: nat {:trigger Steps(plain, t, n)} ::
              EndAlike(dead, DiffersAfter(plain, call, dead, differs, ws, i, s), Through(plain, call, ws, i, s),
                  Steps(plain, t, n))
    decreases |ws| - i
  {
    hide Loaded, Steps, Exec, PlainAgrees, Decode, RelocatedOffset, RelocatedCode, Carried, Settles, Returns, Alike,
         IsTaken, Spared, StepsAlike, Wrap;
    var code := RelocatedCode(ws, src, true).value;
    if i == |ws| {
      WithIsSame(dead, differs, s, t);
      BranchBackRuns(plain, ws, src, dst, With(s, t.x[30], t.mem), t);
      SameIsAlike(dead, differs, s, t, Steps(plain, t, 2));
      assert EndAlike(dead, differs, s, Steps(plain, t, 2));
    } else {
      StepAlike(plain, dead, differs, ws, src, dst, i, s, t);
      var image := Wrap(dst + RelocatedOffset(ws, src, i + 1));
      var m: nat :| StepsAlike(plain, dead, differs, ws[i], s, Steps(plain, t, m), image);
      var s1, t1 := Exec(plain, ws[i], s), Steps(plain, t, m);
      OffsetFits(ws, src, dst, t.mem, i + 1);
      WrapSmall(dst + RelocatedOffset(ws, src, i + 1));
      if Calls(Decode(ws[i])) {
        CallKeepsCode(plain, dead, differs, ws[i], s, t, t1, image, dst, code);
        CallComesBack(plain, dead, differs, ws, src, dst, i, s, call(s1), t1, code);
        var k: nat :| Back(dead, call(s1), Steps(plain, t1, k), image);
        var t2 := Steps(plain, t1, k);
        StillLoaded(dead, true, call(s1), t2, dst, code);
        RunsThroughCalls(plain, call, dead, true, ws, src, dst, i + 1, call(s1), t2);
        var n: nat :| EndAlike(dead, DiffersAfter(plain, call, dead, true, ws, i + 1, call(s1)),
                               Through(plain, call, ws, i + 1, call(s1)), Steps(plain, t2, n));
        StepsCompose(plain, t1, k, n);
        StepsCompose(plain, t, m, k + n);
        assert EndAlike(dead, DiffersAfter(plain, call, dead, differs, ws, i, s), Through(plain, call, ws, i, s),
                        Steps(plain, t, m + (k + n)));
      } else {
        NextAlike(plain, dead, differs, ws, src, dst, i, s, t1);
        if IsTaken(ws[i], s) {
          assert EndAlike(dead, DiffersAfter(plain, call, dead, differs, ws, i, s), Through(plain, call, ws, i, s), t1);
        } else {
          var differs1 := !Settles(plain, dead, differs, ws[i], s);
          StillLoaded(dead, differs1, s1, t1, dst, code);
          RunsThroughCalls(plain, call, dead, differs1, ws, src, dst, i + 1, s1, t1);
          var n: nat :| EndAlike(dead, DiffersAfter(plain, call, dead, differs1, ws, i + 1, s1),
                                 Through(plain, call, ws, i + 1, s1), Steps(plain, t1, n));
          StepsCompose(plain, t, m, n);
          assert EndAlike(dead, DiffersAfter(plain, call, dead, differs, ws, i, s), Through(plain, call, ws, i, s),
                          Steps(plain, t, m + n));
        }
      }
    }
  }

  /** A call writes no memory. */
  lemma CallKeepsCode(plain: PlainSem, dead: iset<u64>, differs: bool, w: u32, s: State, t: State, t1: State,
                      image: u64, dst: u64, code: seq<u32>)
    requires Calls(Decode(w)) && Alike(dead, differs, s, t) && StepsAlike(plain, dead, differs, w, s, t1, image)
    requires Spared(dead, dst, code) && Loaded(t.mem, dst, code)
    ensures Loaded(t1.mem, dst, code)
  {
    hide Exec, Decode, IsTaken, Settles, Wrap;
    InterpretedKeepsMemory(plain, w, s);
  }

  lemma SameIsAlike(dead: iset<u64>, differs: bool, s: State, t: State, t1: State)
    requires Alike(dead, differs, s, t) && Same(With(s, t.x[30], t.mem), t1)
    ensures Alike(dead, differs, s, t1)
  {
  }

  lemma NextAlike(plain: PlainSem, dead: iset<u64>, differs: bool, ws: seq<u32>, src: u64, dst: u64, i: nat, s: State,
                  t1: State)
    requires i < |ws| && src + 4 * |ws| < TWO64 && s.pc == src + 4 * i && !Calls(Decode(ws[i]))
    requires StepsAlike(plain, dead, differs, ws[i], s, t1, Wrap(dst + RelocatedOffset(ws, src, i + 1)))
    ensures var s1 := Exec(plain, ws[i], s);
            && Alike(dead, !Settles(plain, dead, differs, ws[i], s), s1, t1)
            && (IsTaken(ws[i], s) ==> t1.pc == s1.pc)
            && (!IsTaken(ws[i], s) ==>
                 s1.pc == src + 4 * (i + 1) && t1.pc == Wrap(dst + RelocatedOffset(ws, src, i + 1)))
  {
    hide Exec, IsTaken, Alike, Settles, Decode, RelocatedOffset, Wrap;
    if !IsTaken(ws[i], s) {
      ExecFallsThrough(plain, ws[i], s);
      WrapSmall(s.pc + 4);
    }
  }

  ghost predicate Back(dead: iset<u64>, back: State, t2: State, image: u64)
  {
    t2.pc == image && Alike(dead, true, back, t2)
  }

  lemma CallComesBack(plain: PlainSem, dead: iset<u64>, differs: bool, ws: seq<u32>, src: u64, dst: u64, i: nat,
                      s: State, back: State, t1: State, code: seq<u32>)
    requires i < |ws| && src + 4 * |ws| < TWO64 && s.pc == src + 4 * i && Calls(Decode(ws[i]))
    requires StepsAlike(plain, dead, differs, ws[i], s, t1, Wrap(dst + RelocatedOffset(ws, src, i + 1)))
    requires Returns(plain, dead, Exec(plain, ws[i], s), back, dst, code) && Loaded(t1.mem, dst, code)
    ensures back.pc == src + 4 * (i + 1) && Loaded(back.mem, dst, code)
    ensures exists k: nat {:trigger Steps(plain, t1, k)} ::
              Back(dead, back, Steps(plain, t1, k), Wrap(dst + RelocatedOffset(ws, src, i + 1)))
  {
    hide Exec, Alike, Settles, Decode, RelocatedOffset, Wrap, Steps, Loaded;
    assert IsTaken(ws[i], s);
    WrapSmall(s.pc + 4);
    var k: nat :| Steps(plain, t1, k).pc == t1.x[30] && Alike(dead, true, back, Steps(plain, t1, k));
    assert Back(dead, back, Steps(plain, t1, k), Wrap(dst + RelocatedOffset(ws, src, i + 1)));
  }

  // ----- what is asked of the run, for interpreted words and for the simplest callee

  /** w reads neither X30, if that may differ, nor dead memory. */
  predicate ReadsApart(dead: iset<u64>, differs: bool, w: u32, s: State)
  {
    match Decode(w)
    case CompareBranch(_, _, rt, _) => differs ==> rt != 30
    case TestBranch(_, _, rt, _) => differs ==> rt != 30
    case LdrX(_, rn) => (differs ==> rn != 30) && s.X(rn) !in dead && Wrap(s.X(rn) + 4) !in dead
    case LdrLiteral(_, _, _, off) => Wrap(s.pc + off) !in dead && Wrap(Wrap(s.pc + off) + 4) !in dead
    case Br(rn) => differs ==> rn != 30
    case Blr(rn) => differs ==> rn != 30
    case Ret(rn) => differs ==> rn != 30
    case _ => true
  }

  lemma InterpretedCarried(plain: PlainSem, dead: iset<u64>, differs: bool, w: u32, s: State)
    requires Preserved(w, s) && !Decode(w).Plain? && ReadsApart(dead, differs, w, s)
    ensures Carried(plain, dead, differs, w, s)
  {
    hide Decode, Preserved, ReadsApart, Exec, IsTaken, Alike, Variant;
    forall link: u64, mem: u64 -> u32 | Variant(dead, differs, s, link, mem)
      ensures var u := With(s, link, mem);
              && Preserved(w, u) && IsTaken(w, u) == IsTaken(w, s) && Exec(plain, w, u).pc == Exec(plain, w, s).pc
              && Alike(dead, true, Exec(plain, w, s), Exec(plain, w, u))
    {
      VariantCarried(plain, dead, differs, w, s, link, mem);
    }
  }

  lemma VariantCarried(plain: PlainSem, dead: iset<u64>, differs: bool, w: u32, s: State, link: u64, mem: u64 -> u32)
    requires Preserved(w, s) && !Decode(w).Plain? && ReadsApart(dead, differs, w, s)
             && Variant(dead, differs, s, link, mem)
    ensures var u := With(s, link, mem);
            && Preserved(w, u) && IsTaken(w, u) == IsTaken(w, s) && Exec(plain, w, u).pc == Exec(plain, w, s).pc
            && Alike(dead, true, Exec(plain, w, s), Exec(plain, w, u))
  {
    hide Decode, SetLane, InLane, Wrap, State.SetX, CondHolds, Top8, Alike;
    var u := With(s, link, mem);
    VariantAlike(dead, differs, s, link, mem);
    match Decode(w)
    case Adr(rd, off) => SetAlike(dead, s, u, rd, Wrap(s.pc + off), Wrap(s.pc + off), Wrap(s.pc + 4));
    case Adrp(rd, off) => SetAlike(dead, s, u, rd, Wrap(TruncPage(s.pc) + off), Wrap(TruncPage(s.pc) + off),
        Wrap(s.pc + 4));
    case MovZ(rd, imm, hw) => SetAlike(dead, s, u, rd, InLane(imm, hw), InLane(imm, hw), Wrap(s.pc + 4));
    case MovK(rd, imm, hw) =>
          SetAlike(dead, s, u, rd, SetLane(s.X(rd), hw, imm), SetLane(u.X(rd), hw, imm), Wrap(s.pc + 4));
    case LdrX(rt, rn) => SetAlike(dead, s, u, rt, s.Load64(s.X(rn)), u.Load64(u.X(rn)), Wrap(s.pc + 4));
    case LdrLiteral(_, opc, rt, off) =>
      var a := Wrap(s.pc + off);
      var value := if opc == 0 then s.mem(a) else if opc == 1 then s.Load64(a) else SignExtend32(s.mem(a));
      SetAlike(dead, s, u, if opc == 3 then 31 else rt, value, value, Wrap(s.pc + 4));
      assert s.SetX(31, value) == s && u.SetX(31, value) == u by { SetZero(s, value); SetZero(u, value); }
    case _ => BranchCarried(plain, dead, differs, w, s, link, mem);
  }

  lemma VariantAlike(dead: iset<u64>, differs: bool, s: State, link: u64, mem: u64 -> u32)
    requires Variant(dead, differs, s, link, mem)
    ensures Alike(dead, true, s, With(s, link, mem))
  {
  }

  lemma BranchCarried(plain: PlainSem, dead: iset<u64>, differs: bool, w: u32, s: State, link: u64, mem: u64 -> u32)
    requires Preserved(w, s) && !Decode(w).Plain? && ReadsApart(dead, differs, w, s)
             && Variant(dead, differs, s, link, mem)
    requires var d := Decode(w); !(d.Adr? || d.Adrp? || d.MovZ? || d.MovK? || d.LdrX? || d.LdrLiteral?)
    ensures var u := With(s, link, mem);
            && Preserved(w, u) && IsTaken(w, u) == IsTaken(w, s) && Exec(plain, w, u).pc == Exec(plain, w, s).pc
            && Alike(dead, true, Exec(plain, w, s), Exec(plain, w, u))
  {
    hide Decode, Wrap, CondHolds, Top8;
  }

  lemma SetZero(s: State, value: u64)
    ensures s.SetX(31, value) == s
  {
  }

  lemma SetAlike(dead: iset<u64>, s: State, u: State, rd: u5, value: u64, value': u64, pc: u64)
    requires Alike(dead, true, s, u) && (value == value' || rd == 30)
    ensures Alike(dead, true, s.SetX(rd, value).(pc := pc), u.SetX(rd, value').(pc := pc))
  {
  }

  /** ret */
  const RET: u32 := 0xD65F_03C0

  lemma RetRuns(plain: PlainSem, t: State)
    requires t.mem(t.pc) == RET
    ensures Steps(plain, t, 1) == t.(pc := t.x[30])
  {
    assert Decode(RET) == Ret(30);
    hide Decode;
    assert Steps(plain, Exec(plain, t.mem(t.pc), t), 0) == t.(pc := t.x[30]);
  }

  /** A callee that is a mere ret is one that returns, wherever it is told to return to. */
  lemma LeafReturns(plain: PlainSem, dead: iset<u64>, s: State, dst: u64, code: seq<u32>)
    requires s.mem(s.pc) == RET && s.pc !in dead && Loaded(s.mem, dst, code)
    ensures Returns(plain, dead, s, s.(pc := s.x[30]), dst, code)
  {
    hide Loaded, Steps;
    forall t: State | Alike(dead, true, s, t) && t.pc == s.pc && Loaded(t.mem, dst, code)
      ensures exists m: nat {:trigger Steps(plain, t, m)} ::
                Steps(plain, t, m).pc == t.x[30] && Alike(dead, true, s.(pc := s.x[30]), Steps(plain, t, m))
    {
      RetRuns(plain, t);
      assert Steps(plain, t, 1).pc == t.x[30] && Alike(dead, true, s.(pc := s.x[30]), Steps(plain, t, 1));
    }
  }
}
