/**
  The ARM64 frame-pointer unwinder: from record to record up the signal stack, over to the thread
  stack, and up that one.

  The stacks, the sigreturn address and memory are parameters; XU_CONFIG_FP_CHECK_SYSCALL is off, as
  it is by default.
 */
module Unwind {
  import opened Words

  /** A stack, from low up to high. */
  datatype Stack = Stack(low: u64, high: u64)

  /** mem(a): the word at address a. */
  datatype Env = Env(mem: u64 -> u64, thread: Stack, signal: Stack, sigreturn: u64)

  /** A record the walk stands at, and whether it is still on the signal stack. */
  datatype Visit = Visit(fp: u64, onSignal: bool)

  const RECORD := 16

  function Caller(env: Env, fp: u64): u64 { env.mem(fp) }

  function StackOf(env: Env, onSignal: bool): Stack { if onSignal then env.signal else env.thread }

  predicate Inside(s: Stack, a: u64) { s.low <= a < s.high }

  /**
    The frame of a record: its link, less 4 except for the return into sigreturn, without the pointer
    authentication bits.
   */
  function FrameOf(env: Env, v: Visit): u64
  {
    var lr: int := env.mem(Wrap(v.fp + 8));
    (if v.onSignal && lr == env.sigreturn then lr else if lr < 4 then 0 else lr - 4) % 0x80_0000_0000
  }

  /** The next record, if the walk goes on. */
  function Next(env: Env, v: Visit): Option<Visit>
  {
    var prev := Caller(env, v.fp);
    if prev % 16 != 0 then None
    else
      var leaves := v.onSignal && !Inside(env.signal, prev);
      if !leaves && prev < Wrap(v.fp + RECORD) then None
      else
        var onSignal := v.onSignal && !leaves;
        if !Inside(StackOf(env, onSignal), prev) then None else Some(Visit(prev, onSignal))
  }

  /** The first fuel records of the walk from v. */
  function Walk(env: Env, v: Visit, fuel: nat): seq<Visit>
    decreases fuel
  {
    if fuel == 0 then []
    else
      [v] + match Next(env, v)
            case None => []
            case Some(w) => Walk(env, w, fuel - 1)
  }

  function Frames(env: Env, visits: seq<Visit>): (r: seq<u64>)
    ensures |r| == |visits|
  {
    seq(|visits|, i requires 0 <= i < |visits| => FrameOf(env, visits[i]))
  }

  // ----- properties of the walk

  /** What holds between records that follow each other. */
  lemma NextRises(env: Env, v: Visit)
    requires Next(env, v).Some?
    ensures var w := Next(env, v).value;
            && w.fp == Caller(env, v.fp) && w.fp % 16 == 0 && Inside(StackOf(env, w.onSignal), w.fp)
            && (w.onSignal ==> v.onSignal)
            && (w.onSignal == v.onSignal && v.fp + RECORD < TWO64 ==> w.fp >= v.fp + RECORD)
  {
  }

  /** Every record but the first is inside the stack the walk is on, wholly so if the top of the stack is aligned. */
  lemma {:induction false} RecordsInside(env: Env, v: Visit, fuel: nat)
    ensures forall i :: 0 < i < |Walk(env, v, fuel)| ==>
              var w := Walk(env, v, fuel)[i];
              var s := StackOf(env, w.onSignal);
              && w.fp % 16 == 0 && s.low <= w.fp < s.high
              && (s.high % 16 == 0 ==> w.fp + RECORD <= s.high)
    decreases fuel
  {
    if fuel > 0 && Next(env, v).Some? {
      var w := Next(env, v).value;
      RecordsInside(env, w, fuel - 1);
      AlignedBelow(w.fp, StackOf(env, w.onSignal).high);
      if fuel > 1 {
        assert Walk(env, w, fuel - 1)[0] == w;
      }
    }
  }

  lemma AlignedBelow(a: nat, b: nat)
    requires a % 16 == 0
    ensures b % 16 == 0 && a < b ==> a + 16 <= b
  {
  }

  /** A walk changes stacks at most once: whatever is behind a record off the signal stack is off it. */
  lemma {:induction false} SwitchesOnce(env: Env, v: Visit, fuel: nat)
    ensures forall i, j :: 0 <= i < j < |Walk(env, v, fuel)| && !Walk(env, v, fuel)[i].onSignal ==>
              !Walk(env, v, fuel)[j].onSignal
    decreases fuel
  {
    if fuel > 0 && Next(env, v).Some? {
      SwitchesOnce(env, Next(env, v).value, fuel - 1);
      if fuel > 1 {
        assert Walk(env, Next(env, v).value, fuel - 1)[0] == Next(env, v).value;
      }
    }
  }

  /** The last address a record could start at. */
  const TOP: u64 := 0xFFFF_FFFF_FFFF_FFF0

  /** Neither stack reaches to it. */
  predicate BelowTop(env: Env) { !Inside(env.thread, TOP) && !Inside(env.signal, TOP) }

  lemma InsideBelowTop(env: Env, onSignal: bool, a: u64)
    requires BelowTop(env) && Inside(StackOf(env, onSignal), a) && a % 16 == 0
    ensures a + RECORD < TWO64
  {
  }

  /**
    On each stack frame pointers rise by at least a record, from the second one on; from the first one unless
    it is at the top.
   */
  lemma {:induction false} PointersRise(env: Env, v: Visit, fuel: nat)
    requires BelowTop(env)
    ensures forall i :: 0 <= i < |Walk(env, v, fuel)| - 1 && (i > 0 || v.fp + RECORD < TWO64)
                        && Walk(env, v, fuel)[i].onSignal == Walk(env, v, fuel)[i + 1].onSignal ==>
              Walk(env, v, fuel)[i + 1].fp >= Walk(env, v, fuel)[i].fp + RECORD
    decreases fuel
  {
    hide Next, BelowTop, StackOf, Inside;
    if fuel > 0 && Next(env, v).Some? {
      NextRises(env, v);
      var w := Next(env, v).value;
      InsideBelowTop(env, w.onSignal, w.fp);
      PointersRise(env, w, fuel - 1);
      if fuel > 1 {
        assert Walk(env, w, fuel - 1)[0] == w;
      }
    }
  }

  /** How many records fit in a stack. */
  function Records(s: Stack): nat { if s.low < s.high then (s.high - s.low + 15) / 16 else 0 }

  /** And how many above address a. */
  function RecordsAbove(s: Stack, a: u64): nat { if Inside(s, a) then (s.high - a - 1) / 16 else Records(s) }

  lemma RecordUses(s: Stack, a: u64, b: u64)
    requires Inside(s, b)
    ensures !Inside(s, a) || b >= a + RECORD ==> RecordsAbove(s, b) + 1 <= RecordsAbove(s, a)
    ensures RecordsAbove(s, b) + 1 <= Records(s) && RecordsAbove(s, a) <= Records(s)
  {
  }

  /** From a record that is not at the top, a walk has no more records than the stacks have room for. */
  lemma {:induction false} WalkBounded(env: Env, v: Visit, fuel: nat)
    requires BelowTop(env) && v.fp + RECORD < TWO64
    ensures |Walk(env, v, fuel)| <= 1 + RecordsAbove(StackOf(env, v.onSignal), v.fp) + if v.onSignal
            then Records(env.thread) else 0
    decreases fuel
  {
    hide Next, RecordsAbove, Records, BelowTop;
    if fuel > 0 && Next(env, v).Some? {
      NextRises(env, v);
      var w := Next(env, v).value;
      InsideBelowTop(env, w.onSignal, w.fp);
      RecordUses(StackOf(env, w.onSignal), v.fp, w.fp);
      WalkBounded(env, w, fuel - 1);
    }
  }

  /** From any record at all: the first one, and as many as the stacks can hold. */
  lemma WalkEnds(env: Env, v: Visit, fuel: nat)
    requires BelowTop(env)
    ensures |Walk(env, v, fuel)| <= 1 + Records(StackOf(env, v.onSignal)) + if v.onSignal then Records(env.thread)
            else 0
  {
    hide Next, RecordsAbove, Records, BelowTop;
    if fuel > 0 && Next(env, v).Some? {
      NextRises(env, v);
      var w := Next(env, v).value;
      InsideBelowTop(env, w.onSignal, w.fp);
      RecordUses(StackOf(env, w.onSignal), v.fp, w.fp);
      WalkBounded(env, w, fuel - 1);
    }
  }

  /** The walk from v stops by itself, whatever the capacity. */
  ghost predicate Stops(env: Env, v: Visit)
  {
    exists n: nat :: Shorter(env, v, n)
  }

  ghost predicate Shorter(env: Env, v: Visit, n: nat)
  {
    forall fuel: nat :: |Walk(env, v, fuel)| <= n
  }

  /** Whatever is in memory, and wherever it starts. */
  ghost predicate AlwaysStops(thread: Stack, signal: Stack, sigreturn: u64)
  {
    forall mem: u64 -> u64, v: Visit :: Stops(Env(mem, thread, signal, sigreturn), v)
  }

  /** A record that points at itself, at the top of a stack that reaches there, is met again and again. */
  lemma {:induction false} CycleAtTheTop(env: Env, onSignal: bool, fuel: nat)
    requires env.mem(TOP) == TOP && Inside(StackOf(env, onSignal), TOP)
    ensures Next(env, Visit(TOP, onSignal)) == Some(Visit(TOP, onSignal))
    ensures |Walk(env, Visit(TOP, onSignal), fuel)| == fuel
  {
    if fuel > 0 {
      CycleAtTheTop(env, onSignal, fuel - 1);
    }
  }

  lemma CycleNeverStops(env: Env, onSignal: bool)
    requires env.mem(TOP) == TOP && Inside(StackOf(env, onSignal), TOP)
    ensures !Stops(env, Visit(TOP, onSignal))
  {
    hide Walk, Next;
    var v := Visit(TOP, onSignal);
    forall n: nat
      ensures !Shorter(env, v, n)
    {
      CycleAtTheTop(env, onSignal, n + 1);
    }
  }

  /**
    The unwinder terminates whatever the capacity, for every memory and every first record, exactly
    if neither stack contains the address 2^64 - 16: there the check for rising pointers wraps around.
   */
  lemma WalkEndsExactly(thread: Stack, signal: Stack, sigreturn: u64)
    ensures AlwaysStops(thread, signal, sigreturn) <==> !Inside(thread, TOP) && !Inside(signal, TOP)
  {
    hide Walk, Inside;
    if !Inside(thread, TOP) && !Inside(signal, TOP) {
      forall mem: u64 -> u64, v: Visit
        ensures Stops(Env(mem, thread, signal, sigreturn), v)
      {
        var env := Env(mem, thread, signal, sigreturn);
        var n := 1 + Records(StackOf(env, v.onSignal)) + if v.onSignal then Records(thread) else 0;
        forall fuel: nat
          ensures |Walk(env, v, fuel)| <= n
        {
          WalkEnds(env, v, fuel);
        }
        assert Shorter(env, v, n);
      }
    } else {
      var env := Env((a: u64) => TOP, thread, signal, sigreturn);
      CycleNeverStops(env, Inside(signal, TOP));
    }
  }

  /**
    Record w is reached from record v: its address is the first word of v, aligned, and inside the stack
    the walk is then on; it is at least 16 bytes further up, modulo 2^64, unless the walk leaves the
    signal stack with it.
   */
  predicate Follows(env: Env, v: Visit, w: Visit)
  {
    && w.fp == env.mem(v.fp) && w.fp % 16 == 0
    && var inSignal, inThread := env.signal.low <= w.fp < env.signal.high, env.thread.low <= w.fp < env.thread.high;
       if v.onSignal && !inSignal then !w.onSignal && inThread
       else w.onSignal == v.onSignal && w.fp >= (v.fp + 16) % TWO64 && if w.onSignal then inSignal else inThread
  }

  lemma NextFollows(env: Env, v: Visit)
    ensures forall w :: Next(env, v) == Some(w) <==> Follows(env, v, w)
  {
  }

  ghost predicate Ends(env: Env, v: Visit) { forall w: Visit :: !Follows(env, v, w) }

  /** The walk goes from record to record, and as far as there is room and a record that follows. */
  ghost predicate Walked(env: Env, visits: seq<Visit>, v: Visit, room: nat)
  {
    && |visits| <= room && (room > 0 ==> visits != [] && visits[0] == v)
    && (forall i :: 0 <= i < |visits| - 1 ==> Follows(env, visits[i], visits[i + 1]))
    && (0 < |visits| < room ==> Ends(env, visits[|visits| - 1]))
  }

  lemma {:induction false} WalkIsWalked(env: Env, v: Visit, room: nat)
    ensures Walked(env, Walk(env, v, room), v, room)
    decreases room
  {
    hide Next, Follows;
    if room > 0 {
      NextFollows(env, v);
      match Next(env, v)
      case None =>
      case Some(w) =>
        WalkIsWalked(env, w, room - 1);
        if room == 1 {
          assert Walk(env, w, 0) == [];
        }
    }
  }

  lemma NoRoom(env: Env, v: Visit)
    ensures Walked(env, [], v, 0)
  {
  }

  // ----- the program

  /** The program counter and frame pointer of a signal context. */
  datatype Context = Context(pc: u64, fp: u64)

  /** xu_fp_append_frame */
  method AppendFrame(frames: array<u64>, cap: nat, size: nat, addr: u64) returns (more: bool, size': nat)
    requires cap <= frames.Length
    modifies frames
    ensures size' == (if size < cap then size + 1 else size) && (more <==> size + 1 < cap)
    ensures size < cap ==> frames[..] == old(frames[..])[size := addr % 0x80_0000_0000]
    ensures size >= cap ==> frames[..] == old(frames[..])
  {
    if size >= cap {
      return false, size;
    }
    frames[size] := addr % 0x80_0000_0000;
    return size + 1 < cap, size + 1;
  }

  /** The frames fs put at index start. */
  function Written(frames: seq<u64>, start: nat, fs: seq<u64>): (r: seq<u64>)
    requires start + |fs| <= |frames|
  {
    frames[..start] + fs + frames[start + |fs|..]
  }

  lemma WriteNone(frames: seq<u64>, start: nat)
    requires start <= |frames|
    ensures Written(frames, start, []) == frames
  {
  }

  lemma WriteOne(frames: seq<u64>, start: nat, fs: seq<u64>, x: u64)
    requires start + |fs| < |frames|
    ensures |Written(frames, start, fs)| == |frames|
    ensures Written(frames, start, fs)[start + |fs| := x] == Written(frames, start, fs + [x])
  {
  }

  lemma NoFrames(env: Env)
    ensures Frames(env, []) == []
  {
  }

  lemma FrameAppended(env: Env, seen: seq<Visit>, v: Visit)
    ensures Frames(env, seen + [v]) == Frames(env, seen) + [FrameOf(env, v)]
  {
  }

  lemma WalkFrom(env: Env, v: Visit, fuel: nat)
    requires fuel > 0
    ensures Walk(env, v, fuel) == [v] + if Next(env, v).None? then [] else Walk(env, Next(env, v).value, fuel - 1)
    ensures Walk(env, v, 1) == [v]
    ensures Caller(env, v.fp) % 16 != 0 ==> Next(env, v).None?
  {
    hide Next;
    assert Next(env, v).Some? ==> Walk(env, Next(env, v).value, 0) == [];
    NextOfUnaligned(env, v);
  }

  lemma NextOfUnaligned(env: Env, v: Visit)
    ensures Caller(env, v.fp) % 16 != 0 ==> Next(env, v).None?
  {
  }

  lemma FrameIs(env: Env, v: Visit)
    ensures var lr := env.mem(Wrap(v.fp + 8));
            FrameOf(env, v)
            == (if v.onSignal && lr == env.sigreturn then lr else if lr < 4 then 0 else lr - 4) % 0x80_0000_0000
  {
  }

  /** The checks at the end of a turn, in the order in which they are made. */
  lemma NextIs(env: Env, v: Visit)
    requires Caller(env, v.fp) % 16 == 0
    ensures var prev := Caller(env, v.fp);
            var leaves := v.onSignal && (prev < env.signal.low || env.signal.high <= prev);
            var stack := if v.onSignal && !leaves then env.signal else env.thread;
            Next(env, v) == if !leaves && prev < Wrap(v.fp + RECORD) then None
                            else if prev < stack.low || stack.high <= prev then None
                            else Some(Visit(prev, v.onSignal && !leaves))
  {
  }

  /** The loop, with size frames written before it. */
  method WalkStack(env: Env, frames: array<u64>, cap: nat, start: nat, fp: u64, onSignal: bool) returns (size: nat)
    requires start < cap <= frames.Length
    modifies frames
    ensures var visits := Walk(env, Visit(fp, onSignal), cap - start);
            && size == start + |visits| <= cap
            && frames[..] == Written(old(frames[..]), start, Frames(env, visits))
  {
    hide Walk, Frames, Next, FrameOf, Written;
    size := start;
    var curFp: u64, unwindOnSignalStack := fp, onSignal;
    var curStack := if onSignal then env.signal else env.thread;
    ghost var seen: seq<Visit> := [];
    ghost var all := Walk(env, Visit(fp, onSignal), cap - start);
    NoFrames(env);
    WriteNone(old(frames[..]), start);
    while true
      invariant start <= size < cap && size == start + |seen|
      invariant curStack == StackOf(env, unwindOnSignalStack)
      invariant all == seen + Walk(env, Visit(curFp, unwindOnSignalStack), cap - size)
      invariant frames[..] == Written(old(frames[..]), start, Frames(env, seen))
      decreases cap - size
    {
      ghost var v := Visit(curFp, unwindOnSignalStack);
      WriteOne(old(frames[..]), start, Frames(env, seen), FrameOf(env, v));
      FrameAppended(env, seen, v);
      WalkFrom(env, v, cap - size);
      FrameIs(env, v);
      var prevFp: u64, more;
      var lr := env.mem(Wrap(curFp + 8));
      if unwindOnSignalStack && lr == env.sigreturn {
        more, size := AppendFrame(frames, cap, size, lr);
        seen := seen + [v];
        if !more {
          return;
        }
        prevFp := env.mem(curFp);
        if prevFp % 16 != 0 {
          assert all == seen;
          break;
        }
      } else {
        more, size := AppendFrame(frames, cap, size, if lr < 4 then 0 else lr - 4);
        seen := seen + [v];
        if !more {
          return;
        }
        prevFp := env.mem(curFp);
        if prevFp % 16 != 0 {
          assert all == seen;
          break;
        }
      }
      NextIs(env, v);
      if unwindOnSignalStack && (prevFp < env.signal.low || env.signal.high <= prevFp) {
        unwindOnSignalStack := false;
        curStack := env.thread;
      } else if prevFp < Wrap(curFp + RECORD) {
        assert all == seen;
        break;
      }
      if prevFp < curStack.low || curStack.high <= prevFp {
        assert all == seen;
        break;
      }
      curFp := prevFp;
    }
  }

  /**
    xu_fp_unwind: at most frames_cap frames are written, and nothing behind them. First comes the program
    counter of the context, if there is one; then, for the records of the walk in order, their links less 4,
    or 0 for one below 4, or unchanged for the return into sigreturn from a record on the signal stack; of
    all of them the low 39 bits.
   */
  method XuFpUnwind(env: Env, frames: array<u64>, cap: nat, context: Option<Context>, currentFp: u64, onSignal: bool)
    returns (size: nat, ghost visits: seq<Visit>)
    requires cap <= frames.Length
    modifies frames
    ensures size == Min(cap, if context.Some? then 1 else 0) + |visits| <= cap
    ensures frames[size..] == old(frames[size..])
    ensures context.Some? && cap > 0 ==> frames[0] == context.value.pc % 0x80_0000_0000
    ensures forall i :: 0 <= i < |visits| ==>
              var lr := env.mem((visits[i].fp + 8) % TWO64);
              frames[size - |visits| + i]
              == (if visits[i].onSignal && lr == env.sigreturn then lr else if lr < 4 then 0 else lr - 4)
                 % 0x80_0000_0000
    ensures var fp := if context.Some? then context.value.fp else currentFp;
            Walked(env, visits, Visit(fp, onSignal), cap - (size - |visits|))
  {
    hide Next, FrameOf, Walk, Frames, Written, Walked;
    size, visits := 0, [];
    NoRoom(env, Visit(if context.Some? then context.value.fp else currentFp, onSignal));
    if cap == 0 {
      return;
    }
    var curFp := currentFp;
    var more;
    if context.Some? {
      curFp := context.value.fp;
      more, size := AppendFrame(frames, cap, size, context.value.pc);
      if !more {
        return;
      }
    }
    ghost var start, c := size, frames[..];
    visits := Walk(env, Visit(curFp, onSignal), cap - start);
    WalkIsWalked(env, Visit(curFp, onSignal), cap - start);
    size := WalkStack(env, frames, cap, size, curFp, onSignal);
    FramesWritten(env, c, start, visits);
  }

  lemma FramesWritten(env: Env, c: seq<u64>, start: nat, visits: seq<Visit>)
    requires start + |visits| <= |c|
    ensures var r := Written(c, start, Frames(env, visits));
            && |r| == |c| && r[..start] == c[..start] && r[start + |visits|..] == c[start + |visits|..]
            && forall i :: 0 <= i < |visits| ==>
                 var lr := env.mem((visits[i].fp + 8) % TWO64);
                 r[start + i]
                 == (if visits[i].onSignal && lr == env.sigreturn then lr else if lr < 4 then 0 else lr - 4)
                    % 0x80_0000_0000
  {
  }
}
