/**
  The relocator and the allocators together. One attempt of the x86-64 relocator asks for a block for
  its code and for a near block for every instruction with a RIP-relative operand; if all are granted,
  what it writes to them installs the relocation, whatever requests came before.
 */
module X64Placement {
  import opened Words
  import opened X64Isa
  import opened X64Relocation
  import A = Allocator
  import X64Detours
  import X64Installation
  import X64Relocator
  import X64Simulation

  /** How many of the first n instructions use a detour. */
  function DetourCount(ds: seq<Insn>, n: nat): (c: nat)
    requires n <= |ds|
    ensures c <= n
  {
    if n == 0 then 0 else DetourCount(ds, n - 1) + if UsesDetour(ds[n - 1]) then 1 else 0
  }

  /** The near request for the detour of d at ip, and how the process and the system look then. */
  function DetourRequest(d: Insn, ip: u64, answer: (seq<A.Range>, bool)): A.Op
    requires d.dispOffset + 4 <= |d.bytes|
  {
    A.Near(DetourLength(d), MemTarget(d, ip), X64Detours.NEAR_RANGE, answer.0, answer.1)
  }

  function IpOf(ds: seq<Insn>, src: u64, i: nat): u64
    requires i <= |ds|
  {
    Wrap(src + OrigOffset(ds, i))
  }

  /** The near requests for the first n instructions. */
  function DetourRequests(ds: seq<Insn>, src: u64, answers: nat -> (seq<A.Range>, bool), n: nat): (ops: seq<A.Op>)
    requires n <= |ds| && AllReadable(ds)
    ensures |ops| == DetourCount(ds, n)
  {
    if n == 0 then []
    else
      var d := ds[n - 1];
      assert d in ds;
      DetourRequests(ds, src, answers, n - 1)
      + if UsesDetour(d) then [DetourRequest(d, IpOf(ds, src, n - 1), answers(n - 1))] else []
  }

  lemma {:induction false} RequestAt(ds: seq<Insn>, src: u64, answers: nat -> (seq<A.Range>, bool), i: nat, n: nat)
    requires i < n <= |ds| && AllReadable(ds) && UsesDetour(ds[i])
    ensures ds[i].dispOffset + 4 <= |ds[i].bytes| && DetourCount(ds, i) < DetourCount(ds, n)
    ensures DetourRequests(ds, src, answers, n)[DetourCount(ds, i)]
            == DetourRequest(ds[i], IpOf(ds, src, i), answers(i))
    decreases n
  {
    hide DetourRequest, IpOf;
    assert ds[i] in ds;
    if i < n - 1 {
      RequestAt(ds, src, answers, i, n - 1);
    }
  }

  /** What one attempt asks for: its block, and its detours. */
  function Attempt(ds: seq<Insn>, src: u64, os: nat, answers: nat -> (seq<A.Range>, bool)): seq<A.Op>
    requires AllReadable(ds)
  {
    [A.Exec(X64Relocator.Capacity(X64Relocator.SuccessfulAttempt(TotalLength(ds, true))), os)]
    + DetourRequests(ds, src, answers, |ds|)
  }

  /** The attempt that succeeds asks for enough. */
  lemma CapacityEnough(length: nat)
    ensures X64Relocator.Capacity(X64Relocator.SuccessfulAttempt(length)) >= length
  {
  }

  /** detours[i] is the block of the request for instruction i. */
  ghost predicate DetoursGranted(ds: seq<Insn>, detours: seq<u64>, results: seq<A.ExecResult>)
    requires |detours| == |ds|
  {
    && |results| == 1 + DetourCount(ds, |ds|)
    && (forall j :: 0 <= j < |results| ==> results[j].block.Some?)
    && forall i :: 0 <= i < |ds| && UsesDetour(ds[i]) ==> GrantedAt(ds, detours, results, i)
  }

  ghost predicate GrantedAt(ds: seq<Insn>, detours: seq<u64>, results: seq<A.ExecResult>, i: nat)
    requires i < |ds| == |detours|
  {
    var j := 1 + DetourCount(ds, i);
    j < |results| && results[j].block.Some? && results[j].block.value.addr == detours[i]
  }

  /** The operands are at least the search range away from both ends of the address space. */
  ghost predicate OperandsInside(ds: seq<Insn>, src: u64)
    requires AllReadable(ds)
  {
    forall i :: 0 <= i < |ds| && UsesDetour(ds[i]) ==> OperandInside(ds, src, i)
  }

  ghost predicate OperandInside(ds: seq<Insn>, src: u64, i: nat)
    requires i < |ds| && AllReadable(ds) && UsesDetour(ds[i])
  {
    assert ds[i] in ds;
    var target := MemTarget(ds[i], IpOf(ds, src, i));
    X64Detours.NEAR_RANGE <= target && target + X64Detours.NEAR_RANGE < TWO64
  }

  // ----- the blocks are apart

  lemma {:induction false} AllBlocks(results: seq<A.ExecResult>)
    requires forall j :: 0 <= j < |results| ==> results[j].block.Some?
    ensures |A.Blocks(results)| == |results|
    ensures forall j :: 0 <= j < |results| ==> A.Blocks(results)[j] == results[j].block.value
  {
    if results != [] {
      AllBlocks(results[1..]);
    }
  }

  lemma HandedInside(st: A.State, i: nat)
    requires A.Inv(st) && i < |st.handed|
    ensures st.handed[i].End() < TWO64
  {
    assert A.Housed(st.handed[i], st.arenas) by { assert st.handed[i] in st.handed; }
    var j :| 0 <= j < |st.arenas| && st.arenas[j].addr <= st.handed[i].addr
        && st.handed[i].End() <= st.arenas[j].cursor;
    assert A.ArenaOk(st.arenas[j]) by { assert st.arenas[j] in st.arenas; }
  }

  /** If none is the null address, the blocks of a run are inside the address space and pairwise apart. */
  lemma BlocksApart(st: A.State, ops: seq<A.Op>, page: nat, results: seq<A.ExecResult>)
    requires A.Inv(st) && page > 0 && page % 4 == 0 && A.Run(st, ops, page, results)
    requires forall j :: 0 <= j < |results| ==> results[j].block.Some? && results[j].block.value.addr != 0
    ensures |results| == |ops|
    ensures forall j :: 0 <= j < |results| ==> results[j].block.value.End() < TWO64
    ensures forall i, j :: 0 <= i < j < |results| ==> A.Apart(results[i].block.value, results[j].block.value)
  {
    hide A.Inv, A.Run, A.OpRefused, A.Step, A.CursorsOk, A.Blocks;
    A.OneResultEach(st, ops, page, results);
    if results != [] {
      var n := |results|;
      forall j | 0 <= j < n
        ensures !A.OpRefused(A.Before(st, results, j), ops[j])
      {
        A.CursorsInRun(st, ops, page, results, j);
        if A.OpRefused(A.Before(st, results, j), ops[j]) {
          A.NullFromRefused(A.Before(st, results, j), ops[j], page);
        }
      }
      A.RunsKeepInvExactly(st, ops, page, results, n - 1);
      assert results[..n - 1 + 1] == results;
      AllBlocks(results);
      var end, k := results[n - 1].st, |st.handed|;
      HandedApart(end);
      forall j | 0 <= j < n
        ensures results[j].block.value == end.handed[k + j] && results[j].block.value.End() < TWO64
      {
        HandedInside(end, k + j);
      }
    }
  }

  lemma HandedApart(st: A.State)
    requires A.Inv(st)
    ensures forall i, j :: 0 <= i < j < |st.handed| ==> A.Apart(st.handed[i], st.handed[j])
  {
  }

  // ----- the patches are for the detours, in order

  lemma {:induction false} PatchAt(ds: seq<Insn>, src: u64, dst: u64, detours: seq<u64>, n: nat)
    requires n <= |ds| == |detours| && X64Simulation.AllInScope(ds) && RelocateInsns(ds, src, dst, detours, n).Some?
    ensures var patches := RelocateInsns(ds, src, dst, detours, n).value.patches;
            && |patches| == DetourCount(ds, n)
            && forall i :: 0 <= i < n && UsesDetour(ds[i]) ==>
                 DetourCount(ds, i) < DetourCount(ds, n) && PatchFor(ds, detours, patches[DetourCount(ds, i)], i)
    decreases n
  {
    hide RelocateInsn, WellFormed, InScope, Readable;
    if n > 0 {
      PatchAt(ds, src, dst, detours, n - 1);
      var a := RelocateInsns(ds, src, dst, detours, n - 1).value;
      assert ds[n - 1] in ds;
      PatchesOf(ds[n - 1], Wrap(src + OrigOffset(ds, n - 1)), Wrap(dst + |a.code|), detours[n - 1]);
    }
  }

  /** A patch as long as instruction i asks for, where its detour is. */
  ghost predicate PatchFor(ds: seq<Insn>, detours: seq<u64>, p: Patch, i: nat)
    requires i < |ds| == |detours|
  {
    p.0 == detours[i] && |p.1| == DetourLength(ds[i])
  }

  lemma PatchesOf(d: Insn, ip: u64, reloIp: u64, seqAddr: u64)
    requires WellFormed(d) && InScope(d) && Readable(d) && RelocateInsn(d, ip, reloIp, seqAddr).Some?
    ensures var patches := RelocateInsn(d, ip, reloIp, seqAddr).value.patches;
            if UsesDetour(d) then |patches| == 1 && patches[0].0 == seqAddr && |patches[0].1| == DetourLength(d)
                else patches == []
  {
    if UsesDetour(d) {
      assert IsRip(KindOf(d));
      DetourParts(d, ip, reloIp, seqAddr);
    }
  }

  /** The instruction whose detour the patch at j is. */
  lemma {:induction false} InsnOfPatch(ds: seq<Insn>, j: nat, n: nat) returns (i: nat)
    requires n <= |ds| && j < DetourCount(ds, n)
    ensures i < n && UsesDetour(ds[i]) && DetourCount(ds, i) == j
    decreases n
  {
    if j < DetourCount(ds, n - 1) {
      i := InsnOfPatch(ds, j, n - 1);
    } else {
      i := n - 1;
    }
  }

  lemma WholeOf(ds: seq<Insn>, src: u64, dst: u64, detours: seq<u64>)
    requires |ds| == |detours| && X64Simulation.AllInScope(ds) && Relocate(ds, src, dst, detours, true).Some?
    ensures RelocateInsns(ds, src, dst, detours, |ds|).Some?
    ensures var whole := Relocate(ds, src, dst, detours, true).value;
            |whole.code| == TotalLength(ds, true)
                && whole.patches == RelocateInsns(ds, src, dst, detours, |ds|).value.patches
  {
    hide JmpAbsolute, RelocateInsns;
    InsnsLength(ds, src, dst, detours, |ds|);
  }

  /** Each block is as large as asked for. */
  lemma SizesGranted(st: A.State, ds: seq<Insn>, src: u64, os: nat, answers: nat -> (seq<A.Range>, bool), page: nat,
                     results: seq<A.ExecResult>, i: nat)
    requires page > 0 && page % 4 == 0 && AllReadable(ds) && A.Run(st, Attempt(ds, src, os, answers), page, results)
    requires i < |ds| && UsesDetour(ds[i]) && OperandInside(ds, src, i) && WellFormed(ds[i])
    requires var j := 1 + DetourCount(ds, i); j < |results| && results[j].block.Some?
    ensures var b := results[1 + DetourCount(ds, i)].block.value;
            b.addr < TWO64 && b.size == DetourLength(ds[i]) && X64Simulation.Near(ds[i], IpOf(ds, src, i), b.addr)
  {
    hide A.Run, A.Step, A.CursorsOk, A.NearAlloc, MemTarget, IpOf, X64Simulation.Near, Detour, WellFormed;
    A.OneResultEach(st, Attempt(ds, src, os, answers), page, results);
    RequestAt(ds, src, answers, i, |ds|);
    var j := 1 + DetourCount(ds, i);
    A.CursorsInRun(st, Attempt(ds, src, os, answers), page, results, j);
    assert Attempt(ds, src, os, answers)[j] == DetourRequest(ds[i], IpOf(ds, src, i), answers(i));
    NearStep(A.Before(st, results, j), ds[i], IpOf(ds, src, i), answers(i), page);
  }

  lemma NearStep(st: A.State, d: Insn, ip: u64, answer: (seq<A.Range>, bool), page: nat)
    requires page > 0 && A.CursorsOk(st.arenas) && WellFormed(d) && UsesDetour(d) && d.dispOffset + 4 <= |d.bytes|
    requires X64Detours.NEAR_RANGE <= MemTarget(d, ip) && MemTarget(d, ip) + X64Detours.NEAR_RANGE < TWO64
    ensures var r := A.Step(st, DetourRequest(d, ip, answer), page);
            r.block.Some? ==> r.block.value.addr < TWO64 && r.block.value.size == DetourLength(d)
                              && X64Simulation.Near(d, ip, r.block.value.addr)
  {
    hide A.NearAlloc, MemTarget, X64Simulation.Near, Detour, WellFormed, A.CursorsOk;
    X64Detours.DetourIsNear(d, ip, st, answer.0, page, answer.1);
    A.NearBlockInRange(st, DetourLength(d), MemTarget(d, ip), X64Detours.NEAR_RANGE, answer.0, page, answer.1);
  }

  lemma CodeGranted(st: A.State, ds: seq<Insn>, src: u64, os: nat, answers: nat -> (seq<A.Range>, bool), page: nat,
                    results: seq<A.ExecResult>)
    requires page > 0 && AllReadable(ds) && A.Run(st, Attempt(ds, src, os, answers), page, results)
    requires results != [] && results[0].block.Some?
    ensures results[0].block.value.size >= TotalLength(ds, true)
  {
    hide TotalLength, X64Relocator.Capacity, X64Relocator.SuccessfulAttempt, DetourRequests;
    CapacityEnough(TotalLength(ds, true));
  }

  /**
    If every request of the attempt is granted, by allocators in any state that runs lead to, the
    relocation is installed once it has been written, whatever was in memory before.
   */
  lemma AttemptInstalls(st: A.State, ds: seq<Insn>, src: u64, os: nat, answers: nat -> (seq<A.Range>, bool), page: nat,
                        results: seq<A.ExecResult>, dst: u64, detours: seq<u64>, m: Machine)
    requires A.Inv(st) && page > 0 && page % 4 == 0
    requires X64Simulation.AllInScope(ds) && |detours| == |ds| && src + OrigOffset(ds, |ds|) < TWO64
             && OperandsInside(ds, src)
    requires A.Run(st, Attempt(ds, src, os, answers), page, results)
    requires DetoursGranted(ds, detours, results) && results[0].block.value.addr == dst
    requires forall j :: 0 <= j < |results| ==> results[j].block.value.addr != 0
    requires Relocate(ds, src, dst, detours, true).Some?
    ensures X64Simulation.Installed(ds, src, dst, detours,
                                    X64Installation.Installing(m, dst, Relocate(ds, src, dst, detours, true).value))
  {
    hide A.Inv, A.Run, Relocate, X64Simulation.Near, X64Installation.Installing, RelocateInsns, A.Apart, Attempt,
         TotalLength, OrigOffset, WellFormed, InScope, AllReadable, MemTarget, DetourLength, IpOf, OperandInside;
    BlocksApart(st, Attempt(ds, src, os, answers), page, results);
    WholeOf(ds, src, dst, detours);
    PatchAt(ds, src, dst, detours, |ds|);
    CodeGranted(st, ds, src, os, answers, page, results);
    var whole := Relocate(ds, src, dst, detours, true).value;
    var patches := [(dst, whole.code)] + whole.patches;
    forall q | 0 <= q < |patches|
      ensures PatchInBlock(patches[q], results[q].block.value)
    {
      if q > 0 {
        var i := InsnOfPatch(ds, q - 1, |ds|);
        assert ds[i] in ds && GrantedAt(ds, detours, results, i) && PatchFor(ds, detours, whole.patches[q - 1], i);
        SizesGranted(st, ds, src, os, answers, page, results, i);
      }
    }
    ApartInBlocks(patches, results);
    forall i | 0 <= i < |ds|
      ensures X64Simulation.Near(ds[i], Wrap(src + OrigOffset(ds, i)), detours[i])
    {
      NearGranted(st, ds, src, os, answers, page, results, detours, i);
    }
    X64Installation.RelocationInstalls(ds, src, dst, detours, m);
  }

  lemma NearGranted(st: A.State, ds: seq<Insn>, src: u64, os: nat, answers: nat -> (seq<A.Range>, bool), page: nat,
                    results: seq<A.ExecResult>, detours: seq<u64>, i: nat)
    requires page > 0 && page % 4 == 0 && X64Simulation.AllInScope(ds) && |detours| == |ds| && OperandsInside(ds, src)
    requires A.Run(st, Attempt(ds, src, os, answers), page, results) && DetoursGranted(ds, detours, results) && i < |ds|
    ensures X64Simulation.Near(ds[i], Wrap(src + OrigOffset(ds, i)), detours[i])
  {
    hide A.Run, Attempt, OrigOffset, WellFormed, InScope, AllReadable, MemTarget, DetourLength, OperandInside, Wrap;
    if UsesDetour(ds[i]) {
      assert ds[i] in ds && GrantedAt(ds, detours, results, i);
      SizesGranted(st, ds, src, os, answers, page, results, i);
    }
  }

  /** What is written to a block fits in it. */
  ghost predicate PatchInBlock(p: Patch, b: A.Range) { p.0 == b.addr && |p.1| <= b.size }

  lemma ApartInBlocks(patches: seq<Patch>, results: seq<A.ExecResult>)
    requires |patches| == |results| && forall j :: 0 <= j < |results| ==> results[j].block.Some?
    requires forall q :: 0 <= q < |patches| ==> PatchInBlock(patches[q], results[q].block.value)
    requires forall j :: 0 <= j < |results| ==> results[j].block.value.End() < TWO64
    requires forall i, j :: 0 <= i < j < |results| ==> A.Apart(results[i].block.value, results[j].block.value)
    ensures X64Installation.AllApart(patches)
  {
    forall i, j | 0 <= i < j < |patches|
      ensures X64Installation.Apart(patches[i], patches[j])
    {
      assert PatchInBlock(patches[i], results[i].block.value) && PatchInBlock(patches[j], results[j].block.value);
      assert A.Apart(results[i].block.value, results[j].block.value);
    }
  }
}
