/**
  What the relocator leaves in memory: the code at its block and every detour sequence at its own,
  written one after the other. If the blocks are apart, nothing overwrites anything, and what
  RelocationSimulates asks of memory holds.
 */
module X64Installation {
  import opened Words
  import opened X64Isa
  import opened X64Relocation
  import X64Simulation

  /** Memory with b written at a, below the top of the address space. */
  function Written(mem: u64 -> u8, a: u64, b: seq<u8>): u64 -> u8
  {
    (x: u64) => if a <= x < a + |b| then b[x - a] else mem(x)
  }

  function WrittenAll(mem: u64 -> u8, patches: seq<Patch>): u64 -> u8
    decreases |patches|
  {
    if patches == [] then mem
    else
      var rest, last := patches[..|patches| - 1], patches[|patches| - 1];
      Written(WrittenAll(mem, rest), last.0, last.1)
  }

  predicate Apart(p: Patch, q: Patch) { Disjoint(p.0, |p.1|, q.0, |q.1|) }

  ghost predicate AllApart(patches: seq<Patch>)
  {
    && (forall p <- patches :: p.0 + |p.1| < TWO64)
    && forall i, j :: 0 <= i < j < |patches| ==> Apart(patches[i], patches[j])
  }

  /** Every block that is written is there in the end. */
  lemma {:induction false} AllThere(mem: u64 -> u8, patches: seq<Patch>, i: nat, k: nat)
    requires AllApart(patches) && i < |patches| && k < |patches[i].1|
    ensures patches[i].0 + k < TWO64 && WrittenAll(mem, patches)(patches[i].0 + k) == patches[i].1[k]
    decreases |patches|
  {
    var n := |patches| - 1;
    assert patches[i] in patches;
    if i < n {
      assert Apart(patches[i], patches[n]);
      assert forall p <- patches[..n] :: p in patches;
      AllThere(mem, patches[..n], i, k);
    }
  }

  /** The machine after the relocator has written all of a piece. */
  function Installing(m: Machine, dst: u64, whole: Piece): Machine
  {
    m.(mem := WrittenAll(m.mem, [(dst, whole.code)] + whole.patches))
  }

  lemma PieceWritten(m: Machine, dst: u64, whole: Piece)
    requires AllApart([(dst, whole.code)] + whole.patches)
    ensures X64Simulation.PieceAt(Installing(m, dst, whole), dst, whole)
  {
    hide WrittenAll;
    var patches, m' := [(dst, whole.code)] + whole.patches, Installing(m, dst, whole);
    forall i | 0 <= i < |patches|
      ensures patches[i].0 + |patches[i].1| < TWO64 && At(m', patches[i].0, patches[i].1)
    {
      assert patches[i] in patches;
      forall k | 0 <= k < |patches[i].1|
        ensures m'.Bytes(patches[i].0, |patches[i].1|)[k] == patches[i].1[k]
      {
        AllThere(m.mem, patches, i, k);
        WrapSmall(patches[i].0 + k);
      }
    }
    assert patches[0] == (dst, whole.code);
    forall q | q in whole.patches
      ensures At(m', q.0, q.1) && q.0 + |q.1| < TWO64
    {
      var j :| 0 <= j < |whole.patches| && whole.patches[j] == q;
      assert patches[j + 1] == q;
    }
  }

  /**
    For any window the relocator handles, whatever is in memory before: blocks apart and detours near are all
    it takes.
   */
  lemma RelocationInstalls(ds: seq<Insn>, src: u64, dst: u64, detours: seq<u64>, m: Machine)
    requires X64Simulation.AllInScope(ds) && |detours| == |ds| && src + OrigOffset(ds, |ds|) < TWO64
    requires Relocate(ds, src, dst, detours, true).Some?
    requires forall i :: 0 <= i < |ds| ==> X64Simulation.Near(ds[i], Wrap(src + OrigOffset(ds, i)), detours[i])
    requires var whole := Relocate(ds, src, dst, detours, true).value; AllApart([(dst, whole.code)] + whole.patches)
    ensures X64Simulation.Installed(ds, src, dst, detours,
            Installing(m, dst, Relocate(ds, src, dst, detours, true).value))
  {
    hide Relocate, Installing, AllApart;
    PieceWritten(m, dst, Relocate(ds, src, dst, detours, true).value);
  }
}
