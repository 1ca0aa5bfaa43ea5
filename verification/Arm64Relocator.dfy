/**
  The A64 relocator as the program runs it: an assembler object with a growing code buffer and a
  list of label objects, and a context whose cursor walks over the window.
 */
module Arm64Relocator {
  import opened Words
  import opened Arm64Codec
  import opened Arm64Isa
  import opened Arm64Emit
  import opened Arm64Relocation

  /** RelocLabel: its data, its position (0 until bound), and the byte offsets of the loads using it. */
  class RelocLabel {
    const data: u64
    var pos: nat
    var refs: seq<nat>

    constructor WithData(value: u64)
      ensures data == value && pos == 0 && refs == []
    {
      data, pos, refs := value, 0, [];
    }
  }

  class TurboAssembler {
    /** the code buffer, in 32-bit words */
    var buffer: seq<u32>
    var dataLabels: seq<RelocLabel>

    constructor ()
      ensures buffer == [] && dataLabels == []
    {
      buffer, dataLabels := [], [];
    }

    /** Label object l stands for label v: linked by one load, not bound yet. */
    static ghost predicate Stands(l: RelocLabel, v: Label)
      reads l
    {
      l.data == v.data && l.refs == [4 * v.ref] && l.pos == 0
    }

    /** The assembler holds a, every label being an object of its own. */
    ghost predicate Holds(a: Asm)
      reads this, dataLabels
    {
      && buffer == a.code && |dataLabels| == |a.labels|
      && (forall j :: 0 <= j < |dataLabels| ==> Stands(dataLabels[j], a.labels[j]))
      && (forall i, j :: 0 <= i < j < |dataLabels| ==> dataLabels[i] != dataLabels[j])
    }

    lemma HoldsNothing()
      requires buffer == [] && dataLabels == []
      ensures Holds(Asm([], []))
    {
    }

    function BufferSize(): nat
      reads this
    {
      4 * |buffer|
    }

    method Emit(w: u32)
      modifies this`buffer
      ensures buffer == old(buffer) + [w]
    {
      buffer := buffer + [w];
    }

    method AppendRelocLabel(lab: RelocLabel)
      modifies this`dataLabels
      ensures dataLabels == old(dataLabels) + [lab]
    {
      dataLabels := dataLabels + [lab];
    }

    /** `Ldr(TMP_REG_0, label)` of a label that is not bound yet */
    method LdrTmp(lab: RelocLabel)
      requires lab.pos == 0
      modifies this`buffer, lab`refs
      ensures lab.refs == old(lab.refs) + [old(BufferSize())]
      ensures buffer == old(buffer) + [LDR_TMP]
    {
      lab.refs := lab.refs + [BufferSize()];
      Emit(LDR_TMP);
    }

    method Mov(rd: u5, imm: u64)
      modifies this`buffer
      ensures buffer == old(buffer) + MovWords(rd, imm)
    {
      Emit(MovZWord(rd, Lane(imm, 0), 0));
      Emit(MovKWord(rd, Lane(imm, 1), 1));
      Emit(MovKWord(rd, Lane(imm, 2), 2));
      Emit(MovKWord(rd, Lane(imm, 3), 3));
    }

    /** Emit `skip` (an inverted branch, or nothing), then load a new label into x17 and branch to it. */
    method BranchToLabel(skip: seq<u32>, target: u64, link: bool, ghost a: Asm)
      requires Holds(a) && |skip| <= 1
      modifies this
      ensures Holds(LiteralBranch(AppendWords(a, skip), target, link))
      ensures fresh(set l | l in dataLabels && l !in old(dataLabels))
    {
      var lab := new RelocLabel.WithData(target);
      AppendRelocLabel(lab);
      if skip != [] {
        Emit(skip[0]);
      }
      LdrTmp(lab);
      Emit(if link then BlrWord(TMP) else BrWord(TMP));
      ghost var b := LiteralBranch(AppendWords(a, skip), target, link);
      assert buffer == b.code;
    }

    /** `PseudoBind` of one label and the emission of its data. */
    method BindLabel(lab: RelocLabel, ghost ref: nat)
      requires lab.refs == [4 * ref] && ref < |buffer|
      modifies this`buffer, lab`pos
      ensures lab.pos == old(BufferSize())
      ensures buffer == old(buffer)[ref := EncodeImm19Offset(old(buffer)[ref], 4 * (|old(buffer)| - ref))]
                        + [Lo(lab.data), Hi(lab.data)]
    {
      hide EncodeImm19Offset;
      lab.pos := BufferSize();
      var j := 0;
      while j < |lab.refs|
        invariant 0 <= j <= 1 && lab.pos == old(BufferSize())
        invariant buffer == if j == 0 then old(buffer)
                            else old(buffer)[ref := EncodeImm19Offset(old(buffer)[ref], 4 * (|old(buffer)| - ref))]
      {
        var at := lab.refs[j];
        var fixupOffset := lab.pos - at;
        var inst := buffer[at / 4];
        buffer := buffer[at / 4 := EncodeImm19Offset(inst, fixupOffset)];
        j := j + 1;
      }
      buffer := buffer + [Lo(lab.data), Hi(lab.data)];
    }

    /** `RelocBind` */
    method RelocBind(ghost a: Asm)
      requires Holds(a) && Linked(a)
      modifies this`buffer, dataLabels
      ensures buffer == Bind(a)
    {
      hide EncodeImm19Offset, Lo, Hi, Linked, Bind;
      LinkedRefs(a);
      var i := 0;
      ghost var rest := a;
      while i < |dataLabels|
        invariant 0 <= i <= |dataLabels| && dataLabels == old(dataLabels)
        invariant Linked(rest) && rest.labels == a.labels[i..] && buffer == rest.code
        invariant RefsInCode(rest) && Bind(rest) == Bind(a)
        invariant forall j :: i <= j < |dataLabels| ==> Stands(dataLabels[j], a.labels[j])
      {
        BindOneLinked(rest);
        LinkedRefs(BindOne(rest));
        BindUnfolds(rest);
        assert rest.labels[0] == a.labels[i] && rest.labels[0] in rest.labels;
        BindLabel(dataLabels[i], a.labels[i].ref);
        rest := BindOne(rest);
        i := i + 1;
      }
      BindUnfolds(rest);
    }
  }

  /** relo_ctx_t: the window and how far the relocator has got. */
  class RelocationContext {
    const window: seq<u32>
    const srcVmaddr: u64
    var cursor: nat
    var relocatedOffsetMap: map<nat, nat>
    var originSize: nat
    var relocated: seq<u32>

    constructor (window: seq<u32>, src: u64)
      ensures this.window == window && srcVmaddr == src && cursor == 0 && relocatedOffsetMap == map[]
    {
      this.window, srcVmaddr := window, src;
      cursor, relocatedOffsetMap, originSize, relocated := 0, map[], 0, [];
    }

    /** relo_cur_src_vmaddr */
    function CurSrcVmaddr(): u64
      reads this
    {
      Wrap(srcVmaddr + cursor)
    }

    /** One iteration: emit the relocation of w. False is the abort on an unimplemented literal load. */
    method RelocateOne(asm: TurboAssembler, w: u32, ghost a: Asm) returns (ok: bool)
      requires asm.Holds(a)
      modifies asm
      ensures ok == RelocateInsn(a, w, CurSrcVmaddr()).Some?
      ensures ok ==> asm.Holds(RelocateInsn(a, w, CurSrcVmaddr()).value)
      ensures fresh(set l | l in asm.dataLabels && l !in old(asm.dataLabels))
    {
      hide InstIsBBl, InstIsBl, InstIsLdrLiteral, InstIsAdr, InstIsAdrp, InstIsBCond, InstIsCompareB, InstIsTestB,
           DecodeImmhiImmloZero12Offset, Wrap, Top8, Rd, LiteralBranch,
           DecodeImm26Offset, DecodeImm19Offset, DecodeImm14Offset, DecodeImmhiImmloOffset, TruncPage, Lane,
           InvertedBCond, InvertedCompareB, InvertedTestB, MovZWord, MovKWord, LdrXWord;
      ok := true;
      var pc := CurSrcVmaddr();
      if InstIsBBl(w) {
        asm.BranchToLabel([], Wrap(pc + DecodeImm26Offset(w)), InstIsBl(w), a);
        assert AppendWords(a, []) == a;
      } else if InstIsLdrLiteral(w) {
        var target := Wrap(pc + DecodeImm19Offset(w));
        var opc := Top8(w) / 64;
        if opc == 0 || opc == 1 {
          asm.Mov(TMP, target);
          asm.Emit(LdrXWord(Rd(w), TMP));
        } else {
          ok := false;
        }
      } else if InstIsAdr(w) {
        asm.Mov(Rd(w), Wrap(pc + DecodeImmhiImmloOffset(w)));
      } else if InstIsAdrp(w) {
        asm.Mov(Rd(w), TruncPage(Wrap(pc + DecodeImmhiImmloZero12Offset(w))));
      } else if InstIsBCond(w) {
        asm.BranchToLabel([InvertedBCond(w)], Wrap(pc + DecodeImm19Offset(w)), false, a);
      } else if InstIsCompareB(w) {
        asm.BranchToLabel([InvertedCompareB(w)], Wrap(pc + DecodeImm19Offset(w)), false, a);
      } else if InstIsTestB(w) {
        asm.BranchToLabel([InvertedTestB(w)], Wrap(pc + DecodeImm14Offset(w)), false, a);
      } else {
        asm.Emit(w);
      }
    }

    /** The loop of relo_relocate: one instruction after the other, recording where each one went. */
    method RelocateWords(asm: TurboAssembler) returns (ok: bool, ghost a: Asm)
      requires cursor == 0 && relocatedOffsetMap == map[] && asm.Holds(Asm([], []))
      modifies this`cursor, this`relocatedOffsetMap, asm
      ensures ok == RelocateWindow(window, srcVmaddr, |window|).Some?
      ensures ok ==> RelocateWindow(window, srcVmaddr, |window|) == Some(a) && asm.Holds(a)
      ensures ok ==> cursor == 4 * |window| && relocatedOffsetMap == OffsetMap(window, srcVmaddr, |window|)
      ensures fresh(set l | l in asm.dataLabels && l !in old(asm.dataLabels))
    {
      hide RelocateInsn;
      ghost var n := 0;
      a, ok := Asm([], []), true;
      while cursor < 4 * |window|
        invariant fresh(set l | l in asm.dataLabels && l !in old(asm.dataLabels))
        invariant n <= |window| && cursor == 4 * n
        invariant RelocateWindow(window, srcVmaddr, n) == Some(a) && asm.Holds(a)
        invariant relocatedOffsetMap == OffsetMap(window, srcVmaddr, n)
        decreases 4 * |window| - cursor
      {
        relocatedOffsetMap := relocatedOffsetMap[cursor := asm.BufferSize()];
        ok := RelocateOne(asm, window[cursor / 4], a);
        if !ok {
          WindowFails(window, srcVmaddr, n + 1, |window|);
          return;
        }
        n, a := n + 1, RelocateInsn(a, window[n], Wrap(srcVmaddr + 4 * n)).value;
        cursor := cursor + 4;
      }
    }

    /** relo_relocate: the code, the offset map and the window length, or the abort. */
    method Relocate(branch: bool) returns (ok: bool)
      requires cursor == 0 && relocatedOffsetMap == map[]
      modifies this
      ensures ok == RelocatedCode(window, srcVmaddr, branch).Some?
      ensures ok ==> relocated == RelocatedCode(window, srcVmaddr, branch).value && originSize == 4 * |window|
      ensures ok ==> relocatedOffsetMap == OffsetMap(window, srcVmaddr, |window|)
    {
      hide RelocateWindow, OffsetMap, Bind, TurboAssembler.Holds, LiteralBranch;
      var asm := new TurboAssembler();
      asm.HoldsNothing();
      ghost var a;
      ok, a := RelocateWords(asm);
      if !ok {
        return;
      }
      originSize := cursor;
      ghost var z := a;
      if branch {
        asm.BranchToLabel([], Wrap(srcVmaddr + originSize), false, a);
        assert AppendWords(a, []) == a;
        z := LiteralBranch(a, Wrap(srcVmaddr + originSize), false);
      }
      RelocateLinked(window, srcVmaddr, branch);
      asm.RelocBind(z);
      relocated := asm.buffer;
    }
  }

  /** relocated_offset_map after n instructions */
  function OffsetMap(ws: seq<u32>, src: u64, n: nat): map<nat, nat>
    requires n <= |ws|
  {
    if n == 0 then map[] else OffsetMap(ws, src, n - 1)[4 * (n - 1) := RelocatedOffset(ws, src, n - 1)]
  }

  /** The map has exactly the offsets of the window's instructions, each with the offset of its relocation. */
  lemma {:induction false} OffsetMapEntries(ws: seq<u32>, src: u64, n: nat, o: nat)
    requires n <= |ws|
    ensures o in OffsetMap(ws, src, n) <==> o % 4 == 0 && o < 4 * n
    ensures o in OffsetMap(ws, src, n) ==> OffsetMap(ws, src, n)[o] == RelocatedOffset(ws, src, o / 4)
  {
    hide RelocatedOffset;
    if n > 0 {
      OffsetMapEntries(ws, src, n - 1, o);
      assert 4 * (n - 1) / 4 == n - 1;
    }
  }

  lemma {:induction false} WindowFails(ws: seq<u32>, src: u64, n: nat, m: nat)
    requires n <= m <= |ws| && RelocateWindow(ws, src, n).None?
    ensures RelocateWindow(ws, src, m).None?
    decreases m
  {
    if n < m {
      WindowFails(ws, src, n, m - 1);
    }
  }
}
