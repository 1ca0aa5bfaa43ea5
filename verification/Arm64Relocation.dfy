/**
  The A64 relocator (`relo_relocate`) as a function from the words of the window to the code it
  emits, and the proof that the emitted code simulates the window.
 */
module Arm64Relocation {
  import opened Words
  import opened Arm64Codec
  import opened Arm64Isa
  import opened Arm64Emit

  // ----- classification: (w & mask) == fixed, as a condition on the bits the mask keeps

  /** mask 0x7C000000, fixed 0x14000000 */
  predicate InstIsBBl(w: u32) { w / 0x400_0000 % 32 == 0x05 }

  /** mask 0xFC000000, fixed 0x94000000 */
  predicate InstIsBl(w: u32) { w / 0x400_0000 == 0x25 }

  /** mask 0x3B000000, fixed 0x18000000: neither the opc bits nor the SIMD bit are looked at */
  predicate InstIsLdrLiteral(w: u32) { Top8(w) / 8 % 8 == 3 && Top8(w) % 4 == 0 }

  /** mask 0x9F000000, fixed 0x10000000 */
  predicate InstIsAdr(w: u32) { Top8(w) % 32 == 0x10 && Top8(w) / 128 == 0 }

  /** mask 0x9F000000, fixed 0x90000000 */
  predicate InstIsAdrp(w: u32) { Top8(w) % 32 == 0x10 && Top8(w) / 128 == 1 }

  /** mask 0xFE000000, fixed 0x54000000 */
  predicate InstIsBCond(w: u32) { Top8(w) / 2 == 0x2A }

  /** mask 0x7E000000, fixed 0x34000000 */
  predicate InstIsCompareB(w: u32) { Top8(w) % 128 / 2 == 0x1A }

  /** mask 0x7E000000, fixed 0x36000000 */
  predicate InstIsTestB(w: u32) { Top8(w) % 128 / 2 == 0x1B }

  // ----- the three inverted branches, which skip the two-word literal branch behind them

  function XorOne(c: int): int { if c % 2 == 0 then c + 1 else c - 1 }

  function InvertedBCond(w: u32): u32 { SetImm19(SetCond(w, XorOne(w % 16)), 3) }
  function InvertedCompareB(w: u32): u32 { SetImm19(SetBit24(w, XorOne(Top8(w) % 2)), 3) }
  function InvertedTestB(w: u32): u32 { SetImm14(SetBit24(w, XorOne(Top8(w) % 2)), 3) }

  function AppendWords(a: Asm, ws: seq<u32>): Asm { a.(code := a.code + ws) }

  /** One iteration of the loop: the code emitted for w at address pc; None is the abort. */
  function RelocateInsn(a: Asm, w: u32, pc: u64): Option<Asm>
  {
    if InstIsBBl(w) then
      Some(LiteralBranch(a, Wrap(pc + DecodeImm26Offset(w)), InstIsBl(w)))
    else if InstIsLdrLiteral(w) then
      var target := Wrap(pc + DecodeImm19Offset(w));
      var opc := Top8(w) / 64;
      if opc == 0 || opc == 1 then Some(AppendWords(a, MovWords(TMP, target) + [LdrXWord(Rd(w), TMP)]))
      else None
    else if InstIsAdr(w) then
      Some(AppendWords(a, MovWords(Rd(w), Wrap(pc + DecodeImmhiImmloOffset(w)))))
    else if InstIsAdrp(w) then
      Some(AppendWords(a, MovWords(Rd(w), TruncPage(Wrap(pc + DecodeImmhiImmloZero12Offset(w))))))
    else if InstIsBCond(w) then
      Some(LiteralBranch(AppendWords(a, [InvertedBCond(w)]), Wrap(pc + DecodeImm19Offset(w)), false))
    else if InstIsCompareB(w) then
      Some(LiteralBranch(AppendWords(a, [InvertedCompareB(w)]), Wrap(pc + DecodeImm19Offset(w)), false))
    else if InstIsTestB(w) then
      Some(LiteralBranch(AppendWords(a, [InvertedTestB(w)]), Wrap(pc + DecodeImm14Offset(w)), false))
    else
      Some(AppendWords(a, [w]))
  }

  /** The code emitted for the first n words of the window. */
  function RelocateWindow(ws: seq<u32>, src: u64, n: nat): Option<Asm>
    requires n <= |ws|
  {
    if n == 0 then Some(Asm([], []))
    else
      match RelocateWindow(ws, src, n - 1)
      case None => None
      case Some(a) => RelocateInsn(a, ws[n - 1], Wrap(src + 4 * (n - 1)))
  }

  /** The whole relocation: the window, and a branch back to the first address behind it. */
  function Relocate(ws: seq<u32>, src: u64, branch: bool): Option<Asm>
  {
    match RelocateWindow(ws, src, |ws|)
    case None => None
    case Some(a) => Some(if branch then LiteralBranch(a, Wrap(src + 4 * |ws|), false) else a)
  }

  /** Without the branch it is the same words and labels, up to there. */
  lemma BranchBehind(ws: seq<u32>, src: u64)
    ensures var with, without := Relocate(ws, src, true), Relocate(ws, src, false);
            && (with.None? <==> without.None?)
            && (with.Some? ==> with.value == LiteralBranch(without.value, Wrap(src + 4 * |ws|), false))
  {
  }

  /** relocated_offset_map[4 * i] for i < |ws|, and for i == |ws| the offset of the branch back */
  function RelocatedOffset(ws: seq<u32>, src: u64, i: nat): nat
    requires i <= |ws|
  {
    match RelocateWindow(ws, src, i) case None => 0 case Some(a) => 4 * |a.code|
  }

  // ----- growth

  /** b only adds to a: more words, more labels, and the new labels belong to the new words. */
  ghost predicate Extends(a: Asm, b: Asm)
  {
    && a.code <= b.code && a.labels <= b.labels
    && (forall j :: |a.labels| <= j < |b.labels| ==> b.labels[j].ref >= |a.code|)
  }

  lemma LiteralBranchExtends(a: Asm, target: u64, link: bool)
    requires Linked(a)
    ensures Linked(LiteralBranch(a, target, link)) && Extends(a, LiteralBranch(a, target, link))
  {
    var b := LiteralBranch(a, target, link);
    assert a.code <= b.code && a.labels <= b.labels;
    forall j | 0 <= j < |b.labels|
      ensures b.labels[j].ref < |b.code| && b.code[b.labels[j].ref] == LDR_TMP
    {
      if j < |a.labels| {
        assert b.labels[j] == a.labels[j] && a.labels[j] in a.labels;
        assert b.code[a.labels[j].ref] == a.code[a.labels[j].ref];
      }
    }
    forall i, j | 0 <= i < j < |b.labels|
      ensures b.labels[i].ref != b.labels[j].ref
    {
      assert b.labels[i] == a.labels[i] && a.labels[i] in a.labels;
    }
  }

  lemma AppendExtends(a: Asm, ws: seq<u32>)
    requires Linked(a)
    ensures Linked(AppendWords(a, ws)) && Extends(a, AppendWords(a, ws))
  {
    var b := AppendWords(a, ws);
    forall j | 0 <= j < |a.labels|
      ensures b.code[b.labels[j].ref] == LDR_TMP && b.labels[j].ref < |b.code|
    {
      assert a.labels[j] in a.labels;
    }
  }

  /** Whatever the instruction is, words are appended, and then perhaps a literal branch. */
  lemma InsnShape(a: Asm, w: u32, pc: u64) returns (ws: seq<u32>, branch: Option<(u64, bool)>)
    requires RelocateInsn(a, w, pc).Some?
    ensures RelocateInsn(a, w, pc).value
            == if branch.Some? then LiteralBranch(AppendWords(a, ws), branch.value.0, branch.value.1)
                else AppendWords(a, ws)
  {
    hide InstIsBBl, InstIsBl, InstIsLdrLiteral, InstIsAdr, InstIsAdrp, InstIsBCond, InstIsCompareB, InstIsTestB,
         LiteralBranch, MovWords, LdrXWord, InvertedBCond, InvertedCompareB, InvertedTestB, DecodeImm26Offset,
         DecodeImm19Offset, DecodeImm14Offset, DecodeImmhiImmloOffset, DecodeImmhiImmloZero12Offset, TruncPage, Wrap,
         Top8, Rd;
    if InstIsBBl(w) {
      assert AppendWords(a, []) == a by { assert a.code + [] == a.code; }
      return [], Some((Wrap(pc + DecodeImm26Offset(w)), InstIsBl(w)));
    } else if InstIsLdrLiteral(w) {
      return MovWords(TMP, Wrap(pc + DecodeImm19Offset(w))) + [LdrXWord(Rd(w), TMP)], None;
    } else if InstIsAdr(w) {
      return MovWords(Rd(w), Wrap(pc + DecodeImmhiImmloOffset(w))), None;
    } else if InstIsAdrp(w) {
      return MovWords(Rd(w), TruncPage(Wrap(pc + DecodeImmhiImmloZero12Offset(w)))), None;
    } else if InstIsBCond(w) {
      return [InvertedBCond(w)], Some((Wrap(pc + DecodeImm19Offset(w)), false));
    } else if InstIsCompareB(w) {
      return [InvertedCompareB(w)], Some((Wrap(pc + DecodeImm19Offset(w)), false));
    } else if InstIsTestB(w) {
      return [InvertedTestB(w)], Some((Wrap(pc + DecodeImm14Offset(w)), false));
    } else {
      return [w], None;
    }
  }

  lemma InsnExtends(a: Asm, w: u32, pc: u64)
    requires Linked(a) && RelocateInsn(a, w, pc).Some?
    ensures Linked(RelocateInsn(a, w, pc).value) && Extends(a, RelocateInsn(a, w, pc).value)
  {
    hide RelocateInsn, Linked, Extends, LiteralBranch, AppendWords;
    var ws, branch := InsnShape(a, w, pc);
    AppendExtends(a, ws);
    if branch.Some? {
      LiteralBranchExtends(AppendWords(a, ws), branch.value.0, branch.value.1);
      ExtendsOn(a, AppendWords(a, ws), LiteralBranch(AppendWords(a, ws), branch.value.0, branch.value.1));
    }
  }

  lemma ExtendsOn(a: Asm, b: Asm, c: Asm)
    requires Extends(a, b) && Extends(b, c)
    ensures Extends(a, c)
  {
    forall j | |a.labels| <= j < |c.labels|
      ensures c.labels[j].ref >= |a.code|
    {
      assert j < |b.labels| ==> c.labels[j] == b.labels[j];
    }
  }

  lemma ExtendsSelf(a: Asm)
    ensures Extends(a, a)
  {
  }

  lemma {:induction false} WindowExtends(ws: seq<u32>, src: u64, i: nat, n: nat)
    requires i <= n <= |ws| && RelocateWindow(ws, src, n).Some?
    ensures RelocateWindow(ws, src, i).Some?
    ensures var a, b := RelocateWindow(ws, src, i).value, RelocateWindow(ws, src, n).value;
            Linked(a) && Linked(b) && Extends(a, b)
    decreases n
  {
    hide RelocateInsn, Wrap;
    if n > 0 {
      hide Linked, Extends;
      var k := if i < n then i else n - 1;
      WindowExtends(ws, src, k, n - 1);
      InsnExtends(RelocateWindow(ws, src, n - 1).value, ws[n - 1], Wrap(src + 4 * (n - 1)));
      if i < n {
        ExtendsOn(RelocateWindow(ws, src, i).value, RelocateWindow(ws, src, n - 1).value,
            RelocateWindow(ws, src, n).value);
      } else {
        ExtendsSelf(RelocateWindow(ws, src, n).value);
      }
    }
  }

  lemma RelocateLinked(ws: seq<u32>, src: u64, branch: bool)
    requires Relocate(ws, src, branch).Some?
    ensures Linked(Relocate(ws, src, branch).value)
  {
    hide RelocateInsn;
    WindowExtends(ws, src, |ws|, |ws|);
    if branch {
      LiteralBranchExtends(RelocateWindow(ws, src, |ws|).value, Wrap(src + 4 * |ws|), false);
    }
  }

  /** The finished code: everything emitted, with the labels bound. */
  function RelocatedCode(ws: seq<u32>, src: u64, branch: bool): Option<seq<u32>>
  {
    match Relocate(ws, src, branch)
    case None => None
    case Some(z) => RelocateLinked(ws, src, branch); Some(Bind(z))
  }

  /** The relocator gives up exactly on the literal loads that are neither W nor X (nor S nor D) forms. */
  lemma {:induction false} RelocatesExactly(ws: seq<u32>, src: u64, n: nat)
    requires n <= |ws|
    ensures RelocateWindow(ws, src, n).Some?
            <==> forall k :: 0 <= k < n ==> !(InstIsLdrLiteral(ws[k]) && Top8(ws[k]) / 64 >= 2)
  {
    if n > 0 {
      RelocatesExactly(ws, src, n - 1);
      if RelocateWindow(ws, src, n - 1).Some? {
        InsnRelocates(RelocateWindow(ws, src, n - 1).value, ws[n - 1], Wrap(src + 4 * (n - 1)));
      }
    }
  }

  lemma InsnRelocates(a: Asm, w: u32, pc: u64)
    ensures RelocateInsn(a, w, pc).Some? <==> !(InstIsLdrLiteral(w) && Top8(w) / 64 >= 2)
  {
    if InstIsLdrLiteral(w) {
      assert !InstIsBBl(w) by {
        Top6(w);
      }
    }
  }
}
