/**
  The relocated A64 code in memory: every window the relocator does not give up on can be installed,
  and how much room that takes.
 */
module Arm64Installation {
  import opened Words
  import opened Arm64Codec
  import opened Arm64Isa
  import opened Arm64Emit
  import opened Arm64Relocation
  import opened Arm64Simulation

  /** How many words the code takes once its labels are bound. */
  function BoundSize(a: Asm): nat { |a.code| + 2 * |a.labels| }

  lemma BindSize(a: Asm)
    requires Linked(a)
    ensures |Bind(a)| == BoundSize(a)
  {
    if a.labels != [] {
      BindPatches(a, 0);
    }
  }

  /** A word takes at most five words, the data of its label included. */
  lemma InsnSize(a: Asm, w: u32, pc: u64)
    requires RelocateInsn(a, w, pc).Some?
    ensures BoundSize(RelocateInsn(a, w, pc).value) <= BoundSize(a) + 5
  {
    hide DecodeImm26Offset, DecodeImm19Offset, DecodeImm14Offset, DecodeImmhiImmloOffset, TruncPage, Wrap, MovZWord,
         MovKWord, LdrXWord, InvertedBCond, InvertedCompareB, InvertedTestB, InstIsBl;
  }

  lemma {:induction false} WindowSize(ws: seq<u32>, src: u64, n: nat)
    requires n <= |ws| && RelocateWindow(ws, src, n).Some?
    ensures BoundSize(RelocateWindow(ws, src, n).value) <= 5 * n
  {
    hide RelocateInsn;
    if n > 0 {
      WindowSize(ws, src, n - 1);
      InsnSize(RelocateWindow(ws, src, n - 1).value, ws[n - 1], Wrap(src + 4 * (n - 1)));
    }
  }

  /** So the code of a window takes at most five words for each of its words, and four for the branch back. */
  lemma RelocatedSize(ws: seq<u32>, src: u64)
    requires RelocatedCode(ws, src, true).Some?
    ensures |RelocatedCode(ws, src, true).value| <= 5 * |ws| + 4
  {
    hide RelocateInsn, Bind, RelocateWindow;
    WindowSize(ws, src, |ws|);
    RelocateLinked(ws, src, true);
    BindSize(Relocate(ws, src, true).value);
  }

  /** Memory with the code at dst. */
  function CodeMemory(mem: u64 -> u32, dst: u64, code: seq<u32>): u64 -> u32
  {
    (a: u64) => if dst <= a < dst + 4 * |code| && (a - dst) % 4 == 0 then code[(a - dst) / 4] else mem(a)
  }

  lemma CodeLoaded(mem: u64 -> u32, dst: u64, code: seq<u32>)
    requires dst + 4 * |code| <= TWO64
    ensures Loaded(CodeMemory(mem, dst, code), dst, code)
  {
    forall k | 0 <= k < |code|
      ensures CodeMemory(mem, dst, code)(Wrap(dst + 4 * k)) == code[k]
    {
      WrapSmall(dst + 4 * k);
    }
  }

  /**
    Every window without a literal load of opc 2 or 3, of at most 52000 words, is relocated and can be
    installed wherever five words for each of its words and four more fit.
   */
  lemma WindowInstalls(ws: seq<u32>, src: u64, dst: u64, mem: u64 -> u32)
    requires src + 4 * |ws| < TWO64 && |ws| <= 52000 && dst + 4 * (5 * |ws| + 4) <= TWO64
    requires forall k :: 0 <= k < |ws| ==> !(InstIsLdrLiteral(ws[k]) && Top8(ws[k]) / 64 >= 2)
    ensures RelocatedCode(ws, src, true).Some?
    ensures |RelocatedCode(ws, src, true).value| <= 5 * |ws| + 4
    ensures Installed(ws, src, dst, CodeMemory(mem, dst, RelocatedCode(ws, src, true).value))
  {
    hide RelocateInsn, InstIsLdrLiteral, Bind, Loaded, CodeMemory, RelocateWindow;
    RelocatesExactly(ws, src, |ws|);
    RelocatedSize(ws, src);
    CodeLoaded(mem, dst, RelocatedCode(ws, src, true).value);
  }
}
