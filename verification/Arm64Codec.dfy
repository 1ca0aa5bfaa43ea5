/**
  A64 instruction words as 32-bit integers, and the immediate codecs of the relocator
  (inst_decode_encode_kit.h with the bits / set_bits macros of utility_macro.h).

  bits(w, st, fn) is (w >> st) & (2^(fn-st+1) - 1), that is w / 2^st % 2^(fn-st+1), and
  set_bits replaces that field; both are written here with the powers of two spelled out.
 */
module Arm64Codec {
  import opened Words

  // ----- fields

  function Top8(w: u32): u8 { w / 0x100_0000 }
  function Rd(w: u32): u5 { w % 32 }
  function Imm26(w: u32): int { w % 0x400_0000 }
  function Imm19(w: u32): int { w / 32 % 0x8_0000 }
  function Imm14(w: u32): int { w / 32 % 0x4000 }
  function Imm16(w: u32): u16 { w / 32 % 0x1_0000 }
  /** bits 19..23, the low five bits of the bit number a test-and-branch looks at */
  function B40(w: u32): u5 { w / 0x8_0000 % 32 }

  function SetImm26(w: u32, v: int): (r: u32)
    requires 0 <= v < 0x400_0000
  {
    w - Imm26(w) + v
  }

  function SetImm19(w: u32, v: int): (r: u32)
    requires 0 <= v < 0x8_0000
  {
    Top8Imm19Rd(w);
    w - Imm19(w) * 32 + v * 32
  }

  function SetImm14(w: u32, v: int): (r: u32)
    requires 0 <= v < 0x4000
  {
    Top8B40Imm14Rd(w);
    w - Imm14(w) * 32 + v * 32
  }

  /** set_bits(w, 0, 3, v) */
  function SetCond(w: u32, v: int): (r: u32)
    requires 0 <= v < 16
  {
    w - w % 16 + v
  }

  /** set_bit(w, 24, v) */
  function SetBit24(w: u32, v: int): (r: u32)
    requires 0 <= v < 2
  {
    w - (Top8(w) % 2) * 0x100_0000 + v * 0x100_0000
  }

  // ----- a word is its fields, and the fields of a sum of fields are those fields

  lemma Top8Imm19Rd(w: u32)
    ensures w == Top8(w) * 0x100_0000 + Imm19(w) * 32 + Rd(w)
  {
    DivDiv(w, 32, 0x8_0000);
  }

  lemma FieldsOf19(top: int, imm: int, rd: int)
    requires 0 <= top < 256 && 0 <= imm < 0x8_0000 && 0 <= rd < 32
    ensures var w := top * 0x100_0000 + imm * 32 + rd;
            0 <= w < 0x1_0000_0000 && Top8(w) == top && Imm19(w) == imm && Rd(w) == rd
  {
    var w := top * 0x100_0000 + imm * 32 + rd;
    DivModUnique(w, 0x100_0000, top, imm * 32 + rd);
    DivModUnique(w, 32, top * 0x8_0000 + imm, rd);
    DivModUnique(w / 32, 0x8_0000, top, imm);
  }

  lemma Top8B40Imm14Rd(w: u32)
    ensures w == Top8(w) * 0x100_0000 + B40(w) * 0x8_0000 + Imm14(w) * 32 + Rd(w)
  {
    DivDiv(w, 32, 0x4000);
    DivDiv(w, 0x8_0000, 32);
  }

  lemma FieldsOf14(top: int, b40: int, imm: int, rd: int)
    requires 0 <= top < 256 && 0 <= b40 < 32 && 0 <= imm < 0x4000 && 0 <= rd < 32
    ensures var w := top * 0x100_0000 + b40 * 0x8_0000 + imm * 32 + rd;
            0 <= w < 0x1_0000_0000 && Top8(w) == top && B40(w) == b40 && Imm14(w) == imm && Rd(w) == rd
  {
    var w := top * 0x100_0000 + b40 * 0x8_0000 + imm * 32 + rd;
    var low := imm * 32 + rd;
    DivModUnique(w, 0x100_0000, top, b40 * 0x8_0000 + low);
    DivModUnique(w, 0x8_0000, top * 32 + b40, low);
    DivModUnique(w / 0x8_0000, 32, top, b40);
    DivModUnique(w, 32, top * 0x8_0000 + b40 * 0x4000 + imm, rd);
    DivModUnique(w / 32, 0x4000, top * 32 + b40, imm);
  }

  lemma FieldsOf16(hi: int, imm: int, rd: int)
    requires 0 <= hi < 2048 && 0 <= imm < 0x1_0000 && 0 <= rd < 32
    ensures var w := hi * 0x20_0000 + imm * 32 + rd;
            0 <= w < 0x1_0000_0000 && w / 0x20_0000 == hi && Imm16(w) == imm && Rd(w) == rd
  {
    var w := hi * 0x20_0000 + imm * 32 + rd;
    DivModUnique(w, 0x20_0000, hi, imm * 32 + rd);
    DivModUnique(w, 32, hi * 0x1_0000 + imm, rd);
    DivModUnique(w / 32, 0x1_0000, hi, imm);
  }

  // ----- sign extension and the codecs

  /**
    SignExtend(x, M, 64) for x < 2^M, with half = 2^(M-1): when bit M-1 is set, every bit from M
    up is set too, which as a signed 64-bit integer subtracts 2^M.
   */
  function SignExtend(x: int, half: int): (r: int)
    requires 0 < half && 0 <= x < 2 * half
  {
    if x >= half then x - 2 * half else x
  }

  function DecodeImm14Offset(w: u32): int { SignExtend(Imm14(w) * 4, 0x8000) }
  function EncodeImm14Offset(w: u32, offset: int): u32 { SetImm14(w, offset / 4 % 0x4000) }

  function DecodeImm19Offset(w: u32): int { SignExtend(Imm19(w) * 4, 0x10_0000) }
  function EncodeImm19Offset(w: u32, offset: int): u32 { SetImm19(w, offset / 4 % 0x8_0000) }

  function DecodeImm26Offset(w: u32): int { SignExtend(Imm26(w) * 4, 0x800_0000) }
  function EncodeImm26Offset(w: u32, offset: int): u32 { SetImm26(w, offset / 4 % 0x400_0000) }

  function Immlo(w: u32): u2 { w / 0x2000_0000 % 4 }
  /** bits 24..28 together with bit 31: what ADR and ADRP keep besides the immediate and Rd */
  function AdrOp(w: u32): (int, int) { (w / 0x8000_0000, Top8(w) % 32) }

  function DecodeImmhiImmloOffset(w: u32): int { SignExtend(Immlo(w) + Imm19(w) * 4, 0x10_0000) }

  /** The two bit-field assignments keep the low 2 and 19 bits of what is stored in them. */
  function EncodeImmhiImmloOffset(w: u32, offset: int): u32
  {
    var immlo, immhi := offset % 8 % 4, offset / 4 % 0x10_0000 % 0x8_0000;
    AdrInRange(w, immlo, immhi);
    w - Immlo(w) * 0x2000_0000 + immlo * 0x2000_0000 - Imm19(w) * 32 + immhi * 32
  }

  lemma AdrInRange(w: u32, immlo: int, immhi: int)
    requires 0 <= immlo < 4 && 0 <= immhi < 0x8_0000
    ensures 0 <= w - Immlo(w) * 0x2000_0000 + immlo * 0x2000_0000 - Imm19(w) * 32 + immhi * 32 < 0x1_0000_0000
  {
    hide Imm19, Rd;
    Top8Parts(w);
    Top8Imm19Rd(w);
    TopHalf(w);
  }

  lemma TopHalf(w: u32)
    ensures 0 <= w / 0x8000_0000 < 2
  {
  }

  lemma Top6(w: u32)
    ensures w / 0x400_0000 == Top8(w) / 4
  {
    DivDiv(w, 0x100_0000, 4);
  }

  lemma Top8Parts(w: u32)
    ensures Top8(w) == (w / 0x8000_0000) * 128 + Immlo(w) * 32 + Top8(w) % 32
  {
    DivDiv(w, 0x100_0000, 32);
    DivDiv(w, 0x2000_0000, 4);
  }

  function DecodeImmhiImmloZero12Offset(w: u32): int { DecodeImmhiImmloOffset(w) * 0x1000 }
  function EncodeImmhiImmloZero12Offset(w: u32, offset: int): u32 { EncodeImmhiImmloOffset(w, offset / 0x1000) }

  // ----- the codecs are inverse exactly on the encodable offsets

  /** Reducing and extending gives back exactly the numbers in the signed range. */
  lemma ExtendsBack(q: int, half: int)
    requires half > 0
    ensures SignExtend(q % (2 * half), half) == q <==> -half <= q < half
  {
    if 0 <= q < half {
      DivModUnique(q, 2 * half, 0, q);
    } else if -half <= q < 0 {
      DivModUnique(q, 2 * half, -1, q + 2 * half);
    }
  }

  /** So it is for offsets of whole words, which the fields hold in quarters. */
  lemma QuarterRoundTrip(offset: int, half: int)
    requires half > 0
    ensures 0 <= offset / 4 % (2 * half) < 2 * half
    ensures SignExtend(offset / 4 % (2 * half) * 4, 4 * half) == offset
            <==> offset % 4 == 0 && -4 * half <= offset < 4 * half
  {
    ExtendsBack(offset / 4, half);
  }

  lemma QuarterReencode(imm: nat, half: nat)
    requires imm < 2 * half
    ensures SignExtend(imm * 4, 4 * half) / 4 % (2 * half) == imm
  {
    var q := SignExtend(imm, half);
    assert SignExtend(imm * 4, 4 * half) == 4 * q;
    DivModUnique(q, 2 * half, if imm >= half then -1 else 0, imm);
  }

  /** What the field assignments leave in each field. */
  lemma SetImm14Fields(w: u32, v: nat)
    requires v < 0x4000
    ensures var e := SetImm14(w, v); Imm14(e) == v && Top8(e) == Top8(w) && B40(e) == B40(w) && Rd(e) == Rd(w)
    ensures 0 <= Imm14(w) < 0x4000 && (v == Imm14(w) ==> SetImm14(w, v) == w)
  {
    hide Top8, B40, Rd;
    Top8B40Imm14Rd(w);
    FieldsOf14(Top8(w), B40(w), v, Rd(w));
  }

  lemma SetImm19Fields(w: u32, v: nat)
    requires v < 0x8_0000
    ensures var e := SetImm19(w, v); Imm19(e) == v && Top8(e) == Top8(w) && Rd(e) == Rd(w)
    ensures 0 <= Imm19(w) < 0x8_0000 && (v == Imm19(w) ==> SetImm19(w, v) == w)
  {
    hide Top8, Rd;
    Top8Imm19Rd(w);
    FieldsOf19(Top8(w), v, Rd(w));
  }

  lemma Imm14RoundTrip(w: u32, offset: int)
    ensures DecodeImm14Offset(EncodeImm14Offset(w, offset)) == offset <==> offset % 4 == 0 && -0x8000 <= offset < 0x8000
    ensures EncodeImm14Offset(w, DecodeImm14Offset(w)) == w
    ensures var e := EncodeImm14Offset(w, offset); Top8(e) == Top8(w) && B40(e) == B40(w) && Rd(e) == Rd(w)
  {
    hide Top8, B40, Rd, Imm14, SetImm14, SignExtend;
    QuarterRoundTrip(offset, 0x2000);
    SetImm14Fields(w, offset / 4 % 0x4000);
    QuarterReencode(Imm14(w), 0x2000);
    SetImm14Fields(w, Imm14(w));
  }

  lemma Imm19RoundTrip(w: u32, offset: int)
    ensures DecodeImm19Offset(EncodeImm19Offset(w, offset)) == offset <==>
              offset % 4 == 0 && -0x10_0000 <= offset < 0x10_0000
    ensures EncodeImm19Offset(w, DecodeImm19Offset(w)) == w
    ensures var e := EncodeImm19Offset(w, offset); Top8(e) == Top8(w) && Rd(e) == Rd(w)
  {
    hide Top8, Rd, Imm19, SetImm19, SignExtend;
    QuarterRoundTrip(offset, 0x4_0000);
    SetImm19Fields(w, offset / 4 % 0x8_0000);
    QuarterReencode(Imm19(w), 0x4_0000);
    SetImm19Fields(w, Imm19(w));
  }

  lemma Imm26RoundTrip(w: u32, offset: int)
    ensures DecodeImm26Offset(EncodeImm26Offset(w, offset)) == offset
            <==> offset % 4 == 0 && -0x800_0000 <= offset < 0x800_0000
    ensures EncodeImm26Offset(w, DecodeImm26Offset(w)) == w
    ensures EncodeImm26Offset(w, offset) / 0x400_0000 == w / 0x400_0000
  {
    hide SignExtend;
    var top, v := w / 0x400_0000, offset / 4 % 0x400_0000;
    QuarterRoundTrip(offset, 0x200_0000);
    QuarterReencode(Imm26(w), 0x200_0000);
    assert EncodeImm26Offset(w, offset) == top * 0x400_0000 + v;
    DivModUnique(top * 0x400_0000 + v, 0x400_0000, top, v);
  }

  lemma AdrRoundTrip(w: u32, offset: int)
    ensures DecodeImmhiImmloOffset(EncodeImmhiImmloOffset(w, offset)) == offset <==> -0x10_0000 <= offset < 0x10_0000
    ensures EncodeImmhiImmloOffset(w, DecodeImmhiImmloOffset(w)) == w
    ensures var e := EncodeImmhiImmloOffset(w, offset); AdrOp(e) == AdrOp(w) && Rd(e) == Rd(w)
  {
    AdrDecoded(w, offset);
    SignExtend21(offset);
    AdrFields(w, offset);
    AdrReencode(w);
  }

  lemma AdrDecoded(w: u32, offset: int)
    ensures DecodeImmhiImmloOffset(EncodeImmhiImmloOffset(w, offset)) == SignExtend(offset % 0x20_0000, 0x10_0000)
  {
    AdrFields(w, offset);
    SplitImm21(offset);
  }

  lemma SignExtend21(x: int)
    ensures SignExtend(x % 0x20_0000, 0x10_0000) == x <==> -0x10_0000 <= x < 0x10_0000
  {
  }

  lemma AdrReencode(w: u32)
    ensures EncodeImmhiImmloOffset(w, DecodeImmhiImmloOffset(w)) == w
  {
    var imm := Immlo(w) + Imm19(w) * 4;
    var d := DecodeImmhiImmloOffset(w);
    var sign := if imm >= 0x10_0000 then -1 else 0;
    DivModUnique(d, 4, Imm19(w) + sign * 0x8_0000, Immlo(w));
    DivModUnique(d / 4, 0x8_0000, sign, Imm19(w));
    AdrFields(w, d);
    AdrWord(w);
  }

  lemma SplitImm21(offset: int)
    ensures offset % 0x20_0000 == offset % 4 + offset / 4 % 0x8_0000 * 4
    ensures offset % 8 % 4 == offset % 4 && offset / 4 % 0x10_0000 % 0x8_0000 == offset / 4 % 0x8_0000
  {
    var q, r := offset / 4, offset % 4;
    var p, s := q / 0x8_0000, q % 0x8_0000;
    assert q == p * 0x8_0000 + s;
    Uniq(offset, p, 4 * s + r);
    HalfOfMod(q);
    EighthOfMod(offset);
  }

  lemma HalfOfMod(q: int)
    ensures q % 0x10_0000 % 0x8_0000 == q % 0x8_0000
  {
  }

  lemma EighthOfMod(x: int)
    ensures x % 8 % 4 == x % 4
  {
  }

  lemma Uniq(x: int, p: int, r: int)
    requires 0 <= r < 0x20_0000 && x == p * 0x20_0000 + r
    ensures x % 0x20_0000 == r
  {
  }

  function AdrSum(op: int, immlo: int, fixed: int, immhi: int, rd: int): int
  {
    (op * 128 + immlo * 32 + fixed) * 0x100_0000 + immhi * 32 + rd
  }

  lemma AdrWord(w: u32)
    ensures w == AdrSum(w / 0x8000_0000, Immlo(w), Top8(w) % 32, Imm19(w), Rd(w))
  {
    Top8Imm19Rd(w);
    Top8Parts(w);
  }

  lemma FieldsOfAdr(op: int, immlo: int, fixed: int, immhi: int, rd: int)
    requires 0 <= op < 2 && 0 <= immlo < 4 && 0 <= fixed < 32 && 0 <= immhi < 0x8_0000 && 0 <= rd < 32
    ensures var w := AdrSum(op, immlo, fixed, immhi, rd);
            && 0 <= w < 0x1_0000_0000 && w / 0x8000_0000 == op && Immlo(w) == immlo
            && Top8(w) % 32 == fixed && Imm19(w) == immhi && Rd(w) == rd
  {
    var top := op * 128 + immlo * 32 + fixed;
    FieldsOf19(top, immhi, rd);
    var w: u32 := AdrSum(op, immlo, fixed, immhi, rd);
    DivDiv(w, 0x100_0000, 32);
    DivDiv(w, 0x100_0000, 128);
    DivModUnique(top, 32, op * 4 + immlo, fixed);
    DivModUnique(op * 4 + immlo, 4, op, immlo);
    DivModUnique(top, 128, op, immlo * 32 + fixed);
  }

  /** What the ADR encoder leaves in each field. */
  lemma AdrFields(w: u32, offset: int)
    ensures var e := EncodeImmhiImmloOffset(w, offset);
            && Immlo(e) == offset % 4 && Imm19(e) == offset / 4 % 0x8_0000
            && AdrOp(e) == AdrOp(w) && Rd(e) == Rd(w)
            && e == AdrSum(w / 0x8000_0000, offset % 4, Top8(w) % 32, offset / 4 % 0x8_0000, Rd(w))
  {
    AdrWord(w);
    SplitImm21(offset);
    FieldsOfAdr(w / 0x8000_0000, offset % 4, Top8(w) % 32, offset / 4 % 0x8_0000, Rd(w));
  }

  lemma AdrpRoundTrip(w: u32, offset: int)
    ensures DecodeImmhiImmloZero12Offset(EncodeImmhiImmloZero12Offset(w, offset)) == offset
            <==> offset % 0x1000 == 0 && -0x1_0000_0000 <= offset < 0x1_0000_0000
    ensures EncodeImmhiImmloZero12Offset(w, DecodeImmhiImmloZero12Offset(w)) == w
  {
    AdrRoundTrip(w, offset / 0x1000);
    assert DecodeImmhiImmloZero12Offset(w) / 0x1000 == DecodeImmhiImmloOffset(w);
    var d := DecodeImmhiImmloOffset(EncodeImmhiImmloOffset(w, offset / 0x1000));
    assert d * 0x1000 == offset <==> offset % 0x1000 == 0 && d == offset / 0x1000;
  }

  // ----- pages

  function TruncPage(x: u64): u64 { x - x % 0x1000 }

  lemma WrapPage(p: int, low: nat)
    requires low < 0x1000
    ensures var x := Wrap(p * 0x1000 + low); x % 0x1000 == low && x - low == p % 0x10_0000_0000_0000 * 0x1000
  {
    DivModUnique(p * 0x1000 + low, 0x1000, p, low);
    DivDiv(p * 0x1000 + low, 0x1000, 0x10_0000_0000_0000);
    DivModUnique(Wrap(p * 0x1000 + low), 0x1000, p % 0x10_0000_0000_0000, low);
  }

  /** Truncating pc + immediate to a page is the page of pc plus the immediate. */
  lemma TruncPageOfSum(pc: u64, imm: int)
    requires imm % 0x1000 == 0
    ensures TruncPage(Wrap(pc + imm)) == Wrap(TruncPage(pc) + imm)
  {
    var p, low := pc / 0x1000 + imm / 0x1000, pc % 0x1000;
    WrapPage(p, low);
    WrapPage(p, 0);
    assert pc + imm == p * 0x1000 + low && TruncPage(pc) + imm == p * 0x1000;
  }
}
