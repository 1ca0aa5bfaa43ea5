/**
  The Thumb-2 branch offset: what the assembler emits for B (encoding T4) and BL (encoding T1), and how
  the relocator reads it back.
 */
module ThumbCodec {
  import opened Words

  type i32 = x: int | -0x8000_0000 <= x < 0x8000_0000
  type bit = x: int | 0 <= x < 2

  /** The two halfwords of an instruction. */
  datatype Pair = Pair(first: u16, second: u16)

  /** !(a ^ b) of two bits */
  function Xnor(a: bit, b: bit): bit { if a == b then 1 else 0 }

  /** ThumbAssembler::EmitThumb2Branch, for the condition AL */
  function EmitThumb2Branch(imm: i32, link: bool): Pair
  {
    var operand: u32 := Wrap32(imm / 2);
    var signbit: bit := if imm < 0 then 1 else 0;
    var i1, i2 := operand / 0x40_0000 % 2, operand / 0x20_0000 % 2;
    var imm10, imm11 := operand / 0x800 % 0x400, operand % 0x800;
    var j1, j2 := Xnor(i1, signbit), Xnor(i2, signbit);
    Pair(0xF000 + signbit * 0x400 + imm10, 0x9000 + (if link then 0x4000 else 0) + j1 * 0x2000 + j2 * 0x800 + imm11)
  }

  /** The relocator's test for the two encodings, on op3: bits 12 to 14 of the second halfword. */
  predicate IsB(p: Pair) { p.second / 0x1000 % 2 == 1 && p.second / 0x4000 % 2 == 0 }
  predicate IsBl(p: Pair) { p.second / 0x1000 % 2 == 1 && p.second / 0x4000 % 2 == 1 }

  /** SignExtend(x, 25, 32) */
  function SignExtend25(x: u32): i32
  {
    var bits := if x / 0x100_0000 % 2 == 1 then x % 0x200_0000 + 0xFE00_0000 else x;
    if bits < 0x8000_0000 then bits else bits - TWO32
  }

  /** The offset Thumb2RelocateSingleInsn reads from a B or BL. */
  function DecodeOffset(p: Pair): i32
  {
    var s, j1, j2 := p.first / 0x400 % 2, p.second / 0x2000 % 2, p.second / 0x800 % 2;
    var imm10, imm11 := p.first % 0x400, p.second % 0x800;
    var i1, i2 := Xnor(j1, s), Xnor(j2, s);
    SignExtend25(s * 0x100_0000 + i1 * 0x80_0000 + i2 * 0x40_0000 + imm10 * 0x1000 + imm11 * 2)
  }

  /** The halfwords of B T4 and BL T1. */
  predicate IsBranchForm(p: Pair) { p.first / 0x800 == 0x1E && p.second / 0x8000 == 1 && p.second / 0x1000 % 2 == 1 }

  /** The fields of the second halfword. */
  lemma SecondFields(link: bit, j1: bit, j2: bit, imm11: int)
    requires 0 <= imm11 < 0x800
    ensures var w := 0x9000 + link * 0x4000 + j1 * 0x2000 + j2 * 0x800 + imm11;
            && w < 0x1_0000 && w / 0x8000 == 1 && w / 0x4000 % 2 == link && w / 0x2000 % 2 == j1
            && w / 0x1000 % 2 == 1 && w / 0x800 % 2 == j2 && w % 0x800 == imm11
  {
  }

  lemma FirstFields(s: bit, imm10: int)
    requires 0 <= imm10 < 0x400
    ensures var w := 0xF000 + s * 0x400 + imm10;
            w < 0x1_0000 && w / 0x800 == 0x1E && w / 0x400 % 2 == s && w % 0x400 == imm10
  {
  }

  /** The offset in twos, taken apart and put together. */
  lemma OffsetFields(w: int)
    ensures var o := Wrap32(w);
            w % 0x80_0000 == o / 0x40_0000 % 2 * 0x40_0000 + o / 0x20_0000 % 2 * 0x20_0000
                + o / 0x800 % 0x400 * 0x800 + o % 0x800
  {
    LowBits(w);
    var o := Wrap32(w);
    var q, r := o / 0x800, o / 0x20_0000;
    DivDiv(o, 0x800, 0x1000);
    DivDiv(q, 0x400, 4);
    DivDiv(r, 2, 2);
    DivDiv(o, 0x800, 0x400);
    DivDiv(o, 0x20_0000, 2);
    assert o % 0x80_0000 == q % 0x1000 * 0x800 + o % 0x800;
    assert q % 0x1000 == q / 0x400 % 4 * 0x400 + q % 0x400;
  }

  lemma LowBits(w: int)
    ensures Wrap32(w) % 0x80_0000 == w % 0x80_0000
  {
  }

  lemma Extended(x: u32)
    requires x < 0x200_0000
    ensures SignExtend25(x) == if x < 0x100_0000 then x else x - 0x200_0000
  {
  }

  /** The halfwords of a branch with these fields: B if link is 0, BL if it is 1. */
  function Encoding(s: bit, link: bit, j1: bit, j2: bit, imm10: int, imm11: int): Pair
    requires 0 <= imm10 < 0x400 && 0 <= imm11 < 0x800
  {
    Pair(0xF000 + s * 0x400 + imm10, 0x9000 + link * 0x4000 + j1 * 0x2000 + j2 * 0x800 + imm11)
  }

  /** S:I1:I2:imm10:imm11:0 in twos complement */
  function Offset(s: bit, i1: bit, i2: bit, imm10: int, imm11: int): int
  {
    imm11 * 2 + imm10 * 0x1000 + i2 * 0x40_0000 + i1 * 0x80_0000 - s * 0x100_0000
  }

  /**
    What the encoding means (section F5 of the Arm Architecture Reference Manual): I1 and I2 are set exactly
    if J1 and J2 equal S. The tests tell B from BL.
   */
  lemma DecodesEncoding(s: bit, link: bit, j1: bit, j2: bit, imm10: int, imm11: int)
    requires 0 <= imm10 < 0x400 && 0 <= imm11 < 0x800
    ensures var p := Encoding(s, link, j1, j2, imm10, imm11);
            && DecodeOffset(p) == Offset(s, if j1 == s then 1 else 0, if j2 == s then 1 else 0, imm10, imm11)
            && IsBranchForm(p) && (IsB(p) <==> link == 0) && (IsBl(p) <==> link == 1)
  {
    hide SignExtend25, Encoding;
    EncodingIs(s, link, j1, j2, imm10, imm11);
    FirstFields(s, imm10);
    SecondFields(link, j1, j2, imm11);
    Extended(s * 0x100_0000 + Xnor(j1, s) * 0x80_0000 + Xnor(j2, s) * 0x40_0000 + imm10 * 0x1000 + imm11 * 2);
  }

  lemma EncodingIs(s: bit, link: bit, j1: bit, j2: bit, imm10: int, imm11: int)
    requires 0 <= imm10 < 0x400 && 0 <= imm11 < 0x800
    ensures var p := Encoding(s, link, j1, j2, imm10, imm11);
            p.first == 0xF000 + s * 0x400 + imm10
            && p.second == 0x9000 + link * 0x4000 + j1 * 0x2000 + j2 * 0x800 + imm11
  {
  }

  /** Every pair of the form of B or BL is such an encoding. */
  lemma FormEncodes(p: Pair)
    requires IsBranchForm(p)
    ensures p == Encoding(p.first / 0x400 % 2, p.second / 0x4000 % 2, p.second / 0x2000 % 2, p.second / 0x800 % 2,
                          p.first % 0x400, p.second % 0x800)
  {
    assert p.first == 0x1E * 0x800 + p.first / 0x400 % 2 * 0x400 + p.first % 0x400;
    var w := p.second;
    assert w / 0x4000 == 2 + w / 0x4000 % 2;
    assert w / 0x2000 == 2 * (w / 0x4000) + w / 0x2000 % 2;
    assert w / 0x1000 == 2 * (w / 0x2000) + 1;
    assert w / 0x800 == 2 * (w / 0x1000) + w / 0x800 % 2;
  }

  /** Every even 25-bit offset has such fields. */
  lemma OffsetOfFields(imm: i32)
    requires -0x100_0000 <= imm < 0x100_0000 && imm % 2 == 0
    ensures imm == Offset(if imm < 0 then 1 else 0, imm / 0x80_0000 % 2, imm / 0x40_0000 % 2, imm / 0x1000 % 0x400,
                          imm / 2 % 0x800)
  {
    var a, b, c := imm / 0x1000, imm / 0x40_0000, imm / 0x80_0000;
    assert imm == a * 0x1000 + imm / 2 % 0x800 * 2;
    assert a == b * 0x400 + a % 0x400;
    assert b == c * 2 + b % 2;
    assert c == c % 2 - if imm < 0 then 2 else 0;
  }

  /** What the tests look at: bit 12, which is set for both, and bit 14. */
  lemma BranchTests(p: Pair, high: bit, b14: bit, b13: bit, b12: bit, rest: int)
    requires 0 <= rest < 0x1000 && p.second == high * 0x8000 + b14 * 0x4000 + b13 * 0x2000 + b12 * 0x1000 + rest
    ensures (IsB(p) <==> b12 == 1 && b14 == 0) && (IsBl(p) <==> b12 == 1 && b14 == 1)
  {
    assert p.second / 0x1000 == high * 8 + b14 * 4 + b13 * 2 + b12;
    assert p.second / 0x4000 == high * 2 + b14;
  }

  /** The fields of half an offset. */
  lemma HalfFields(high: nat, i1: bit, i2: bit, imm10: int, imm11: int)
    requires 0 <= imm10 < 0x400 && 0 <= imm11 < 0x800
    ensures var o := high * 0x80_0000 + i1 * 0x40_0000 + i2 * 0x20_0000 + imm10 * 0x800 + imm11;
            && o / 0x40_0000 % 2 == i1 && o / 0x20_0000 % 2 == i2 && o / 0x800 % 0x400 == imm10 && o % 0x800 == imm11
  {
    var b: nat := high * 2 + i1;
    var a: nat := b * 2 + i2;
    DivModUnique(a * 0x400 + imm10, 0x400, a, imm10);
    DivModUnique(a, 2, b, i2);
    DivModUnique(b, 2, high, i1);
    Quotients(a, imm10, imm11);
  }

  lemma Quotients(a: nat, imm10: int, imm11: int)
    requires 0 <= imm10 < 0x400 && 0 <= imm11 < 0x800
    ensures var o := a * 0x20_0000 + imm10 * 0x800 + imm11;
            o % 0x800 == imm11 && o / 0x800 == a * 0x400 + imm10 && o / 0x20_0000 == a && o / 0x40_0000 == a / 2
  {
    var o := a * 0x20_0000 + imm10 * 0x800 + imm11;
    DivModUnique(o, 0x800, a * 0x400 + imm10, imm11);
    DivModUnique(o, 0x20_0000, a, imm10 * 0x800 + imm11);
    DivModUnique(o, 0x40_0000, a / 2, a % 2 * 0x20_0000 + imm10 * 0x800 + imm11);
  }

  /** What is emitted for the offset with these fields: J1 and J2 are set exactly if I1 and I2 equal S. */
  lemma EmitsEncoding(s: bit, i1: bit, i2: bit, imm10: int, imm11: int, link: bool)
    requires 0 <= imm10 < 0x400 && 0 <= imm11 < 0x800
    ensures EmitThumb2Branch(Offset(s, i1, i2, imm10, imm11), link)
            == Encoding(s, if link then 1 else 0, if i1 == s then 1 else 0, if i2 == s then 1 else 0, imm10, imm11)
  {
    var imm: i32 := Offset(s, i1, i2, imm10, imm11);
    assert imm < 0 <==> s == 1;
    HalfFields(if s == 1 then 0x1FF else 0, i1, i2, imm10, imm11);
    HalfOffset(s, i1, i2, imm10, imm11);
  }

  lemma HalfOffset(s: bit, i1: bit, i2: bit, imm10: int, imm11: int)
    requires 0 <= imm10 < 0x400 && 0 <= imm11 < 0x800
    ensures Wrap32(Offset(s, i1, i2, imm10, imm11) / 2)
            == (if s == 1 then 0x1FF else 0) * 0x80_0000 + i1 * 0x40_0000 + i2 * 0x20_0000 + imm10 * 0x800 + imm11
  {
    assert Offset(s, i1, i2, imm10, imm11) / 2
           == i1 * 0x40_0000 + i2 * 0x20_0000 + imm10 * 0x800 + imm11 - s * 0x80_0000;
  }

  /** Both are set for every offset of at most 23 signed bits. */
  lemma NearBranch(imm: i32, link: bool)
    requires -0x40_0000 <= imm < 0x40_0000
    ensures EmitThumb2Branch(imm, link).second / 0x2000 % 2 == 1 && EmitThumb2Branch(imm, link).second / 0x800 % 2 == 1
  {
  }

  /** Decoding gives back the low 24 bits of the offset under its sign, without the lowest one. */
  lemma DecodedOffset(imm: i32, link: bool)
    ensures DecodeOffset(EmitThumb2Branch(imm, link)) == imm / 2 % 0x80_0000 * 2 - (if imm < 0 then 0x100_0000 else 0)
  {
    hide DecodeOffset, Wrap32;
    var operand: u32 := Wrap32(imm / 2);
    var s: bit := if imm < 0 then 1 else 0;
    var i1, i2 := operand / 0x40_0000 % 2, operand / 0x20_0000 % 2;
    var imm10, imm11 := operand / 0x800 % 0x400, operand % 0x800;
    OffsetFields(imm / 2);
    assert Xnor(Xnor(i1, s), s) == i1 && Xnor(Xnor(i2, s), s) == i2;
    DecodesEncoding(s, if link then 1 else 0, Xnor(i1, s), Xnor(i2, s), imm10, imm11);
  }

  /** The decoder inverts the assembler on exactly the even 25-bit offsets, and tells B from BL. */
  lemma BranchRoundTrip(imm: i32, link: bool)
    ensures var p := EmitThumb2Branch(imm, link);
            && IsBranchForm(p) && (if link then IsBl(p) else IsB(p))
            && (DecodeOffset(p) == imm <==> imm % 2 == 0 && -0x100_0000 <= imm < 0x100_0000)
  {
    hide DecodeOffset;
    DecodedOffset(imm, link);
    BranchForm(imm, link);
  }

  lemma BranchForm(imm: i32, link: bool)
    ensures var p := EmitThumb2Branch(imm, link); IsBranchForm(p) && (if link then IsBl(p) else IsB(p))
  {
    var operand: u32 := Wrap32(imm / 2);
    var s: bit := if imm < 0 then 1 else 0;
    FirstFields(s, operand / 0x800 % 0x400);
    SecondFields(if link then 1
        else 0, Xnor(operand / 0x40_0000 % 2, s), Xnor(operand / 0x20_0000 % 2, s), operand % 0x800);
  }
}
