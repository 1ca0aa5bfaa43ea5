/**
  Relocated A64 code simulates the instructions it was made from.
 */
module Arm64Simulation {
  import opened Words
  import opened Arm64Codec
  import opened Arm64Isa
  import opened Arm64Emit
  import opened Arm64Relocation

  /** code sits in memory at dst */
  ghost predicate Loaded(mem: u64 -> u32, dst: u64, code: seq<u32>)
  {
    && dst + 4 * |code| <= TWO64
    && forall k :: 0 <= k < |code| ==> mem(Wrap(dst + 4 * k)) == code[k]
  }

  /** Equal states, except for the program counter and the scratch register. */
  ghost predicate Same(s: State, t: State)
  {
    && SameButLink(s, t)
    && s.x[30] == t.x[30]
  }

  ghost predicate SameButLink(s: State, t: State)
  {
    && s.sp == t.sp && s.v == t.v && s.flags == t.flags && s.sys == t.sys && s.mem == t.mem
    && forall r :: 0 <= r < 30 && r != TMP ==> s.x[r] == t.x[r]
  }

  // ----- what the emitted words decode to

  lemma DecodePatchedLoad(d: nat)
    requires d < 0x4_0000
    ensures Decode(PatchedLoad(d)) == LdrLiteral(false, 1, TMP, 4 * d)
  {
    Imm19RoundTrip(LDR_TMP, 4 * d);
    FieldsOf19(0x58, 0, TMP);
    var w := PatchedLoad(d);
    assert Top8(w) == 0x58;
    Top6(w);
  }

  lemma DecodeMov(rd: u5, imm: u16, hw: u2)
    ensures Decode(MovZWord(rd, imm, hw)) == MovZ(rd, imm, hw)
    ensures Decode(MovKWord(rd, imm, hw)) == MovK(rd, imm, hw)
  {
    hide Decode;
    DecodeMovTop(0x694 + hw, rd, imm);
    DecodeMovTop(0x794 + hw, rd, imm);
    assert MovZWord(rd, imm, hw) == (0x694 + hw) * 0x20_0000 + imm * 32 + rd;
    assert MovKWord(rd, imm, hw) == (0x794 + hw) * 0x20_0000 + imm * 32 + rd;
    assert (0x694 + hw) % 4 == hw && (0x794 + hw) % 4 == hw;
  }

  lemma DecodeMovTop(hi: int, rd: u5, imm: u16)
    requires 0x694 <= hi < 0x698 || 0x794 <= hi < 0x798
    ensures var w := hi * 0x20_0000 + imm * 32 + rd;
            Decode(w) == if hi < 0x698 then MovZ(rd, imm, hi % 4) else MovK(rd, imm, hi % 4)
  {
    FieldsOf16(hi, imm, rd);
    var w: u32 := hi * 0x20_0000 + imm * 32 + rd;
    DivDiv(w, 0x20_0000, 32);
    DivDiv(w, 0x20_0000, 8);
    DivDiv(w, 0x20_0000, 4);
    DecodeMovFields(w);
  }

  lemma DecodeMovFields(w: u32)
    requires (Top8(w) == 0xD2 && w / 0x400_0000 == 0x34 && w / 0x80_0000 == 0x1A5)
             || (Top8(w) == 0xF2 && w / 0x400_0000 == 0x3C && w / 0x80_0000 == 0x1E5)
    ensures Decode(w) == if Top8(w) == 0xD2 then MovZ(Rd(w), Imm16(w), w / 0x20_0000 % 4)
                         else MovK(Rd(w), Imm16(w), w / 0x20_0000 % 4)
  {
    hide Top8, Rd, Imm14, Imm16, Imm19, Imm26, B40, Immlo, SignExtend;
  }

  lemma DecodeRegisterForms(rt: u5, rn: u5)
    requires rn != 31
    ensures Decode(LdrXWord(rt, rn)) == LdrX(rt, rn)
    ensures Decode(BrWord(rn)) == Br(rn)
    ensures Decode(BlrWord(rn)) == Blr(rn)
  {
    hide Decode, Top8, Rd, SignExtend;
    DecodeHigh(0x3E_5000, rn, rt);
    DecodeHigh(0x35_87C0, rn, 0);
    DecodeHigh(0x35_8FC0, rn, 0);
  }

  lemma DecodeHigh(hi: int, rn: u5, rt: u5)
    requires hi == 0x3E_5000 || (rt == 0 && (hi == 0x35_87C0 || hi == 0x35_8FC0))
    requires rn != 31
    ensures var w := hi * 0x400 + rn * 32 + rt;
            Decode(w) == if hi == 0x3E_5000 then LdrX(rt, rn) else if hi == 0x35_87C0 then Br(rn) else Blr(rn)
  {
    var w: u32 := hi * 0x400 + rn * 32 + rt;
    DivModUnique(w, 0x400, hi, rn * 32 + rt);
    DivModUnique(w, 32, hi * 32 + rn, rt);
    DivModUnique(w / 32, 32, hi, rn);
    DivDiv(w, 0x400, 0x1_0000);
    DivDiv(w, 0x400, 0x4000);
    DivDiv(w, 0x400, 0x2000);
    DecodeHighFields(w);
  }

  lemma DecodeHighFields(w: u32)
    requires w / 32 % 32 != 31
    requires (w / 0x400 == 0x3E_5000 && Top8(w) == 0xF9 && w / 0x400_0000 == 0x3E && w / 0x80_0000 == 0x1F2)
             || ((w / 0x400 == 0x35_87C0 || w / 0x400 == 0x35_8FC0) && Rd(w) == 0
                 && Top8(w) == 0xD6 && w / 0x400_0000 == 0x35 && w / 0x80_0000 == 0x1AC)
    ensures Decode(w) == if w / 0x400 == 0x3E_5000 then LdrX(Rd(w), w / 32 % 32)
                         else if w / 0x400 == 0x35_87C0 then Br(w / 32 % 32) else Blr(w / 32 % 32)
  {
    hide Top8, Rd, Imm14, Imm16, Imm19, Imm26, B40, Immlo, SignExtend;
  }

  lemma DecodeCondForm(imm: int, low: u5)
    requires 0 <= imm < 0x8_0000
    ensures Decode(0x5400_0000 + imm * 32 + low) == BCond(low % 16, SignExtend(imm * 4, 0x10_0000))
  {
    FieldsOf19(0x54, imm, low);
    var w: u32 := 0x5400_0000 + imm * 32 + low;
    Top6(w);
    DivModUnique(w, 16, 0x540_0000 + imm * 2 + low / 16, low % 16);
  }

  lemma LowFour(w: u32)
    ensures Rd(w) == Rd(w) / 16 * 16 + w % 16
  {
    DivDiv(w, 16, 2);
    DivModUnique(Rd(w), 16, w / 16 % 2, w % 16);
  }

  /** Inverting a conditional branch keeps everything but the condition and the offset. */
  lemma DecodeInvertedBCond(w: u32)
    requires Top8(w) == 0x54
    ensures Decode(InvertedBCond(w)) == BCond(XorOne(w % 16), 12)
  {
    hide Decode;
    Top8Imm19Rd(w);
    var c := XorOne(w % 16);
    var low: u5 := Rd(w) / 16 * 16 + c;
    LowFour(w);
    assert SetCond(w, c) == 0x5400_0000 + Imm19(w) * 32 + low;
    FieldsOf19(0x54, Imm19(w), low);
    DecodeCondForm(3, low);
  }

  lemma DecodeCompareForm(top: int, imm: int, rt: int)
    requires 0 <= top < 256 && top % 128 / 2 == 0x1A && 0 <= imm < 0x8_0000 && 0 <= rt < 32
    ensures Decode(top * 0x100_0000 + imm * 32 + rt)
            == CompareBranch(top / 128 == 1, top % 2 == 1, rt, SignExtend(imm * 4, 0x10_0000))
  {
    hide Top8, Rd, Imm14, Imm16, Imm19, Imm26, B40, Immlo, SignExtend;
    FieldsOf19(top, imm, rt);
    Top6(top * 0x100_0000 + imm * 32 + rt);
  }

  lemma FlipLow(t: int)
    requires 0 <= t < 256
    ensures var top := t - t % 2 + XorOne(t % 2);
            0 <= top < 256 && top / 128 == t / 128 && top % 128 / 2 == t % 128 / 2 && top % 2 == 1 - t % 2
  {
    LowBit(t / 2, t % 2);
    LowBit(t / 2, 1 - t % 2);
  }

  lemma LowBit(h: nat, b: nat)
    requires b < 2
    ensures var t := 2 * h + b; t / 128 == h / 64 && t % 128 / 2 == h % 64 && t % 2 == b
  {
    DivModUnique(2 * h + b, 2, h, b);
    DivDiv(2 * h + b, 2, 64);
    DivModUnique((2 * h + b) % 128, 2, h % 64, b);
  }

  lemma DecodeInvertedCompareB(w: u32)
    requires InstIsCompareB(w)
    ensures Decode(w) == CompareBranch(Top8(w) / 128 == 1, Top8(w) % 2 == 1, Rd(w), DecodeImm19Offset(w))
    ensures Decode(InvertedCompareB(w)) == CompareBranch(Top8(w) / 128 == 1, Top8(w) % 2 != 1, Rd(w), 12)
  {
    hide Decode, Top8, Rd;
    Top8Imm19Rd(w);
    FlipLow(Top8(w));
    var top := Top8(w) - Top8(w) % 2 + XorOne(Top8(w) % 2);
    var w1 := SetBit24(w, XorOne(Top8(w) % 2));
    assert w1 == top * 0x100_0000 + Imm19(w) * 32 + Rd(w);
    FieldsOf19(top, Imm19(w), Rd(w));
    assert InvertedCompareB(w) == top * 0x100_0000 + 3 * 32 + Rd(w);
    DecodeCompareForm(Top8(w), Imm19(w), Rd(w));
    DecodeCompareForm(top, 3, Rd(w));
  }

  lemma DecodeTestForm(top: int, b40: int, imm: int, rt: int)
    requires 0 <= top < 256 && top % 128 / 2 == 0x1B && 0 <= b40 < 32 && 0 <= imm < 0x4000 && 0 <= rt < 32
    ensures Decode(top * 0x100_0000 + b40 * 0x8_0000 + imm * 32 + rt)
            == TestBranch(top % 2 == 1, top / 128 * 32 + b40, rt, SignExtend(imm * 4, 0x8000))
  {
    hide Top8, Rd, Imm14, Imm16, Imm19, Imm26, B40, Immlo, SignExtend;
    FieldsOf14(top, b40, imm, rt);
    Top6(top * 0x100_0000 + b40 * 0x8_0000 + imm * 32 + rt);
  }

  lemma DecodeInvertedTestB(w: u32)
    requires InstIsTestB(w)
    ensures Decode(w) == TestBranch(Top8(w) % 2 == 1, Top8(w) / 128 * 32 + B40(w), Rd(w), DecodeImm14Offset(w))
    ensures Decode(InvertedTestB(w)) == TestBranch(Top8(w) % 2 != 1, Top8(w) / 128 * 32 + B40(w), Rd(w), 12)
  {
    hide Decode, Top8, B40, Rd;
    Top8B40Imm14Rd(w);
    FlipLow(Top8(w));
    var top := Top8(w) - Top8(w) % 2 + XorOne(Top8(w) % 2);
    var w1 := SetBit24(w, XorOne(Top8(w) % 2));
    assert w1 == top * 0x100_0000 + B40(w) * 0x8_0000 + Imm14(w) * 32 + Rd(w);
    FieldsOf14(top, B40(w), Imm14(w), Rd(w));
    assert InvertedTestB(w) == top * 0x100_0000 + B40(w) * 0x8_0000 + 3 * 32 + Rd(w);
    DecodeTestForm(Top8(w), B40(w), Imm14(w), Rd(w));
    DecodeTestForm(top, B40(w), 3, Rd(w));
  }

  // ----- running the emitted sequences

  lemma LanesCompose(imm: u64)
    ensures SetLane(SetLane(SetLane(Lane(imm, 0), 1, Lane(imm, 1)), 2, Lane(imm, 2)), 3, Lane(imm, 3)) == imm
  {
    hide SetLane, Lane;
    var a: int, b: int, c: int, d: int := Lane(imm, 0), Lane(imm, 1), Lane(imm, 2), Lane(imm, 3);
    LanesSum(imm);
    SetHighLane(a, 1, b);
    SetHighLane(a + b * 0x1_0000, 2, c);
    SetHighLane(a + b * 0x1_0000 + c * 0x1_0000_0000, 3, d);
  }

  lemma LanesSum(imm: u64)
    ensures imm == Lane(imm, 0) + Lane(imm, 1) * 0x1_0000 + Lane(imm, 2) * 0x1_0000_0000
            + Lane(imm, 3) * 0x1_0000_0000_0000
  {
    DivDiv(imm, 0x1_0000, 0x1_0000);
    DivDiv(imm, 0x1_0000_0000, 0x1_0000);
  }

  lemma SetHighLane(x: u64, hw: u2, imm: u16)
    requires 1 <= hw && x < Pow16(hw)
    ensures SetLane(x, hw, imm) == x + InLane(imm, hw)
  {
    assert x / Pow16(hw) == 0;
  }

  lemma ExecMov(plain: PlainSem, t: State, rd: u5, imm: u16, hw: u2)
    ensures Exec(plain, MovZWord(rd, imm, hw), t) == t.SetX(rd, InLane(imm, hw)).(pc := Wrap(t.pc + 4))
    ensures Exec(plain, MovKWord(rd, imm, hw), t) == t.SetX(rd, SetLane(t.X(rd), hw, imm)).(pc := Wrap(t.pc + 4))
  {
    hide Decode;
    DecodeMov(rd, imm, hw);
  }

  /** The four words of `Mov(rd, imm)` at t.pc load imm into rd and touch nothing else. */
  lemma MovRuns(plain: PlainSem, t: State, rd: u5, imm: u64)
    requires t.pc + 16 <= TWO64
    requires t.mem(t.pc) == MovZWord(rd, Lane(imm, 0), 0)
    requires t.mem(t.pc + 4) == MovKWord(rd, Lane(imm, 1), 1)
    requires t.mem(t.pc + 8) == MovKWord(rd, Lane(imm, 2), 2)
    requires t.mem(t.pc + 12) == MovKWord(rd, Lane(imm, 3), 3)
    ensures Steps(plain, t, 4) == t.SetX(rd, imm).(pc := Wrap(t.pc + 16))
  {
    hide Exec, MovZWord, MovKWord, Lane, SetLane, Wrap, State.SetX, State.X;
    WrapSmall(t.pc + 4);
    WrapSmall(t.pc + 8);
    WrapSmall(t.pc + 12);
    ExecMov(plain, t, rd, Lane(imm, 0), 0);
    var t1 := t.SetX(rd, Lane(imm, 0)).(pc := t.pc + 4);
    ExecMov(plain, t1, rd, Lane(imm, 1), 1);
    var x2 := SetLane(t1.X(rd), 1, Lane(imm, 1));
    var t2 := t.SetX(rd, x2).(pc := t.pc + 8);
    SetTwice(t, rd, Lane(imm, 0), x2, t.pc + 4);
    ExecMov(plain, t2, rd, Lane(imm, 2), 2);
    var x3 := SetLane(t2.X(rd), 2, Lane(imm, 2));
    var t3 := t.SetX(rd, x3).(pc := t.pc + 12);
    SetTwice(t, rd, x2, x3, t.pc + 8);
    ExecMov(plain, t3, rd, Lane(imm, 3), 3);
    var x4 := SetLane(t3.X(rd), 3, Lane(imm, 3));
    SetTwice(t, rd, x3, x4, t.pc + 12);
    FourSteps(plain, t);
    if rd == 31 {
      SetTwice(t, rd, imm, imm, 0);
      SetTwice(t, rd, x4, x4, 0);
    } else {
      LanesCompose(imm);
    }
  }

  lemma SetTwice(t: State, rd: u5, a: u64, b: u64, p: u64)
    ensures t.SetX(rd, a).(pc := p).SetX(rd, b) == t.SetX(rd, b).(pc := p)
    ensures t.SetX(rd, a).pc == t.pc && t.SetX(rd, a).mem == t.mem
    ensures t.SetX(rd, a).(pc := p).X(rd) == if rd == 31 then 0 else a
    ensures rd == 31 ==> t.SetX(rd, a) == t
  {
    if rd != 31 {
      assert t.x[rd := a][rd := b] == t.x[rd := b];
    }
  }

  lemma FourSteps(plain: PlainSem, t: State)
    ensures var t1 := Exec(plain, t.mem(t.pc), t);
            var t2 := Exec(plain, t1.mem(t1.pc), t1);
            var t3 := Exec(plain, t2.mem(t2.pc), t2);
            var t4 := Exec(plain, t3.mem(t3.pc), t3);
            Steps(plain, t, 4) == t4
  {
    hide Exec;
    var t1 := Exec(plain, t.mem(t.pc), t);
    var t2 := Exec(plain, t1.mem(t1.pc), t1);
    var t3 := Exec(plain, t2.mem(t2.pc), t2);
    assert Steps(plain, t3, 1) == Exec(plain, t3.mem(t3.pc), t3);
    assert Steps(plain, t2, 2) == Steps(plain, t3, 1);
    assert Steps(plain, t1, 3) == Steps(plain, t2, 2);
  }

  lemma ExecRegisterForms(plain: PlainSem, t: State, rt: u5)
    ensures Exec(plain, LdrXWord(rt, TMP), t) == t.SetX(rt, t.Load64(t.x[TMP])).(pc := Wrap(t.pc + 4))
    ensures Exec(plain, BrWord(TMP), t) == t.(pc := t.x[TMP])
    ensures Exec(plain, BlrWord(TMP), t) == t.(x := t.x[30 := Wrap(t.pc + 4)], pc := t.x[TMP])
  {
    hide Decode;
    DecodeRegisterForms(rt, TMP);
  }

  lemma ExecPatchedLoad(plain: PlainSem, t: State, d: nat)
    requires d < 0x4_0000
    ensures Exec(plain, PatchedLoad(d), t)
            == t.(x := t.x[TMP := t.Load64(Wrap(t.pc + 4 * d))], pc := Wrap(t.pc + 4))
  {
    hide Decode;
    DecodePatchedLoad(d);
  }

  lemma TwoSteps(plain: PlainSem, t: State)
    ensures var t1 := Exec(plain, t.mem(t.pc), t);
            Steps(plain, t, 1) == t1 && Steps(plain, t, 2) == Exec(plain, t1.mem(t1.pc), t1)
  {
    hide Exec;
    var t1 := Exec(plain, t.mem(t.pc), t);
    assert Steps(plain, t1, 1) == Exec(plain, t1.mem(t1.pc), t1);
  }

  lemma CodeAt(mem: u64 -> u32, dst: u64, code: seq<u32>, k: nat)
    requires Loaded(mem, dst, code) && k < |code|
    ensures dst + 4 * k + 4 <= TWO64 && mem(dst + 4 * k) == code[k]
  {
  }

  lemma LoHi(data: u64)
    ensures Lo(data) + Hi(data) * 0x1_0000_0000 == data
  {
  }

  /** The data of a label, read back from the loaded code. */
  lemma LoadLabel(a: Asm, j: nat, dst: u64, t: State)
    requires Linked(a) && j < |a.labels| && Loaded(t.mem, dst, Bind(a))
    ensures |Bind(a)| == |a.code| + 2 * |a.labels|
    ensures dst + 4 * DataAt(a, j) < TWO64 && t.Load64(dst + 4 * DataAt(a, j)) == a.labels[j].data
  {
    hide PatchedLoad, Bind, Lo, Hi, Wrap, Loaded;
    BindPatches(a, j);
    var k := DataAt(a, j);
    CodeAt(t.mem, dst, Bind(a), k);
    CodeAt(t.mem, dst, Bind(a), k + 1);
    WrapSmall(dst + 4 * k + 4);
    LoHi(a.labels[j].data);
  }

  /** A bound literal load at t.pc followed by br or blr of x17 goes to the literal. */
  lemma LiteralBranchRuns(plain: PlainSem, a: Asm, j: nat, dst: u64, t: State, link: bool)
    requires Linked(a) && j < |a.labels| && Loaded(t.mem, dst, Bind(a)) && |Bind(a)| < 0x4_0000
    requires t.pc == dst + 4 * a.labels[j].ref
    requires a.labels[j].ref + 1 < |Bind(a)|
    requires Bind(a)[a.labels[j].ref + 1] == if link then BlrWord(TMP) else BrWord(TMP)
    ensures Steps(plain, t, 2)
            == t.(pc := a.labels[j].data,
                  x := if link then t.x[TMP := a.labels[j].data][30 := Wrap(t.pc + 8)]
                      else t.x[TMP := a.labels[j].data])
  {
    hide Exec, BlrWord, BrWord, PatchedLoad, Bind, Loaded, Wrap, Steps;
    var l := a.labels[j];
    BindPatches(a, j);
    assert l in a.labels;
    LoadLabel(a, j, dst, t);
    var d := DataAt(a, j) - l.ref;
    CodeAt(t.mem, dst, Bind(a), l.ref);
    CodeAt(t.mem, dst, Bind(a), l.ref + 1);
    ExecPatchedLoad(plain, t, d);
    WrapSmall(t.pc + 4 * d);
    WrapSmall(t.pc + 4);
    var t1 := t.(x := t.x[TMP := l.data], pc := t.pc + 4);
    RegisterBranch(plain, t1, link);
    TwoSteps(plain, t);
  }

  lemma RegisterBranch(plain: PlainSem, t: State, link: bool)
    ensures Exec(plain, if link then BlrWord(TMP) else BrWord(TMP), t)
            == t.(pc := t.x[TMP], x := if link then t.x[30 := Wrap(t.pc + 4)] else t.x)
  {
    hide Exec, BlrWord, BrWord;
    ExecRegisterForms(plain, t, 0);
  }

  // ----- one instruction

  /** The relocation of w at pc, from a to b, inside the finished relocation z loaded at dst. */
  ghost predicate Placed(a: Asm, w: u32, pc: u64, b: Asm, z: Asm, dst: u64, mem: u64 -> u32)
  {
    && Linked(a) && Linked(z) && RelocateInsn(a, w, pc) == Some(b) && Extends(b, z)
    && |Bind(z)| < 0x4_0000 && Loaded(mem, dst, Bind(z))
  }

  lemma PlacedFacts(a: Asm, w: u32, pc: u64, b: Asm, z: Asm, dst: u64, mem: u64 -> u32)
    requires Placed(a, w, pc, b, z, dst, mem)
    ensures Linked(b) && Extends(a, b) && |b.code| <= |z.code| <= |Bind(z)| && dst + 4 * |b.code| <= TWO64
  {
    hide RelocateInsn, Loaded;
    InsnExtends(a, w, pc);
    if z.labels == [] {
      assert Bind(z) == z.code;
    } else {
      BindPatches(z, 0);
    }
    assert Loaded(mem, dst, Bind(z));
    LoadedBound(mem, dst, Bind(z));
  }

  lemma LoadedBound(mem: u64 -> u32, dst: u64, code: seq<u32>)
    requires Loaded(mem, dst, code)
    ensures dst + 4 * |code| <= TWO64
  {
  }

  /** A new word that is not the new label's load is in memory as it was emitted. */
  lemma EmittedWord(a: Asm, w: u32, pc: u64, b: Asm, z: Asm, dst: u64, mem: u64 -> u32, k: nat)
    requires Placed(a, w, pc, b, z, dst, mem)
    requires |a.code| <= k < |b.code|
    requires b.labels == a.labels || (|b.labels| == |a.labels| + 1 && b.labels[|a.labels|].ref != k)
    ensures k < |Bind(z)| && Bind(z)[k] == b.code[k]
    ensures dst + 4 * k + 4 <= TWO64 && mem(dst + 4 * k) == b.code[k]
  {
    hide RelocateInsn, Loaded, Bind;
    PlacedFacts(a, w, pc, b, z, dst, mem);
    forall l | l in z.labels
      ensures l.ref != k
    {
      var j :| 0 <= j < |z.labels| && z.labels[j] == l;
      if j < |b.labels| {
        assert l == b.labels[j];
        if j < |a.labels| {
          assert l == a.labels[j] && l in a.labels;
        }
      }
    }
    assert z.code[k] == b.code[k];
    BindKeeps(z, k);
    CodeAt(mem, dst, Bind(z), k);
  }

  /** A new label's literal branch: two steps from its load to the target. */
  lemma PlacedLiteralBranch(plain: PlainSem, a: Asm, w: u32, pc: u64, b: Asm, z: Asm, dst: u64, t: State, link: bool)
    requires Placed(a, w, pc, b, z, dst, t.mem)
    requires |b.labels| == |a.labels| + 1 && |a.code| <= b.labels[|a.labels|].ref == |b.code| - 2
    requires b.code[|b.code| - 1] == if link then BlrWord(TMP) else BrWord(TMP)
    requires t.pc == dst + 4 * (|b.code| - 2)
    ensures var target := b.labels[|a.labels|].data;
            && t.pc + 8 <= TWO64
            && Steps(plain, t, 2)
               == t.(pc := target,
                     x := if link then t.x[TMP := target][30 := Wrap(t.pc + 8)] else t.x[TMP := target])
  {
    hide RelocateInsn, Bind, BlrWord, BrWord, Exec, Steps, Wrap;
    PlacedFacts(a, w, pc, b, z, dst, t.mem);
    EmittedWord(a, w, pc, b, z, dst, t.mem, |b.code| - 1);
    assert z.labels[|a.labels|] == b.labels[|a.labels|];
    LiteralBranchRuns(plain, z, |a.labels|, dst, t, link);
  }

  // ----- the relocator's classes are the architecture's

  /** An instruction that does not use its own address, other than to fall through or to link. */
  predicate Verbatim(i: Insn)
  {
    i.MovZ? || i.MovK? || i.LdrX? || i.Br? || i.Blr? || i.Ret? || i.Plain?
  }

  /** The leading-byte patterns. */
  predicate BblByte(top: int) { top / 4 % 32 == 5 }
  predicate AdrByte(top: int) { top % 32 == 0x10 }
  predicate CondByte(top: int) { top / 2 == 0x2A }
  predicate CompareByte(top: int) { top % 128 / 2 == 0x1A }
  predicate TestByte(top: int) { top % 128 / 2 == 0x1B }
  predicate LiteralByte(top: int) { top / 8 % 8 == 3 && top % 4 == 0 }

  lemma BblAlone(top: u8)
    ensures BblByte(top) ==> !AdrByte(top) && !CondByte(top) && !CompareByte(top) && !TestByte(top) && !LiteralByte(top)
    ensures BblByte(top) <==> top / 4 == 5 || top / 4 == 0x25
  {
    if BblByte(top) {
      assert 0x14 <= top < 0x18 || 0x94 <= top < 0x98;
    }
  }

  lemma AdrAlone(top: u8)
    ensures AdrByte(top) ==> !CondByte(top) && !CompareByte(top) && !TestByte(top) && !LiteralByte(top)
  {
    if AdrByte(top) {
      assert top == 0x10 || top == 0x30 || top == 0x50 || top == 0x70 || top == 0x90 || top == 0xB0 || top == 0xD0
             || top == 0xF0;
    }
  }

  lemma CondAlone(top: u8)
    ensures CondByte(top) ==> !CompareByte(top) && !TestByte(top) && !LiteralByte(top)
    ensures CondByte(top) <==> top == 0x54 || top == 0x55
  {
  }

  lemma CompareAlone(top: u8)
    ensures CompareByte(top) ==> !TestByte(top) && !LiteralByte(top)
    ensures TestByte(top) ==> !LiteralByte(top)
  {
    if CompareByte(top) {
      assert top == 0x34 || top == 0x35 || top == 0xB4 || top == 0xB5;
    } else if TestByte(top) {
      assert top == 0x36 || top == 0x37 || top == 0xB6 || top == 0xB7;
    }
  }

  /** The leading bytes of the verbatim forms have none of the patterns. */
  lemma VerbatimBytes(top: u8)
    requires top == 0xD2 || top == 0xF2 || top == 0xF9 || top == 0xD6
    ensures !BblByte(top) && !AdrByte(top) && !CondByte(top) && !CompareByte(top) && !TestByte(top) && !LiteralByte(top)
  {
  }

  /** The six leading-byte patterns exclude each other and the leading bytes of the verbatim forms. */
  lemma LeadingBytes(top: u8)
    ensures BblByte(top) ==> !AdrByte(top) && !CondByte(top) && !CompareByte(top) && !TestByte(top) && !LiteralByte(top)
    ensures AdrByte(top) ==> !CondByte(top) && !CompareByte(top) && !TestByte(top) && !LiteralByte(top)
    ensures CondByte(top) ==> !CompareByte(top) && !TestByte(top) && !LiteralByte(top)
    ensures LiteralByte(top) ==> !CompareByte(top) && !TestByte(top)
    ensures top == 0xD2 || top == 0xF2 || top == 0xF9 || top == 0xD6 ==>
              !BblByte(top) && !AdrByte(top) && !CondByte(top) && !CompareByte(top) && !TestByte(top)
                  && !LiteralByte(top)
    ensures BblByte(top) <==> top / 4 == 5 || top / 4 == 0x25
    ensures CondByte(top) <==> top == 0x54 || top == 0x55
  {
    hide BblByte, AdrByte, CondByte, CompareByte, TestByte, LiteralByte;
    BblAlone(top);
    AdrAlone(top);
    CondAlone(top);
    CompareAlone(top);
    if top == 0xD2 || top == 0xF2 || top == 0xF9 || top == 0xD6 {
      VerbatimBytes(top);
    }
  }

  lemma LeadingByteOf(w: u32)
    ensures 0 <= Top8(w) < 256 && w / 0x400_0000 == Top8(w) / 4
    ensures w / 0x80_0000 == 0x1A5 ==> Top8(w) == 0xD2
    ensures w / 0x80_0000 == 0x1E5 ==> Top8(w) == 0xF2
    ensures w / 0x400 == 0x3E_5000 ==> Top8(w) == 0xF9
    ensures w / 0x400 == 0x35_87C0 || w / 0x400 == 0x35_8FC0 || w / 0x400 == 0x35_97C0 ==> Top8(w) == 0xD6
  {
  }

  /** No word is in two classes, and each class holds exactly the instructions it is meant for. */
  lemma Classes(w: u32)
    ensures InstIsBBl(w) <==> Decode(w).B? || Decode(w).BL?
    ensures InstIsBBl(w) ==> (InstIsBl(w) <==> Decode(w).BL?)
    ensures InstIsAdr(w) <==> Decode(w).Adr?
    ensures InstIsAdrp(w) <==> Decode(w).Adrp?
    ensures InstIsCompareB(w) <==> Decode(w).CompareBranch?
    ensures InstIsTestB(w) <==> Decode(w).TestBranch?
    ensures InstIsBCond(w) && Top8(w) != 0x55 <==> Decode(w).BCond?
    ensures InstIsLdrLiteral(w) && !(Top8(w) / 4 % 2 == 1 && Top8(w) / 64 == 3) <==> Decode(w).LdrLiteral?
    ensures InstIsLdrLiteral(w) ==> !InstIsAdr(w) && !InstIsAdrp(w) && !InstIsBCond(w) && !InstIsCompareB(w)
                                    && !InstIsTestB(w) && !InstIsBBl(w)
  {
    LeadingByteOf(w);
    LeadingBytes(Top8(w));
    assert Top8(w) / 128 == 0 || Top8(w) / 128 == 1;
  }

  // ----- what is preserved

  /**
    When the emitted code does what w does in s. It does not when
    - the condition is 0b1110 or 0b1111, which hold always and whose low bit does not negate them;
    - a W-form literal is not followed by a zero word: the replacement load is 64 bits wide;
    - a SIMD literal is loaded: the replacement loads a general register;
    - the instruction reads X17, or has the leading byte 0x55, which is not a conditional branch.
   */
  predicate Preserved(w: u32, s: State)
  {
    Top8(w) != 0x55 &&
    match Decode(w)
    case BCond(cond, _) => cond < 14
    case LdrLiteral(simd, opc, rt, off) => !simd
        && (opc == 0 ==> rt == TMP || rt == 31 || s.mem(Wrap(Wrap(s.pc + off) + 4)) == 0)
    case CompareBranch(_, _, rt, _) => rt != TMP
    case TestBranch(_, _, rt, _) => rt != TMP
    case LdrX(_, rn) => rn != TMP
    case Br(rn) => rn != TMP
    case Blr(rn) => rn != TMP
    case Ret(rn) => rn != TMP
    case _ => true
  }

  /** An uninterpreted instruction neither depends on its address nor on X17. */
  ghost predicate PlainAgrees(plain: PlainSem, w: u32)
  {
    Decode(w).Plain? ==> forall s, t :: Same(s, t) ==> Same(plain(w, s), plain(w, t))
  }

  /** How many emitted instructions stand for w. */
  function StepCount(w: u32, s: State): nat
  {
    match Decode(w)
    case B(_) => 2
    case BL(_) => 2
    case BCond(_, _) => if Taken(Decode(w), s) then 3 else 1
    case CompareBranch(_, _, _, _) => if Taken(Decode(w), s) then 3 else 1
    case TestBranch(_, _, _, _) => if Taken(Decode(w), s) then 3 else 1
    case Adr(_, _) => 4
    case Adrp(_, _) => 4
    case LdrLiteral(_, _, _, _) => 5
    case _ => 1
  }

  predicate IsTaken(w: u32, s: State) { Taken(Decode(w), s) }

  /**
    t' is the relocated counterpart of s' == Exec(w, s): the same state but for X17, at the same
    outside address if the branch was taken and at the relocated image of the next instruction
    otherwise; a call leaves that image, not the original next address, in X30.
   */
  ghost predicate Counterpart(plain: PlainSem, w: u32, s: State, t': State, image: u64)
  {
    var s' := Exec(plain, w, s);
    && SameButLink(s', t')
    && t'.pc == (if IsTaken(w, s) then s'.pc else image)
    && if Decode(w).BL? || Decode(w).Blr? then s'.x[30] == Wrap(s.pc + 4) && t'.x[30] == image else s'.x[30] == t'.x[30]
  }

  lemma BBlSimulated(plain: PlainSem, a: Asm, w: u32, pc: u64, b: Asm, z: Asm, dst: u64, s: State, t: State)
    requires Placed(a, w, pc, b, z, dst, t.mem) && InstIsBBl(w)
    requires s.pc == pc && t.pc == dst + 4 * |a.code| && Same(s, t)
    ensures Counterpart(plain, w, s, Steps(plain, t, 2), Wrap(dst + 4 * |b.code|))
  {
    hide Steps, Bind, Loaded, RelocateInsn;
    Classes(w);
    var target := Wrap(pc + DecodeImm26Offset(w));
    RelocatedBBl(a, w, pc);
    var c := LiteralBranch(a, target, InstIsBl(w));
    PlacedLiteralBranch(plain, a, w, pc, b, z, dst, t, InstIsBl(w));
    assert Decode(w) == if InstIsBl(w) then BL(DecodeImm26Offset(w)) else B(DecodeImm26Offset(w));
  }

  lemma RelocatedBBl(a: Asm, w: u32, pc: u64)
    requires InstIsBBl(w)
    ensures RelocateInsn(a, w, pc) == Some(LiteralBranch(a, Wrap(pc + DecodeImm26Offset(w)), InstIsBl(w)))
  {
  }

  /** The words of `Mov(rd, imm)`, emitted first for w, run. */
  lemma PlacedMov(plain: PlainSem, a: Asm, w: u32, pc: u64, b: Asm, z: Asm, dst: u64, t: State, rd: u5, imm: u64)
    requires Placed(a, w, pc, b, z, dst, t.mem)
    requires b.labels == a.labels && a.code + MovWords(rd, imm) <= b.code
    requires t.pc == dst + 4 * |a.code|
    ensures t.pc + 16 <= TWO64
    ensures Steps(plain, t, 4) == t.SetX(rd, imm).(pc := Wrap(t.pc + 16))
  {
    hide Steps, Bind, Loaded, RelocateInsn, Lane, MovZWord, MovKWord, Wrap, Placed, Extends;
    var k, ws := |a.code|, MovWords(rd, imm);
    assert forall j :: 0 <= j < 4 ==> b.code[k + j] == ws[j];
    EmittedWord(a, w, pc, b, z, dst, t.mem, k);
    EmittedWord(a, w, pc, b, z, dst, t.mem, k + 1);
    EmittedWord(a, w, pc, b, z, dst, t.mem, k + 2);
    EmittedWord(a, w, pc, b, z, dst, t.mem, k + 3);
    MovRuns(plain, t, rd, imm);
  }

  lemma RelocatedAdr(a: Asm, w: u32, pc: u64)
    requires InstIsAdr(w) || InstIsAdrp(w)
    ensures var value := if InstIsAdr(w) then Wrap(pc + DecodeImmhiImmloOffset(w))
                         else TruncPage(Wrap(pc + DecodeImmhiImmloZero12Offset(w)));
            && RelocateInsn(a, w, pc) == Some(AppendWords(a, MovWords(Rd(w), value)))
            && Decode(w) == if InstIsAdr(w) then Adr(Rd(w), DecodeImmhiImmloOffset(w))
                            else Adrp(Rd(w), DecodeImmhiImmloZero12Offset(w))
  {
    Classes(w);
  }

  lemma AdrSimulated(plain: PlainSem, a: Asm, w: u32, pc: u64, b: Asm, z: Asm, dst: u64, s: State, t: State)
    requires Placed(a, w, pc, b, z, dst, t.mem) && (InstIsAdr(w) || InstIsAdrp(w))
    requires s.pc == pc && t.pc == dst + 4 * |a.code| && Same(s, t)
    ensures Counterpart(plain, w, s, Steps(plain, t, 4), Wrap(dst + 4 * |b.code|))
  {
    hide Steps, Bind, Loaded, RelocateInsn, Decode, DecodeImmhiImmloOffset, Wrap, TruncPage, Placed, Lane, MovZWord,
         MovKWord, SameButLink, State.SetX, InstIsAdr, InstIsAdrp, Rd;
    RelocatedAdr(a, w, pc);
    var value := if InstIsAdr(w) then Wrap(pc + DecodeImmhiImmloOffset(w))
                 else TruncPage(Wrap(pc + DecodeImmhiImmloZero12Offset(w)));
    TruncPageOfSum(pc, DecodeImmhiImmloZero12Offset(w));
    PlacedRelocation(a, w, pc, b, z, dst, t.mem);
    PlacedMov(plain, a, w, pc, b, z, dst, t, Rd(w), value);
    assert t.pc + 16 == dst + 4 * |b.code|;
    var s' := Exec(plain, w, s);
    assert s' == s.SetX(Rd(w), value).(pc := Wrap(s.pc + 4));
    SetXSame(s, t, Rd(w), value, value, Wrap(s.pc + 4), Wrap(t.pc + 16));
  }

  lemma SetXSame(s: State, t: State, rd: u5, value: u64, value': u64, pc: u64, pc': u64)
    requires Same(s, t) && (value == value' || rd == TMP)
    ensures Same(s.SetX(rd, value).(pc := pc), t.SetX(rd, value').(pc := pc'))
  {
  }

  lemma PlacedRelocation(a: Asm, w: u32, pc: u64, b: Asm, z: Asm, dst: u64, mem: u64 -> u32)
    requires Placed(a, w, pc, b, z, dst, mem)
    ensures RelocateInsn(a, w, pc) == Some(b)
  {
  }

  lemma RelocatedLdrLiteral(a: Asm, w: u32, pc: u64)
    requires InstIsLdrLiteral(w)
    ensures RelocateInsn(a, w, pc)
            == if Top8(w) / 64 < 2
               then Some(AppendWords(a, MovWords(TMP, Wrap(pc + DecodeImm19Offset(w))) + [LdrXWord(Rd(w), TMP)]))
               else None
    ensures Top8(w) / 64 < 2 ==>
              Decode(w) == LdrLiteral(Top8(w) / 4 % 2 == 1, Top8(w) / 64, Rd(w), DecodeImm19Offset(w))
  {
    Classes(w);
    assert 0 <= Top8(w) / 64 < 4;
  }

  /** What the five words emitted for a literal load do: a 64-bit load into a general register. */
  lemma LdrLiteralRuns(plain: PlainSem, a: Asm, w: u32, pc: u64, b: Asm, z: Asm, dst: u64, t: State)
    requires Placed(a, w, pc, b, z, dst, t.mem) && InstIsLdrLiteral(w)
    requires t.pc == dst + 4 * |a.code|
    ensures var target := Wrap(pc + DecodeImm19Offset(w));
            Steps(plain, t, 5)
            == t.SetX(TMP, target).SetX(Rd(w), t.Load64(target)).(pc := Wrap(dst + 4 * |b.code|))
  {
    hide Bind, Loaded, RelocateInsn, Exec, LdrXWord, Lane, MovZWord, MovKWord, DecodeImm19Offset, Wrap, Steps, Placed;
    RelocatedLdrLiteral(a, w, pc);
    PlacedRelocation(a, w, pc, b, z, dst, t.mem);
    PlacedFacts(a, w, pc, b, z, dst, t.mem);
    var target := Wrap(pc + DecodeImm19Offset(w));
    PlacedMov(plain, a, w, pc, b, z, dst, t, TMP, target);
    WrapSmall(t.pc + 16);
    var t4 := t.SetX(TMP, target).(pc := t.pc + 16);
    EmittedWord(a, w, pc, b, z, dst, t.mem, |a.code| + 4);
    StepsCompose(plain, t, 4, 1);
    ExecRegisterForms(plain, t4, Rd(w));
    TwoSteps(plain, t4);
  }

  /**
    A relocated literal load does the original's work exactly when the target register gets the
    same value: always for the X form; for the W form when the word behind the literal is zero or
    the register is XZR or X17; for the SIMD forms only when the vector register and the general
    register both hold the loaded value already.
   */
  predicate LiteralLoadKept(w: u32, s: State)
    requires Decode(w).LdrLiteral?
  {
    var LdrLiteral(simd, opc, rt, off) := Decode(w);
    var target := Wrap(s.pc + off);
    var general := rt == TMP || rt == 31;
    if simd then (general || s.x[rt] == s.Load64(target))
        && s.v[rt] == (if opc == 0 then s.mem(target) else s.Load64(target))
    else opc == 0 ==> general || s.mem(Wrap(target + 4)) == 0
  }

  lemma LdrLiteralExactly(plain: PlainSem, a: Asm, w: u32, pc: u64, b: Asm, z: Asm, dst: u64, s: State, t: State)
    requires Placed(a, w, pc, b, z, dst, t.mem) && InstIsLdrLiteral(w)
    requires s.pc == pc && t.pc == dst + 4 * |a.code| && Same(s, t)
    ensures Decode(w).LdrLiteral?
    ensures Counterpart(plain, w, s, Steps(plain, t, 5), Wrap(dst + 4 * |b.code|)) <==> LiteralLoadKept(w, s)
  {
    hide Steps, Bind, Loaded, RelocateInsn, Decode, DecodeImm19Offset, Wrap, Placed, Exec, LoadLiteral, State.SetX;
    PlacedRelocation(a, w, pc, b, z, dst, t.mem);
    RelocatedLdrLiteral(a, w, pc);
    LdrLiteralRuns(plain, a, w, pc, b, z, dst, t);
    var LdrLiteral(simd, opc, rt, off) := Decode(w);
    var target := Wrap(pc + off);
    ExecLdrLiteral(plain, w, s);
    LiteralLoadsAgree(s, t, simd, opc, rt, target);
  }

  lemma ExecLdrLiteral(plain: PlainSem, w: u32, s: State)
    requires Decode(w).LdrLiteral?
    ensures var i := Decode(w);
            Exec(plain, w, s) == LoadLiteral(s, i.simd, i.opc, i.rt, Wrap(s.pc + i.off)).(pc := Wrap(s.pc + 4))
  {
    hide Decode, Wrap;
  }

  /** A 64-bit load into a general register stands for the literal load exactly when both write the same. */
  lemma LiteralLoadsAgree(s: State, t: State, simd: bool, opc: u2, rt: u5, target: u64)
    requires opc < 2 && Same(s, t)
    ensures var s', t' := LoadLiteral(s, simd, opc, rt, target), t.SetX(TMP, target).SetX(rt, t.Load64(target));
            Same(s', t') <==>
              var general := rt == TMP || rt == 31;
              if simd then (general || s.x[rt] == s.Load64(target))
                           && s.v[rt] == (if opc == 0 then s.mem(target) else s.Load64(target))
              else opc == 0 ==> general || s.mem(Wrap(target as int + 4)) == 0
  {
    hide Wrap;
    var s', t' := LoadLiteral(s, simd, opc, rt, target), t.SetX(TMP, target).SetX(rt, t.Load64(target));
    var loaded := s.Load64(target);
    assert t.Load64(target) == loaded;
    if simd {
      assert s'.v[rt] == s.v[rt] ==> s'.v == s.v;
    }
    if rt != TMP && rt != 31 {
      assert t'.x[rt] == loaded;
      assert forall r :: 0 <= r < 31 && r != TMP && r != rt ==> s'.x[r] == t'.x[r];
    }
  }

  predicate Conditional(i: Insn) { i.BCond? || i.CompareBranch? || i.TestBranch? }

  lemma ExecConditional(plain: PlainSem, w: u32, s: State)
    requires Conditional(Decode(w))
    ensures Exec(plain, w, s) == s.(pc := if IsTaken(w, s) then Wrap(s.pc + Decode(w).off) else Wrap(s.pc + 4))
  {
    hide Decode, Wrap;
  }

  /** An inverted branch over a literal branch: one step when not taken, three steps to the target. */
  lemma InvertedBranchRuns(plain: PlainSem, a: Asm, w: u32, pc: u64, b: Asm, z: Asm, dst: u64, t: State,
                           inverted: u32, target: u64)
    requires Placed(a, w, pc, b, z, dst, t.mem)
    requires b == LiteralBranch(AppendWords(a, [inverted]), target, false)
    requires t.pc == dst + 4 * |a.code|
    requires Conditional(Decode(inverted)) && Decode(inverted).off == 12
    ensures IsTaken(inverted, t) ==> Steps(plain, t, 1) == t.(pc := Wrap(dst + 4 * |b.code|))
    ensures !IsTaken(inverted, t) ==> Steps(plain, t, 3) == t.(x := t.x[TMP := target], pc := target)
  {
    hide Bind, Loaded, RelocateInsn, Decode, Placed, Exec, IsTaken, Wrap, BrWord, BlrWord, Steps;
    EmittedWord(a, w, pc, b, z, dst, t.mem, |a.code|);
    assert b.code[|a.code|] == inverted;
    assert |b.code| == |a.code| + 3;
    TwoSteps(plain, t);
    ExecConditional(plain, inverted, t);
    if !IsTaken(inverted, t) {
      PlacedFacts(a, w, pc, b, z, dst, t.mem);
      WrapSmall(t.pc + 4);
      var t1 := t.(pc := t.pc + 4);
      PlacedLiteralBranch(plain, a, w, pc, b, z, dst, t1, false);
      StepsCompose(plain, t, 1, 2);
    }
  }

  /** A conditional branch whose inverted form is taken exactly when it is not. */
  lemma InvertedSimulated(plain: PlainSem, a: Asm, w: u32, pc: u64, b: Asm, z: Asm, dst: u64, s: State, t: State,
                          inverted: u32)
    requires Placed(a, w, pc, b, z, dst, t.mem)
    requires Conditional(Decode(w)) && Conditional(Decode(inverted)) && Decode(inverted).off == 12
    requires b == LiteralBranch(AppendWords(a, [inverted]), Wrap(pc + Decode(w).off), false)
    requires s.pc == pc && t.pc == dst + 4 * |a.code| && Same(s, t)
    requires IsTaken(w, s) == !IsTaken(inverted, t)
    ensures Counterpart(plain, w, s, Steps(plain, t, StepCount(w, s)), Wrap(dst + 4 * |b.code|))
  {
    hide Bind, Loaded, RelocateInsn, Decode, Placed, Exec, Wrap, Steps, LiteralBranch;
    InvertedBranchRuns(plain, a, w, pc, b, z, dst, t, inverted, Wrap(pc + Decode(w).off));
    ExecConditional(plain, w, s);
  }

  lemma RelocatedBCond(a: Asm, w: u32, pc: u64)
    requires InstIsBCond(w)
    ensures RelocateInsn(a, w, pc)
            == Some(LiteralBranch(AppendWords(a, [InvertedBCond(w)]), Wrap(pc + DecodeImm19Offset(w)), false))
    ensures Top8(w) == 0x54 ==> Decode(w) == BCond(w % 16, DecodeImm19Offset(w))
  {
    Classes(w);
    LeadingByteOf(w);
    LeadingBytes(Top8(w));
  }

  /** cond ^ 1 negates the condition for all flags, or (for the two always-conditions) for none. */
  lemma InvertedCondition(cond: u4, f: Flags)
    ensures CondHolds(XorOne(cond), f) == !CondHolds(cond, f) <==> cond < 14
    ensures cond >= 14 ==> CondHolds(cond, f) && CondHolds(XorOne(cond), f)
  {
  }

  /**
    A conditional branch is simulated when its condition is one that can fail; B.AL and B.NV, which
    always branch, are relocated to code that always falls through.
   */
  lemma BCondSimulated(plain: PlainSem, a: Asm, w: u32, pc: u64, b: Asm, z: Asm, dst: u64, s: State, t: State)
    requires Placed(a, w, pc, b, z, dst, t.mem) && InstIsBCond(w) && Top8(w) == 0x54
    requires s.pc == pc && t.pc == dst + 4 * |a.code| && Same(s, t)
    ensures w % 16 < 14 ==> Counterpart(plain, w, s, Steps(plain, t, StepCount(w, s)), Wrap(dst + 4 * |b.code|))
    ensures w % 16 >= 14 ==> IsTaken(w, s) && Steps(plain, t, 1) == t.(pc := Wrap(dst + 4 * |b.code|))
  {
    hide Steps, StepCount, Bind, Loaded, RelocateInsn, Decode, Placed, InvertedBCond, CondHolds, DecodeImm19Offset,
         Wrap, LiteralBranch, Counterpart;
    PlacedRelocation(a, w, pc, b, z, dst, t.mem);
    RelocatedBCond(a, w, pc);
    DecodeInvertedBCond(w);
    InvertedCondition(w % 16, s.flags);
    if w % 16 < 14 {
      InvertedSimulated(plain, a, w, pc, b, z, dst, s, t, InvertedBCond(w));
    } else {
      InvertedBranchRuns(plain, a, w, pc, b, z, dst, t, InvertedBCond(w), Wrap(pc + DecodeImm19Offset(w)));
    }
  }

  lemma RelocatedCompareB(a: Asm, w: u32, pc: u64)
    requires InstIsCompareB(w)
    ensures RelocateInsn(a, w, pc)
            == Some(LiteralBranch(AppendWords(a, [InvertedCompareB(w)]), Wrap(pc + DecodeImm19Offset(w)), false))
  {
    Classes(w);
    LeadingByteOf(w);
    LeadingBytes(Top8(w));
  }

  lemma CompareBSimulated(plain: PlainSem, a: Asm, w: u32, pc: u64, b: Asm, z: Asm, dst: u64, s: State, t: State)
    requires Placed(a, w, pc, b, z, dst, t.mem) && InstIsCompareB(w) && Rd(w) != TMP
    requires s.pc == pc && t.pc == dst + 4 * |a.code| && Same(s, t)
    ensures Counterpart(plain, w, s, Steps(plain, t, StepCount(w, s)), Wrap(dst + 4 * |b.code|))
  {
    hide Steps, StepCount, Bind, Loaded, RelocateInsn, Decode, Placed, InvertedCompareB, DecodeImm19Offset, Wrap,
         LiteralBranch, Counterpart;
    PlacedRelocation(a, w, pc, b, z, dst, t.mem);
    RelocatedCompareB(a, w, pc);
    DecodeInvertedCompareB(w);
    assert s.X(Rd(w)) == t.X(Rd(w));
    InvertedSimulated(plain, a, w, pc, b, z, dst, s, t, InvertedCompareB(w));
  }

  lemma RelocatedTestB(a: Asm, w: u32, pc: u64)
    requires InstIsTestB(w)
    ensures RelocateInsn(a, w, pc)
            == Some(LiteralBranch(AppendWords(a, [InvertedTestB(w)]), Wrap(pc + DecodeImm14Offset(w)), false))
  {
    Classes(w);
    LeadingByteOf(w);
    LeadingBytes(Top8(w));
  }

  lemma TestBSimulated(plain: PlainSem, a: Asm, w: u32, pc: u64, b: Asm, z: Asm, dst: u64, s: State, t: State)
    requires Placed(a, w, pc, b, z, dst, t.mem) && InstIsTestB(w) && Rd(w) != TMP
    requires s.pc == pc && t.pc == dst + 4 * |a.code| && Same(s, t)
    ensures Counterpart(plain, w, s, Steps(plain, t, StepCount(w, s)), Wrap(dst + 4 * |b.code|))
  {
    hide Steps, StepCount, Bind, Loaded, RelocateInsn, Decode, Placed, InvertedTestB, DecodeImm14Offset, Wrap, Pow2,
         LiteralBranch, Counterpart;
    PlacedRelocation(a, w, pc, b, z, dst, t.mem);
    RelocatedTestB(a, w, pc);
    DecodeInvertedTestB(w);
    assert s.X(Rd(w)) == t.X(Rd(w));
    InvertedSimulated(plain, a, w, pc, b, z, dst, s, t, InvertedTestB(w));
  }

  lemma RelocatedVerbatim(a: Asm, w: u32, pc: u64)
    requires Verbatim(Decode(w)) && RelocateInsn(a, w, pc).Some? && Top8(w) != 0x55
    ensures RelocateInsn(a, w, pc) == Some(AppendWords(a, [w]))
  {
    Classes(w);
  }

  /** Executed on equal states at different addresses, a verbatim instruction leaves equal states. */
  lemma VerbatimAgrees(plain: PlainSem, w: u32, s: State, t: State)
    requires Verbatim(Decode(w)) && Preserved(w, s) && PlainAgrees(plain, w) && Same(s, t)
    ensures var s', t' := Exec(plain, w, s), Exec(plain, w, t);
            && SameButLink(s', t')
            && (IsTaken(w, s) ==> t'.pc == s'.pc)
            && (!IsTaken(w, s) ==> t'.pc == Wrap(t.pc + 4))
            && if Decode(w).Blr? then s'.x[30] == Wrap(s.pc + 4) && t'.x[30] == Wrap(t.pc + 4) else s'.x[30] == t'.x[30]
  {
    hide Decode, SetLane, InLane, Wrap, State.SetX;
    var s', t' := Exec(plain, w, s), Exec(plain, w, t);
    match Decode(w)
    case MovZ(rd, imm, hw) => SetXSame(s, t, rd, InLane(imm, hw), InLane(imm, hw), s'.pc, t'.pc);
    case MovK(rd, imm, hw) => SetXSame(s, t, rd, SetLane(s.X(rd), hw, imm), SetLane(t.X(rd), hw, imm), s'.pc, t'.pc);
    case LdrX(rt, rn) =>
      assert s.X(rn) == t.X(rn);
      SetXSame(s, t, rt, s.Load64(s.X(rn)), t.Load64(t.X(rn)), s'.pc, t'.pc);
    case _ =>
  }

  lemma VerbatimSimulated(plain: PlainSem, a: Asm, w: u32, pc: u64, b: Asm, z: Asm, dst: u64, s: State, t: State)
    requires Placed(a, w, pc, b, z, dst, t.mem) && Verbatim(Decode(w)) && Preserved(w, s) && PlainAgrees(plain, w)
    requires s.pc == pc && t.pc == dst + 4 * |a.code| && Same(s, t)
    ensures Counterpart(plain, w, s, Steps(plain, t, 1), Wrap(dst + 4 * |b.code|))
  {
    hide Bind, Loaded, RelocateInsn, Decode, Exec, Placed, Same, SameButLink, IsTaken, Wrap;
    PlacedRelocation(a, w, pc, b, z, dst, t.mem);
    RelocatedVerbatim(a, w, pc);
    EmittedWord(a, w, pc, b, z, dst, t.mem, |a.code|);
    TwoSteps(plain, t);
    VerbatimAgrees(plain, w, s, t);
  }

  /** Every instruction whose case is preserved is simulated by the code emitted for it. */
  lemma InsnSimulated(plain: PlainSem, a: Asm, w: u32, pc: u64, b: Asm, z: Asm, dst: u64, s: State, t: State)
    requires Placed(a, w, pc, b, z, dst, t.mem) && Preserved(w, s) && PlainAgrees(plain, w)
    requires s.pc == pc && t.pc == dst + 4 * |a.code| && Same(s, t)
    ensures Counterpart(plain, w, s, Steps(plain, t, StepCount(w, s)), Wrap(dst + 4 * |b.code|))
  {
    hide Steps, Bind, Loaded, RelocateInsn, Decode, Counterpart, Placed;
    Classes(w);
    LeadingByteOf(w);
    LeadingBytes(Top8(w));
    if InstIsBBl(w) {
      BBlSimulated(plain, a, w, pc, b, z, dst, s, t);
    } else if InstIsAdr(w) || InstIsAdrp(w) {
      AdrSimulated(plain, a, w, pc, b, z, dst, s, t);
    } else if Decode(w).LdrLiteral? {
      LdrLiteralExactly(plain, a, w, pc, b, z, dst, s, t);
    } else if Decode(w).BCond? {
      RelocatedBCond(a, w, pc);
      BCondSimulated(plain, a, w, pc, b, z, dst, s, t);
    } else if InstIsCompareB(w) {
      DecodeInvertedCompareB(w);
      CompareBSimulated(plain, a, w, pc, b, z, dst, s, t);
    } else if InstIsTestB(w) {
      DecodeInvertedTestB(w);
      TestBSimulated(plain, a, w, pc, b, z, dst, s, t);
    } else {
      VerbatimSimulated(plain, a, w, pc, b, z, dst, s, t);
    }
  }

  // ----- the whole window

  /** The original run from word i until a branch is taken or the window ends. */
  function WindowRun(plain: PlainSem, ws: seq<u32>, i: nat, s: State): State
    requires i <= |ws|
    decreases |ws| - i
  {
    if i == |ws| then s
    else if IsTaken(ws[i], s) then Exec(plain, ws[i], s)
    else WindowRun(plain, ws, i + 1, Exec(plain, ws[i], s))
  }

  /** Every instruction the run executes is one that relocation preserves. */
  predicate RunPreserved(plain: PlainSem, ws: seq<u32>, i: nat, s: State)
    requires i <= |ws|
    decreases |ws| - i
  {
    i < |ws| ==>
      && Preserved(ws[i], s)
      && (!IsTaken(ws[i], s) ==> RunPreserved(plain, ws, i + 1, Exec(plain, ws[i], s)))
  }

  /** The word at which the run leaves the window: the one whose branch is taken, or |ws|. */
  function ExitAt(plain: PlainSem, ws: seq<u32>, i: nat, s: State): (e: nat)
    requires i <= |ws|
    ensures i <= e <= |ws|
    decreases |ws| - i
  {
    if i == |ws| || IsTaken(ws[i], s) then i else ExitAt(plain, ws, i + 1, Exec(plain, ws[i], s))
  }

  /** No uninterpreted instruction of the window depends on its address or on X17. */
  ghost predicate AllAgree(plain: PlainSem, ws: seq<u32>)
  {
    forall w <- ws :: PlainAgrees(plain, w)
  }

  /**
    The run from word i does not write over the code at dst: it is there after every instruction that falls
    through.
   */
  ghost predicate RunKeeps(plain: PlainSem, ws: seq<u32>, i: nat, s: State, dst: u64, code: seq<u32>)
    requires i <= |ws|
    decreases |ws| - i
  {
    i < |ws| && !IsTaken(ws[i], s) ==>
      var s1 := Exec(plain, ws[i], s);
      Loaded(s1.mem, dst, code) && RunKeeps(plain, ws, i + 1, s1, dst, code)
  }

  /** Only uninterpreted instructions write memory. */
  lemma InterpretedKeepsMemory(plain: PlainSem, w: u32, s: State)
    requires !Decode(w).Plain?
    ensures Exec(plain, w, s).mem == s.mem
  {
    hide Decode, SetLane, InLane;
  }

  lemma {:induction false} NoStoreKeeps(plain: PlainSem, ws: seq<u32>, i: nat, s: State, dst: u64, code: seq<u32>)
    requires i <= |ws| && Loaded(s.mem, dst, code) && forall w <- ws :: !Decode(w).Plain?
    ensures RunKeeps(plain, ws, i, s, dst, code)
    decreases |ws| - i
  {
    hide Exec, IsTaken, Loaded, Decode;
    if i < |ws| {
      InterpretedKeepsMemory(plain, ws[i], s);
      NoStoreKeeps(plain, ws, i + 1, Exec(plain, ws[i], s), dst, code);
    }
  }

  /** Falling through moves the original program counter to the next word. */
  lemma ExecFallsThrough(plain: PlainSem, w: u32, s: State)
    requires !IsTaken(w, s)
    ensures Exec(plain, w, s).pc == Wrap(s.pc + 4)
  {
    hide Decode, SetLane, InLane;
  }

  /** The relocation of word i sits in the finished code between offsets i and i + 1. */
  lemma WindowPlaced(ws: seq<u32>, src: u64, branch: bool, i: nat, dst: u64, mem: u64 -> u32)
    requires i < |ws| && RelocatedCode(ws, src, branch).Some?
    requires var f := RelocatedCode(ws, src, branch).value; |f| < 0x4_0000 && Loaded(mem, dst, f)
    ensures RelocateWindow(ws, src, i).Some? && RelocateWindow(ws, src, i + 1).Some?
    ensures Placed(RelocateWindow(ws, src, i).value, ws[i], Wrap(src + 4 * i), RelocateWindow(ws, src, i + 1).value,
                   Relocate(ws, src, branch).value, dst, mem)
  {
    hide Bind, Loaded, RelocateInsn, Wrap, LiteralBranch;
    var n := |ws|;
    WindowExtends(ws, src, i + 1, n);
    WindowExtends(ws, src, i, i + 1);
    var y := RelocateWindow(ws, src, n).value;
    if branch {
      LiteralBranchExtends(y, Wrap(src + 4 * n), false);
    }
  }

  /** Word i of the window simulated at its place in the finished relocation. */
  lemma StepInWindow(plain: PlainSem, ws: seq<u32>, src: u64, branch: bool, dst: u64, i: nat, s: State, t: State)
    requires i < |ws| && src + 4 * |ws| <= TWO64 && RelocatedCode(ws, src, branch).Some?
    requires var f := RelocatedCode(ws, src, branch).value; |f| < 0x4_0000 && Loaded(t.mem, dst, f)
    requires s.pc == src + 4 * i && t.pc == dst + RelocatedOffset(ws, src, i) && Same(s, t)
    requires Preserved(ws[i], s) && PlainAgrees(plain, ws[i])
    ensures var t' := Steps(plain, t, StepCount(ws[i], s));
            Counterpart(plain, ws[i], s, t', Wrap(dst + RelocatedOffset(ws, src, i + 1)))
  {
    hide Bind, Loaded, RelocateInsn, Steps, StepCount, Counterpart, Preserved, PlainAgrees, RelocateWindow, Placed;
    WindowPlaced(ws, src, branch, i, dst, t.mem);
    WrapSmall(src + 4 * i);
    InsnSimulated(plain, RelocateWindow(ws, src, i).value, ws[i], Wrap(src + 4 * i),
                  RelocateWindow(ws, src, i + 1).value, Relocate(ws, src, branch).value, dst, s, t);
  }

  /** The branch back, entered with the state at the end of the window. */
  lemma BranchBackRuns(plain: PlainSem, ws: seq<u32>, src: u64, dst: u64, s: State, t: State)
    requires src + 4 * |ws| < TWO64 && RelocatedCode(ws, src, true).Some?
    requires var f := RelocatedCode(ws, src, true).value; |f| < 0x4_0000 && Loaded(t.mem, dst, f)
    requires s.pc == src + 4 * |ws| && t.pc == dst + RelocatedOffset(ws, src, |ws|) && Same(s, t)
    ensures Same(s, Steps(plain, t, 2)) && Steps(plain, t, 2).pc == s.pc
  {
    hide Bind, Loaded, RelocateWindow, Steps, Exec;
    RelocateLinked(ws, src, true);
    var y, z := RelocateWindow(ws, src, |ws|).value, Relocate(ws, src, true).value;
    WrapSmall(src + 4 * |ws|);
    assert z == LiteralBranch(y, src + 4 * |ws|, false);
    var j := |y.labels|;
    forall l | l in z.labels
      ensures l.ref != |y.code| + 1
    {
      assert l.ref < |z.code|;
      if l != z.labels[j] {
        assert l in y.labels;
        WindowExtends(ws, src, |ws|, |ws|);
      }
    }
    BindKeeps(z, |y.code| + 1);
    LiteralBranchRuns(plain, z, j, dst, t, false);
  }

  /** The finished relocation of ws (with its branch back) sits at dst. */
  ghost predicate Installed(ws: seq<u32>, src: u64, dst: u64, mem: u64 -> u32)
  {
    && src + 4 * |ws| < TWO64
    && RelocatedCode(ws, src, true).Some?
    && |RelocatedCode(ws, src, true).value| < 0x4_0000
    && Loaded(mem, dst, RelocatedCode(ws, src, true).value)
  }

  predicate Calls(i: Insn) { i.BL? || i.Blr? }

  /**
    t' is where the relocated run stands when the original run from word i has left the window at
    word e in state s': same address, same state but for X17, and, if it left by a call, the
    relocated image of the call's next instruction in X30.
   */
  ghost predicate LeftAlike(ws: seq<u32>, src: u64, dst: u64, e: nat, s': State, t': State)
    requires e <= |ws|
  {
    && t'.pc == s'.pc && SameButLink(s', t')
    && if e < |ws| && Calls(Decode(ws[e])) then
         s'.x[30] == Wrap(src + 4 * (e + 1)) && t'.x[30] == Wrap(dst + RelocatedOffset(ws, src, e + 1))
       else s'.x[30] == t'.x[30]
  }

  /**
    Relocation preserves meaning. Whatever word of the window a run is entered at, executing the
    relocated code from relocated_offset_map of that word reaches, in some number of steps, the
    address at which the original run leaves the window (the target of its first taken branch, or
    the end of the window by way of the branch back) with the state the original run has there.
   */
  lemma {:induction false} RelocationSimulates(plain: PlainSem, ws: seq<u32>, src: u64, dst: u64, i: nat, s: State,
                                               t: State)
    requires i <= |ws| && Installed(ws, src, dst, t.mem) && AllAgree(plain, ws)
    requires s.pc == src + 4 * i && t.pc == dst + RelocatedOffset(ws, src, i) && Same(s, t)
    requires RunPreserved(plain, ws, i, s) && RunKeeps(plain, ws, i, s, dst, RelocatedCode(ws, src, true).value)
    ensures exists n: nat {:trigger Steps(plain, t, n)} ::
              LeftAlike(ws, src, dst, ExitAt(plain, ws, i, s), WindowRun(plain, ws, i, s), Steps(plain, t, n))
    decreases |ws| - i
  {
    hide Bind, Loaded, Steps, Exec, StepCount, Preserved, PlainAgrees, RelocateWindow, Decode, RelocatedOffset,
         RelocatedCode;
    if i == |ws| {
      BranchBackRuns(plain, ws, src, dst, s, t);
      assert LeftAlike(ws, src, dst, i, s, Steps(plain, t, 2));
    } else {
      var m := StepCount(ws[i], s);
      StepInWindow(plain, ws, src, true, dst, i, s, t);
      var t1 := Steps(plain, t, m);
      if IsTaken(ws[i], s) {
        TakenLeaves(plain, ws, src, dst, i, s, t1);
        assert LeftAlike(ws, src, dst, i, Exec(plain, ws[i], s), t1);
      } else {
        var s1 := Exec(plain, ws[i], s);
        FallThrough(plain, ws, src, dst, i, s, t1);
        RelocationSimulates(plain, ws, src, dst, i + 1, s1, t1);
        var n: nat :| LeftAlike(ws, src, dst, ExitAt(plain, ws, i + 1, s1), WindowRun(plain, ws, i + 1, s1),
            Steps(plain, t1, n));
        StepsCompose(plain, t, m, n);
        assert LeftAlike(ws, src, dst, ExitAt(plain, ws, i, s), WindowRun(plain, ws, i, s), Steps(plain, t, m + n));
      }
    }
  }

  lemma TakenLeaves(plain: PlainSem, ws: seq<u32>, src: u64, dst: u64, i: nat, s: State, t1: State)
    requires i < |ws| && IsTaken(ws[i], s) && s.pc == src + 4 * i
    requires Counterpart(plain, ws[i], s, t1, Wrap(dst + RelocatedOffset(ws, src, i + 1)))
    ensures LeftAlike(ws, src, dst, i, Exec(plain, ws[i], s), t1)
  {
    hide Exec, Decode, RelocatedOffset, Wrap, IsTaken;
  }

  lemma FallThrough(plain: PlainSem, ws: seq<u32>, src: u64, dst: u64, i: nat, s: State, t1: State)
    requires i < |ws| && !IsTaken(ws[i], s) && s.pc == src + 4 * i
    requires Installed(ws, src, dst, s.mem)
             && Loaded(Exec(plain, ws[i], s).mem, dst, RelocatedCode(ws, src, true).value)
    requires Counterpart(plain, ws[i], s, t1, Wrap(dst + RelocatedOffset(ws, src, i + 1)))
    ensures var s1 := Exec(plain, ws[i], s);
            && s1.pc == src + 4 * (i + 1) && t1.pc == dst + RelocatedOffset(ws, src, i + 1)
            && Same(s1, t1) && Installed(ws, src, dst, t1.mem)
  {
    hide Exec, Decode, RelocatedCode, RelocateWindow, Loaded;
    ExecFallsThrough(plain, ws[i], s);
    OffsetFits(ws, src, dst, s.mem, i + 1);
  }

  /** Images of window offsets lie in the loaded code. */
  lemma OffsetFits(ws: seq<u32>, src: u64, dst: u64, mem: u64 -> u32, i: nat)
    requires i <= |ws| && Installed(ws, src, dst, mem)
    ensures dst + RelocatedOffset(ws, src, i) < TWO64
  {
    hide RelocateInsn, Loaded, Bind;
    WindowExtends(ws, src, i, |ws|);
    RelocateLinked(ws, src, true);
    var z := Relocate(ws, src, true).value;
    BindPatches(z, |z.labels| - 1);
    LoadedBound(mem, dst, Bind(z));
  }

  lemma FirstOffset(ws: seq<u32>, src: u64)
    ensures RelocatedOffset(ws, src, 0) == 0
  {
  }

  /** The words that are preserved in every state. */
  predicate Supported(w: u32)
  {
    Top8(w) != 0x55 &&
    match Decode(w)
    case BCond(cond, _) => cond < 14
    case LdrLiteral(simd, opc, rt, _) => !simd && (opc == 1 || rt == TMP || rt == 31)
    case CompareBranch(_, _, rt, _) => rt != TMP
    case TestBranch(_, _, rt, _) => rt != TMP
    case LdrX(_, rn) => rn != TMP
    case Br(rn) => rn != TMP
    case Blr(rn) => rn != TMP
    case Ret(rn) => rn != TMP
    case _ => true
  }

  lemma {:induction false} SupportedRun(plain: PlainSem, ws: seq<u32>, i: nat, s: State)
    requires i <= |ws| && forall w <- ws :: Supported(w)
    ensures RunPreserved(plain, ws, i, s)
    decreases |ws| - i
  {
    hide Decode, Exec, CondHolds, IsTaken;
    if i < |ws| {
      assert Supported(ws[i]);
      SupportedRun(plain, ws, i + 1, Exec(plain, ws[i], s));
    }
  }

  /** Windows of supported words, from every word and in every state whose run leaves the relocated code alone. */
  lemma SupportedWindowSimulates(plain: PlainSem, ws: seq<u32>, src: u64, dst: u64, i: nat, s: State, t: State)
    requires i <= |ws| && Installed(ws, src, dst, t.mem) && AllAgree(plain, ws)
    requires forall w <- ws :: Supported(w)
    requires s.pc == src + 4 * i && t.pc == dst + RelocatedOffset(ws, src, i) && Same(s, t)
    requires RunKeeps(plain, ws, i, s, dst, RelocatedCode(ws, src, true).value)
    ensures exists n: nat {:trigger Steps(plain, t, n)} ::
              LeftAlike(ws, src, dst, ExitAt(plain, ws, i, s), WindowRun(plain, ws, i, s), Steps(plain, t, n))
  {
    hide Bind, Loaded, Steps, Exec, Preserved, AllAgree, RunKeeps, RelocateWindow, Decode, RelocatedOffset, Supported;
    SupportedRun(plain, ws, i, s);
    RelocationSimulates(plain, ws, src, dst, i, s, t);
  }

  /**
    Windows of instructions the machine interprets, all of them: nothing is asked of the run or of the other
    instructions.
   */
  lemma InterpretedWindowSimulates(plain: PlainSem, ws: seq<u32>, src: u64, dst: u64, i: nat, s: State, t: State)
    requires i <= |ws| && Installed(ws, src, dst, t.mem)
    requires forall w <- ws :: Supported(w) && !Decode(w).Plain?
    requires s.pc == src + 4 * i && t.pc == dst + RelocatedOffset(ws, src, i) && Same(s, t)
    ensures exists n: nat {:trigger Steps(plain, t, n)} ::
              LeftAlike(ws, src, dst, ExitAt(plain, ws, i, s), WindowRun(plain, ws, i, s), Steps(plain, t, n))
  {
    hide Bind, Loaded, Steps, Exec, Preserved, RunKeeps, RelocateWindow, Decode, RelocatedOffset, RelocatedCode,
         Supported;
    NoStoreKeeps(plain, ws, i, s, dst, RelocatedCode(ws, src, true).value);
    SupportedWindowSimulates(plain, ws, src, dst, i, s, t);
  }
}
