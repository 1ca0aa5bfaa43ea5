/**
  The A64 trampoline patched over a hooked function: adrp, add, br when the replacement is near, a
  literal branch otherwise. It must reach the replacement from where it is written.
 */
module Arm64Trampoline {
  import opened Words
  import opened Arm64Codec
  import opened Arm64Isa
  import opened Arm64Emit
  import opened Arm64Simulation

  /** A 64-bit word as a signed integer. */
  function Signed(x: u64): int { if x < 0x8000_0000_0000_0000 then x else x - TWO64 }

  /** llabs of the difference */
  function Distance(a: u64, b: u64): nat { var d := Signed(Wrap(a - b)); if d < 0 then -d else d }

  const ADRP_RANGE := 0x1_0000_0000

  /** From page to page, as the immediate of adrp. */
  function PageDelta(from: u64, to: u64): int { Signed(Wrap(TruncPage(to) - TruncPage(from))) }

  /** adrp rd, #imm */
  function AdrpWord(rd: u5, imm: int): u32
  {
    FieldsOfAdr(1, imm / 0x1000 % 4, 0x10, imm / 0x1000 / 4 % 0x8_0000, rd);
    AdrSum(1, imm / 0x1000 % 4, 0x10, imm / 0x1000 / 4 % 0x8_0000, rd)
  }

  /** add rd, rn, #imm */
  function AddWord(rd: u5, rn: u5, imm: nat): u32
  {
    0x9100_0000 + imm % 0x1000 * 0x400 + rn * 32 + rd
  }

  /** GenerateNormalTrampolineBuffer */
  function Trampoline(from: u64, to: u64): seq<u32>
  {
    if Distance(from, to) < ADRP_RANGE then
      [AdrpWord(TMP, PageDelta(from, to)), AddWord(TMP, TMP, to % 0x1000), BrWord(TMP)]
    else Bind(LiteralBranch(Asm([], []), to, false))
  }

  /** ADD (immediate), section C6.2.4, between registers other than 31; the model's machine leaves it to plain. */
  ghost predicate AddsImmediate(plain: PlainSem)
  {
    forall s: State, rd: u5, rn: u5, imm: nat {:trigger plain(AddWord(rd, rn, imm), s)} ::
      rd != 31 && rn != 31 && imm < 0x1000 ==> plain(AddWord(rd, rn, imm), s) == s.SetX(rd, Wrap(s.X(rn) + imm))
  }

  lemma AddFields(hi: nat, rn: u5, rd: u5)
    requires 0x24_4000 <= hi < 0x24_5000
    ensures var w := hi * 0x400 + rn * 32 + rd;
            && w < TWO32 && w / 0x400 == hi && w / 0x400_0000 == 0x24 && w / 0x100_0000 == 0x91
               && w / 0x80_0000 == 0x122
  {
    var w := hi * 0x400 + rn * 32 + rd;
    assert w / 0x400 == hi;
    assert w / 0x400_0000 == hi / 0x1_0000 && w / 0x100_0000 == hi / 0x4000 && w / 0x80_0000 == hi / 0x2000;
  }

  lemma PlainClass(w: u32)
    requires w / 0x400_0000 == 0x24 && Top8(w) == 0x91 && w / 0x80_0000 == 0x122 && 0x24_4000 <= w / 0x400 < 0x24_5000
    ensures Decode(w) == Plain(w)
  {
    hide SignExtend;
  }

  lemma DecodeAdd(rd: u5, rn: u5, imm: nat)
    requires imm < 0x1000
    ensures Decode(AddWord(rd, rn, imm)) == Plain(AddWord(rd, rn, imm))
  {
    var hi := 0x24_4000 + imm;
    AddFields(hi, rn, rd);
    PlainClass(AddWord(rd, rn, imm));
  }

  lemma DecodeAdrp(rd: u5, imm: int)
    ensures Decode(AdrpWord(rd, imm)) == Adrp(rd, SignExtend(imm / 0x1000 % 0x20_0000, 0x10_0000) * 0x1000)
  {
    var v := imm / 0x1000;
    SplitImm21(v);
    FieldsOfAdr(1, v % 4, 0x10, v / 4 % 0x8_0000, rd);
    var w := AdrpWord(rd, imm);
    AdrpClass(w);
  }

  lemma AdrpClass(w: u32)
    requires Top8(w) % 32 == 0x10 && w / 0x8000_0000 == 1
    ensures Decode(w) == Adrp(Rd(w), SignExtend(Immlo(w) + Imm19(w) * 4, 0x10_0000) * 0x1000)
  {
    hide SignExtend, Top8, Rd, Imm14, Imm16, Imm19, Imm26, B40, Immlo;
    Top6(w);
    Top8Parts(w);
  }

  /** What adrp can reach, and what it makes of the one delta beyond. */
  lemma AdrpReaches(from: u64, to: u64)
    requires Distance(from, to) < ADRP_RANGE
    ensures -ADRP_RANGE <= PageDelta(from, to) <= ADRP_RANGE && PageDelta(from, to) % 0x1000 == 0
    ensures var imm := PageDelta(from, to);
            SignExtend(imm / 0x1000 % 0x20_0000, 0x10_0000) * 0x1000 == if imm == ADRP_RANGE then -ADRP_RANGE else imm
  {
    hide SignExtend, TruncPage;
    PageDeltaBounds(from, to);
    SignExtend21(PageDelta(from, to) / 0x1000);
    TopOf21();
  }

  lemma TopOf21()
    ensures SignExtend(0x10_0000 % 0x20_0000, 0x10_0000) == -0x10_0000
  {
  }

  /** Differences that are small modulo 2^64 are small differences, but for whole turns. */
  lemma SignedTurn(x: int, turn: int)
    requires -0x8000_0000_0000_0000 <= x < 0x8000_0000_0000_0000 && -1 <= turn <= 1
    ensures Signed(Wrap(x + turn * TWO64)) == x
  {
  }

  lemma PageDeltaBounds(from: u64, to: u64)
    requires Distance(from, to) < ADRP_RANGE
    ensures -ADRP_RANGE <= PageDelta(from, to) <= ADRP_RANGE && PageDelta(from, to) % 0x1000 == 0
  {
    hide Signed, Wrap;
    var turn := if to - from > 0x4000_0000_0000_0000 then 1 else if from - to > 0x4000_0000_0000_0000 then -1 else 0;
    var d := to - from - turn * TWO64;
    DistanceIs(from, to, turn);
    var e := TruncPage(to) - TruncPage(from);
    assert TruncPage(to) == to / 0x1000 * 0x1000 && TruncPage(from) == from / 0x1000 * 0x1000;
    assert d - 0x1000 < e - turn * TWO64 < d + 0x1000;
    SignedTurn(e - turn * TWO64, turn);
    assert e - turn * TWO64 == (to / 0x1000 - from / 0x1000 - turn * 0x10_0000_0000_0000) * 0x1000;
  }

  lemma DistanceIs(from: u64, to: u64, turn: int)
    requires Distance(from, to) < ADRP_RANGE
    requires turn == if to - from > 0x4000_0000_0000_0000 then 1 else if from - to > 0x4000_0000_0000_0000 then -1
             else 0
    ensures -ADRP_RANGE < to - from - turn * TWO64 < ADRP_RANGE
  {
  }

  // ----- the trampoline runs to the replacement

  /** adrp, add, br: to the replacement, unless its page is just out of reach; then 8 GB below it. */
  lemma AdrpAddBrRuns(plain: PlainSem, s: State, to: u64)
    requires AddsImmediate(plain) && Distance(s.pc, to) < ADRP_RANGE && Loaded(s.mem, s.pc, Trampoline(s.pc, to))
    ensures var target := if PageDelta(s.pc, to) == ADRP_RANGE then Wrap(to - 2 * ADRP_RANGE) else to;
            Steps(plain, s, 3) == s.(x := s.x[TMP := target], pc := target)
  {
    hide Exec, PageDelta, Distance, AdrpWord, AddWord, BrWord, Loaded, Wrap, Trampoline, AddsImmediate, Steps;
    var code := Trampoline(s.pc, to);
    NearTrampoline(s.pc, to);
    CodeAt(s.mem, s.pc, code, 0);
    CodeAt(s.mem, s.pc, code, 1);
    CodeAt(s.mem, s.pc, code, 2);
    WrapSmall(s.pc + 4);
    WrapSmall(s.pc + 8);
    var target := if PageDelta(s.pc, to) == ADRP_RANGE then Wrap(to - 2 * ADRP_RANGE) else to;
    var page := Wrap(target - to % 0x1000);
    ExecAdrp(plain, s, to);
    var s1 := s.(x := s.x[TMP := page], pc := s.pc + 4);
    ExecAdd(plain, s1, TMP, to % 0x1000);
    PagePlusOffset(target, to % 0x1000);
    var s2 := s.(x := s.x[TMP := target], pc := s.pc + 8);
    assert s1.x[TMP := target] == s2.x;
    ExecRegisterForms(plain, s2, 0);
    ThreeSteps(plain, s);
  }

  lemma NearTrampoline(from: u64, to: u64)
    requires Distance(from, to) < ADRP_RANGE
    ensures Trampoline(from, to) == [AdrpWord(TMP, PageDelta(from, to)), AddWord(TMP, TMP, to % 0x1000), BrWord(TMP)]
  {
  }

  lemma PagePlusOffset(target: u64, off: nat)
    ensures Wrap(Wrap(target - off) + off) == target
  {
    WrapTwice(target - off, off);
  }

  lemma ThreeSteps(plain: PlainSem, t: State)
    ensures var t1 := Exec(plain, t.mem(t.pc), t);
            var t2 := Exec(plain, t1.mem(t1.pc), t1);
            Steps(plain, t, 3) == Exec(plain, t2.mem(t2.pc), t2)
  {
    hide Exec;
    var t1 := Exec(plain, t.mem(t.pc), t);
    TwoSteps(plain, t1);
  }

  lemma ExecAdd(plain: PlainSem, t: State, rd: u5, imm: nat)
    requires AddsImmediate(plain) && rd != 31 && imm < 0x1000
    ensures Exec(plain, AddWord(rd, rd, imm), t) == t.(x := t.x[rd := Wrap(t.x[rd] + imm)], pc := Wrap(t.pc + 4))
  {
    hide Decode, AddWord;
    DecodeAdd(rd, rd, imm);
    assert plain(AddWord(rd, rd, imm), t) == t.SetX(rd, Wrap(t.X(rd) + imm));
  }

  lemma ExecAdrp(plain: PlainSem, t: State, to: u64)
    requires Distance(t.pc, to) < ADRP_RANGE
    ensures var target := if PageDelta(t.pc, to) == ADRP_RANGE then Wrap(to - 2 * ADRP_RANGE) else to;
            Exec(plain, AdrpWord(TMP, PageDelta(t.pc, to)), t)
            == t.(x := t.x[TMP := Wrap(target - to % 0x1000)], pc := Wrap(t.pc + 4))
  {
    hide Decode, AdrpWord, PageDelta, Distance, TruncPage, Wrap, SignExtend;
    var imm := PageDelta(t.pc, to);
    DecodeAdrp(TMP, imm);
    AdrpReaches(t.pc, to);
    PageArrives(t.pc, to);
  }

  /** The page of pc moved by the delta is the page of the target, or that 8 GB below. */
  lemma PageArrives(from: u64, to: u64)
    requires Distance(from, to) < ADRP_RANGE
    ensures Wrap(TruncPage(from) + PageDelta(from, to)) == Wrap(to - to % 0x1000)
    ensures PageDelta(from, to) == ADRP_RANGE ==>
              Wrap(TruncPage(from) - ADRP_RANGE) == Wrap(Wrap(to - 2 * ADRP_RANGE) - to % 0x1000)
  {
    var e := TruncPage(to) - TruncPage(from);
    SignedIsCongruent(TruncPage(from), e);
    WrapTwice(to - 2 * ADRP_RANGE, -(to % 0x1000));
    if PageDelta(from, to) == ADRP_RANGE {
      WrapBack(TruncPage(from), to - to % 0x1000);
    }
  }

  lemma SignedIsCongruent(b: int, e: int)
    ensures Wrap(b + Signed(Wrap(e))) == Wrap(b + e)
  {
    WrapTwice(e, b);
    WrapTurn(b + Wrap(e));
  }

  lemma WrapTurn(x: int)
    ensures Wrap(x - TWO64) == Wrap(x)
  {
  }

  lemma WrapBack(page: u64, target: int)
    requires Wrap(page + ADRP_RANGE) == Wrap(target)
    ensures Wrap(page - ADRP_RANGE) == Wrap(target - 2 * ADRP_RANGE)
  {
  }

  /** ldr, br and the address: to the replacement from anywhere. */
  lemma LiteralTrampolineRuns(plain: PlainSem, s: State, to: u64)
    requires Distance(s.pc, to) >= ADRP_RANGE && Loaded(s.mem, s.pc, Trampoline(s.pc, to))
    ensures |Trampoline(s.pc, to)| == 4
    ensures Steps(plain, s, 2) == s.(x := s.x[TMP := to], pc := to)
  {
    hide Exec, Decode, Distance, Loaded, BrWord, PatchedLoad;
    var a := LiteralBranch(Asm([], []), to, false);
    assert Linked(a);
    BindPatches(a, 0);
    BindKeeps(a, 1);
    LiteralBranchRuns(plain, a, 0, s.pc, s, false);
  }

  /** Twelve bytes, or sixteen. */
  lemma TrampolineSize(from: u64, to: u64)
    ensures |Trampoline(from, to)| == if Distance(from, to) < ADRP_RANGE then 3 else 4
  {
    hide Distance, PatchedLoad;
    var a := LiteralBranch(Asm([], []), to, false);
    assert Linked(a);
    BindPatches(a, 0);
  }

  /** How many instructions the trampoline takes. */
  function TrampolineSteps(from: u64, to: u64): nat { if Distance(from, to) < ADRP_RANGE then 3 else 2 }

  /**
    A trampoline reaches the replacement, with nothing changed but x17, exactly if adrp is not used
    for a page delta of 2^32. The distance check lets that one delta through.
   */
  lemma TrampolineReachesExactly(plain: PlainSem, s: State, to: u64)
    requires AddsImmediate(plain) && Loaded(s.mem, s.pc, Trampoline(s.pc, to))
    ensures var t := Steps(plain, s, TrampolineSteps(s.pc, to));
            && t == s.(x := s.x[TMP := t.pc], pc := t.pc)
            && (t.pc == to <==> Distance(s.pc, to) >= ADRP_RANGE || PageDelta(s.pc, to) != ADRP_RANGE)
  {
    hide Distance, PageDelta, Steps, Trampoline, Loaded;
    if Distance(s.pc, to) < ADRP_RANGE {
      AdrpAddBrRuns(plain, s, to);
    } else {
      LiteralTrampolineRuns(plain, s, to);
    }
  }

  /** Such a case: less than 4 GB apart, and 2^20 pages. */
  lemma PageDeltaTooFar()
    ensures Distance(0xFFC, 0x1_0000_0FF8) < ADRP_RANGE && PageDelta(0xFFC, 0x1_0000_0FF8) == ADRP_RANGE
  {
  }
}
