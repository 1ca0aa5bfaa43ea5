/**
  What the A64 assembler leaves in its code buffer, as a function of the instructions asked of
  it (assembler-arm64.h, AssemblerPseudoLabel.h): words, literal loads that still carry a zero
  offset, and the data labels they refer to; `Bind` appends the data and patches the loads.
 */
module Arm64Emit {
  import opened Words
  import opened Arm64Codec
  import opened Arm64Isa

  /** A data label: eight bytes, and the index of the load word that refers to it. */
  datatype Label = Label(data: u64, ref: nat)

  datatype Asm = Asm(code: seq<u32>, labels: seq<Label>)

  // ----- single instructions

  /** ldr x17, #0: what `Ldr(TMP_REG_0, label)` emits before the label is bound */
  const LDR_TMP: u32 := 0x5800_0000 + TMP

  function MovZWord(rd: u5, imm: u16, hw: u2): u32
  {
    0xD280_0000 + hw * 0x20_0000 + imm * 32 + rd
  }

  function MovKWord(rd: u5, imm: u16, hw: u2): u32
  {
    0xF280_0000 + hw * 0x20_0000 + imm * 32 + rd
  }

  /** ldr xt, [xn]: `ldr` of a register and a memory operand always takes the 64-bit form */
  function LdrXWord(rt: u5, rn: u5): u32
  {
    0xF940_0000 + rn * 32 + rt
  }

  function BrWord(rn: u5): u32
  {
    0xD61F_0000 + rn * 32
  }

  function BlrWord(rn: u5): u32
  {
    0xD63F_0000 + rn * 32
  }

  function Lane(imm: u64, hw: u2): u16
  {
    imm / Pow16(hw) % 0x1_0000
  }

  /** `Mov(rd, imm)`: one movz and three movk, whatever the value */
  function MovWords(rd: u5, imm: u64): seq<u32>
  {
    [MovZWord(rd, Lane(imm, 0), 0), MovKWord(rd, Lane(imm, 1), 1),
     MovKWord(rd, Lane(imm, 2), 2), MovKWord(rd, Lane(imm, 3), 3)]
  }

  /** `AppendRelocLabel` of a new label holding target, `Ldr(TMP_REG_0, label)`, then br or blr */
  function LiteralBranch(a: Asm, target: u64, link: bool): Asm
  {
    Asm(a.code + [LDR_TMP, if link then BlrWord(TMP) else BrWord(TMP)], a.labels + [Label(target, |a.code|)])
  }

  // ----- binding

  function Lo(data: u64): u32 { data % 0x1_0000_0000 }
  function Hi(data: u64): u32 { data / 0x1_0000_0000 }

  /** The load word of a label whose data is d words further on. */
  function PatchedLoad(d: nat): u32 { EncodeImm19Offset(LDR_TMP, 4 * d) }

  /** Binding the label at the front: patch its load, append its data. */
  function BindOne(a: Asm): Asm
    requires a.labels != [] && a.labels[0].ref < |a.code|
  {
    var l := a.labels[0];
    Asm(a.code[l.ref := EncodeImm19Offset(a.code[l.ref], 4 * (|a.code| - l.ref))] + [Lo(l.data), Hi(l.data)],
        a.labels[1..])
  }

  ghost predicate RefsInCode(a: Asm) { forall l <- a.labels :: l.ref < |a.code| }

  /** `RelocBind`: all labels, in the order they were appended. */
  function Bind(a: Asm): seq<u32>
    requires RefsInCode(a)
    decreases |a.labels|
  {
    if a.labels == [] then a.code else Bind(BindOne(a))
  }

  lemma BindUnfolds(a: Asm)
    requires RefsInCode(a) && (a.labels != [] ==> a.labels[0].ref < |a.code| && RefsInCode(BindOne(a)))
    ensures Bind(a) == if a.labels == [] then a.code else Bind(BindOne(a))
  {
  }

  /** Every label is referred to by one load word of its own. */
  ghost predicate Linked(a: Asm)
  {
    && RefsInCode(a)
    && (forall j :: 0 <= j < |a.labels| ==> a.code[a.labels[j].ref] == LDR_TMP)
    && (forall i, j :: 0 <= i < j < |a.labels| ==> a.labels[i].ref != a.labels[j].ref)
  }

  ghost predicate IsRef(labels: seq<Label>, k: int)
  {
    exists l <- labels :: l.ref == k
  }

  /** Where the data of label j ends up, as a word index. */
  function DataAt(a: Asm, j: nat): nat { |a.code| + 2 * j }

  lemma BindOneLinked(a: Asm)
    requires Linked(a) && a.labels != []
    ensures Linked(BindOne(a)) && !IsRef(BindOne(a).labels, a.labels[0].ref)
    ensures BindOne(a).code[a.labels[0].ref] == PatchedLoad(|a.code| - a.labels[0].ref)
  {
    var rest := BindOne(a);
    forall l | l in rest.labels
      ensures l.ref < |a.code| && l.ref != a.labels[0].ref
    {
      var j :| 0 <= j < |rest.labels| && rest.labels[j] == l;
      assert a.labels[j + 1] == l;
    }
  }

  lemma LinkedRefs(a: Asm)
    requires Linked(a)
    ensures RefsInCode(a) && forall j :: 0 <= j < |a.labels| ==> a.labels[j].ref < |a.code|
  {
    forall j | 0 <= j < |a.labels|
      ensures a.labels[j].ref < |a.code|
    {
      assert a.labels[j] in a.labels;
    }
  }

  /** Words that no label refers to are kept. */
  lemma {:induction false} BindKeeps(a: Asm, k: nat)
    requires Linked(a) && k < |a.code| && !IsRef(a.labels, k)
    ensures |Bind(a)| == |a.code| + 2 * |a.labels|
    ensures Bind(a)[k] == a.code[k]
    decreases |a.labels|
  {
    if a.labels != [] {
      BindOneLinked(a);
      assert a.labels[0] in a.labels;
      BindKeeps(BindOne(a), k);
    }
  }

  lemma NoRefBehind(a: Asm)
    requires Linked(a) && a.labels != []
    ensures !IsRef(BindOne(a).labels, |a.code|) && !IsRef(BindOne(a).labels, |a.code| + 1)
  {
    assert forall l :: l in BindOne(a).labels ==> l in a.labels;
  }

  lemma BindPatchesFirst(a: Asm)
    requires Linked(a) && a.labels != []
    ensures |Bind(a)| == |a.code| + 2 * |a.labels|
    ensures Bind(a)[a.labels[0].ref] == PatchedLoad(|a.code| - a.labels[0].ref)
    ensures Bind(a)[|a.code|] == Lo(a.labels[0].data) && Bind(a)[|a.code| + 1] == Hi(a.labels[0].data)
  {
    hide IsRef, PatchedLoad, EncodeImm19Offset, Lo, Hi;
    BindOneLinked(a);
    NoRefBehind(a);
    var rest := BindOne(a);
    assert a.labels[0] in a.labels;
    BindKeeps(rest, a.labels[0].ref);
    BindKeeps(rest, |a.code|);
    BindKeeps(rest, |a.code| + 1);
  }

  /** Label j's load ends up with the distance to its data, which sits at DataAt(a, j). */
  lemma {:induction false} BindPatches(a: Asm, j: nat)
    requires Linked(a) && j < |a.labels|
    ensures |Bind(a)| == |a.code| + 2 * |a.labels|
    ensures Bind(a)[a.labels[j].ref] == PatchedLoad(DataAt(a, j) - a.labels[j].ref)
    ensures Bind(a)[DataAt(a, j)] == Lo(a.labels[j].data) && Bind(a)[DataAt(a, j) + 1] == Hi(a.labels[j].data)
    decreases |a.labels|
  {
    hide Linked, IsRef, PatchedLoad, EncodeImm19Offset, Lo, Hi;
    LinkedRefs(a);
    if j == 0 {
      BindPatchesFirst(a);
    } else {
      BindOneLinked(a);
      var rest := BindOne(a);
      assert rest.labels[j - 1] == a.labels[j] && |rest.code| == |a.code| + 2;
      BindPatches(rest, j - 1);
    }
  }
}
