/**
  The x86-64 relocator as the program runs it: the window loop of GenRelocateCodeFixed, and the
  retry loop of GenRelocateCodeX86Shared, which allocates, fails, and allocates more.
 */
module X64Relocator {
  import opened Words
  import opened X64Isa
  import opened X64Relocation

  class CodeMemBlock {
    var addr: u64
    var size: nat

    constructor (addr: u64, size: nat)
      ensures this.addr == addr && this.size == size
    {
      this.addr, this.size := addr, size;
    }

    method Reset(addr: u64, size: nat)
      modifies this
      ensures this.addr == addr && this.size == size
    {
      this.addr, this.size := addr, size;
    }
  }

  datatype Status = Success | Failed | Aborted

  /** The first count, from n on, of whole instructions that covers size bytes. */
  function Covering(ds: seq<Insn>, size: nat, n: nat): (c: nat)
    requires n <= |ds|
    ensures n <= c <= |ds|
    ensures OrigOffset(ds, |ds|) >= size ==> OrigOffset(ds, c) >= size
    ensures forall k :: n <= k < c ==> OrigOffset(ds, k) < size
    decreases |ds| - n
  {
    if n == |ds| || OrigOffset(ds, n) >= size then n else Covering(ds, size, n + 1)
  }

  lemma {:induction false} OffsetsGrow(ds: seq<Insn>, i: nat, n: nat)
    requires i < n <= |ds| && forall d <- ds :: d.bytes != []
    ensures OrigOffset(ds, i) < OrigOffset(ds, n)
    decreases n
  {
    assert ds[n - 1] in ds;
    if i < n - 1 {
      OffsetsGrow(ds, i, n - 1);
    }
  }

  lemma {:induction false} CoveringIs(ds: seq<Insn>, size: nat, n: nat, c: nat)
    requires n <= c <= |ds|
    requires forall k :: n <= k < c ==> OrigOffset(ds, k) < size
    requires c == |ds| || OrigOffset(ds, c) >= size
    ensures Covering(ds, size, n) == c
    decreases c - n
  {
    if n < c {
      CoveringIs(ds, size, n + 1, c);
    }
  }

  /**
    The window length a first attempt leaves behind is a fixed point: asked to cover it, the
    relocator takes the same instructions again.
   */
  lemma CoveringFixed(ds: seq<Insn>, size: nat)
    requires (forall d <- ds :: d.bytes != []) && OrigOffset(ds, |ds|) >= size
    ensures var c := Covering(ds, size, 0); Covering(ds, OrigOffset(ds, c), 0) == c && OrigOffset(ds, c) >= size
  {
    var c := Covering(ds, size, 0);
    forall k | 0 <= k < c
      ensures OrigOffset(ds, k) < OrigOffset(ds, c)
    {
      OffsetsGrow(ds, k, c);
    }
    CoveringIs(ds, OrigOffset(ds, c), 0, c);
  }

  /** Relocating the first n instructions of a stream is relocating them as a window of their own. */
  lemma {:induction false} InsnsOfPrefix(ds: seq<Insn>, src: u64, dst: u64, detours: seq<u64>, n: nat, m: nat)
    requires n <= m <= |ds| == |detours| && AllReadable(ds)
    ensures AllReadable(ds[..m]) && OrigOffset(ds[..m], n) == OrigOffset(ds, n)
            && CodeOffset(ds[..m], n) == CodeOffset(ds, n)
    ensures RelocateInsns(ds[..m], src, dst, detours[..m], n) == RelocateInsns(ds, src, dst, detours, n)
    decreases n
  {
    hide RelocateInsn, Readable, EmitLength;
    if n > 0 {
      InsnsOfPrefix(ds, src, dst, detours, n - 1, m);
    }
  }

  /** GenRelocateSingleX86Insn, appending to the code buffer and writing the detour. */
  method EmitInsn(d: Insn, ip: u64, reloIp: u64, seqAddr: u64, code: seq<u8>, patches: seq<Patch>)
    returns (ok: bool, code': seq<u8>, patches': seq<Patch>)
    requires Readable(d)
    ensures ok == RelocateInsn(d, ip, reloIp, seqAddr).Some?
    ensures ok ==> Piece(code', patches') == Append(Piece(code, patches), RelocateInsn(d, ip, reloIp, seqAddr).value)
  {
    hide LE64, LE32, Detour, Rel8Target, Rel32Target;
    ok, code', patches' := true, code, patches;
    if 0x70 <= d.opcode <= 0x7F {
      code' := code' + [d.opcode, 2];
      code' := code' + [0xEB, 14];
      code' := code' + JmpAbsolute(Rel8Target(d, ip));
    } else if d.ripRelative {
      code' := code' + JmpAbsolute(seqAddr);
      patches' := patches' + [(seqAddr, Detour(d, ip, reloIp, seqAddr))];
    } else if d.opcode == 0xEB {
      code' := code' + JmpAbsolute(Rel8Target(d, ip));
    } else if d.opcode == 0xE8 || d.opcode == 0xE9 {
      if d.immOffset != 1 {
        ok := false;
        return;
      }
      code' := code' + [0xFF];
      if d.opcode == 0xE8 {
        code' := code' + [0x15] + LE32(2);
        code' := code' + [0xEB, 8];
        code' := code' + LE64(Rel32Target(d, ip));
      } else {
        code' := code' + [0x25] + LE32(0);
        code' := code' + LE64(Rel32Target(d, ip));
      }
    } else if 0xE0 <= d.opcode <= 0xE3 {
      ok := false;
    } else {
      code' := code' + d.bytes;
    }
  }

  lemma ReadableAt(ds: seq<Insn>, n: nat)
    requires n < |ds| && AllReadable(ds)
    ensures Readable(ds[n])
  {
  }

  /** The loop of GenRelocateCodeFixed: instructions until size bytes are covered. */
  method RelocateLoop(stream: seq<Insn>, size: nat, src: u64, dst: u64, detours: seq<u64>)
    returns (ok: bool, n: nat, cursor: nat, code: seq<u8>, patches: seq<Patch>)
    requires |detours| == |stream| && AllReadable(stream) && OrigOffset(stream, |stream|) >= size
    ensures n <= |stream| && (ok ==> n == Covering(stream, size, 0) && cursor == OrigOffset(stream, n))
    ensures ok ==> RelocateInsns(stream, src, dst, detours, n) == Some(Piece(code, patches))
    ensures !ok ==> n < Covering(stream, size, 0) && RelocateInsns(stream, src, dst, detours, n + 1).None?
  {
    hide RelocateInsn, Readable, Wrap, AllReadable;
    WrapSmall(src);
    WrapSmall(dst);
    var currOrigIp, currReloIp := src, dst;
    code, patches := [], [];
    n, cursor, ok := 0, 0, true;
    while cursor < size
      invariant n <= |stream| && cursor == OrigOffset(stream, n)
      invariant currOrigIp == Wrap(src + cursor) && currReloIp == Wrap(dst + |code|)
      invariant RelocateInsns(stream, src, dst, detours, n) == Some(Piece(code, patches))
      invariant Covering(stream, size, 0) == Covering(stream, size, n)
      decreases |stream| - n
    {
      var d := stream[n];
      ReadableAt(stream, n);
      WrapTwice(src + cursor, d.Length());
      ok, code, patches := EmitInsn(d, currOrigIp, currReloIp, detours[n], code, patches);
      if !ok {
        return;
      }
      currOrigIp := Wrap(currOrigIp + d.Length());
      cursor := cursor + d.Length();
      currReloIp := Wrap(dst + |code|);
      n := n + 1;
    }
  }

  /** What one attempt at origin and relocated gives, and what it leaves in the two blocks. */
  ghost predicate Attempted(stream: seq<Insn>, src: u64, size: nat, dst: u64, capacity: nat, branch: bool,
                            detours: seq<u64>, status: Status, code: seq<u8>, patches: seq<Patch>, originSize: nat,
                            relocatedSize: nat)
    requires |detours| == |stream|
  {
    var c := Covering(stream, size, 0);
    var ds := stream[..c];
    && AllReadable(ds)
    && var r := Relocate(ds, src, dst, detours[..c], branch);
       && (status == Aborted <==> r.None?)
       && (r.Some? ==> originSize == OrigOffset(stream, c))
       && (r.Some? ==> (status == Success <==> TotalLength(ds, branch) <= capacity))
       && (status == Success ==> Piece(code, patches) == r.value && relocatedSize == |code| == TotalLength(ds, branch))
       && (status == Failed ==> relocatedSize == capacity)
  }

  /**
    GenRelocateCodeFixed over the instruction stream at origin: the code and the detours, and the
    window rounded up to whole instructions; Failed, with the window rounded all the same, when
    the code does not fit the block; Aborted on an instruction it has no form for.
   */
  method GenRelocateCodeFixed(stream: seq<Insn>, origin: CodeMemBlock, relocated: CodeMemBlock, branch: bool,
                              detours: seq<u64>) returns (status: Status, code: seq<u8>, patches: seq<Patch>)
    requires origin != relocated && |detours| == |stream| && AllReadable(stream)
    requires OrigOffset(stream, |stream|) >= origin.size
    modifies origin, relocated
    ensures origin.addr == old(origin.addr) && relocated.addr == old(relocated.addr)
    ensures Attempted(stream, origin.addr, old(origin.size), relocated.addr, old(relocated.size), branch, detours,
                      status, code, patches, origin.size, relocated.size)
  {
    hide RelocateInsns, Covering, OrigOffset, CodeOffset, AllReadable, JmpNearIndirect;
    var ok, n, cursor;
    ok, n, cursor, code, patches := RelocateLoop(stream, origin.size, origin.addr, relocated.addr, detours);
    if !ok {
      status := Aborted;
      AbortsAt(stream, origin.addr, relocated.addr, detours, n, Covering(stream, origin.size, 0), branch);
      return;
    }
    InsnsOfPrefix(stream, origin.addr, relocated.addr, detours, n, n);
    InsnsLength(stream[..n], origin.addr, relocated.addr, detours[..n], n);
    ghost var body := code;
    if branch {
      var currOrigIp, currReloIp := Wrap(origin.addr + cursor), Wrap(relocated.addr + |code|);
      code := code + JmpNearIndirect(Wrap((currReloIp as int) + 6), currReloIp);
      code := code + LE64(currOrigIp);
      NearIndirectIsZero(currReloIp);
      assert code == body + JmpAbsolute(currOrigIp);
    }
    origin.Reset(origin.addr, cursor);
    if |code| > relocated.size {
      status := Failed;
      return;
    }
    relocated.Reset(relocated.addr, |code|);
    status := Success;
  }

  /** CodeGen::JmpNearIndirect: jmp [rip + disp] for a slot at stubAddr, emitted at currentIp */
  function JmpNearIndirect(stubAddr: u64, currentIp: u64): seq<u8>
  {
    [0xFF, 0x25] + LE32(Wrap32(stubAddr - Wrap(currentIp + 6)))
  }

  /** The branch back keeps its target right behind the jump: its displacement is zero. */
  lemma NearIndirectIsZero(ip: u64)
    ensures JmpNearIndirect(Wrap(ip + 6), ip) == [0xFF, 0x25] + LE32(0)
  {
  }

  lemma AbortsAt(ds: seq<Insn>, src: u64, dst: u64, detours: seq<u64>, n: nat, c: nat, branch: bool)
    requires n < c <= |ds| == |detours| && AllReadable(ds)
    requires RelocateInsns(ds, src, dst, detours, n + 1).None?
    ensures AllReadable(ds[..c]) && Relocate(ds[..c], src, dst, detours[..c], branch).None?
  {
    InsnsOfPrefix(ds, src, dst, detours, n + 1, c);
    InsnsOfPrefix(ds, src, dst, detours, c, c);
    AbortsExactly(ds[..c], src, dst, detours[..c], n + 1);
    AbortsExactly(ds[..c], src, dst, detours[..c], c);
  }

  // ----- the retry loop

  /** The capacity asked for in attempt k. */
  function Capacity(k: nat): nat { 32 + 16 * k }

  /** The attempt that succeeds on a relocation of the given length: the first one that asks for enough. */
  function SuccessfulAttempt(length: nat): (k: nat)
    ensures length <= 32 + 16 * k && (k > 0 ==> 32 + 16 * (k - 1) < length)
  {
    if length <= 32 then 0 else (length - 32 + 15) / 16
  }

  /** The allocator returns a block in every attempt up to n. */
  ghost predicate AllGranted(exec: nat -> u64, n: nat)
  {
    forall k :: 0 <= k <= n ==> exec(k) != 0
  }

  /**
    GenRelocateCodeX86Shared with no block given: exec(k) is what the allocator returns in attempt
    k, and detours(k) what the near allocator returns for its instructions. Every attempt takes
    the same instructions and emits the same number of bytes, so the first capacity that is enough
    ends the loop. An allocation that fails before ends it too, with no block set.
   */
  method GenRelocateCodeX86Shared(stream: seq<Insn>, origin: CodeMemBlock, relocated: CodeMemBlock, branch: bool,
                                  exec: nat -> u64, detours: nat -> seq<u64>)
    returns (status: Status, code: seq<u8>, patches: seq<Patch>)
    requires origin != relocated && AllReadable(stream) && OrigOffset(stream, |stream|) >= origin.size
    requires relocated.addr == 0 && forall k :: |detours(k)| == |stream|
    modifies origin, relocated
    ensures origin.addr == old(origin.addr)
    ensures var c := Covering(stream, old(origin.size), 0);
            var ds := stream[..c];
            var k := SuccessfulAttempt(TotalLength(ds, branch));
            && AllReadable(ds)
            && var r := Relocate(ds, origin.addr, exec(k), detours(k)[..c], branch);
               && (status == Success <==> r.Some? && AllGranted(exec, k))
               && (status == Aborted <==> r.None? && exec(0) != 0)
               && (status == Success ==>
                     && Piece(code, patches) == r.value && origin.size == OrigOffset(stream, c)
                     && relocated.addr == exec(k) && relocated.size == |code| == TotalLength(ds, branch))
    ensures status == Failed ==> relocated.addr == 0 && (relocated.size == 0 || relocated.size == old(relocated.size))
  {
    hide Relocate, OrigOffset, TotalLength, AllReadable, Covering;
    code, patches := [], [];
    var expected, attempt := 32, 0;
    ghost var size := origin.size;
    ghost var c := Covering(stream, size, 0);
    ghost var length := TotalLength(stream[..c], branch);
    ghost var k := SuccessfulAttempt(length);
    while true
      invariant origin.addr == old(origin.addr) && relocated.addr == 0 && expected == 32 + 16 * attempt
      invariant relocated.size == if attempt == 0 then old(relocated.size) else 0
      invariant Covering(stream, origin.size, 0) == c && OrigOffset(stream, |stream|) >= origin.size
      invariant attempt > 0 ==> 32 + 16 * (attempt - 1) < length && AllGranted(exec, attempt - 1)
      invariant attempt > 0 ==>
                  AllReadable(stream[..c]) && Relocate(stream[..c], origin.addr, exec(k), detours(k)[..c], branch).Some?
      decreases (length as int) - expected
    {
      if exec(attempt) == 0 {
        status := Failed;
        PrefixReadable(stream, c);
        return;
      }
      relocated.Reset(exec(attempt), expected);
      ghost var before := origin.size;
      status, code, patches := GenRelocateCodeFixed(stream, origin, relocated, branch, detours(attempt));
      SameAborts(stream[..c], origin.addr, exec(attempt), detours(attempt)[..c], exec(k), detours(k)[..c], branch);
      if status != Failed {
        return;
      }
      CoveringCovers(stream, before);
      expected := expected + 16;
      attempt := attempt + 1;
      relocated.Reset(0, 0);
    }
  }

  lemma PrefixReadable(ds: seq<Insn>, c: nat)
    requires AllReadable(ds) && c <= |ds|
    ensures AllReadable(ds[..c])
  {
  }

  lemma CoveringCovers(stream: seq<Insn>, size: nat)
    requires AllReadable(stream) && OrigOffset(stream, |stream|) >= size
    ensures var c := Covering(stream, size, 0);
            Covering(stream, OrigOffset(stream, c), 0) == c && OrigOffset(stream, |stream|) >= OrigOffset(stream, c)
  {
    CoveringFixed(stream, size);
    var c := Covering(stream, size, 0);
    if c < |stream| {
      OffsetsGrow(stream, c, |stream|);
    }
  }

  lemma SameAborts(ds: seq<Insn>, src: u64, dst: u64, detours: seq<u64>, dst': u64, detours': seq<u64>, branch: bool)
    requires |ds| == |detours| == |detours'| && AllReadable(ds)
    ensures Relocate(ds, src, dst, detours, branch).None? <==> Relocate(ds, src, dst', detours', branch).None?
  {
    AbortsExactly(ds, src, dst, detours, |ds|);
    AbortsExactly(ds, src, dst', detours', |ds|);
  }
}
