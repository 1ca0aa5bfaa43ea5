/**
  The simulation at work on what is hooked most: a function that begins by storing its frame record.
  The two words of that prologue the machine model leaves open get their real effect here, stores
  included, so every hypothesis on them is discharged.
 */
module Arm64Prologue {
  import opened Words
  import opened Arm64Codec
  import opened Arm64Isa
  import opened Arm64Emit
  import opened Arm64Relocation
  import opened Arm64Simulation

  /** stp x29, x30, [sp, #-16]! */
  const PUSH_FRAME: u32 := 0xA9BF_7BFD

  /** mov x29, sp */
  const SET_FRAME: u32 := 0x9100_03FD

  /** The byte at b after v has been stored at a. */
  function StoredByte(mem: u64 -> u32, a: u64, v: u64, b: u64): u8
  {
    if a <= b < a + 8 then v / Pow2(8 * (b - a)) % 256 else mem(b) % 256
  }

  /** Memory after a 64-bit store at a: every word that shares a byte with it is made up anew. */
  function Stored64(mem: u64 -> u32, a: u64, v: u64): u64 -> u32
  {
    (x: u64) =>
      if a < x + 4 && x < a + 8 then
        StoredByte(mem, a, v, x) + StoredByte(mem, a, v, Wrap(x + 1)) * 0x100
        + StoredByte(mem, a, v, Wrap(x + 2)) * 0x1_0000 + StoredByte(mem, a, v, Wrap(x + 3)) * 0x100_0000
      else mem(x)
  }

  function PushFrame(s: State): State
  {
    var a := Wrap(s.sp - 16);
    s.(sp := a, mem := Stored64(Stored64(s.mem, a, s.x[29]), Wrap(a + 8), s.x[30]))
  }

  /** What the two words do; no other word of the window is left to it. */
  function FrameSem(w: u32, s: State): State
  {
    if w == PUSH_FRAME then PushFrame(s) else if w == SET_FRAME then s.(x := s.x[29 := s.sp]) else s
  }

  lemma FrameWordsArePlain()
    ensures Decode(PUSH_FRAME).Plain? && Supported(PUSH_FRAME)
    ensures Decode(SET_FRAME).Plain? && Supported(SET_FRAME)
  {
  }

  lemma FrameAgrees(w: u32)
    ensures PlainAgrees(FrameSem, w)
  {
    hide Decode, Stored64, Wrap;
  }

  /** A frame apart from the code leaves it there. */
  lemma PushKeepsCode(s: State, dst: u64, code: seq<u32>)
    requires Loaded(s.mem, dst, code) && 16 <= s.sp && (dst + 4 * |code| <= s.sp - 16 || s.sp <= dst)
    ensures Loaded(PushFrame(s).mem, dst, code)
  {
    hide StoredByte;
    WrapSmall(s.sp - 16);
    WrapSmall(s.sp - 8);
    forall k | 0 <= k < |code|
      ensures PushFrame(s).mem(Wrap(dst + 4 * k)) == code[k]
    {
      WrapSmall(dst + 4 * k);
    }
  }

  /** Behind the store nothing writes memory or moves the stack pointer. */
  predicate NoStore(w: u32) { Supported(w) && (Decode(w).Plain? ==> w == SET_FRAME) }

  lemma ExecNoStore(w: u32, s: State)
    requires NoStore(w)
    ensures var s1 := Exec(FrameSem, w, s); s1.mem == s.mem && s1.sp == s.sp
  {
    hide Decode, SetLane, InLane, Stored64;
  }

  lemma {:induction false} RestKeeps(ws: seq<u32>, i: nat, s: State, dst: u64, code: seq<u32>)
    requires i <= |ws| && Loaded(s.mem, dst, code) && forall k :: i <= k < |ws| ==> NoStore(ws[k])
    ensures RunKeeps(FrameSem, ws, i, s, dst, code)
    ensures var s1 := WindowRun(FrameSem, ws, i, s); s1.mem == s.mem && s1.sp == s.sp
    decreases |ws| - i
  {
    hide Exec, IsTaken, Loaded, NoStore;
    if i < |ws| {
      ExecNoStore(ws[i], s);
      RestKeeps(ws, i + 1, Exec(FrameSem, ws[i], s), dst, code);
    }
  }

  lemma ExecPush(s: State)
    ensures !IsTaken(PUSH_FRAME, s) && Exec(FrameSem, PUSH_FRAME, s) == PushFrame(s).(pc := Wrap(s.pc + 4))
  {
    hide Stored64;
    FrameWordsArePlain();
  }

  /**
    A window that begins with the store of the frame record, from its first word, with any stack that
    is apart from the relocated code: the relocated run leaves it as the original does, with the
    record in memory and the stack pointer moved.
   */
  lemma PrologueSimulates(ws: seq<u32>, src: u64, dst: u64, s: State, t: State)
    requires Installed(ws, src, dst, t.mem) && s.pc == src && t.pc == dst && Same(s, t)
    requires ws != [] && ws[0] == PUSH_FRAME && forall k :: 1 <= k < |ws| ==> NoStore(ws[k])
    requires var size := 4 * |RelocatedCode(ws, src, true).value|;
             16 <= s.sp && (dst + size <= s.sp - 16 || s.sp <= dst)
    ensures exists n: nat {:trigger Steps(FrameSem, t, n)} ::
              LeftAlike(ws, src, dst, ExitAt(FrameSem, ws, 0, s), WindowRun(FrameSem, ws, 0, s), Steps(FrameSem, t, n))
    ensures WindowRun(FrameSem, ws, 0, s).mem == PushFrame(s).mem && WindowRun(FrameSem, ws, 0, s).sp == s.sp - 16
  {
    hide Exec, IsTaken, Loaded, PushFrame, NoStore, RelocatedCode, RelocateWindow, Steps, Supported, Decode,
         PlainAgrees;
    var code := RelocatedCode(ws, src, true).value;
    ExecPush(s);
    PushKeepsCode(s, dst, code);
    PushMoves(s);
    RestKeeps(ws, 1, Exec(FrameSem, ws[0], s), dst, code);
    forall w | w in ws
      ensures PlainAgrees(FrameSem, w) && Supported(w)
    {
      FrameAgrees(w);
      FrameWordsArePlain();
      var k :| 0 <= k < |ws| && ws[k] == w;
      if k > 0 {
        NoStoreSupported(w);
      }
    }
    FirstOffset(ws, src);
    SupportedWindowSimulates(FrameSem, ws, src, dst, 0, s, t);
  }

  lemma PushMoves(s: State)
    requires 16 <= s.sp
    ensures PushFrame(s).sp == s.sp - 16
  {
  }

  lemma NoStoreSupported(w: u32)
    requires NoStore(w)
    ensures Supported(w)
  {
  }
}
