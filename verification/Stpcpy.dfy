/**
  my_stpcpy: a string copy that goes a word at a time where source and destination are aligned alike,
  and tells words with a zero byte by arithmetic.

  Memory is an array of bytes indexed by address, of whole words.
 */
module Stpcpy {
  const ALIGN := 8
  const ONES: bv64 := 0x0101_0101_0101_0101
  const HIGHS: bv64 := 0x8080_8080_8080_8080

  /** HASZERO */
  function HasZero(x: bv64): bv64 { (x - ONES) & !x & HIGHS }

  /** Eight bytes as a little-endian word. */
  function Joined(b0: bv64, b1: bv64, b2: bv64, b3: bv64, b4: bv64, b5: bv64, b6: bv64, b7: bv64): bv64
  {
    b0 | (b1 << 8) | (b2 << 16) | (b3 << 24) | (b4 << 32) | (b5 << 40) | (b6 << 48) | (b7 << 56)
  }

  lemma JoinedHasZero(b0: bv64, b1: bv64, b2: bv64, b3: bv64, b4: bv64, b5: bv64, b6: bv64, b7: bv64)
    requires b0 < 256 && b1 < 256 && b2 < 256 && b3 < 256 && b4 < 256 && b5 < 256 && b6 < 256 && b7 < 256
    ensures HasZero(Joined(b0, b1, b2, b3, b4, b5, b6, b7)) != 0 <==>
            b0 == 0 || b1 == 0 || b2 == 0 || b3 == 0 || b4 == 0 || b5 == 0 || b6 == 0 || b7 == 0
  {
  }

  /** A byte, in a word of its own. */
  type byte = x: bv64 | x < 256

  function Word(b: seq<byte>): bv64
    requires |b| == ALIGN
  {
    Joined(b[0], b[1], b[2], b[3], b[4], b[5], b[6], b[7])
  }

  /** HASZERO is nonzero exactly for the words with a zero byte. */
  lemma HasZeroExactly(b: seq<byte>)
    requires |b| == ALIGN
    ensures HasZero(Word(b)) != 0 <==> exists k :: 0 <= k < ALIGN && b[k] == 0
  {
    hide HasZero, Joined;
    JoinedHasZero(b[0], b[1], b[2], b[3], b[4], b[5], b[6], b[7]);
    if exists k :: 0 <= k < ALIGN && b[k] == 0 {
      var k :| 0 <= k < ALIGN && b[k] == 0;
      assert k == 0 || k == 1 || k == 2 || k == 3 || k == 4 || k == 5 || k == 6 || k == 7;
    }
  }

  /** A string of n characters starts at s. */
  predicate IsString(mem: seq<byte>, s: nat, n: nat)
  {
    && s + n < |mem| && mem[s + n] == 0
    && forall a :: s <= a < s + n ==> mem[a] != 0
  }

  /** Memory after the first n bytes at s have been copied to d. */
  function Copied(mem: seq<byte>, d: nat, s: nat, n: nat): (r: seq<byte>)
    requires d + n <= |mem| && s + n <= |mem|
    ensures |r| == |mem|
  {
    mem[..d] + mem[s..s + n] + mem[d + n..]
  }

  lemma CopiedAt(mem: seq<byte>, d: nat, s: nat, n: nat)
    requires d + n <= |mem| && s + n <= |mem|
    ensures forall a :: d <= a < d + n ==> Copied(mem, d, s, n)[a] == mem[s + (a - d)]
    ensures forall a :: 0 <= a < |mem| && !(d <= a < d + n) ==> Copied(mem, d, s, n)[a] == mem[a]
  {
  }

  /** The bytes of a word, put in place one for one. */
  function Stored(mem: seq<byte>, d: nat, word: seq<byte>): (r: seq<byte>)
    requires d + |word| <= |mem|
    ensures |r| == |mem|
    ensures forall a :: d <= a < d + |word| ==> r[a] == word[a - d]
    ensures forall a :: 0 <= a < |mem| && !(d <= a < d + |word|) ==> r[a] == mem[a]
  {
    mem[..d] + word + mem[d + |word|..]
  }

  /** *wd = word */
  method StoreWord(mem: array<byte>, d: nat, word: seq<byte>)
    requires |word| == ALIGN && d + ALIGN <= mem.Length
    modifies mem
    ensures mem[..] == Stored(old(mem[..]), d, word)
  {
    forall k | 0 <= k < ALIGN {
      mem[d + k] := word[k];
    }
  }

  predicate Aligned(a: nat) { a % ALIGN == 0 }

  predicate SameAlignment(a: nat, b: nat) { a % ALIGN == b % ALIGN }

  lemma AlignmentsMove(s: nat, d: nat)
    ensures SameAlignment(s, d) ==> SameAlignment(s + 1, d + 1)
    ensures Aligned(s) ==> Aligned(s + ALIGN)
    ensures SameAlignment(s, d) && Aligned(s) ==> Aligned(d)
  {
    NextRemainder(s);
    NextRemainder(d);
  }

  lemma NextRemainder(s: nat)
    ensures (s + 1) % ALIGN == if s % ALIGN == ALIGN - 1 then 0 else s % ALIGN + 1
  {
  }

  /** What the copy runs on: a string of n characters, and room for it elsewhere. */
  predicate Request(mem: seq<byte>, d: nat, s: nat, n: nat)
  {
    && |mem| % ALIGN == 0 && IsString(mem, s, n) && d + n < |mem|
    && (d + n < s || s + n < d)
  }

  /** The loop state with i characters copied. */
  ghost predicate At(mem: seq<byte>, before: seq<byte>, d0: nat, s0: nat, n: nat, i: nat)
    requires Request(before, d0, s0, n)
  {
    i <= n && mem == Copied(before, d0, s0, i)
  }

  /** *d = *s: on to the next character, or done. */
  method CopyByte(mem: array<byte>, d: nat, s: nat, ghost before: seq<byte>, ghost d0: nat, ghost s0: nat, ghost n: nat,
                  ghost i: nat)
    returns (more: bool)
    requires Request(before, d0, s0, n) && At(mem[..], before, d0, s0, n, i) && s == s0 + i && d == d0 + i
    modifies mem
    ensures more ==> At(mem[..], before, d0, s0, n, i + 1)
    ensures !more ==> i == n && mem[..] == Copied(before, d0, s0, n + 1)
  {
    CopiedByte(before, d0, s0, n, i);
    ghost var was := mem[..];
    mem[d] := mem[s];
    assert mem[..] == was[d := was[s]];
    more := mem[d] != 0;
  }

  /** One turn of the word loop, unless the word has a zero. */
  method CopyWord(mem: array<byte>, d: nat, s: nat, ghost before: seq<byte>, ghost d0: nat, ghost s0: nat, ghost n: nat,
                  ghost i: nat)
    returns (more: bool)
    requires Request(before, d0, s0, n) && At(mem[..], before, d0, s0, n, i) && s == s0 + i && d == d0 + i
    requires Aligned(s) && Aligned(d)
    modifies mem
    ensures more ==> At(mem[..], before, d0, s0, n, i + ALIGN)
    ensures !more ==> mem[..] == old(mem[..])
  {
    hide HasZero, Word, Copied, Stored;
    AlignedRoom(s, mem.Length);
    var word := mem[s..s + ALIGN];
    HasZeroExactly(word);
    if HasZero(Word(word)) != 0 {
      return false;
    }
    StringWord(before, d0, s0, n, i, word);
    CopiedWord(before, d0, s0, n, i);
    StoreWord(mem, d, word);
    return true;
  }

  /**
    For every alignment, the string with its zero is copied and nothing else changes; the result is
    where the zero was written. Source and destination must not overlap.
   */
  method MyStpcpy(mem: array<byte>, d0: nat, s0: nat, ghost n: nat) returns (end: nat)
    requires Request(mem[..], d0, s0, n)
    modifies mem
    ensures end == d0 + n && mem[..] == Copied(old(mem[..]), d0, s0, n + 1)
  {
    hide At, Copied, Request, IsString, Aligned, SameAlignment;
    ghost var before := mem[..];
    var d, s := d0, s0;
    ghost var i := 0;
    Nothing(before, d0, s0, n);
    if SameAlignment(s, d) {
      while !Aligned(s)
        invariant s == s0 + i && d == d0 + i && SameAlignment(s, d)
        invariant i <= n && At(mem[..], before, d0, s0, n, i)
        decreases n - i
      {
        var more := CopyByte(mem, d, s, before, d0, s0, n, i);
        if !more {
          return d;
        }
        NotDone(mem[..], before, d0, s0, n, i + 1);
        AlignmentsMove(s, d);
        s, d, i := s + 1, d + 1, i + 1;
      }
      AlignmentsMove(s, d);
      while true
        invariant s == s0 + i && d == d0 + i && Aligned(s) && Aligned(d)
        invariant i <= n && At(mem[..], before, d0, s0, n, i)
        decreases n - i
      {
        var more := CopyWord(mem, d, s, before, d0, s0, n, i);
        if !more {
          break;
        }
        NotDone(mem[..], before, d0, s0, n, i + ALIGN);
        AlignmentsMove(s, d);
        AlignmentsMove(d, s);
        s, d, i := s + ALIGN, d + ALIGN, i + ALIGN;
      }
    }
    while true
      invariant s == s0 + i && d == d0 + i
      invariant i <= n && At(mem[..], before, d0, s0, n, i)
      decreases n - i
    {
      var more := CopyByte(mem, d, s, before, d0, s0, n, i);
      if !more {
        return d;
      }
      NotDone(mem[..], before, d0, s0, n, i + 1);
      s, d, i := s + 1, d + 1, i + 1;
    }
  }

  lemma NotDone(mem: seq<byte>, before: seq<byte>, d0: nat, s0: nat, n: nat, i: nat)
    requires Request(before, d0, s0, n) && At(mem, before, d0, s0, n, i)
    ensures i <= n
  {
  }

  lemma Nothing(mem: seq<byte>, d: nat, s: nat, n: nat)
    requires Request(mem, d, s, n)
    ensures At(mem, mem, d, s, n, 0)
  {
  }

  lemma AlignedRoom(s: nat, size: nat)
    requires s % ALIGN == 0 && size % ALIGN == 0 && s < size
    ensures s + ALIGN <= size
  {
  }

  lemma CopiedByte(mem: seq<byte>, d: nat, s: nat, n: nat, i: nat)
    requires IsString(mem, s, n) && i <= n && d + n < |mem| && (d + n < s || s + n < d)
    ensures var now := Copied(mem, d, s, i);
            && now[s + i] == mem[s + i] && (now[s + i] == 0 <==> i == n)
            && now[d + i := now[s + i]] == Copied(mem, d, s, i + 1)
  {
    hide Copied;
    CopiedAt(mem, d, s, i);
    CopiedAt(mem, d, s, i + 1);
    assert Copied(mem, d, s, i)[d + i := mem[s + i]] == Copied(mem, d, s, i + 1);
  }

  /** A word without a zero, read from within the string, ends before its terminator. */
  lemma StringWord(mem: seq<byte>, d: nat, s: nat, n: nat, i: nat, word: seq<byte>)
    requires IsString(mem, s, n) && i <= n && d + n < |mem| && (d + n < s || s + n < d) && s + i + ALIGN <= |mem|
    requires word == Copied(mem, d, s, i)[s + i..s + i + ALIGN]
    ensures (forall k :: 0 <= k < ALIGN ==> word[k] != 0) ==> i + ALIGN <= n
  {
    hide Copied;
    CopiedAt(mem, d, s, i);
    if n < i + ALIGN {
      assert word[n - i] == Copied(mem, d, s, i)[s + n] == 0;
    }
  }

  lemma CopiedWord(mem: seq<byte>, d: nat, s: nat, n: nat, i: nat)
    requires IsString(mem, s, n) && i + ALIGN <= n && d + n < |mem| && (d + n < s || s + n < d)
    ensures Stored(Copied(mem, d, s, i), d + i, Copied(mem, d, s, i)[s + i..s + i + ALIGN])
            == Copied(mem, d, s, i + ALIGN)
  {
    hide Copied;
    CopiedAt(mem, d, s, i);
    CopiedAt(mem, d, s, i + ALIGN);
    assert Stored(Copied(mem, d, s, i), d + i, Copied(mem, d, s, i)[s + i..s + i + ALIGN])
           == Copied(mem, d, s, i + ALIGN);
  }
}
