/**
  The hash functions of the GNU and SysV symbol tables: as loops, as recursive functions, and as what
  they are, a polynomial modulo 2^32 and a polynomial with its high bits folded back.
 */
module SymbolHashes {
  import opened Words
  import opened Bits

  /** The bytes of a name, without its terminating zero. */
  type Name = seq<u8>

  function GnuHash(name: Name): u32
  {
    if name == [] then 5381
    else
      var h := GnuHash(name[..|name| - 1]);
      Wrap32(h + (Wrap32(h * 32) + name[|name| - 1]))
  }

  /** One character of the SysV hash; x is the shifted hash with the character added. */
  function ElfHashFold(x: u32): u32
  {
    var g := x / 0x1000_0000 * 0x1000_0000;
    Wrap32(Xor(x - g, g / 0x100_0000))
  }

  function ElfHash(name: Name): u32
  {
    if name == [] then 0
    else ElfHashFold(Wrap32(Wrap32(ElfHash(name[..|name| - 1]) * 16) + name[|name| - 1]))
  }

  function Power(b: nat, n: nat): nat
  {
    if n == 0 then 1 else b * Power(b, n - 1)
  }

  /** The first k terms of the polynomial in b whose coefficients are the bytes of the name, the first one leading. */
  function Terms(name: Name, b: nat, k: nat): nat
    requires k <= |name|
  {
    if k == 0 then 0 else Terms(name, b, k - 1) + name[k - 1] * Power(b, |name| - k)
  }

  /** The value of that polynomial. */
  function Polynomial(name: Name, b: nat): nat { Terms(name, b, |name|) }

  lemma {:induction false} TermsOfPrefix(name: Name, b: nat, k: nat)
    requires k < |name|
    ensures Terms(name, b, k) == b * Terms(name[..|name| - 1], b, k)
  {
    if k > 0 {
      TermsOfPrefix(name, b, k - 1);
      var c: nat, p := name[k - 1], Power(b, |name| - 1 - k);
      Swapped(b, c, p, Terms(name[..|name| - 1], b, k - 1));
    }
  }

  lemma Swapped(b: nat, c: nat, p: nat, t: nat)
    ensures b * t + c * (b * p) == b * (t + c * p)
  {
    assert c * (b * p) == b * (c * p);
  }

  lemma PolynomialStep(name: Name, b: nat)
    requires name != []
    ensures Polynomial(name, b) == b * Polynomial(name[..|name| - 1], b) + name[|name| - 1]
  {
    TermsOfPrefix(name, b, |name| - 1);
    assert Power(b, 0) == 1;
  }

  lemma NoTerms(name: Name, b: nat)
    ensures name == [] ==> Polynomial(name, b) == 0
  {
  }

  /** The GNU hash is a polynomial in 33, its leading coefficient 5381, modulo 2^32. */
  lemma {:induction false} GnuHashIsPolynomial(name: Name)
    ensures GnuHash(name) == (5381 * Power(33, |name|) + Polynomial(name, 33)) % TWO32
    decreases |name|
  {
    if name != [] {
      var rest, c: nat := name[..|name| - 1], name[|name| - 1];
      GnuHashIsPolynomial(rest);
      PolynomialStep(name, 33);
      var p, v := Power(33, |rest|), 5381 * Power(33, |rest|) + Polynomial(rest, 33);
      assert 5381 * Power(33, |name|) + Polynomial(name, 33) == 33 * v + c;
      Times33(v, c);
    }
  }

  lemma Times33(v: nat, c: nat)
    ensures Wrap32(v % TWO32 + (Wrap32(v % TWO32 * 32) + c)) == (33 * v + c) % TWO32
  {
    var q, r := v / TWO32, v % TWO32;
    var k := r * 32 / TWO32;
    Turns(33 * r + c, -k);
    Turns(33 * r + c, 33 * q);
    assert r + (Wrap32(r * 32) + c) == 33 * r + c + -k * TWO32;
    assert 33 * v + c == 33 * r + c + 33 * q * TWO32;
  }

  lemma Turns(x: int, k: int)
    ensures (x + k * TWO32) % TWO32 == x % TWO32
  {
  }

  lemma FoldIs28Bits(x: u32)
    ensures ElfHashFold(x) < 0x1000_0000
  {
    hide Pow2, Xor;
    Pow2Of28();
    XorBelow(x - x / 0x1000_0000 * 0x1000_0000, x / 0x1000_0000 * 0x1000_0000 / 0x100_0000, 28);
  }

  /** The four high bits are folded back in, so that the next shift loses nothing. */
  lemma ElfHashIs28Bits(name: Name)
    ensures ElfHash(name) < 0x1000_0000 && ElfHash(name) * 16 < TWO32
  {
    hide ElfHashFold;
    if name != [] {
      FoldIs28Bits(Wrap32(Wrap32(ElfHash(name[..|name| - 1]) * 16) + name[|name| - 1]));
    }
  }

  /** As long as nothing is folded back, the hash is a polynomial in 16. */
  lemma {:induction false} ElfHashOfShort(name: Name)
    requires Polynomial(name, 16) < 0x1000_0000
    ensures ElfHash(name) == Polynomial(name, 16)
    decreases |name|
  {
    hide ElfHashFold, Polynomial;
    if name != [] {
      PolynomialStep(name, 16);
      ElfHashOfShort(name[..|name| - 1]);
      Times16(ElfHash(name[..|name| - 1]), name[|name| - 1]);
      NothingFolded(Polynomial(name, 16));
    } else {
      NoTerms(name, 16);
    }
  }

  lemma Times16(h: u32, c: u8)
    ensures Wrap32(Wrap32(h * 16) + c) == (16 * h + c) % TWO32
  {
  }

  lemma NothingFolded(x: u32)
    requires x < 0x1000_0000
    ensures ElfHashFold(x) == x
  {
    hide Xor;
    XorNothing(x);
  }

  /**
    In general, bit by bit: of the shifted hash with the character added, bits 28 to 31 are cleared and
    bits 4 to 7 flipped where those are set.
   */
  lemma ElfHashBits(name: Name, k: nat)
    requires name != []
    ensures var x := (16 * ElfHash(name[..|name| - 1]) + name[|name| - 1]) % TWO32;
            Bit(ElfHash(name), k) <==> k < 28 && Bit(x, k) != (4 <= k < 8 && Bit(x, k + 24))
  {
    hide ElfHashFold, Bit;
    var h, c := ElfHash(name[..|name| - 1]), name[|name| - 1];
    Times16(h, c);
    FoldBits((16 * h + c) % TWO32, k);
  }

  lemma FoldBits(x: u32, k: nat)
    ensures Bit(ElfHashFold(x), k) <==> k < 28 && Bit(x, k) != (4 <= k < 8 && Bit(x, k + 24))
  {
    hide Bit, Xor, Pow2;
    var high := x / 0x1000_0000;
    Pow2Of28();
    FoldIs28Bits(x);
    LowBits(x, 28, k);
    XorBits(x % 0x1000_0000, high * 16, k);
    XorBelow(x % 0x1000_0000, high * 16, 28);
    assert ElfHashFold(x) == Xor(x % 0x1000_0000, high * 16);
    Pow2Of4();
    ShiftedBits(high, 4, k);
    if k >= 4 {
      HighBits(high, x % 0x1000_0000, 28, k - 4);
      if k >= 8 {
        BelowHasNone(high, 4, k - 4);
      }
    }
  }

  /** xdl_gnu_hash and ElfImg::GnuHash */
  method ComputeGnuHash(name: Name) returns (h: u32)
    ensures h == GnuHash(name) == (5381 * Power(33, |name|) + Polynomial(name, 33)) % TWO32
  {
    GnuHashIsPolynomial(name);
    h := 5381;
    for i := 0 to |name|
      invariant h == GnuHash(name[..i])
    {
      assert name[..i + 1][..i] == name[..i];
      h := Wrap32(h + (Wrap32(h * 32) + name[i]));
    }
    assert name[..|name|] == name;
  }

  /** xdl_sysv_hash and ElfImg::ElfHash */
  method ComputeElfHash(name: Name) returns (h: u32)
    ensures h == ElfHash(name)
  {
    hide Xor;
    h := 0;
    for i := 0 to |name|
      invariant h == ElfHash(name[..i])
    {
      assert name[..i + 1][..i] == name[..i];
      h := Wrap32(Wrap32(h * 16) + name[i]);
      var g := h / 0x1000_0000 * 0x1000_0000;
      h := h - g;
      h := Wrap32(Xor(h, g / 0x100_0000));
    }
    assert name[..|name|] == name;
  }
}
