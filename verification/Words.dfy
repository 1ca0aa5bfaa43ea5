/**
  Machine words as integers, the bitwise operators on them, and the arithmetic of remainders that
  the other modules rest on.
 */
module Words {
  datatype Option<+T> = None | Some(value: T)

  const TWO32 := 0x1_0000_0000
  const TWO64 := 0x1_0000_0000_0000_0000

  type u2 = x: int | 0 <= x < 4
  type u4 = x: int | 0 <= x < 16
  type u5 = x: int | 0 <= x < 32
  type u6 = x: int | 0 <= x < 64
  type u8 = x: int | 0 <= x < 256
  type u16 = x: int | 0 <= x < 0x1_0000
  type u32 = x: int | 0 <= x < 0x1_0000_0000
  type u64 = x: int | 0 <= x < 0x1_0000_0000_0000_0000

  /** Reduction of an integer to an unsigned word: addresses wrap around. */
  function Wrap(x: int): u64 { x % TWO64 }
  function Wrap32(x: int): u32 { x % TWO32 }

  lemma WrapSmall(x: int)
    requires 0 <= x < TWO64
    ensures Wrap(x) == x
  {
  }

  lemma WrapTwice(a: int, b: int)
    ensures Wrap(Wrap(a) + b) == Wrap(a + b)
  {
  }

  // ----- little-endian integers

  function LE32(v: u32): (r: seq<u8>)
    ensures |r| == 4
  {
    [v % 256, v / 256 % 256, v / 0x1_0000 % 256, v / 0x100_0000]
  }

  function LE64(v: u64): (r: seq<u8>)
    ensures |r| == 8
  {
    LE32(v % TWO32) + LE32(v / TWO32)
  }

  function Read32(b: seq<u8>): u32
    requires |b| == 4
  {
    var b0: int, b1: int, b2: int, b3: int := b[0], b[1], b[2], b[3];
    b0 + b1 * 256 + b2 * 0x1_0000 + b3 * 0x100_0000
  }

  function Read64(b: seq<u8>): u64
    requires |b| == 8
  {
    Read32(b[..4]) + Read32(b[4..]) * TWO32
  }

  lemma ReadLE32(v: u32)
    ensures Read32(LE32(v)) == v
  {
    assert v / 256 / 256 == v / 0x1_0000 && v / 0x1_0000 / 256 == v / 0x100_0000;
  }

  lemma LERead32(b: seq<u8>)
    requires |b| == 4
    ensures LE32(Read32(b)) == b
  {
    var v := Read32(b);
    var b0: int, b1: int, b2: int, b3: int := b[0], b[1], b[2], b[3];
    DivModUnique(v, 256, b1 + b2 * 256 + b3 * 0x1_0000, b0);
    DivModUnique(v / 256, 256, b2 + b3 * 256, b1);
    DivModUnique(v, 0x1_0000, b2 + b3 * 256, b0 + b1 * 256);
    DivModUnique(v / 0x1_0000, 256, b3, b2);
    DivModUnique(v, 0x100_0000, b3, b0 + b1 * 256 + b2 * 0x1_0000);
  }

  lemma ReadLE64(v: u64)
    ensures Read64(LE64(v)) == v
  {
    var lo, hi := LE32(v % TWO32), LE32(v / TWO32);
    assert LE64(v)[..4] == lo && LE64(v)[4..] == hi;
    ReadLE32(v % TWO32);
    ReadLE32(v / TWO32);
  }

  /** The least significant byte comes first. */
  lemma LittleEndian(b: seq<u8>)
    requires |b| == 8
    ensures Read64(b) == (b[0] as int) + (b[1] as int) * 0x100 + (b[2] as int) * 0x1_0000 + (b[3] as int) * 0x100_0000
                         + ((b[4] as int) + (b[5] as int) * 0x100 + (b[6] as int) * 0x1_0000
                            + (b[7] as int) * 0x100_0000) * 0x1_0000_0000
  {
  }

  // ----- bits

  function Pow2(n: nat): (r: nat)
    ensures r > 0
  {
    if n == 0 then 1 else 2 * Pow2(n - 1)
  }

  /** x & y */
  function And(x: nat, y: nat): (r: nat)
    ensures r <= x && r <= y
  {
    if x == 0 || y == 0 then 0 else 2 * And(x / 2, y / 2) + if x % 2 == 1 && y % 2 == 1 then 1 else 0
  }

  /** x | y */
  function Or(x: nat, y: nat): nat
  {
    if x == 0 && y == 0 then 0
    else (if x % 2 == 1 || y % 2 == 1 then 1 else 0) + 2 * Or(x / 2, y / 2)
  }

  /** x ^ y */
  function Xor(x: nat, y: nat): nat
  {
    if x == 0 && y == 0 then 0
    else (if x % 2 == y % 2 then 0 else 1) + 2 * Xor(x / 2, y / 2)
  }

  lemma {:induction false} OrZero(x: nat)
    ensures Or(0, x) == x && Or(x, 0) == x
  {
    if x > 0 {
      OrZero(x / 2);
    }
  }

  lemma {:induction false} AndCommutes(x: nat, y: nat)
    ensures And(x, y) == And(y, x)
  {
    if x != 0 && y != 0 {
      AndCommutes(x / 2, y / 2);
    }
  }

  lemma {:induction false} Pow2Sum(a: nat, b: nat)
    ensures Pow2(a + b) == Pow2(a) * Pow2(b)
  {
    if a > 0 {
      Pow2Sum(a - 1, b);
      Double(Pow2(a - 1), Pow2(b));
      assert Pow2(a + b) == 2 * Pow2(a - 1 + b);
    }
  }

  lemma Double(x: int, y: int)
    ensures 2 * (x * y) == (2 * x) * y
  {
  }

  lemma Pow2Of8()
    ensures Pow2(8) == 256
  {
  }

  lemma Pow2Of64()
    ensures Pow2(32) == TWO32 && Pow2(64) == TWO64
  {
    hide Pow2;
    Pow2Of8();
    Pow2Sum(8, 8);
    Pow2Sum(16, 16);
    Pow2Sum(32, 32);
  }

  // ----- multiples and remainders

  lemma DivModUnique(x: int, d: nat, q: int, r: nat)
    requires r < d && x == q * d + r
    ensures x / d == q && x % d == r
  {
    var q', r' := x / d, x % d;
    var k := q - q';
    Distribute(q, q', d);
    if k >= 1 {
      AtLeast(k, d);
    } else if k <= -1 {
      AtLeast(-k, d);
      Distribute(0, k, d);
    }
  }

  lemma Distribute(a: int, b: int, d: int)
    ensures (a - b) * d == a * d - b * d
  {
  }

  /** Dividing twice is dividing by the product. */
  lemma DivDiv(x: int, a: nat, b: nat)
    requires a > 0 && b > 0
    ensures a * b > 0 && x / a / b == x / (a * b) && x % (a * b) == x / a % b * a + x % a
  {
    var q, r := x / a, x % a;
    var p, s := q / b, q % b;
    Regroup(p, s, a, b);
    BelowProduct(s, r, a, b);
    DivModUnique(x, a * b, p, s * a + r);
  }

  lemma Regroup(p: int, s: int, a: nat, b: nat)
    ensures (p * b + s) * a == p * (a * b) + s * a
  {
    Distribute(p * b, -s, a);
    Distribute(0, s, a);
    assert p * b * a == p * (a * b);
  }

  lemma BelowProduct(s: nat, r: nat, a: nat, b: nat)
    requires s < b && r < a
    ensures 0 <= s * a <= s * a + r < a * b
  {
    MulMonotone(s + 1, b, a);
    Distribute(s, -1, a);
    MulMonotone(0, s, a);
  }

  lemma AtLeast(k: nat, d: nat)
    requires k >= 1
    ensures k * d >= d
  {
  }

  lemma MultipleMod(m: int, d: nat)
    requires d > 0
    ensures (m * d) % d == 0
  {
    var x: int := m * d;
    var q := x / d;
    assert x == q * d + x % d && (m - q) * d == x % d;
    var k, p: int := m - q, d;
    assert k >= 1 ==> k * p >= p;
    assert k <= -1 ==> k * p <= 0 - p;
  }

  lemma MulMonotone(a: nat, b: nat, d: nat)
    requires a <= b
    ensures a * d <= b * d
  {
    assert (b - a) * d >= 0;
  }

  function Min(a: nat, b: nat): nat { if a < b then a else b }

  function Max(a: nat, b: nat): nat { if a < b then b else a }

  /** The n addresses from a on and the m from b on have none in common. */
  predicate Disjoint(a: nat, n: nat, b: nat, m: nat) { a + n <= b || b + m <= a }

  // ----- memory

  /** The same memory but for the dead addresses. */
  ghost predicate AgreeOutside<T>(dead: iset<u64>, mem: u64 -> T, mem': u64 -> T)
  {
    forall a: u64 :: a !in dead ==> mem(a) == mem'(a)
  }

  // ----- sequences

  ghost predicate Distinct<T>(s: seq<T>)
  {
    forall i, j :: 0 <= i < j < |s| ==> s[i] != s[j]
  }

  lemma ConcatAssociates<T>(a: seq<T>, b: seq<T>, c: seq<T>)
    ensures a + b + c == a + (b + c)
  {
  }

  lemma SubSlice<T>(s: seq<T>, a: nat, b: nat, i: nat, j: nat)
    requires a <= b <= |s| && i <= j <= b - a
    ensures s[a..b][i..j] == s[a + i..a + j]
  {
    var t := s[a..b];
    forall k | 0 <= k < j - i
      ensures t[i..j][k] == s[a + i..a + j][k]
    {
      assert t[i + k] == s[a + (i + k)];
    }
  }
}
