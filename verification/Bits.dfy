/**
  The bits of a number, and what the bitwise operators and the multiples and remainders of powers of
  two do to them.
 */
module Bits {
  import opened Words

  predicate Bit(w: nat, k: nat) { w / Pow2(k) % 2 == 1 }

  lemma BitBelow(w: nat, k: nat)
    requires k > 0
    ensures Bit(w, k) == Bit(w / 2, k - 1)
  {
    var p := Pow2(k - 1);
    var v := w / 2;
    var q, r := v / p, v % p;
    assert w == q * (2 * p) + (2 * r + w % 2) by { assert v == q * p + r; }
    DivModUnique(w, 2 * p, q, 2 * r + w % 2);
  }

  lemma LowestBit(w: nat)
    ensures Bit(w, 0) <==> w % 2 == 1
    ensures And(w / 2, 0) == 0 && Pow2(0) == 1
  {
  }

  lemma Pow2Doubled(k: nat)
    ensures Pow2(k + 1) == 2 * Pow2(k) && Pow2(0) == 1
  {
  }

  lemma Pow2Of4()
    ensures Pow2(4) == 16
  {
  }

  lemma Pow2Of28()
    ensures Pow2(28) == 0x1000_0000
  {
    assert Pow2(14) == 0x4000 by { assert Pow2(7) == 128; Pow2Sum(7, 7); }
    Pow2Sum(14, 14);
  }

  lemma AndStep(w: nat, m: nat, bit: nat)
    requires bit < 2
    ensures And(w, 2 * m + bit) == 2 * And(w / 2, m) + (if bit == 1 then w % 2 else 0)
  {
    assert (2 * m + bit) / 2 == m && (2 * m + bit) % 2 == bit;
  }

  lemma AndDoubled(w: nat, m: nat)
    ensures And(w, 2 * m) == 2 * And(w / 2, m) && And(w, 2 * m + 1) == 2 * And(w / 2, m) + w % 2
  {
    AndStep(w, m, 0);
    AndStep(w, m, 1);
  }

  lemma {:induction false} OneBit(w: nat, k: nat)
    ensures And(w, Pow2(k)) == Pow2(k) <==> Bit(w, k)
    decreases k
  {
    hide And, Bit, Pow2;
    if k > 0 {
      OneBit(w / 2, k - 1);
      BitBelow(w, k);
      AndStep(w, Pow2(k - 1), 0);
      Pow2Doubled(k - 1);
    } else {
      AndStep(w, 0, 1);
      LowestBit(w);
    }
  }

  lemma OrStep(x: nat, c: nat, y: nat, d: nat)
    requires c < 2 && d < 2
    ensures Or(2 * x + c, 2 * y + d) == (if c == 1 || d == 1 then 1 else 0) + 2 * Or(x, y)
  {
    assert (2 * x + c) / 2 == x && (2 * x + c) % 2 == c;
    assert (2 * y + d) / 2 == y && (2 * y + d) % 2 == d;
  }

  lemma OrDoubled(x: nat, y: nat)
    ensures Or(2 * x, 2 * y) == 2 * Or(x, y) && Or(1, 2 * y) == 2 * y + 1 && Or(2 * x, 1) == 2 * x + 1 && Or(1, 1) == 1
  {
    hide Or;
    OrStep(x, 0, y, 0);
    OrStep(0, 1, y, 0);
    OrStep(x, 0, 0, 1);
    OrStep(0, 1, 0, 1);
    OrZero(x);
    OrZero(y);
    OrZero(0);
  }

  /** A word passes a mask of two bits exactly if it has both. */
  lemma {:induction false} TwoBits(w: nat, a: nat, b: nat)
    ensures var mask := Or(Pow2(a), Pow2(b)); And(w, mask) == mask <==> Bit(w, a) && Bit(w, b)
    decreases a
  {
    hide Bit, And, Or, Pow2;
    LowestBit(w);
    Pow2Doubled(if a > 0 then a - 1 else 0);
    Pow2Doubled(if b > 0 then b - 1 else 0);
    var x, y := Pow2(if a > 0 then a - 1 else 0), Pow2(if b > 0 then b - 1 else 0);
    OrDoubled(x, y);
    AndDoubled(w, Or(x, y));
    AndDoubled(w, x);
    AndDoubled(w, y);
    AndDoubled(w, 0);
    if a > 0 {
      BitBelow(w, a);
      OneBit(w / 2, a - 1);
    }
    if b > 0 {
      BitBelow(w, b);
      OneBit(w / 2, b - 1);
    }
    if a > 0 && b > 0 {
      TwoBits(w / 2, a - 1, b - 1);
    }
  }

  lemma {:induction false} XorNothing(x: nat)
    ensures Xor(x, 0) == x
  {
    if x > 0 {
      XorNothing(x / 2);
    }
  }

  lemma {:induction false} XorZero(a: nat, b: nat)
    ensures Xor(a, b) == 0 <==> a == b
  {
    if a != 0 || b != 0 {
      XorZero(a / 2, b / 2);
    }
  }

  lemma XorStep(x: nat, y: nat)
    ensures Xor(x, y) / 2 == Xor(x / 2, y / 2) && (Xor(x, y) % 2 == 1 <==> x % 2 != y % 2)
  {
  }

  lemma {:induction false} XorBits(x: nat, y: nat, k: nat)
    ensures Bit(Xor(x, y), k) <==> Bit(x, k) != Bit(y, k)
    decreases k
  {
    hide Pow2, Bit;
    XorStep(x, y);
    if k > 0 {
      BitBelow(Xor(x, y), k);
      BitBelow(x, k);
      BitBelow(y, k);
      XorBits(x / 2, y / 2, k - 1);
    } else {
      LowestBit(Xor(x, y));
      LowestBit(x);
      LowestBit(y);
    }
  }

  lemma {:induction false} XorBelow(x: nat, y: nat, k: nat)
    requires x < Pow2(k) && y < Pow2(k)
    ensures Xor(x, y) < Pow2(k)
    decreases k
  {
    if k > 0 {
      XorBelow(x / 2, y / 2, k - 1);
    }
  }

  lemma HalfOfRest(x: nat, p: nat)
    requires p > 0
    ensures x % (2 * p) / 2 == x / 2 % p && x % (2 * p) % 2 == x % 2
  {
    DivDiv(x, 2, p);
  }

  lemma {:induction false} LowBits(x: nat, n: nat, k: nat)
    ensures Bit(x % Pow2(n), k) <==> k < n && Bit(x, k)
    decreases n
  {
    hide Pow2, Bit;
    if n == 0 {
      Pow2Doubled(0);
      BelowHasNone(x % Pow2(n), 0, k);
    } else {
      Pow2Doubled(n - 1);
      HalfOfRest(x, Pow2(n - 1));
      if k > 0 {
        BitBelow(x % Pow2(n), k);
        BitBelow(x, k);
        LowBits(x / 2, n - 1, k - 1);
      } else {
        LowestBit(x % Pow2(n));
        LowestBit(x);
      }
    }
  }

  lemma BelowHasNone(x: nat, n: nat, k: nat)
    requires x < Pow2(n) && n <= k
    ensures !Bit(x, k)
  {
    hide Pow2;
    Pow2Sum(k - n, n);
    AtLeast(Pow2(k - n), Pow2(n));
    DivModUnique(x, Pow2(k), 0, x);
  }

  lemma HighBits(q: nat, r: nat, n: nat, k: nat)
    requires r < Pow2(n)
    ensures Bit(q * Pow2(n) + r, n + k) <==> Bit(q, k)
  {
    hide Pow2;
    Pow2Sum(n, k);
    DivModUnique(q * Pow2(n) + r, Pow2(n), q, r);
    DivDiv(q * Pow2(n) + r, Pow2(n), Pow2(k));
  }

  lemma ShiftedBits(x: nat, n: nat, k: nat)
    ensures Bit(x * Pow2(n), k) <==> k >= n && Bit(x, k - n)
  {
    hide Pow2, Bit;
    if k >= n {
      HighBits(x, 0, n, k - n);
    } else {
      LowBits(x * Pow2(n), n, k);
      MultipleMod(x, Pow2(n));
      assert 0 < Pow2(0) by { Pow2Doubled(0); }
      BelowHasNone(0, 0, k);
    }
  }

  /** The number below a multiple of `low` has the quotient below. */
  lemma LastDigits(n: nat, low: nat)
    requires 0 < n && 0 < low
    ensures (n * low - 1) / low == n - 1
  {
    Distribute(n, 1, low);
    DivModUnique(n * low - 1, low, n - 1, low - 1);
  }

  lemma AllOnes(n: nat, k: nat)
    requires k < n
    ensures Bit(Pow2(n) - 1, k)
  {
    hide Pow2;
    Pow2Sum(n - k, k);
    Pow2Doubled(n - k - 1);
    var h := Pow2(n - k - 1);
    LastDigits(2 * h, Pow2(k));
    DivModUnique(2 * h - 1, 2, h - 1, 1);
  }
}
