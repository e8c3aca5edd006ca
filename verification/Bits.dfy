/**
 Machine words as natural numbers, with the bitwise operators defined one binary
 digit at a time. The lemmas turn the masks, shifts and ORs that the page-table
 code uses into sums and remainders.
 */
module Bits {

  const WORD: nat := 0x1_0000_0000_0000_0000

  function Pow2(k: nat): (p: nat)
    ensures p > 0
  {
    if k == 0 then 1 else 2 * Pow2(k - 1)
  }

  function Bit(x: nat, k: nat): nat
  {
    if k == 0 then x % 2 else Bit(x / 2, k - 1)
  }

  function Or(a: nat, b: nat): nat
    decreases a + b
  {
    if a == 0 && b == 0 then 0
    else (if a % 2 == 1 || b % 2 == 1 then 1 else 0) + 2 * Or(a / 2, b / 2)
  }

  function And(a: nat, b: nat): nat
    decreases a + b
  {
    if a == 0 && b == 0 then 0
    else (if a % 2 == 1 && b % 2 == 1 then 1 else 0) + 2 * And(a / 2, b / 2)
  }

  /** The BIC instruction: the digits of a that are not in b. */
  function Bic(a: nat, b: nat): nat
  {
    if a == 0 then 0
    else (if a % 2 == 1 && b % 2 == 0 then 1 else 0) + 2 * Bic(a / 2, b / 2)
  }

  // The digit-wise meaning of the operators.

  lemma {:induction false} OrBit(a: nat, b: nat, k: nat)
    ensures Bit(Or(a, b), k) == if Bit(a, k) == 1 || Bit(b, k) == 1 then 1 else 0
    decreases k
  {
    if a == 0 && b == 0 {
      ZeroBit(k);
    } else if k > 0 {
      OrBit(a / 2, b / 2, k - 1);
    }
  }

  lemma {:induction false} BicBit(a: nat, b: nat, k: nat)
    ensures Bit(Bic(a, b), k) == if Bit(a, k) == 1 && Bit(b, k) == 0 then 1 else 0
    decreases k
  {
    if a == 0 {
      ZeroBit(k);
    } else if k > 0 {
      BicBit(a / 2, b / 2, k - 1);
    }
  }

  lemma {:induction false} ZeroBit(k: nat)
    ensures Bit(0, k) == 0
  {
    if k > 0 {
      ZeroBit(k - 1);
    }
  }

  lemma {:induction false} BitOfPow2(k: nat, j: nat)
    ensures Bit(Pow2(k), j) == if j == k then 1 else 0
  {
    if k == 0 {
      if j > 0 {
        ZeroBit(j - 1);
      }
    } else if j > 0 {
      BitOfPow2(k - 1, j - 1);
    }
  }

  lemma OrZero(a: nat)
    ensures Or(a, 0) == a && Or(0, a) == a
  {
  }

  lemma AndZero(a: nat)
    ensures And(a, 0) == 0 && And(0, a) == 0
  {
  }

  lemma OrStep(a: nat, b: nat)
    ensures Or(a, b) == (if a % 2 == 1 || b % 2 == 1 then 1 else 0) + 2 * Or(a / 2, b / 2)
  {
  }

  lemma AndStep(a: nat, b: nat)
    ensures And(a, b) == (if a % 2 == 1 && b % 2 == 1 then 1 else 0) + 2 * And(a / 2, b / 2)
  {
  }

  lemma Regroup(h: nat, p: nat)
    ensures h * (2 * p) == 2 * (h * p)
  {
  }

  lemma Quotient(a: int, d: nat, q: int, r: nat)
    requires a == d * q + r && r < d
    ensures a / d == q && a % d == r
  {
    var e := a / d - q;
    assert d * e == d * (a / d) - d * q;
    assert d * e == r - a % d;
    if e > 0 {
      MulAtLeast(d, e);
    }
  }

  lemma MulAtLeast(d: nat, e: nat)
    requires e > 0
    ensures d * e >= d
  {
  }

  /** OR works on the part above digit k and the part below it independently. */
  lemma {:induction false} OrSplit(ah: nat, al: nat, bh: nat, bl: nat, k: nat)
    requires al < Pow2(k) && bl < Pow2(k)
    ensures Or(ah * Pow2(k) + al, bh * Pow2(k) + bl) == Or(ah, bh) * Pow2(k) + Or(al, bl)
    ensures Or(al, bl) < Pow2(k)
    decreases k
  {
    hide Or;
    if k == 0 {
      OrZero(0);
    } else {
      var p := Pow2(k - 1);
      assert Pow2(k) == 2 * p;
      hide Pow2;
      Halve(ah, al, p);
      Halve(bh, bl, p);
      OrStep(ah * (2 * p) + al, bh * (2 * p) + bl);
      OrStep(al, bl);
      OrSplit(ah, al / 2, bh, bl / 2, k - 1);
      Regroup(Or(ah, bh), p);
    }
  }

  /** So does AND. */
  lemma {:induction false} AndSplit(ah: nat, al: nat, bh: nat, bl: nat, k: nat)
    requires al < Pow2(k) && bl < Pow2(k)
    ensures And(ah * Pow2(k) + al, bh * Pow2(k) + bl) == And(ah, bh) * Pow2(k) + And(al, bl)
    ensures And(al, bl) < Pow2(k)
    decreases k
  {
    hide And;
    if k == 0 {
      AndZero(0);
    } else {
      var p := Pow2(k - 1);
      assert Pow2(k) == 2 * p;
      hide Pow2;
      Halve(ah, al, p);
      Halve(bh, bl, p);
      AndStep(ah * (2 * p) + al, bh * (2 * p) + bl);
      AndStep(al, bl);
      AndSplit(ah, al / 2, bh, bl / 2, k - 1);
      Regroup(And(ah, bh), p);
    }
  }

  /** Setting a field whose n digits, from digit k up, are clear is an addition. */
  lemma OrField(x: nat, c: nat, k: nat, n: nat)
    requires c < Pow2(n) && (x / Pow2(k)) % Pow2(n) == 0
    ensures Or(x, c * Pow2(k)) == x + c * Pow2(k)
  {
    hide Or, Pow2;
    var f := x / Pow2(k);
    Recompose(x, Pow2(k));
    OrSplit(f, x % Pow2(k), c, 0, k);
    OrZero(x % Pow2(k));
    OrLow(f, c, n);
    Distribute(f, c, Pow2(k));
  }

  lemma OrLow(f: nat, c: nat, n: nat)
    requires c < Pow2(n) && f % Pow2(n) == 0
    ensures Or(f, c) == f + c
  {
    hide Or, Pow2;
    var h := f / Pow2(n);
    Recompose(f, Pow2(n));
    OrAbove(h, c, n);
  }

  lemma OrAbove(h: nat, c: nat, n: nat)
    requires c < Pow2(n)
    ensures Or(h * Pow2(n), c) == h * Pow2(n) + c
  {
    hide Or, Pow2;
    OrSplit(h, 0, 0, c, n);
    OrZero(h);
    OrZero(c);
  }

  lemma Distribute(f: nat, c: nat, p: nat)
    ensures (f + c) * p == f * p + c * p
  {
  }

  lemma Recompose(x: nat, p: nat)
    requires p > 0
    ensures x == (x / p) * p + x % p
  {
  }

  /** Dropping the last digit of a number given by its parts above and below 2 * p. */
  lemma Halve(h: nat, l: nat, p: nat)
    requires l < 2 * p
    ensures (h * (2 * p) + l) / 2 == h * p + l / 2
    ensures (h * (2 * p) + l) % 2 == l % 2
  {
    Regroup(h, p);
  }

  /** OR with 3 sets the two low digits. */
  lemma OrThree(x: nat)
    ensures Or(x, 3) == x - x % 4 + 3
  {
    hide Or;
    OrStep(x, 3);
    OrStep(x / 2, 1);
    OrZero(x / 4);
  }

  /** A mask of k ones takes the remainder. */
  lemma AndOnes(x: nat, k: nat)
    ensures And(x, Pow2(k) - 1) == x % Pow2(k)
  {
    hide And, Pow2;
    Recompose(x, Pow2(k));
    AndOnesAbove(x / Pow2(k), x % Pow2(k), Pow2(k) - 1, k);
  }

  lemma AndOnesAbove(h: nat, l: nat, m: nat, k: nat)
    requires l < Pow2(k) && m == Pow2(k) - 1
    ensures And(h * Pow2(k) + l, m) == l
  {
    hide And;
    AndSplit(h, l, 0, m, k);
    AndZero(h);
    AndAllOnes(l, k);
  }

  lemma {:induction false} AndAllOnes(l: nat, k: nat)
    requires l < Pow2(k)
    ensures And(l, Pow2(k) - 1) == l
  {
    hide And;
    if k > 0 {
      AndAllOnes(l / 2, k - 1);
      AndStep(l, Pow2(k) - 1);
    } else {
      AndZero(0);
    }
  }

  /** A mask of n ones from digit lo up keeps exactly that field. */
  lemma AndField(x: nat, m: nat, lo: nat, n: nat)
    requires m == Pow2(n) - 1
    ensures And(x, m * Pow2(lo)) == (x / Pow2(lo)) % Pow2(n) * Pow2(lo)
  {
    hide And, Pow2;
    Recompose(x, Pow2(lo));
    AndFieldOf(x / Pow2(lo), x % Pow2(lo), m, lo, n);
  }

  lemma AndFieldOf(h: nat, l: nat, m: nat, lo: nat, n: nat)
    requires l < Pow2(lo) && m == Pow2(n) - 1
    ensures And(h * Pow2(lo) + l, m * Pow2(lo)) == h % Pow2(n) * Pow2(lo)
  {
    hide And, Pow2;
    AndAbove(h, l, m, lo);
    AndOnes(h, n);
  }

  lemma AndAbove(h: nat, l: nat, m: nat, lo: nat)
    requires l < Pow2(lo)
    ensures And(h * Pow2(lo) + l, m * Pow2(lo)) == And(h, m) * Pow2(lo)
  {
    hide And, Pow2;
    AndSplit(h, l, m, 0, lo);
    AndZero(l);
  }

  // The same facts with the powers of two written out by the caller.

  lemma OrConst(x: nat, c: nat, p: nat, m: nat, k: nat, n: nat)
    requires p == Pow2(k) && m == Pow2(n) && c < m && (x / p) % m == 0
    ensures Or(x, c * p) == x + c * p
  {
    hide Or, Pow2;
    OrField(x, c, k, n);
  }

  lemma AndConst(x: nat, mask: nat, p: nat, m: nat, k: nat, n: nat)
    requires p == Pow2(k) && m == Pow2(n) && mask == (m - 1) * p
    ensures And(x, mask) == (x / p) % m * p
  {
    hide And, Pow2;
    var ones := m - 1;
    AndField(x, ones, k, n);
  }

  lemma Powers()
    ensures Pow2(21) == 0x20_0000 && Pow2(30) == 0x4000_0000 && Pow2(36) == 0x10_0000_0000
    ensures Pow2(48) == 0x1_0000_0000_0000 && Pow2(52) == 0x10_0000_0000_0000
    ensures Pow2(53) == 0x20_0000_0000_0000 && Pow2(54) == 0x40_0000_0000_0000
  {
    assert Pow2(12) == 0x1000;
    assert Pow2(24) == 0x100_0000;
    assert Pow2(36) == 0x10_0000_0000;
    assert Pow2(44) == 0x1000_0000_0000;
    assert Pow2(48) == 0x1_0000_0000_0000;
    assert Pow2(50) == 0x4_0000_0000_0000;
    assert Pow2(52) == 0x10_0000_0000_0000;
    assert Pow2(53) == 2 * Pow2(52);
    assert Pow2(54) == 2 * Pow2(53);
  }

  lemma SmallPowers()
    ensures Pow2(0) == 1 && Pow2(1) == 2 && Pow2(2) == 4 && Pow2(3) == 8 && Pow2(4) == 16 && Pow2(5) == 32
    ensures Pow2(7) == 0x80 && Pow2(8) == 0x100 && Pow2(9) == 0x200 && Pow2(10) == 0x400 && Pow2(12) == 0x1000
  {
  }

  /** Testing one digit with a mask. */
  lemma {:induction false} AndPow2(x: nat, k: nat)
    ensures And(x, Pow2(k)) == if Bit(x, k) == 1 then Pow2(k) else 0
  {
    if k == 0 {
      AndStep(x, 1);
      AndZero(x / 2);
    } else {
      AndPow2(x / 2, k - 1);
      AndStep(x, Pow2(k));
    }
  }

  /** Setting one digit leaves the others and stays within a byte. */
  lemma SetDigit(x: nat, k: nat)
    requires x < 0x100 && k < 8
    ensures Or(x, Pow2(k)) < 0x100
    ensures forall j: nat :: Bit(Or(x, Pow2(k)), j) == if j == k then 1 else Bit(x, j)
  {
    forall j: nat ensures Bit(Or(x, Pow2(k)), j) == if j == k then 1 else Bit(x, j) {
      OrBit(x, Pow2(k), j);
      BitOfPow2(k, j);
      BitRange(x, j);
    }
    SmallPowers();
    PowLess(k, 8);
    OrSplit(0, x, 0, Pow2(k), 8);
  }

  /** Clearing one digit leaves the others and stays within a byte. */
  lemma ClearDigit(x: nat, k: nat)
    requires x < 0x100 && k < 8
    ensures Bic(x, Pow2(k)) < 0x100
    ensures forall j: nat :: Bit(Bic(x, Pow2(k)), j) == if j == k then 0 else Bit(x, j)
  {
    forall j: nat ensures Bit(Bic(x, Pow2(k)), j) == if j == k then 0 else Bit(x, j) {
      BicBit(x, Pow2(k), j);
      BitOfPow2(k, j);
      BitRange(x, j);
    }
    BicLess(x, Pow2(k));
  }

  lemma {:induction false} BicLess(a: nat, b: nat)
    ensures Bic(a, b) <= a
  {
    if a > 0 {
      BicLess(a / 2, b / 2);
    }
  }

  lemma {:induction false} BitRange(x: nat, k: nat)
    ensures Bit(x, k) < 2
  {
    if k > 0 {
      BitRange(x / 2, k - 1);
    }
  }

  lemma {:induction false} PowLess(j: nat, k: nat)
    requires j < k
    ensures Pow2(j) < Pow2(k)
  {
    if j + 1 < k {
      PowLess(j, k - 1);
    }
  }
}
