/** C's bitwise operators on unsigned words, and the facts about masks that the drivers rely on.

    The operators are defined one binary digit at a time, so the masks in the other modules can be
    written with the constants of the C source; the lemmas turn them into division and remainder. */
module Bits {
  const TWO32: nat := 0x1_0000_0000

  /** A 32-bit unsigned integer. */
  type Word = x: nat | x < TWO32

  /** Unsigned 32-bit arithmetic keeps the low 32 bits. */
  function Wrap(x: int): (w: Word) {
    x % TWO32
  }

  lemma WrapSmall(x: nat)
    requires x < TWO32
    ensures Wrap(x) == x
  {
  }

  lemma WrapAdd(x: int, d: int)
    ensures Wrap(Wrap(x) + d) == Wrap(x + d)
  {
  }

  /** The value of a 32-bit pattern read as a signed int. */
  function Signed(w: Word): (i: int)
    ensures -0x8000_0000 <= i < 0x8000_0000
    ensures Wrap(i) == w
  {
    if w < 0x8000_0000 then w else w - TWO32
  }

  /** C's `x << n` before any truncation. */
  function Shl(x: nat, n: nat): (r: nat)
    ensures r >= x
  {
    if n == 0 then x else 2 * Shl(x, n - 1)
  }

  function And(x: nat, y: nat): nat
  {
    if x == 0 then 0 else if y == 0 then 0
    else 2 * And(x / 2, y / 2) + (if x % 2 == 1 && y % 2 == 1 then 1 else 0)
  }

  function Or(x: nat, y: nat): nat
  {
    if x == 0 then y else if y == 0 then x
    else 2 * Or(x / 2, y / 2) + (if x % 2 == 1 || y % 2 == 1 then 1 else 0)
  }

  lemma AndStep(x: nat, y: nat)
    ensures And(x, y) == 2 * And(x / 2, y / 2) + (if x % 2 == 1 && y % 2 == 1 then 1 else 0)
  {
  }

  lemma OrStep(x: nat, y: nat)
    ensures Or(x, y) == 2 * Or(x / 2, y / 2) + (if x % 2 == 1 || y % 2 == 1 then 1 else 0)
  {
  }

  lemma {:induction false} AndBound(x: nat, y: nat)
    ensures And(x, y) <= x && And(x, y) <= y
  {
    if x == 0 || y == 0 {
    } else {
      AndBound(x / 2, y / 2);
    }
  }

  lemma HalfBound(b: nat, n: nat)
    requires n > 0 && b < Shl(1, n)
    ensures b / 2 < Shl(1, n - 1)
  {
  }

  lemma AndJoinStep(a: nat, b: nat, c: nat, d: nat, n: nat)
    requires n > 0 && And(Shl(a, n - 1) + b / 2, Shl(c, n - 1) + d / 2) == Shl(And(a, c), n - 1) + And(b / 2, d / 2)
    ensures And(Shl(a, n) + b, Shl(c, n) + d) == Shl(And(a, c), n) + And(b, d)
  {
    hide And;
    AndHalves(Shl(a, n - 1), b, Shl(c, n - 1), d, Shl(And(a, c), n - 1));
  }

  lemma AndHalves(u: nat, b: nat, v: nat, d: nat, w: nat)
    requires And(u + b / 2, v + d / 2) == w + And(b / 2, d / 2)
    ensures And(2 * u + b, 2 * v + d) == 2 * w + And(b, d)
  {
    AndStep(2 * u + b, 2 * v + d);
    AndStep(b, d);
  }

  lemma OrHalves(u: nat, b: nat, v: nat, d: nat, w: nat)
    requires Or(u + b / 2, v + d / 2) == w + Or(b / 2, d / 2)
    ensures Or(2 * u + b, 2 * v + d) == 2 * w + Or(b, d)
  {
    OrStep(2 * u + b, 2 * v + d);
    OrStep(b, d);
  }

  /** And of two words cut at position n: the parts above and below do not interact. */
  lemma {:induction false} AndJoin(a: nat, b: nat, c: nat, d: nat, n: nat)
    requires b < Shl(1, n) && d < Shl(1, n)
    ensures And(Shl(a, n) + b, Shl(c, n) + d) == Shl(And(a, c), n) + And(b, d)
    decreases n
  {
    if n == 0 {
      assert b == 0 && d == 0 && And(0, 0) == 0;
    } else {
      hide And, Shl;
      HalfBound(b, n);
      HalfBound(d, n);
      AndJoin(a, b / 2, c, d / 2, n - 1);
      AndJoinStep(a, b, c, d, n);
    }
  }

  /** Or of two words cut at position n. */
  lemma {:induction false} OrJoin(a: nat, b: nat, c: nat, d: nat, n: nat)
    requires b < Shl(1, n) && d < Shl(1, n)
    ensures Or(Shl(a, n) + b, Shl(c, n) + d) == Shl(Or(a, c), n) + Or(b, d)
    decreases n
  {
    if n == 0 {
    } else {
      HalfBound(b, n);
      HalfBound(d, n);
      OrJoin(a, b / 2, c, d / 2, n - 1);
      OrHalves(Shl(a, n - 1), b, Shl(c, n - 1), d, Shl(Or(a, c), n - 1));
    }
  }

  lemma {:induction false} OrCommutes(x: nat, y: nat)
    ensures Or(x, y) == Or(y, x)
  {
    if x == 0 || y == 0 {
    } else {
      OrCommutes(x / 2, y / 2);
    }
  }

  lemma {:induction false} ShlZero(n: nat)
    ensures Shl(0, n) == 0
  {
    if n > 0 { ShlZero(n - 1); }
  }

  lemma OrZero(x: nat)
    ensures Or(0, x) == x && Or(x, 0) == x
  {
  }

  lemma {:induction false} OrFits(x: nat, y: nat, n: nat)
    requires x < Shl(1, n) && y < Shl(1, n)
    ensures Or(x, y) < Shl(1, n)
  {
    if n > 0 {
      HalfBound(x, n);
      HalfBound(y, n);
      OrFits(x / 2, y / 2, n - 1);
      OrStep(x, y);
    }
  }

  lemma WordIs32Bits()
    ensures Shl(1, 32) == TWO32 && Shl(1, 31) == 0x8000_0000
  {
    ShlValues(1);
    ShlAdd(1, 24, 8);
    ShlAdd(1, 24, 7);
    Shl8(Shl(1, 24));
  }

  /** The bitwise operators do not leave the 32-bit range. */
  lemma WordOps(x: Word, y: Word)
    ensures And(x, y) < TWO32 && Or(x, y) < TWO32
  {
    AndBound(x, y);
    WordIs32Bits();
    OrFits(x, y, 32);
  }

  /** A mask of n ones keeps an n-bit word. */
  lemma {:induction false} AndOnes(x: nat, n: nat)
    requires x < Shl(1, n)
    ensures And(x, Shl(1, n) - 1) == x
  {
    if n == 0 {
    } else {
      HalfBound(x, n);
      AndOnes(x / 2, n - 1);
      AndStep(x, Shl(1, n) - 1);
    }
  }

  /** A mask of n ones keeps the low n bits. */
  lemma AndLow(a: nat, b: nat, n: nat)
    requires b < Shl(1, n)
    ensures And(Shl(a, n) + b, Shl(1, n) - 1) == b
  {
    ShlZero(n);
    AndJoin(a, b, 0, Shl(1, n) - 1, n);
    AndOnes(b, n);
  }

  /** A mask of m ones above n zeros clears the low n bits of a word of m + n bits. */
  lemma AndHigh(a: nat, b: nat, m: nat, n: nat)
    requires a < Shl(1, m) && b < Shl(1, n)
    ensures And(Shl(a, n) + b, Shl(Shl(1, m) - 1, n)) == Shl(a, n)
  {
    AndJoin(a, b, Shl(1, m) - 1, 0, n);
    AndOnes(a, m);
  }

  /** Or with a field below position n leaves the bits above alone. */
  lemma OrLow(a: nat, x: nat, y: nat, n: nat)
    requires x < Shl(1, n) && y < Shl(1, n)
    ensures Or(Shl(a, n) + x, y) == Shl(a, n) + Or(x, y)
  {
    ShlZero(n);
    OrJoin(a, x, 0, y, n);
  }

  /** Or of two fields that lie on either side of position n is their sum. */
  lemma OrAdds(a: nat, y: nat, n: nat)
    requires y < Shl(1, n)
    ensures Or(Shl(a, n), y) == Shl(a, n) + y
    ensures Or(y, Shl(a, n)) == Shl(a, n) + y
  {
    OrLow(a, 0, y, n);
    OrCommutes(y, Shl(a, n));
  }

  lemma {:induction false} ShlAdd(x: nat, m: nat, n: nat)
    ensures Shl(Shl(x, m), n) == Shl(x, m + n)
    decreases n
  {
    if n > 0 { ShlAdd(x, m, n - 1); }
  }

  lemma Shl8(x: nat)
    ensures Shl(x, 2) == x * 4 && Shl(x, 4) == x * 0x10 && Shl(x, 5) == x * 0x20
    ensures Shl(x, 6) == x * 0x40 && Shl(x, 7) == x * 0x80 && Shl(x, 8) == x * 0x100
  {
    assert Shl(x, 2) == 2 * Shl(x, 1);
    assert Shl(x, 4) == 2 * Shl(x, 3);
    assert Shl(x, 6) == 2 * Shl(x, 5);
    assert Shl(x, 7) == 2 * Shl(x, 6);
  }

  /** The shifts that the drivers use, as multiplications. */
  lemma ShlValues(x: nat)
    ensures Shl(x, 2) == x * 4 && Shl(x, 4) == x * 0x10 && Shl(x, 5) == x * 0x20 && Shl(x, 8) == x * 0x100
    ensures Shl(x, 9) == x * 0x200 && Shl(x, 10) == x * 0x400 && Shl(x, 12) == x * 0x1000
    ensures Shl(x, 14) == x * 0x4000 && Shl(x, 16) == x * 0x1_0000 && Shl(x, 20) == x * 0x10_0000
    ensures Shl(x, 22) == x * 0x40_0000 && Shl(x, 24) == x * 0x100_0000
  {
    hide Shl;
    Shl8(x);
    var y := Shl(x, 8);
    Shl8(y);
    ShlAdd(x, 8, 8);
    ShlAdd(x, 8, 4);
    ShlAdd(x, 8, 6);
    ShlAdd(x, 8, 2);
    ShlAdd(x, 5, 4);
    Shl8(Shl(x, 5));
    var z := Shl(y, 8);
    Shl8(z);
    ShlAdd(x, 16, 4);
    ShlAdd(x, 16, 6);
    ShlAdd(x, 16, 8);
  }
}
