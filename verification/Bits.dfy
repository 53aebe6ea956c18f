/** 64-bit machine words and the C bit operators on them.

    The operators are defined digit by digit on natural numbers, so that the
    methods of the other modules can be written with the same masks and shifts
    as the kernel.  The lemmas below turn each mask the kernel uses into
    division and remainder by a power of two.
 */
module Bits {

  const W64 := 0x1_0000_0000_0000_0000

  /** uint64_t */
  type Word = x: int | 0 <= x < W64

  function Pow2(k: nat): (p: nat)
    ensures p >= 1
  {
    if k == 0 then 1 else 2 * Pow2(k - 1)
  }

  function And(x: nat, y: nat): nat {
    if x == 0 || y == 0 then 0
    else (if x % 2 == 1 && y % 2 == 1 then 1 else 0) + 2 * And(x / 2, y / 2)
  }

  function Or(x: nat, y: nat): nat {
    if x == 0 && y == 0 then 0
    else (if x % 2 == 1 || y % 2 == 1 then 1 else 0) + 2 * Or(x / 2, y / 2)
  }

  function Xor(x: nat, y: nat): nat {
    if x == 0 && y == 0 then 0
    else (if x % 2 != y % 2 then 1 else 0) + 2 * Xor(x / 2, y / 2)
  }

  /** 64-bit complement */
  function Not(x: Word): Word {
    W64 - 1 - x
  }

  function Shr(x: nat, k: nat): nat {
    NoSign(x, Pow2(k));
    x / Pow2(k)
  }

  lemma NoSign(x: nat, d: nat)
    requires d > 0
    ensures x / d >= 0
  {
    MulMonotone(d, -1, x / d);
    assert x == d * (x / d) + x % d;
  }

  function Shl(x: nat, k: nat): nat {
    if k == 0 then x else 2 * Shl(x, k - 1)
  }

  // ---------------------------------------------------------------- division

  lemma MulSmall(d: int, z: int)
    requires d > 0 && -d < d * z < d
    ensures z == 0
  {
    MulMonotone(d, z, 1);
    MulMonotone(d, -1, z);
  }

  lemma MulMonotone(d: int, a: int, b: int)
    requires d > 0
    ensures a >= b ==> d * a >= d * b
    ensures -1 >= b ==> -d >= d * b
  {
    assert d * a - d * b == d * (a - b);
    assert -d - d * b == d * (-1 - b);
  }

  lemma DivUnique(x: nat, d: nat, q: nat, r: nat)
    requires r < d && x == d * q + r
    ensures x / d == q && x % d == r
  {
    var q', r' := x / d, x % d;
    assert x == d * q' + r' && 0 <= r' < d;
    assert d * (q' - q) == d * q' - d * q;
    MulSmall(d, q' - q);
  }

  /** Dropping the lowest digit commutes with division by a power of two. */
  lemma HalveDivMod(x: nat, p: nat)
    requires p > 0
    ensures x / (2 * p) == x / 2 / p
    ensures x % (2 * p) == x % 2 + 2 * (x / 2 % p)
  {
    var h := x / 2;
    var q, r := h / p, h % p;
    assert h == p * q + r;
    assert x == 2 * h + x % 2;
    assert x == (2 * p) * q + (2 * r + x % 2) by {
      assert (2 * p) * q == 2 * (p * q);
    }
    DivUnique(x, 2 * p, q, 2 * r + x % 2);
  }

  lemma DivDiv(x: nat, a: nat, b: nat)
    requires a > 0 && b > 0
    ensures a * b > 0 && x / a / b == x / (a * b)
    ensures x % (a * b) == x % a + a * (x / a % b)
  {
    var y, r := x / a, x % a;
    var q, s := y / b, y % b;
    Parts(x, a);
    Parts(y, b);
    DivDivIs(x, a, b, y, q, s, r);
  }

  lemma Parts(x: nat, d: nat)
    requires d > 0
    ensures x == d * (x / d) + x % d && 0 <= x % d < d
  {
  }

  lemma DivDivIs(x: nat, a: nat, b: nat, y: nat, q: nat, s: nat, r: nat)
    requires s < b && r < a && x == a * y + r && y == b * q + s
    ensures a * b > 0 && x / (a * b) == q && x % (a * b) == r + a * s
  {
    Regroup(a, b, q, s);
    MulMonotone(a, b - 1, s);
    assert a * (b - 1) == a * b - a;
    assert a * s >= 0;
    DivUnique(x, a * b, q, r + a * s);
  }

  lemma Regroup(a: nat, b: nat, q: nat, s: nat)
    ensures a * (b * q + s) == (a * b) * q + a * s
  {
    assert a * (b * q) == (a * b) * q;
  }

  /** The low digits of x / a, told from x modulo a * b. */
  lemma ModDiv(x: nat, a: nat, b: nat)
    requires a > 0 && b > 0
    ensures a * b > 0 && x % (a * b) / a == x / a % b
    ensures x % (a * b) % a == x % a
  {
    DivDiv(x, a, b);
    DivUnique(x % (a * b), a, x / a % b, x % a);
  }

  /** Adding a multiple of 2*d leaves the digit of weight d alone. */
  lemma SameDigit(x: nat, d: nat, h: nat)
    requires d > 0
    ensures (x + 2 * d * h) / d % 2 == x / d % 2
  {
    var q := x / d;
    assert x + 2 * d * h == d * (q + 2 * h) + x % d by {
      assert d * (q + 2 * h) == d * q + 2 * d * h;
    }
    DivUnique(x + 2 * d * h, d, q + 2 * h, x % d);
  }

  // ------------------------------------------------------------------- masks

  lemma PowStep(k: nat)
    ensures if k == 0 then Pow2(k) == 1 else Pow2(k) == 2 * Pow2(k - 1)
  {
  }

  lemma ShlStep(x: nat, k: nat)
    ensures Shl(x, k) == if k == 0 then x else 2 * Shl(x, k - 1)
  {
  }

  lemma AndStep(x: nat, y: nat)
    ensures And(x, y) == (if x % 2 == 1 && y % 2 == 1 then 1 else 0) + 2 * And(x / 2, y / 2)
  {
  }

  lemma OrStep(x: nat, y: nat)
    ensures Or(x, y) == (if x % 2 == 1 || y % 2 == 1 then 1 else 0) + 2 * Or(x / 2, y / 2)
  {
  }

  lemma XorStep(x: nat, y: nat)
    ensures Xor(x, y) == (if x % 2 != y % 2 then 1 else 0) + 2 * Xor(x / 2, y / 2)
  {
  }

  lemma AndZero(x: nat)
    ensures And(x, 0) == 0 && And(0, x) == 0
  {
  }

  lemma ShrIs(x: nat, k: nat)
    ensures Shr(x, k) == x / Pow2(k)
  {
  }

  lemma ShrStep(x: nat, k: nat)
    ensures Shr(x, k) == if k == 0 then x else Shr(x / 2, k - 1)
  {
    PowStep(k);
    hide Pow2;
    if k == 0 {
      DivUnique(x, 1, x, 0);
    } else {
      HalveDivMod(x, Pow2(k - 1));
    }
  }

  /** x & (2^k - 1) is the remainder modulo 2^k. */
  lemma {:induction false} AndLow(x: nat, k: nat)
    ensures And(x, Pow2(k) - 1) == x % Pow2(k)
  {
    hide And, Pow2;
    PowStep(k);
    if k == 0 {
      AndZero(x);
    } else {
      var p := Pow2(k - 1);
      AndLow(x / 2, k - 1);
      HalveDivMod(x, p);
      AndStep(x, 2 * p - 1);
    }
  }

  /** A mask whose low k digits are zero only sees the digits above. */
  lemma {:induction false} AndHigh(x: nat, y: nat, k: nat)
    ensures And(x, Shl(y, k)) == Shl(And(Shr(x, k), y), k)
  {
    hide And, Shl, Shr;
    ShrStep(x, k);
    ShlStep(y, k);
    ShlStep(And(Shr(x, k), y), k);
    if k > 0 {
      AndHigh(x / 2, y, k - 1);
      AndStep(x, 2 * Shl(y, k - 1));
    }
  }

  lemma {:induction false} ShlMul(x: nat, k: nat)
    ensures Shl(x, k) == Pow2(k) * x
  {
    if k > 0 {
      ShlMul(x, k - 1);
      assert Pow2(k) * x == 2 * (Pow2(k - 1) * x);
    }
  }

  /** x & 2^k tests digit k. */
  lemma AndBit(x: nat, k: nat)
    ensures And(x, Pow2(k)) == Pow2(k) * (Shr(x, k) % 2)
  {
    hide And, Shl, Pow2, Shr;
    AndHigh(x, 1, k);
    ShlMul(1, k);
    ShlMul(Shr(x, k) % 2, k);
    AndStep(Shr(x, k), 1);
    AndZero(Shr(x, k) / 2);
  }

  /** x | y is a sum when y fits below the lowest digit of x. */
  lemma {:induction false} OrDisjoint(x: nat, y: nat, k: nat)
    requires x % Pow2(k) == 0 && y < Pow2(k)
    ensures Or(x, y) == x + y
  {
    hide Or, Pow2;
    PowStep(k);
    if k == 0 {
      OrZero(x);
    } else {
      HalveDivMod(x, Pow2(k - 1));
      OrDisjoint(x / 2, y / 2, k - 1);
      OrStep(x, y);
    }
  }

  lemma {:induction false} OrZero(x: nat)
    ensures Or(x, 0) == x
  {
    if x != 0 {
      OrZero(x / 2);
    }
  }

  /** (x | y) & (2^k - 1) is zero just when both x and y are multiples of 2^k. */
  lemma {:induction false} OrAligned(x: nat, y: nat, k: nat)
    ensures And(Or(x, y), Pow2(k) - 1) == 0 <==> x % Pow2(k) == 0 && y % Pow2(k) == 0
  {
    hide And, Or, Pow2;
    AndLow(Or(x, y), k);
    PowStep(k);
    if k > 0 {
      HalveDivMod(x, Pow2(k - 1));
      HalveDivMod(y, Pow2(k - 1));
      HalveDivMod(Or(x, y), Pow2(k - 1));
      OrStep(x, y);
      OrAligned(x / 2, y / 2, k - 1);
      AndLow(Or(x / 2, y / 2), k - 1);
    }
  }

  /** x ^ 2^k flips digit k. */
  lemma {:induction false} XorBit(x: nat, k: nat)
    ensures Xor(x, Pow2(k)) == if x / Pow2(k) % 2 == 1 then x - Pow2(k) else x + Pow2(k)
    ensures x / Pow2(k) % 2 == 1 ==> x >= Pow2(k)
  {
    hide Xor, Pow2;
    PowStep(k);
    if k == 0 {
      XorStep(x, 1);
      XorZero(x / 2);
      DivUnique(x, 1, x, 0);
    } else {
      HalveDivMod(x, Pow2(k - 1));
      XorBit(x / 2, k - 1);
      XorStep(x, 2 * Pow2(k - 1));
    }
  }

  lemma {:induction false} XorZero(x: nat)
    ensures Xor(x, 0) == x
  {
    if x != 0 {
      XorZero(x / 2);
    }
  }

  /** x | 2^k adds digit k when x lacks it. */
  lemma {:induction false} OrBit(x: nat, k: nat)
    ensures Or(x, Pow2(k)) == if Shr(x, k) % 2 == 1 then x else x + Pow2(k)
  {
    hide Or, Pow2, Shr;
    PowStep(k);
    ShrStep(x, k);
    if k == 0 {
      OrStep(x, 1);
      OrZero(x / 2);
    } else {
      OrBit(x / 2, k - 1);
      OrStep(x, 2 * Pow2(k - 1));
    }
  }

  lemma AndAll(x: nat, n: nat)
    requires x < Pow2(n)
    ensures And(x, Pow2(n) - 1) == x
  {
    hide And, Pow2;
    AndLow(x, n);
    DivUnique(x, Pow2(n), 0, x);
  }

  /** x & ~2^k clears digit k of an n-bit word. */
  lemma {:induction false} AndClear(x: nat, k: nat, n: nat, mask: nat)
    requires k < n && x < Pow2(n) && mask == Pow2(n) - 1 - Pow2(k)
    ensures And(x, mask) == if Shr(x, k) % 2 == 1 then x - Pow2(k) else x
  {
    hide And, Pow2, Shr;
    PowStep(k);
    PowStep(n);
    AndStep(x, mask);
    ShrStep(x, k);
    if k == 0 {
      AndAll(x / 2, n - 1);
    } else {
      AndClear(x / 2, k - 1, n - 1, mask / 2);
    }
  }

  lemma WordPower()
    ensures Pow2(64) == W64
  {
    assert Pow2(8) == 0x100 && Pow2(16) == 0x1_0000 && Pow2(24) == 0x100_0000 && Pow2(32) == 0x1_0000_0000;
    assert Pow2(40) == 0x100_0000_0000 && Pow2(48) == 0x1_0000_0000_0000 && Pow2(56) == 0x100_0000_0000_0000;
  }
}
