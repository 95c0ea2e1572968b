// The bitwise operators of C on unsigned words, over natural numbers.

/** AND, OR, XOR and shifts defined bit by bit, with the laws that turn masks into quotients and remainders. */
module Bits {

  /** One more than the largest 32-bit word. */
  const WORD: nat := 0x1_0000_0000

  type byte = x: int | 0 <= x < 256

  /** Unsigned arithmetic wraps at 32 bits. */
  function Wrap(a: nat): (r: nat)
    ensures r < WORD && (a < WORD ==> r == a)
  {
    a % 0x1_0000_0000
  }

  function Pow2(k: nat): (p: nat)
    ensures p > 0
  {
    if k == 0 then 1 else 2 * Pow2(k - 1)
  }

  lemma {:induction false} Pow2Sum(a: nat, b: nat)
    ensures Pow2(a + b) == Pow2(a) * Pow2(b)
  {
    if a > 0 {
      Pow2Sum(a - 1, b);
      assert 2 * (Pow2(a - 1) * Pow2(b)) == (2 * Pow2(a - 1)) * Pow2(b);
    } else {
      assert Pow2(a) * Pow2(b) == Pow2(b);
    }
  }

  lemma Powers()
    ensures Pow2(2) == 4 && Pow2(5) == 32 && Pow2(8) == 0x100 && Pow2(10) == 0x400
    ensures Pow2(16) == 0x1_0000 && Pow2(22) == 0x40_0000 && Pow2(32) == 0x1_0000_0000
  {
    assert Pow2(5) == 32;
    Pow2Sum(5, 5);
    Pow2Sum(10, 10);
    Pow2Sum(20, 2);
    Pow2Sum(22, 10);
    Pow2Sum(8, 8);
  }

  function And(x: nat, y: nat): nat {
    if x == 0 || y == 0 then 0
    else 2 * And(x / 2, y / 2) + (if x % 2 == 1 && y % 2 == 1 then 1 else 0)
  }

  function Or(x: nat, y: nat): nat {
    if x == 0 && y == 0 then 0
    else 2 * Or(x / 2, y / 2) + (if x % 2 == 1 || y % 2 == 1 then 1 else 0)
  }

  function Xor(x: nat, y: nat): nat {
    if x == 0 && y == 0 then 0
    else 2 * Xor(x / 2, y / 2) + (if x % 2 != y % 2 then 1 else 0)
  }

  function Shl(x: nat, k: nat): nat {
    if k == 0 then x else 2 * Shl(x, k - 1)
  }

  function Shr(x: nat, k: nat): nat {
    if k == 0 then x else Shr(x / 2, k - 1)
  }

  lemma {:induction false} ShlIsTimes(x: nat, k: nat)
    ensures Shl(x, k) == x * Pow2(k)
  {
    if k > 0 {
      ShlIsTimes(x, k - 1);
      TimesTwice(x, Pow2(k - 1));
    }
  }

  lemma TimesTwice(x: nat, p: nat)
    ensures x * (2 * p) == 2 * (x * p)
  {
  }

  lemma {:induction false} ShrIsDiv(x: nat, k: nat)
    ensures Shr(x, k) == x / Pow2(k)
  {
    if k > 0 {
      ShrIsDiv(x / 2, k - 1);
      Halve(x, Pow2(k - 1));
    }
  }

  lemma Halve(x: nat, p: nat)
    requires p > 0
    ensures x / (2 * p) == x / 2 / p
    ensures x % (2 * p) == 2 * (x / 2 % p) + x % 2
  {
    var q, r := x / 2 / p, x / 2 % p;
    assert x / 2 == q * p + r;
    assert x == q * (2 * p) + (2 * r + x % 2) by {
      assert q * (2 * p) == 2 * (q * p);
    }
    QuotientUnique(x, 2 * p, q, 2 * r + x % 2);
  }

  lemma QuotientUnique(x: nat, d: nat, q: nat, r: nat)
    requires d > 0 && x == q * d + r && r < d
    ensures x / d == q && x % d == r
  {
    var q', r' := x / d, x % d;
    assert x == q' * d + r';
    if q' > q {
      TimesMonotone(q + 1, q', d);
    } else if q' < q {
      TimesMonotone(q' + 1, q, d);
    }
  }

  lemma FloorFacts(x: nat, p: nat)
    requires p > 0
    ensures x / p * p <= x < x / p * p + p
    ensures x / p * p % p == 0
  {
    var q := x / p;
    assert x == q * p + x % p;
    QuotientUnique(q * p, p, q, 0);
  }

  lemma TimesMonotone(a: nat, b: nat, d: nat)
    requires a <= b
    ensures a * d <= b * d
  {
    assert b * d == a * d + (b - a) * d;
  }

  /** A mask with `k` clear low bits works on the quotient. */
  lemma {:induction false} AndHigh(x: nat, m: nat, k: nat)
    ensures And(x, Shl(m, k)) == Shl(And(Shr(x, k), m), k)
  {
    if k > 0 {
      AndHigh(x / 2, m, k - 1);
      AndEven(x, Shl(m, k - 1));
    }
  }

  lemma AndEven(x: nat, y: nat)
    ensures And(x, 2 * y) == 2 * And(x / 2, y)
  {
    if x != 0 && y != 0 {
      AndHalves(x, 2 * y, y);
    }
  }

  lemma AndHalves(x: nat, z: nat, y: nat)
    requires x != 0 && z != 0 && z % 2 == 0 && z / 2 == y
    ensures And(x, z) == 2 * And(x / 2, y)
  {
  }

  /** A mask of `k` low bits is the remainder. */
  lemma {:induction false} AndLow(x: nat, k: nat)
    ensures And(x, Pow2(k) - 1) == x % Pow2(k)
  {
    if k > 0 {
      AndLow(x / 2, k - 1);
      Halve(x, Pow2(k - 1));
      var m := Pow2(k) - 1;
      assert m % 2 == 1 && m / 2 == Pow2(k - 1) - 1;
    }
  }

  lemma {:induction false} ShrBelow(x: nat, k: nat, n: nat)
    requires x < Pow2(n + k)
    ensures Shr(x, k) < Pow2(n)
  {
    if k > 0 {
      ShrBelow(x / 2, k - 1, n);
    }
  }

  /** A mask that keeps all of the top `n` bits of an `n + k` bit word only clears the low `k`. */
  lemma AndTop(x: nat, n: nat, k: nat)
    requires x < Pow2(n + k)
    ensures And(x, Shl(Pow2(n) - 1, k)) == Shl(Shr(x, k), k)
  {
    AndHigh(x, Pow2(n) - 1, k);
    ShrBelow(x, k, n);
    var y := Shr(x, k);
    AndLow(y, n);
    QuotientUnique(y, Pow2(n), 0, y);
  }

  lemma ShiftedBack(x: nat, k: nat)
    ensures Shl(Shr(x, k), k) == x / Pow2(k) * Pow2(k)
  {
    ShrIsDiv(x, k);
    ShlIsTimes(x / Pow2(k), k);
  }

  lemma ClearedLowBits(x: nat, k: nat)
    ensures Shl(Shr(x, k), k) <= x < Shl(Shr(x, k), k) + Pow2(k)
    ensures Shl(Shr(x, k), k) % Pow2(k) == 0
  {
    ShiftedBack(x, k);
    FloorFacts(x, Pow2(k));
  }

  /** OR of disjoint fields is their sum. */
  lemma {:induction false} OrFields(a: nat, b: nat, k: nat)
    requires b < Pow2(k)
    ensures Or(Shl(a, k), b) == Shl(a, k) + b
  {
    if k == 0 {
      OrZero(a);
    } else {
      OrFields(a, b / 2, k - 1);
      OrEven(Shl(a, k - 1), b);
    }
  }

  lemma OrEven(x: nat, b: nat)
    ensures Or(2 * x, b) == 2 * Or(x, b / 2) + b % 2
  {
  }

  lemma {:induction false} OrZero(a: nat)
    ensures Or(a, 0) == a
  {
    if a > 0 {
      OrZero(a / 2);
    }
  }

  lemma {:induction false} XorTwice(a: nat, b: nat)
    ensures Xor(Xor(a, b), b) == a
    decreases a + b
  {
    if a != 0 || b != 0 {
      XorTwice(a / 2, b / 2);
      XorHalves(a, b);
      XorHalves(Xor(a, b), b);
    } else {
      assert Xor(a, b) == 0;
    }
  }

  lemma XorHalves(a: nat, b: nat)
    ensures Xor(a, b) / 2 == Xor(a / 2, b / 2)
    ensures Xor(a, b) % 2 == if a % 2 != b % 2 then 1 else 0
  {
  }

  lemma {:induction false} XorBound(a: nat, b: nat, k: nat)
    requires a < Pow2(k) && b < Pow2(k)
    ensures Xor(a, b) < Pow2(k)
  {
    if k > 0 {
      XorBound(a / 2, b / 2, k - 1);
    }
  }
}
