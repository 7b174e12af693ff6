/** C's bitwise operators on unsigned values, binary digit by binary digit, and the masks the sources use. */
module Bits {
  import opened Words
  import Modular

  function And(x: nat, y: nat): (r: nat)
    ensures r <= x && r <= y
  {
    if x == 0 || y == 0 then 0 else 2 * And(x / 2, y / 2) + if x % 2 == 1 && y % 2 == 1 then 1 else 0
  }

  function Or(x: nat, y: nat): nat {
    if x == 0 then y else if y == 0 then x
    else 2 * Or(x / 2, y / 2) + if x % 2 == 1 || y % 2 == 1 then 1 else 0
  }

  /** `x & ~y`. */
  function AndNot(x: nat, y: nat): (r: nat)
    ensures r <= x
  {
    if x == 0 then 0 else 2 * AndNot(x / 2, y / 2) + if x % 2 == 1 && y % 2 == 0 then 1 else 0
  }

  /** `x << k` on `uint32_t`. */
  function Shl(x: word32, k: nat): word32 {
    if k == 0 then x else Word(2 * Shl(x, k - 1))
  }

  lemma ShlNext(x: word32, k: nat)
    ensures Shl(x, 0) == x && Shl(x, k + 1) == Word(2 * Shl(x, k))
  {
  }

  lemma ShlIsProduct(x: word32)
    ensures Shl(x, 1) == Word(2 * x) && Shl(x, 2) == Word(4 * x) && Shl(x, 4) == Word(16 * x)
  {
    hide Shl, Word;
    ShlNext(x, 0);
    ShlNext(x, 1);
    ShlNext(x, 2);
    ShlNext(x, 3);
    Doubled(2 * x);
    Doubled(4 * x);
    Doubled(8 * x);
  }

  lemma Doubled(v: int)
    ensures Word(2 * Word(v)) == Word(2 * v)
  {
  }

  predicate IsPowerOfTwo(p: nat) {
    p == 1 || (p >= 2 && p % 2 == 0 && IsPowerOfTwo(p / 2))
  }

  lemma {:induction false} AndCommutes(x: nat, y: nat)
    ensures And(x, y) == And(y, x)
  {
    if x != 0 && y != 0 {
      AndCommutes(x / 2, y / 2);
    }
  }

  /** Or is addition, less what is common to both. */
  lemma {:induction false} OrIsSum(x: nat, y: nat)
    ensures Or(x, y) + And(x, y) == x + y
  {
    if x != 0 && y != 0 {
      OrIsSum(x / 2, y / 2);
    }
  }

  lemma {:induction false} AndNotIsDifference(x: nat, y: nat)
    ensures AndNot(x, y) == x - And(x, y)
  {
    if x != 0 {
      AndNotIsDifference(x / 2, y / 2);
    }
  }

  /** One binary digit of each operand. */
  lemma AndStep(x: nat, y: nat, half: nat)
    requires half == y / 2
    ensures And(x, y) == 2 * And(x / 2, half) + if x % 2 == 1 && y % 2 == 1 then 1 else 0
  {
  }

  lemma AndEven(x: nat, z: nat)
    ensures And(x, 2 * z) == 2 * And(x / 2, z)
  {
    hide And;
    AndStep(x, 2 * z, z);
  }

  lemma AndOdd(x: nat, z: nat)
    ensures And(x, 2 * z + 1) == 2 * And(x / 2, z) + x % 2
  {
    hide And;
    AndStep(x, 2 * z + 1, z);
  }

  lemma HalfOfQuotient(x: nat, h: nat)
    requires h >= 1
    ensures x / (2 * h) == x / 2 / h && x % (2 * h) == 2 * (x / 2 % h) + x % 2
  {
    var q, r := x / 2 / h, x / 2 % h;
    assert x / 2 == h * q + r;
    assert (2 * h) * q == 2 * (h * q);
    Modular.DivModUnique(x, 2 * h, q, 2 * r + x % 2);
  }

  /** The bits below a power of two are the remainder. */
  lemma {:induction false} AndLowBits(x: nat, p: nat)
    requires IsPowerOfTwo(p)
    ensures And(x, p - 1) == x % p
  {
    if p > 1 {
      var h := p / 2;
      AndLowBits(x / 2, h);
      AndOdd(x, h - 1);
      HalfOfQuotient(x, h);
    }
  }

  lemma DoubledProduct(h: nat, a: nat)
    ensures 2 * h * a == 2 * (h * a)
  {
  }

  /** The bits from a power of two on are the quotient. */
  lemma {:induction false} AndHighBits(x: nat, q: nat, y: nat, p: nat, m: nat)
    requires IsPowerOfTwo(p) && q == x / p && m == p * y
    ensures And(x, m) == p * And(q, y)
  {
    hide And, IsPowerOfTwo;
    HalfIsPower(p);
    if p > 1 {
      var h := p / 2;
      var n := h * y;
      DoubledProduct(h, y);
      HalfOfQuotient(x, h);
      AndHighBits(x / 2, q, y, h, n);
      AndEven(x, n);
      DoubledProduct(h, And(q, y));
    }
  }

  lemma HalfIsPower(p: nat)
    requires IsPowerOfTwo(p)
    ensures p >= 1 && (p > 1 ==> p == 2 * (p / 2) && IsPowerOfTwo(p / 2))
  {
  }

  /** Clearing the low bits, and setting them. */
  lemma MaskLowBits(x: nat, p: nat)
    requires IsPowerOfTwo(p)
    ensures AndNot(x, p - 1) == x - x % p && Or(x, p - 1) == x - x % p + (p - 1)
  {
    hide And, Or, AndNot;
    AndLowBits(x, p);
    AndNotIsDifference(x, p - 1);
    OrIsSum(x, p - 1);
  }

  /** Reading one bit, and clearing it. */
  lemma OneBit(x: nat, p: nat, q: nat)
    requires IsPowerOfTwo(p) && q == x / p
    ensures And(x, p) == if q % 2 == 1 then p else 0
    ensures AndNot(x, p) == if q % 2 == 1 then x - p else x
  {
    hide And, AndNot, IsPowerOfTwo;
    AndHighBits(x, q, 1, p, p);
    LowestBit(q);
    AndNotIsDifference(x, p);
  }

  lemma LowestBit(q: nat)
    ensures And(q, 1) == q % 2
  {
  }

  function PowerOfTwo(k: nat): nat {
    if k == 0 then 1 else 2 * PowerOfTwo(k - 1)
  }

  lemma {:induction false} PowersArePowers(k: nat)
    ensures IsPowerOfTwo(PowerOfTwo(k))
  {
    if k > 0 {
      PowersArePowers(k - 1);
      assert PowerOfTwo(k) / 2 == PowerOfTwo(k - 1) && PowerOfTwo(k) >= 2;
    }
  }

  /** The powers of two that the sources use as masks. */
  lemma Powers()
    ensures IsPowerOfTwo(2) && IsPowerOfTwo(4) && IsPowerOfTwo(8) && IsPowerOfTwo(16) && IsPowerOfTwo(32)
    ensures IsPowerOfTwo(64) && IsPowerOfTwo(0x200) && IsPowerOfTwo(0x2000)
    ensures IsPowerOfTwo(0x1000_0000) && IsPowerOfTwo(0x8000_0000)
  {
    hide IsPowerOfTwo;
    PowersArePowers(1);
    PowersArePowers(2);
    PowersArePowers(3);
    PowersArePowers(4);
    PowersArePowers(5);
    PowersArePowers(6);
    PowersArePowers(9);
    PowersArePowers(13);
    assert PowerOfTwo(12) == 0x1000;
    assert PowerOfTwo(20) == 0x10_0000;
    PowersArePowers(28);
    PowersArePowers(31);
  }

  /** Values with no bit in common are joined by adding them. */
  lemma JoinBits(high: nat, p: nat, low: nat)
    requires IsPowerOfTwo(p) && high % p == 0 && low < p
    ensures Or(high, low) == high + low && Or(low, high) == high + low
  {
    hide And, Or;
    var y := high / p;
    assert high == p * y;
    Modular.DivModUnique(low, p, 0, low);
    AndHighBits(low, 0, y, p, high);
    NoBits(y);
    AndCommutes(low, high);
    OrIsSum(high, low);
    OrIsSum(low, high);
  }

  lemma NoBits(y: nat)
    ensures And(0, y) == 0
  {
  }
}
