/** 32-bit machine words as bounded integers, and C's bitwise operators on them
    (include/util/bits.h).

    Words are integers below 2^32, so that addresses can be added and compared with
    ordinary arithmetic. `&` and `|` are defined bit by bit. The lemmas say when a mask is a
    remainder, and when `|` is `+`: exactly what the kernel's address arithmetic relies on.
 */
module Bits {

  const WORD_LIMIT := 0x1_0000_0000

  type Word = x: int | 0 <= x < WORD_LIMIT

  type Byte = x: int | 0 <= x < 256

  function Pow2(k: nat): (p: nat)
    ensures p > 0
  {
    if k == 0 then 1 else 2 * Pow2(k - 1)
  }

  function And(a: nat, b: nat): nat {
    if a == 0 || b == 0 then 0
    else 2 * And(a / 2, b / 2) + (if a % 2 == 1 && b % 2 == 1 then 1 else 0)
  }

  function Or(a: nat, b: nat): nat {
    if a == 0 && b == 0 then 0
    else 2 * Or(a / 2, b / 2) + (if a % 2 == 1 || b % 2 == 1 then 1 else 0)
  }

  /** `x >> k` */
  function Shr(x: nat, k: nat): nat {
    if k == 0 then x else Shr(x / 2, k - 1)
  }

  /** Bit `i` of `x`. */
  predicate Bit(x: nat, i: nat) {
    if i == 0 then x % 2 == 1 else Bit(x / 2, i - 1)
  }

  /** `~x` on a 32-bit word. */
  function Not(x: Word): Word {
    WORD_LIMIT - 1 - x
  }

  // ----- arithmetic on powers of two

  lemma {:induction false} MulGap(a: nat, b: nat, d: nat)
    requires a < b
    ensures a * d + d <= b * d
    decreases b
  {
    if a + 1 == b {
      assert (a + 1) * d == a * d + d;
    } else {
      MulGap(a, b - 1, d);
      assert (b - 1) * d + d == b * d;
    }
  }

  lemma MulMonotonic(a: nat, b: nat, m: nat)
    requires a <= b
    ensures a * m <= b * m
  {
    if a < b {
      MulGap(a, b, m);
    }
  }

  lemma DivModUnique(x: nat, d: nat, q: nat, r: nat)
    requires r < d && x == q * d + r
    ensures x / d == q && x % d == r
  {
    var q', r' := x / d, x % d;
    if q' < q {
      MulGap(q', q, d);
      assert false;
    } else if q < q' {
      MulGap(q, q', d);
      assert false;
    }
  }

  lemma MulModZero(a: nat, d: nat)
    requires d > 0
    ensures a * d % d == 0
  {
    DivModUnique(a * d, d, a, 0);
  }

  lemma ModDouble(x: nat, p: nat)
    requires p > 0
    ensures x % (2 * p) == 2 * ((x / 2) % p) + x % 2
    ensures x / (2 * p) == (x / 2) / p
  {
    var q, r := (x / 2) / p, (x / 2) % p;
    assert x / 2 == q * p + r;
    assert x == q * (2 * p) + (2 * r + x % 2);
    DivModUnique(x, 2 * p, q, 2 * r + x % 2);
  }

  lemma {:induction false} Pow2Add(a: nat, b: nat)
    ensures Pow2(a + b) == Pow2(a) * Pow2(b)
  {
    if a > 0 {
      Pow2Add(a - 1, b);
    }
  }

  lemma {:induction false} Pow2Monotonic(a: nat, b: nat)
    requires a < b
    ensures 2 * Pow2(a) <= Pow2(b)
  {
    if a + 1 < b {
      Pow2Monotonic(a, b - 1);
    }
  }

  /** The powers that occur as constants in the source. */
  lemma PowersOfTwo()
    ensures Pow2(1) == 2 && Pow2(2) == 4 && Pow2(4) == 16 && Pow2(8) == 256
    ensures Pow2(10) == 0x400 && Pow2(12) == 0x1000 && Pow2(14) == 0x4000 && Pow2(16) == 0x1_0000
    ensures Pow2(20) == 0x10_0000 && Pow2(24) == 0x100_0000 && Pow2(31) == 0x8000_0000
    ensures Pow2(32) == WORD_LIMIT
  {
    assert Pow2(4) == 16;
    assert Pow2(8) == 256;
    assert Pow2(12) == 0x1000;
    assert Pow2(16) == 0x1_0000;
    assert Pow2(20) == 0x10_0000;
    assert Pow2(24) == 0x100_0000;
    assert Pow2(28) == 0x1000_0000;
  }

  lemma {:induction false} ShrIsDiv(x: nat, k: nat)
    ensures Shr(x, k) == x / Pow2(k)
  {
    if k == 0 {
      assert x / 1 == x;
    } else {
      ModDouble(x, Pow2(k - 1));
      ShrIsDiv(x / 2, k - 1);
    }
  }

  // ----- `|` as addition, `&` as remainder

  /** When the set bits of `a` and `b` lie on different sides of bit `k`, `a | b` is `a + b`. */
  lemma {:induction false} OrIsAdd(a: nat, b: nat, k: nat)
    requires a % Pow2(k) == 0 && b < Pow2(k)
    ensures Or(a, b) == a + b
    decreases k
  {
    if k == 0 {
      OrZero(a);
    } else if a != 0 || b != 0 {
      ModDouble(a, Pow2(k - 1));
      OrIsAdd(a / 2, b / 2, k - 1);
    }
  }

  lemma AndDisjoint(a: nat, b: nat, k: nat)
    requires a % Pow2(k) == 0 && b < Pow2(k)
    ensures And(a, b) == And(b, a) == 0
  {
    OrIsAdd(a, b, k);
    OrPlusAnd(a, b);
    OrPlusAnd(b, a);
    OrSymmetric(a, b);
  }

  lemma {:induction false} AndAssoc(a: nat, b: nat, c: nat)
    ensures And(And(a, b), c) == And(a, And(b, c))
  {
    if a != 0 && b != 0 && c != 0 {
      AndAssoc(a / 2, b / 2, c / 2);
    }
  }

  lemma {:induction false} AndOverOr(a: nat, b: nat, m: nat)
    ensures And(Or(a, b), m) == Or(And(a, m), And(b, m))
  {
    if (a != 0 || b != 0) && m != 0 {
      AndOverOr(a / 2, b / 2, m / 2);
      var c, d, e := a % 2, b % 2, m % 2;
      assert And(Or(a, b), m) == 2 * And(Or(a / 2, b / 2), m / 2) + (if (c == 1 || d == 1) && e == 1 then 1 else 0);
    }
  }

  lemma {:induction false} AndSymmetric(a: nat, b: nat)
    ensures And(a, b) == And(b, a)
  {
    if a != 0 && b != 0 {
      AndSymmetric(a / 2, b / 2);
    }
  }

  lemma {:induction false} OrZero(a: nat)
    ensures Or(a, 0) == a && Or(0, a) == a
  {
    if a > 0 {
      OrZero(a / 2);
    }
  }

  lemma OrOne(q: nat)
    ensures Or(q, 1) == if q % 2 == 1 then q else q + 1
  {
    OrZero(q / 2);
  }

  lemma {:induction false} OrSymmetric(a: nat, b: nat)
    ensures Or(a, b) == Or(b, a)
  {
    if a != 0 || b != 0 {
      OrSymmetric(a / 2, b / 2);
    }
  }

  lemma {:induction false} OrAssoc(a: nat, b: nat, c: nat)
    ensures Or(Or(a, b), c) == Or(a, Or(b, c))
  {
    if a != 0 || b != 0 || c != 0 {
      OrAssoc(a / 2, b / 2, c / 2);
    }
  }

  /** `a | b` falls short of `a + b` by exactly the bits the two share. */
  lemma {:induction false} OrPlusAnd(a: nat, b: nat)
    ensures Or(a, b) + And(a, b) == a + b
  {
    if a == 0 || b == 0 {
      OrZero(a);
      OrZero(b);
    } else {
      OrPlusAnd(a / 2, b / 2);
    }
  }

  /** `|` never carries: it acts on the two sides of bit `k` separately. */
  lemma {:induction false} OrShr(a: nat, b: nat, k: nat)
    ensures Shr(Or(a, b), k) == Or(Shr(a, k), Shr(b, k))
    decreases k
  {
    if k > 0 {
      OrHalves(a, b);
      OrShr(a / 2, b / 2, k - 1);
    }
  }

  lemma {:induction false} OrMod(a: nat, b: nat, k: nat)
    ensures Or(a, b) % Pow2(k) == Or(a % Pow2(k), b % Pow2(k))
    decreases k
  {
    if k > 0 {
      var p := Pow2(k - 1);
      ModDouble(a, p);
      ModDouble(b, p);
      ModDouble(Or(a, b), p);
      OrHalves(a, b);
      OrMod(a / 2, b / 2, k - 1);
      OrCombine(a / 2 % p, a % 2, b / 2 % p, b % 2);
    } else {
      assert Or(0, 0) == 0;
    }
  }

  lemma OrHalves(a: nat, b: nat)
    ensures Or(a, b) / 2 == Or(a / 2, b / 2)
    ensures Or(a, b) % 2 == if a % 2 == 1 || b % 2 == 1 then 1 else 0
  {
  }

  lemma OrCombine(x: nat, c: nat, y: nat, d: nat)
    requires c < 2 && d < 2
    ensures Or(2 * x + c, 2 * y + d) == 2 * Or(x, y) + (if c == 1 || d == 1 then 1 else 0)
  {
    OrHalves(2 * x + c, 2 * y + d);
  }

  /** The low `k` bits. */
  function Low(x: nat, k: nat): nat {
    if k == 0 then 0 else 2 * Low(x / 2, k - 1) + x % 2
  }

  lemma {:induction false} LowIsMod(x: nat, k: nat)
    ensures Low(x, k) == x % Pow2(k)
  {
    if k == 0 {
      assert x % 1 == 0;
    } else {
      LowIsMod(x / 2, k - 1);
      ModDouble(x, Pow2(k - 1));
    }
  }

  lemma {:induction false} LowMask(x: nat, k: nat)
    ensures And(x, Pow2(k) - 1) == Low(x, k)
    decreases k
  {
    if k > 0 {
      LowMask(x / 2, k - 1);
      assert (Pow2(k) - 1) / 2 == Pow2(k - 1) - 1;
    }
  }

  lemma {:induction false} FieldMask(x: nat, lo: nat, hi: nat)
    requires lo <= hi
    ensures Pow2(lo) <= Pow2(hi)
    ensures And(x, Pow2(hi) - Pow2(lo)) == Low(x, hi) - Low(x, lo)
    decreases hi
  {
    if lo == 0 {
      LowMask(x, hi);
    } else {
      FieldMask(x / 2, lo - 1, hi - 1);
      AndEvenMask(x, Pow2(hi - 1) - Pow2(lo - 1));
    }
  }

  lemma AndLowMask(x: nat, k: nat)
    ensures And(x, Pow2(k) - 1) == x % Pow2(k)
  {
    LowMask(x, k);
    LowIsMod(x, k);
  }

  /** Masking with ones in lo..hi-1. */
  lemma AndField(x: nat, lo: nat, hi: nat)
    requires lo <= hi
    ensures Pow2(lo) <= Pow2(hi)
    ensures And(x, Pow2(hi) - Pow2(lo)) == x % Pow2(hi) - x % Pow2(lo)
  {
    FieldMask(x, lo, hi);
    LowIsMod(x, lo);
    LowIsMod(x, hi);
  }

  lemma AndHighMask(x: nat, k: nat, n: nat)
    requires k <= n && x < Pow2(n)
    ensures Pow2(k) <= Pow2(n)
    ensures And(x, Pow2(n) - Pow2(k)) == x - x % Pow2(k)
  {
    AndField(x, k, n);
    SmallMod(x, Pow2(n));
  }

  lemma SmallMod(x: nat, d: nat)
    requires x < d
    ensures x % d == x && x / d == 0
  {
  }

  lemma AndEvenMask(x: nat, h: nat)
    ensures And(x, 2 * h) == 2 * And(x / 2, h)
  {
  }

  /** When bit k of `a` is the lowest one that may be set, and is set, or-ing something below
      2^(k+1) adds only its part below 2^k. */
  lemma OrOddUnit(a: nat, x: nat, k: nat)
    requires a % Pow2(k) == 0 && a / Pow2(k) % 2 == 1 && x < 2 * Pow2(k)
    ensures Or(a, x) == a + x % Pow2(k)
  {
    hide And, Or;
    OddUnitHigh(a, x, k);
    assert Or(a, x) % Pow2(k) == x % Pow2(k) by {
      OrMod(a, x, k);
      OrZero(x % Pow2(k));
    }
    SameParts(Or(a, x), a, x % Pow2(k), Pow2(k));
  }

  lemma OddUnitHigh(a: nat, x: nat, k: nat)
    requires a / Pow2(k) % 2 == 1 && x < 2 * Pow2(k)
    ensures Or(a, x) / Pow2(k) == a / Pow2(k)
  {
    hide And, Or;
    OrShr(a, x, k);
    ShrIsDiv(a, k);
    ShrIsDiv(x, k);
    ShrIsDiv(Or(a, x), k);
    BelowTwo(x, Pow2(k));
    if x / Pow2(k) == 0 { OrZero(a / Pow2(k)); } else { OrOne(a / Pow2(k)); }
  }

  lemma BelowTwo(x: nat, p: nat)
    requires x < 2 * p
    ensures x / p < 2
  {
    var q, r := x / p, x % p;
    assert x == q * p + r;
    if q >= 2 { MulMonotonic(2, q, p); }
  }

  lemma SameParts(w: nat, a: nat, r: nat, p: nat)
    requires p > 0 && a % p == 0 && w / p == a / p && w % p == r
    ensures w == a + r
  {
    assert w == w / p * p + w % p && a == a / p * p + a % p;
  }

  // ----- families of addresses `base | (i << u)`

  /** `x << k`, before truncation to a word */
  function Shl(x: nat, k: nat): nat {
    if k == 0 then x else 2 * Shl(x, k - 1)
  }

  lemma {:induction false} ShlIsTimes(x: nat, k: nat)
    ensures Shl(x, k) == x * Pow2(k)
  {
    if k > 0 {
      ShlIsTimes(x, k - 1);
      var p := Pow2(k - 1);
      assert x * (2 * p) == 2 * (x * p);
    }
  }

  lemma {:induction false} AndShl(x: nat, m: nat, k: nat)
    ensures And(Shl(x, k), Shl(m, k)) == Shl(And(x, m), k)
  {
    if k > 0 {
      AndShl(x, m, k - 1);
      AndDoubled(Shl(x, k - 1), Shl(m, k - 1));
    }
  }

  lemma {:induction false} OrShl(x: nat, y: nat, k: nat)
    ensures Or(Shl(x, k), Shl(y, k)) == Shl(Or(x, y), k)
  {
    if k > 0 {
      OrShl(x, y, k - 1);
      OrDoubled(Shl(x, k - 1), Shl(y, k - 1));
    }
  }

  lemma AndDoubled(a: nat, b: nat)
    ensures And(2 * a, 2 * b) == 2 * And(a, b)
  {
  }

  lemma OrDoubled(a: nat, b: nat)
    ensures Or(2 * a, 2 * b) == 2 * Or(a, b)
  {
  }

  /** Or-ing in a bit that is already set changes nothing. */
  lemma {:induction false} OrSetBit(b: nat, j: nat)
    requires Bit(b, j)
    ensures Or(b, Pow2(j)) == b
    decreases j
  {
    if j == 0 {
      OrZero(b / 2);
    } else {
      OrSetBit(b / 2, j - 1);
    }
  }

  lemma {:induction false} BitOfMod(b: nat, k: nat, j: nat)
    requires j < k
    ensures Bit(b % Pow2(k), j) == Bit(b, j)
    decreases k
  {
    ModDouble(b, Pow2(k - 1));
    if j > 0 {
      BitOfMod(b / 2, k - 1, j - 1);
    }
  }

  /** The addresses `base | (i << u)` for i below `count` are pairwise different exactly when
      `base` is aligned to the whole family, rounded up to a power of two. */
  lemma OrFamily(base: nat, u: nat, k: nat, count: nat)
    requires base % Pow2(u) == 0 && k > 0 && Pow2(k - 1) < count <= Pow2(k)
    ensures (base / Pow2(u)) % Pow2(k) == 0 <==>
            forall i, j :: 0 <= i < j < count ==> Or(base, Shl(i, u)) != Or(base, Shl(j, u))
    ensures (base / Pow2(u)) % Pow2(k) == 0 ==> forall i :: 0 <= i < count ==> Or(base, Shl(i, u)) == base + Shl(i, u)
  {
    var b := base / Pow2(u);
    assert base == b * Pow2(u);
    ShlIsTimes(b, u);
    if b % Pow2(k) == 0 {
      forall i | 0 <= i < count ensures Or(base, Shl(i, u)) == base + Shl(i, u) {
        OrShl(b, i, u);
        OrIsAdd(b, i, k);
        ShlSum(b, i, u);
      }
      forall i, j | 0 <= i < j < count ensures Or(base, Shl(i, u)) != Or(base, Shl(j, u)) {
        ShlGrows(i, j, u);
      }
    } else {
      var j := TopBitExists(b % Pow2(k), k);
      TopBit(b % Pow2(k), j);
      BitOfMod(b, k, j);
      OrSetBit(b, j);
      OrShl(b, Pow2(j), u);
      OrShl(b, 0, u);
      OrZero(b);
      if j < k - 1 { Pow2Monotonic(j, k - 1); }
      assert Or(base, Shl(0, u)) == Or(base, Shl(Pow2(j), u));
      assert 0 <= 0 < Pow2(j) < count;
    }
  }

  lemma {:induction false} ShlSum(a: nat, b: nat, k: nat)
    ensures Shl(a + b, k) == Shl(a, k) + Shl(b, k)
  {
    if k > 0 {
      ShlSum(a, b, k - 1);
    }
  }

  lemma {:induction false} ShlGrows(i: nat, j: nat, u: nat)
    requires i < j
    ensures Shl(i, u) < Shl(j, u)
  {
    if u > 0 {
      ShlGrows(i, j, u - 1);
    }
  }

  // ----- single bits

  lemma {:induction false} BitOfOr(a: nat, b: nat, i: nat)
    ensures Bit(Or(a, b), i) <==> Bit(a, i) || Bit(b, i)
    decreases i
  {
    if i == 0 {
    } else if a != 0 || b != 0 {
      BitOfOr(a / 2, b / 2, i - 1);
    }
  }

  lemma {:induction false} BitOfShift(x: nat, m: nat, i: nat)
    ensures Bit(Shr(x, m), i) <==> Bit(x, i + m)
    decreases m
  {
    if m > 0 {
      BitOfShift(x / 2, m - 1, i);
    }
  }

  lemma {:induction false} TopBit(x: nat, k: nat)
    requires Pow2(k) <= x < Pow2(k + 1)
    ensures Bit(x, k)
    ensures forall j :: j > k ==> !Bit(x, j)
  {
    if k == 0 {
      assert x == 1;
      forall j | j > 0 ensures !Bit(x, j) {
        ZeroBits(0, j - 1);
      }
    } else {
      TopBit(x / 2, k - 1);
    }
  }

  lemma {:induction false} ZeroBits(x: nat, j: nat)
    requires x == 0
    ensures !Bit(x, j)
  {
    if j > 0 {
      ZeroBits(x, j - 1);
    }
  }

  /** A number whose set bits are exactly 0..k is 2^(k+1) - 1. */
  lemma {:induction false} AllOnes(y: nat, k: nat)
    requires forall i: nat :: Bit(y, i) <==> i <= k
    ensures y == Pow2(k + 1) - 1
  {
    forall i: nat ensures Bit(y / 2, i) <==> i + 1 <= k {
      assert Bit(y, i + 1) == Bit(y / 2, i);
    }
    assert Bit(y, 0);
    assert Pow2(k + 1) == 2 * Pow2(k);
    if k == 0 {
      NoBits(y / 2);
    } else {
      AllOnes(y / 2, k - 1);
    }
  }

  lemma {:induction false} NoBits(y: nat)
    requires forall i: nat :: !Bit(y, i)
    ensures y == 0
  {
    if y > 0 {
      assert !Bit(y, 0);
      forall i: nat ensures !Bit(y / 2, i) {
        assert Bit(y, i + 1) == Bit(y / 2, i);
      }
      NoBits(y / 2);
    }
  }

  lemma {:induction false} OrBound(a: nat, b: nat, k: nat)
    requires a < Pow2(k) && b < Pow2(k)
    ensures Or(a, b) < Pow2(k)
    decreases k
  {
    if k > 0 {
      OrBound(a / 2, b / 2, k - 1);
    }
  }

  // ----- the highest set bit

  /** Bit `i` of `y` is set exactly when `x` has a set bit in i..i+m-1. */
  ghost predicate Smeared(x: nat, y: nat, m: nat) {
    forall i: nat :: Bit(y, i) <==> BitIn(x, i, i + m)
  }

  /** `x | (x >> k)` */
  function OrShift(x: Word, k: nat): Word {
    PowersOfTwo();
    ShrSmaller(x, k);
    OrBound(x, Shr(x, k), 32);
    Or(x, Shr(x, k))
  }

  lemma {:induction false} ShrSmaller(x: nat, k: nat)
    ensures Shr(x, k) <= x
  {
    if k > 0 {
      ShrSmaller(x / 2, k - 1);
    }
  }

  ghost predicate BitIn(x: nat, lo: nat, hi: nat) {
    exists j: nat :: lo <= j < hi && Bit(x, j)
  }

  lemma BitInSplit(x: nat, a: nat, b: nat, c: nat)
    requires a <= b <= c
    ensures BitIn(x, a, c) <==> BitIn(x, a, b) || BitIn(x, b, c)
  {
    if BitIn(x, a, c) {
      var j: nat :| a <= j < c && Bit(x, j);
      assert if j < b then BitIn(x, a, b) else BitIn(x, b, c);
    }
  }

  /** Or-ing in a copy shifted by the smeared width doubles the width. */
  lemma SmearStep(x: nat, y: Word, m: nat)
    requires Smeared(x, y, m)
    ensures Smeared(x, OrShift(y, m), 2 * m)
  {
    forall i: nat
      ensures Bit(OrShift(y, m), i) <==> BitIn(x, i, i + 2 * m)
    {
      BitOfOr(y, Shr(y, m), i);
      BitOfShift(y, m, i);
      BitInSplit(x, i, i + m, i + 2 * m);
      assert Bit(y, i + m) <==> BitIn(x, i + m, i + m + m);
    }
  }

  /** The or-shifts of `highest_bit` in test.c. */
  function Smear(x: Word): Word {
    OrShift(OrShift(OrShift(OrShift(OrShift(x, 1), 2), 4), 8), 16)
  }

  function HighestBit(x: Word): Word {
    var y := Smear(x);
    y - y / 2
  }

  lemma SmearNone(x: nat)
    ensures Smeared(x, x, 1)
  {
    forall i: nat ensures Bit(x, i) <==> BitIn(x, i, i + 1) {
    }
  }

  lemma SmearFillsBelow(x: Word, k: nat)
    requires Pow2(k) <= x < Pow2(k + 1) && k < 32
    ensures Smear(x) == Pow2(k + 1) - 1
  {
    SmearNone(x);
    SmearStep(x, x, 1);
    var x1 := OrShift(x, 1);
    SmearStep(x, x1, 2);
    var x2 := OrShift(x1, 2);
    SmearStep(x, x2, 4);
    var x3 := OrShift(x2, 4);
    SmearStep(x, x3, 8);
    var x4 := OrShift(x3, 8);
    SmearStep(x, x4, 16);
    TopBit(x, k);
    forall i: nat ensures Bit(Smear(x), i) <==> i <= k {
      assert Bit(Smear(x), i) <==> BitIn(x, i, i + 32);
      assert i <= k ==> i <= k < i + 32 && Bit(x, k);
    }
    AllOnes(Smear(x), k);
  }

  /** Every positive word has a top bit. */
  lemma {:induction false} TopBitExists(x: nat, n: nat) returns (k: nat)
    requires 0 < x < Pow2(n)
    ensures k < n && Pow2(k) <= x < Pow2(k + 1)
    decreases n
  {
    if x == 1 {
      k := 0;
    } else {
      k := TopBitExists(x / 2, n - 1);
      k := k + 1;
    }
  }

  /** `highest_bit` returns the largest power of two at most x (and 0 for 0). */
  lemma HighestBitIsLargestPower(x: Word)
    ensures x == 0 ==> HighestBit(x) == 0
    ensures x > 0 ==>
              exists k :: k < 32 && HighestBit(x) == Pow2(k) && Pow2(k) <= x < 2 * Pow2(k)
  {
    if x > 0 {
      PowersOfTwo();
      var k := TopBitExists(x, 32);
      SmearFillsBelow(x, k);
      assert HighestBit(x) == Pow2(k);
    } else {
      assert OrShift(0, 1) == OrShift(0, 2) == OrShift(0, 4) == OrShift(0, 8) == OrShift(0, 16) == 0;
    }
  }

  // ----- powers of two

  /** `x != 0 && !(x & (x - 1))` */
  predicate IsPowerOfTwo(x: Word) {
    x != 0 && And(x, x - 1) == 0
  }

  lemma {:induction false} AndSelf(x: nat)
    ensures And(x, x) == x
  {
    if x > 0 {
      AndSelf(x / 2);
    }
  }

  lemma {:induction false} PowerOfTwoTest(x: Word)
    ensures IsPowerOfTwo(x) <==> exists k :: Pow2(k) == x
  {
    if x == 0 {
    } else if x == 1 {
      assert Pow2(0) == 1;
    } else if x % 2 == 1 {
      assert (x - 1) / 2 == x / 2;
      AndSelf(x / 2);
      forall k: nat ensures Pow2(k) != x {
        if k > 0 { assert Pow2(k) == 2 * Pow2(k - 1); }
      }
    } else {
      PowerOfTwoTest(x / 2);
      assert (x - 1) / 2 == x / 2 - 1;
      if k: nat :| Pow2(k) == x / 2 {
        assert Pow2(k + 1) == x;
      }
      if k: nat :| Pow2(k) == x {
        assert Pow2(k - 1) == x / 2;
      }
    }
  }

  lemma HighestBitAt(n: Word, k: nat)
    requires Pow2(k) <= n < Pow2(k + 1) && k < 32
    ensures HighestBit(n) == Pow2(k)
  {
    SmearFillsBelow(n, k);
  }

  lemma PowerOfTwoAt(n: Word, k: nat)
    requires Pow2(k) <= n < Pow2(k + 1)
    ensures IsPowerOfTwo(n) <==> n == Pow2(k)
  {
    PowerOfTwoTest(n);
    if j: nat :| Pow2(j) == n && j != k {
      if j < k { Pow2Monotonic(j, k); } else { Pow2Monotonic(k, j); }
    }
  }

  /** `idx_msb`: one more than the index of the top bit, 0 for 0. */
  function IdxMsb(x: nat): nat {
    if x == 0 then 0 else 1 + IdxMsb(x / 2)
  }

  /** `clr_lv_msb`: only the top bit. */
  function ClrLvMsb(x: Word): nat {
    if x > 0 then Pow2(IdxMsb(x) - 1) else 0
  }

  lemma {:induction false} IdxMsbAt(x: nat, k: nat)
    requires Pow2(k) <= x < Pow2(k + 1)
    ensures IdxMsb(x) == k + 1
  {
    if k > 0 {
      IdxMsbAt(x / 2, k - 1);
    }
  }

  lemma PowDivides(a: nat, b: nat)
    requires a <= b
    ensures Pow2(b) % Pow2(a) == 0
  {
    Pow2Add(b - a, a);
    MulModZero(Pow2(b - a), Pow2(a));
  }

  lemma SumAligned(x: nat, y: nat, d: nat)
    requires d > 0 && x % d == 0 && y % d == 0
    ensures (x + y) % d == 0
  {
    var p, q := x / d, y / d;
    assert x == p * d && y == q * d;
    assert x + y == (p + q) * d + 0;
    DivModUnique(x + y, d, p + q, 0);
  }

  // ----- byte order

  /** `endswap32`, before it is clear that the result is a word */
  function EndSwap(x: Word): nat {
    Or(Or(Or(Shl(And(x, 0xFF), 24), Shl(And(x, 0xFF00), 8)), Shr(And(x, 0xFF_0000), 8)), Shr(And(x, 0xFF00_0000), 24))
  }

  /** Byte `i` of a word, least significant first. */
  function WordByte(x: Word, i: nat): Byte
    requires i < 4
  {
    if i == 0 then x % 0x100
    else if i == 1 then x / 0x100 % 0x100
    else if i == 2 then x / 0x1_0000 % 0x100
    else x / 0x100_0000
  }

  lemma SwapFields(x: Word)
    ensures Shl(And(x, 0xFF), 24) == WordByte(x, 0) * 0x100_0000
    ensures Shl(And(x, 0xFF00), 8) == WordByte(x, 1) * 0x1_0000
    ensures Shr(And(x, 0xFF_0000), 8) == WordByte(x, 2) * 0x100
    ensures Shr(And(x, 0xFF00_0000), 24) == WordByte(x, 3)
  {
    FieldZero(x);
    FieldOne(x);
    FieldTwo(x);
    FieldThree(x);
  }

  lemma FieldZero(x: Word)
    ensures Shl(And(x, 0xFF), 24) == WordByte(x, 0) * 0x100_0000
  {
    PowersOfTwo();
    AndLowMask(x, 8);
    ShlIsTimes(And(x, 0xFF), 24);
  }

  lemma FieldOne(x: Word)
    ensures Shl(And(x, 0xFF00), 8) == WordByte(x, 1) * 0x1_0000
  {
    assert Pow2(8) == 0x100 && Pow2(16) == 0x1_0000 by { PowersOfTwo(); }
    AndField(x, 8, 16);
    LowByte(x);
    ShlIsTimes(And(x, 0xFF00), 8);
  }

  lemma LowByte(x: Word)
    ensures x % 0x1_0000 - x % 0x100 == x / 0x100 % 0x100 * 0x100
  {
  }

  lemma FieldTwo(x: Word)
    ensures Shr(And(x, 0xFF_0000), 8) == WordByte(x, 2) * 0x100
  {
    assert Pow2(8) == 0x100 && Pow2(16) == 0x1_0000 && Pow2(24) == 0x100_0000 by { PowersOfTwo(); }
    AndField(x, 16, 24);
    MiddleByte(x);
    ShrIsDiv(And(x, 0xFF_0000), 8);
  }

  lemma MiddleByte(x: Word)
    ensures x % 0x100_0000 - x % 0x1_0000 == x / 0x1_0000 % 0x100 * 0x1_0000
  {
  }

  lemma FieldThree(x: Word)
    ensures Shr(And(x, 0xFF00_0000), 24) == WordByte(x, 3)
  {
    TopMask(x, 0xFF00_0000);
    TopByte(x);
    ShrByte(x - x % 0x100_0000);
  }

  lemma TopMask(x: Word, mask: Word)
    requires mask == 0xFF00_0000
    ensures And(x, mask) == x - x % 0x100_0000
  {
    assert Pow2(24) == 0x100_0000 && Pow2(32) == WORD_LIMIT by { PowersOfTwo(); }
    AndHighMask(x, 24, 32);
  }

  lemma TopByte(x: nat)
    ensures (x - x % 0x100_0000) / 0x100_0000 == x / 0x100_0000
  {
  }

  lemma ShrByte(y: nat)
    ensures Shr(y, 24) == y / 0x100_0000
  {
    assert Pow2(24) == 0x100_0000 by { PowersOfTwo(); }
    ShrIsDiv(y, 24);
  }

  /** A field placed above `d` bits, joined by `|` to something below them, adds up. */
  lemma JoinField(hi: nat, d: nat, lo: nat, k: nat)
    requires d == Pow2(k) && lo < d
    ensures Or(hi * d, lo) == hi * d + lo
  {
    MulModZero(hi, d);
    OrIsAdd(hi * d, lo, k);
  }

  lemma JoinBytes(a: Byte, b: Byte, c: Byte, d: Byte)
    ensures Or(Or(Or(a * 0x100_0000, b * 0x1_0000), c * 0x100), d) == a * 0x100_0000 + b * 0x1_0000 + c * 0x100 + d
  {
    PowersOfTwo();
    JoinField(a, 0x100_0000, b * 0x1_0000, 24);
    JoinField(a * 0x100 + b, 0x1_0000, c * 0x100, 16);
    JoinField(a * 0x1_0000 + b * 0x100 + c, 0x100, d, 8);
  }

  /** Swapping moves byte i to byte 3 - i. */
  lemma EndSwapMeaning(x: Word)
    ensures EndSwap(x) == WordByte(x, 0) * 0x100_0000 + WordByte(x, 1) * 0x1_0000 + WordByte(x, 2) * 0x100 + WordByte(x, 3)
    ensures EndSwap(x) < WORD_LIMIT
  {
    SwapFields(x);
    JoinBytes(WordByte(x, 0), WordByte(x, 1), WordByte(x, 2), WordByte(x, 3));
  }
}
