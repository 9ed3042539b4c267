/** Go's int64: a range of the integers, wrap-around arithmetic, and the bit
    operators the ID layout uses. The operators are defined bit by bit on the
    64-bit pattern; the lemmas turn masks and disjoint ors into arithmetic once,
    so that everything above this module reasons about integers. */
module Int64 {

  const TWO63 := 0x8000_0000_0000_0000
  const TWO64 := 0x1_0000_0000_0000_0000

  type int64 = x: int | -TWO63 <= x < TWO63

  /** The int64 that a mathematical result is truncated to. */
  function Wrap(x: int): (r: int64)
    ensures -TWO63 <= x < TWO63 ==> r == x
  {
    (x + TWO63) % TWO64 - TWO63
  }

  /** Go's subtraction of two int64 values. */
  function Sub(x: int64, y: int64): int64 {
    if x - y < -TWO63 then x - y + TWO64
    else if x - y >= TWO63 then x - y - TWO64
    else x - y
  }

  /** Go's addition of two int64 values. */
  function Add(x: int64, y: int64): int64 {
    if x + y < -TWO63 then x + y + TWO64
    else if x + y >= TWO63 then x + y - TWO64
    else x + y
  }

  /** Both wrap, and each undoes the other even then. */
  lemma AddUndoesSub(x: int64, y: int64)
    ensures Add(Sub(x, y), y) == x && Sub(Add(x, y), y) == x
    ensures Add(x, y) == Wrap(x + y) && Sub(x, y) == Wrap(x - y)
  {
  }

  /** The 64-bit pattern of an int64, as a natural number. */
  function Pattern(x: int64): (r: nat)
    ensures r < TWO64 && Wrap(r) == x
  {
    if x < 0 then x + TWO64 else x
  }

  /** Patterns and int64 values correspond one to one. */
  lemma PatternOfWrap(x: int)
    ensures Pattern(Wrap(x)) == x % TWO64
  {
  }

  lemma RemainderIs(y: int, q: int, r: nat)
    requires r < TWO64 && y == q * TWO64 + r
    ensures y % TWO64 == r
  {
  }

  function Pow2(k: nat): (r: nat)
    ensures r > 0
  {
    if k == 0 then 1 else 2 * Pow2(k - 1)
  }

  // ---- Bit operators on patterns ----

  predicate Bit(a: nat, i: nat) {
    if i == 0 then a % 2 == 1 else Bit(a / 2, i - 1)
  }

  function BitOr(a: nat, b: nat): nat {
    if a == 0 && b == 0 then 0
    else 2 * BitOr(a / 2, b / 2) + (if a % 2 == 1 || b % 2 == 1 then 1 else 0)
  }

  function BitAnd(a: nat, b: nat): nat {
    if a == 0 && b == 0 then 0
    else 2 * BitAnd(a / 2, b / 2) + (if a % 2 == 1 && b % 2 == 1 then 1 else 0)
  }

  /** The two recursive operators are the pointwise ones. */
  lemma {:induction false} Pointwise(a: nat, b: nat, i: nat)
    ensures Bit(BitOr(a, b), i) <==> Bit(a, i) || Bit(b, i)
    ensures Bit(BitAnd(a, b), i) <==> Bit(a, i) && Bit(b, i)
    decreases i
  {
    assert BitOr(a, b) / 2 == BitOr(a / 2, b / 2);
    assert BitAnd(a, b) / 2 == BitAnd(a / 2, b / 2);
    if i > 0 {
      Pointwise(a / 2, b / 2, i - 1);
    }
  }

  lemma {:induction false} OrZero(a: nat)
    ensures BitOr(a, 0) == a
  {
    if a > 0 {
      OrZero(a / 2);
    }
  }

  /** Or-ing a value into the low bits left free by a shift adds it. */
  lemma {:induction false} OrDisjoint(hi: nat, lo: nat, k: nat)
    requires lo < Pow2(k)
    ensures BitOr(hi * Pow2(k), lo) == hi * Pow2(k) + lo
    decreases k
  {
    if k == 0 {
      OrZero(hi);
    } else {
      var half := hi * Pow2(k - 1);
      assert hi * Pow2(k) == 2 * half;
      OrDisjoint(hi, lo / 2, k - 1);
    }
  }

  /** Masking with k ones keeps the remainder below 2^k. */
  lemma {:induction false} AndMask(q: nat, r: nat, k: nat)
    requires r < Pow2(k)
    ensures BitAnd(q * Pow2(k) + r, Pow2(k) - 1) == r
    decreases k
  {
    if k == 0 {
      AndZero(q);
    } else {
      AndMask(q, r / 2, k - 1);
      DoubleTerm(q, Pow2(k - 1));
      AndOdd(q * Pow2(k - 1), r, Pow2(k - 1) - 1);
    }
  }

  lemma DoubleTerm(q: nat, p: nat)
    ensures q * (2 * p) == 2 * (q * p)
  {
  }

  lemma AndOdd(half: nat, r: nat, mask: nat)
    ensures BitAnd(2 * half + r, 2 * mask + 1) == 2 * BitAnd(half + r / 2, mask) + r % 2
  {
    assert (2 * half + r) / 2 == half + r / 2;
  }

  lemma {:induction false} AndZero(a: nat)
    ensures BitAnd(a, 0) == 0
  {
    if a > 0 {
      AndZero(a / 2);
    }
  }

  // ---- Go's operators on int64 ----

  function Shl(x: int64, k: nat): int64 {
    Wrap(x * Pow2(k))
  }

  /** Go shifts signed integers arithmetically, rounding down. */
  function Shr(x: int64, k: nat): int {
    x / Pow2(k)
  }

  function Or(x: int64, y: int64): int64 {
    Wrap(BitOr(Pattern(x), Pattern(y)))
  }

  function And(x: int64, y: int64): int64 {
    Wrap(BitAnd(Pattern(x), Pattern(y)))
  }

  lemma PatternRemainders(x: int64)
    ensures Pattern(x) % 1024 == x % 1024 && Pattern(x) % 4096 == x % 4096
  {
    assert TWO64 == 0x40_0000_0000_0000 * 1024 && TWO64 == 0x10_0000_0000_0000 * 4096;
  }

  /** The layout's two masks take remainders, of negative values too. */
  lemma MaskIsRemainder(x: int64)
    ensures And(x, 1023) == x % 1024
    ensures And(x, 4095) == x % 4096
  {
    var a := Pattern(x);
    PatternRemainders(x);
    assert BitAnd(a, 1023) == a % 1024 by {
      Pow2At10And12();
      AndMask(a / 1024, a % 1024, 10);
    }
    assert BitAnd(a, 4095) == a % 4096 by {
      Pow2At10And12();
      AndMask(a / 4096, a % 4096, 12);
    }
  }

  lemma {:induction false} Pow2Splits(i: nat, j: nat)
    ensures Pow2(i + j) == Pow2(i) * Pow2(j)
  {
    if i > 0 {
      Pow2Splits(i - 1, j);
    }
  }

  lemma Pow2At10And12()
    ensures Pow2(10) == 1024 && Pow2(12) == 4096
  {
    assert Pow2(4) == 16;
    assert Pow2(8) == 256;
  }

  lemma Pow2At22()
    ensures Pow2(22) == 0x40_0000
  {
    Pow2At10And12();
    Pow2Splits(10, 12);
  }
}
