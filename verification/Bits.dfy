/** The bitwise operators of C on unsigned numbers, digit by binary digit. */
module Bits {
  function BitOr(a: nat, b: nat): nat
    decreases a + b
  {
    if a == 0 && b == 0 then 0
    else 2 * BitOr(a / 2, b / 2) + (if a % 2 == 1 || b % 2 == 1 then 1 else 0)
  }

  function BitAnd(a: nat, b: nat): nat
    decreases a + b
  {
    if a == 0 && b == 0 then 0
    else 2 * BitAnd(a / 2, b / 2) + (if a % 2 == 1 && b % 2 == 1 then 1 else 0)
  }

  function Power2(k: nat): (p: nat)
    ensures p > 0
  {
    if k == 0 then 1 else 2 * Power2(k - 1)
  }

  function ShiftRight(a: nat, k: nat): nat {
    if k == 0 then a else ShiftRight(a / 2, k - 1)
  }

  function ShiftLeft(a: nat, k: nat): nat {
    a * Power2(k)
  }

  lemma {:induction false} AndZero(a: nat)
    ensures BitAnd(a, 0) == 0
  {
    if a > 0 {
      AndZero(a / 2);
    }
  }

  lemma {:induction false} OrZero(a: nat)
    ensures BitOr(a, 0) == a
  {
    if a > 0 {
      OrZero(a / 2);
    }
  }

  /** A mask of `k` ones keeps the `k` low digits. */
  lemma {:induction false} AndMask(a: nat, k: nat)
    ensures BitAnd(a, Power2(k) - 1) == a % Power2(k)
  {
    if k == 0 {
      AndZero(a);
    } else {
      AndMask(a / 2, k - 1);
      var p := Power2(k - 1);
      assert (2 * p - 1) / 2 == p - 1 && (2 * p - 1) % 2 == 1;
      HalfModulo(a, p);
    }
  }

  lemma HalfModulo(a: nat, p: nat)
    requires p > 0
    ensures a % (2 * p) == 2 * (a / 2 % p) + a % 2
  {
    var q, r := a / 2 / p, a / 2 % p;
    assert a / 2 == p * q + r;
    assert a == (2 * p) * q + (2 * r + a % 2);
    RemainderIs(a, 2 * p, q, 2 * r + a % 2);
  }

  lemma RemainderIs(a: nat, m: nat, q: nat, r: nat)
    requires r < m && a == m * q + r
    ensures a % m == r
  {
    var d := a / m - q;
    assert m * d == r - a % m by {
      assert a == m * (a / m) + a % m;
    }
    MultipleIsFar(m, d);
  }

  lemma MultipleIsFar(m: nat, d: int)
    ensures d >= 1 ==> m * d >= m
    ensures d <= -1 ==> m * d + m <= 0
    ensures d == 0 ==> m * d == 0
  {
    if d >= 1 {
      assert m * d == m + m * (d - 1);
    } else if d <= -1 {
      assert m * d + m == m * (d + 1);
    }
  }

  /** Numbers without a common digit: above and below digit `k`. */
  lemma {:induction false} OrDisjoint(a: nat, b: nat, k: nat)
    requires b < Power2(k)
    ensures BitOr(a * Power2(k), b) == a * Power2(k) + b
  {
    if k == 0 {
      OrZero(a);
    } else {
      var p := Power2(k - 1);
      assert a * Power2(k) == 2 * (a * p);
      OrDisjoint(a, b / 2, k - 1);
    }
  }

  lemma {:induction false} OrCommutes(a: nat, b: nat)
    ensures BitOr(a, b) == BitOr(b, a)
    decreases a + b
  {
    if a > 0 || b > 0 {
      OrCommutes(a / 2, b / 2);
    }
  }

  // ---------- the masks of UTF-8 and UTF-16

  lemma Powers()
    ensures Power2(3) == 8 && Power2(4) == 16 && Power2(5) == 32 && Power2(6) == 64 && Power2(7) == 128
    ensures Power2(8) == 256 && Power2(10) == 1024
  {
    assert Power2(1) == 2 && Power2(2) == 4;
  }

  /** Setting and masking the same lowest digit. */
  lemma OrAndStep(c: nat, o: nat, m: nat)
    ensures BitAnd(BitOr(c, 2 * o), 2 * m + 1) == 2 * BitAnd(BitOr(c / 2, o), m) + c % 2
  {
    var x := BitOr(c, 2 * o);
    assert x == 2 * BitOr(c / 2, o) + c % 2;
    assert x / 2 == BitOr(c / 2, o) && x % 2 == c % 2;
  }

  /** ... and the same three lowest ones. */
  lemma OrAndThreeSteps(c: nat, o: nat, m: nat)
    ensures BitAnd(BitOr(c, 8 * o), 8 * m + 7) == 8 * BitAnd(BitOr(c / 8, o), m) + c % 8
  {
    hide BitAnd, BitOr;
    OrAndStep(c, 4 * o, 4 * m + 3);
    OrAndStep(c / 2, 2 * o, 2 * m + 1);
    OrAndStep(c / 2 / 2, o, m);
  }

  /** A continuation byte, `(c | 0x80) & 0xBF`: the six low digits with the mark 10 in front. */
  lemma ContinuationByte(c: nat)
    ensures BitAnd(BitOr(c, 0x80), 0xBF) == 0x80 + c % 64
  {
    hide BitAnd, BitOr;
    OrAndThreeSteps(c, 0x10, 0x17);
    OrAndThreeSteps(c / 8, 2, 2);
    TopMark(c / 8 / 8);
  }

  lemma ShiftByTwo(c: nat, k: nat)
    ensures ShiftRight(c, k + 2) == ShiftRight(c / 2 / 2, k)
    ensures ShiftRight(c, 0) == c
  {
    assert ShiftRight(c, k + 2) == ShiftRight(c / 2, k + 1);
  }

  lemma ShiftBySix(c: nat)
    ensures ShiftRight(c, 6) == c / 64
  {
    var c2 := c / 2 / 2;
    var c4 := c2 / 2 / 2;
    ShiftByTwo(c, 4);
    ShiftByTwo(c2, 2);
    ShiftByTwo(c4, 0);
  }

  lemma TopMark(c: nat)
    ensures BitAnd(BitOr(c, 2), 2) == 2
  {
    var x := BitOr(c / 2, 1);
    assert x % 2 == 1;
    AndZero(x / 2);
    assert BitAnd(x, 1) == 1;
    assert BitOr(c, 2) / 2 == x;
  }

  /** A leading byte, `(c | mark) & 0xFF`, with `k` digits below the mark. */
  lemma LeadByte(c: nat, m: nat, k: nat)
    requires c < Power2(k) && m * Power2(k) + c < 256
    ensures BitAnd(BitOr(c, m * Power2(k)), 0xFF) == m * Power2(k) + c
  {
    hide BitAnd, BitOr;
    Powers();
    OrCommutes(c, m * Power2(k));
    OrDisjoint(m, c, k);
    AndMask(m * Power2(k) + c, 8);
  }

  /** The 20 digits of a surrogate pair, `((high & 0x3FF) << 10) | (low & 0x3FF)`. */
  lemma PairDigits(high: nat, low: nat)
    ensures BitOr(ShiftLeft(BitAnd(high, 0x3FF), 10), BitAnd(low, 0x3FF)) == high % 0x400 * 0x400 + low % 0x400
  {
    Powers();
    AndMask(high, 10);
    AndMask(low, 10);
    OrDisjoint(high % 0x400, low % 0x400, 10);
  }
}
