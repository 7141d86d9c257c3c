/** Numbers after section 6 of RFC 8259, and the integers they are read as. */
module NumberSyntax {
  import Bits
  import opened Bytes
  import opened Render
  import opened NumberText

  /** `n` is written in decimal by `d`, leading zeros included: the place `k` from the right holds its digit. */
  ghost predicate Names(d: seq<byte>, n: nat) {
    && n < Power10(|d|)
    && forall k {:trigger Power10(k)} :: 0 <= k < |d| ==> d[|d| - 1 - k] == 48 + n / Power10(k) % 10
  }

  /** The parts of a number; an empty fraction or exponent stands for none. */
  datatype Numeral = Numeral(minus: bool, whole: seq<byte>, fraction: seq<byte>, exponent: seq<byte>,
                             letter: byte, sign: Option<byte>)

  ghost predicate IsNumeral(x: Numeral) {
    && AllDigits(x.whole) && x.whole != [] && AllDigits(x.fraction) && AllDigits(x.exponent)
    && x.letter in {69, 101} && (x.sign.Some? ==> x.sign.value in {43, 45})
  }

  function SignText(x: Numeral): seq<byte> {
    if x.minus then [45] else []
  }

  function FractionText(x: Numeral): seq<byte> {
    if x.fraction == [] then [] else [46] + x.fraction
  }

  function ExponentMark(x: Numeral): seq<byte> {
    [x.letter] + if x.sign.Some? then [x.sign.value] else []
  }

  function ExponentText(x: Numeral): seq<byte> {
    if x.exponent == [] then [] else ExponentMark(x) + x.exponent
  }

  function NumeralText(x: Numeral): seq<byte> {
    SignText(x) + x.whole + FractionText(x) + ExponentText(x)
  }

  /** The power of ten of the last digit, when the exponent is `e` without its sign. */
  function Scale(x: Numeral, e: nat): int {
    if x.sign == Some(45) then -(e as int) - |x.fraction| else e - |x.fraction|
  }

  /** `m` is the value `digits` times ten to the `scale`, truncated. */
  ghost predicate Truncates(digits: nat, scale: int, m: nat) {
    if scale >= 0 then m == digits * Power10(scale)
    else m * Power10(-scale) <= digits < (m + 1) * Power10(-scale)
  }

  /** What is left of a magnitude in a 32-bit integer. */
  function Clamped(minus: bool, m: nat): int32 {
    if minus then
      if m > 2147483647 then -2147483648 else -(m as int)
    else
      if m > 2147483647 then 2147483647 else m
  }

  // ---------- digits

  lemma QuotientByTen(n: nat, p: nat)
    requires p > 0
    ensures n / (10 * p) == n / 10 / p
  {
    var q, r := n / 10 / p, n / 10 % p;
    assert n / 10 == p * q + r;
    assert n == 10 * p * q + (10 * r + n % 10);
    QuotientIs(n, 10 * p, q, 10 * r + n % 10);
  }

  lemma QuotientIs(a: nat, m: nat, q: nat, r: nat)
    requires r < m && a == m * q + r
    ensures a / m == q
  {
    Bits.RemainderIs(a, m, q, r);
    assert a == m * (a / m) + a % m;
    Bits.MultipleIsFar(m, a / m - q);
  }

  lemma NextPlace(n: nat, k: nat)
    ensures n / Power10(k + 1) == n / 10 / Power10(k)
    ensures n / Power10(0) == n
    ensures n < Power10(k + 1) <==> n / 10 < Power10(k)
  {
    assert Power10(k + 1) == 10 * Power10(k) && Power10(0) == 1;
    hide Power10;
    QuotientByTen(n, Power10(k));
  }

  lemma NamesTail(d: seq<byte>, n: nat)
    requires Names(d, n) && d != []
    ensures Names(d[..|d| - 1], n / 10) && d[|d| - 1] == 48 + n % 10
  {
    hide Power10;
    var front := d[..|d| - 1];
    NextPlace(n, |front|);
    assert d[|d| - 1 - 0] == 48 + n / Power10(0) % 10;
    forall k {:trigger Power10(k)} | 0 <= k < |front|
      ensures front[|front| - 1 - k] == 48 + n / 10 / Power10(k) % 10
    {
      NextPlace(n, k);
      assert d[|d| - 1 - (k + 1)] == 48 + n / Power10(k + 1) % 10;
    }
  }

  lemma {:induction false} NamedIsValue(d: seq<byte>, n: nat)
    requires Names(d, n)
    ensures AllDigits(d) && DigitsValue(d) == n
  {
    if d != [] {
      NamesTail(d, n);
      NamedIsValue(d[..|d| - 1], n / 10);
      forall k | 0 <= k < |d|
        ensures IsDigit(d[k])
      {
        assert k < |d| - 1 ==> d[k] == d[..|d| - 1][k];
      }
    } else {
      assert Power10(0) == 1;
    }
  }

  lemma NamesMore(d: seq<byte>, n: nat)
    requires d != [] && Names(d[..|d| - 1], n / 10) && d[|d| - 1] == 48 + n % 10
    ensures Names(d, n)
  {
    hide Power10;
    var front := d[..|d| - 1];
    NextPlace(n, |front|);
    forall k {:trigger Power10(k)} | 0 <= k < |d|
      ensures d[|d| - 1 - k] == 48 + n / Power10(k) % 10
    {
      if k > 0 {
        NextPlace(n, k - 1);
        assert front[|front| - 1 - (k - 1)] == 48 + n / 10 / Power10(k - 1) % 10;
      }
    }
  }

  /** The printer's digits name the number, and a number of several digits does not start with a zero. */
  lemma {:induction false} DigitsNameTheNumber(n: nat)
    ensures Names(Digits(n), n) && (n >= 10 ==> |Digits(n)| > 1 && Digits(n)[0] != 48)
    ensures n < 10 ==> Digits(n) == [48 + n]
  {
    hide Names;
    var d := Digits(n);
    if n >= 10 {
      DigitsNameTheNumber(n / 10);
      assert d[..|d| - 1] == Digits(n / 10);
      NamesMore(d, n);
    } else {
      NothingNamesZero();
      assert d[..0] == [];
      NamesMore(d, n);
    }
  }

  lemma NothingNamesZero()
    ensures Names([], 0)
  {
  }

  // ---------- `strtod`

  lemma {:induction false} DigitRunIs(t: seq<byte>, i: nat, d: seq<byte>)
    requires At(t, i, d) && AllDigits(d) && (i + |d| < |t| ==> !IsDigit(t[i + |d|]))
    ensures DigitRun(t, i) == |d|
    decreases |d|
  {
    if d != [] {
      AtFirst(t, i, d);
      assert d == [d[0]] + d[1..];
      AtConcat(t, i, [d[0]], d[1..]);
      DigitRunIs(t, i + 1, d[1..]);
    }
  }

  /** Where the parts stand in the text. */
  lemma PartsStand(x: Numeral)
    requires IsNumeral(x)
    ensures var t, a := NumeralText(x), |SignText(x)|;
            var b := a + |x.whole|;
            var c := b + |FractionText(x)|;
            && At(t, a, x.whole) && At(t, b, FractionText(x))
            && At(t, c, ExponentText(x)) && c + |ExponentText(x)| == |t|
            && (x.minus ==> t[0] == 45) && (!x.minus ==> IsDigit(t[0])) && IsDigit(t[a])
  {
    hide AllDigits, FractionText, ExponentText;
    var t, a := NumeralText(x), |SignText(x)|;
    AtWhole(t);
    AtConcat(t, 0, SignText(x) + x.whole + FractionText(x), ExponentText(x));
    AtConcat(t, 0, SignText(x) + x.whole, FractionText(x));
    AtConcat(t, 0, SignText(x), x.whole);
    AtFirst(t, a, x.whole);
    FirstIsDigit(x.whole);
    if x.minus {
      AtFirst(t, 0, SignText(x));
    }
  }

  lemma AtWhole(t: seq<byte>)
    ensures At(t, 0, t)
  {
  }

  lemma FirstIsDigit(d: seq<byte>)
    requires AllDigits(d) && d != []
    ensures IsDigit(d[0])
  {
  }

  lemma SliceIs(t: seq<byte>, i: nat, w: seq<byte>)
    requires At(t, i, w)
    ensures i + |w| <= |t| && t[i..i + |w|] == w
  {
  }

  lemma WholeIsRead(t: seq<byte>, i: nat, whole: seq<byte>)
    requires At(t, i, whole) && AllDigits(whole) && whole != []
    requires i + |whole| < |t| ==> !IsDigit(t[i + |whole|]) && t[i + |whole|] != DOT
    ensures Significand(t, i) == Subject(i + |whole|, DigitsValue(whole), 0)
  {
    hide At, AllDigits, DigitsValue, DigitRun, IsDigit;
    DigitRunIs(t, i, whole);
    SliceIs(t, i, whole);
  }

  lemma FractionIsRead(t: seq<byte>, i: nat, whole: seq<byte>, fraction: seq<byte>)
    requires At(t, i, whole) && AllDigits(whole) && whole != [] && i + |whole| < |t| && t[i + |whole|] == DOT
    requires At(t, i + |whole| + 1, fraction) && AllDigits(fraction)
    requires i + |whole| + 1 + |fraction| < |t| ==> !IsDigit(t[i + |whole| + 1 + |fraction|])
    ensures AllDigits(whole + fraction)
    ensures Significand(t, i) ==
            Subject(i + |whole| + 1 + |fraction|, DigitsValue(whole + fraction), -|fraction|)
  {
    hide At, DigitsValue, DigitRun, IsDigit;
    NotADigit(46);
    DigitRunIs(t, i, whole);
    DigitRunIs(t, i + |whole| + 1, fraction);
    SliceIs(t, i, whole);
    SliceIs(t, i + |whole| + 1, fraction);
  }

  lemma SignificandIs(x: Numeral)
    requires IsNumeral(x)
    ensures var t, a := NumeralText(x), |SignText(x)|;
            && SignLength(t, 0) == a && AllDigits(x.whole + x.fraction)
            && Significand(t, a) ==
               Subject(a + |x.whole| + |FractionText(x)|, DigitsValue(x.whole + x.fraction), -|x.fraction|)
  {
    hide DigitsValue, DigitRun, ExponentText, NumeralText, IsDigit, Significand, At, AllDigits;
    var t, a := NumeralText(x), |SignText(x)|;
    var b := a + |x.whole|;
    var c := b + |FractionText(x)|;
    PartsStand(x);
    NotASign(t[0]);
    if ExponentText(x) != [] {
      FirstOfExponent(x);
      AtFirst(t, c, ExponentText(x));
    }
    if x.fraction == [] {
      WholeIsRead(t, a, x.whole);
      assert x.whole + x.fraction == x.whole;
    } else {
      AtFirst(t, b, FractionText(x));
      AtConcat(t, b, [46], x.fraction);
      FractionIsRead(t, a, x.whole, x.fraction);
    }
  }

  lemma NotASign(b: byte)
    ensures IsDigit(b) ==> b != PLUS && b != MINUS
  {
  }

  lemma NotADigit(b: byte)
    requires b in {46, 69, 101, 43, 45}
    ensures !IsDigit(b)
  {
  }

  lemma FirstOfExponent(x: Numeral)
    requires IsNumeral(x) && ExponentText(x) != []
    ensures ExponentText(x)[0] == x.letter && !IsDigit(x.letter) && x.letter != DOT
  {
  }

  /** The exponent behind a significand. */
  lemma ExponentIsRead(t: seq<byte>, r: Subject, x: Numeral)
    requires IsNumeral(x) && x.exponent != [] && r.Subject? && Significand(t, SignLength(t, 0)) == r
    requires At(t, r.used, ExponentMark(x)) && At(t, r.used + |ExponentMark(x)|, x.exponent)
    requires r.used + |ExponentMark(x)| + |x.exponent| == |t|
    ensures var e := DigitsValue(x.exponent);
            Strtod(t) == Subject(|t|, r.mantissa, if x.sign == Some(45) then r.exponent - e else r.exponent + e)
  {
    hide At, DigitsValue, DigitRun, IsDigit, AllDigits, Significand;
    var mark := ExponentMark(x);
    var first := r.used + |mark|;
    AtIndex(t, r.used, mark);
    assert t[r.used + 0] == mark[0];
    if x.sign.Some? {
      assert t[r.used + 1] == mark[1];
    }
    AtFirst(t, first, x.exponent);
    FirstIsDigit(x.exponent);
    NotASign(t[first]);
    DigitRunIs(t, first, x.exponent);
    SliceIs(t, first, x.exponent);
    assert SignLength(t, r.used + 1) == |mark| - 1;
  }

  lemma StrtodOfNumeral(x: Numeral)
    requires IsNumeral(x)
    ensures AllDigits(x.whole + x.fraction)
    ensures Strtod(NumeralText(x)) ==
            Subject(|NumeralText(x)|, DigitsValue(x.whole + x.fraction), Scale(x, DigitsValue(x.exponent)))
  {
    hide DigitsValue, DigitRun, NumeralText, Significand, FractionText, SignText, At, AllDigits, SignLength;
    var t, c := NumeralText(x), |SignText(x)| + |x.whole| + |FractionText(x)|;
    PartsStand(x);
    SignificandIs(x);
    EmptyValue();
    if x.exponent != [] {
      AtConcat(t, c, ExponentMark(x), x.exponent);
      ExponentIsRead(t, Significand(t, SignLength(t, 0)), x);
    }
  }

  lemma EmptyValue()
    ensures DigitsValue([]) == 0
  {
  }

  // ---------- the item

  lemma TokenIs(s: seq<byte>, i: nat, w: seq<byte>)
    requires At(s, i, w) && |w| <= 63 && i + |w| < |s| && !IsNumberChar(s[i + |w|])
    requires forall k :: 0 <= k < |w| ==> IsNumberChar(w[k])
    ensures NumberToken(s, i) == w
  {
    TokenOf(s, i, w, 63);
  }

  lemma {:induction false} TokenOf(s: seq<byte>, i: nat, w: seq<byte>, budget: nat)
    requires At(s, i, w) && |w| <= budget && i + |w| < |s| && !IsNumberChar(s[i + |w|])
    requires forall k :: 0 <= k < |w| ==> IsNumberChar(w[k])
    ensures TokenLength(s, i, budget) == |w|
    decreases |w|
  {
    if w != [] {
      AtFirst(s, i, w);
      assert w == [w[0]] + w[1..];
      AtConcat(s, i, [w[0]], w[1..]);
      TokenOf(s, i + 1, w[1..], budget - 1);
    }
  }

  lemma TextHoldsNumberChars(x: Numeral)
    requires IsNumeral(x)
    ensures forall b <- NumeralText(x) :: IsNumberChar(b)
  {
    assert forall b <- SignText(x) :: IsNumberChar(b);
    assert forall b <- x.whole :: IsDigit(b);
    assert forall b <- FractionText(x) :: IsNumberChar(b);
    assert forall b <- ExponentMark(x) :: IsNumberChar(b);
    assert forall b <- ExponentText(x) :: IsNumberChar(b);
  }

  lemma QuotientTruncates(digits: nat, p: nat, m: nat)
    requires p > 0 && m * p <= digits < (m + 1) * p
    ensures digits / p == m
  {
    assert (m + 1) * p == p * m + p;
    QuotientIs(digits, p, m, digits - p * m);
  }

  lemma SaturatedIsClamped(minus: bool, digits: nat, scale: int, m: nat)
    requires Truncates(digits, scale, m)
    ensures Saturated(minus, digits, scale) == Clamped(minus, m)
  {
    hide Power10;
    if scale < 0 {
      QuotientTruncates(digits, Power10(-scale), m);
    }
  }

  /**
    A number of at most 63 characters, behind which no number character stands, is read as its value
    truncated toward zero and saturated to 32 bits, whatever its fraction and its exponent.
   */
  lemma NumeralIsRead(s: seq<byte>, i: nat, x: Numeral, digits: nat, e: nat, m: nat)
    requires IsNumeral(x) && At(s, i, NumeralText(x)) && |NumeralText(x)| <= 63
    requires i + |NumeralText(x)| < |s| && !IsNumberChar(s[i + |NumeralText(x)|])
    requires Names(x.whole + x.fraction, digits) && Names(x.exponent, e) && Truncates(digits, Scale(x, e), m)
    ensures NumberOf(s, i) == NumberAt(Clamped(x.minus, m), i + |NumeralText(x)|)
  {
    hide IsNumberChar, NumeralText, Strtod, DigitsValue, Saturated, Truncates, Names, Scale;
    var t := NumeralText(x);
    TextHoldsNumberChars(x);
    TokenIs(s, i, t);
    StrtodOfNumeral(x);
    NamedIsValue(x.whole + x.fraction, digits);
    NamedIsValue(x.exponent, e);
    SaturatedIsClamped(x.minus, digits, Scale(x, e), m);
    PartsStand(x);
    NotASign(t[0]);
  }

  /** Of a longer run of digits only the first 63 are read: the others are left for whatever comes next. */
  lemma LongNumberIsCut(s: seq<byte>, i: nat)
    requires i + 63 <= |s| && AllDigits(s[i..i + 63])
    ensures NumberToken(s, i) == s[i..i + 63]
    ensures NumberOf(s, i).NumberAt? && NumberOf(s, i).next == i + 63
  {
    hide DigitsValue, NumberOf, Strtod;
    var t := s[i..i + 63];
    forall k | i <= k < i + 63
      ensures IsNumberChar(s[k])
    {
      assert IsDigit(t[k - i]);
    }
    LongTokenIs(s, i, 63);
    var x := Numeral(false, t, [], [], 69, None);
    StrtodOfNumeral(x);
    assert NumeralText(x) == t;
    NumberOfToken(s, i);
  }

  lemma {:induction false} LongTokenIs(s: seq<byte>, i: nat, budget: nat)
    requires i + budget <= |s| && forall k :: i <= k < i + budget ==> IsNumberChar(s[k])
    ensures TokenLength(s, i, budget) == budget
    decreases budget
  {
    if budget > 0 {
      LongTokenIs(s, i + 1, budget - 1);
    }
  }

  lemma NumberOfToken(s: seq<byte>, i: nat)
    requires i <= |s| && Strtod(NumberToken(s, i)).Subject?
    ensures NumberOf(s, i).NumberAt? && NumberOf(s, i).next == i + Strtod(NumberToken(s, i)).used
  {
    hide Strtod;
  }
}
