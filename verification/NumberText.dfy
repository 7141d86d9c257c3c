/** Numbers: the token the parser copies, what `strtod` makes of it, and the integer it leaves. */
module NumberText {
  import opened Bytes
  import opened Render

  predicate IsDigit(b: byte) {
    ZERO <= b <= NINE
  }

  /** The characters copied into the parser's 64-byte number buffer: digits, signs, `e`, `E` and the dot. */
  predicate IsNumberChar(b: byte) {
    IsDigit(b) || b == PLUS || b == MINUS || b == 101 || b == 69 || b == DOT
  }

  /** How many bytes from `i` on are copied, at most `budget`. */
  function TokenLength(s: seq<byte>, i: nat, budget: nat): (n: nat)
    requires i <= |s|
    ensures n <= budget && i + n <= |s|
    ensures forall k :: i <= k < i + n ==> IsNumberChar(s[k])
    ensures n < budget && i + n < |s| ==> !IsNumberChar(s[i + n])
    decreases budget
  {
    if budget == 0 || i == |s| || !IsNumberChar(s[i]) then 0 else 1 + TokenLength(s, i + 1, budget - 1)
  }

  /** How many digits stand at `i`. */
  function DigitRun(t: seq<byte>, i: nat): (n: nat)
    requires i <= |t|
    ensures i + n <= |t|
    ensures forall k :: i <= k < i + n ==> IsDigit(t[k])
    ensures i + n < |t| ==> !IsDigit(t[i + n])
    decreases |t| - i
  {
    if i == |t| || !IsDigit(t[i]) then 0 else 1 + DigitRun(t, i + 1)
  }

  ghost predicate AllDigits(d: seq<byte>) {
    forall k :: 0 <= k < |d| ==> IsDigit(d[k])
  }

  function DigitValue(b: int): (v: nat)
    requires ZERO <= b <= NINE
    ensures v < 10
  {
    b - ZERO
  }

  function DigitsValue(d: seq<byte>): nat
    requires AllDigits(d)
  {
    if d == [] then 0 else DigitsValue(d[..|d| - 1]) * 10 + DigitValue(d[|d| - 1])
  }

  /** The subject of `strtod` without its sign: `mantissa` times ten to the `exponent`. */
  datatype Subject = NoNumber | Subject(used: nat, mantissa: nat, exponent: int)

  function SignLength(t: seq<byte>, i: nat): (n: nat)
    requires i <= |t|
    ensures i + n <= |t|
  {
    if i < |t| && (t[i] == PLUS || t[i] == MINUS) then 1 else 0
  }

  /** The digits, the dot and the digits after it, from `i` on. */
  function Significand(t: seq<byte>, i: nat): (r: Subject)
    requires i <= |t|
    ensures r.Subject? ==> i < r.used <= |t|
  {
    var whole := DigitRun(t, i);
    var dot := i + whole < |t| && t[i + whole] == DOT;
    var fraction := if dot then DigitRun(t, i + whole + 1) else 0;
    if whole + fraction == 0 then NoNumber
    else if dot then
      Subject(i + whole + 1 + fraction,
              DigitsValue(t[i..i + whole] + t[i + whole + 1..i + whole + 1 + fraction]),
              -fraction)
    else Subject(i + whole, DigitsValue(t[i..i + whole]), 0)
  }

  /** The significand and the exponent, if one with at least one digit follows. */
  function Strtod(t: seq<byte>): (r: Subject)
    ensures r.Subject? ==> 0 < r.used <= |t|
  {
    match Significand(t, SignLength(t, 0))
    case NoNumber => NoNumber
    case Subject(used, mantissa, scale) =>
      if used < |t| && (t[used] == 101 || t[used] == 69) then
        var first := used + 1 + SignLength(t, used + 1);
        var run := DigitRun(t, first);
        if run == 0 then Subject(used, mantissa, scale)
        else
          var e := DigitsValue(t[first..first + run]);
          Subject(first + run, mantissa, if t[used + 1] == MINUS then scale - e else scale + e)
      else Subject(used, mantissa, scale)
  }

  /** The `valueint` of an item: truncated toward zero, saturated at both ends. */
  function Saturated(negative: bool, mantissa: nat, exponent: int): int32 {
    var magnitude := if exponent >= 0 then mantissa * Power10(exponent) else Quotient(mantissa, Power10(-exponent));
    if negative then
      if magnitude > INT_MAX then INT_MIN else -magnitude
    else
      if magnitude > INT_MAX then INT_MAX else magnitude
  }

  function Quotient(m: nat, d: nat): nat {
    if d == 0 then 0 else m / d
  }

  datatype NumberResult = NotANumber | NumberAt(n: int32, next: nat)

  const NUMBER_BUFFER: nat := 64

  function NumberToken(s: seq<byte>, i: nat): seq<byte>
    requires i <= |s|
  {
    s[i..i + TokenLength(s, i, NUMBER_BUFFER - 1)]
  }

  /** The copy loop: the number characters from `i` on go into a 64-byte buffer, a NUL after them. */
  method CopyNumber(s: seq<byte>, i: nat) returns (token: seq<byte>)
    requires i <= |s|
    ensures token == NumberToken(s, i)
  {
    var number := new byte[NUMBER_BUFFER];
    var n := 0;
    while n < NUMBER_BUFFER - 1 && i + n < |s| && IsNumberChar(s[i + n])
      invariant 0 <= n <= NUMBER_BUFFER - 1 && i + n <= |s|
      invariant number[..n] == s[i..i + n]
      invariant TokenLength(s, i, NUMBER_BUFFER - 1) == n + TokenLength(s, i + n, NUMBER_BUFFER - 1 - n)
    {
      number[n] := s[i + n];
      n := n + 1;
    }
    number[n] := NUL;
    token := number[..n];
  }

  function NumberOf(s: seq<byte>, i: nat): (r: NumberResult)
    requires i <= |s|
    ensures r.NumberAt? ==> i < r.next <= |s| && IsNumberChar(s[r.next - 1])
  {
    var t := NumberToken(s, i);
    match Strtod(t)
    case NoNumber => NotANumber
    case Subject(used, mantissa, exponent) =>
      assert s[i + used - 1] == t[used - 1];
      NumberAt(Saturated(t[0] == MINUS, mantissa, exponent), i + used)
  }

  // ---------- reading back what the printer writes

  lemma {:induction false} DigitsValueOfDigits(n: nat)
    ensures AllDigits(Digits(n)) && DigitsValue(Digits(n)) == n
  {
    if n >= 10 {
      DigitsValueOfDigits(n / 10);
      var d := Digits(n);
      assert d[..|d| - 1] == Digits(n / 10);
    }
  }

  lemma {:induction false} DigitRunOfDigits(t: seq<byte>, i: nat)
    requires i <= |t| && AllDigits(t[i..])
    ensures DigitRun(t, i) == |t| - i
    decreases |t| - i
  {
    if i < |t| {
      assert t[i..][0] == t[i] && t[i + 1..] == t[i..][1..];
      DigitRunOfDigits(t, i + 1);
    }
  }

  lemma {:induction false} TokenLengthOf(s: seq<byte>, i: nat, w: seq<byte>, budget: nat)
    requires At(s, i, w) && |w| < budget
    requires forall k :: 0 <= k < |w| ==> IsNumberChar(w[k])
    requires i + |w| < |s| && !IsNumberChar(s[i + |w|])
    ensures TokenLength(s, i, budget) == |w|
    decreases |w|
  {
    if w != [] {
      AtIndex(s, i, w);
      assert s[i] == w[0];
      assert w == [w[0]] + w[1..];
      AtConcat(s, i, [w[0]], w[1..]);
      TokenLengthOf(s, i + 1, w[1..], budget - 1);
    }
  }

  lemma StrtodOfDecimal(n: int32)
    ensures Strtod(Decimal(n)) == Subject(|Decimal(n)|, Magnitude(n), 0)
  {
    var w, m := Decimal(n), Magnitude(n);
    var sign := if n < 0 then 1 else 0;
    DigitsValueOfDigits(m);
    assert w[sign..] == Digits(m);
    assert SignLength(w, 0) == sign;
    DigitRunOfDigits(w, sign);
    assert w[sign..sign + |Digits(m)|] == Digits(m);
  }

  /** A printed 32-bit integer followed by anything that cannot continue a number reads back as itself. */
  lemma NumberRoundTrip(s: seq<byte>, i: nat, n: int32)
    requires At(s, i, Decimal(n)) && i + |Decimal(n)| < |s| && !IsNumberChar(s[i + |Decimal(n)|])
    ensures NumberOf(s, i) == NumberAt(n, i + |Decimal(n)|)
  {
    DecimalLength(n);
    TokenLengthOf(s, i, Decimal(n), NUMBER_BUFFER - 1);
    assert NumberToken(s, i) == Decimal(n);
    StrtodOfDecimal(n);
    assert Power10(0) == 1;
  }
}
