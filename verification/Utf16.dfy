/** UTF-16 escape literals and their conversion to UTF-8. */
module Utf16 {
  import opened Bits
  import opened Bytes

  // ---------- hexadecimal digits

  predicate IsHexDigit(b: byte) {
    48 <= b <= 57 || 65 <= b <= 70 || 97 <= b <= 102
  }

  function HexValue(b: byte): (v: nat)
    requires IsHexDigit(b)
    ensures v < 16
  {
    if b <= 57 then b - 48 else if b <= 70 then b - 55 else b - 87
  }

  /** The number four hexadecimal digits stand for; 0 as soon as one of them is not a digit. */
  function Hex4(s: seq<byte>, i: nat): (v: nat)
    requires i + 4 <= |s|
    ensures v < 0x10000
  {
    if IsHexDigit(s[i]) && IsHexDigit(s[i + 1]) && IsHexDigit(s[i + 2]) && IsHexDigit(s[i + 3]) then
      0x1000 * HexValue(s[i]) + 0x100 * HexValue(s[i + 1]) + 0x10 * HexValue(s[i + 2]) + HexValue(s[i + 3])
    else 0
  }

  /** The hexadecimal digits in order, in the two cases of their letters. */
  const LOWER_DIGITS: seq<byte> := [48, 49, 50, 51, 52, 53, 54, 55, 56, 57, 97, 98, 99, 100, 101, 102]
  const UPPER_DIGITS: seq<byte> := [48, 49, 50, 51, 52, 53, 54, 55, 56, 57, 65, 66, 67, 68, 69, 70]

  /** `b` is written for the digit in the place of 16 to the `k` of `v`. */
  predicate IsPlace(b: byte, digit: nat) {
    digit < 16 && (b == LOWER_DIGITS[digit] || b == UPPER_DIGITS[digit])
  }

  /** The four bytes at `i` are written for `v`, digit by digit, each in either case. */
  predicate SpellsWord(s: seq<byte>, i: nat, v: nat) {
    && i + 4 <= |s| && v < 0x10000
    && IsPlace(s[i], v / 4096) && IsPlace(s[i + 1], v / 256 % 16)
    && IsPlace(s[i + 2], v / 16 % 16) && IsPlace(s[i + 3], v % 16)
  }

  /** They are written for no number. */
  ghost predicate SpellsNothing(s: seq<byte>, i: nat) {
    forall v :: !SpellsWord(s, i, v)
  }

  lemma DigitOfPlace(b: byte, digit: nat)
    ensures IsPlace(b, digit) <==> IsHexDigit(b) && HexValue(b) == digit
  {
  }

  /** Whatever number the four digits are written for is the number read, and no other bytes are digits. */
  lemma Hex4IsTheSpelledWord(s: seq<byte>, i: nat, v: nat)
    requires i + 4 <= |s|
    ensures SpellsWord(s, i, v) <==> HexDigitsAt(s, i) && Hex4(s, i) == v
    ensures !HexDigitsAt(s, i) ==> Hex4(s, i) == 0
  {
    hide IsPlace, IsHexDigit, HexValue;
    if v < 0x10000 {
      DigitOfPlace(s[i], v / 4096);
      DigitOfPlace(s[i + 1], v / 256 % 16);
      DigitOfPlace(s[i + 2], v / 16 % 16);
      DigitOfPlace(s[i + 3], v % 16);
      Places(v);
    }
    if HexDigitsAt(s, i) {
      WordOfDigits(HexValue(s[i]), HexValue(s[i + 1]), HexValue(s[i + 2]), HexValue(s[i + 3]));
    }
  }

  lemma Places(v: nat)
    requires v < 0x10000
    ensures v == 0x1000 * (v / 4096) + 0x100 * (v / 256 % 16) + 0x10 * (v / 16 % 16) + v % 16
    ensures v / 4096 < 16
  {
    var a, b := v / 16, v / 16 / 16;
    assert b == v / 256 && b / 16 == v / 4096;
    assert b == 16 * (b / 16) + b % 16 && a == 16 * b + a % 16;
  }

  lemma WordOfDigits(a: nat, b: nat, c: nat, d: nat)
    requires a < 16 && b < 16 && c < 16 && d < 16
    ensures var v := 0x1000 * a + 0x100 * b + 0x10 * c + d;
            v / 4096 == a && v / 256 % 16 == b && v / 16 % 16 == c && v % 16 == d
  {
    var v := 0x1000 * a + 0x100 * b + 0x10 * c + d;
    assert v / 16 == 0x100 * a + 0x10 * b + c && v / 256 == 0x10 * a + b;
  }

  predicate HexDigitsAt(s: seq<byte>, i: nat)
    requires i + 4 <= |s|
  {
    IsHexDigit(s[i]) && IsHexDigit(s[i + 1]) && IsHexDigit(s[i + 2]) && IsHexDigit(s[i + 3])
  }

  /** What is read of four bytes, in terms of what they are written for. */
  lemma WordIsRead(s: seq<byte>, i: nat)
    requires i + 4 <= |s|
    ensures forall v :: SpellsWord(s, i, v) ==> Hex4(s, i) == v
    ensures SpellsWord(s, i, Hex4(s, i)) || (Hex4(s, i) == 0 && SpellsNothing(s, i))
    ensures SpellsNothing(s, i) ==> Hex4(s, i) == 0
  {
    hide SpellsWord, HexDigitsAt, Hex4;
    forall v
      ensures SpellsWord(s, i, v) <==> HexDigitsAt(s, i) && Hex4(s, i) == v
      ensures !HexDigitsAt(s, i) ==> Hex4(s, i) == 0
    {
      Hex4IsTheSpelledWord(s, i, v);
    }
    Hex4IsTheSpelledWord(s, i, 0);
  }

  /** `parse_hex4`: the number its four bytes are written for, or 0. */
  method ParseHex4(s: seq<byte>, start: nat) returns (h: nat)
    requires start + 4 <= |s|
    ensures h == Hex4(s, start)
    ensures forall v :: SpellsWord(s, start, v) ==> h == v
    ensures SpellsNothing(s, start) ==> h == 0
  {
    hide SpellsWord, SpellsNothing;
    WordIsRead(s, start);
    h := 0;
    var i := 0;
    while i < 4
      invariant 0 <= i <= 4
      invariant (i >= 1 ==> IsHexDigit(s[start])) && (i >= 2 ==> IsHexDigit(s[start + 1]))
      invariant (i >= 3 ==> IsHexDigit(s[start + 2])) && (i >= 4 ==> IsHexDigit(s[start + 3]))
      invariant i == 0 ==> h == 0
      invariant i == 1 ==> h == 0x10 * HexValue(s[start])
      invariant i == 2 ==> h == 0x100 * HexValue(s[start]) + 0x10 * HexValue(s[start + 1])
      invariant i == 3 ==>
                  h == 0x1000 * HexValue(s[start]) + 0x100 * HexValue(s[start + 1]) + 0x10 * HexValue(s[start + 2])
      invariant i == 4 ==> h == Hex4(s, start)
    {
      var b := s[start + i];
      if 48 <= b <= 57 {
        h := h + (b - 48);
      } else if 65 <= b <= 70 {
        h := h + (10 + b - 65);
      } else if 97 <= b <= 102 {
        h := h + (10 + b - 97);
      } else {
        return 0;
      }
      if i < 3 {
        h := h * 16;  // one hexadecimal place, `<< 4`
      }
      i := i + 1;
    }
  }

  // ---------- UTF-8, after section 3 of RFC 3629

  /** The octet sequence of a character number. */
  function Utf8(c: nat): (e: seq<byte>)
    requires c <= 0x10FFFF
    ensures 1 <= |e| <= 4
  {
    if c < 0x80 then [c]
    else if c < 0x800 then [0xC0 + c / 64, 0x80 + c % 64]
    else if c < 0x10000 then [0xE0 + c / 4096, 0x80 + c / 64 % 64, 0x80 + c % 64]
    else [0xF0 + c / 262144, 0x80 + c / 4096 % 64, 0x80 + c / 64 % 64, 0x80 + c % 64]
  }

  predicate IsTail(b: byte) {
    0x80 <= b <= 0xBF
  }

  /** The bits of an octet below its length mark. */
  function Payload(b: int, mark: int): (v: nat)
    requires mark <= b
  {
    b - mark
  }

  /** The character number at the start of `s`, if a well-formed UTF-8 sequence of section 4's grammar stands there. */
  function Utf8Decode(s: seq<byte>): Option<(nat, nat)> {
    if s == [] then None
    else if s[0] < 0x80 then Some((s[0], 1))
    else if 0xC2 <= s[0] <= 0xDF && |s| >= 2 && IsTail(s[1]) then
      Some((Payload(s[0], 0xC0) * 64 + Payload(s[1], 0x80), 2))
    else if 0xE0 <= s[0] <= 0xEF && |s| >= 3 && IsTail(s[1]) && IsTail(s[2])
            && (s[0] == 0xE0 ==> 0xA0 <= s[1]) && (s[0] == 0xED ==> s[1] <= 0x9F) then
      Some((Payload(s[0], 0xE0) * 4096 + Payload(s[1], 0x80) * 64 + Payload(s[2], 0x80), 3))
    else if 0xF0 <= s[0] <= 0xF4 && |s| >= 4 && IsTail(s[1]) && IsTail(s[2]) && IsTail(s[3])
            && (s[0] == 0xF0 ==> 0x90 <= s[1]) && (s[0] == 0xF4 ==> s[1] <= 0x8F) then
      Some((Payload(s[0], 0xF0) * 262144 + Payload(s[1], 0x80) * 4096 + Payload(s[2], 0x80) * 64
            + Payload(s[3], 0x80), 4))
    else None
  }

  /** Decoding the octets of any character number that is not a surrogate gives it back. */
  lemma Utf8RoundTrip(c: nat)
    requires c <= 0x10FFFF && !(0xD800 <= c <= 0xDFFF)
    ensures Utf8Decode(Utf8(c)) == Some((c, |Utf8(c)|))
  {
    var low, d := c % 64, c / 64;
    var middle, e := d % 64, d / 64;
    assert e == c / 4096 && c / 64 % 64 == middle && e / 64 == c / 262144 && c / 4096 % 64 == e % 64;
    if 0x800 <= c < 0x10000 {
      assert 0 <= e <= 15 && (e == 0 ==> middle >= 32) && (e == 13 ==> middle < 32);
    } else if c >= 0x10000 {
      assert 0 <= e / 64 <= 4 && (e / 64 == 0 ==> e % 64 >= 16) && (e / 64 == 4 ==> e % 64 < 16);
    }
  }

  // ---------- the literal

  predicate IsHighSurrogate(c: nat) {
    0xD800 <= c <= 0xDBFF
  }

  predicate IsLowSurrogate(c: nat) {
    0xDC00 <= c <= 0xDFFF
  }

  /** Section 2.2 of RFC 2781: U = U' + 0x10000, U' the 10 low bits of each half side by side. */
  function PairValue(high: nat, low: nat): (c: nat)
    requires IsHighSurrogate(high) && IsLowSurrogate(low)
    ensures 0x10000 <= c <= 0x10FFFF
  {
    0x10000 + (high - 0xD800) * 0x400 + (low - 0xDC00)
  }

  lemma PairLowBits(high: nat, low: nat)
    requires IsHighSurrogate(high) && IsLowSurrogate(low)
    ensures 0x10000 + (high % 0x400 * 0x400 + low % 0x400) == PairValue(high, low)
  {
    assert high % 0x400 == high - 0xD800 && low % 0x400 == low - 0xDC00;
  }

  datatype Literal = Invalid | Converted(length: nat, codepoint: nat)

  /** The literal at `p`, of a string whose closing quote stands at `end`. */
  function LiteralAt(s: seq<byte>, p: nat, end: nat): (r: Literal)
    requires p < end < |s|
    ensures r.Converted? ==> r.length in {6, 12} && p + r.length <= end
    ensures r.Converted? ==> r.codepoint <= 0x10FFFF && (r.length == 12 <==> r.codepoint >= 0x10000)
    ensures r.Converted? ==> !(0xD800 <= r.codepoint <= 0xDFFF)
  {
    if end - p < 6 then Invalid
    else
      var first := Hex4(s, p + 2);
      if IsLowSurrogate(first) then Invalid
      else if IsHighSurrogate(first) then
        if end - (p + 6) < 6 || s[p + 6] != BACKSLASH || s[p + 7] != 117 then Invalid
        else
          var second := Hex4(s, p + 8);
          if IsLowSurrogate(second) then Converted(12, PairValue(first, second)) else Invalid
      else Converted(6, first)
  }

  /** A scalar value: a character number that is not a surrogate. */
  predicate IsScalar(c: nat) {
    c <= 0x10FFFF && !(0xD800 <= c <= 0xDFFF)
  }

  /** Section 2.1 of RFC 2781: the 16-bit units of a scalar value. */
  function Utf16Encode(c: nat): seq<nat>
    requires IsScalar(c)
  {
    if c < 0x10000 then [c]
    else [0xD800 + (c - 0x10000) / 0x400, 0xDC00 + (c - 0x10000) % 0x400]
  }

  lemma PairIsEncoded(high: nat, low: nat)
    requires IsHighSurrogate(high) && IsLowSurrogate(low)
    ensures Utf16Encode(PairValue(high, low)) == [high, low]
  {
  }

  /** The scalar value `c` is written at `p`, with proper digits, as one unit or as two with a `\u` between them. */
  predicate Spells(s: seq<byte>, p: nat, end: nat, length: nat, c: nat)
    requires p < end < |s|
  {
    && length in {6, 12} && p + length <= end && IsScalar(c)
    && |Utf16Encode(c)| == length / 6 && SpellsWord(s, p + 2, Utf16Encode(c)[0])
    && (length == 12 ==> s[p + 6] == 92 && s[p + 7] == 117 && SpellsWord(s, p + 8, Utf16Encode(c)[1]))
  }

  /** A literal that is long enough, but whose first four digits are written for no number. */
  ghost predicate IsMalformed(s: seq<byte>, p: nat, end: nat)
    requires p < end < |s|
  {
    p + 6 <= end && SpellsNothing(s, p + 2)
  }

  /**
    A literal is converted exactly if it spells a scalar value, and then to that value, or if its
    first digits are malformed, and then to 0; otherwise it is refused.
   */
  lemma ConvertedExactlyIfSpelledOrMalformed(s: seq<byte>, p: nat, end: nat, length: nat, c: nat)
    requires p < end < |s|
    ensures LiteralAt(s, p, end) == Converted(length, c)
        <==> Spells(s, p, end, length, c) || (IsMalformed(s, p, end) && length == 6 && c == 0)
  {
    hide Hex4, SpellsWord;
    if p + 6 <= end {
      WordIsRead(s, p + 2);
    }
    if p + 12 <= end {
      WordIsRead(s, p + 8);
    }
    if LiteralAt(s, p, end) == Converted(length, c) && length == 12 {
      PairIsEncoded(Hex4(s, p + 2), Hex4(s, p + 8));
    }
    if Spells(s, p, end, length, c) && length == 12 {
      PairOfScalar(c);
    }
  }

  /**
    An accepted literal with proper digits spells the UTF-16 encoding of its code point, and the
    octets stored for it decode to that code point.
   */
  lemma LiteralDenotesItsCodePoint(s: seq<byte>, p: nat, end: nat)
    requires p < end < |s| && LiteralAt(s, p, end).Converted?
    ensures var r := LiteralAt(s, p, end);
            && IsScalar(r.codepoint)
            && (Spells(s, p, end, r.length, r.codepoint)
                || (IsMalformed(s, p, end) && r.length == 6 && r.codepoint == 0))
            && Utf8Decode(Utf8(r.codepoint)) == Some((r.codepoint, |Utf8(r.codepoint)|))
  {
    hide Hex4, Utf8, Utf8Decode, Spells, IsMalformed;
    var r := LiteralAt(s, p, end);
    Utf8RoundTrip(r.codepoint);
    ConvertedExactlyIfSpelledOrMalformed(s, p, end, r.length, r.codepoint);
  }

  lemma PairOfScalar(c: nat)
    requires 0x10000 <= c <= 0x10FFFF
    ensures IsHighSurrogate(Utf16Encode(c)[0]) && IsLowSurrogate(Utf16Encode(c)[1])
    ensures PairValue(Utf16Encode(c)[0], Utf16Encode(c)[1]) == c
  {
    var x := c - 0x10000;
    assert x / 0x400 < 0x400 && x == x / 0x400 * 0x400 + x % 0x400;
  }

  /** `c` after `k` right shifts of six bits. */
  function Shifted(c: nat, k: nat): nat {
    if k == 0 then c else Shifted(c, k - 1) / 64
  }

  lemma ShiftedStep(c: nat, k: nat)
    ensures Shifted(c, 0) == c && Shifted(c, k + 1) == Shifted(c, k) / 64
  {
  }

  function LengthMark(length: nat): nat {
    if length == 4 then 0xF0 else if length == 3 then 0xE0 else if length == 2 then 0xC0 else 0
  }

  lemma Utf8Length(c: nat)
    requires c <= 0x10FFFF
    ensures |Utf8(c)| == if c < 0x80 then 1 else if c < 0x800 then 2 else if c < 0x10000 then 3 else 4
    ensures |Utf8(c)| == 1 ==> Shifted(c, 0) % 128 == Shifted(c, 0)
  {
  }

  /** Octet `k` of the encoding, as the encoding loop computes it. */
  lemma Utf8Octet(c: nat, k: nat)
    requires c <= 0x10FFFF && k < |Utf8(c)|
    ensures var rest := Shifted(c, |Utf8(c)| - 1 - k);
            Utf8(c)[k] == if k > 0 then 0x80 + rest % 64 else LengthMark(|Utf8(c)|) + rest
  {
    var d := c / 64;
    assert Shifted(c, 0) == c && Shifted(c, 1) == d && Shifted(c, 2) == d / 64 && Shifted(c, 3) == d / 64 / 64;
    assert d / 64 == c / 4096 && d / 64 / 64 == c / 262144;
  }

  /** The first octet, as the encoding writes it. */
  lemma FirstOctetBits(c: nat)
    requires c <= 0x10FFFF
    ensures var length := |Utf8(c)|;
            var first := Shifted(c, length - 1);
            if length == 1 then BitAnd(first, 0x7F) == Utf8(c)[0]
            else BitAnd(BitOr(first, LengthMark(length)), 0xFF) == Utf8(c)[0]
  {
    var length := |Utf8(c)|;
    var first := Shifted(c, length - 1);
    Utf8Length(c);
    Utf8Octet(c, 0);
    FirstOctetDigits(c);
    hide Utf8, BitAnd, BitOr, Shifted;
    Powers();
    if length == 1 {
      AndMask(first, 7);
    } else if length == 2 {
      LeadByte(first, 6, 5);
    } else if length == 3 {
      LeadByte(first, 14, 4);
    } else {
      LeadByte(first, 30, 3);
    }
  }

  lemma FirstOctetDigits(c: nat)
    requires c <= 0x10FFFF
    ensures var length := |Utf8(c)|;
            Shifted(c, length - 1) <
            if length == 1 then 128 else if length == 2 then 32 else if length == 3 then 16 else 8
  {
    var d := c / 64;
    assert Shifted(c, 0) == c && Shifted(c, 1) == d && Shifted(c, 2) == d / 64 && Shifted(c, 3) == d / 64 / 64;
  }

  /** The encoding half of the converter. Its out-of-range branch is dead. */
  method EncodeUtf8(c: nat, output: array<byte>, pos: nat) returns (pos': nat)
    requires c <= 0x10FFFF && pos + |Utf8(c)| <= output.Length
    modifies output
    ensures pos' == pos + |Utf8(c)|
    ensures Stored(old(output[..]), output[..], pos, Utf8(c))
  {
    hide Utf8, BitAnd, BitOr, ShiftRight, Shifted;
    ShiftedStep(c, 0);
    var codepoint := c;
    Utf8Length(c);
    var utf8Length, firstByteMark := 0, 0;
    if codepoint < 0x80 {
      utf8Length := 1;
    } else if codepoint < 0x800 {
      utf8Length, firstByteMark := 2, 0xC0;
    } else if codepoint < 0x10000 {
      utf8Length, firstByteMark := 3, 0xE0;
    } else if codepoint <= 0x10FFFF {
      utf8Length, firstByteMark := 4, 0xF0;
    } else {
      assert false;
    }
    ghost var before := output[..];
    var position := utf8Length - 1;
    while position > 0
      invariant 0 <= position < utf8Length == |Utf8(c)|
      invariant codepoint == Shifted(c, utf8Length - 1 - position)
      invariant forall k :: 0 <= k < output.Length && !(pos + position < k < pos + utf8Length) ==>
                  output[k] == before[k]
      invariant forall k {:trigger Utf8(c)[k]} :: position < k < utf8Length ==> output[pos + k] == Utf8(c)[k]
    {
      Utf8Octet(c, position);
      ContinuationByte(codepoint);
      ShiftBySix(codepoint);
      ShiftedStep(c, utf8Length - 1 - position);
      output[pos + position] := BitAnd(BitOr(codepoint, 0x80), 0xBF);
      codepoint := ShiftRight(codepoint, 6);
      position := position - 1;
    }
    Utf8Octet(c, 0);
    FirstOctetBits(c);
    if utf8Length > 1 {
      output[pos] := BitAnd(BitOr(codepoint, firstByteMark), 0xFF);
    } else {
      output[pos] := BitAnd(codepoint, 0x7F);
    }
    pos' := pos + utf8Length;
  }

  /**
    Converts the literal at `p` into `output` at `pos`. `length` is the number of input bytes used,
    0 on failure, and `pos'` the new output position.
   */
  method LiteralToUtf8(s: seq<byte>, p: nat, end: nat, output: array<byte>, pos: nat)
    returns (length: nat, pos': nat)
    requires p < end < |s|
    requires LiteralAt(s, p, end).Converted? ==> pos + |Utf8(LiteralAt(s, p, end).codepoint)| <= output.Length
    modifies output
    ensures LiteralAt(s, p, end).Invalid? ==> length == 0 && pos' == pos && output[..] == old(output[..])
    ensures LiteralAt(s, p, end).Converted? ==>
              var e := Utf8(LiteralAt(s, p, end).codepoint);
              && length == LiteralAt(s, p, end).length
              && pos' == pos + |e|
              && Stored(old(output[..]), output[..], pos, e)
  {
    hide Utf8, BitAnd, BitOr, ShiftLeft, Hex4;
    if end - p < 6 {
      return 0, pos;
    }
    var codepoint: nat;
    var sequenceLength: nat;
    var first := ParseHex4(s, p + 2);
    if 0xDC00 <= first <= 0xDFFF {
      return 0, pos;
    }
    if 0xD800 <= first <= 0xDBFF {
      var second := p + 6;
      sequenceLength := 12;
      if end - second < 6 {
        return 0, pos;
      }
      if s[second] != BACKSLASH || s[second + 1] != 117 {
        return 0, pos;
      }
      var secondCode := ParseHex4(s, second + 2);
      if secondCode < 0xDC00 || secondCode > 0xDFFF {
        return 0, pos;
      }
      codepoint := 0x10000 + BitOr(ShiftLeft(BitAnd(first, 0x3FF), 10), BitAnd(secondCode, 0x3FF));
      PairDigits(first, secondCode);
      PairLowBits(first, secondCode);
    } else {
      sequenceLength := 6;
      codepoint := first;
    }
    pos' := EncodeUtf8(codepoint, output, pos);
    return sequenceLength, pos';
  }
}
