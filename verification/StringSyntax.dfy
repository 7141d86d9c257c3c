/** String literals after section 7 of RFC 8259, element by element, and what the parser makes of them. */
module StringSyntax {
  import opened Bytes
  import opened Utf16
  import opened StringLiteral
  import opened Grammar

  /**
    One element of a string: a byte that stands for itself, a backslash and a letter, or a scalar
    value written with one or two `\u` escapes, whose digits are given.
   */
  datatype Element =
    | Plain(b: byte)
    | Short(letter: byte, b: byte)
    | Unit(digits: seq<byte>, c: nat)
    | Pair(high: seq<byte>, low: seq<byte>, c: nat)

  /** The escapes of one letter: the letter and the byte it stands for. */
  const SHORT_ESCAPES: set<(byte, byte)> :=
    {(34, 34), (92, 92), (47, 47), (98, 8), (102, 12), (110, 10), (114, 13), (116, 9)}

  /** Bytes other than the quote and the backslash stand for themselves, control characters included. */
  predicate IsElement(x: Element) {
    match x
    case Plain(b) => b != 34 && b != 92
    case Short(letter, b) => (letter, b) in SHORT_ESCAPES
    case Unit(digits, c) => |digits| == 4 && c < 0x10000 && IsScalar(c) && SpellsWord(digits, 0, c)
    case Pair(high, low, c) =>
      && |high| == |low| == 4 && 0x10000 <= c && IsScalar(c)
      && SpellsWord(high, 0, Utf16Encode(c)[0]) && SpellsWord(low, 0, Utf16Encode(c)[1])
  }

  function Written(x: Element): (w: seq<byte>)
    requires IsElement(x)
    ensures w != []
  {
    match x
    case Plain(b) => [b]
    case Short(letter, _) => [92, letter]
    case Unit(digits, _) => [92, 117] + digits
    case Pair(high, low, _) => [92, 117] + high + [92, 117] + low
  }

  function Meaning(x: Element): seq<byte>
    requires IsElement(x)
  {
    match x
    case Plain(b) => [b]
    case Short(_, b) => [b]
    case Unit(_, c) => Utf8(c)
    case Pair(_, _, c) => Utf8(c)
  }

  ghost predicate AreElements(xs: seq<Element>) {
    forall x <- xs :: IsElement(x)
  }

  ghost function AllWritten(xs: seq<Element>): seq<byte>
    requires AreElements(xs)
  {
    if xs == [] then [] else Written(xs[0]) + AllWritten(xs[1..])
  }

  ghost function AllMeant(xs: seq<Element>): seq<byte>
    requires AreElements(xs)
  {
    if xs == [] then [] else Meaning(xs[0]) + AllMeant(xs[1..])
  }

  // ---------- one element

  lemma SameWord(s: seq<byte>, i: nat, digits: seq<byte>, v: nat)
    requires At(s, i, digits) && |digits| == 4 && SpellsWord(digits, 0, v)
    ensures SpellsWord(s, i, v)
  {
    AtIndex(s, i, digits);
    assert s[i + 0] == digits[0] && s[i + 1] == digits[1] && s[i + 2] == digits[2] && s[i + 3] == digits[3];
  }

  /** Where the digits of a `\u` element stand. */
  lemma DigitsStand(s: seq<byte>, p: nat, x: Element)
    requires IsElement(x) && At(s, p, Written(x)) && (x.Unit? || x.Pair?)
    ensures s[p] == 92 && s[p + 1] == 117
    ensures x.Unit? ==> p + 6 <= |s| && SpellsWord(s, p + 2, x.c)
    ensures x.Pair? ==>
              && p + 12 <= |s| && SpellsWord(s, p + 2, Utf16Encode(x.c)[0])
              && s[p + 6] == 92 && s[p + 7] == 117 && SpellsWord(s, p + 8, Utf16Encode(x.c)[1])
  {
    hide SpellsWord, At;
    var mark := [92, 117];
    if x.Unit? {
      AtConcat(s, p, mark, x.digits);
      SameWord(s, p + 2, x.digits, x.c);
    } else {
      AtConcat(s, p, mark + x.high + mark, x.low);
      AtConcat(s, p, mark + x.high, mark);
      AtConcat(s, p, mark, x.high);
      SameWord(s, p + 2, x.high, Utf16Encode(x.c)[0]);
      SameWord(s, p + 8, x.low, Utf16Encode(x.c)[1]);
      AtIndex(s, p + 6, mark);
      assert s[p + 6 + 0] == mark[0] && s[p + 6 + 1] == mark[1];
    }
    AtIndex(s, p, mark);
    assert s[p + 0] == mark[0] && s[p + 1] == mark[1];
  }

  lemma DigitIsPlain(s: seq<byte>, i: nat, v: nat, k: nat)
    requires SpellsWord(s, i, v) && k < 4
    ensures s[i + k] != QUOTE && s[i + k] != BACKSLASH
  {
  }

  lemma ScanOverWord(s: seq<byte>, i: nat, v: nat)
    requires SpellsWord(s, i, v)
    ensures ScanEnd(s, i) == ScanEnd(s, i + 4)
  {
    DigitIsPlain(s, i, v, 0);
    DigitIsPlain(s, i, v, 1);
    DigitIsPlain(s, i, v, 2);
    DigitIsPlain(s, i, v, 3);
    hide SpellsWord;
    assert ScanEnd(s, i) == ScanEnd(s, i + 1) == ScanEnd(s, i + 2);
    assert ScanEnd(s, i + 2) == ScanEnd(s, i + 3) == ScanEnd(s, i + 4);
  }

  /** The scan for the closing quote passes over an element. */
  lemma ScanOverElement(s: seq<byte>, p: nat, x: Element)
    requires IsElement(x) && At(s, p, Written(x))
    ensures ScanEnd(s, p) == ScanEnd(s, p + |Written(x)|)
  {
    hide SpellsWord;
    match x
    case Plain(b) =>
      AtFirst(s, p, [b]);
    case Short(letter, b) =>
      AtFirst(s, p, [92, letter]);
    case Unit(digits, c) =>
      DigitsStand(s, p, x);
      ScanOverWord(s, p + 2, c);
    case Pair(high, low, c) =>
      DigitsStand(s, p, x);
      ScanOverWord(s, p + 2, Utf16Encode(c)[0]);
      ScanOverWord(s, p + 8, Utf16Encode(c)[1]);
  }

  /** The converter takes a `\u` element for what it spells. */
  lemma ElementIsConverted(s: seq<byte>, p: nat, end: nat, x: Element)
    requires IsElement(x) && At(s, p, Written(x)) && p + |Written(x)| <= end < |s| && (x.Unit? || x.Pair?)
    ensures LiteralAt(s, p, end) == Converted(|Written(x)|, x.c)
  {
    hide SpellsWord, LiteralAt, At;
    DigitsStand(s, p, x);
    ConvertedExactlyIfSpelledOrMalformed(s, p, end, |Written(x)|, x.c);
  }

  /** Pass two stores what it means. */
  lemma ElementIsDecoded(s: seq<byte>, p: nat, end: nat, x: Element)
    requires IsElement(x) && At(s, p, Written(x)) && p + |Written(x)| <= end < |s|
    ensures Decode(s, p, end) == Prepend(Meaning(x), Decode(s, p + |Written(x)|, end))
  {
    hide SpellsWord, Utf8, LiteralAt, At;
    match x
    case Plain(b) =>
      AtFirst(s, p, [b]);
    case Short(letter, b) =>
      var w := [92, letter];
      AtIndex(s, p, w);
      assert s[p + 0] == w[0] && s[p + 1] == w[1];
    case _ =>
      DigitsStand(s, p, x);
      ElementIsConverted(s, p, end, x);
  }

  // ---------- whole literals

  lemma {:induction false} ElementsAreDecoded(s: seq<byte>, p: nat, end: nat, xs: seq<Element>)
    requires AreElements(xs) && At(s, p, AllWritten(xs)) && p + |AllWritten(xs)| == end < |s| && s[end] == QUOTE
    ensures ScanEnd(s, p) == Some(end) && Decode(s, p, end) == Decoded(AllMeant(xs))
    decreases |xs|
  {
    if xs != [] {
      hide At, IsElement, Written, Meaning, ScanEnd, Decode;
      AtConcat(s, p, Written(xs[0]), AllWritten(xs[1..]));
      ScanOverElement(s, p, xs[0]);
      ElementIsDecoded(s, p, end, xs[0]);
      ElementsAreDecoded(s, p + |Written(xs[0])|, end, xs[1..]);
    }
  }

  /** A quoted sequence of elements is read as what they mean, up to its first NUL. */
  lemma LiteralIsRead(s: seq<byte>, i: nat, xs: seq<Element>)
    requires Terminated(s) && AreElements(xs) && At(s, i, [34] + AllWritten(xs) + [34])
    ensures i + |AllWritten(xs)| + 2 < |s|
    ensures ParseString(s, i) == Parsed.Ok(UpToNul(AllMeant(xs)), i + |AllWritten(xs)| + 2)
  {
    hide AllWritten, AllMeant, ScanEnd, Decode, UpToNul;
    var w := AllWritten(xs);
    AtConcat(s, i, [34] + w, [34]);
    AtConcat(s, i, [34], w);
    AtFirst(s, i, [34]);
    AtFirst(s, i + 1 + |w|, [34]);
    ElementsAreDecoded(s, i + 1, i + 1 + |w|, xs);
  }

  /**
    An escape is refused exactly if its letter is none of the eight and no `u`, or if the bytes
    from the `u` on spell no scalar value and are not those malformed ones that are let pass.
   */
  lemma EscapeIsRefusedExactly(s: seq<byte>, p: nat, end: nat)
    requires p < end < |s| && s[p] == 92
    ensures Decode(s, p, end) == BadEscape(p)
        <==> if s[p + 1] == 117 then !IsMalformed(s, p, end) && forall length, c :: !Spells(s, p, end, length, c)
             else s[p + 1] !in {34, 92, 47, 98, 102, 110, 114, 116}
  {
    hide IsMalformed, Spells;
    var r := LiteralAt(s, p, end);
    forall length, c
      ensures r == Converted(length, c)
          <==> Spells(s, p, end, length, c) || (IsMalformed(s, p, end) && length == 6 && c == 0)
    {
      ConvertedExactlyIfSpelledOrMalformed(s, p, end, length, c);
    }
    ConvertedExactlyIfSpelledOrMalformed(s, p, end, 6, 0);
    assert r.Converted? ==> r == Converted(r.length, r.codepoint);
  }
}
