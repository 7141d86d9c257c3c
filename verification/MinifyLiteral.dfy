/** When a single literal is harmless to the minifier: `["c","a b"]` for every content c. */
module MinifyLiteral {
  import opened Bytes
  import opened JsonTree
  import opened Utf16
  import opened StringLiteral
  import opened Grammar
  import opened Minify
  import opened MinifyParse
  import opened Render
  import opened MinifyPrint
  import RoundTrip

  /** The content of a literal that the parser accepts. */
  predicate IsContent(c: seq<byte>) {
    && NUL !in c
    && var s := [QUOTE] + c + [QUOTE, NUL];
       ScanEnd(s, 1) == Some(|c| + 1) && Decode(s, 1, |c| + 1).Decoded?
  }

  function ContentValue(c: seq<byte>): CString
    requires IsContent(c)
  {
    UpToNul(Decode([QUOTE] + c + [QUOTE, NUL], 1, |c| + 1).bytes)
  }

  /** The array of two literals, `["c","d"]`. */
  function Pair(c: seq<byte>, d: seq<byte>): seq<byte> {
    [LBRACKET, QUOTE] + c + [QUOTE, COMMA, QUOTE] + d + [QUOTE, RBRACKET]
  }

  /** A literal anywhere in a text is read like the same literal on its own. */
  lemma ContentIsRead(c: seq<byte>, t: seq<byte>, j: nat, depth: nat)
    requires IsContent(c) && Terminated(t) && At(t, j, [QUOTE] + c + [QUOTE])
    ensures j + |c| + 2 < |t| && ParseValue(t, j, depth) == Parsed.Ok(Str(ContentValue(c)), j + |c| + 2)
  {
    hide Decode, ScanEnd, UpToNul;
    var w := [QUOTE] + c + [QUOTE];
    var s := w + [NUL];
    assert s == [QUOTE] + c + [QUOTE, NUL];
    var end := |c| + 1;
    StringOf(s, 0, end);
    AtIndex(t, j, w);
    assert t[j + end] == w[end] == QUOTE;
    SameString(s, 0, t, j, end, j + end);
    StringValue(t, j, depth);
  }

  lemma NextStays(s: seq<byte>, i: nat)
    requires i < |s| && s[i] > 32
    ensures Next(s, i) == i
  {
  }

  lemma PairLayout(c: seq<byte>, d: seq<byte>)
    ensures var s, k := Pair(c, d) + [NUL], |c| + 4;
            && |s| == k + |d| + 4
            && s[0] == LBRACKET && s[k - 1] == COMMA && s[k + |d| + 2] == RBRACKET && s[k + |d| + 3] == NUL
            && At(s, 1, [QUOTE] + c + [QUOTE]) && At(s, k, [QUOTE] + d + [QUOTE])
            && s[1] == QUOTE && s[k] == QUOTE
  {
    var s := Pair(c, d) + [NUL];
    var cq, dq := [QUOTE] + c + [QUOTE], [QUOTE] + d + [QUOTE];
    assert s == [LBRACKET] + cq + [COMMA] + dq + [RBRACKET, NUL];
    assert s[1..1 + |cq|] == cq && s[|c| + 4..|c| + 4 + |dq|] == dq;
  }

  lemma PairHasNoNul(c: seq<byte>, d: seq<byte>)
    requires IsContent(c) && IsContent(d)
    ensures 0 !in Pair(c, d)
  {
  }

  lemma PairParses(c: seq<byte>, d: seq<byte>)
    requires IsContent(c) && IsContent(d)
    ensures 0 !in Pair(c, d)
    ensures Parse(Pair(c, d), true) == Parsed.Ok(Arr([Str(ContentValue(c)), Str(ContentValue(d))]), |Pair(c, d)|)
  {
    hide Parse, ParseValue, ParseItems, IsContent, ContentValue, Next, Pair;
    PairHasNoNul(c, d);
    PairLayout(c, d);
    var text: CString := Pair(c, d);
    var s, k := text + [NUL], |c| + 4;
    ContentIsRead(c, s, 1, 1);
    ContentIsRead(d, s, k, 1);
    NextStays(s, 0);
    NextStays(s, 1);
    NextStays(s, k - 1);
    NextStays(s, k);
    NextStays(s, k + |d| + 2);
    ItemsUnfold(s, k, 1, Str(ContentValue(d)), k + |d| + 2);
    ItemsUnfold(s, 1, 1, Str(ContentValue(c)), k - 1);
    ArrayValue(s, 0, 0);
    NoMark(s);
    AtEnd(s, |text|);
    var x, y := Str(ContentValue(c)), Str(ContentValue(d));
    assert [x] + [y] == [x, y];
    ParseUnfold(text, Arr([x, y]), |text|);
  }

  lemma NoMark(s: seq<byte>)
    requires Terminated(s) && s[0] == LBRACKET
    ensures SkipByteOrderMark(s) == 0
  {
    RoundTrip.PrefixFirstByte(s, 0, BYTE_ORDER_MARK);
  }

  lemma AtEnd(s: seq<byte>, i: nat)
    requires i + 1 == |s|
    ensures Next(s, i) == i
  {
  }

  /** Plain bytes and escapes of two bytes, and no quote but an escaped one. */
  predicate IsInOneLiteral(c: seq<byte>)
    decreases |c|
  {
    c == [] ||
    (if c[0] == BACKSLASH then |c| >= 2 && IsInOneLiteral(c[2..]) else c[0] != QUOTE && IsInOneLiteral(c[1..]))
  }

  lemma {:induction false} ScannedIsInOneLiteral(s: seq<byte>, i: nat, end: nat)
    requires i <= end < |s| && ScanEnd(s, i) == Some(end)
    ensures IsInOneLiteral(s[i..end])
    decreases end - i
  {
    if s[i] == BACKSLASH {
      ScannedIsInOneLiteral(s, i + 2, end);
      assert s[i..end][2..] == s[i + 2..end];
    } else if s[i] != QUOTE {
      ScannedIsInOneLiteral(s, i + 1, end);
      assert s[i..end][1..] == s[i + 1..end];
    }
  }

  lemma ContentIsInOneLiteral(c: seq<byte>)
    requires IsContent(c)
    ensures IsInOneLiteral(c)
  {
    hide ScanEnd, Decode, IsInOneLiteral;
    var s := [QUOTE] + c + [QUOTE, NUL];
    ScannedIsInOneLiteral(s, 1, |c| + 1);
    assert s[1..|c| + 1] == c;
  }

  lemma InsidePlain(b: byte, r: seq<byte>)
    requires b != QUOTE && !(b == BACKSLASH && r != [] && r[0] == QUOTE)
    ensures InString([b] + r) == [b] + InString(r)
  {
    assert ([b] + r)[1..] == r;
  }

  lemma InsideEscape(r: seq<byte>)
    ensures InString([BACKSLASH, QUOTE] + r) == [BACKSLASH, QUOTE] + InString(r)
  {
    assert ([BACKSLASH, QUOTE] + r)[2..] == r;
  }

  /** With a backslash before it, the minifier does not take the closing quote for one. */
  lemma {:induction false} ClosingQuoteIsMissed(c: seq<byte>, r: seq<byte>)
    requires IsInOneLiteral(c) && EndsInBackslash(c)
    ensures InString(c + [QUOTE] + r) == c + [QUOTE] + InString(r)
    decreases |c|
  {
    hide InString;
    var q := [QUOTE] + r;
    if c[0] != BACKSLASH {
      ClosingQuoteIsMissed(c[1..], r);
      InsidePlain(c[0], c[1..] + [QUOTE] + r);
      assert c + [QUOTE] + r == [c[0]] + (c[1..] + [QUOTE] + r);
    } else if |c| == 2 {
      InsideEscape(r);
      InsidePlain(BACKSLASH, [BACKSLASH, QUOTE] + r);
      assert c + [QUOTE] + r == [BACKSLASH] + ([BACKSLASH, QUOTE] + r);
    } else {
      ClosingQuoteIsMissed(c[2..], r);
      var rest := c[2..] + [QUOTE] + r;
      assert c + [QUOTE] + r == [BACKSLASH] + ([c[1]] + rest);
      if c[1] == QUOTE {
        InsideEscape(rest);
        assert c + [QUOTE] + r == [BACKSLASH, QUOTE] + rest;
      } else {
        assert rest[0] == c[2] != QUOTE;
        InsidePlain(c[1], rest);
        InsidePlain(BACKSLASH, [c[1]] + rest);
      }
    }
  }

  function WithoutBlanks(d: seq<byte>): seq<byte> {
    if d == [] then [] else (if IsBlank(d[0]) then [] else [d[0]]) + WithoutBlanks(d[1..])
  }

  predicate IsBare(d: seq<byte>) {
    forall k :: 0 <= k < |d| ==> d[k] != QUOTE && d[k] != SLASH
  }

  lemma OutsideBare(b: byte, r: seq<byte>)
    requires b != QUOTE && b != SLASH
    ensures Minified([b] + r) == (if IsBlank(b) then [] else [b]) + Minified(r)
  {
    assert ([b] + r)[1..] == r;
  }

  lemma {:induction false} OutsideLosesBlanks(d: seq<byte>, r: seq<byte>)
    requires IsBare(d)
    ensures Minified(d + r) == WithoutBlanks(d) + Minified(r)
  {
    hide Minified, IsBlank;
    if d == [] {
      assert d + r == r;
    } else {
      OutsideLosesBlanks(d[1..], r);
      OutsideBare(d[0], d[1..] + r);
      assert d + r == [d[0]] + (d[1..] + r);
    }
  }

  lemma OutsideTail()
    ensures Minified([QUOTE, RBRACKET]) == [QUOTE, RBRACKET]
  {
    assert [QUOTE, RBRACKET][1..] == [RBRACKET] && [RBRACKET][1..] == [];
  }

  lemma OutsideHead(r: seq<byte>)
    ensures Minified([LBRACKET, QUOTE] + r) == [LBRACKET, QUOTE] + InString(r)
    ensures InString([COMMA, QUOTE] + r) == [COMMA, QUOTE] + Minified(r)
  {
    assert ([LBRACKET, QUOTE] + r)[1..] == [QUOTE] + r && ([QUOTE] + r)[1..] == r;
    assert ([COMMA, QUOTE] + r)[1..] == [QUOTE] + r;
  }

  /** Behind the missed quote the second literal is minified like text outside a literal. */
  lemma PairLosesBlanks(c: seq<byte>, d: seq<byte>)
    requires IsContent(c) && EndsInBackslash(c) && IsBare(d)
    ensures Minified(Pair(c, d)) == Pair(c, WithoutBlanks(d))
  {
    hide Minified, InString, IsContent, WithoutBlanks, IsInOneLiteral;
    ContentIsInOneLiteral(c);
    OutsideTail();
    OutsideLosesBlanks(d, [QUOTE, RBRACKET]);
    var tail := d + [QUOTE, RBRACKET];
    OutsideHead(tail);
    ClosingQuoteIsMissed(c, [COMMA, QUOTE] + tail);
    OutsideHead(c + [QUOTE] + ([COMMA, QUOTE] + tail));
    assert Pair(c, d) == [LBRACKET, QUOTE] + (c + [QUOTE] + ([COMMA, QUOTE] + tail));
  }

  // Contents of plain bytes, and behind an escape for the code point 0.

  lemma PlainContent(d: CString)
    requires ExtraCharacters(d) == 0
    ensures IsContent(d) && ContentValue(d) == d
  {
    hide Escape, ScanEnd, Decode, ParseString;
    var s := [QUOTE] + d + [QUOTE, NUL];
    NoExtraNoEscape(d);
    assert Quoted(d) == [QUOTE] + d + [QUOTE] && s == Quoted(d) + [NUL];
    assert s[0..|Quoted(d)|] == Quoted(d);
    RoundTrip.StringRoundTrip(s, 0, d);
    StringEnds(s, 0);
    StringOf(s, 0, |d| + 1);
  }

  /** An escape for the code point 0 and what stands behind it, `\u0000e`. */
  function NulEscaped(e: seq<byte>): seq<byte> {
    [BACKSLASH, 117, ZERO, ZERO, ZERO, ZERO] + e
  }

  lemma {:induction false} PlainDecodes(s: seq<byte>, p: nat, end: nat)
    requires p <= end < |s| && s[end] == QUOTE && forall k :: p <= k < end ==> s[k] != QUOTE && s[k] != BACKSLASH
    ensures ScanEnd(s, p) == Some(end) && Decode(s, p, end).Decoded?
    decreases end - p
  {
    if p < end {
      PlainDecodes(s, p + 1, end);
    }
  }

  lemma NulEscapedIsEmpty(e: seq<byte>)
    requires forall k :: 0 <= k < |e| ==> e[k] != NUL && e[k] != QUOTE && e[k] != BACKSLASH
    ensures IsContent(NulEscaped(e)) && ContentValue(NulEscaped(e)) == []
  {
    var c := NulEscaped(e);
    var s, end := [QUOTE] + c + [QUOTE, NUL], |c| + 1;
    assert s[1] == BACKSLASH && s[2] == 117 && s[3] == ZERO && s[4] == ZERO && s[5] == ZERO && s[6] == ZERO;
    assert forall k :: 7 <= k < end ==> s[k] == e[k - 7];
    PlainDecodes(s, 7, end);
    PlainScans(s, 3, 7, end);
    assert LiteralAt(s, 1, end) == Converted(6, 0);
    assert Utf8(0) == [0];
    assert Decode(s, 1, end) == Prepend([0], Decode(s, 7, end));
  }

  lemma {:induction false} PlainScans(s: seq<byte>, p: nat, q: nat, end: nat)
    requires p <= q <= end < |s| && ScanEnd(s, q) == Some(end)
    requires forall k :: p <= k < q ==> s[k] != QUOTE && s[k] != BACKSLASH
    ensures ScanEnd(s, p) == Some(end)
    decreases q - p
  {
    if p < q {
      PlainScans(s, p + 1, q, end);
    }
  }

  lemma ClearPair(c: seq<byte>, d: seq<byte>)
    requires IsContent(c) && !EndsInBackslash(c) && IsContent(d) && !EndsInBackslash(d)
    ensures ClosingQuotesAreClear(Pair(c, d) + [NUL], 0, |Pair(c, d)|)
  {
    hide ClosingQuotesAreClear, Pair, IsContent;
    var s, k, limit := Pair(c, d) + [NUL], |c| + 4, |Pair(c, d)|;
    PairLayout(c, d);
    ClearStep(s, k + |d| + 2, limit);
    ClearEnd(s, limit);
    ContentIsClear(d, s, k, limit);
    ClearStep(s, k - 1, limit);
    ContentIsClear(c, s, 1, limit);
    ClearStep(s, 0, limit);
  }

  lemma ClearEnd(s: seq<byte>, i: nat)
    requires i <= |s|
    ensures ClosingQuotesAreClear(s, i, i)
  {
  }

  lemma ContentIsClear(c: seq<byte>, t: seq<byte>, j: nat, limit: nat)
    requires IsContent(c) && !EndsInBackslash(c) && At(t, j, [QUOTE] + c + [QUOTE])
    requires ClosingQuotesAreClear(t, j + |c| + 2, limit)
    ensures ClosingQuotesAreClear(t, j, limit)
  {
    hide Decode, ScanEnd;
    var w := [QUOTE] + c + [QUOTE];
    var s := [QUOTE] + c + [QUOTE, NUL];
    AtIndex(t, j, w);
    var end := j + |c| + 1;
    assert w[0] == t[j + 0];
    assert forall k :: 1 <= k < |c| + 2 ==> s[k] == w[k];
    SameScan(s, 1, t, j + 1, |c| + 1, end);
    if c != [] {
      assert t[j + |c|] == w[|c|] == c[|c| - 1];
    }
  }

  const SPACED: CString := [97, SPACE, 98]
  const JOINED: CString := [97, 98]

  /**
    In the text `["c","a b"]`, which is accepted to its end for every literal "c" that the parser
    accepts, minification keeps the tree exactly if c does not end in a backslash; otherwise the
    second string becomes "ab".
   */
  lemma LiteralIsHarmlessExactlyIfClear(c: seq<byte>)
    requires IsContent(c)
    ensures IsContent(SPACED) && IsContent(JOINED) && 0 !in Pair(c, SPACED) && 0 !in Minified(Pair(c, SPACED))
    ensures var tree, other := Arr([Str(ContentValue(c)), Str(SPACED)]), Arr([Str(ContentValue(c)), Str(JOINED)]);
            var text, m := Pair(c, SPACED), Minified(Pair(c, SPACED));
            && Parse(text, true) == Parsed.Ok(tree, |text|)
            && (Parse(m, true) == Parsed.Ok(tree, |m|) <==> !EndsInBackslash(c))
            && (EndsInBackslash(c) ==> tree != other && Parse(m, true) == Parsed.Ok(other, |m|))
  {
    ExampleContents();
    hide Parse, Minified, Pair, IsContent, ContentValue, ClosingQuotesAreClear, WithoutBlanks;
    PairParses(c, SPACED);
    PairParses(c, JOINED);
    MinifiedIsCString(Pair(c, SPACED));
    if EndsInBackslash(c) {
      PairLosesBlanks(c, SPACED);
      var tree, other := Arr([Str(ContentValue(c)), Str(SPACED)]), Arr([Str(ContentValue(c)), Str(JOINED)]);
      assert tree.items[1].text != other.items[1].text;
    } else {
      ClearPair(c, SPACED);
      MinifiedTextParsesAlike(Pair(c, SPACED));
    }
  }

  lemma ExampleContents()
    ensures IsContent(SPACED) && ContentValue(SPACED) == SPACED && IsContent(JOINED) && ContentValue(JOINED) == JOINED
    ensures IsBare(SPACED) && WithoutBlanks(SPACED) == JOINED && !EndsInBackslash(SPACED) && SPACED != JOINED
  {
    assert SPACED[1..] == [SPACE, 98] && [SPACE, 98][1..] == [98] && [98][1..] == [] && JOINED[1..] == [98];
    assert ExtraCharacters([98]) == 0 && ExtraCharacters([SPACE, 98]) == 0;
    assert WithoutBlanks([98]) == [98] && WithoutBlanks([SPACE, 98]) == [98];
    PlainContent(SPACED);
    PlainContent(JOINED);
  }

  /**
    The condition on a whole text is no necessary one: a blank that is lost behind an escape for the
    code point 0, as in `["c","\u0000 x"]`, is not seen by any reader.
   */
  lemma HiddenBlankMayBeLost(c: seq<byte>)
    requires IsContent(c) && EndsInBackslash(c)
    ensures var text := Pair(c, NulEscaped([SPACE, 120]));
            && 0 !in text && 0 !in Minified(text) && Minified(text) == Pair(c, NulEscaped([120])) != text
            && Parse(text, true).Ok? && Parse(Minified(text), true).Ok?
            && Parse(Minified(text), true).value == Parse(text, true).value
  {
    HiddenContents();
    hide Parse, Minified, IsContent, ContentValue, WithoutBlanks;
    var d, e := NulEscaped([SPACE, 120]), NulEscaped([120]);
    PairParses(c, d);
    PairParses(c, e);
    PairLosesBlanks(c, d);
    assert |Pair(c, d)| != |Pair(c, e)|;
  }

  lemma HiddenContents()
    ensures var d, e := NulEscaped([SPACE, 120]), NulEscaped([120]);
            && IsContent(d) && ContentValue(d) == [] && IsContent(e) && ContentValue(e) == []
            && IsBare(d) && WithoutBlanks(d) == e
  {
    hide IsContent, ContentValue;
    NulEscapedIsEmpty([SPACE, 120]);
    NulEscapedIsEmpty([120]);
    BlanksAppend([BACKSLASH, 117, ZERO, ZERO, ZERO, ZERO], [SPACE, 120]);
    NoBlanks([BACKSLASH, 117, ZERO, ZERO, ZERO, ZERO]);
    assert [SPACE, 120][1..] == [120] && [120][1..] == [];
  }

  lemma {:induction false} BlanksAppend(a: seq<byte>, b: seq<byte>)
    ensures WithoutBlanks(a + b) == WithoutBlanks(a) + WithoutBlanks(b)
  {
    if a == [] {
      assert a + b == b;
    } else {
      BlanksAppend(a[1..], b);
      assert (a + b)[1..] == a[1..] + b;
    }
  }

  lemma {:induction false} NoBlanks(a: seq<byte>)
    requires forall k :: 0 <= k < |a| ==> !IsBlank(a[k])
    ensures WithoutBlanks(a) == a
  {
    if a != [] {
      NoBlanks(a[1..]);
      assert a == [a[0]] + a[1..];
    }
  }
}
