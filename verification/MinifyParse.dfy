/** Parsing a minified text gives the tree of the text. */
module MinifyParse {
  import opened Bytes
  import opened JsonTree
  import opened NumberText
  import opened Utf16
  import opened StringLiteral
  import opened Grammar
  import opened Minify
  import opened Render
  import RoundTrip

  /**
    From `i` on, outside a literal: no literal that starts before `limit` has a backslash just before
    its closing quote. Such a backslash is always an escaped one.
   */
  predicate ClosingQuotesAreClear(s: seq<byte>, i: nat, limit: nat)
    requires i <= |s|
    decreases |s| - i
  {
    if i >= limit || i == |s| then true
    else if s[i] != QUOTE then ClosingQuotesAreClear(s, i + 1, limit)
    else
      match ScanEnd(s, i + 1)
      case None => true
      case Some(end) => (end == i + 1 || s[end - 1] != BACKSLASH) && ClosingQuotesAreClear(s, end + 1, limit)
  }

  /** The terminator is the only NUL. */
  ghost predicate IsNulFreeText(s: seq<byte>) {
    forall k :: 0 <= k < |s| - 1 ==> s[k] != NUL
  }

  /** The rest of the text, without its terminator. */
  function Rest(s: seq<byte>, i: nat): seq<byte>
    requires i < |s|
  {
    s[i..|s| - 1]
  }

  /** `t` holds from `j` on the minified form of what `s` holds from `i` on, outside a literal. */
  ghost predicate Follows(s: seq<byte>, i: nat, t: seq<byte>, j: nat, limit: nat) {
    && Terminated(s) && Terminated(t) && i < |s| && j < |t|
    && IsNulFreeText(s) && ClosingQuotesAreClear(s, i, limit)
    && t[j..] == Minified(Rest(s, i)) + [NUL]
  }

  /** ... inside a literal. */
  ghost predicate FollowsInside(s: seq<byte>, i: nat, t: seq<byte>, j: nat) {
    && Terminated(s) && Terminated(t) && i < |s| && j < |t|
    && t[j..] == InString(Rest(s, i)) + [NUL]
  }

  // ---------- one byte

  lemma RestStep(s: seq<byte>, i: nat)
    requires i + 1 < |s|
    ensures Rest(s, i) != [] && Rest(s, i)[0] == s[i] && Rest(s, i)[1..] == Rest(s, i + 1)
  {
  }

  lemma HeadOf(t: seq<byte>, j: nat, b: byte, m: seq<byte>)
    requires j < |t| && t[j..] == [b] + m
    ensures t[j] == b && t[j + 1..] == m
  {
    assert t[j..][0] == t[j] && t[j..][1..] == t[j + 1..];
  }

  lemma NulIsEnd(s: seq<byte>, i: nat)
    requires Terminated(s) && i < |s| && IsNulFreeText(s)
    ensures s[i] == NUL <==> i + 1 == |s|
  {
  }

  predicate IsOrdinary(b: byte) {
    !IsBlank(b) && b != SLASH && b != QUOTE && b != NUL
  }

  lemma OrdinaryStep(s: seq<byte>, i: nat, t: seq<byte>, j: nat, limit: nat)
    requires Follows(s, i, t, j, limit) && IsOrdinary(s[i])
    ensures i + 1 < |s| && j + 1 < |t| && t[j] == s[i] && Follows(s, i + 1, t, j + 1, limit)
  {
    NulIsEnd(s, i);
    RestStep(s, i);
    var m := Minified(Rest(s, i + 1)) + [NUL];
    assert Minified(Rest(s, i)) + [NUL] == [s[i]] + m;
    HeadOf(t, j, s[i], m);
  }

  lemma BlankStep(s: seq<byte>, i: nat, t: seq<byte>, j: nat, limit: nat)
    requires Follows(s, i, t, j, limit) && IsBlank(s[i])
    ensures i + 1 < |s| && Follows(s, i + 1, t, j, limit)
  {
    NulIsEnd(s, i);
    RestStep(s, i);
  }

  lemma QuoteStep(s: seq<byte>, i: nat, t: seq<byte>, j: nat, limit: nat)
    requires Follows(s, i, t, j, limit) && s[i] == QUOTE
    ensures i + 1 < |s| && j + 1 < |t| && t[j] == QUOTE && FollowsInside(s, i + 1, t, j + 1)
  {
    NulIsEnd(s, i);
    RestStep(s, i);
    var m := InString(Rest(s, i + 1)) + [NUL];
    assert Minified(Rest(s, i)) + [NUL] == [QUOTE] + m;
    HeadOf(t, j, QUOTE, m);
  }

  lemma EndStep(s: seq<byte>, i: nat, t: seq<byte>, j: nat, limit: nat)
    requires Follows(s, i, t, j, limit) && s[i] == NUL
    ensures i + 1 == |s| && j + 1 == |t| && t[j] == NUL
  {
    NulIsEnd(s, i);
    assert Rest(s, i) == [];
    assert t[j..] == [NUL];
  }

  // ---------- white space and runs of ordinary bytes

  /** Where the cursor stands after white space. */
  function Next(s: seq<byte>, i: nat): (j: nat)
    requires i < |s|
    ensures i <= j < |s|
  {
    SkipWhitespace(s, i)
  }

  /** The two cursors skip to the same byte. */
  lemma {:induction false} SkipTogether(s: seq<byte>, i: nat, t: seq<byte>, j: nat, limit: nat)
    requires Follows(s, i, t, j, limit) && s[Next(s, i)] != SLASH
    ensures Follows(s, Next(s, i), t, Next(t, j), limit)
    ensures t[Next(t, j)] == s[Next(s, i)]
    decreases |s| - i
  {
    hide Follows;
    if s[i] == NUL {
      EndStep(s, i, t, j, limit);
    } else if IsBlank(s[i]) {
      BlankStep(s, i, t, j, limit);
      SkipTogether(s, i + 1, t, j, limit);
    } else if s[i] == QUOTE {
      QuoteStep(s, i, t, j, limit);
    } else if s[i] != SLASH {
      OrdinaryStep(s, i, t, j, limit);
      if s[i] <= 32 {
        SkipTogether(s, i + 1, t, j + 1, limit);
      }
    }
  }

  /** `n` bytes of `s` from `i` on stand in `t` from `j` on. */
  ghost predicate SameBytes(s: seq<byte>, i: nat, t: seq<byte>, j: nat, n: nat) {
    i + n <= |s| && j + n <= |t| && forall k :: i <= k < i + n ==> s[k] == t[k - i + j]
  }

  lemma {:induction false} OrdinaryRun(s: seq<byte>, i: nat, t: seq<byte>, j: nat, n: nat, limit: nat)
    requires Follows(s, i, t, j, limit) && i + n <= |s| && forall k :: i <= k < i + n ==> IsOrdinary(s[k])
    ensures SameBytes(s, i, t, j, n) && Follows(s, i + n, t, j + n, limit)
    decreases n
  {
    assert j < |t|;
    hide Follows;
    if n > 0 {
      OrdinaryStep(s, i, t, j, limit);
      OrdinaryRun(s, i + 1, t, j + 1, n - 1, limit);
    }
  }

  // ---------- literals

  lemma InsideStep(s: seq<byte>, i: nat, t: seq<byte>, j: nat)
    requires FollowsInside(s, i, t, j) && i + 2 < |s|
    requires s[i] != QUOTE && !(s[i] == BACKSLASH && s[i + 1] == QUOTE)
    ensures j + 1 < |t| && t[j] == s[i] && FollowsInside(s, i + 1, t, j + 1)
  {
    RestStep(s, i);
    RestStep(s, i + 1);
    var m := InString(Rest(s, i + 1)) + [NUL];
    assert Rest(s, i)[1] == s[i + 1];
    assert InString(Rest(s, i)) + [NUL] == [s[i]] + m;
    HeadOf(t, j, s[i], m);
  }

  lemma InsideEscapedQuote(s: seq<byte>, i: nat, t: seq<byte>, j: nat)
    requires FollowsInside(s, i, t, j) && i + 2 < |s| && s[i] == BACKSLASH && s[i + 1] == QUOTE
    ensures j + 2 < |t| && t[j] == s[i] && t[j + 1] == s[i + 1] && FollowsInside(s, i + 2, t, j + 2)
  {
    RestStep(s, i);
    RestStep(s, i + 1);
    var m := InString(Rest(s, i + 2)) + [NUL];
    assert Rest(s, i)[1] == s[i + 1] && Rest(s, i)[2..] == Rest(s, i + 2);
    assert InString(Rest(s, i)) + [NUL] == [BACKSLASH] + ([QUOTE] + m);
    HeadOf(t, j, BACKSLASH, [QUOTE] + m);
    HeadOf(t, j + 1, QUOTE, m);
  }

  lemma InsideEnd(s: seq<byte>, i: nat, t: seq<byte>, j: nat, limit: nat)
    requires FollowsInside(s, i, t, j) && i + 1 < |s| && s[i] == QUOTE
    requires IsNulFreeText(s) && ClosingQuotesAreClear(s, i + 1, limit)
    ensures j + 1 < |t| && t[j] == QUOTE && Follows(s, i + 1, t, j + 1, limit)
  {
    RestStep(s, i);
    var m := Minified(Rest(s, i + 1)) + [NUL];
    assert InString(Rest(s, i)) + [NUL] == [QUOTE] + m;
    HeadOf(t, j, QUOTE, m);
  }

  /** The minifier leaves a literal where the parser does, and copies it whole. */
  lemma {:induction false} InsideRun(s: seq<byte>, i: nat, t: seq<byte>, j: nat, end: nat, limit: nat)
    requires FollowsInside(s, i, t, j) && ScanEnd(s, i) == Some(end) && end + 1 < |s|
    requires end == i || s[end - 1] != BACKSLASH
    requires IsNulFreeText(s) && ClosingQuotesAreClear(s, end + 1, limit)
    ensures SameBytes(s, i, t, j, end + 1 - i) && Follows(s, end + 1, t, j + end + 1 - i, limit)
    decreases end - i
  {
    hide Follows, FollowsInside, ClosingQuotesAreClear;
    if s[i] == QUOTE {
      InsideEnd(s, i, t, j, limit);
    } else if s[i] != BACKSLASH {
      InsideStep(s, i, t, j);
      InsideRun(s, i + 1, t, j + 1, end, limit);
    } else if s[i + 1] == QUOTE {
      InsideEscapedQuote(s, i, t, j);
      InsideRun(s, i + 2, t, j + 2, end, limit);
    } else {
      InsideStep(s, i, t, j);
      InsideStep(s, i + 1, t, j + 1);
      InsideRun(s, i + 2, t, j + 2, end, limit);
    }
  }

  lemma ClearAfter(s: seq<byte>, i: nat, end: nat, limit: nat)
    requires i < limit && i < |s| && ClosingQuotesAreClear(s, i, limit)
    requires s[i] == QUOTE && ScanEnd(s, i + 1) == Some(end)
    ensures end == i + 1 || s[end - 1] != BACKSLASH
    ensures end + 1 <= |s| && ClosingQuotesAreClear(s, end + 1, limit)
  {
  }

  lemma {:induction false} LiteralIsCopied(s: seq<byte>, i: nat, t: seq<byte>, j: nat, end: nat, limit: nat)
    requires Follows(s, i, t, j, limit) && s[i] == QUOTE && ScanEnd(s, i + 1) == Some(end) && i < limit
    ensures i < end && end + 1 < |s|
    ensures SameBytes(s, i, t, j, end + 1 - i) && Follows(s, end + 1, t, j + end + 1 - i, limit)
  {
    ClearAfter(s, i, end, limit);
    NulIsEnd(s, end);
    assert IsNulFreeText(s);
    hide Follows, FollowsInside, ScanEnd, ClosingQuotesAreClear;
    QuoteStep(s, i, t, j, limit);
    InsideRun(s, i + 1, t, j + 1, end, limit);
  }

  // The two passes over a literal read nothing but its bytes.

  lemma {:induction false} SameScan(s: seq<byte>, i: nat, t: seq<byte>, j: nat, end: nat, tEnd: nat)
    requires i <= end < |s| && tEnd < |t| && tEnd - j == end - i
    requires ScanEnd(s, i) == Some(end) && SameBytes(s, i, t, j, end + 1 - i)
    ensures ScanEnd(t, j) == Some(tEnd)
    decreases end - i
  {
    assert s[i] == t[j];
    if s[i] == QUOTE {
    } else if s[i] == BACKSLASH {
      SameScan(s, i + 2, t, j + 2, end, tEnd);
    } else {
      SameScan(s, i + 1, t, j + 1, end, tEnd);
    }
  }

  lemma SameLiteral(s: seq<byte>, p: nat, end: nat, t: seq<byte>, q: nat)
    requires p < end < |s| && SameBytes(s, p, t, q, end + 1 - p)
    ensures LiteralAt(t, q, q + end - p) == LiteralAt(s, p, end)
  {
    assert s[p] == t[q];
    if p + 6 <= end {
      SameHex4(s, p + 2, t, q + 2);
      if p + 12 <= end {
        assert s[p + 6] == t[q + 6] && s[p + 7] == t[q + 7];
        SameHex4(s, p + 8, t, q + 8);
      }
    }
  }

  lemma SameHex4(s: seq<byte>, i: nat, t: seq<byte>, j: nat)
    requires SameBytes(s, i, t, j, 4)
    ensures Hex4(s, i) == Hex4(t, j)
  {
    assert s[i] == t[j] && s[i + 1] == t[j + 1] && s[i + 2] == t[j + 2] && s[i + 3] == t[j + 3];
  }

  lemma SameRest(s: seq<byte>, i: nat, t: seq<byte>, j: nat, n: nat, k: nat)
    requires SameBytes(s, i, t, j, n) && k <= n
    ensures SameBytes(s, i + k, t, j + k, n - k)
    ensures 0 < n ==> i < |s| && j < |t| && s[i] == t[j]
    ensures 1 < n ==> i + 1 < |s| && j + 1 < |t| && s[i + 1] == t[j + 1]
  {
  }

  lemma SameStep(s: seq<byte>, p: nat, end: nat, t: seq<byte>, q: nat)
    requires p < end < |s| && SameBytes(s, p, t, q, end + 1 - p)
    ensures q + end - p < |t|
    ensures StepLength(t, q, q + end - p) == StepLength(s, p, end)
    ensures StepLength(s, p, end) > 0 ==> StepBytes(t, q, q + end - p) == StepBytes(s, p, end)
  {
    hide LiteralAt, SimpleEscape, Utf8;
    SameRest(s, p, t, q, end + 1 - p, 0);
    SameLiteral(s, p, end, t, q);
  }

  lemma DecodeStepBack(s: seq<byte>, p: nat, end: nat)
    requires p < end < |s| && StepLength(s, p, end) > 0 && p + StepLength(s, p, end) <= end + 1
    ensures Decode(s, p, end) == Prepend(StepBytes(s, p, end), Decode(s, p + StepLength(s, p, end), end))
  {
  }

  lemma StepAlike(s: seq<byte>, p: nat, end: nat, t: seq<byte>, q: nat, tEnd: nat, w: nat)
    requires p < end < |s| && tEnd < |t| && tEnd - q == end - p && w == StepLength(s, p, end)
    requires SameBytes(s, p, t, q, end + 1 - p) && Decode(s, p, end).Decoded?
    ensures 0 < w && p + w <= end + 1 && SameBytes(s, p + w, t, q + w, end + 1 - p - w)
    ensures Decode(s, p + w, end).Decoded?
    ensures Decode(t, q + w, tEnd) == Decode(s, p + w, end) ==> Decode(t, q, tEnd) == Decode(s, p, end)
  {
    hide Decode, StepLength, StepBytes, SameBytes;
    DecodeStep(s, p, end);
    SameStep(s, p, end, t, q);
    DecodeStepBack(t, q, tEnd);
    SameRest(s, p, t, q, end + 1 - p, w);
  }

  lemma {:induction false} SameDecoding(s: seq<byte>, p: nat, end: nat, t: seq<byte>, q: nat, tEnd: nat)
    requires p <= end + 1 && end < |s| && tEnd < |t| && tEnd - q == end - p
    requires SameBytes(s, p, t, q, end + 1 - p) && Decode(s, p, end).Decoded?
    ensures Decode(t, q, tEnd) == Decode(s, p, end)
    decreases end + 1 - p
  {
    hide Decode, StepLength, SameBytes;
    if p >= end {
      NothingToDecode(s, p, end);
      NothingToDecode(t, q, tEnd);
    } else {
      var w := StepLength(s, p, end);
      StepAlike(s, p, end, t, q, tEnd, w);
      SameDecoding(s, p + w, end, t, q + w, tEnd);
    }
  }

  lemma StringOf(s: seq<byte>, i: nat, end: nat)
    requires Terminated(s) && i < |s| && s[i] == QUOTE && ScanEnd(s, i + 1) == Some(end)
    ensures ParseString(s, i).Ok? <==> Decode(s, i + 1, end).Decoded?
    ensures ParseString(s, i).Ok? ==> ParseString(s, i) == Parsed.Ok(UpToNul(Decode(s, i + 1, end).bytes), end + 1)
  {
  }

  lemma SameTail(s: seq<byte>, i: nat, t: seq<byte>, j: nat, end: nat)
    requires i < end && SameBytes(s, i, t, j, end + 1 - i)
    ensures end < |s| && j + end - i < |t| && t[j] == s[i]
    ensures SameBytes(s, i + 1, t, j + 1, end + 1 - (i + 1))
  {
  }

  lemma {:induction false} SamePasses(s: seq<byte>, i: nat, t: seq<byte>, j: nat, end: nat, tEnd: nat)
    requires i < end < |s| && ScanEnd(s, i + 1) == Some(end) && Decode(s, i + 1, end).Decoded?
    requires SameBytes(s, i, t, j, end + 1 - i) && tEnd - j == end - i
    ensures j < tEnd < |t| && t[j] == s[i]
    ensures ScanEnd(t, j + 1) == Some(tEnd) && Decode(t, j + 1, tEnd) == Decode(s, i + 1, end)
  {
    hide *;
    SameTail(s, i, t, j, end);
    SameScan(s, i + 1, t, j + 1, end, tEnd);
    SameDecoding(s, i + 1, end, t, j + 1, tEnd);
  }

  /** A copied literal is read as the same string. */
  lemma SameString(s: seq<byte>, i: nat, t: seq<byte>, j: nat, end: nat, tEnd: nat)
    requires Terminated(s) && Terminated(t) && i < end < |s| && s[i] == QUOTE && ParseString(s, i).Ok?
    requires ScanEnd(s, i + 1) == Some(end) && SameBytes(s, i, t, j, end + 1 - i) && tEnd - j == end - i
    ensures j < tEnd < |t| && ParseString(t, j) == Parsed.Ok(ParseString(s, i).value, tEnd + 1)
  {
    hide ScanEnd, Decode, SameBytes, Terminated, UpToNul, ParseString;
    StringOf(s, i, end);
    SamePasses(s, i, t, j, end, tEnd);
    StringOf(t, j, tEnd);
  }

  lemma StringParsesAlike(s: seq<byte>, i: nat, t: seq<byte>, j: nat, v: CString, next: nat, limit: nat)
    returns (tNext: nat)
    requires next <= limit
    requires Follows(s, i, t, j, limit) && ParseString(s, i) == Parsed.Ok(v, next)
    ensures j < |t| && ParseString(t, j) == Parsed.Ok(v, tNext) && Follows(s, next, t, tNext, limit)
  {
    hide *;
    FollowsInBounds(s, i, t, j, limit);
    StringEnds(s, i);
    var end := next - 1;
    LiteralIsCopied(s, i, t, j, end, limit);
    SameString(s, i, t, j, end, j + end - i);
    tNext := j + end + 1 - i;
  }

  lemma StringEnds(s: seq<byte>, i: nat)
    requires Terminated(s) && i < |s| && ParseString(s, i).Ok?
    ensures s[i] == QUOTE && ScanEnd(s, i + 1) == Some(ParseString(s, i).next - 1)
  {
    hide ScanEnd, Decode, UpToNul;
  }

  lemma FollowsInBounds(s: seq<byte>, i: nat, t: seq<byte>, j: nat, limit: nat)
    requires Follows(s, i, t, j, limit)
    ensures Terminated(s) && Terminated(t) && i < |s| && j < |t|
  {
  }

  // ---------- numbers

  /** What must come after a value, white space aside. */
  predicate IsFollowed(s: seq<byte>, next: nat)
    requires next < |s|
  {
    s[Next(s, next)] in {COMMA, RBRACKET, RBRACE, NUL}
  }

  /** How many bytes the parser copies as a number. */
  function Copied(s: seq<byte>, i: nat): (n: nat)
    requires i <= |s|
    ensures i + n <= |s|
  {
    TokenLength(s, i, NUMBER_BUFFER - 1)
  }

  lemma {:induction false} SameTokenLength(s: seq<byte>, i: nat, t: seq<byte>, j: nat, budget: nat)
    requires i <= |s| && j <= |t| && SameBytes(s, i, t, j, TokenLength(s, i, budget))
    requires var n := TokenLength(s, i, budget);
             j + n < |t| && !IsNumberChar(t[j + n])
    ensures TokenLength(t, j, budget) == TokenLength(s, i, budget)
    decreases budget
  {
    if TokenLength(s, i, budget) > 0 {
      assert s[i] == t[j];
      SameTokenLength(s, i + 1, t, j + 1, budget - 1);
    }
  }

  lemma SameToken(s: seq<byte>, i: nat, t: seq<byte>, j: nat)
    requires i <= |s| && j <= |t| && SameBytes(s, i, t, j, Copied(s, i))
    requires j + Copied(s, i) < |t| && !IsNumberChar(t[j + Copied(s, i)])
    ensures NumberToken(t, j) == NumberToken(s, i)
  {
    hide TokenLength;
    SameTokenLength(s, i, t, j, NUMBER_BUFFER - 1);
  }

  /** A number that something proper follows is the whole of its token, and the token the whole run. */
  lemma NumberIsItsToken(s: seq<byte>, i: nat)
    requires Terminated(s) && i < |s| && ParseNumber(s, i).Ok? && IsFollowed(s, ParseNumber(s, i).next)
    ensures ParseNumber(s, i).next == i + Copied(s, i)
    ensures forall k :: i <= k < i + Copied(s, i) ==> IsNumberChar(s[k])
  {
    hide Strtod;
    var next := ParseNumber(s, i).next;
    assert next <= i + TokenLength(s, i, NUMBER_BUFFER - 1);
    FollowerIsNoNumberChar(s, next);
  }

  lemma FollowerIsNoNumberChar(s: seq<byte>, next: nat)
    requires next < |s| && IsFollowed(s, next)
    ensures !IsNumberChar(s[next])
  {
  }

  /** What a number is depends on its token alone. */
  lemma SameNumber(s: seq<byte>, i: nat, t: seq<byte>, j: nat, v: Json, next: nat)
    requires Terminated(s) && Terminated(t) && i < |s| && j < |t|
    requires NumberToken(s, i) == NumberToken(t, j) && ParseNumber(s, i) == Parsed.Ok(v, next)
    ensures i < next && ParseNumber(t, j) == Parsed.Ok(v, next - i + j)
  {
    hide Strtod, NumberToken;
  }

  /** The token is copied, and nothing that could continue it comes after the copy. */
  lemma NumberRun(s: seq<byte>, i: nat, t: seq<byte>, j: nat, n: nat, limit: nat)
    requires Follows(s, i, t, j, limit) && i + n < |s| && IsFollowed(s, i + n)
    requires forall k :: i <= k < i + n ==> IsNumberChar(s[k])
    ensures SameBytes(s, i, t, j, n) && Follows(s, i + n, t, j + n, limit)
    ensures j + n < |t| && !IsNumberChar(t[j + n])
  {
    hide Follows, SameBytes;
    OrdinaryRun(s, i, t, j, n, limit);
    FollowsInBounds(s, i + n, t, j + n, limit);
    SkipTogether(s, i + n, t, j + n, limit);
    FollowerIsNoNumberChar(t, j + n);
  }

  lemma NumberParsesAlike(s: seq<byte>, i: nat, t: seq<byte>, j: nat, v: Json, next: nat, limit: nat)
    returns (tNext: nat)
    requires Follows(s, i, t, j, limit) && ParseNumber(s, i) == Parsed.Ok(v, next)
    requires next < |s| && IsFollowed(s, next)
    ensures j < |t| && ParseNumber(t, j) == Parsed.Ok(v, tNext) && Follows(s, next, t, tNext, limit)
  {
    hide *;
    FollowsInBounds(s, i, t, j, limit);
    NumberIsItsToken(s, i);
    NumberRun(s, i, t, j, next - i, limit);
    SameToken(s, i, t, j);
    SameNumber(s, i, t, j, v, next);
    tNext := j + (next - i);
  }

  // ---------- values

  lemma StartOfValue(s: seq<byte>, i: nat, depth: nat)
    requires Terminated(s) && i < |s| && ParseValue(s, i, depth).Ok?
    ensures s[i] > 32 && s[i] != SLASH
  {
    hide ParseString, ParseNumber, ParseArray, ParseObject;
    RoundTrip.PrefixFirstByte(s, i, NULL_TEXT);
    RoundTrip.PrefixFirstByte(s, i, FALSE_TEXT);
    RoundTrip.PrefixFirstByte(s, i, TRUE_TEXT);
  }

  lemma SameFirstByte(s: seq<byte>, i: nat, t: seq<byte>, j: nat, limit: nat)
    requires Follows(s, i, t, j, limit) && s[i] != SLASH && s[i] > 32
    ensures i + 1 < |s| && j + 1 < |t| && t[j] == s[i]
    ensures s[i] != QUOTE ==> Follows(s, i + 1, t, j + 1, limit)
  {
    if s[i] == QUOTE {
      QuoteStep(s, i, t, j, limit);
    } else {
      OrdinaryStep(s, i, t, j, limit);
    }
  }

  lemma WordAlike(s: seq<byte>, i: nat, t: seq<byte>, j: nat, w: seq<byte>, limit: nat)
    requires Follows(s, i, t, j, limit) && HasPrefix(s, i, w) && forall k :: 0 <= k < |w| ==> IsOrdinary(w[k])
    ensures i + |w| < |s| && j + |w| < |t| && Follows(s, i + |w|, t, j + |w|, limit) && HasPrefix(t, j, w)
  {
    forall k | i <= k < i + |w|
      ensures IsOrdinary(s[k])
    {
      assert s[k] == s[i..i + |w|][k - i];
    }
    OrdinaryRun(s, i, t, j, |w|, limit);
    assert t[j..j + |w|] == s[i..i + |w|];
  }

  /** The word a value starts with, if it starts with a letter. */
  function WordOf(b: byte): (w: CString)
    ensures forall k :: 0 <= k < |w| ==> IsOrdinary(w[k])
  {
    if b == 110 then NULL_TEXT else if b == 102 then FALSE_TEXT else if b == 116 then TRUE_TEXT else []
  }

  function ConstantOf(b: byte): Json {
    if b == 110 then Null else if b == 102 then False else True
  }

  lemma ConstantIsWord(s: seq<byte>, i: nat, depth: nat)
    requires Terminated(s) && i < |s| && s[i] in {110, 102, 116}
    ensures HasPrefix(s, i, WordOf(s[i])) ==> ParseValue(s, i, depth) == Parsed.Ok(ConstantOf(s[i]), i + |WordOf(s[i])|)
    ensures !HasPrefix(s, i, WordOf(s[i])) ==> ParseValue(s, i, depth) == Parsed.Bad(i)
  {
    RoundTrip.PrefixFirstByte(s, i, NULL_TEXT);
    RoundTrip.PrefixFirstByte(s, i, FALSE_TEXT);
    RoundTrip.PrefixFirstByte(s, i, TRUE_TEXT);
  }

  lemma ConstantAlike(s: seq<byte>, i: nat, t: seq<byte>, j: nat, depth: nat, v: Json, next: nat, limit: nat)
    returns (tNext: nat)
    requires Follows(s, i, t, j, limit) && ParseValue(s, i, depth) == Parsed.Ok(v, next) && s[i] in {110, 102, 116}
    ensures j < |t| && ParseValue(t, j, depth) == Parsed.Ok(v, tNext) && Follows(s, next, t, tNext, limit)
  {
    hide *;
    FollowsInBounds(s, i, t, j, limit);
    StartOfValue(s, i, depth);
    var w := WordOf(s[i]);
    SameFirstByte(s, i, t, j, limit);
    ConstantIsWord(s, i, depth);
    WordAlike(s, i, t, j, w, limit);
    ConstantIsWord(t, j, depth);
    tNext := j + |w|;
  }

  lemma StringValue(s: seq<byte>, i: nat, depth: nat)
    requires Terminated(s) && i < |s| && s[i] == QUOTE
    ensures ParseValue(s, i, depth) ==
            if ParseString(s, i).Ok? then Parsed.Ok(Str(ParseString(s, i).value), ParseString(s, i).next)
            else Parsed.Bad(ParseString(s, i).at)
  {
    RoundTrip.NotAWord(s, i);
    hide ParseString;
  }

  lemma StringValueAlike(s: seq<byte>, i: nat, t: seq<byte>, j: nat, depth: nat, v: Json, next: nat, limit: nat)
    returns (tNext: nat)
    requires next <= limit
    requires Follows(s, i, t, j, limit) && ParseValue(s, i, depth) == Parsed.Ok(v, next) && s[i] == QUOTE
    ensures j < |t| && ParseValue(t, j, depth) == Parsed.Ok(v, tNext) && Follows(s, next, t, tNext, limit)
  {
    hide *;
    FollowsInBounds(s, i, t, j, limit);
    StringValue(s, i, depth);
    QuoteStep(s, i, t, j, limit);
    tNext := StringParsesAlike(s, i, t, j, ParseString(s, i).value, next, limit);
    StringValue(t, j, depth);
  }

  lemma NumberValue(s: seq<byte>, i: nat, depth: nat)
    requires Terminated(s) && i < |s| && (s[i] == MINUS || IsDigit(s[i]))
    ensures ParseValue(s, i, depth) == ParseNumber(s, i) && s[i] > 32 && s[i] != SLASH && s[i] != QUOTE
    ensures ParseNumber(s, i).Ok? ==> ParseNumber(s, i).value.Number?
  {
    RoundTrip.NotAWord(s, i);
    hide NumberOf;
  }

  lemma NumberValueAlike(s: seq<byte>, i: nat, t: seq<byte>, j: nat, depth: nat, v: Json, next: nat, limit: nat)
    returns (tNext: nat)
    requires Follows(s, i, t, j, limit) && ParseValue(s, i, depth) == Parsed.Ok(v, next)
    requires s[i] == MINUS || IsDigit(s[i])
    requires next < |s| && IsFollowed(s, next)
    ensures j < |t| && ParseValue(t, j, depth) == Parsed.Ok(v, tNext) && Follows(s, next, t, tNext, limit)
  {
    hide *;
    FollowsInBounds(s, i, t, j, limit);
    NumberValue(s, i, depth);
    SameFirstByte(s, i, t, j, limit);
    tNext := NumberParsesAlike(s, i, t, j, v, next, limit);
    NumberValue(t, j, depth);
  }

  /** The cursors step over white space and the same punctuation. */
  lemma PunctuationAlike(s: seq<byte>, i: nat, t: seq<byte>, j: nat, limit: nat)
    requires Follows(s, i, t, j, limit) && s[Next(s, i)] in {COMMA, COLON, RBRACKET, RBRACE}
    ensures j < |t| && t[Next(t, j)] == s[Next(s, i)]
    ensures Next(s, i) + 1 < |s| && Next(t, j) + 1 < |t|
    ensures Follows(s, Next(s, i) + 1, t, Next(t, j) + 1, limit)
  {
    hide Follows, SkipWhitespace;
    FollowsInBounds(s, i, t, j, limit);
    SkipTogether(s, i, t, j, limit);
    SameFirstByte(s, Next(s, i), t, Next(t, j), limit);
  }

  lemma OpeningAlike(s: seq<byte>, i: nat, t: seq<byte>, j: nat, limit: nat)
    requires Follows(s, i, t, j, limit) && s[i] in {LBRACKET, LBRACE}
    ensures i + 1 < |s| && j + 1 < |t| && t[j] == s[i] && Follows(s, i + 1, t, j + 1, limit)
  {
    hide Follows;
    SameFirstByte(s, i, t, j, limit);
  }

  lemma KindOfValue(s: seq<byte>, i: nat, depth: nat)
    requires Terminated(s) && i < |s| && ParseValue(s, i, depth).Ok?
    ensures s[i] in {110, 102, 116, QUOTE, MINUS, LBRACKET, LBRACE} || IsDigit(s[i])
  {
    if s[i] !in {110, 102, 116} {
      RoundTrip.NotAWord(s, i);
    }
  }

  lemma ArrayValue(s: seq<byte>, i: nat, depth: nat)
    requires Terminated(s) && i < |s| && s[i] == LBRACKET
    ensures i + 1 < |s|
    ensures var first := Next(s, i + 1);
            ParseValue(s, i, depth) ==
            if depth >= NESTING_LIMIT then Parsed.Bad(i)
            else if s[first] == RBRACKET then Parsed.Ok(Arr([]), first + 1)
            else if ParseItems(s, first, depth + 1).Ok?
            then Parsed.Ok(Arr(ParseItems(s, first, depth + 1).value), ParseItems(s, first, depth + 1).next)
            else Parsed.Bad(ParseItems(s, first, depth + 1).at)
  {
    RoundTrip.NotAWord(s, i);
    hide ParseItems, SkipWhitespace;
  }

  lemma ObjectValue(s: seq<byte>, i: nat, depth: nat)
    requires Terminated(s) && i < |s| && s[i] == LBRACE
    ensures i + 1 < |s|
    ensures var first := Next(s, i + 1);
            ParseValue(s, i, depth) ==
            if depth >= NESTING_LIMIT then Parsed.Bad(i)
            else if s[first] == RBRACE then Parsed.Ok(Obj([]), first + 1)
            else if ParseMembers(s, first, depth + 1).Ok?
            then Parsed.Ok(Obj(ParseMembers(s, first, depth + 1).value), ParseMembers(s, first, depth + 1).next)
            else Parsed.Bad(ParseMembers(s, first, depth + 1).at)
  {
    RoundTrip.NotAWord(s, i);
    hide ParseMembers, SkipWhitespace;
  }

  /** Items start with a value, after white space of which there may be none left. */
  lemma StartOfItems(s: seq<byte>, i: nat, depth: nat)
    requires Terminated(s) && i < |s| && ParseItems(s, i, depth).Ok?
    ensures ParseValue(s, Next(s, i), depth).Ok? && s[Next(s, i)] != SLASH && s[i] != SLASH
  {
    StartOfValue(s, Next(s, i), depth);
  }

  lemma StartOfMembers(s: seq<byte>, i: nat, depth: nat)
    requires Terminated(s) && i < |s| && ParseMembers(s, i, depth).Ok?
    ensures ParseMember(s, Next(s, i), depth).Ok? && ParseString(s, Next(s, i)).Ok?
    ensures s[Next(s, i)] != SLASH && s[i] != SLASH
  {
    hide ScanEnd, Decode, ParseValue;
  }

  lemma {:induction false} ValueAlike(
    s: seq<byte>, i: nat, t: seq<byte>, j: nat, depth: nat, v: Json, next: nat, limit: nat)
    returns (tNext: nat)
    requires next <= limit
    requires Follows(s, i, t, j, limit) && ParseValue(s, i, depth) == Parsed.Ok(v, next)
    requires next < |s| && (v.Number? ==> IsFollowed(s, next))
    ensures j < |t| && ParseValue(t, j, depth) == Parsed.Ok(v, tNext) && Follows(s, next, t, tNext, limit)
    decreases |s| - i, 2
  {
    hide *;
    FollowsInBounds(s, i, t, j, limit);
    KindOfValue(s, i, depth);
    if s[i] in {110, 102, 116} {
      tNext := ConstantAlike(s, i, t, j, depth, v, next, limit);
    } else if s[i] == QUOTE {
      tNext := StringValueAlike(s, i, t, j, depth, v, next, limit);
    } else if s[i] == LBRACKET {
      tNext := ArrayAlike(s, i, t, j, depth, v, next, limit);
    } else if s[i] == LBRACE {
      tNext := ObjectAlike(s, i, t, j, depth, v, next, limit);
    } else {
      NumberValue(s, i, depth);
      tNext := NumberValueAlike(s, i, t, j, depth, v, next, limit);
    }
  }

  lemma {:induction false} ArrayAlike(
    s: seq<byte>, i: nat, t: seq<byte>, j: nat, depth: nat, v: Json, next: nat, limit: nat)
    returns (tNext: nat)
    requires next <= limit
    requires Follows(s, i, t, j, limit) && ParseValue(s, i, depth) == Parsed.Ok(v, next) && s[i] == LBRACKET
    ensures j < |t| && ParseValue(t, j, depth) == Parsed.Ok(v, tNext) && Follows(s, next, t, tNext, limit)
    decreases |s| - i, 1
  {
    hide *;
    FollowsInBounds(s, i, t, j, limit);
    OpeningAlike(s, i, t, j, limit);
    ArrayValue(s, i, depth);
    ArrayValue(t, j, depth);
    var first, tFirst := Next(s, i + 1), Next(t, j + 1);
    if s[first] == RBRACKET {
      PunctuationAlike(s, i + 1, t, j + 1, limit);
      tNext := tFirst + 1;
    } else {
      StartOfItems(s, first, depth + 1);
      SkipTogether(s, i + 1, t, j + 1, limit);
      tNext := ItemsAlike(s, first, t, tFirst, depth + 1, v.items, next, limit);
    }
  }

  lemma FollowedBy(s: seq<byte>, next: nat)
    requires next < |s| && s[Next(s, next)] in {COMMA, RBRACKET, RBRACE, NUL}
    ensures IsFollowed(s, next)
  {
  }

  lemma ItemsUnfold(s: seq<byte>, i: nat, depth: nat, item: Json, next: nat)
    requires Terminated(s) && i < |s| && ParseValue(s, Next(s, i), depth) == Parsed.Ok(item, next)
    ensures next < |s|
    ensures s[Next(s, next)] == COMMA ==> Next(s, next) + 1 < |s|
    ensures ParseItems(s, i, depth) ==
            var after := Next(s, next);
            if s[after] == COMMA then PrependItems([item], ParseItems(s, after + 1, depth))
            else if s[after] == RBRACKET then Parsed.Ok([item], after + 1)
            else Parsed.Bad(after)
  {
    hide SkipWhitespace, ParseValue;
  }

  lemma {:induction false} ItemsAlike(
    s: seq<byte>, i: nat, t: seq<byte>, j: nat, depth: nat, v: seq<Json>, next: nat, limit: nat)
    returns (tNext: nat)
    requires next <= limit
    requires Follows(s, i, t, j, limit) && ParseItems(s, i, depth) == Parsed.Ok(v, next)
    ensures j < |t| && ParseItems(t, j, depth) == Parsed.Ok(v, tNext) && Follows(s, next, t, tNext, limit)
    decreases |s| - i, 3
  {
    hide *;
    FollowsInBounds(s, i, t, j, limit);
    StartOfItems(s, i, depth);
    var start, tStart := Next(s, i), Next(t, j);
    var item, mid := ParseValue(s, start, depth).value, ParseValue(s, start, depth).next;
    ItemsUnfold(s, i, depth, item, mid);
    var after := Next(s, mid);
    FollowedBy(s, mid);
    SkipTogether(s, i, t, j, limit);
    var tMid := ValueAlike(s, start, t, tStart, depth, item, mid, limit);
    PunctuationAlike(s, mid, t, tMid, limit);
    ItemsUnfold(t, j, depth, item, tMid);
    var tAfter := Next(t, tMid);
    if s[after] == COMMA {
      tNext := ItemsAlike(s, after + 1, t, tAfter + 1, depth, ParseItems(s, after + 1, depth).value, next, limit);
    } else {
      tNext := tAfter + 1;
    }
  }

  lemma {:induction false} ObjectAlike(
    s: seq<byte>, i: nat, t: seq<byte>, j: nat, depth: nat, v: Json, next: nat, limit: nat)
    returns (tNext: nat)
    requires next <= limit
    requires Follows(s, i, t, j, limit) && ParseValue(s, i, depth) == Parsed.Ok(v, next) && s[i] == LBRACE
    ensures j < |t| && ParseValue(t, j, depth) == Parsed.Ok(v, tNext) && Follows(s, next, t, tNext, limit)
    decreases |s| - i, 1
  {
    hide *;
    FollowsInBounds(s, i, t, j, limit);
    OpeningAlike(s, i, t, j, limit);
    ObjectValue(s, i, depth);
    ObjectValue(t, j, depth);
    var first, tFirst := Next(s, i + 1), Next(t, j + 1);
    if s[first] == RBRACE {
      PunctuationAlike(s, i + 1, t, j + 1, limit);
      tNext := tFirst + 1;
    } else {
      StartOfMembers(s, first, depth + 1);
      SkipTogether(s, i + 1, t, j + 1, limit);
      tNext := MembersAlike(s, first, t, tFirst, depth + 1, v.members, next, limit);
    }
  }

  lemma MembersUnfold(s: seq<byte>, i: nat, depth: nat, m: Member, next: nat)
    requires Terminated(s) && i < |s| && ParseMember(s, Next(s, i), depth) == Parsed.Ok(m, next)
    ensures next < |s|
    ensures s[Next(s, next)] == COMMA ==> Next(s, next) + 1 < |s|
    ensures ParseMembers(s, i, depth) ==
            var after := Next(s, next);
            if s[after] == COMMA then PrependItems([m], ParseMembers(s, after + 1, depth))
            else if s[after] == RBRACE then Parsed.Ok([m], after + 1)
            else Parsed.Bad(after)
  {
    hide SkipWhitespace, ParseMember;
  }

  lemma {:induction false} MembersAlike(
    s: seq<byte>, i: nat, t: seq<byte>, j: nat, depth: nat, v: seq<Member>, next: nat, limit: nat)
    returns (tNext: nat)
    requires next <= limit
    requires Follows(s, i, t, j, limit) && ParseMembers(s, i, depth) == Parsed.Ok(v, next)
    ensures j < |t| && ParseMembers(t, j, depth) == Parsed.Ok(v, tNext) && Follows(s, next, t, tNext, limit)
    decreases |s| - i, 4
  {
    hide *;
    FollowsInBounds(s, i, t, j, limit);
    StartOfMembers(s, i, depth);
    var start, tStart := Next(s, i), Next(t, j);
    var m, mid := ParseMember(s, start, depth).value, ParseMember(s, start, depth).next;
    MembersUnfold(s, i, depth, m, mid);
    var after := Next(s, mid);
    FollowedBy(s, mid);
    SkipTogether(s, i, t, j, limit);
    var tMid := MemberAlike(s, start, t, tStart, depth, m, mid, limit);
    PunctuationAlike(s, mid, t, tMid, limit);
    MembersUnfold(t, j, depth, m, tMid);
    var tAfter := Next(t, tMid);
    if s[after] == COMMA {
      tNext := MembersAlike(s, after + 1, t, tAfter + 1, depth, ParseMembers(s, after + 1, depth).value, next, limit);
    } else {
      tNext := tAfter + 1;
    }
  }

  lemma MemberParts(s: seq<byte>, i: nat, depth: nat)
    requires Terminated(s) && i < |s| && ParseMember(s, i, depth).Ok?
    ensures ParseString(s, i).Ok? && ParseString(s, i).value == ParseMember(s, i, depth).value.key
    ensures var colon := Next(s, ParseString(s, i).next);
            && s[colon] == COLON && colon + 1 < |s|
            && ParseValue(s, Next(s, colon + 1), depth)
               == Parsed.Ok(ParseMember(s, i, depth).value.value, ParseMember(s, i, depth).next)
  {
    hide SkipWhitespace, ParseString, ParseValue;
  }

  lemma MemberOfParts(s: seq<byte>, i: nat, depth: nat, m: Member, afterKey: nat, next: nat)
    requires Terminated(s) && i < |s| && ParseString(s, i) == Parsed.Ok(m.key, afterKey)
    requires s[Next(s, afterKey)] == COLON && Next(s, afterKey) + 1 < |s|
    requires ParseValue(s, Next(s, Next(s, afterKey) + 1), depth) == Parsed.Ok(m.value, next)
    ensures ParseMember(s, i, depth) == Parsed.Ok(m, next)
  {
    hide SkipWhitespace, ParseString, ParseValue;
  }

  lemma {:induction false} MemberAlike(
    s: seq<byte>, i: nat, t: seq<byte>, j: nat, depth: nat, m: Member, next: nat, limit: nat)
    returns (tNext: nat)
    requires next <= limit
    requires Follows(s, i, t, j, limit) && ParseMember(s, i, depth) == Parsed.Ok(m, next)
    requires next < |s| && IsFollowed(s, next)
    ensures j < |t| && ParseMember(t, j, depth) == Parsed.Ok(m, tNext) && Follows(s, next, t, tNext, limit)
    decreases |s| - i, 3
  {
    hide *;
    FollowsInBounds(s, i, t, j, limit);
    MemberParts(s, i, depth);
    var afterKey := ParseString(s, i).next;
    var colon := Next(s, afterKey);
    var tAfterKey := StringParsesAlike(s, i, t, j, m.key, afterKey, limit);
    FollowsInBounds(s, afterKey, t, tAfterKey, limit);
    PunctuationAlike(s, afterKey, t, tAfterKey, limit);
    var tColon := Next(t, tAfterKey);
    StartOfValue(s, Next(s, colon + 1), depth);
    SkipTogether(s, colon + 1, t, tColon + 1, limit);
    tNext := ValueAlike(s, Next(s, colon + 1), t, Next(t, tColon + 1), depth, m.value, next, limit);
    MemberOfParts(t, j, depth, m, tAfterKey, tNext);
  }

  // ---------- whole texts

  ghost predicate HasNoNul(r: seq<byte>) {
    forall k :: 0 <= k < |r| ==> r[k] != NUL
  }

  lemma {:induction false} MinifiedHasNoNul(r: seq<byte>)
    requires HasNoNul(r)
    ensures HasNoNul(Minified(r))
    decreases |r|
  {
    if r == [] {
    } else if r[0] == SLASH {
      if |r| > 1 && r[1] == SLASH {
        AfterLineHasNoNul(r[2..]);
        MinifiedHasNoNul(AfterLine(r[2..]));
      } else if |r| > 1 && r[1] == STAR {
        AfterBlockHasNoNul(r[2..]);
        MinifiedHasNoNul(AfterBlock(r[2..]));
      } else {
        MinifiedHasNoNul(r[1..]);
      }
    } else if r[0] == QUOTE {
      InStringHasNoNul(r[1..]);
    } else {
      MinifiedHasNoNul(r[1..]);
    }
  }

  lemma {:induction false} InStringHasNoNul(r: seq<byte>)
    requires HasNoNul(r)
    ensures HasNoNul(InString(r))
    decreases |r|
  {
    if r == [] {
    } else if r[0] == QUOTE {
      MinifiedHasNoNul(r[1..]);
    } else if r[0] == BACKSLASH && |r| > 1 && r[1] == QUOTE {
      InStringHasNoNul(r[2..]);
    } else {
      InStringHasNoNul(r[1..]);
    }
  }

  lemma {:induction false} AfterLineHasNoNul(r: seq<byte>)
    requires HasNoNul(r)
    ensures HasNoNul(AfterLine(r))
  {
    if r != [] && r[0] != NEWLINE {
      AfterLineHasNoNul(r[1..]);
    }
  }

  lemma {:induction false} AfterBlockHasNoNul(r: seq<byte>)
    requires HasNoNul(r)
    ensures HasNoNul(AfterBlock(r))
  {
    if r != [] && !(r[0] == STAR && |r| > 1 && r[1] == SLASH) {
      AfterBlockHasNoNul(r[1..]);
    }
  }

  lemma MinifiedIsCString(text: CString)
    ensures 0 !in Minified(text)
  {
    MinifiedHasNoNul(text);
  }

  lemma TextFollows(text: CString, limit: nat)
    requires ClosingQuotesAreClear(text + [NUL], 0, limit)
    ensures Follows(text + [NUL], 0, Minified(text) + [NUL], 0, limit)
  {
    var s, t := text + [NUL], Minified(text) + [NUL];
    assert Rest(s, 0) == text && t[0..] == t;
    assert forall k :: 0 <= k < |s| - 1 ==> s[k] == text[k];
  }

  /** Both texts start with the byte order mark, or neither does. */
  lemma MarkAlike(s: seq<byte>, t: seq<byte>, limit: nat)
    requires Follows(s, 0, t, 0, limit)
    requires var b := s[Next(s, SkipByteOrderMark(s))]; 32 < b < 128 && b != SLASH
    ensures SkipByteOrderMark(t) == SkipByteOrderMark(s)
    ensures Follows(s, SkipByteOrderMark(s), t, SkipByteOrderMark(s), limit)
  {
    hide Follows;
    FollowsInBounds(s, 0, t, 0, limit);
    if SkipByteOrderMark(s) == 3 {
      WordAlike(s, 0, t, 0, BYTE_ORDER_MARK, limit);
      SkipTogether(s, 3, t, 3, limit);
    } else {
      SkipTogether(s, 0, t, 0, limit);
      RoundTrip.PrefixFirstByte(t, 0, BYTE_ORDER_MARK);
    }
  }

  lemma ParseUnfold(text: CString, tree: Json, next: nat)
    requires var s := text + [NUL];
             ParseValue(s, Next(s, SkipByteOrderMark(s)), 0) == Parsed.Ok(tree, next)
    ensures next < |text| + 1
    ensures var s := text + [NUL];
            Parse(text, true) ==
            if s[Next(s, next)] == NUL then Parsed.Ok(tree, Next(s, next)) else Parsed.Bad(Next(s, next))
  {
    hide SkipWhitespace, ParseValue, SkipByteOrderMark;
  }

  lemma ParsedValue(text: CString)
    requires Parse(text, true).Ok?
    ensures var s := text + [NUL];
            ParseValue(s, Next(s, SkipByteOrderMark(s)), 0).Ok?
  {
    hide SkipWhitespace, ParseValue, SkipByteOrderMark;
  }

  /**
    An accepted text whose closing quotes are clear of backslashes can be minified: the result is
    accepted, to its end, with the same tree.
   */
  lemma MinifiedTextParsesAlike(text: CString)
    requires Parse(text, true).Ok? && ClosingQuotesAreClear(text + [NUL], 0, |text|)
    ensures 0 !in Minified(text)
    ensures Parse(Minified(text), true) == Parsed.Ok(Parse(text, true).value, |Minified(text)|)
  {
    hide *;
    MinifiedIsCString(text);
    var m: CString := Minified(text);
    var s, t := text + [NUL], m + [NUL];
    TextFollows(text, |text|);
    FollowsInBounds(s, 0, t, 0, |text|);
    ParsedValue(text);
    var start := Next(s, SkipByteOrderMark(s));
    var tree, next := ParseValue(s, start, 0).value, ParseValue(s, start, 0).next;
    ParseUnfold(text, tree, next);
    StartOfAnyValue(s, start, 0);
    MarkAlike(s, t, |text|);
    SkipTogether(s, SkipByteOrderMark(s), t, SkipByteOrderMark(t), |text|);
    FollowedBy(s, next);
    var tNext := ValueAlike(s, start, t, Next(t, SkipByteOrderMark(t)), 0, tree, next, |text|);
    EndTogether(s, next, t, tNext, |text|);
    ParseUnfold(m, tree, tNext);
  }

  lemma StartOfAnyValue(s: seq<byte>, i: nat, depth: nat)
    requires Terminated(s) && i < |s| && ParseValue(s, i, depth).Ok?
    ensures 32 < s[i] < 128 && s[i] != SLASH
  {
    hide ParseValue;
    KindOfValue(s, i, depth);
    StartOfValue(s, i, depth);
  }

  lemma EndTogether(s: seq<byte>, i: nat, t: seq<byte>, j: nat, limit: nat)
    requires Follows(s, i, t, j, limit) && s[Next(s, i)] == NUL
    ensures j < |t| && t[Next(t, j)] == NUL && Next(t, j) + 1 == |t|
  {
    hide Follows, Next;
    FollowsInBounds(s, i, t, j, limit);
    SkipTogether(s, i, t, j, limit);
    EndStep(s, Next(s, i), t, Next(t, j), limit);
  }

  // ---------- texts with bytes behind the value

  /** Where the value starts. */
  function ValueStart(text: CString): (i: nat)
    ensures i <= |text|
  {
    Next(text + [NUL], SkipByteOrderMark(text + [NUL]))
  }

  /** The number the parser finds when what is left behind a number is moved up to it. */
  function JoinedNumber(text: CString): NumberResult
    requires Parse(text, false).Ok? && ValueStart(text) <= Parse(text, false).next
  {
    var next := Parse(text, false).next;
    NumberOf(text[ValueStart(text)..next] + Minified(text[next..]) + [NUL], 0)
  }

  lemma {:induction false} TokenLengthOfSuffix(t: seq<byte>, j: nat, i: nat, budget: nat)
    requires j + i <= |t|
    ensures TokenLength(t[j..], i, budget) == TokenLength(t, j + i, budget)
    decreases budget
  {
    if budget > 0 && j + i < |t| {
      assert t[j..][i] == t[j + i];
      TokenLengthOfSuffix(t, j, i + 1, budget - 1);
    }
  }

  lemma NumberOfSuffix(t: seq<byte>, j: nat)
    requires j <= |t|
    ensures NumberOf(t, j) ==
            match NumberOf(t[j..], 0)
            case NotANumber => NotANumber
            case NumberAt(n, k) => NumberAt(n, j + k)
  {
    hide Strtod, TokenLength;
    TokenLengthOfSuffix(t, j, 0, NUMBER_BUFFER - 1);
    assert NumberToken(t[j..], 0) == NumberToken(t, j);
  }

  lemma NumberBytes(s: seq<byte>, i: nat, v: Json, next: nat)
    requires Terminated(s) && i < |s| && ParseNumber(s, i) == Parsed.Ok(v, next)
    ensures i < next < |s| && forall k :: i <= k < next ==> IsNumberChar(s[k])
  {
    hide Strtod;
  }

  /** What stands behind the number in the minified text. */
  lemma NumberIsCopied(s: seq<byte>, i: nat, t: seq<byte>, j: nat, v: Json, next: nat, limit: nat)
    requires Follows(s, i, t, j, limit) && ParseNumber(s, i) == Parsed.Ok(v, next)
    ensures i <= next < |s| && j < |t| && t[j..] == s[i..next] + Minified(Rest(s, next)) + [NUL]
  {
    hide ParseNumber, Minified, ClosingQuotesAreClear;
    NumberBytes(s, i, v, next);
    OrdinaryRun(s, i, t, j, next - i, limit);
    assert t[j..] == t[j..j + (next - i)] + t[j + (next - i)..];
    assert t[j..j + (next - i)] == s[i..next];
  }

  lemma NumberIsJoined(s: seq<byte>, i: nat, t: seq<byte>, j: nat, v: Json, next: nat, limit: nat)
    requires Follows(s, i, t, j, limit) && ParseValue(s, i, 0) == Parsed.Ok(v, next) && v.Number?
    ensures i <= next < |s| && j < |t|
    ensures match NumberOf(s[i..next] + Minified(Rest(s, next)) + [NUL], 0)
            case NotANumber => ParseValue(t, j, 0).Bad?
            case NumberAt(n, k) => ParseValue(t, j, 0) == Parsed.Ok(Number(n), j + k)
  {
    hide *;
    FollowsInBounds(s, i, t, j, limit);
    NumberStart(s, i, v, next);
    NumberValue(s, i, 0);
    SameFirstByte(s, i, t, j, limit);
    NumberIsCopied(s, i, t, j, v, next, limit);
    NumberValue(t, j, 0);
    NumberOfSuffix(t, j);
    NumberParsed(t, j);
  }

  lemma NumberStart(s: seq<byte>, i: nat, v: Json, next: nat)
    requires Terminated(s) && i < |s| && ParseValue(s, i, 0) == Parsed.Ok(v, next) && v.Number?
    ensures s[i] == MINUS || IsDigit(s[i])
  {
    hide ParseValue, HasPrefix, ParseString, ParseItems, ParseMembers;
    KindOfValue(s, i, 0);
    if s[i] in {110, 102, 116} {
      ConstantIsWord(s, i, 0);
    } else if s[i] == QUOTE {
      StringValue(s, i, 0);
    } else if s[i] == LBRACKET {
      ArrayValue(s, i, 0);
    } else if s[i] == LBRACE {
      ObjectValue(s, i, 0);
    }
  }

  lemma NumberParsed(s: seq<byte>, i: nat)
    requires Terminated(s) && i < |s|
    ensures ParseNumber(s, i) ==
            match NumberOf(s, i)
            case NotANumber => Parsed.Bad(i)
            case NumberAt(n, next) => Parsed.Ok(Number(n), next)
  {
    hide NumberOf;
  }

  lemma PrefixUnfold(text: CString)
    ensures var s := text + [NUL];
            match ParseValue(s, ValueStart(text), 0)
            case Ok(tree, next) => Parse(text, false) == Parsed.Ok(tree, next)
            case Bad(_) => Parse(text, false).Bad?
  {
    hide SkipWhitespace, ParseValue, SkipByteOrderMark;
  }

  /** Both texts are read from the same byte on. */
  lemma StartAlike(text: CString, m: CString, limit: nat)
    requires m == Minified(text) && Parse(text, false).Ok? && ClosingQuotesAreClear(text + [NUL], 0, limit)
    ensures ParseValue(text + [NUL], ValueStart(text), 0).Ok?
    ensures Follows(text + [NUL], ValueStart(text), m + [NUL], ValueStart(m), limit)
  {
    hide ParseValue, Parse, Follows, Minified, ClosingQuotesAreClear, Next, SkipByteOrderMark;
    var s, t := text + [NUL], m + [NUL];
    PrefixUnfold(text);
    TextFollows(text, limit);
    StartOfAnyValue(s, ValueStart(text), 0);
    MarkAlike(s, t, limit);
    SkipTogether(s, SkipByteOrderMark(s), t, SkipByteOrderMark(t), limit);
  }

  /**
    A text of which the parser accepts a value, whatever stands behind it. If the closing quotes in
    that value are clear of backslashes, the minified text is accepted with the same tree, exactly
    if the value is no number or the joined number reads the same; and a number becomes the joined
    one in any case.
   */
  lemma MinifiedTextKeepsTreeExactly(text: CString)
    requires Parse(text, false).Ok? && ClosingQuotesAreClear(text + [NUL], 0, Parse(text, false).next)
    ensures 0 !in Minified(text) && ValueStart(text) <= Parse(text, false).next
    ensures var r, m := Parse(text, false), Parse(Minified(text), false);
            && (m.Ok? && m.value == r.value <==>
                  (r.value.Number? ==> JoinedNumber(text).NumberAt? && JoinedNumber(text).n == r.value.n))
            && (r.value.Number? ==>
                  if JoinedNumber(text).NumberAt? then m.Ok? && m.value == Number(JoinedNumber(text).n) else m.Bad?)
  {
    hide *;
    MinifiedIsCString(text);
    var m: CString := Minified(text);
    var s, t := text + [NUL], m + [NUL];
    var limit := Parse(text, false).next;
    PrefixUnfold(text);
    PrefixUnfold(m);
    StartAlike(text, m, limit);
    var start, tStart := ValueStart(text), ValueStart(m);
    var tree := Parse(text, false).value;
    FollowsInBounds(s, start, t, tStart, limit);
    if tree.Number? {
      NumberIsJoined(s, start, t, tStart, tree, limit, limit);
      JoinedNumberIs(text);
    } else {
      var tNext := ValueAlike(s, start, t, tStart, 0, tree, limit, limit);
      ValueIsBehindStart(text);
    }
  }

  lemma ValueIsBehindStart(text: CString)
    requires Parse(text, false).Ok?
    ensures ValueStart(text) <= Parse(text, false).next
  {
    hide ParseValue, Parse;
    PrefixUnfold(text);
  }

  lemma JoinedNumberIs(text: CString)
    requires Parse(text, false).Ok?
    ensures var s, start, next := text + [NUL], ValueStart(text), Parse(text, false).next;
            start <= next < |s|
            && JoinedNumber(text) == NumberOf(s[start..next] + Minified(Rest(s, next)) + [NUL], 0)
  {
    hide Parse, Next, Minified, NumberOf;
    ValueIsBehindStart(text);
    var s, start, next := text + [NUL], ValueStart(text), Parse(text, false).next;
    assert s[start..next] == text[start..next] && Rest(s, next) == text[next..];
  }

  lemma ClearStep(s: seq<byte>, i: nat, limit: nat)
    requires i < |s| && s[i] != QUOTE
    ensures ClosingQuotesAreClear(s, i, limit) == (i >= limit || ClosingQuotesAreClear(s, i + 1, limit))
  {
  }

  /** Of `12 3` the parser takes 12; minified, it reads 123. */
  lemma TrailingTextIsJoined(text: CString)
    requires text == [49, 50, 32, 51]
    ensures Parse(text, false) == Parsed.Ok(Number(12), 2)
    ensures 0 !in Minified(text)
    ensures Parse(Minified(text), false).Ok? && Parse(Minified(text), false).value == Number(123)
  {
    hide Parse, Minified, ClosingQuotesAreClear, NumberOf, Next;
    TrailingTextIsParsed();
    TrailingTextIsClear();
    MinifiedTextKeepsTreeExactly(text);
    TrailingTextJoins();
    assert text[0..2] + Minified(text[2..]) + [NUL] == [49, 50, 51, NUL];
  }

  lemma TrailingTextIsClear()
    ensures ClosingQuotesAreClear([49, 50, 32, 51] + [NUL], 0, 2)
  {
    hide ClosingQuotesAreClear;
    var s := [49, 50, 32, 51] + [NUL];
    ClearStep(s, 2, 2);
    ClearStep(s, 1, 2);
    ClearStep(s, 0, 2);
  }

  lemma TrailingTextJoins()
    ensures Minified([49, 50, 32, 51][2..]) == [51] && NumberOf([49, 50, 51, NUL], 0) == NumberAt(123, 3)
  {
    hide NumberOf, Decimal;
    var r, joined := [49, 50, 32, 51][2..], [49, 50, 51, NUL];
    assert r == [32, 51] && r[1..] == [51] && [51][1..] == [];
    DecimalExamples();
    assert joined[0..3] == Decimal(123);
    NumberRoundTrip(joined, 0, 123);
  }

  lemma TrailingTextIsParsed()
    ensures var text: CString := [49, 50, 32, 51];
            Parse(text, false) == Parsed.Ok(Number(12), 2) && ValueStart(text) == 0
  {
    hide NumberOf, Decimal;
    var text: CString := [49, 50, 32, 51];
    var s := text + [NUL];
    DecimalExamples();
    assert s[0..2] == Decimal(12);
    NumberRoundTrip(s, 0, 12);
    RoundTrip.NotAWord(s, 0);
    RoundTrip.PrefixFirstByte(s, 0, BYTE_ORDER_MARK);
    assert SkipWhitespace(s, 0) == 0;
  }

  lemma DecimalExamples()
    ensures Decimal(12) == [49, 50] && Decimal(123) == [49, 50, 51]
  {
    assert Digits(1) == [49] && Digits(12) == [49, 50];
  }
}
