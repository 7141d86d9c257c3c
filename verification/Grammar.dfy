/** What the parser does, as functions of the text and the cursor. */
module Grammar {
  import opened Bytes
  import opened JsonTree
  import opened NumberText
  import opened StringLiteral

  /** A value and the cursor after it, or the cursor at which parsing stopped. */
  datatype Parsed<+T> = Ok(value: T, next: nat) | Bad(at: nat)

  /** `text` is a buffer of `strlen + 1` bytes: its last byte is the terminator. */
  ghost predicate Terminated(s: seq<byte>) {
    |s| > 0 && s[|s| - 1] == NUL
  }

  /** Skips bytes up to 32, the terminator included, then steps back onto it. */
  function SkipWhitespace(s: seq<byte>, i: nat): (j: nat)
    requires i < |s|
    ensures i <= j < |s|
    ensures s[j] > 32 || j == |s| - 1
    ensures forall k :: i <= k < j ==> s[k] <= 32
    decreases |s| - i
  {
    if s[i] <= 32 && i + 1 < |s| then SkipWhitespace(s, i + 1) else i
  }

  predicate HasPrefix(s: seq<byte>, i: nat, w: seq<byte>)
    ensures HasPrefix(s, i, w) <==> At(s, i, w)
  {
    i + |w| <= |s| && s[i..i + |w|] == w
  }

  function ParseString(s: seq<byte>, i: nat): (r: Parsed<CString>)
    requires Terminated(s) && i < |s|
    ensures r.Ok? ==> i < r.next < |s|
    ensures r.Bad? ==> i <= r.at <= |s|
  {
    if s[i] != QUOTE then Bad(i + 1)
    else
      match ScanEnd(s, i + 1)
      case None => Bad(i + 1)
      case Some(end) =>
        match Decode(s, i + 1, end)
        case Decoded(bytes) => Ok(UpToNul(bytes), end + 1)
        case BadEscape(at) => Bad(at)
  }

  function ParseNumber(s: seq<byte>, i: nat): (r: Parsed<Json>)
    requires Terminated(s) && i < |s|
    ensures r.Ok? ==> i < r.next < |s|
    ensures r.Bad? ==> i <= r.at <= |s|
  {
    match NumberOf(s, i)
    case NotANumber => Bad(i)
    case NumberAt(n, next) => Ok(Number(n), next)
  }

  /** One value at `i`, with `depth` arrays and objects open. */
  function ParseValue(s: seq<byte>, i: nat, depth: nat): (r: Parsed<Json>)
    requires Terminated(s) && i < |s|
    ensures r.Ok? ==> i < r.next < |s|
    ensures r.Bad? ==> i <= r.at <= |s|
    decreases |s| - i, 2
  {
    if HasPrefix(s, i, NULL_TEXT) then assert s[i..i + 4][3] == 108; Ok(Null, i + 4)
    else if HasPrefix(s, i, FALSE_TEXT) then assert s[i..i + 5][4] == 101; Ok(False, i + 5)
    else if HasPrefix(s, i, TRUE_TEXT) then assert s[i..i + 4][3] == 101; Ok(True, i + 4)
    else if s[i] == QUOTE then
      match ParseString(s, i)
      case Ok(text, next) => Ok(Str(text), next)
      case Bad(at) => Bad(at)
    else if s[i] == MINUS || IsDigit(s[i]) then ParseNumber(s, i)
    else if s[i] == LBRACKET then ParseArray(s, i, depth)
    else if s[i] == LBRACE then ParseObject(s, i, depth)
    else Bad(i)
  }

  function ParseArray(s: seq<byte>, i: nat, depth: nat): (r: Parsed<Json>)
    requires Terminated(s) && i < |s| && s[i] == LBRACKET
    ensures r.Ok? ==> i < r.next < |s|
    ensures r.Bad? ==> i <= r.at <= |s|
    decreases |s| - i, 1
  {
    if depth >= NESTING_LIMIT then Bad(i)
    else
      var first := SkipWhitespace(s, i + 1);
      if s[first] == RBRACKET then Ok(Arr([]), first + 1)
      else
        match ParseItems(s, first, depth + 1)
        case Ok(items, next) => Ok(Arr(items), next)
        case Bad(at) => Bad(at)
  }

  /** The items from `i` on and the closing bracket; `i` stands just after the bracket or a comma. */
  function ParseItems(s: seq<byte>, i: nat, depth: nat): (r: Parsed<seq<Json>>)
    requires Terminated(s) && i < |s|
    ensures r.Ok? ==> i < r.next < |s|
    ensures r.Bad? ==> i <= r.at <= |s|
    decreases |s| - i, 3
  {
    match ParseValue(s, SkipWhitespace(s, i), depth)
    case Bad(at) => Bad(at)
    case Ok(item, next) =>
      var after := SkipWhitespace(s, next);
      if s[after] == COMMA then PrependItems([item], ParseItems(s, after + 1, depth))
      else if s[after] == RBRACKET then Ok([item], after + 1)
      else Bad(after)
  }

  function PrependItems<T>(front: seq<T>, r: Parsed<seq<T>>): (p: Parsed<seq<T>>)
    ensures r.Bad? ==> p == r
    ensures r.Ok? ==> p == Ok(front + r.value, r.next)
  {
    match r
    case Ok(rest, next) => Ok(front + rest, next)
    case Bad(at) => Bad(at)
  }

  lemma PrependItemsTwice<T>(a: seq<T>, b: seq<T>, r: Parsed<seq<T>>)
    ensures PrependItems(a, PrependItems(b, r)) == PrependItems(a + b, r)
  {
    if r.Ok? {
      assert a + (b + r.value) == (a + b) + r.value;
    }
  }

  function ParseObject(s: seq<byte>, i: nat, depth: nat): (r: Parsed<Json>)
    requires Terminated(s) && i < |s| && s[i] == LBRACE
    ensures r.Ok? ==> i < r.next < |s|
    ensures r.Bad? ==> i <= r.at <= |s|
    decreases |s| - i, 1
  {
    if depth >= NESTING_LIMIT then Bad(i)
    else
      var first := SkipWhitespace(s, i + 1);
      if s[first] == RBRACE then Ok(Obj([]), first + 1)
      else
        match ParseMembers(s, first, depth + 1)
        case Ok(members, next) => Ok(Obj(members), next)
        case Bad(at) => Bad(at)
  }

  /** One name, the colon and the value. */
  function ParseMember(s: seq<byte>, i: nat, depth: nat): (r: Parsed<Member>)
    requires Terminated(s) && i < |s|
    ensures r.Ok? ==> i < r.next < |s|
    ensures r.Bad? ==> i <= r.at <= |s|
    decreases |s| - i, 3
  {
    match ParseString(s, i)
    case Bad(at) => Bad(at)
    case Ok(key, afterKey) =>
      var colon := SkipWhitespace(s, afterKey);
      if s[colon] != COLON then Bad(colon)
      else
        match ParseValue(s, SkipWhitespace(s, colon + 1), depth)
        case Bad(at) => Bad(at)
        case Ok(value, next) => Ok(Member(key, value), next)
  }

  function ParseMembers(s: seq<byte>, i: nat, depth: nat): (r: Parsed<seq<Member>>)
    requires Terminated(s) && i < |s|
    ensures r.Ok? ==> i < r.next < |s|
    ensures r.Bad? ==> i <= r.at <= |s|
    decreases |s| - i, 4
  {
    match ParseMember(s, SkipWhitespace(s, i), depth)
    case Bad(at) => Bad(at)
    case Ok(member, next) =>
      var after := SkipWhitespace(s, next);
      if s[after] == COMMA then PrependItems([member], ParseMembers(s, after + 1, depth))
      else if s[after] == RBRACE then Ok([member], after + 1)
      else Bad(after)
  }

  // ---------- the entry point

  const BYTE_ORDER_MARK: seq<byte> := [0xEF, 0xBB, 0xBF]

  function SkipByteOrderMark(s: seq<byte>): (i: nat)
    requires Terminated(s)
    ensures i < |s|
  {
    if 4 < |s| && HasPrefix(s, 0, BYTE_ORDER_MARK) then 3 else 0
  }

  /** The whole run: the tree and the end of the parsed text, or the clamped error position. */
  function Parse(text: CString, requireNullTerminated: bool): (r: Parsed<Json>)
    ensures r.Ok? ==> 0 < r.next <= |text|
    ensures r.Ok? && requireNullTerminated ==> r.next == |text|
    ensures r.Bad? ==> r.at <= |text|
  {
    var s := text + [NUL];
    match ParseValue(s, SkipWhitespace(s, SkipByteOrderMark(s)), 0)
    case Bad(at) => Bad(if at < |s| then at else |s| - 1)
    case Ok(tree, next) =>
      if !requireNullTerminated then Ok(tree, next)
      else
        var end := SkipWhitespace(s, next);
        if s[end] != NUL then Bad(end) else Ok(tree, end)
  }

  // ---------- what every parsed text has

  /**
    The value of a string literal is what is decoded before the first escape for the code point 0,
    and everything that is decoded exactly if there is no such escape.
   */
  lemma StringIsWholeExactlyWithoutNulEscape(text: CString, i: nat)
    requires i < |text| && ParseString(text + [NUL], i).Ok?
    ensures var s, value := text + [NUL], ParseString(text + [NUL], i).value;
            && ScanEnd(s, i + 1).Some? && Decode(s, i + 1, ScanEnd(s, i + 1).value).Decoded?
            && value == BeforeNulEscape(s, i + 1, ScanEnd(s, i + 1).value)
            && (value == Decode(s, i + 1, ScanEnd(s, i + 1).value).bytes
                <==> !ReadsNulEscape(s, i + 1, ScanEnd(s, i + 1).value))
  {
    var s := text + [NUL];
    var end := ScanEnd(s, i + 1).value;
    assert forall k :: i + 1 <= k < end ==> s[k] == text[k];
    TextIsWholeExactlyWithoutNulEscape(s, i + 1, end);
  }

  /** No accepted value, with the arrays and objects around it, nests deeper than the limit. */
  lemma {:induction false} ValueFitsLimit(s: seq<byte>, i: nat, depth: nat)
    requires Terminated(s) && i < |s| && depth <= NESTING_LIMIT && ParseValue(s, i, depth).Ok?
    ensures depth + Nesting(ParseValue(s, i, depth).value) <= NESTING_LIMIT
    decreases |s| - i, 1
  {
    hide Terminated, SkipWhitespace, ParseItems, ParseMembers, HasPrefix, NumberOf;
    if s[i] == LBRACKET && depth < NESTING_LIMIT {
      var first := SkipWhitespace(s, i + 1);
      if ParseItems(s, first, depth + 1).Ok? {
        ItemsFitLimit(s, first, depth + 1);
      }
    } else if s[i] == LBRACE && depth < NESTING_LIMIT {
      var first := SkipWhitespace(s, i + 1);
      if ParseMembers(s, first, depth + 1).Ok? {
        MembersFitLimit(s, first, depth + 1);
      }
    }
  }

  lemma {:induction false} ItemsFitLimit(s: seq<byte>, i: nat, depth: nat)
    requires Terminated(s) && i < |s| && depth <= NESTING_LIMIT && ParseItems(s, i, depth).Ok?
    ensures depth + NestingOfItems(ParseItems(s, i, depth).value) <= NESTING_LIMIT
    decreases |s| - i, 2
  {
    hide Terminated, SkipWhitespace, ParseValue;
    var first := ParseValue(s, SkipWhitespace(s, i), depth);
    ValueFitsLimit(s, SkipWhitespace(s, i), depth);
    var after := SkipWhitespace(s, first.next);
    if s[after] == COMMA {
      ItemsFitLimit(s, after + 1, depth);
      var rest := ParseItems(s, after + 1, depth).value;
      assert ([first.value] + rest)[1..] == rest;
    } else {
      assert [first.value][1..] == [];
    }
  }

  lemma {:induction false} MembersFitLimit(s: seq<byte>, i: nat, depth: nat)
    requires Terminated(s) && i < |s| && depth <= NESTING_LIMIT && ParseMembers(s, i, depth).Ok?
    ensures depth + NestingOfMembers(ParseMembers(s, i, depth).value) <= NESTING_LIMIT
    decreases |s| - i, 2
  {
    hide Terminated, SkipWhitespace, ParseMember, NestingOfMembers, Nesting;
    var first := ParseMember(s, SkipWhitespace(s, i), depth);
    MemberFitsLimit(s, SkipWhitespace(s, i), depth);
    var after := SkipWhitespace(s, first.next);
    if s[after] == COMMA {
      MembersFitLimit(s, after + 1, depth);
      NestingOfMore(first.value, ParseMembers(s, after + 1, depth).value);
    } else {
      NestingOfMore(first.value, []);
      assert [first.value] + [] == [first.value];
    }
  }

  lemma NestingOfMore(m: Member, rest: seq<Member>)
    ensures NestingOfMembers([m] + rest) == Max(Nesting(m.value), NestingOfMembers(rest))
    ensures rest == [] ==> NestingOfMembers(rest) == 0
  {
    assert ([m] + rest)[1..] == rest;
  }

  lemma {:induction false} MemberFitsLimit(s: seq<byte>, i: nat, depth: nat)
    requires Terminated(s) && i < |s| && depth <= NESTING_LIMIT && ParseMember(s, i, depth).Ok?
    ensures depth + Nesting(ParseMember(s, i, depth).value.value) <= NESTING_LIMIT
    decreases |s| - i, 1
  {
    hide Terminated, SkipWhitespace, ParseValue, ParseString;
    var colon := SkipWhitespace(s, ParseString(s, i).next);
    ValueFitsLimit(s, SkipWhitespace(s, colon + 1), depth);
  }
}
