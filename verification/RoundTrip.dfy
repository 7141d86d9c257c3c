/** Parsing what was printed gives the tree back, up to the nesting limit. */
module RoundTrip {
  import opened Bytes
  import opened JsonTree
  import opened Render
  import opened NumberText
  import opened Utf16
  import opened StringLiteral
  import opened Grammar

  // ---------- strings

  lemma ScanOverByte(s: seq<byte>, i: nat, b: byte)
    requires b != NUL && At(s, i, EscapeByte(b))
    ensures ScanEnd(s, i) == ScanEnd(s, i + |EscapeByte(b)|)
  {
    var e := EscapeByte(b);
    AtIndex(s, i, e);
    assert s[i] == e[0];
    if |e| == 6 {
      assert s[i + 1] == e[1] && s[i + 2] == e[2] && s[i + 3] == e[3] && s[i + 4] == e[4] && s[i + 5] == e[5];
      assert ScanEnd(s, i + 2) == ScanEnd(s, i + 3) == ScanEnd(s, i + 4);
      assert ScanEnd(s, i + 4) == ScanEnd(s, i + 5) == ScanEnd(s, i + 6);
    } else if |e| == 2 {
      assert s[i + 1] == e[1];
    }
  }

  lemma {:induction false} ScanOverEscape(s: seq<byte>, i: nat, text: CString)
    requires At(s, i, Escape(text))
    ensures ScanEnd(s, i) == ScanEnd(s, i + |Escape(text)|)
    decreases |text|
  {
    if text != [] {
      hide At, EscapeByte, ScanEnd;
      AtConcat(s, i, EscapeByte(text[0]), Escape(text[1..]));
      assert Escape(text) == EscapeByte(text[0]) + Escape(text[1..]);
      hide Escape;
      ScanOverByte(s, i, text[0]);
      ScanOverEscape(s, i + |EscapeByte(text[0])|, text[1..]);
    }
  }

  lemma HexOfControl(s: seq<byte>, p: nat, b: byte)
    requires b < 32 && At(s, p, [ZERO, ZERO, HexDigit(b / 16), HexDigit(b % 16)])
    ensures Hex4(s, p) == b
  {
    AtIndex(s, p, [ZERO, ZERO, HexDigit(b / 16), HexDigit(b % 16)]);
    assert s[p] == ZERO && s[p + 1] == ZERO && s[p + 2] == HexDigit(b / 16) && s[p + 3] == HexDigit(b % 16);
    assert HexValue(HexDigit(b / 16)) == b / 16 && HexValue(HexDigit(b % 16)) == b % 16;
  }

  lemma DecodeOneByte(s: seq<byte>, p: nat, end: nat, b: byte)
    requires b != NUL && At(s, p, EscapeByte(b)) && p + |EscapeByte(b)| <= end < |s|
    ensures Decode(s, p, end) == Prepend([b], Decode(s, p + |EscapeByte(b)|, end))
  {
    var e := EscapeByte(b);
    AtIndex(s, p, e);
    assert s[p] == e[0];
    if |e| == 6 {
      assert s[p + 1] == e[1];
      AtConcat(s, p, e[..2], e[2..]);
      assert e == e[..2] + e[2..] && e[2..] == [ZERO, ZERO, HexDigit(b / 16), HexDigit(b % 16)];
      HexOfControl(s, p + 2, b);
      assert LiteralAt(s, p, end) == Converted(6, b);
      assert Utf8(b) == [b];
    } else if |e| == 2 {
      assert s[p + 1] == e[1];
      assert SimpleEscape(e[1]) == Some(b);
    }
  }

  lemma {:induction false} DecodeEscaped(s: seq<byte>, p: nat, end: nat, text: CString)
    requires At(s, p, Escape(text)) && p + |Escape(text)| == end < |s|
    ensures Decode(s, p, end) == Decoded(text)
    decreases |text|
  {
    if text != [] {
      hide At, EscapeByte, Decode, Prepend;
      var rest := text[1..];
      assert Escape(text) == EscapeByte(text[0]) + Escape(rest);
      hide Escape;
      AtConcat(s, p, EscapeByte(text[0]), Escape(rest));
      DecodeOneByte(s, p, end, text[0]);
      DecodeEscaped(s, p + |EscapeByte(text[0])|, end, rest);
      PrependFirst(text);
    }
  }

  lemma PrependFirst(text: seq<byte>)
    requires text != []
    ensures Prepend([text[0]], Decoded(text[1..])) == Decoded(text)
  {
    assert text == [text[0]] + text[1..];
  }

  /** Every string is read back from its quoted form. */
  lemma StringRoundTrip(s: seq<byte>, i: nat, text: CString)
    requires Terminated(s) && At(s, i, Quoted(text))
    ensures ParseString(s, i) == Ok(text, i + |Quoted(text)|)
    ensures s[i] == QUOTE && i + |Quoted(text)| < |s|
  {
    hide Escape, ScanEnd, Decode, UpToNul;
    SplitQuoted(s, i, text);
    ScanOverEscape(s, i + 1, text);
    ScanAtQuote(s, i + 1 + |Escape(text)|);
    DecodeEscaped(s, i + 1, i + 1 + |Escape(text)|, text);
  }

  lemma SplitQuoted(s: seq<byte>, i: nat, text: CString)
    requires At(s, i, Quoted(text))
    ensures var end := i + 1 + |Escape(text)|;
            s[i] == QUOTE && At(s, i + 1, Escape(text)) && end + 1 == i + |Quoted(text)| <= |s| && s[end] == QUOTE
  {
    hide Escape;
    var end := i + 1 + |Escape(text)|;
    AtConcat(s, i, [QUOTE] + Escape(text), [QUOTE]);
    AtConcat(s, i, [QUOTE], Escape(text));
    AtFirst(s, i, [QUOTE]);
    AtFirst(s, end, [QUOTE]);
  }

  lemma ScanAtQuote(s: seq<byte>, i: nat)
    requires i < |s| && s[i] == QUOTE
    ensures ScanEnd(s, i) == Some(i)
  {
  }

  // ---------- whitespace

  lemma {:induction false} SkipsOver(s: seq<byte>, i: nat, n: nat)
    requires i + n < |s| && s[i + n] > 32
    requires forall k :: i <= k < i + n ==> s[k] <= 32
    ensures SkipWhitespace(s, i) == i + n
    decreases n
  {
    if n > 0 {
      SkipsOver(s, i + 1, n - 1);
    }
  }

  /** Skipping over the blank text `w` up to a byte that is not blank. */
  lemma SkipsText(s: seq<byte>, i: nat, w: seq<byte>)
    requires At(s, i, w) && i + |w| < |s| && s[i + |w|] > 32
    requires forall k :: 0 <= k < |w| ==> w[k] <= 32
    ensures SkipWhitespace(s, i) == i + |w|
  {
    AtIndex(s, i, w);
    forall k | i <= k < i + |w|
      ensures s[k] <= 32
    {
      assert s[i + (k - i)] == w[k - i];
    }
    SkipsOver(s, i, |w|);
  }

  // ---------- values

  /** The first byte of a printed value tells its kind, and is never blank. */
  lemma FirstByte(t: Json, f: bool, pd: nat)
    ensures var b := Text(t, f, pd)[0];
            && b > 32
            && (t.Str? <==> b == QUOTE)
            && (t.Number? <==> b == MINUS || IsDigit(b))
            && (t.Arr? <==> b == LBRACKET)
            && (t.Obj? <==> b == LBRACE)
            && b != RBRACKET && b != RBRACE && b != COMMA
            && (t.Null? <==> b == 110) && (t.False? <==> b == 102) && (t.True? <==> b == 116)
  {
  }

  /** What the main induction says of one value printed at `i`. */
  ghost predicate ReadsBack(s: seq<byte>, i: nat, t: Json, end: nat, depth: nat)
    requires Terminated(s) && i < |s|
  {
    && (depth + Nesting(t) <= NESTING_LIMIT ==> ParseValue(s, i, depth) == Ok(t, end))
    && (depth + Nesting(t) > NESTING_LIMIT ==> ParseValue(s, i, depth).Bad?)
  }

  lemma PrefixFirstByte(s: seq<byte>, i: nat, w: seq<byte>)
    requires w != []
    ensures HasPrefix(s, i, w) ==> s[i] == w[0]
  {
    if HasPrefix(s, i, w) {
      assert s[i..i + |w|][0] == s[i];
    }
  }

  lemma NotAWord(s: seq<byte>, i: nat)
    requires Terminated(s) && i < |s| && s[i] !in {110, 102, 116}
    ensures !HasPrefix(s, i, NULL_TEXT) && !HasPrefix(s, i, FALSE_TEXT) && !HasPrefix(s, i, TRUE_TEXT)
  {
    PrefixFirstByte(s, i, NULL_TEXT);
    PrefixFirstByte(s, i, FALSE_TEXT);
    PrefixFirstByte(s, i, TRUE_TEXT);
  }

  lemma WordRoundTrip(s: seq<byte>, i: nat, t: Json, f: bool, pd: nat, depth: nat)
    requires Terminated(s) && At(s, i, Text(t, f, pd)) && i < |s|
    requires t.Null? || t.False? || t.True?
    ensures ParseValue(s, i, depth) == Ok(t, i + |Text(t, f, pd)|)
  {
    PrefixFirstByte(s, i, Text(t, f, pd));
    PrefixFirstByte(s, i, NULL_TEXT);
    PrefixFirstByte(s, i, FALSE_TEXT);
  }

  /** Any value printed at `i` and followed by a byte that cannot continue a number. */
  lemma {:induction false} ValueRoundTrip(s: seq<byte>, i: nat, t: Json, f: bool, pd: nat, depth: nat)
    requires depth <= NESTING_LIMIT
    requires Terminated(s) && At(s, i, Text(t, f, pd)) && i + |Text(t, f, pd)| < |s|
    requires !IsNumberChar(s[i + |Text(t, f, pd)|])
    ensures ReadsBack(s, i, t, i + |Text(t, f, pd)|, depth)
    decreases t, 1
  {
    hide IsNumberChar, Text, ReadsBack, ArrayReadsBack, ObjectReadsBack;
    TextNotEmpty(t, f, pd);
    AtFirst(s, i, Text(t, f, pd));
    FirstByte(t, f, pd);
    if t.Arr? {
      ArrayRoundTrip(s, i, t.items, f, pd, depth);
      ArrayIsValue(s, i, t.items, i + |Text(t, f, pd)|, depth);
    } else if t.Obj? {
      ObjectRoundTrip(s, i, t.members, f, pd, depth);
      ObjectIsValue(s, i, t.members, i + |Text(t, f, pd)|, depth);
    } else {
      ScalarRoundTrip(s, i, t, f, pd, depth);
    }
  }

  lemma ScalarRoundTrip(s: seq<byte>, i: nat, t: Json, f: bool, pd: nat, depth: nat)
    requires Terminated(s) && At(s, i, Text(t, f, pd)) && i + |Text(t, f, pd)| < |s|
    requires !IsNumberChar(s[i + |Text(t, f, pd)|]) && s[i] == Text(t, f, pd)[0]
    requires depth <= NESTING_LIMIT && !t.Arr? && !t.Obj?
    ensures ReadsBack(s, i, t, i + |Text(t, f, pd)|, depth)
  {
    FirstByte(t, f, pd);
    if t.Number? {
      NumberIsValue(s, i, t.n, depth);
    } else if t.Str? {
      NotAWord(s, i);
      StringRoundTrip(s, i, t.text);
    } else {
      WordRoundTrip(s, i, t, f, pd, depth);
    }
  }

  lemma NumberIsValue(s: seq<byte>, i: nat, n: int32, depth: nat)
    requires Terminated(s) && At(s, i, Decimal(n)) && i + |Decimal(n)| < |s|
    requires !IsNumberChar(s[i + |Decimal(n)|]) && (s[i] == MINUS || IsDigit(s[i]))
    ensures ParseValue(s, i, depth) == Ok(Number(n), i + |Decimal(n)|)
  {
    hide At, NumberOf, Decimal;
    NotAWord(s, i);
    NumberRoundTrip(s, i, n);
  }

  lemma ArrayIsValue(s: seq<byte>, i: nat, items: seq<Json>, end: nat, depth: nat)
    requires Terminated(s) && i < |s| && s[i] == LBRACKET && ArrayReadsBack(s, i, items, end, depth)
    ensures ReadsBack(s, i, Arr(items), end, depth)
  {
    hide ParseArray, Nesting;
    NotAWord(s, i);
  }

  lemma ObjectIsValue(s: seq<byte>, i: nat, members: seq<Member>, end: nat, depth: nat)
    requires Terminated(s) && i < |s| && s[i] == LBRACE && ObjectReadsBack(s, i, members, end, depth)
    ensures ReadsBack(s, i, Obj(members), end, depth)
  {
    hide ParseObject, Nesting;
    NotAWord(s, i);
  }

  ghost predicate ArrayReadsBack(s: seq<byte>, i: nat, items: seq<Json>, end: nat, depth: nat)
    requires Terminated(s) && i < |s| && s[i] == LBRACKET
  {
    && (depth + Nesting(Arr(items)) <= NESTING_LIMIT ==> ParseArray(s, i, depth) == Ok(Arr(items), end))
    && (depth + Nesting(Arr(items)) > NESTING_LIMIT ==> ParseArray(s, i, depth).Bad?)
  }

  /** The brackets around a list of items that reads back, or around nothing. */
  lemma ArrayStep(s: seq<byte>, i: nat, items: seq<Json>, end: nat, depth: nat)
    requires Terminated(s) && i + 1 < |s| && s[i] == LBRACKET
    requires items == [] ==> s[i + 1] == RBRACKET && end == i + 2
    requires items != [] && depth < NESTING_LIMIT ==>
               && s[SkipWhitespace(s, i + 1)] != RBRACKET
               && ItemsReadBack(s, SkipWhitespace(s, i + 1), items, end, depth + 1)
    ensures ArrayReadsBack(s, i, items, end, depth)
  {
    hide ParseItems;
    if items == [] {
      SkipsOver(s, i + 1, 0);
    }
  }

  lemma SplitArray(s: seq<byte>, i: nat, items: seq<Json>, f: bool, pd: nat)
    requires At(s, i, Text(Arr(items), f, pd))
    ensures var end := i + 1 + |ItemsText(items, f, pd + 1)|;
            && At(s, i + 1, ItemsText(items, f, pd + 1))
            && end + 1 == i + |Text(Arr(items), f, pd)| <= |s|
            && s[end] == RBRACKET
  {
    hide ItemsText;
    var body := ItemsText(items, f, pd + 1);
    AtConcat(s, i, [LBRACKET] + body, [RBRACKET]);
    AtConcat(s, i, [LBRACKET], body);
    AtFirst(s, i + 1 + |body|, [RBRACKET]);
  }

  lemma {:induction false} ArrayRoundTrip(s: seq<byte>, i: nat, items: seq<Json>, f: bool, pd: nat, depth: nat)
    requires depth <= NESTING_LIMIT
    requires Terminated(s) && At(s, i, Text(Arr(items), f, pd)) && s[i] == LBRACKET
    ensures ArrayReadsBack(s, i, items, i + |Text(Arr(items), f, pd)|, depth)
    decreases items, 2
  {
    hide At, SkipWhitespace, ItemsReadBack, ArrayReadsBack, Text, ItemsText;
    hide ParseArray, ParseItems, Nesting, NestingOfItems;
    SplitArray(s, i, items, f, pd);
    if items == [] {
      EmptyItems(f, pd + 1);
    } else if depth < NESTING_LIMIT {
      ItemsStart(s, i + 1, items, f, pd + 1);
      ItemsRoundTrip(s, i + 1, items, f, pd + 1, depth + 1);
    }
    ArrayStep(s, i, items, i + |Text(Arr(items), f, pd)|, depth);
  }

  lemma EmptyItems(f: bool, pd: nat)
    ensures ItemsText([], f, pd) == [] && NestingOfItems([]) == 0
  {
  }

  /** A non-empty list of items starts with a byte that is neither blank nor a closing bracket. */
  lemma ItemsStart(s: seq<byte>, i: nat, items: seq<Json>, f: bool, pd: nat)
    requires items != [] && At(s, i, ItemsText(items, f, pd)) && i + |ItemsText(items, f, pd)| < |s|
    ensures At(s, i, Text(items[0], f, pd)) && s[i] == Text(items[0], f, pd)[0]
    ensures s[i] > 32 && s[i] != RBRACKET && SkipWhitespace(s, i) == i
    ensures |items| == 1 ==> i + |Text(items[0], f, pd)| == i + |ItemsText(items, f, pd)|
    ensures |items| > 1 ==>
              var next := i + |Text(items[0], f, pd)|;
              && At(s, next, ItemSeparator(f))
              && At(s, next + |ItemSeparator(f)|, ItemsText(items[1..], f, pd))
              && next + |ItemSeparator(f)| + |ItemsText(items[1..], f, pd)| == i + |ItemsText(items, f, pd)|
  {
    var first := Text(items[0], f, pd);
    if |items| > 1 {
      AtConcat(s, i, first + ItemSeparator(f), ItemsText(items[1..], f, pd));
      AtConcat(s, i, first, ItemSeparator(f));
    }
    TextNotEmpty(items[0], f, pd);
    AtFirst(s, i, first);
    FirstByte(items[0], f, pd);
  }

  ghost predicate ItemsReadBack(s: seq<byte>, i: nat, items: seq<Json>, end: nat, depth: nat)
    requires Terminated(s) && i < |s|
  {
    && (depth + NestingOfItems(items) <= NESTING_LIMIT ==> ParseItems(s, i, depth) == Ok(items, end))
    && (depth + NestingOfItems(items) > NESTING_LIMIT ==> ParseItems(s, i, depth).Bad?)
  }

  /** One turn of the item loop: the value ends at `next`, with a comma or the closing bracket there. */
  lemma ItemsStep(s: seq<byte>, i: nat, items: seq<Json>, next: nat, end: nat, depth: nat)
    requires Terminated(s) && i < |s| && next + 1 < |s| && items != []
    requires ReadsBack(s, SkipWhitespace(s, i), items[0], next, depth)
    requires |items| == 1 ==> s[next] == RBRACKET && end == next + 1
    requires |items| > 1 ==> s[next] == COMMA && ItemsReadBack(s, next + 1, items[1..], end, depth)
    ensures ItemsReadBack(s, i, items, end, depth)
  {
    hide ParseValue, Nesting;
    SkipsOver(s, next, 0);
    assert items == [items[0]] + items[1..];
    if |items| == 1 {
      assert items[1..] == [] && items == [items[0]];
    }
  }

  /** It makes no difference where in the blank before an item the list is started. */
  lemma ItemsSkip(s: seq<byte>, i: nat, j: nat, items: seq<Json>, end: nat, depth: nat)
    requires Terminated(s) && i < |s| && j < |s| && SkipWhitespace(s, i) == SkipWhitespace(s, j)
    requires ItemsReadBack(s, j, items, end, depth)
    ensures ItemsReadBack(s, i, items, end, depth)
  {
    hide ParseValue, Nesting;
  }

  lemma {:induction false} ItemsRoundTrip(s: seq<byte>, i: nat, items: seq<Json>, f: bool, pd: nat, depth: nat)
    requires depth <= NESTING_LIMIT
    requires Terminated(s) && items != [] && At(s, i, ItemsText(items, f, pd))
    requires i + |ItemsText(items, f, pd)| < |s| && s[i + |ItemsText(items, f, pd)|] == RBRACKET
    ensures ItemsReadBack(s, i, items, i + |ItemsText(items, f, pd)| + 1, depth)
    decreases items, 0
  {
    hide At, SkipWhitespace, ReadsBack, ItemsReadBack, Text, ItemsText;
    hide ParseValue, ParseItems, Nesting, NestingOfItems;
    ItemsStart(s, i, items, f, pd);
    var next := i + |Text(items[0], f, pd)|;
    var end := i + |ItemsText(items, f, pd)| + 1;
    if |items| > 1 {
      ItemSeparatorIsRead(s, next, items[1..], f, pd);
      var rest := next + |ItemSeparator(f)|;
      ItemsRoundTrip(s, rest, items[1..], f, pd, depth);
      ItemsSkip(s, next + 1, rest, items[1..], end, depth);
    }
    ValueRoundTrip(s, i, items[0], f, pd, depth);
    ItemsStep(s, i, items, next, end, depth);
  }

  lemma SkipTwice(s: seq<byte>, i: nat)
    requires i < |s|
    ensures SkipWhitespace(s, SkipWhitespace(s, i)) == SkipWhitespace(s, i)
  {
  }

  /** The comma, and the blank a formatted print puts after it. */
  lemma ItemSeparatorIsRead(s: seq<byte>, i: nat, rest: seq<Json>, f: bool, pd: nat)
    requires rest != [] && At(s, i, ItemSeparator(f))
    requires At(s, i + |ItemSeparator(f)|, ItemsText(rest, f, pd))
    requires i + |ItemSeparator(f)| + |ItemsText(rest, f, pd)| < |s|
    ensures s[i] == COMMA
    ensures SkipWhitespace(s, i + 1) == SkipWhitespace(s, i + |ItemSeparator(f)|)
  {
    var separator := ItemSeparator(f);
    AtIndex(s, i, separator);
    AtFirst(s, i, separator);
    if f {
      assert s[i + 1] == separator[1];
    }
    ItemsStart(s, i + |separator|, rest, f, pd);
  }

  // ---------- objects

  ghost predicate ObjectReadsBack(s: seq<byte>, i: nat, members: seq<Member>, end: nat, depth: nat)
    requires Terminated(s) && i < |s| && s[i] == LBRACE
  {
    && (depth + Nesting(Obj(members)) <= NESTING_LIMIT ==> ParseObject(s, i, depth) == Ok(Obj(members), end))
    && (depth + Nesting(Obj(members)) > NESTING_LIMIT ==> ParseObject(s, i, depth).Bad?)
  }

  ghost predicate MembersReadBack(s: seq<byte>, i: nat, members: seq<Member>, end: nat, depth: nat)
    requires Terminated(s) && i < |s|
  {
    && (depth + NestingOfMembers(members) <= NESTING_LIMIT ==> ParseMembers(s, i, depth) == Ok(members, end))
    && (depth + NestingOfMembers(members) > NESTING_LIMIT ==> ParseMembers(s, i, depth).Bad?)
  }

  /** The braces around a list of members that reads back, or around nothing. */
  lemma ObjectStep(s: seq<byte>, i: nat, members: seq<Member>, end: nat, depth: nat)
    requires Terminated(s) && i + 1 < |s| && s[i] == LBRACE
    requires var first := SkipWhitespace(s, i + 1);
             && (members == [] ==> s[first] == RBRACE && end == first + 1)
             && (members != [] && depth < NESTING_LIMIT ==>
                   s[first] != RBRACE && MembersReadBack(s, first, members, end, depth + 1))
    ensures ObjectReadsBack(s, i, members, end, depth)
  {
    hide ParseMembers;
  }

  lemma EmptyMembers(f: bool, pd: nat)
    ensures MembersText([], f, pd) == [] && NestingOfMembers([]) == 0
  {
  }

  lemma SplitObject(s: seq<byte>, i: nat, members: seq<Member>, f: bool, pd: nat)
    requires At(s, i, Text(Obj(members), f, pd))
    ensures var body := i + |Opening(f)|;
            var tail := body + |MembersText(members, f, pd + 1)|;
            && At(s, i, Opening(f))
            && At(s, body, MembersText(members, f, pd + 1))
            && At(s, tail, Indent(f, pd) + [RBRACE])
            && tail + |Indent(f, pd)| + 1 == i + |Text(Obj(members), f, pd)| <= |s|
  {
    hide MembersText;
    var opening, body, tail := Opening(f), MembersText(members, f, pd + 1), Indent(f, pd) + [RBRACE];
    assert Text(Obj(members), f, pd) == opening + (body + tail);
    AtConcat(s, i, opening, body + tail);
    AtConcat(s, i + |opening|, body, tail);
  }

  lemma {:induction false} ObjectRoundTrip(s: seq<byte>, i: nat, members: seq<Member>, f: bool, pd: nat, depth: nat)
    requires depth <= NESTING_LIMIT
    requires Terminated(s) && At(s, i, Text(Obj(members), f, pd)) && s[i] == LBRACE
    ensures ObjectReadsBack(s, i, members, i + |Text(Obj(members), f, pd)|, depth)
    decreases members, 2
  {
    hide At, SkipWhitespace, MembersReadBack, ObjectReadsBack, Indent, Text, MembersText;
    hide ParseObject, ParseMembers, Nesting, NestingOfMembers;
    var body := i + |Opening(f)|;
    var end := i + |Text(Obj(members), f, pd)|;
    SplitObject(s, i, members, f, pd);
    ClosingIsRead(s, body + |MembersText(members, f, pd + 1)|, f, pd);
    OpeningIsRead(s, i, f);
    if members == [] {
      EmptyMembers(f, pd + 1);
    } else if depth < NESTING_LIMIT {
      MembersStart(s, body, members, f, pd + 1);
      MembersRoundTrip(s, body, members, f, pd + 1, pd, depth + 1);
      MembersSkip(s, SkipWhitespace(s, i + 1), body, members, end, depth + 1);
    }
    ObjectStep(s, i, members, end, depth);
  }

  lemma OpeningIsRead(s: seq<byte>, i: nat, f: bool)
    requires At(s, i, Opening(f)) && i + |Opening(f)| < |s|
    ensures SkipWhitespace(s, i + 1) == SkipWhitespace(s, i + |Opening(f)|)
    ensures SkipWhitespace(s, SkipWhitespace(s, i + 1)) == SkipWhitespace(s, i + 1)
  {
    AtIndex(s, i, Opening(f));
    if f {
      assert s[i + 1] == Opening(f)[1];
    }
    SkipTwice(s, i + 1);
  }

  /** The closing indentation and brace. */
  lemma ClosingIsRead(s: seq<byte>, i: nat, f: bool, pd: nat)
    requires At(s, i, Indent(f, pd) + [RBRACE])
    ensures SkipWhitespace(s, i) == i + |Indent(f, pd)| && s[i + |Indent(f, pd)|] == RBRACE
    ensures i + |Indent(f, pd)| < |s|
  {
    AtConcat(s, i, Indent(f, pd), [RBRACE]);
    AtFirst(s, i + |Indent(f, pd)|, [RBRACE]);
    SkipsText(s, i, Indent(f, pd));
  }

  lemma SplitMembers(s: seq<byte>, i: nat, members: seq<Member>, f: bool, pd: nat)
    requires members != [] && At(s, i, MembersText(members, f, pd))
    ensures At(s, i, MemberText(members[0], f, pd))
    ensures var next := i + |MemberText(members[0], f, pd)|;
            var end := MemberEnd(|members| > 1, f);
            && At(s, next, end)
            && At(s, next + |end|, MembersText(members[1..], f, pd))
            && next + |end| + |MembersText(members[1..], f, pd)| == i + |MembersText(members, f, pd)|
  {
    hide At, MemberText, MemberEnd;
    var first, end := MemberText(members[0], f, pd), MemberEnd(|members| > 1, f);
    AtConcat(s, i, first + end, MembersText(members[1..], f, pd));
    AtConcat(s, i, first, end);
  }

  lemma SplitMember(s: seq<byte>, i: nat, m: Member, f: bool, pd: nat)
    requires At(s, i, MemberText(m, f, pd))
    ensures var key := i + |Indent(f, pd)|;
            var colon := key + |Quoted(m.key)|;
            var value := colon + |KeySeparator(f)|;
            && At(s, i, Indent(f, pd))
            && At(s, key, Quoted(m.key))
            && At(s, colon, KeySeparator(f))
            && At(s, value, Text(m.value, f, pd))
            && value + |Text(m.value, f, pd)| == i + |MemberText(m, f, pd)|
  {
    var a, b, c, d := Indent(f, pd), Quoted(m.key), KeySeparator(f), Text(m.value, f, pd);
    AtConcat(s, i, a + b + c, d);
    AtConcat(s, i, a + b, c);
    AtConcat(s, i, a, b);
  }

  /** A non-empty list of members starts, after its indentation, with a quote. */
  lemma MembersStart(s: seq<byte>, i: nat, members: seq<Member>, f: bool, pd: nat)
    requires members != [] && At(s, i, MembersText(members, f, pd))
    ensures var key := i + |Indent(f, pd)|;
            key < |s| && SkipWhitespace(s, i) == key && s[key] == QUOTE
  {
    hide At, SkipWhitespace, Text, MembersText, MemberText;
    SplitMembers(s, i, members, f, pd);
    SplitMember(s, i, members[0], f, pd);
    AtFirst(s, i + |Indent(f, pd)|, Quoted(members[0].key));
    SkipsText(s, i, Indent(f, pd));
  }

  ghost predicate MemberReadsBack(s: seq<byte>, i: nat, m: Member, end: nat, depth: nat)
    requires Terminated(s) && i < |s|
  {
    && (depth + Nesting(m.value) <= NESTING_LIMIT ==> ParseMember(s, i, depth) == Ok(m, end))
    && (depth + Nesting(m.value) > NESTING_LIMIT ==> ParseMember(s, i, depth).Bad?)
  }

  /** A name, the colon, and a value that reads back. */
  lemma MemberStep(s: seq<byte>, i: nat, m: Member, colon: nat, end: nat, depth: nat)
    requires Terminated(s) && i < |s| && colon + 1 < |s|
    requires ParseString(s, i) == Ok(m.key, colon) && s[colon] == COLON
    requires ReadsBack(s, SkipWhitespace(s, colon + 1), m.value, end, depth)
    ensures MemberReadsBack(s, i, m, end, depth)
  {
    hide ParseString, ParseValue, Nesting;
    SkipsOver(s, colon, 0);
  }

  lemma {:induction false} MemberRoundTrip(s: seq<byte>, i: nat, m: Member, f: bool, pd: nat, depth: nat)
    requires depth <= NESTING_LIMIT
    requires Terminated(s) && At(s, i, MemberText(m, f, pd)) && i + |MemberText(m, f, pd)| < |s|
    requires !IsNumberChar(s[i + |MemberText(m, f, pd)|])
    ensures MemberReadsBack(s, i + |Indent(f, pd)|, m, i + |MemberText(m, f, pd)|, depth)
    decreases m, 2
  {
    hide At, SkipWhitespace, ReadsBack, MemberReadsBack, Quoted, Indent, KeySeparator, Text;
    hide ParseMember, ParseString, ParseValue, Nesting;
    SplitMember(s, i, m, f, pd);
    var key := i + |Indent(f, pd)|;
    var colon := key + |Quoted(m.key)|;
    var value := colon + |KeySeparator(f)|;
    StringRoundTrip(s, key, m.key);
    ValueStart(s, value, m.value, f, pd);
    KeySeparatorIsRead(s, colon, f);
    ValueRoundTrip(s, value, m.value, f, pd, depth);
    MemberStep(s, key, m, colon, i + |MemberText(m, f, pd)|, depth);
  }

  /** A printed value starts with a byte that is not blank. */
  lemma ValueStart(s: seq<byte>, i: nat, t: Json, f: bool, pd: nat)
    requires At(s, i, Text(t, f, pd))
    ensures i < |s| && s[i] > 32
  {
    TextNotEmpty(t, f, pd);
    AtFirst(s, i, Text(t, f, pd));
    FirstByte(t, f, pd);
  }

  lemma KeySeparatorIsRead(s: seq<byte>, colon: nat, f: bool)
    requires At(s, colon, KeySeparator(f))
    requires colon + |KeySeparator(f)| < |s| && s[colon + |KeySeparator(f)|] > 32
    ensures s[colon] == COLON && SkipWhitespace(s, colon + 1) == colon + |KeySeparator(f)|
  {
    AtIndex(s, colon, KeySeparator(f));
    assert s[colon + 0] == KeySeparator(f)[0];
    if f {
      assert s[colon + 1] == KeySeparator(f)[1];
    }
    SkipsOver(s, colon + 1, |KeySeparator(f)| - 1);
  }

  /** What follows a member: a comma, or the blank before the closing brace. */
  lemma MemberEndIsRead(s: seq<byte>, i: nat, more: bool, f: bool)
    requires At(s, i, MemberEnd(more, f)) && i + |MemberEnd(more, f)| < |s|
    requires !more && !f ==> s[i] == RBRACE
    ensures !IsNumberChar(s[i])
    ensures more ==> SkipWhitespace(s, i) == i && s[i] == COMMA
    ensures more ==> SkipWhitespace(s, i + 1) == SkipWhitespace(s, i + |MemberEnd(more, f)|)
    ensures !more ==> SkipWhitespace(s, i) == SkipWhitespace(s, i + |MemberEnd(more, f)|)
  {
    var end := MemberEnd(more, f);
    AtIndex(s, i, end);
    if more {
      assert s[i + 0] == end[0];
      if f {
        assert s[i + 1] == end[1];
      }
    } else if f {
      assert s[i + 0] == end[0];
    }
  }

  /** One turn of the member loop. */
  lemma MembersStep(s: seq<byte>, i: nat, members: seq<Member>, next: nat, end: nat, depth: nat)
    requires Terminated(s) && i < |s| && next < |s| && members != []
    requires MemberReadsBack(s, SkipWhitespace(s, i), members[0], next, depth)
    requires var after := SkipWhitespace(s, next);
             && (|members| == 1 ==> s[after] == RBRACE && end == after + 1)
             && (|members| > 1 ==> s[after] == COMMA && MembersReadBack(s, after + 1, members[1..], end, depth))
    ensures MembersReadBack(s, i, members, end, depth)
  {
    hide ParseMember, Nesting;
    assert members == [members[0]] + members[1..];
    if |members| == 1 {
      assert members[1..] == [] && members == [members[0]];
    }
  }

  /** It makes no difference where in the blank before a member the list is started. */
  lemma MembersSkip(s: seq<byte>, i: nat, j: nat, members: seq<Member>, end: nat, depth: nat)
    requires Terminated(s) && i < |s| && j < |s| && SkipWhitespace(s, i) == SkipWhitespace(s, j)
    requires MembersReadBack(s, j, members, end, depth)
    ensures MembersReadBack(s, i, members, end, depth)
  {
    hide ParseMember, Nesting;
  }

  lemma LastMemberEnd(s: seq<byte>, next: nat, rest: nat, f: bool, closing: nat)
    requires rest == next + |MemberEnd(false, f)| && At(s, rest, Indent(f, closing) + [RBRACE])
    ensures !f ==> next < |s| && s[next] == RBRACE
  {
    AtFirst(s, rest, Indent(f, closing) + [RBRACE]);
  }

  lemma {:induction false} MembersRoundTrip(
    s: seq<byte>, i: nat, members: seq<Member>, f: bool, pd: nat, closing: nat, depth: nat)
    requires depth <= NESTING_LIMIT
    requires Terminated(s) && members != [] && At(s, i, MembersText(members, f, pd))
    requires At(s, i + |MembersText(members, f, pd)|, Indent(f, closing) + [RBRACE])
    ensures i < |s|
    ensures MembersReadBack(s, i, members, i + |MembersText(members, f, pd)| + |Indent(f, closing)| + 1, depth)
    decreases members, 0
  {
    hide At, SkipWhitespace, MemberReadsBack, MembersReadBack;
    hide Tabs, Indent, MemberEnd, MemberText, MembersText;
    hide IsNumberChar, ParseMember, ParseMembers, Nesting, NestingOfMembers;
    SplitMembers(s, i, members, f, pd);
    MembersStart(s, i, members, f, pd);
    var next := i + |MemberText(members[0], f, pd)|;
    var more := |members| > 1;
    var rest := next + |MemberEnd(more, f)|;
    var end := i + |MembersText(members, f, pd)| + |Indent(f, closing)| + 1;
    ClosingIsRead(s, i + |MembersText(members, f, pd)|, f, closing);
    if more {
      MembersRoundTrip(s, rest, members[1..], f, pd, closing, depth);
      MemberEndIsRead(s, next, more, f);
      MembersSkip(s, next + 1, rest, members[1..], end, depth);
    } else {
      assert members[1..] == [];
      EmptyMembers(f, pd);
      LastMemberEnd(s, next, rest, f, closing);
      MemberEndIsRead(s, next, more, f);
    }
    MemberRoundTrip(s, i, members[0], f, pd, depth);
    MembersStep(s, i, members, next, end, depth);
  }

  // ---------- the whole text

  /**
    For every tree and both formats: the printed text is parsed up to its terminator and gives
    exactly the tree back if its nesting is at most 1000, and is refused otherwise.
   */
  lemma PrintParseRoundTrip(t: Json, formatted: bool, requireNullTerminated: bool)
    ensures NUL !in Text(t, formatted, 0)
    ensures var text := Text(t, formatted, 0);
            var r := Parse(text, requireNullTerminated);
            && (r == Ok(t, |text|) <==> Nesting(t) <= NESTING_LIMIT)
            && (r.Bad? <==> Nesting(t) > NESTING_LIMIT)
  {
    hide Text, ParseValue, Nesting;
    var text := Text(t, formatted, 0);
    var s := text + [NUL];
    TextIsNulFree(t, formatted, 0);
    TextNotEmpty(t, formatted, 0);
    assert s[0] == text[0];
    FirstByte(t, formatted, 0);
    PrefixFirstByte(s, 0, BYTE_ORDER_MARK);
    SkipsOver(s, 0, 0);
    assert s[0..|text|] == text;
    ValueRoundTrip(s, 0, t, formatted, 0, 0);
  }

  /** Whatever text was accepted, its tree can be printed in either format and parsed again. */
  lemma AcceptedTextReadsBack(text: CString, formatted: bool, requireNullTerminated: bool)
    requires Parse(text, requireNullTerminated).Ok?
    ensures var t := Parse(text, requireNullTerminated).value;
            && Nesting(t) <= NESTING_LIMIT
            && NUL !in Text(t, formatted, 0)
            && Parse(Text(t, formatted, 0), requireNullTerminated) == Ok(t, |Text(t, formatted, 0)|)
  {
    hide ParseValue, Text;
    var s := text + [NUL];
    ValueFitsLimit(s, SkipWhitespace(s, SkipByteOrderMark(s)), 0);
    PrintParseRoundTrip(Parse(text, requireNullTerminated).value, formatted, requireNullTerminated);
  }
}
