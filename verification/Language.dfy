/**
  The texts the parser accepts, described without a parser: which bytes stand for a tree. Strings and
  numbers are single pieces here; modules StringSyntax and NumberSyntax say how they are written.
 */
module Language {
  import opened Bytes
  import opened JsonTree
  import opened NumberText
  import opened StringLiteral
  import opened Grammar
  import Parser
  import Render
  import RoundTrip

  /** Only bytes up to 32 stand from `i` to `j`. */
  ghost predicate AreBlank(s: seq<byte>, i: nat, j: nat) {
    i <= j <= |s| && forall k :: i <= k < j ==> s[k] <= 32
  }

  ghost predicate IsString(s: seq<byte>, i: nat, j: nat, text: CString)
    requires Terminated(s)
  {
    i < |s| && ParseString(s, i) == Parsed.Ok(text, j)
  }

  /** A number starts with its sign or a digit and is as long as it can be. */
  ghost predicate IsNumber(s: seq<byte>, i: nat, j: nat, n: int32) {
    i < |s| && (s[i] == 45 || 48 <= s[i] <= 57) && NumberOf(s, i) == NumberAt(n, j)
  }

  /** The bytes from `i` to `j` are a text of `t`. */
  ghost predicate IsText(s: seq<byte>, i: nat, j: nat, t: Json)
    requires Terminated(s)
    decreases t, 3
  {
    i < j < |s| &&
    match t
    case Null => At(s, i, [110, 117, 108, 108]) && j == i + 4
    case False => At(s, i, [102, 97, 108, 115, 101]) && j == i + 5
    case True => At(s, i, [116, 114, 117, 101]) && j == i + 4
    case Number(n) => IsNumber(s, i, j, n)
    case Str(text) => IsString(s, i, j, text)
    case Arr(items) =>
      && i + 1 < j && s[i] == 91 && s[j - 1] == 93
      && if items == [] then AreBlank(s, i + 1, j - 1) else AreItems(s, i + 1, j - 1, items)
    case Obj(members) =>
      && i + 1 < j && s[i] == 123 && s[j - 1] == 125
      && if members == [] then AreBlank(s, i + 1, j - 1) else AreMembers(s, i + 1, j - 1, members)
  }

  /** One item from `a` to `b`, with blanks around it from `i` to `c`. */
  ghost predicate IsItem(s: seq<byte>, i: nat, a: nat, b: nat, c: nat, item: Json)
    requires Terminated(s)
    decreases item, 4
  {
    AreBlank(s, i, a) && IsText(s, a, b, item) && AreBlank(s, b, c)
  }

  /** Items with a comma between any two of them. */
  ghost predicate AreItems(s: seq<byte>, i: nat, j: nat, items: seq<Json>)
    requires Terminated(s) && items != []
    decreases items, 2
  {
    exists a: nat, b: nat, c: nat ::
      && IsItem(s, i, a, b, c, items[0])
      && if |items| == 1 then c == j else c < j <= |s| && s[c] == 44 && AreItems(s, c + 1, j, items[1..])
  }

  /** Where a member stands: key from `a` to `b`, colon at `c`, value from `d` to `e`; `f` ends the blanks. */
  datatype Places = Places(a: nat, b: nat, c: nat, d: nat, e: nat, f: nat)

  /** One member, with blanks from `i` on and around its parts. */
  ghost predicate IsMember(s: seq<byte>, i: nat, p: Places, m: Member)
    requires Terminated(s)
    decreases m, 4
  {
    && AreBlank(s, i, p.a) && IsString(s, p.a, p.b, m.key) && AreBlank(s, p.b, p.c) && p.c < |s| && s[p.c] == 58
    && AreBlank(s, p.c + 1, p.d) && IsText(s, p.d, p.e, m.value) && AreBlank(s, p.e, p.f)
  }

  ghost predicate AreMembers(s: seq<byte>, i: nat, j: nat, members: seq<Member>)
    requires Terminated(s) && members != []
    decreases members, 2
  {
    exists p ::
      && IsMember(s, i, p, members[0])
      && if |members| == 1 then p.f == j else p.f < j <= |s| && s[p.f] == 44 && AreMembers(s, p.f + 1, j, members[1..])
  }

  // ---------- blanks

  lemma SkippedAreBlank(s: seq<byte>, i: nat)
    requires i < |s|
    ensures AreBlank(s, i, SkipWhitespace(s, i))
  {
  }

  lemma BlanksAreSkipped(s: seq<byte>, i: nat, j: nat)
    requires AreBlank(s, i, j) && j < |s| && s[j] > 32
    ensures i < |s| && SkipWhitespace(s, i) == j
  {
    RoundTrip.SkipsOver(s, i, j - i);
  }

  /** Nothing but a value starts with one of these bytes, and none of them is blank. */
  lemma FirstOfText(s: seq<byte>, i: nat, j: nat, t: Json)
    requires Terminated(s) && IsText(s, i, j, t)
    ensures s[i] > 32 && s[i] !in {44, 58, 93, 125}
    ensures t.Null? <==> s[i] == 110
    ensures t.False? <==> s[i] == 102
    ensures t.True? <==> s[i] == 116
    ensures t.Number? <==> s[i] == 45 || 48 <= s[i] <= 57
    ensures t.Str? <==> s[i] == 34
    ensures t.Arr? <==> s[i] == 91
    ensures t.Obj? <==> s[i] == 123
  {
    hide AreItems, AreMembers, NumberOf, ScanEnd, Decode;
    match t
    case Null => AtFirst(s, i, [110, 117, 108, 108]);
    case False => AtFirst(s, i, [102, 97, 108, 115, 101]);
    case True => AtFirst(s, i, [116, 114, 117, 101]);
    case _ =>
  }

  // ---------- what is accepted is a text

  lemma {:induction false} ValueIsText(s: seq<byte>, i: nat, depth: nat)
    requires Terminated(s) && i < |s| && ParseValue(s, i, depth).Ok?
    ensures IsText(s, i, ParseValue(s, i, depth).next, ParseValue(s, i, depth).value)
    decreases |s| - i, 2
  {
    hide SkipWhitespace, ParseItems, ParseMembers, NumberOf, ScanEnd, Decode;
    hide AreItems, AreMembers, AreBlank, Terminated;
    if s[i] == LBRACKET && !IsWord(s, i) {
      ArrayIsText(s, i, depth);
    } else if s[i] == LBRACE && !IsWord(s, i) {
      ObjectIsText(s, i, depth);
    }
  }

  predicate IsWord(s: seq<byte>, i: nat) {
    HasPrefix(s, i, NULL_TEXT) || HasPrefix(s, i, FALSE_TEXT) || HasPrefix(s, i, TRUE_TEXT)
  }

  lemma {:induction false} ArrayIsText(s: seq<byte>, i: nat, depth: nat)
    requires Terminated(s) && i < |s| && s[i] == LBRACKET && ParseArray(s, i, depth).Ok?
    ensures IsText(s, i, ParseArray(s, i, depth).next, ParseArray(s, i, depth).value)
    decreases |s| - i, 1
  {
    hide SkipWhitespace, ParseItems, AreItems, AreBlank, Terminated;
    var first := SkipWhitespace(s, i + 1);
    SkippedAreBlank(s, i + 1);
    if s[first] != RBRACKET {
      ItemsAreText(s, first, depth + 1);
      var r := ParseItems(s, first, depth + 1);
      BlanksBeforeItems(s, i + 1, first, r.next - 1, r.value);
    }
  }

  lemma BlanksBeforeItems(s: seq<byte>, h: nat, i: nat, j: nat, items: seq<Json>)
    requires Terminated(s) && items != [] && AreBlank(s, h, i) && AreItems(s, i, j, items)
    ensures AreItems(s, h, j, items)
  {
    hide IsText;
    var a: nat, b: nat, c: nat :| IsItem(s, i, a, b, c, items[0])
      && if |items| == 1 then c == j else c < j <= |s| && s[c] == 44 && AreItems(s, c + 1, j, items[1..]);
    assert IsItem(s, h, a, b, c, items[0]);
  }

  lemma {:induction false} ItemsAreText(s: seq<byte>, i: nat, depth: nat)
    requires Terminated(s) && i < |s| && ParseItems(s, i, depth).Ok?
    ensures var r := ParseItems(s, i, depth);
            r.value != [] && s[r.next - 1] == 93 && AreItems(s, i, r.next - 1, r.value)
    decreases |s| - i, 3
  {
    hide SkipWhitespace, ParseValue, IsText, AreBlank, AreItems, Terminated;
    var a := SkipWhitespace(s, i);
    SkippedAreBlank(s, i);
    ValueIsText(s, a, depth);
    var item := ParseValue(s, a, depth);
    var c := SkipWhitespace(s, item.next);
    SkippedAreBlank(s, item.next);
    assert IsItem(s, i, a, item.next, c, item.value);
    if s[c] == COMMA {
      ItemsAreText(s, c + 1, depth);
      var r := ParseItems(s, c + 1, depth);
      ItemAndItems(s, i, a, item.next, c, r.next - 1, item.value, r.value);
    } else {
      ItemAndItems(s, i, a, item.next, c, c, item.value, []);
      assert [item.value] + [] == [item.value];
    }
  }

  /** One item alone, or before a comma and more of them. */
  lemma ItemAndItems(s: seq<byte>, i: nat, a: nat, b: nat, c: nat, j: nat, item: Json, rest: seq<Json>)
    requires Terminated(s) && IsItem(s, i, a, b, c, item)
    requires if rest == [] then c == j else c < j <= |s| && s[c] == 44 && AreItems(s, c + 1, j, rest)
    ensures AreItems(s, i, j, [item] + rest)
  {
    hide IsItem;
    assert ([item] + rest)[1..] == rest && ([item] + rest)[0] == item;
  }

  lemma MemberAndMembers(s: seq<byte>, i: nat, p: Places, j: nat, m: Member, rest: seq<Member>)
    requires Terminated(s) && IsMember(s, i, p, m)
    requires if rest == [] then p.f == j else p.f < j <= |s| && s[p.f] == 44 && AreMembers(s, p.f + 1, j, rest)
    ensures AreMembers(s, i, j, [m] + rest)
  {
    hide IsMember;
    assert ([m] + rest)[1..] == rest && ([m] + rest)[0] == m;
  }

  lemma {:induction false} ObjectIsText(s: seq<byte>, i: nat, depth: nat)
    requires Terminated(s) && i < |s| && s[i] == LBRACE && ParseObject(s, i, depth).Ok?
    ensures IsText(s, i, ParseObject(s, i, depth).next, ParseObject(s, i, depth).value)
    decreases |s| - i, 1
  {
    hide SkipWhitespace, ParseMembers, AreMembers, AreBlank, Terminated;
    var first := SkipWhitespace(s, i + 1);
    SkippedAreBlank(s, i + 1);
    if s[first] != RBRACE {
      MembersAreText(s, first, depth + 1);
      var r := ParseMembers(s, first, depth + 1);
      BlanksBeforeMembers(s, i + 1, first, r.next - 1, r.value);
    }
  }

  lemma BlanksBeforeMembers(s: seq<byte>, h: nat, i: nat, j: nat, members: seq<Member>)
    requires Terminated(s) && members != [] && AreBlank(s, h, i) && AreMembers(s, i, j, members)
    ensures AreMembers(s, h, j, members)
  {
    hide IsText, IsString;
    var p :| IsMember(s, i, p, members[0])
      && if |members| == 1 then p.f == j else p.f < j <= |s| && s[p.f] == 44 && AreMembers(s, p.f + 1, j, members[1..]);
    assert IsMember(s, h, p, members[0]);
  }

  lemma {:induction false} MembersAreText(s: seq<byte>, i: nat, depth: nat)
    requires Terminated(s) && i < |s| && ParseMembers(s, i, depth).Ok?
    ensures var r := ParseMembers(s, i, depth);
            r.value != [] && s[r.next - 1] == 125 && AreMembers(s, i, r.next - 1, r.value)
    decreases |s| - i, 4
  {
    hide SkipWhitespace, ParseMember, IsText, AreBlank, AreMembers, Terminated, IsMember;
    var a := SkipWhitespace(s, i);
    SkippedAreBlank(s, i);
    var m := ParseMember(s, a, depth);
    var f := SkipWhitespace(s, m.next);
    SkippedAreBlank(s, m.next);
    var p := MemberIsText(s, i, a, f, depth);
    if s[f] == COMMA {
      MembersAreText(s, f + 1, depth);
      var r := ParseMembers(s, f + 1, depth);
      MemberAndMembers(s, i, p, r.next - 1, m.value, r.value);
    } else {
      MemberAndMembers(s, i, p, f, m.value, []);
      assert [m.value] + [] == [m.value];
    }
  }

  lemma {:induction false} MemberIsText(s: seq<byte>, i: nat, a: nat, f: nat, depth: nat) returns (p: Places)
    requires Terminated(s) && AreBlank(s, i, a) && a < |s| && ParseMember(s, a, depth).Ok?
    requires AreBlank(s, ParseMember(s, a, depth).next, f)
    ensures p.f == f && IsMember(s, i, p, ParseMember(s, a, depth).value)
    decreases |s| - a, 3
  {
    hide SkipWhitespace, ParseValue, ParseString, IsText, AreBlank, Terminated;
    var b := ParseString(s, a).next;
    var c := SkipWhitespace(s, b);
    var d := SkipWhitespace(s, c + 1);
    SkippedAreBlank(s, b);
    SkippedAreBlank(s, c + 1);
    ValueIsText(s, d, depth);
    p := Places(a, b, c, d, ParseMember(s, a, depth).next, f);
  }

  // ---------- every text is accepted, with the tree it stands for

  lemma {:induction false} TextIsValue(s: seq<byte>, i: nat, j: nat, t: Json, depth: nat)
    requires Terminated(s) && IsText(s, i, j, t) && depth + Nesting(t) <= NESTING_LIMIT
    ensures ParseValue(s, i, depth) == Parsed.Ok(t, j)
    decreases t, 3
  {
    hide AreItems, AreMembers, ParseItems, ParseMembers, ParseArray, ParseObject, NumberOf, ScanEnd, Decode, Nesting;
    FirstOfText(s, i, j, t);
    FirstOfWord(s, i, NULL_TEXT);
    FirstOfWord(s, i, FALSE_TEXT);
    FirstOfWord(s, i, TRUE_TEXT);
    if t.Arr? {
      TextIsArray(s, i, j, t.items, depth);
    } else if t.Obj? {
      TextIsObject(s, i, j, t.members, depth);
    }
  }

  lemma FirstOfWord(s: seq<byte>, i: nat, w: CString)
    requires w != []
    ensures HasPrefix(s, i, w) ==> i < |s| && s[i] == w[0]
  {
    if HasPrefix(s, i, w) {
      AtFirst(s, i, w);
    }
  }

  lemma {:induction false} TextIsArray(s: seq<byte>, i: nat, j: nat, items: seq<Json>, depth: nat)
    requires Terminated(s) && IsText(s, i, j, Arr(items)) && depth + Nesting(Arr(items)) <= NESTING_LIMIT
    ensures ParseArray(s, i, depth) == Parsed.Ok(Arr(items), j)
    decreases items, 4
  {
    hide ParseItems, AreItems, SkipWhitespace, AreBlank, NestingOfItems;
    if items == [] {
      BlanksAreSkipped(s, i + 1, j - 1);
    } else {
      TextIsItems(s, i + 1, j - 1, items, depth + 1);
    }
  }

  /** What follows the item: the blanks up to the comma or the closing bracket. */
  lemma {:induction false} TextIsItems(s: seq<byte>, i: nat, j: nat, items: seq<Json>, depth: nat)
    requires Terminated(s) && items != [] && j < |s| && s[j] == 93 && AreItems(s, i, j, items)
    requires depth + NestingOfItems(items) <= NESTING_LIMIT
    ensures i < |s| && s[SkipWhitespace(s, i)] != 93
    ensures ParseItems(s, SkipWhitespace(s, i), depth) == Parsed.Ok(items, j + 1)
    ensures ParseItems(s, i, depth) == Parsed.Ok(items, j + 1)
    decreases items, 3
  {
    hide ParseValue, ParseItems, IsText, SkipWhitespace, AreBlank, Nesting, NestingOfItems;
    ItemNestingSplits(items, depth);
    var a: nat, b: nat, c: nat :| IsItem(s, i, a, b, c, items[0])
      && if |items| == 1 then c == j else c < j <= |s| && s[c] == 44 && AreItems(s, c + 1, j, items[1..]);
    TextInBounds(s, a, b, items[0]);
    FirstOfText(s, a, b, items[0]);
    TextIsValue(s, a, b, items[0], depth);
    BlanksAreSkipped(s, i, a);
    NothingToSkip(s, a);
    BlanksAreSkipped(s, b, c);
    Parser.ItemsTurn(s, i, depth);
    Parser.ItemsTurn(s, a, depth);
    if |items| == 1 {
      assert items == [items[0]];
    } else {
      TextIsItems(s, c + 1, j, items[1..], depth);
      assert items == [items[0]] + items[1..];
    }
  }

  lemma ItemNestingSplits(items: seq<Json>, depth: nat)
    requires items != []
    ensures depth + NestingOfItems(items) <= NESTING_LIMIT ==>
              depth + Nesting(items[0]) <= NESTING_LIMIT && depth + NestingOfItems(items[1..]) <= NESTING_LIMIT
  {
  }

  lemma TextInBounds(s: seq<byte>, i: nat, j: nat, t: Json)
    requires Terminated(s) && IsText(s, i, j, t)
    ensures i < j < |s|
  {
  }

  lemma NothingToSkip(s: seq<byte>, i: nat)
    requires i < |s| && s[i] > 32
    ensures SkipWhitespace(s, i) == i
  {
  }

  lemma {:induction false} TextIsObject(s: seq<byte>, i: nat, j: nat, members: seq<Member>, depth: nat)
    requires Terminated(s) && IsText(s, i, j, Obj(members)) && depth + Nesting(Obj(members)) <= NESTING_LIMIT
    ensures ParseObject(s, i, depth) == Parsed.Ok(Obj(members), j)
    decreases members, 4
  {
    hide ParseMembers, AreMembers, SkipWhitespace, AreBlank, NestingOfMembers;
    if members == [] {
      BlanksAreSkipped(s, i + 1, j - 1);
    } else {
      TextIsMembers(s, i + 1, j - 1, members, depth + 1);
    }
  }

  lemma {:induction false} TextIsMembers(s: seq<byte>, i: nat, j: nat, members: seq<Member>, depth: nat)
    requires Terminated(s) && members != [] && j < |s| && s[j] == 125 && AreMembers(s, i, j, members)
    requires depth + NestingOfMembers(members) <= NESTING_LIMIT
    ensures i < |s| && s[SkipWhitespace(s, i)] != 125
    ensures ParseMembers(s, SkipWhitespace(s, i), depth) == Parsed.Ok(members, j + 1)
    ensures ParseMembers(s, i, depth) == Parsed.Ok(members, j + 1)
    decreases members, 3
  {
    hide ParseMember, ParseMembers, IsMember, SkipWhitespace, AreBlank, Nesting, NestingOfMembers;
    NestingSplits(members, depth);
    var p :| IsMember(s, i, p, members[0])
      && if |members| == 1 then p.f == j else p.f < j <= |s| && s[p.f] == 44 && AreMembers(s, p.f + 1, j, members[1..]);
    TextIsMember(s, i, p, members[0], depth);
    NothingToSkip(s, p.a);
    BlanksAreSkipped(s, p.e, p.f);
    Parser.MembersTurn(s, i, depth);
    Parser.MembersTurn(s, p.a, depth);
    if |members| == 1 {
      assert members == [members[0]];
    } else {
      TextIsMembers(s, p.f + 1, j, members[1..], depth);
      assert members == [members[0]] + members[1..];
    }
  }

  lemma NestingSplits(members: seq<Member>, depth: nat)
    requires members != []
    ensures depth + NestingOfMembers(members) <= NESTING_LIMIT ==>
              && depth + Nesting(members[0].value) <= NESTING_LIMIT
              && depth + NestingOfMembers(members[1..]) <= NESTING_LIMIT
  {
  }

  lemma {:induction false} TextIsMember(s: seq<byte>, i: nat, p: Places, m: Member, depth: nat)
    requires Terminated(s) && IsMember(s, i, p, m) && depth + Nesting(m.value) <= NESTING_LIMIT
    ensures i < |s| && p.a < |s| && SkipWhitespace(s, i) == p.a && s[p.a] == 34
    ensures ParseMember(s, p.a, depth) == Parsed.Ok(m, p.e) && p.e < |s| && AreBlank(s, p.e, p.f)
    decreases m, 4
  {
    hide ParseValue, IsText, SkipWhitespace, AreBlank, Nesting, ScanEnd, Decode;
    TextInBounds(s, p.d, p.e, m.value);
    FirstOfText(s, p.d, p.e, m.value);
    TextIsValue(s, p.d, p.e, m.value, depth);
    BlanksAreSkipped(s, i, p.a);
    BlanksAreSkipped(s, p.b, p.c);
    BlanksAreSkipped(s, p.c + 1, p.d);
  }

  // ---------- whole texts

  /** The first byte over 32, behind a byte order mark if the text starts with one and has a fourth byte. */
  ghost predicate IsStart(text: CString, i: nat) {
    var mark := if |text| >= 4 && text[..3] == [239, 187, 191] then 3 else 0;
    i < |text| && text[i] > 32 && AreBlank(text, mark, i)
  }

  lemma StartIsFound(text: CString)
    ensures var s := text + [NUL];
            var first := SkipWhitespace(s, SkipByteOrderMark(s));
            && (s[first] > 32 ==> IsStart(text, first))
            && forall i: nat :: IsStart(text, i) ==> i == first
  {
    hide SkipWhitespace;
    var s := text + [NUL];
    var mark := SkipByteOrderMark(s);
    MarkIsFound(text);
    hide SkipByteOrderMark;
    SkippedAreBlank(s, mark);
    var first := SkipWhitespace(s, mark);
    assert forall k :: mark <= k < first ==> s[k] <= 32 && s[k] == text[k];
    forall i: nat | IsStart(text, i)
      ensures i == first
    {
      assert AreBlank(s, mark, i);
      BlanksAreSkipped(s, mark, i);
    }
  }

  lemma MarkIsFound(text: CString)
    ensures SkipByteOrderMark(text + [NUL]) == if |text| >= 4 && text[..3] == [239, 187, 191] then 3 else 0
  {
    var s := text + [NUL];
    if |text| >= 4 {
      assert s[0..3] == text[..3];
    }
  }

  lemma TextIsTerminated(text: CString)
    ensures Terminated(text + [NUL])
  {
  }

  /** What the parser reads from where the value starts. */
  lemma ValueExactly(s: seq<byte>, i: nat, t: Json, j: nat)
    requires Terminated(s) && i < |s|
    ensures ParseValue(s, i, 0) == Parsed.Ok(t, j) <==> IsText(s, i, j, t) && Nesting(t) <= 1000
  {
    hide ParseValue, IsText, Nesting, Terminated;
    if ParseValue(s, i, 0) == Parsed.Ok(t, j) {
      ValueIsText(s, i, 0);
      ValueFitsLimit(s, i, 0);
    } else if IsText(s, i, j, t) && Nesting(t) <= 1000 {
      TextIsValue(s, i, j, t, 0);
    }
  }

  /**
    The texts that are accepted, exactly: the text of a tree that nests at most 1000 levels deep stands
    behind the blanks at the start, whatever follows it; or, if the end is demanded, only blanks follow.
   */
  lemma AcceptedExactly(text: CString, t: Json, j: nat)
    ensures Terminated(text + [NUL])
    ensures Parse(text, false) == Parsed.Ok(t, j) <==>
              Nesting(t) <= 1000 && exists i: nat :: IsStart(text, i) && IsText(text + [NUL], i, j, t)
    ensures Parse(text, true) == Parsed.Ok(t, j) <==>
              && Nesting(t) <= 1000 && j == |text|
              && exists i: nat, e: nat :: IsStart(text, i) && IsText(text + [NUL], i, e, t) && AreBlank(text, e, j)
  {
    hide ParseValue, IsText, IsStart, SkipByteOrderMark, SkipWhitespace, Nesting, Terminated, AreBlank;
    var s := text + [NUL];
    TextIsTerminated(text);
    var first := SkipWhitespace(s, SkipByteOrderMark(s));
    StartIsFound(text);
    ValueExactly(s, first, t, j);
    if ParseValue(s, first, 0).Ok? {
      var r := ParseValue(s, first, 0);
      ValueExactly(s, first, r.value, r.next);
      FirstOfText(s, first, r.next, r.value);
      EndIsBlank(text, r.next);
      assert IsStart(text, first);
    }
    forall e: nat | IsText(s, first, e, t) && Nesting(t) <= 1000
      ensures ParseValue(s, first, 0) == Parsed.Ok(t, e)
    {
      ValueExactly(s, first, t, e);
    }
  }

  /** The parser finds the terminator exactly if only blanks follow. */
  lemma EndIsBlank(text: CString, e: nat)
    requires e < |text + [NUL]|
    ensures var s := text + [NUL];
            s[SkipWhitespace(s, e)] == NUL <==> AreBlank(text, e, |text|)
    ensures var s := text + [NUL];
            s[SkipWhitespace(s, e)] == NUL ==> SkipWhitespace(s, e) == |text|
  {
    var s := text + [NUL];
    var end := SkipWhitespace(s, e);
    if end < |text| {
      assert s[end] == text[end] != NUL && s[end] > 32;
    } else {
      forall k | e <= k < |text|
        ensures text[k] <= 32
      {
        assert s[k] <= 32;
      }
    }
  }

  // ---------- the limit on nesting

  function Brackets(n: nat, b: byte): (w: seq<byte>)
    ensures |w| == n && forall k :: 0 <= k < n ==> w[k] == b
  {
    seq(n, _ => b)
  }

  /** `n` arrays, each but the last with the next one as its item. */
  function Nested(n: nat): Json {
    if n <= 1 then Arr([]) else Arr([Nested(n - 1)])
  }

  lemma {:induction false} NestedIsBrackets(n: nat, depth: nat)
    requires n > 0
    ensures Render.Text(Nested(n), false, depth) == Brackets(n, 91) + Brackets(n, 93) && Nesting(Nested(n)) == n
    decreases n
  {
    if n > 1 {
      NestedIsBrackets(n - 1, depth + 1);
      assert [Nested(n - 1)][1..] == [];
      assert NestingOfItems([]) == 0;
      assert [91] + (Brackets(n - 1, 91) + Brackets(n - 1, 93)) + [93] == Brackets(n, 91) + Brackets(n, 93);
    } else {
      assert NestingOfItems([]) == 0;
      assert [91] + [] + [93] == Brackets(1, 91) + Brackets(1, 93);
    }
  }

  /** A thousand brackets inside each other are accepted, and no more. */
  lemma BracketsAreAcceptedUpToLimit(n: nat)
    requires n > 0
    ensures var text := Brackets(n, 91) + Brackets(n, 93);
            0 !in text && (Parse(text, true).Ok? <==> n <= 1000)
  {
    hide Parse, Nesting;
    NestedIsBrackets(n, 0);
    RoundTrip.PrintParseRoundTrip(Nested(n), false, true);
  }
}
