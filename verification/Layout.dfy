/** How a printed text is laid out, byte by byte. */
module Layout {
  import opened Bytes
  import opened JsonTree
  import opened Render
  import opened Utf16
  import opened StringSyntax

  function Join(parts: seq<seq<byte>>, separator: seq<byte>): seq<byte> {
    if parts == [] then []
    else if |parts| == 1 then parts[0]
    else parts[0] + separator + Join(parts[1..], separator)
  }

  /** The texts of the items of an array. */
  function ItemTexts(items: seq<Json>, formatted: bool, depth: nat): (texts: seq<seq<byte>>)
    ensures |texts| == |items| && forall i :: 0 <= i < |items| ==> texts[i] == Text(items[i], formatted, depth)
  {
    if items == [] then [] else [Text(items[0], formatted, depth)] + ItemTexts(items[1..], formatted, depth)
  }

  /** One member: with the indentation and the tab of the formatted print, or without any blank. */
  function Line(m: Member, formatted: bool, depth: nat): seq<byte> {
    if formatted then Tabs(depth) + Quoted(m.key) + [58, 9] + Text(m.value, true, depth)
    else Quoted(m.key) + [58] + Text(m.value, false, depth)
  }

  function Lines(members: seq<Member>, formatted: bool, depth: nat): (lines: seq<seq<byte>>)
    ensures |lines| == |members|
    ensures forall i :: 0 <= i < |members| ==> lines[i] == Line(members[i], formatted, depth)
  {
    if members == [] then []
    else [Line(members[0], formatted, depth)] + Lines(members[1..], formatted, depth)
  }

  /** Words and numbers; a string is its escaped bytes between quotes. */
  lemma ScalarLayout(t: Json, formatted: bool, depth: nat)
    ensures t.Null? ==> Text(t, formatted, depth) == [110, 117, 108, 108]
    ensures t.True? ==> Text(t, formatted, depth) == [116, 114, 117, 101]
    ensures t.False? ==> Text(t, formatted, depth) == [102, 97, 108, 115, 101]
    ensures t.Number? ==> Text(t, formatted, depth) == if t.n < 0 then [45] + Digits(-(t.n as int)) else Digits(t.n)
    ensures t.Str? ==> Text(t, formatted, depth) == [34] + Escape(t.text) + [34]
  {
  }

  /** An array stands on one line, a comma between the items and, when formatted, a blank behind it. */
  lemma ArrayLayout(items: seq<Json>, formatted: bool, depth: nat)
    ensures Text(Arr(items), formatted, depth) ==
            [91] + Join(ItemTexts(items, formatted, depth + 1), if formatted then [44, 32] else [44]) + [93]
  {
    ItemsAreJoined(items, formatted, depth + 1);
  }

  lemma {:induction false} ItemsAreJoined(items: seq<Json>, formatted: bool, depth: nat)
    ensures ItemsText(items, formatted, depth) ==
            Join(ItemTexts(items, formatted, depth), if formatted then [44, 32] else [44])
  {
    if items != [] {
      hide Text;
      ItemsAreJoined(items[1..], formatted, depth);
      assert ItemTexts(items, formatted, depth)[1..] == ItemTexts(items[1..], formatted, depth);
    }
  }

  /**
    A formatted object has every member on a line of its own, one tab deeper than its braces; an
    empty one has its closing brace on the next line. Unformatted, nothing stands between the parts.
   */
  lemma ObjectLayout(members: seq<Member>, formatted: bool, depth: nat)
    ensures var lines := Lines(members, formatted, depth + 1);
            Text(Obj(members), formatted, depth) ==
            if formatted
            then [123, 10] + Join(lines, [44, 10]) + (if members == [] then [] else [10]) + Tabs(depth) + [125]
            else [123] + Join(lines, [44]) + [125]
  {
    hide Text, MembersText, Lines, Join, Tabs;
    var lines := Lines(members, formatted, depth + 1);
    ObjectUnfolds(members, formatted, depth);
    if members == [] {
      EmptyLines(formatted, depth + 1);
    } else {
      MembersAreJoined(members, formatted, depth + 1);
    }
  }

  lemma ObjectUnfolds(members: seq<Member>, formatted: bool, depth: nat)
    ensures Text(Obj(members), formatted, depth) ==
            (if formatted then [123, 10] else [123]) + MembersText(members, formatted, depth + 1)
            + (if formatted then Tabs(depth) else []) + [125]
  {
  }

  lemma EmptyLines(formatted: bool, depth: nat)
    ensures MembersText([], formatted, depth) == [] == Join(Lines([], formatted, depth), [44, 10])
    ensures Join(Lines([], formatted, depth), [44]) == []
  {
  }

  lemma MemberIsALine(m: Member, formatted: bool, depth: nat)
    ensures MemberText(m, formatted, depth) == Line(m, formatted, depth)
  {
    hide Text, Quoted, Tabs;
    assert [] + Quoted(m.key) == Quoted(m.key);
  }

  lemma {:induction false} MembersAreJoined(members: seq<Member>, formatted: bool, depth: nat)
    requires members != []
    ensures MembersText(members, formatted, depth) ==
            if formatted then Join(Lines(members, formatted, depth), [44, 10]) + [10]
            else Join(Lines(members, formatted, depth), [44])
  {
    hide MemberText, Line;
    var line, rest := Line(members[0], formatted, depth), members[1..];
    MemberIsALine(members[0], formatted, depth);
    assert Lines(members, formatted, depth)[1..] == Lines(rest, formatted, depth);
    if rest == [] {
      LastLine(members, formatted, depth);
    } else {
      MembersAreJoined(rest, formatted, depth);
      MoreLines(members, formatted, depth);
    }
  }

  lemma LastLine(members: seq<Member>, formatted: bool, depth: nat)
    requires |members| == 1
    ensures MembersText(members, formatted, depth) ==
            MemberText(members[0], formatted, depth) + if formatted then [10] else []
  {
    hide MemberText;
    assert members[1..] == [];
  }

  lemma MoreLines(members: seq<Member>, formatted: bool, depth: nat)
    requires |members| > 1
    ensures MembersText(members, formatted, depth) ==
            MemberText(members[0], formatted, depth) + (if formatted then [44, 10] else [44])
            + MembersText(members[1..], formatted, depth)
  {
    hide MemberText;
  }

  /**
    The escaped form of a byte: the seven escapes of one letter the printer uses, a `\\u` escape with
    lower-case digits for the other control characters, and the byte itself for everything else.
   */
  lemma EscapeLayout(b: byte)
    requires b != 0
    ensures b >= 32 && b !in {34, 92} ==> EscapeByte(b) == [b]
    ensures forall letter: byte :: (letter, b) in SHORT_ESCAPES && letter != 47 ==> EscapeByte(b) == [92, letter]
    ensures b < 32 && b !in {8, 9, 10, 12, 13} ==>
              && |EscapeByte(b)| == 6 && EscapeByte(b)[..2] == [92, 117] && SpellsWord(EscapeByte(b), 2, b)
              && forall k :: 2 <= k < 6 ==> EscapeByte(b)[k] in LOWER_DIGITS
  {
  }
}
