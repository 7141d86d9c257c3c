/** The recursive-descent parser over one cursor. */
module Parser {
  import opened Bytes
  import opened JsonTree
  import opened NumberText
  import opened StringLiteral
  import opened Grammar

  lemma PrependNothing<T>(r: Parsed<seq<T>>)
    ensures PrependItems([], r) == r
  {
    if r.Ok? {
      assert [] + r.value == r.value;
    }
  }

  /** What one turn of the item loop makes of `ParseItems`. */
  lemma ItemsTurn(s: seq<byte>, i: nat, depth: nat)
    requires Terminated(s) && i < |s|
    ensures match ParseValue(s, SkipWhitespace(s, i), depth)
            case Bad(at) => ParseItems(s, i, depth) == Parsed.Bad(at)
            case Ok(item, next) =>
              var after := SkipWhitespace(s, next);
              ParseItems(s, i, depth) ==
                if s[after] == COMMA then PrependItems([item], ParseItems(s, after + 1, depth))
                else if s[after] == RBRACKET then Parsed.Ok([item], after + 1)
                else Parsed.Bad(after)
  {
  }

  lemma MembersTurn(s: seq<byte>, i: nat, depth: nat)
    requires Terminated(s) && i < |s|
    ensures match ParseMember(s, SkipWhitespace(s, i), depth)
            case Bad(at) => ParseMembers(s, i, depth) == Parsed.Bad(at)
            case Ok(member, next) =>
              var after := SkipWhitespace(s, next);
              ParseMembers(s, i, depth) ==
                if s[after] == COMMA then PrependItems([member], ParseMembers(s, after + 1, depth))
                else if s[after] == RBRACE then Parsed.Ok([member], after + 1)
                else Parsed.Bad(after)
  {
  }

  class ParseBuffer {
    const content: seq<byte>
    var offset: nat
    var depth: nat

    /** The buffer of a C string: its `strlen + 1` bytes. */
    constructor (text: CString)
      ensures content == text + [NUL] && offset == 0 && depth == 0
    {
      content := text + [NUL];
      offset, depth := 0, 0;
    }

    /** Inside the text or on its terminator. */
    ghost predicate Valid()
      reads this
    {
      Terminated(content) && offset < |content|
    }

    predicate CanAccess(index: nat)
      reads this
    {
      offset + index < |content|
    }

    method SkipWhitespace()
      requires Valid()
      modifies this`offset
      ensures Valid() && offset == Grammar.SkipWhitespace(content, old(offset))
    {
      while CanAccess(0) && content[offset] <= 32
        invariant old(offset) <= offset <= |content|
        invariant offset < |content| ==>
                    Grammar.SkipWhitespace(content, offset) == Grammar.SkipWhitespace(content, old(offset))
        invariant offset == |content| ==> Grammar.SkipWhitespace(content, old(offset)) == |content| - 1
        decreases |content| - offset
      {
        offset := offset + 1;
      }
      if offset == |content| {
        offset := offset - 1;
      }
    }

    method SkipByteOrderMark()
      requires Valid() && offset == 0
      modifies this`offset
      ensures Valid() && offset == Grammar.SkipByteOrderMark(content)
    {
      if CanAccess(4) && HasPrefix(content, 0, BYTE_ORDER_MARK) {
        offset := offset + 3;
      }
    }

    /** `value` is what readers of the item's `valuestring` see. */
    method ParseString() returns (ok: bool, value: CString)
      requires Valid()
      modifies this`offset
      ensures ok ==> Valid()
      ensures Grammar.ParseString(content, old(offset)) == if ok then Parsed.Ok(value, offset) else Parsed.Bad(offset)
    {
      value := [];
      if content[offset] != QUOTE {
        offset := offset + 1;
        return false, [];
      }
      var found, end, skipped := ScanString(content, offset + 1);
      if !found {
        offset := offset + 1;
        return false, [];
      }
      var decoding, written := DecodeString(content, offset + 1, end, skipped);
      match decoding
      case BadEscape(at) =>
        offset := at;
        return false, [];
      case Decoded(bytes) =>
        offset := end;
        offset := offset + 1;
        return true, UpToNul(bytes);
    }

    method ParseNumber() returns (ok: bool, value: Json)
      requires Valid()
      modifies this`offset
      ensures ok ==> Valid()
      ensures Grammar.ParseNumber(content, old(offset)) == if ok then Parsed.Ok(value, offset) else Parsed.Bad(offset)
    {
      hide Strtod, Saturated;
      var token := CopyNumber(content, offset);
      match Strtod(token)
      case NoNumber =>
        return false, Null;
      case Subject(used, mantissa, exponent) =>
        value := Number(Saturated(token[0] == MINUS, mantissa, exponent));
        offset := offset + used;
        return true, value;
    }

    method ParseValue() returns (ok: bool, value: Json)
      requires Valid()
      modifies this
      ensures ok ==> Valid() && depth == old(depth) && offset > old(offset)
      ensures Grammar.ParseValue(content, old(offset), old(depth))
              == if ok then Parsed.Ok(value, offset) else Parsed.Bad(offset)
      decreases |content| - offset, 2
    {
      if HasPrefix(content, offset, NULL_TEXT) {
        offset := offset + 4;
        return true, Null;
      }
      if HasPrefix(content, offset, FALSE_TEXT) {
        offset := offset + 5;
        return true, False;
      }
      if HasPrefix(content, offset, TRUE_TEXT) {
        offset := offset + 4;
        return true, True;
      }
      if CanAccess(0) && content[offset] == QUOTE {
        var text;
        ok, text := ParseString();
        return ok, Str(text);
      }
      if CanAccess(0) && (content[offset] == MINUS || ZERO <= content[offset] <= NINE) {
        ok, value := ParseNumber();
        return;
      }
      if CanAccess(0) && content[offset] == LBRACKET {
        ok, value := ParseArray();
        return;
      }
      if CanAccess(0) && content[offset] == LBRACE {
        ok, value := ParseObject();
        return;
      }
      return false, Null;
    }

    method ParseArray() returns (ok: bool, value: Json)
      requires Valid() && content[offset] == LBRACKET
      modifies this
      ensures ok ==> Valid() && depth == old(depth) && offset > old(offset)
      ensures Grammar.ParseArray(content, old(offset), old(depth))
              == if ok then Parsed.Ok(value, offset) else Parsed.Bad(offset)
      decreases |content| - offset, 1
    {
      hide Grammar.ParseItems, Grammar.SkipWhitespace;
      if depth >= NESTING_LIMIT {
        return false, Null;
      }
      depth := depth + 1;
      offset := offset + 1;
      SkipWhitespace();
      if CanAccess(0) && content[offset] == RBRACKET {
        depth := depth - 1;
        offset := offset + 1;
        return true, Arr([]);
      }
      offset := offset - 1;
      var items;
      ok, items := ParseItemList();
      if !ok || content[offset] != RBRACKET {
        return false, Null;
      }
      depth := depth - 1;
      offset := offset + 1;
      return true, Arr(items);
    }

    /** The comma-separated items; on success the cursor is on the byte after the last one. */
    method ParseItemList() returns (ok: bool, items: seq<Json>)
      requires Valid() && offset + 1 < |content|
      modifies this
      ensures ok ==> Valid() && depth == old(depth) && offset > old(offset)
      ensures Grammar.ParseItems(content, old(offset) + 1, old(depth))
              == if ok && content[offset] == RBRACKET then Parsed.Ok(items, offset + 1) else Parsed.Bad(offset)
      decreases |content| - offset, 0
    {
      hide Grammar.ParseValue, Grammar.ParseItems, Grammar.SkipWhitespace;
      ghost var start, whole := offset, ParseItems(content, offset + 1, depth);
      items := [];
      PrependNothing(whole);
      var more := true;
      while more
        invariant Valid() && depth == old(depth)
        invariant if more then offset >= start && offset + 1 < |content| else offset > start
        invariant more ==> PrependItems(items, ParseItems(content, offset + 1, depth)) == whole
        invariant !more ==>
                    whole == if content[offset] == RBRACKET then Parsed.Ok(items, offset + 1) else Parsed.Bad(offset)
        decreases |content| - offset, more
      {
        ItemsTurn(content, offset + 1, depth);
        ghost var before := items;
        var item;
        ok, item := NextItem();
        if !ok {
          return;
        }
        items := items + [item];
        more := CanAccess(0) && content[offset] == COMMA;
        if more {
          PrependItemsTwice(before, [item], ParseItems(content, offset + 1, depth));
        }
      }
      ok := true;
    }

    /** One turn of the item loop, up to the test for a comma. */
    method NextItem() returns (ok: bool, item: Json)
      requires Valid() && offset + 1 < |content|
      modifies this
      ensures ok ==> Valid() && depth == old(depth) && offset > old(offset) + 1
      ensures match Grammar.ParseValue(content, Grammar.SkipWhitespace(content, old(offset) + 1), old(depth))
              case Bad(at) => !ok && offset == at
              case Ok(v, next) => ok && item == v && offset == Grammar.SkipWhitespace(content, next)
      decreases |content| - offset - 1, 3
    {
      hide Grammar.ParseValue, Grammar.SkipWhitespace;
      offset := offset + 1;
      SkipWhitespace();
      ok, item := ParseValue();
      if ok {
        SkipWhitespace();
      }
    }

    method ParseObject() returns (ok: bool, value: Json)
      requires Valid() && content[offset] == LBRACE
      modifies this
      ensures ok ==> Valid() && depth == old(depth) && offset > old(offset)
      ensures Grammar.ParseObject(content, old(offset), old(depth))
              == if ok then Parsed.Ok(value, offset) else Parsed.Bad(offset)
      decreases |content| - offset, 1
    {
      hide Grammar.ParseMembers, Grammar.SkipWhitespace;
      if depth >= NESTING_LIMIT {
        return false, Null;
      }
      depth := depth + 1;
      offset := offset + 1;
      SkipWhitespace();
      if CanAccess(0) && content[offset] == RBRACE {
        depth := depth - 1;
        offset := offset + 1;
        return true, Obj([]);
      }
      offset := offset - 1;
      var members;
      ok, members := ParseMemberList();
      if !ok || content[offset] != RBRACE {
        return false, Null;
      }
      depth := depth - 1;
      offset := offset + 1;
      return true, Obj(members);
    }

    /** The comma-separated members; on success the cursor is on the byte after the last one. */
    method ParseMemberList() returns (ok: bool, members: seq<Member>)
      requires Valid() && offset + 1 < |content|
      modifies this
      ensures ok ==> Valid() && depth == old(depth) && offset > old(offset)
      ensures Grammar.ParseMembers(content, old(offset) + 1, old(depth))
              == if ok && content[offset] == RBRACE then Parsed.Ok(members, offset + 1) else Parsed.Bad(offset)
      decreases |content| - offset, 0
    {
      hide Grammar.ParseMember, Grammar.ParseMembers, Grammar.SkipWhitespace;
      ghost var start, whole := offset, ParseMembers(content, offset + 1, depth);
      members := [];
      PrependNothing(whole);
      var more := true;
      while more
        invariant Valid() && depth == old(depth)
        invariant if more then offset >= start && offset + 1 < |content| else offset > start
        invariant more ==> PrependItems(members, ParseMembers(content, offset + 1, depth)) == whole
        invariant !more ==>
                    whole == if content[offset] == RBRACE then Parsed.Ok(members, offset + 1) else Parsed.Bad(offset)
        decreases |content| - offset, more
      {
        MembersTurn(content, offset + 1, depth);
        ghost var before := members;
        var member;
        ok, member := NextMember();
        if !ok {
          return;
        }
        members := members + [member];
        more := CanAccess(0) && content[offset] == COMMA;
        if more {
          PrependItemsTwice(before, [member], ParseMembers(content, offset + 1, depth));
        }
      }
      ok := true;
    }

    /** One turn of the member loop, up to the test for a comma. */
    method NextMember() returns (ok: bool, member: Member)
      requires Valid() && offset + 1 < |content|
      modifies this
      ensures ok ==> Valid() && depth == old(depth) && offset > old(offset) + 1
      ensures match Grammar.ParseMember(content, Grammar.SkipWhitespace(content, old(offset) + 1), old(depth))
              case Bad(at) => !ok && offset == at
              case Ok(v, next) => ok && member == v && offset == Grammar.SkipWhitespace(content, next)
      decreases |content| - offset - 1, 4
    {
      hide Grammar.ParseMember, Grammar.SkipWhitespace;
      offset := offset + 1;
      SkipWhitespace();
      ok, member := ParseMember();
      if ok {
        SkipWhitespace();
      }
    }

    /** The name, the colon and the value of one child. */
    method ParseMember() returns (ok: bool, member: Member)
      requires Valid()
      modifies this
      ensures ok ==> Valid() && depth == old(depth) && offset > old(offset)
      ensures Grammar.ParseMember(content, old(offset), old(depth))
              == if ok then Parsed.Ok(member, offset) else Parsed.Bad(offset)
      decreases |content| - offset, 3
    {
      hide Grammar.ParseString, Grammar.ParseValue, Grammar.SkipWhitespace;
      member := Member([], Null);
      var key, value;
      ok, key := ParseString();
      if !ok {
        return;
      }
      SkipWhitespace();
      if !CanAccess(0) || content[offset] != COLON {
        ok := false;
        return;
      }
      offset := offset + 1;
      SkipWhitespace();
      ok, value := ParseValue();
      member := Member(key, value);
    }
  }

  /**
    Parses a C string. `position` is the end of the parsed text on success, the error position
    on failure; both lie inside the text or on its terminator.
   */
  method ParseWithOpts(text: CString, requireNullTerminated: bool) returns (ok: bool, tree: Json, position: nat)
    ensures Parse(text, requireNullTerminated) == if ok then Parsed.Ok(tree, position) else Parsed.Bad(position)
    ensures position <= |text|
  {
    var buffer := new ParseBuffer(text);
    buffer.SkipByteOrderMark();
    buffer.SkipWhitespace();
    ok, tree := buffer.ParseValue();
    if ok && requireNullTerminated {
      buffer.SkipWhitespace();
      if buffer.content[buffer.offset] != NUL {
        ok := false;
      }
    }
    position := if buffer.offset < |buffer.content| then buffer.offset else |buffer.content| - 1;
  }
}
