/** The printer: a buffer that grows or stays, written through an offset that `strlen` recovers. */
module Printer {
  import opened Bytes
  import opened JsonTree
  import opened Render

  // ---------- growth

  /** The length after making room for `total` bytes. */
  function Grown(length: nat, total: nat): nat {
    if total <= length then length
    else if total > INT_MAX / 2 then INT_MAX
    else total * 2
  }

  /** One call of `ensure`: the offset at the time and the bytes asked for. */
  datatype Request = Request(offset: nat, needed: nat)

  ghost predicate Served(length: nat, requests: seq<Request>)
    decreases |requests|
  {
    requests == [] ||
    var r := requests[0];
    && r.offset < length
    && r.offset + r.needed + 1 <= INT_MAX
    && Served(Grown(length, r.offset + r.needed + 1), requests[1..])
  }

  function FinalLength(length: nat, requests: seq<Request>): nat
    decreases |requests|
  {
    if requests == [] then length
    else FinalLength(Grown(length, requests[0].offset + requests[0].needed + 1), requests[1..])
  }

  /** What the allocate-copy-free path copies over a run: the finished part and one byte at each growth. */
  function CopiedBytes(length: nat, requests: seq<Request>): nat
    decreases |requests|
  {
    if requests == [] then 0
    else
      var total := requests[0].offset + requests[0].needed + 1;
      (if total <= length then 0 else requests[0].offset + 1) + CopiedBytes(Grown(length, total), requests[1..])
  }

  /** Over any run of successful calls, fewer bytes are copied than twice the final length. */
  lemma {:induction false} CopyingIsAmortised(length: nat, requests: seq<Request>)
    requires 1 <= length <= INT_MAX && Served(length, requests)
    ensures length <= FinalLength(length, requests) <= INT_MAX
    ensures CopiedBytes(length, requests) + length <= 2 * FinalLength(length, requests)
    decreases |requests|
  {
    if requests != [] {
      var total := requests[0].offset + requests[0].needed + 1;
      CopyingIsAmortised(Grown(length, total), requests[1..]);
      if total > length && total > INT_MAX / 2 {
        NoGrowthAtTheTop(requests[1..]);
      }
    }
  }

  lemma {:induction false} NoGrowthAtTheTop(requests: seq<Request>)
    requires Served(INT_MAX, requests)
    ensures FinalLength(INT_MAX, requests) == INT_MAX && CopiedBytes(INT_MAX, requests) == 0
    decreases |requests|
  {
    if requests != [] {
      NoGrowthAtTheTop(requests[1..]);
    }
  }

  class PrintBuffer {
    var buffer: array<byte>
    var length: nat
    var offset: nat
    var depth: nat
    const noalloc: bool
    const format: bool
    const reallocates: bool

    /** The caller's buffer, which a `noalloc` printer never leaves. */
    const home: array<byte>
    /** What bounds offset + needed + 1: the fixed length, or the largest int when the buffer may grow. */
    const capacity: nat

    /** What the caller keeps behind a fixed length. */
    ghost const beyond: seq<byte>

    /** Bytes copied so far by growing without `realloc`. */
    ghost var copied: nat
    /** End of the space the last successful `Ensure` reserved. */
    ghost var reserved: nat

    ghost predicate Valid()
      reads `buffer, `length, `offset, `copied, `reserved, buffer
    {
      && length <= buffer.Length && length <= INT_MAX && buffer[length..] == beyond
      && (if noalloc then buffer == home && capacity == length else capacity == INT_MAX && length == buffer.Length)
      && (offset < length || (offset == length == 0 && (noalloc || reallocates)))
      && (reserved == 0 || reserved < length)
      && (reallocates || noalloc ==> copied == 0)
      && copied <= 2 * length
      && (0 < length < INT_MAX ==> copied < length)
    }

    constructor (buffer: array<byte>, length: nat, noalloc: bool, format: bool, reallocates: bool)
      requires length <= buffer.Length && length <= INT_MAX && (length > 0 || noalloc || reallocates)
      requires !noalloc ==> length == buffer.Length
      ensures Valid() && this.buffer == buffer && this.length == length && offset == 0 && depth == 0
      ensures capacity == (if noalloc then length else INT_MAX) && home == buffer && beyond == buffer[length..]
      ensures this.noalloc == noalloc && this.format == format && this.reallocates == reallocates
    {
      this.buffer, this.length := buffer, length;
      offset, depth := 0, 0;
      this.noalloc, this.format, this.reallocates := noalloc, format, reallocates;
      home, capacity := buffer, if noalloc then length else INT_MAX;
      copied, reserved, beyond := 0, 0, buffer[length..];
    }

    /** `w` stands at the start of the buffer with a NUL after it. */
    ghost predicate Holds(w: seq<byte>)
      reads `buffer, `length, buffer
    {
      |w| < length <= buffer.Length && buffer[..|w|] == w && buffer[|w|] == NUL
    }

    /** The buffer starts with `w`. */
    ghost predicate Starts(w: seq<byte>)
      reads `buffer, buffer
    {
      |w| <= buffer.Length && buffer[..|w|] == w
    }

    /** `w` is the finished part of the buffer: what lies before the offset. */
    ghost predicate Finished(w: seq<byte>)
      reads `buffer, `offset, buffer
    {
      |w| == offset <= buffer.Length && buffer[..offset] == w
    }

    /** Reserves `needed` bytes at the offset and one more, growing if it must and may. */
    method Ensure(needed: nat, ghost done: seq<byte>) returns (ok: bool)
      requires Valid() && Finished(done)
      modifies this
      ensures Valid() && Finished(done) && offset == old(offset) == |done| && depth == old(depth)
      ensures ok <==> offset + needed + 1 <= capacity
      ensures ok ==> offset + needed + 1 <= length == Grown(old(length), offset + needed + 1)
      ensures ok ==> reserved == offset + needed
      ensures copied == old(copied) + if length != old(length) && !reallocates then offset + 1 else 0
      ensures buffer == old(buffer) || fresh(buffer)
      ensures !ok || old(offset + needed + 1 <= length) ==> buffer == old(buffer) && length == old(length)
      ensures old(offset < length) ==> offset < length && buffer[offset] == old(buffer[offset])
    {
      if length > 0 && offset >= length {
        return false;
      }
      if needed > INT_MAX {
        return false;
      }
      var total := needed + offset + 1;
      if total <= length {
        reserved := offset + needed;
        return true;
      }
      if noalloc {
        return false;
      }
      var newSize;
      if total > INT_MAX / 2 {
        if total <= INT_MAX {
          newSize := INT_MAX;
        } else {
          return false;
        }
      } else {
        newSize := total * 2;
      }
      var newBuffer := new byte[newSize];
      // `realloc` keeps every byte, the copying path those up to and including the one at the offset.
      var kept := if reallocates then length else offset + 1;
      var i := 0;
      while i < kept
        invariant 0 <= i <= kept
        invariant forall k :: 0 <= k < i ==> newBuffer[k] == buffer[k]
        modifies newBuffer
      {
        newBuffer[i] := buffer[i];
        i := i + 1;
      }
      copied := if reallocates then copied else copied + kept;
      length := newSize;
      buffer := newBuffer;
      reserved := offset + needed;
      return true;
    }

    /** Stores `w` from index `at` on, inside the reserved space. */
    method Put(at: nat, w: seq<byte>)
      requires Valid() && offset <= at && at + |w| <= reserved
      modifies buffer
      ensures Valid() && Stored(old(buffer[..]), buffer[..], at, w)
    {
      var i := 0;
      while i < |w|
        invariant 0 <= i <= |w|
        invariant Valid()
        invariant Stored(old(buffer[..]), buffer[..], at, w[..i])
      {
        buffer[at + i] := w[i];
        i := i + 1;
      }
      assert w[..|w|] == w;
    }

    /** `strlen` from the offset on: `w` is what has been written, up to its NUL. */
    method UpdateOffset(ghost w: seq<byte>)
      requires Valid() && Holds(w) && offset <= |w| && NUL !in w[offset..]
      modifies this`offset
      ensures Valid() && Finished(w) && offset == |w|
    {
      assert forall k :: offset <= k < |w| ==> buffer[k] == w[offset..][k - offset];
      var i := offset;
      while buffer[i] != NUL
        invariant offset <= i <= |w|
        decreases |w| - i
      {
        i := i + 1;
      }
      offset := i;
    }

    /** What every printing step promises: it succeeds iff the text and two bytes more fit. */
    ghost predicate Fits(done: seq<byte>, text: seq<byte>) {
      |done| + |text| + 2 <= capacity
    }

    /** Stores finished text at the offset and moves past it. */
    method Append(w: seq<byte>, ghost done: seq<byte>)
      requires Valid() && Finished(done) && offset + |w| <= reserved
      modifies this`offset, buffer
      ensures Valid() && Finished(done + w) && offset == old(offset) + |w|
    {
      Put(offset, w);
      offset := offset + |w|;
      assert buffer[..offset] == done + w;
    }

    /** Stores the last piece of a value and its NUL at the offset, and leaves the offset there. */
    method Close(w: seq<byte>, ghost done: seq<byte>)
      requires Valid() && Finished(done) && offset + |w| + 1 <= reserved
      modifies buffer
      ensures Valid() && Holds(done + w)
    {
      Put(offset, w + [NUL]);
      assert buffer[..offset + |w|] == done + w;
    }

    /** The same, but the offset moves to the NUL. */
    method CloseAndAdvance(w: seq<byte>, ghost done: seq<byte>)
      requires Valid() && Finished(done) && offset + |w| + 1 <= reserved
      modifies this`offset, buffer
      ensures Valid() && Holds(done + w) && Finished(done + w) && offset == old(offset) + |w| == |done + w|
    {
      Close(w, done);
      offset := offset + |w|;
    }

    // The recurring block: reserve, give up if that fails, store, move on.

    /** Stores `w` without a NUL and moves past it. */
    method Emit(w: seq<byte>, needed: nat, ghost done: seq<byte>) returns (ok: bool)
      requires Valid() && Finished(done) && |w| <= needed
      modifies this, buffer
      ensures Valid() && depth == old(depth)
      ensures buffer == old(buffer) || fresh(buffer)
      ensures ok <==> |done| + needed + 1 <= capacity
      ensures ok ==> Finished(done + w) && offset == |done + w|
    {
      ok := Ensure(needed, done);
      if ok {
        Append(w, done);
      }
    }

    /** Stores `w` and a NUL and moves onto the NUL. */
    method EmitTerminated(w: seq<byte>, ghost done: seq<byte>) returns (ok: bool)
      requires Valid() && Finished(done)
      modifies this, buffer
      ensures Valid() && depth == old(depth)
      ensures buffer == old(buffer) || fresh(buffer)
      ensures ok <==> |done| + |w| + 2 <= capacity
      ensures ok ==> Finished(done + w) && Holds(done + w) && offset == |done + w|
    {
      ok := Ensure(|w| + 1, done);
      if ok {
        CloseAndAdvance(w, done);
      }
    }

    /** Stores `w` and a NUL and leaves the offset before them. */
    method EmitLast(w: seq<byte>, ghost done: seq<byte>) returns (ok: bool)
      requires Valid() && Finished(done)
      modifies this, buffer
      ensures Valid() && depth == old(depth)
      ensures buffer == old(buffer) || fresh(buffer)
      ensures offset == |done|
      ensures ok <==> |done| + |w| + 2 <= capacity
      ensures ok ==> Holds(done + w)
    {
      ok := Ensure(|w| + 1, done);
      if ok {
        Close(w, done);
      }
    }

    /** `Decimal` stands for the `sprintf_s` into the 26-byte number buffer. */
    method PrintNumber(n: int32, ghost done: seq<byte>) returns (ok: bool)
      requires Valid() && Finished(done)
      modifies this, buffer
      ensures Valid() && depth == old(depth)
      ensures buffer == old(buffer) || fresh(buffer)
      ensures ok <==> Fits(done, Decimal(n))
      ensures ok ==> Holds(done + Decimal(n)) && offset == |done + Decimal(n)|
    {
      DecimalLength(n);
      var number := Decimal(n);
      if |number| > 25 {
        return false;
      }
      ok := EmitTerminated(number, done);
    }

    /** The escaped form of one byte; the NUL that `sprintf_s` adds is overwritten later. */
    method PutEscaped(at: nat, b: byte, ghost w: seq<byte>) returns (next: nat)
      requires Valid() && b != NUL && offset <= at && at + |EscapeByte(b)| + 1 <= reserved
      requires Starts(w) && |w| == at
      modifies buffer
      ensures Valid() && next == at + |EscapeByte(b)|
      ensures Starts(w + EscapeByte(b))
    {
      hide EscapeByte;
      var escaped := [b];
      if !(b > 31 && b != QUOTE && b != BACKSLASH) {
        escaped := EscapeSequence(b);
      } else {
        OrdinaryByte(b);
      }
      Put(at, if |escaped| == 6 then escaped + [NUL] else escaped);
      next := at + |escaped|;
      assert buffer[at..next] == escaped;
      assert buffer[..next] == buffer[..at] + buffer[at..next];
    }

    method PrintString(input: CString, ghost done: seq<byte>) returns (ok: bool)
      requires Valid() && Finished(done)
      modifies this, buffer
      ensures Valid() && offset == old(offset) && depth == old(depth)
      ensures buffer == old(buffer) || fresh(buffer)
      ensures ok <==> Fits(done, Quoted(input))
      ensures offset == |done|
      ensures ok ==> Holds(done + Quoted(input))
    {
      hide Escape, ExtraCharacters;
      var extra := CountExtra(input);
      CountingPassIsExact(input);
      var outputLength := |input| + extra;
      ok := Ensure(outputLength + 3, done);
      if !ok {
        return;
      }
      if extra == 0 {
        NoExtraNoEscape(input);
        Close([QUOTE] + input + [QUOTE], done);
        return;
      }
      WriteQuoted(input, done);
    }

    method WriteQuoted(input: CString, ghost done: seq<byte>)
      requires Valid() && Finished(done) && offset + |Escape(input)| + 3 <= reserved
      modifies buffer
      ensures Valid() && Holds(done + Quoted(input))
    {
      hide Escape;
      WriteEscaped(input, done);
      ghost var w := done + [QUOTE] + Escape(input);
      buffer[offset + 1 + |Escape(input)|] := QUOTE;
      buffer[offset + 2 + |Escape(input)|] := NUL;
      assert buffer[..|w|] == w;
      assert w + [QUOTE] == done + Quoted(input);
    }

    /** The writing pass: the opening quote and every byte escaped. */
    method WriteEscaped(input: CString, ghost done: seq<byte>)
      requires Valid() && Finished(done) && offset + |Escape(input)| + 3 <= reserved
      modifies buffer
      ensures Valid() && Starts(done + [QUOTE] + Escape(input))
    {
      hide Escape, EscapeByte;
      buffer[offset] := QUOTE;
      var out := offset + 1;
      var i := 0;
      ghost var w := done + [QUOTE];
      EscapeNothing(input);
      while i < |input|
        invariant 0 <= i <= |input| && Valid() && Starts(w) && out == |w|
        invariant w == done + [QUOTE] + Escape(input[..i])
        invariant |Escape(input[..i])| + |Escape(input[i..])| == |Escape(input)|
      {
        EscapeOneMore(input, i);
        var next := PutEscaped(out, input[i], w);
        w := w + EscapeByte(input[i]);
        out, i := next, i + 1;
      }
      assert input[..i] == input;
    }

    // ---------- trees

    /** Prints `t` at the offset. The offset may stay short of the end; a NUL stands at the end. */
    method PrintValue(t: Json, ghost done: seq<byte>) returns (ok: bool)
      requires Valid() && Finished(done)
      modifies this, buffer
      ensures Valid()
      ensures buffer == old(buffer) || fresh(buffer)
      ensures ok <==> Fits(done, Text(t, format, old(depth)))
      ensures ok ==> depth == old(depth) && |done| <= offset <= |done + Text(t, format, depth)|
      ensures ok ==> Holds(done + Text(t, format, old(depth)))
      decreases t, 2
    {
      match t
      case Null =>
        ok := EmitLast(NULL_TEXT, done);
      case False =>
        ok := EmitLast(FALSE_TEXT, done);
      case True =>
        ok := EmitLast(TRUE_TEXT, done);
      case Number(n) =>
        ok := PrintNumber(n, done);
      case Str(text) =>
        ok := PrintString(text, done);
      case Arr(items) =>
        ok := PrintArray(items, done);
      case Obj(members) =>
        ok := PrintObject(members, done);
    }

    /** A value and the `update_offset` after it: the offset moves to the end of the value. */
    method PrintAndAdvance(t: Json, ghost done: seq<byte>) returns (ok: bool)
      requires Valid() && Finished(done)
      modifies this, buffer
      ensures Valid()
      ensures buffer == old(buffer) || fresh(buffer)
      ensures ok <==> Fits(done, Text(t, format, old(depth)))
      ensures ok ==> depth == old(depth) && Finished(done + Text(t, format, depth))
      ensures ok ==> offset == |done + Text(t, format, depth)|
      decreases t, 3
    {
      ghost var text := Text(t, format, depth);
      ghost var w := done + text;
      ok := PrintValue(t, done);
      if ok {
        TextIsNulFree(t, format, depth);
        assert w[offset..] == text[offset - |done|..];
        UpdateOffset(w);
      }
    }

    method PrintArray(items: seq<Json>, ghost done: seq<byte>) returns (ok: bool)
      requires Valid() && Finished(done)
      modifies this, buffer
      ensures Valid()
      ensures buffer == old(buffer) || fresh(buffer)
      ensures ok <==> Fits(done, Text(Arr(items), format, old(depth)))
      ensures ok ==> depth == old(depth) && |done| <= offset <= |done + Text(Arr(items), format, depth)|
      ensures ok ==> Holds(done + Text(Arr(items), format, old(depth)))
      decreases items, 5
    {
      hide Text, ItemsText, Valid, Finished, Holds;
      ArrayText(items, format, depth, done);
      ok := Emit([LBRACKET], 1, done);
      if ok {
        depth := depth + 1;
        ok := PrintArrayRest(items, done + [LBRACKET]);
      }
    }

    /** What follows the opening bracket. */
    method PrintArrayRest(items: seq<Json>, ghost done: seq<byte>) returns (ok: bool)
      requires Valid() && Finished(done) && depth >= 1
      modifies this, buffer
      ensures Valid()
      ensures buffer == old(buffer) || fresh(buffer)
      ensures var body := ItemsText(items, format, old(depth));
              && (ok <==> |done + body| + 3 <= capacity)
              && (ok ==> depth == old(depth) - 1 && offset == |done + body| && Holds(done + body + [RBRACKET]))
      decreases items, 4
    {
      hide ItemsText, Valid, Finished, Holds;
      ghost var body := ItemsText(items, format, depth);
      ok := PrintItems(items, done);
      if ok {
        ok := EmitLast([RBRACKET], done + body);
        depth := depth - 1;
      }
    }

    /** The walk along the chain of items, the separators included. */
    method PrintItems(items: seq<Json>, ghost done: seq<byte>) returns (ok: bool)
      requires Valid() && Finished(done)
      modifies this, buffer
      ensures Valid()
      ensures buffer == old(buffer) || fresh(buffer)
      ensures !ok ==> |done + ItemsText(items, format, old(depth))| + 2 > capacity
      ensures ok ==> depth == old(depth) && Finished(done + ItemsText(items, format, depth))
      ensures ok ==> offset == |done + ItemsText(items, format, depth)|
      decreases items, 3
    {
      assert offset == |done|;
      hide Text, ItemsText, ItemSeparator, Valid, Finished, Holds;
      NoItemsText(format, depth);
      ghost var written := done;
      ghost var whole := done + ItemsText(items, format, depth);
      var i := 0;
      while i < |items|
        invariant 0 <= i <= |items| && Valid() && depth == old(depth)
        invariant buffer == old(buffer) || fresh(buffer)
        invariant Finished(written) && offset == |written|
        invariant written + ItemsText(items[i..], format, depth) == whole
      {
        ItemsTextStep(items, i, format, depth, written);
        ok := PrintItemAndSeparator(items[i], i + 1 < |items|, written);
        if !ok {
          return;
        }
        written := written + Text(items[i], format, depth) + (if i + 1 < |items| then ItemSeparator(format) else []);
        i := i + 1;
      }
      assert items[i..] == [];
      assert written == whole;
      ok := true;
    }

    /** An item, and the separator if it is not the last one. */
    method PrintItemAndSeparator(t: Json, more: bool, ghost done: seq<byte>) returns (ok: bool)
      requires Valid() && Finished(done)
      modifies this, buffer
      ensures Valid()
      ensures buffer == old(buffer) || fresh(buffer)
      ensures var w := done + Text(t, format, old(depth)) + (if more then ItemSeparator(format) else []);
              && (ok <==> |w| + 2 <= capacity)
              && (ok ==> depth == old(depth) && Finished(w) && offset == |w|)
      decreases t, 4
    {
      hide Text, ItemSeparator, Valid, Finished, Holds;
      ok := PrintAndAdvance(t, done);
      if ok && more {
        ok := EmitTerminated(ItemSeparator(format), done + Text(t, format, depth));
      }
      assert done + Text(t, format, old(depth)) + [] == done + Text(t, format, old(depth));
    }

    method PrintObject(members: seq<Member>, ghost done: seq<byte>) returns (ok: bool)
      requires Valid() && Finished(done)
      modifies this, buffer
      ensures Valid()
      ensures buffer == old(buffer) || fresh(buffer)
      ensures ok <==> Fits(done, Text(Obj(members), format, old(depth)))
      ensures ok ==> depth == old(depth) && |done| <= offset <= |done + Text(Obj(members), format, depth)|
      ensures ok ==> Holds(done + Text(Obj(members), format, old(depth)))
      decreases members, 6
    {
      hide Text, MembersText, Opening, Indent, Valid, Finished, Holds;
      ObjectText(members, format, depth, done);
      ok := Emit(Opening(format), |Opening(format)| + 1, done);
      if ok {
        depth := depth + 1;
        ok := PrintObjectRest(members, depth - 1, done + Opening(format));
      }
    }

    /** What follows the opening brace: the members, and the closing brace at the outer depth. */
    method PrintObjectRest(members: seq<Member>, ghost outer: nat, ghost done: seq<byte>) returns (ok: bool)
      requires Valid() && Finished(done) && depth == outer + 1
      modifies this, buffer
      ensures Valid()
      ensures buffer == old(buffer) || fresh(buffer)
      ensures var body, closing := MembersText(members, format, outer + 1), Indent(format, outer) + [RBRACE];
              && (ok <==> |done + body| + |closing| + 2 <= capacity)
              && (ok ==> depth == outer && offset == |done + body| && Holds(done + body + closing))
      decreases members, 5
    {
      hide MembersText, Indent, Valid, Finished, Holds;
      ghost var body := MembersText(members, format, depth);
      ok := PrintMembers(members, done);
      if ok {
        ok := EmitLast(Indent(format, depth - 1) + [RBRACE], done + body);
        depth := depth - 1;
      }
    }

    /** The walk along the chain of members. */
    method PrintMembers(members: seq<Member>, ghost done: seq<byte>) returns (ok: bool)
      requires Valid() && Finished(done)
      modifies this, buffer
      ensures Valid()
      ensures buffer == old(buffer) || fresh(buffer)
      ensures !ok ==> |done + MembersText(members, format, old(depth))| + 2 > capacity
      ensures ok ==> depth == old(depth) && Finished(done + MembersText(members, format, depth))
      ensures ok ==> offset == |done + MembersText(members, format, depth)|
      decreases members, 4
    {
      assert offset == |done|;
      hide MembersText, MemberLine, IsLeft, Valid, Finished, Holds;
      ghost var written := done;
      ghost var whole := done + MembersText(members, format, depth);
      AllIsLeft(members, format, depth, done);
      var i := 0;
      while i < |members|
        invariant 0 <= i <= |members| && Valid() && depth == old(depth)
        invariant buffer == old(buffer) || fresh(buffer)
        invariant Finished(written) && offset == |written|
        invariant IsLeft(members, i, format, depth, written, whole)
      {
        OneLessIsLeft(members, i, format, depth, written, whole);
        ok := PrintMemberAndEnd(members[i], i + 1 < |members|, written);
        if !ok {
          return;
        }
        written := written + MemberLine(members[i], i + 1 < |members|, format, depth);
        i := i + 1;
      }
      NothingIsLeft(members, format, depth, written, whole);
      ok := true;
    }

    /** A member, the comma if it is not the last one, and the line end. */
    method PrintMemberAndEnd(m: Member, more: bool, ghost done: seq<byte>) returns (ok: bool)
      requires Valid() && Finished(done)
      modifies this, buffer
      ensures Valid()
      ensures buffer == old(buffer) || fresh(buffer)
      ensures var w := done + MemberLine(m, more, format, old(depth));
              && (ok <==> |w| + 2 <= capacity)
              && (ok ==> depth == old(depth) && Finished(w) && offset == |w|)
      decreases m, 5
    {
      hide MemberText, MemberEnd, Valid, Finished, Holds;
      ok := PrintMember(m, done);
      if ok {
        ok := EmitTerminated(MemberEnd(more, format), done + MemberText(m, format, depth));
      }
      assert done + MemberText(m, format, old(depth)) + MemberEnd(more, format)
          == done + MemberLine(m, more, format, old(depth));
    }

    method PrintMember(m: Member, ghost done: seq<byte>) returns (ok: bool)
      requires Valid() && Finished(done)
      modifies this, buffer
      ensures Valid()
      ensures buffer == old(buffer) || fresh(buffer)
      ensures !ok ==> !Fits(done, MemberText(m, format, old(depth)))
      ensures ok ==> depth == old(depth) && Finished(done + MemberText(m, format, depth))
      ensures ok ==> offset == |done + MemberText(m, format, depth)|
      decreases m, 4
    {
      assert offset == |done|;
      hide Text, MemberText, Quoted, Tabs, Indent, KeySeparator, Valid, Finished, Holds;
      MemberTextParts(m, format, depth, done);
      ghost var written := if format then done + Tabs(depth) else done;
      ok := true;
      if format {
        ok := Emit(Tabs(depth), depth, done);
      }
      if ok {
        ok := PrintKey(m.key, written);
        if ok {
          ok := PrintAndAdvance(m.value, written + Quoted(m.key) + KeySeparator(format));
        }
      }
    }

    /** A key with its `update_offset`, and the colon. */
    method PrintKey(key: CString, ghost done: seq<byte>) returns (ok: bool)
      requires Valid() && Finished(done)
      modifies this, buffer
      ensures Valid() && depth == old(depth)
      ensures buffer == old(buffer) || fresh(buffer)
      ensures !ok ==> |done| + |Quoted(key)| + |KeySeparator(format)| + 1 > capacity
      ensures ok ==> Finished(done + Quoted(key) + KeySeparator(format))
      ensures ok ==> offset == |done + Quoted(key) + KeySeparator(format)|
    {
      hide Quoted, Valid, Finished, Holds;
      ok := PrintString(key, done);
      if ok {
        ghost var written := done + Quoted(key);
        assert written[offset..] == Quoted(key);
        UpdateOffset(written);
        ok := Emit(KeySeparator(format), |KeySeparator(format)|, written);
      }
    }
  }

  lemma NoItemsText(f: bool, depth: nat)
    ensures ItemsText([], f, depth) == []
  {
  }

  lemma ArrayText(items: seq<Json>, f: bool, depth: nat, done: seq<byte>)
    ensures var body, text := ItemsText(items, f, depth + 1), Text(Arr(items), f, depth);
            && done + [LBRACKET] + body + [RBRACKET] == done + text
            && |done| <= |done + [LBRACKET] + body| == |done| + |text| - 1 < |done + text|
            && |text| == |body| + 2
  {
    hide ItemsText;
    var body := ItemsText(items, f, depth + 1);
    assert done + [LBRACKET] + body + [RBRACKET] == done + ([LBRACKET] + body + [RBRACKET]);
  }

  lemma ObjectText(members: seq<Member>, f: bool, depth: nat, done: seq<byte>)
    ensures var body, text, closing := MembersText(members, f, depth + 1), Text(Obj(members), f, depth),
                                       Indent(f, depth) + [RBRACE];
            && done + Opening(f) + body + closing == done + text
            && |done| <= |done + Opening(f) + body| == |done| + |text| - |closing| < |done + text|
            && |text| == |Opening(f)| + |body| + |closing|
  {
    hide MembersText, Tabs;
    var body, closing := MembersText(members, f, depth + 1), Indent(f, depth) + [RBRACE];
    assert done + Opening(f) + body + closing == done + (Opening(f) + body + Indent(f, depth) + [RBRACE]);
  }

  /** Item `i`'s share of what is left of a list after `written`. */
  lemma ItemsTextStep(items: seq<Json>, i: nat, f: bool, depth: nat, written: seq<byte>)
    requires i < |items|
    ensures var first, rest := Text(items[i], f, depth), ItemsText(items[i + 1..], f, depth);
            var separator := if i + 1 < |items| then ItemSeparator(f) else [];
            && written + ItemsText(items[i..], f, depth) == written + first + separator + rest
            && |written + first + separator| <= |written + ItemsText(items[i..], f, depth)|
  {
    hide Text;
    assert items[i..][0] == items[i] && items[i..][1..] == items[i + 1..];
    var first, rest := Text(items[i], f, depth), ItemsText(items[i + 1..], f, depth);
    if i + 1 < |items| {
      assert written + (first + ItemSeparator(f) + rest) == written + first + ItemSeparator(f) + rest;
    } else {
      assert items[i + 1..] == [];
      assert written + first == written + first + [] + rest;
    }
  }

  function MemberLine(m: Member, more: bool, f: bool, depth: nat): seq<byte> {
    MemberText(m, f, depth) + MemberEnd(more, f)
  }

  /** `written` and the members from `i` on make up `whole`. */
  ghost predicate IsLeft(members: seq<Member>, i: nat, f: bool, depth: nat, written: seq<byte>, whole: seq<byte>)
    requires i <= |members|
  {
    written + MembersText(members[i..], f, depth) == whole
  }

  lemma AllIsLeft(members: seq<Member>, f: bool, depth: nat, done: seq<byte>)
    ensures IsLeft(members, 0, f, depth, done, done + MembersText(members, f, depth))
  {
    assert members[0..] == members;
  }

  lemma OneLessIsLeft(members: seq<Member>, i: nat, f: bool, depth: nat, written: seq<byte>, whole: seq<byte>)
    requires i < |members| && IsLeft(members, i, f, depth, written, whole)
    ensures var line := MemberLine(members[i], i + 1 < |members|, f, depth);
            |written + line| <= |whole| && IsLeft(members, i + 1, f, depth, written + line, whole)
  {
    hide MemberText;
    assert members[i..][0] == members[i] && members[i..][1..] == members[i + 1..];
    var line, rest := MemberLine(members[i], i + 1 < |members|, f, depth), MembersText(members[i + 1..], f, depth);
    assert written + (line + rest) == written + line + rest;
  }

  lemma NothingIsLeft(members: seq<Member>, f: bool, depth: nat, written: seq<byte>, whole: seq<byte>)
    requires IsLeft(members, |members|, f, depth, written, whole)
    ensures written == whole
  {
    assert members[|members|..] == [];
  }

  lemma MemberTextParts(m: Member, f: bool, depth: nat, done: seq<byte>)
    ensures var key, value := Quoted(m.key), Text(m.value, f, depth);
            && |Tabs(depth)| == depth
            && (if f then done + Tabs(depth) + key + KeySeparator(f) + value
                else done + key + KeySeparator(f) + value) == done + MemberText(m, f, depth)
            && |MemberText(m, f, depth)| == (if f then depth else 0) + |key| + |KeySeparator(f)| + |value|
  {
    hide Text, Tabs, Quoted;
    var key, value := Quoted(m.key), Text(m.value, f, depth);
    assert done + (Indent(f, depth) + key + KeySeparator(f) + value)
        == done + Indent(f, depth) + key + KeySeparator(f) + value;
    if !f {
      assert done + Indent(f, depth) == done;
    }
  }

  /** The counting pass. */
  method CountExtra(input: CString) returns (extra: nat)
    ensures extra == ExtraCharacters(input)
  {
    extra := 0;
    var i := 0;
    while i < |input|
      invariant 0 <= i <= |input| && extra + ExtraCharacters(input[i..]) == ExtraCharacters(input)
    {
      if input[i] in {QUOTE, BACKSLASH, BACKSPACE, FORMFEED, NEWLINE, RETURN, TAB} {
        extra := extra + 1;
      } else if input[i] < 32 {
        extra := extra + 5;
      }
      assert input[i..][1..] == input[i + 1..];
      i := i + 1;
    }
  }

  /** The switch of the writing pass, over the bytes that need an escape. */
  method EscapeSequence(b: byte) returns (sequence: seq<byte>)
    requires b != NUL && !(b > 31 && b != QUOTE && b != BACKSLASH)
    ensures sequence == EscapeByte(b)
  {
    sequence := [BACKSLASH];
    if b == BACKSLASH {
      sequence := sequence + [BACKSLASH];
    } else if b == QUOTE {
      sequence := sequence + [QUOTE];
    } else if b == BACKSPACE {
      sequence := sequence + [98];
    } else if b == FORMFEED {
      sequence := sequence + [102];
    } else if b == NEWLINE {
      sequence := sequence + [110];
    } else if b == RETURN {
      sequence := sequence + [114];
    } else if b == TAB {
      sequence := sequence + [116];
    } else {
      // "u%04x"
      sequence := sequence + [117, ZERO, ZERO, HexDigit(b / 16), HexDigit(b % 16)];
    }
  }

  lemma OrdinaryByte(b: byte)
    requires b > 31 && b != QUOTE && b != BACKSLASH
    ensures EscapeByte(b) == [b]
  {
  }

  lemma EscapeNothing(input: CString)
    ensures Escape(input[..0]) == [] && input[0..] == input
  {
  }

  lemma EscapeOneMore(input: CString, i: nat)
    requires i < |input|
    ensures Escape(input[..i + 1]) == Escape(input[..i]) + EscapeByte(input[i])
    ensures Escape(input[i..]) == EscapeByte(input[i]) + Escape(input[i + 1..])
  {
    assert input[..i + 1] == input[..i] + [input[i]];
    EscapeAppend(input[..i], [input[i]]);
    assert Escape([input[i]]) == EscapeByte(input[i]) + Escape([]);
    assert input[i..][1..] == input[i + 1..];
  }

  // ---------- entry points

  /**
    `cJSON_Print` and `cJSON_PrintUnformatted`: from a 256-byte buffer, whether it grows by `realloc`
    or by copying, the result is exactly the text and its terminator, and only a text that does not
    leave room for two more bytes below INT_MAX is refused.
   */
  method Print(t: Json, format: bool, reallocates: bool) returns (ok: bool, printed: array<byte>)
    ensures ok <==> |Text(t, format, 0)| + 2 <= INT_MAX
    ensures fresh(printed)
    ensures ok ==> printed[..] == Text(t, format, 0) + [NUL]
  {
    var start := new byte[256];
    var p := new PrintBuffer(start, start.Length, false, format, reallocates);
    ok := p.PrintAndAdvance(t, []);
    if !ok {
      printed := new byte[0];
      return;
    }
    ghost var text := Text(t, format, 0);
    assert [] + text == text;
    printed := Shrunk(p.buffer, p.offset);
  }

  /** A fresh buffer with the first `len` bytes and a NUL. */
  method Shrunk(buffer: array<byte>, len: nat) returns (printed: array<byte>)
    requires len <= buffer.Length
    ensures fresh(printed) && printed[..] == buffer[..len] + [NUL]
  {
    printed := new byte[len + 1];
    var i := 0;
    while i < len
      invariant 0 <= i <= len
      invariant printed[..i] == buffer[..i]
      modifies printed
    {
      printed[i] := buffer[i];
      i := i + 1;
    }
    printed[len] := NUL;
  }

  /** `cJSON_PrintBuffered`. Without `realloc` the first buffer must not be empty. */
  method PrintBuffered(t: Json, prebuffer: int32, format: bool, reallocates: bool)
    returns (ok: bool, buffer: array<byte>)
    requires prebuffer != 0 || reallocates
    ensures ok <==> prebuffer >= 0 && |Text(t, format, 0)| + 2 <= INT_MAX
    ensures fresh(buffer)
    ensures ok ==>
              var text := Text(t, format, 0);
              |text| < buffer.Length && buffer[..|text| + 1] == text + [NUL]
  {
    if prebuffer < 0 {
      buffer := new byte[0];
      return false, buffer;
    }
    var start := new byte[prebuffer];
    var p := new PrintBuffer(start, start.Length, false, format, reallocates);
    ok := p.PrintValue(t, []);
    buffer := p.buffer;
    assert [] + Text(t, format, 0) == Text(t, format, 0);
  }

  /**
    `cJSON_PrintPreallocated`: succeeds exactly when the given length is at least the length of the
    text plus two, and then the buffer holds the text the growing printer gives.
   */
  method PrintPreallocated(t: Json, buf: array<byte>, len: int, format: bool) returns (ok: bool)
    requires len <= buf.Length && len <= INT_MAX
    modifies buf
    ensures ok <==> len >= |Text(t, format, 0)| + 2
    ensures len >= 0 ==> buf[len..] == old(buf[len..])
    ensures ok ==> |Text(t, format, 0)| < len && buf[..|Text(t, format, 0)| + 1] == Text(t, format, 0) + [NUL]
  {
    if len < 0 {
      return false;
    }
    var p := new PrintBuffer(buf, len, true, format, true);
    ok := p.PrintValue(t, []);
    assert [] + Text(t, format, 0) == Text(t, format, 0);
  }
}
