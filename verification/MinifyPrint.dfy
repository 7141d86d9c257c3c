/** Minifying formatted text against printing without format. */
module MinifyPrint {
  import opened Bytes
  import opened JsonTree
  import opened Render
  import opened Minify

  // ---------- when it works

  predicate EndsInBackslash(s: seq<byte>) {
    s != [] && s[|s| - 1] == BACKSLASH
  }

  /**
    The text of `t` leaves the minifier inside a string: `t` is a string ending in a backslash, or
    an array whose last item is such a value.
   */
  predicate Dangling(t: Json)
    decreases t, 1
  {
    match t
    case Str(text) => EndsInBackslash(text)
    case Arr(items) => DanglingItems(items)
    case _ => false
  }

  predicate DanglingItems(items: seq<Json>)
    decreases items, 0
  {
    items != [] && if |items| == 1 then Dangling(items[0]) else DanglingItems(items[1..])
  }

  /** No key and no string ends in a backslash, but for one string that only closing brackets follow. */
  predicate Minifiable(t: Json)
    decreases t, 1
  {
    match t
    case Arr(items) => MinifiableItems(items)
    case Obj(members) => MinifiableMembers(members)
    case _ => true
  }

  predicate MinifiableItems(items: seq<Json>)
    decreases items, 0
  {
    items == [] || (Minifiable(items[0]) && (|items| == 1 || (!Dangling(items[0]) && MinifiableItems(items[1..]))))
  }

  predicate MinifiableMembers(members: seq<Member>)
    decreases members, 0
  {
    members == [] ||
    (&& !EndsInBackslash(members[0].key)
     && Minifiable(members[0].value) && !Dangling(members[0].value)
     && MinifiableMembers(members[1..]))
  }

  /** The minified form of what follows a value. */
  function After(dangling: bool, k: seq<byte>): seq<byte> {
    if dangling then InString(k) else Minified(k)
  }

  ghost predicate Diverges(a: seq<byte>, b: seq<byte>) {
    exists p :: 0 <= p < |a| && p < |b| && a[p] != b[p]
  }

  lemma DivergesBehind(w: seq<byte>, a: seq<byte>, b: seq<byte>)
    requires Diverges(a, b)
    ensures Diverges(w + a, w + b)
  {
    var p :| 0 <= p < |a| && p < |b| && a[p] != b[p];
    assert (w + a)[|w| + p] == a[p] && (w + b)[|w| + p] == b[p];
  }

  lemma DivergesBefore(a: seq<byte>, b: seq<byte>, w: seq<byte>)
    requires Diverges(a, b)
    ensures Diverges(a, b + w)
  {
    var p :| 0 <= p < |a| && p < |b| && a[p] != b[p];
    assert (b + w)[p] == b[p];
  }

  lemma DivergesAt(w: seq<byte>, x: byte, a: seq<byte>, y: byte, b: seq<byte>)
    requires x != y
    ensures Diverges(w + [x] + a, w + [y] + b)
  {
    assert (w + [x] + a)[|w|] == x && (w + [y] + b)[|w|] == y;
  }

  // ---------- pieces of text

  /** A byte that the minifier copies outside strings. */
  predicate IsPlain(b: byte) {
    !IsBlank(b) && b != SLASH && b != QUOTE
  }

  lemma {:induction false} PlainIsKept(w: seq<byte>, k: seq<byte>)
    requires forall i :: 0 <= i < |w| ==> IsPlain(w[i])
    ensures Minified(w + k) == w + Minified(k)
    decreases |w|
  {
    if w == [] {
      assert w + k == k;
    } else {
      assert (w + k)[1..] == w[1..] + k;
      PlainIsKept(w[1..], k);
      assert [w[0]] + (w[1..] + Minified(k)) == w + Minified(k);
    }
  }

  lemma {:induction false} BlankIsDropped(w: seq<byte>, k: seq<byte>)
    requires forall i :: 0 <= i < |w| ==> IsBlank(w[i])
    ensures Minified(w + k) == Minified(k)
    decreases |w|
  {
    if w == [] {
      assert w + k == k;
    } else {
      assert (w + k)[1..] == w[1..] + k;
      BlankIsDropped(w[1..], k);
    }
  }

  /** Inside a string, an escaped byte is copied, unless it is a backslash right before the closing quote. */
  lemma EscapedByteIsKept(b: byte, rest: seq<byte>)
    requires b != NUL && rest != [] && (b == BACKSLASH ==> rest[0] != QUOTE)
    ensures InString(EscapeByte(b) + rest) == EscapeByte(b) + InString(rest)
  {
    if b == QUOTE {
      assert ([BACKSLASH, QUOTE] + rest)[2..] == rest;
    } else {
      hide InString;
      OrdinaryIsKept(EscapeByte(b), rest);
    }
  }

  /** Bytes that are no quotes, and no backslashes before quotes, are copied inside a string. */
  lemma {:induction false} OrdinaryIsKept(w: seq<byte>, rest: seq<byte>)
    requires forall i {:trigger w[i]} :: 0 <= i < |w| ==> w[i] != QUOTE
    requires w != [] && w[|w| - 1] == BACKSLASH ==> rest == [] || rest[0] != QUOTE
    ensures InString(w + rest) == w + InString(rest)
    decreases |w|
  {
    if w == [] {
      assert w + rest == rest;
    } else {
      assert (w + rest)[1..] == w[1..] + rest;
      OrdinaryIsKept(w[1..], rest);
      assert [w[0]] + (w[1..] + InString(rest)) == w + InString(rest);
    }
  }

  /** The body of a string and its closing quote, which ends the string unless the body ends in a backslash. */
  lemma {:induction false} StringBodyIsKept(text: CString, k: seq<byte>)
    ensures InString(Escape(text) + [QUOTE] + k) == Escape(text) + [QUOTE] + After(EndsInBackslash(text), k)
    decreases |text|
  {
    if text == [] {
      assert Escape(text) + [QUOTE] + k == [QUOTE] + k;
      assert ([QUOTE] + k)[1..] == k;
    } else if text == [BACKSLASH] {
      LastBackslash(k);
    } else {
      StringBodyIsKept(text[1..], k);
      StringBodyStep(text, k);
    }
  }

  lemma StringBodyStep(text: CString, k: seq<byte>)
    requires text != [] && text != [BACKSLASH]
    requires var rest := text[1..];
             InString(Escape(rest) + [QUOTE] + k) == Escape(rest) + [QUOTE] + After(EndsInBackslash(rest), k)
    ensures InString(Escape(text) + [QUOTE] + k) == Escape(text) + [QUOTE] + After(EndsInBackslash(text), k)
  {
    hide InString, After, EscapeByte;
    var first, rest := EscapeByte(text[0]), Escape(text[1..]) + [QUOTE] + k;
    assert Escape(text) + [QUOTE] + k == first + rest;
    if text[0] == BACKSLASH {
      NotQuoteFirst(text[1..]);
    }
    EscapedByteIsKept(text[0], rest);
    assert EndsInBackslash(text) == EndsInBackslash(text[1..]) by {
      if |text| == 1 {
        assert text == [text[0]] && text[1..] == [];
      }
    }
    var after := After(EndsInBackslash(text), k);
    assert first + (Escape(text[1..]) + [QUOTE] + after) == Escape(text) + [QUOTE] + after;
  }

  lemma NotQuoteFirst(text: CString)
    requires text != []
    ensures Escape(text)[0] != QUOTE
  {
  }

  lemma LastBackslash(k: seq<byte>)
    ensures Escape([BACKSLASH]) == [BACKSLASH, BACKSLASH]
    ensures InString([BACKSLASH, BACKSLASH] + [QUOTE] + k) == [BACKSLASH, BACKSLASH] + [QUOTE] + InString(k)
  {
    var r := [BACKSLASH, BACKSLASH] + [QUOTE] + k;
    assert Escape([BACKSLASH]) == EscapeByte(BACKSLASH) + Escape([]);
    assert r[1..][2..] == k;
    assert InString(r) == [BACKSLASH] + InString(r[1..]);
    assert InString(r[1..]) == [BACKSLASH, QUOTE] + InString(r[1..][2..]);
  }

  lemma QuotedIsKept(text: CString, k: seq<byte>)
    ensures Minified(Quoted(text) + k) == Quoted(text) + After(EndsInBackslash(text), k)
  {
    hide Minified, InString, Escape, After, EndsInBackslash;
    var body := Escape(text) + [QUOTE] + k;
    assert Quoted(text) + k == [QUOTE] + body;
    QuoteOpensString(body);
    StringBodyIsKept(text, k);
    assert [QUOTE] + (Escape(text) + [QUOTE] + After(EndsInBackslash(text), k))
        == Quoted(text) + After(EndsInBackslash(text), k);
  }

  // ---------- values that survive

  lemma Regroup(a: seq<byte>, b: seq<byte>, c: seq<byte>)
    ensures a + b + c == a + (b + c)
  {
  }

  /** Minifying formatted text gives unformatted text, and leaves the minifier where `Dangling` says. */
  lemma {:induction false} ValueIsKept(t: Json, d: nat, k: seq<byte>)
    requires Minifiable(t)
    ensures Minified(Text(t, true, d) + k) == Text(t, false, d) + After(Dangling(t), k)
    decreases t, 1
  {
    match t
    case Str(text) =>
      QuotedIsKept(text, k);
    case Arr(items) =>
      ItemsAreKept(items, d + 1, [RBRACKET] + k);
      ArrayIsKept(items, d, k);
    case Obj(members) =>
      MembersAreKept(members, d + 1, Indent(true, d) + [RBRACE] + k);
      ObjectIsKept(members, d, k);
    case _ =>
      PlainIsKept(Text(t, true, d), k);
  }

  lemma ArrayIsKept(items: seq<Json>, d: nat, k: seq<byte>)
    requires var rest := [RBRACKET] + k;
             Minified(ItemsText(items, true, d + 1) + rest)
             == ItemsText(items, false, d + 1) + After(DanglingItems(items), rest)
    ensures Minified(Text(Arr(items), true, d) + k) == Text(Arr(items), false, d) + After(Dangling(Arr(items)), k)
  {
    hide ItemsText, DanglingItems;
    var i1, i0 := ItemsText(items, true, d + 1), ItemsText(items, false, d + 1);
    assert ([RBRACKET] + k)[1..] == k;
    assert After(DanglingItems(items), [RBRACKET] + k) == [RBRACKET] + After(DanglingItems(items), k);
    hide Minified, InString, After;
    assert [LBRACKET] + i1 + [RBRACKET] + k == [LBRACKET] + (i1 + ([RBRACKET] + k));
    PlainIsKept([LBRACKET], i1 + ([RBRACKET] + k));
    var after := After(DanglingItems(items), k);
    assert [LBRACKET] + (i0 + ([RBRACKET] + after)) == [LBRACKET] + i0 + [RBRACKET] + after;
  }

  lemma SeparatorIsKept(k: seq<byte>)
    ensures Minified([COMMA, SPACE] + k) == [COMMA] + Minified(k)
    ensures InString([COMMA, SPACE] + k) == [COMMA, SPACE] + InString(k)
  {
    assert [COMMA, SPACE] + k == [COMMA] + ([SPACE] + k);
    PlainIsKept([COMMA], [SPACE] + k);
    BlankIsDropped([SPACE], k);
    OrdinaryIsKept([COMMA, SPACE], k);
  }

  lemma {:induction false} ItemsAreKept(items: seq<Json>, d: nat, k: seq<byte>)
    requires MinifiableItems(items)
    ensures Minified(ItemsText(items, true, d) + k) == ItemsText(items, false, d) + After(DanglingItems(items), k)
    decreases items, 0
  {
    if items == [] {
      assert [] + k == k && [] + Minified(k) == Minified(k);
    } else if |items| == 1 {
      ValueIsKept(items[0], d, k);
    } else {
      var r1 := ItemsText(items[1..], true, d);
      ValueIsKept(items[0], d, [COMMA, SPACE] + (r1 + k));
      ItemsAreKept(items[1..], d, k);
      ItemsStepKept(items, d, k);
    }
  }

  lemma ItemsStepKept(items: seq<Json>, d: nat, k: seq<byte>)
    requires |items| > 1
    requires var r1 := ItemsText(items[1..], true, d);
             Minified(Text(items[0], true, d) + ([COMMA, SPACE] + (r1 + k)))
             == Text(items[0], false, d) + Minified([COMMA, SPACE] + (r1 + k))
    requires Minified(ItemsText(items[1..], true, d) + k)
          == ItemsText(items[1..], false, d) + After(DanglingItems(items[1..]), k)
    ensures Minified(ItemsText(items, true, d) + k) == ItemsText(items, false, d) + After(DanglingItems(items), k)
  {
    hide Minified, After, Text;
    var t1, t0 := Text(items[0], true, d), Text(items[0], false, d);
    var r1, r0 := ItemsText(items[1..], true, d), ItemsText(items[1..], false, d);
    assert t1 + [COMMA, SPACE] + r1 + k == t1 + ([COMMA, SPACE] + (r1 + k));
    SeparatorIsKept(r1 + k);
    var after := After(DanglingItems(items), k);
    assert t0 + ([COMMA] + (r0 + after)) == t0 + [COMMA] + r0 + after;
  }

  lemma ObjectIsKept(members: seq<Member>, d: nat, k: seq<byte>)
    requires var rest := Indent(true, d) + [RBRACE] + k;
             Minified(MembersText(members, true, d + 1) + rest) == MembersText(members, false, d + 1) + Minified(rest)
    ensures Minified(Text(Obj(members), true, d) + k) == Text(Obj(members), false, d) + Minified(k)
  {
    hide Minified, MembersText;
    var m1, m0 := MembersText(members, true, d + 1), MembersText(members, false, d + 1);
    var closing := Indent(true, d) + [RBRACE] + k;
    assert Opening(true) + m1 + Indent(true, d) + [RBRACE] + k == [LBRACE] + ([NEWLINE] + (m1 + closing));
    PlainIsKept([LBRACE], [NEWLINE] + (m1 + closing));
    BlankIsDropped([NEWLINE], m1 + closing);
    assert closing == Tabs(d) + ([RBRACE] + k);
    BlankIsDropped(Tabs(d), [RBRACE] + k);
    PlainIsKept([RBRACE], k);
    assert [LBRACE] + (m0 + ([RBRACE] + Minified(k)))
        == Opening(false) + m0 + Indent(false, d) + [RBRACE] + Minified(k);
  }

  /** A member in front of `k`: the indentation goes, the key and the colon stay. */
  lemma MemberKeyIsKept(m: Member, d: nat, k: seq<byte>)
    requires !EndsInBackslash(m.key)
    ensures Minified(MemberText(m, true, d) + k) == Quoted(m.key) + [COLON] + Minified(Text(m.value, true, d) + k)
  {
    hide Minified, Text, Quoted, EndsInBackslash;
    var v := Text(m.value, true, d) + k;
    assert MemberText(m, true, d) + k == Tabs(d) + (Quoted(m.key) + ([COLON] + ([TAB] + v)));
    BlankIsDropped(Tabs(d), Quoted(m.key) + ([COLON] + ([TAB] + v)));
    QuotedIsKept(m.key, [COLON] + ([TAB] + v));
    PlainIsKept([COLON], [TAB] + v);
    BlankIsDropped([TAB], v);
    Regroup(Quoted(m.key), [COLON], Minified(v));
  }

  lemma MemberEndIsKept(more: bool, k: seq<byte>)
    ensures Minified(MemberEnd(more, true) + k) == MemberEnd(more, false) + Minified(k)
  {
    if more {
      assert MemberEnd(true, true) + k == [COMMA] + ([NEWLINE] + k);
      PlainIsKept([COMMA], [NEWLINE] + k);
    } else {
      assert [] + Minified(k) == Minified(k);
    }
    BlankIsDropped([NEWLINE], k);
  }

  lemma {:induction false} MembersAreKept(members: seq<Member>, d: nat, k: seq<byte>)
    requires MinifiableMembers(members)
    ensures Minified(MembersText(members, true, d) + k) == MembersText(members, false, d) + Minified(k)
    decreases members, 0
  {
    if members == [] {
      assert [] + k == k && [] + Minified(k) == Minified(k);
    } else {
      var rest := MemberEnd(|members| > 1, true) + (MembersText(members[1..], true, d) + k);
      MemberKeyIsKept(members[0], d, rest);
      ValueIsKept(members[0].value, d, rest);
      MembersAreKept(members[1..], d, k);
      MembersStepKept(members, d, k);
    }
  }

  lemma MembersStepKept(members: seq<Member>, d: nat, k: seq<byte>)
    requires members != []
    requires var rest := MemberEnd(|members| > 1, true) + (MembersText(members[1..], true, d) + k);
             && Minified(MemberText(members[0], true, d) + rest)
                == Quoted(members[0].key) + [COLON] + Minified(Text(members[0].value, true, d) + rest)
             && Minified(Text(members[0].value, true, d) + rest) == Text(members[0].value, false, d) + Minified(rest)
    requires Minified(MembersText(members[1..], true, d) + k) == MembersText(members[1..], false, d) + Minified(k)
    ensures Minified(MembersText(members, true, d) + k) == MembersText(members, false, d) + Minified(k)
  {
    hide Minified, Text, Quoted;
    var more := |members| > 1;
    var r1, r0 := MembersText(members[1..], true, d), MembersText(members[1..], false, d);
    var key, v0 := Quoted(members[0].key), Text(members[0].value, false, d);
    MemberEndIsKept(more, r1 + k);
    MembersTextSplit(members, true, d, k);
    assert MemberText(members[0], false, d) == key + [COLON] + v0;
    var m0, e0 := MemberText(members[0], false, d), MemberEnd(more, false);
    hide MemberText, MemberEnd;
    assert key + [COLON] + (v0 + (e0 + (r0 + Minified(k)))) == (key + [COLON] + v0) + e0 + r0 + Minified(k);
  }

  lemma MembersTextSplit(members: seq<Member>, f: bool, d: nat, k: seq<byte>)
    requires members != []
    ensures MembersText(members, f, d) + k
         == MemberText(members[0], f, d) + (MemberEnd(|members| > 1, f) + (MembersText(members[1..], f, d) + k))
  {
    hide MemberText, MemberEnd;
  }

  // ---------- values that do not survive

  /** The first byte of a printed value is not blank. */
  lemma FirstByteOfText(t: Json, f: bool, d: nat)
    ensures Text(t, f, d) != [] && Text(t, f, d)[0] > 32
  {
  }

  lemma {:induction false} ValueIsLost(t: Json, d: nat, k: seq<byte>)
    requires !Minifiable(t)
    ensures Diverges(Minified(Text(t, true, d) + k), Text(t, false, d))
    decreases t, 1
  {
    hide Minified, ItemsText, MembersText, Tabs, Diverges;
    match t
    case Arr(items) =>
      var i1, i0 := ItemsText(items, true, d + 1), ItemsText(items, false, d + 1);
      ItemsAreLost(items, d + 1, [RBRACKET] + k);
      ArrayIsLost(i1, i0, k);
    case Obj(members) =>
      var m1, m0 := MembersText(members, true, d + 1), MembersText(members, false, d + 1);
      MembersAreLost(members, d + 1, Indent(true, d) + [RBRACE] + k);
      ObjectIsLost(m1, m0, Indent(true, d) + [RBRACE], k);
      assert Opening(true) + m1 + (Indent(true, d) + [RBRACE]) == Text(t, true, d);
      assert Opening(false) + m0 + [RBRACE] == Text(t, false, d);
  }

  lemma ArrayIsLost(i1: seq<byte>, i0: seq<byte>, k: seq<byte>)
    requires Diverges(Minified(i1 + ([RBRACKET] + k)), i0)
    ensures Diverges(Minified([LBRACKET] + i1 + [RBRACKET] + k), [LBRACKET] + i0 + [RBRACKET])
  {
    hide Minified;
    assert [LBRACKET] + i1 + [RBRACKET] + k == [LBRACKET] + (i1 + ([RBRACKET] + k));
    PlainIsKept([LBRACKET], i1 + ([RBRACKET] + k));
    DivergesBehind([LBRACKET], Minified(i1 + ([RBRACKET] + k)), i0);
    DivergesBefore([LBRACKET] + Minified(i1 + ([RBRACKET] + k)), [LBRACKET] + i0, [RBRACKET]);
  }

  lemma ObjectIsLost(m1: seq<byte>, m0: seq<byte>, closing: seq<byte>, k: seq<byte>)
    requires Diverges(Minified(m1 + (closing + k)), m0 + [RBRACE])
    ensures Diverges(Minified(Opening(true) + m1 + closing + k), Opening(false) + m0 + [RBRACE])
  {
    hide Minified;
    assert Opening(true) + m1 + closing + k == [LBRACE] + ([NEWLINE] + (m1 + (closing + k)));
    PlainIsKept([LBRACE], [NEWLINE] + (m1 + (closing + k)));
    BlankIsDropped([NEWLINE], m1 + (closing + k));
    DivergesBehind([LBRACE], Minified(m1 + (closing + k)), m0 + [RBRACE]);
    Regroup([LBRACE], m0, [RBRACE]);
  }

  lemma {:induction false} ItemsAreLost(items: seq<Json>, d: nat, k: seq<byte>)
    requires !MinifiableItems(items)
    ensures Diverges(Minified(ItemsText(items, true, d) + k), ItemsText(items, false, d))
    decreases items, 0
  {
    if |items| == 1 {
      ValueIsLost(items[0], d, k);
    } else {
      var t0 := Text(items[0], false, d);
      var r1, r0 := ItemsText(items[1..], true, d), ItemsText(items[1..], false, d);
      var rest := [COMMA, SPACE] + (r1 + k);
      ItemsTextSplit(items, d, k);
      SeparatorIsKept(r1 + k);
      if !Minifiable(items[0]) {
        ValueIsLost(items[0], d, rest);
        DivergesBefore(Minified(Text(items[0], true, d) + rest), t0, [COMMA] + r0);
      } else {
        ValueIsKept(items[0], d, rest);
        if Dangling(items[0]) {
          FirstByteOfItems(items[1..], d);
          DanglingItemIsLost(t0, r1 + k, r0);
        } else {
          ItemsAreLost(items[1..], d, k);
          DivergesBehind([COMMA], Minified(r1 + k), r0);
          DivergesBehind(t0, [COMMA] + Minified(r1 + k), [COMMA] + r0);
        }
      }
    }
  }

  lemma ItemsTextSplit(items: seq<Json>, d: nat, k: seq<byte>)
    requires |items| > 1
    ensures ItemsText(items, true, d) + k
         == Text(items[0], true, d) + ([COMMA, SPACE] + (ItemsText(items[1..], true, d) + k))
    ensures ItemsText(items, false, d) == Text(items[0], false, d) + ([COMMA] + ItemsText(items[1..], false, d))
  {
    hide Text;
  }

  lemma FirstByteOfItems(items: seq<Json>, d: nat)
    requires items != []
    ensures ItemsText(items, false, d) != [] && ItemsText(items, false, d)[0] > 32
  {
    FirstByteOfText(items[0], false, d);
  }

  /** The blank after the comma is still inside the string. */
  lemma DanglingItemIsLost(t0: seq<byte>, k: seq<byte>, r0: seq<byte>)
    requires r0 != [] && r0[0] > 32
    ensures Diverges(t0 + InString([COMMA, SPACE] + k), t0 + ([COMMA] + r0))
  {
    SeparatorIsKept(k);
    hide InString, Minified;
    assert t0 + ([COMMA, SPACE] + InString(k)) == (t0 + [COMMA]) + [SPACE] + InString(k);
    assert t0 + ([COMMA] + r0) == (t0 + [COMMA]) + [r0[0]] + r0[1..];
    DivergesAt(t0 + [COMMA], SPACE, InString(k), r0[0], r0[1..]);
  }

  lemma {:induction false} MembersAreLost(members: seq<Member>, d: nat, k: seq<byte>)
    requires !MinifiableMembers(members)
    ensures Diverges(Minified(MembersText(members, true, d) + k), MembersText(members, false, d) + [RBRACE])
    decreases members, 0
  {
    var m, more := members[0], |members| > 1;
    var rest := MemberEnd(more, true) + (MembersText(members[1..], true, d) + k);
    var tail := MemberEnd(more, false) + (MembersText(members[1..], false, d) + [RBRACE]);
    if EndsInBackslash(m.key) {
      KeyIsLost(m, d, rest);
    } else {
      if !Minifiable(m.value) {
        ValueIsLost(m.value, d, rest);
      } else if Dangling(m.value) {
        DanglingMemberIsLost(members, d, k);
      } else {
        MembersAreLost(members[1..], d, k);
        MemberEndIsKept(more, MembersText(members[1..], true, d) + k);
        DivergesBehind(MemberEnd(more, false), Minified(MembersText(members[1..], true, d) + k),
                       MembersText(members[1..], false, d) + [RBRACE]);
      }
      hide Minified, InString, MembersText, MemberEnd;
      LaterIsLost(m, d, rest, tail);
    }
    hide Minified, InString, MembersText, MemberEnd, MemberText;
    MembersTextSplit(members, true, d, k);
    MembersTextSplit(members, false, d, [RBRACE]);
    if EndsInBackslash(m.key) {
      DivergesBefore(Minified(MemberText(m, true, d) + rest), MemberText(m, false, d), tail);
    }
  }

  /** Behind a key that is kept, what goes wrong in or after the value goes wrong in the whole. */
  lemma LaterIsLost(m: Member, d: nat, rest: seq<byte>, tail: seq<byte>)
    requires !EndsInBackslash(m.key)
    requires if Minifiable(m.value) then Diverges(After(Dangling(m.value), rest), tail)
             else Diverges(Minified(Text(m.value, true, d) + rest), Text(m.value, false, d))
    ensures Diverges(Minified(MemberText(m, true, d) + rest), MemberText(m, false, d) + tail)
  {
    hide Minified, Text, Quoted, Minifiable, Dangling, After, Diverges;
    var prefix, v0 := Quoted(m.key) + [COLON], Text(m.value, false, d);
    MemberKeyIsKept(m, d, rest);
    assert MemberText(m, false, d) == prefix + v0;
    if Minifiable(m.value) {
      ValueIsKept(m.value, d, rest);
      DivergesBehind(v0, After(Dangling(m.value), rest), tail);
    } else {
      DivergesBefore(Minified(Text(m.value, true, d) + rest), v0, tail);
    }
    DivergesBehind(prefix, Minified(Text(m.value, true, d) + rest), v0 + tail);
    Regroup(prefix, v0, tail);
  }

  /** The tab after the colon is still inside the key. */
  lemma KeyIsLost(m: Member, d: nat, k: seq<byte>)
    requires EndsInBackslash(m.key)
    ensures Diverges(Minified(MemberText(m, true, d) + k), MemberText(m, false, d))
  {
    FirstByteOfText(m.value, false, d);
    var v1, v0, key := Text(m.value, true, d) + k, Text(m.value, false, d), Quoted(m.key);
    hide Minified, InString, Text, Quoted;
    assert MemberText(m, true, d) + k == Tabs(d) + (key + ([COLON, TAB] + v1));
    BlankIsDropped(Tabs(d), key + ([COLON, TAB] + v1));
    QuotedIsKept(m.key, [COLON, TAB] + v1);
    OrdinaryIsKept([COLON, TAB], v1);
    assert key + ([COLON, TAB] + InString(v1)) == (key + [COLON]) + [TAB] + InString(v1);
    assert MemberText(m, false, d) == (key + [COLON]) + [v0[0]] + v0[1..];
    DivergesAt(key + [COLON], TAB, InString(v1), v0[0], v0[1..]);
  }

  lemma FirstByteOfMembers(members: seq<Member>, d: nat)
    requires members != []
    ensures MembersText(members, false, d) != [] && MembersText(members, false, d)[0] == QUOTE
  {
    hide Text, Escape;
    assert MemberText(members[0], false, d)[0] == QUOTE;
  }

  /** The line end after a member is still inside its value. */
  lemma DanglingMemberIsLost(members: seq<Member>, d: nat, k: seq<byte>)
    requires members != []
    ensures var more := |members| > 1;
            Diverges(InString(MemberEnd(more, true) + (MembersText(members[1..], true, d) + k)),
                     MemberEnd(more, false) + (MembersText(members[1..], false, d) + [RBRACE]))
  {
    var r1, r0 := MembersText(members[1..], true, d) + k, MembersText(members[1..], false, d) + [RBRACE];
    if |members| > 1 {
      FirstByteOfMembers(members[1..], d);
      assert r0[0] == QUOTE;
      assert MemberEnd(true, true) == [COMMA, NEWLINE] && MemberEnd(true, false) == [COMMA];
      OrdinaryIsKept([COMMA, NEWLINE], r1);
      assert [COMMA, NEWLINE] + InString(r1) == [COMMA] + [NEWLINE] + InString(r1);
      assert [COMMA] + r0 == [COMMA] + [r0[0]] + r0[1..];
      DivergesAt([COMMA], NEWLINE, InString(r1), r0[0], r0[1..]);
    } else {
      assert members[1..] == [];
      assert r0 == [RBRACE] && MemberEnd(false, true) == [NEWLINE] && MemberEnd(false, false) == [];
      OrdinaryIsKept([NEWLINE], r1);
      assert [NEWLINE] + InString(r1) == [] + [NEWLINE] + InString(r1);
      assert [] + r0 == [] + [RBRACE] + [];
      DivergesAt([], NEWLINE, InString(r1), RBRACE, []);
    }
  }

  // ---------- the theorem

  /**
    Minifying the formatted print gives byte for byte the unformatted print exactly when no key and
    no string ends in a backslash, one string that only closing brackets follow excepted.
   */
  lemma MinifyOfFormattedIsUnformatted(t: Json)
    ensures Minified(Text(t, true, 0)) == Text(t, false, 0) <==> Minifiable(t)
  {
    var t1, t0 := Text(t, true, 0), Text(t, false, 0);
    assert t1 + [] == t1;
    if Minifiable(t) {
      ValueIsKept(t, 0, []);
      assert t0 + After(Dangling(t), []) == t0;
    } else {
      ValueIsLost(t, 0, []);
    }
  }

  predicate NoBackslashEnds(t: Json)
    decreases t, 1
  {
    match t
    case Str(text) => !EndsInBackslash(text)
    case Arr(items) => forall i :: 0 <= i < |items| ==> NoBackslashEnds(items[i])
    case Obj(members) =>
      forall i :: 0 <= i < |members| ==> !EndsInBackslash(members[i].key) && NoBackslashEnds(members[i].value)
    case _ => true
  }

  /** In particular it does for every tree whose keys and strings do not end in a backslash. */
  lemma {:induction false} NoBackslashEndsIsEnough(t: Json)
    requires NoBackslashEnds(t)
    ensures Minifiable(t) && !Dangling(t)
    decreases t, 1
  {
    match t
    case Arr(items) =>
      NoBackslashEndsInItems(items);
    case Obj(members) =>
      NoBackslashEndsInMembers(members);
    case _ =>
  }

  lemma {:induction false} NoBackslashEndsInItems(items: seq<Json>)
    requires forall i :: 0 <= i < |items| ==> NoBackslashEnds(items[i])
    ensures MinifiableItems(items) && !DanglingItems(items)
    decreases items, 0
  {
    if items != [] {
      NoBackslashEndsIsEnough(items[0]);
      NoBackslashEndsInItems(items[1..]);
    }
  }

  lemma {:induction false} NoBackslashEndsInMembers(members: seq<Member>)
    requires forall i :: 0 <= i < |members| ==> !EndsInBackslash(members[i].key) && NoBackslashEnds(members[i].value)
    ensures MinifiableMembers(members)
    decreases members, 0
  {
    if members != [] {
      NoBackslashEndsIsEnough(members[0].value);
      NoBackslashEndsInMembers(members[1..]);
    }
  }
}
