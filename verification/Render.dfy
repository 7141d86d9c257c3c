/** The text of a tree, as a function: what the buffer printer is meant to leave in its buffer. */
module Render {
  import opened Bytes
  import opened JsonTree

  // ---------- numbers

  function Digits(n: nat): (d: CString)
    ensures |d| >= 1
    ensures forall k :: 0 <= k < |d| ==> ZERO <= d[k] <= NINE
  {
    if n < 10 then [ZERO + n] else Digits(n / 10) + [ZERO + n % 10]
  }

  function Magnitude(n: int): nat {
    if n < 0 then -n else n
  }

  function Decimal(n: int32): CString {
    if n < 0 then [MINUS] + Digits(Magnitude(n)) else Digits(n)
  }

  lemma {:induction false} DigitsLength(n: nat, k: nat, bound: nat)
    requires bound == Power10(k) && n < bound && k >= 1
    ensures |Digits(n)| <= k
    decreases k
  {
    if n >= 10 {
      DigitsLength(n / 10, k - 1, bound / 10);
    }
  }

  function Power10(k: nat): (p: nat)
    ensures p > 0
  {
    if k == 0 then 1 else 10 * Power10(k - 1)
  }

  /** A 32-bit integer always fits the printer's 26-byte number buffer. */
  lemma DecimalLength(n: int32)
    ensures 1 <= |Decimal(n)| <= 11
  {
    assert Power10(5) == 100_000;
    assert Power10(10) == 10_000_000_000;
    DigitsLength(Magnitude(n), 10, 10_000_000_000);
  }

  // ---------- strings

  function HexDigit(d: nat): (b: byte)
    requires d < 16
    ensures b != 0
  {
    if d < 10 then ZERO + d else 87 + d
  }

  /** The bytes the writing pass produces for one input byte. */
  function EscapeByte(b: byte): (e: CString)
    requires b != 0
    ensures |e| >= 1
  {
    if b > 31 && b != QUOTE && b != BACKSLASH then [b]
    else if b == BACKSLASH then [BACKSLASH, BACKSLASH]
    else if b == QUOTE then [BACKSLASH, QUOTE]
    else if b == BACKSPACE then [BACKSLASH, 98]
    else if b == FORMFEED then [BACKSLASH, 102]
    else if b == NEWLINE then [BACKSLASH, 110]
    else if b == RETURN then [BACKSLASH, 114]
    else if b == TAB then [BACKSLASH, 116]
    else [BACKSLASH, 117, ZERO, ZERO, HexDigit(b / 16), HexDigit(b % 16)]
  }

  function Escape(s: CString): CString {
    if s == [] then [] else EscapeByte(s[0]) + Escape(s[1..])
  }

  function Quoted(s: CString): CString {
    [QUOTE] + Escape(s) + [QUOTE]
  }

  /** What the counting pass adds for one input byte. */
  function ExtraFor(b: byte): nat {
    if b in {QUOTE, BACKSLASH, BACKSPACE, FORMFEED, NEWLINE, RETURN, TAB} then 1
    else if b < 32 then 5
    else 0
  }

  function ExtraCharacters(s: seq<byte>): nat {
    if s == [] then 0 else ExtraFor(s[0]) + ExtraCharacters(s[1..])
  }

  /** The counting pass predicts exactly what the writing pass produces. */
  lemma {:induction false} CountingPassIsExact(s: CString)
    ensures |Escape(s)| == |s| + ExtraCharacters(s)
  {
    if s != [] {
      CountingPassIsExact(s[1..]);
    }
  }

  /** A zero count means the string can be copied as it is. */
  lemma {:induction false} NoExtraNoEscape(s: CString)
    requires ExtraCharacters(s) == 0
    ensures Escape(s) == s
  {
    if s != [] {
      NoExtraNoEscape(s[1..]);
    }
  }

  lemma {:induction false} EscapeAppend(a: CString, b: CString)
    ensures Escape(a + b) == Escape(a) + Escape(b)
  {
    if a == [] {
      assert a + b == b;
    } else {
      assert (a + b)[0] == a[0] && (a + b)[1..] == a[1..] + b;
      EscapeAppend(a[1..], b);
    }
  }

  // ---------- trees

  function Tabs(n: nat): (t: seq<byte>)
    ensures |t| == n
    ensures forall k :: 0 <= k < n ==> t[k] == TAB
  {
    if n == 0 then [] else [TAB] + Tabs(n - 1)
  }

  function ItemSeparator(formatted: bool): seq<byte> {
    if formatted then [COMMA, SPACE] else [COMMA]
  }

  function Opening(formatted: bool): seq<byte> {
    if formatted then [LBRACE, NEWLINE] else [LBRACE]
  }

  function Indent(formatted: bool, depth: nat): seq<byte> {
    if formatted then Tabs(depth) else []
  }

  function KeySeparator(formatted: bool): seq<byte> {
    if formatted then [COLON, TAB] else [COLON]
  }

  function MemberEnd(more: bool, formatted: bool): seq<byte> {
    (if more then [COMMA] else []) + (if formatted then [NEWLINE] else [])
  }

  /** The text of `t` printed while `depth` arrays and objects are open around it. */
  function Text(t: Json, formatted: bool, depth: nat): seq<byte>
    decreases t, 1
  {
    match t
    case Null => NULL_TEXT
    case False => FALSE_TEXT
    case True => TRUE_TEXT
    case Number(n) => Decimal(n)
    case Str(s) => Quoted(s)
    case Arr(items) => [LBRACKET] + ItemsText(items, formatted, depth + 1) + [RBRACKET]
    case Obj(members) =>
      Opening(formatted) + MembersText(members, formatted, depth + 1) + Indent(formatted, depth) + [RBRACE]
  }

  function ItemsText(items: seq<Json>, formatted: bool, depth: nat): seq<byte>
    decreases items, 0
  {
    if items == [] then []
    else if |items| == 1 then Text(items[0], formatted, depth)
    else Text(items[0], formatted, depth) + ItemSeparator(formatted) + ItemsText(items[1..], formatted, depth)
  }

  function MemberText(m: Member, formatted: bool, depth: nat): seq<byte>
    decreases m, 2
  {
    Indent(formatted, depth) + Quoted(m.key) + KeySeparator(formatted) + Text(m.value, formatted, depth)
  }

  function MembersText(members: seq<Member>, formatted: bool, depth: nat): seq<byte>
    decreases members, 0
  {
    if members == [] then []
    else
      MemberText(members[0], formatted, depth) + MemberEnd(|members| > 1, formatted) +
      MembersText(members[1..], formatted, depth)
  }

  lemma TextNotEmpty(t: Json, formatted: bool, depth: nat)
    ensures |Text(t, formatted, depth)| >= 1
  {
  }

  lemma {:induction false} TextIsNulFree(t: Json, f: bool, depth: nat)
    ensures NUL !in Text(t, f, depth)
    decreases t, 1
  {
    match t
    case Arr(items) =>
      ItemsTextIsNulFree(items, f, depth + 1);
    case Obj(members) =>
      MembersTextIsNulFree(members, f, depth + 1);
    case _ =>
  }

  lemma {:induction false} ItemsTextIsNulFree(items: seq<Json>, f: bool, depth: nat)
    ensures NUL !in ItemsText(items, f, depth)
    decreases items, 0
  {
    if items != [] {
      TextIsNulFree(items[0], f, depth);
      ItemsTextIsNulFree(items[1..], f, depth);
    }
  }

  lemma {:induction false} MembersTextIsNulFree(members: seq<Member>, f: bool, depth: nat)
    ensures NUL !in MembersText(members, f, depth)
    decreases members, 0
  {
    if members != [] {
      TextIsNulFree(members[0].value, f, depth);
      MembersTextIsNulFree(members[1..], f, depth);
    }
  }
}
