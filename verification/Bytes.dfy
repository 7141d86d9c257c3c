/** Bytes, C strings and machine integers, as the JSON engine sees them. */
module Bytes {
  type byte = b: int | 0 <= b < 256

  type int32 = n: int | -0x8000_0000 <= n < 0x8000_0000

  const INT_MAX: int := 0x7FFF_FFFF
  const INT_MIN: int := -0x8000_0000

  /** The bytes of a C string up to, and without, its terminating NUL. */
  type CString = s: seq<byte> | 0 !in s

  datatype Option<+T> = None | Some(value: T)

  const NUL: byte := 0
  const BACKSPACE: byte := 8
  const TAB: byte := 9
  const NEWLINE: byte := 10
  const FORMFEED: byte := 12
  const RETURN: byte := 13
  const SPACE: byte := 32
  const QUOTE: byte := 34
  const STAR: byte := 42
  const PLUS: byte := 43
  const COMMA: byte := 44
  const MINUS: byte := 45
  const DOT: byte := 46
  const SLASH: byte := 47
  const ZERO: byte := 48
  const NINE: byte := 57
  const COLON: byte := 58
  const LBRACKET: byte := 91
  const BACKSLASH: byte := 92
  const RBRACKET: byte := 93
  const LBRACE: byte := 123
  const RBRACE: byte := 125

  // The texts "null", "true" and "false".
  const NULL_TEXT: CString := [110, 117, 108, 108]
  const TRUE_TEXT: CString := [116, 114, 117, 101]
  const FALSE_TEXT: CString := [102, 97, 108, 115, 101]

  /** What a reader of a `char*` sees of the bytes stored behind it: the part before the first NUL. */
  function UpToNul(s: seq<byte>): (c: CString)
    ensures |c| <= |s| && c == s[..|c|]
    ensures |c| < |s| ==> s[|c|] == 0
    ensures 0 !in s ==> c == s
  {
    if s == [] || s[0] == 0 then [] else [s[0]] + UpToNul(s[1..])
  }

  /** `w` stands in `s` at index `i`. */
  ghost predicate At(s: seq<byte>, i: nat, w: seq<byte>) {
    i + |w| <= |s| && s[i..i + |w|] == w
  }

  lemma AtConcat(s: seq<byte>, i: nat, a: seq<byte>, b: seq<byte>)
    ensures At(s, i, a + b) <==> At(s, i, a) && At(s, i + |a|, b)
  {
    if At(s, i, a + b) {
      assert s[i..i + |a|] == s[i..i + |a + b|][..|a|] == a;
      assert s[i + |a|..i + |a| + |b|] == s[i..i + |a + b|][|a|..] == b;
    }
    if At(s, i, a) && At(s, i + |a|, b) {
      assert s[i..i + |a + b|] == s[i..i + |a|] + s[i + |a|..i + |a| + |b|];
    }
  }

  lemma AtIndex(s: seq<byte>, i: nat, w: seq<byte>)
    requires At(s, i, w)
    ensures forall k {:trigger w[k]} :: 0 <= k < |w| ==> s[i + k] == w[k]
  {
    forall k {:trigger w[k]} | 0 <= k < |w|
      ensures s[i + k] == w[k]
    {
      assert s[i..i + |w|][k] == w[k];
    }
  }

  lemma AtFirst(s: seq<byte>, i: nat, w: seq<byte>)
    requires At(s, i, w) && w != []
    ensures i < |s| && s[i] == w[0]
  {
    AtIndex(s, i, w);
    assert s[i + 0] == w[0];
  }

  /** `after` is `before` with the bytes of `w` stored from index `pos` on, and nothing else changed. */
  ghost predicate Stored(before: seq<byte>, after: seq<byte>, pos: nat, w: seq<byte>) {
    && |after| == |before|
    && pos + |w| <= |before|
    && (forall k {:trigger after[k]} :: 0 <= k < |after| ==>
          after[k] == if pos <= k < pos + |w| then w[k - pos] else before[k])
  }
}
