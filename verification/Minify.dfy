/** Minification of a C string, in place. */
module Minify {
  import opened Bytes

  predicate IsBlank(b: byte) {
    b == SPACE || b == TAB || b == RETURN || b == NEWLINE
  }

  /** What is left after a one-line comment, its line end included. */
  function AfterLine(r: seq<byte>): (rest: seq<byte>)
    ensures |rest| <= |r|
  {
    if r == [] then []
    else if r[0] == NEWLINE then r[1..]
    else AfterLine(r[1..])
  }

  /** What is left after a block comment. */
  function AfterBlock(r: seq<byte>): (rest: seq<byte>)
    ensures |rest| <= |r|
  {
    if r == [] then []
    else if r[0] == STAR && |r| > 1 && r[1] == SLASH then r[2..]
    else AfterBlock(r[1..])
  }

  /** The minified form of `r`, read outside a string. */
  function Minified(r: seq<byte>): (m: seq<byte>)
    ensures |m| <= |r|
    decreases |r|
  {
    if r == [] then []
    else if IsBlank(r[0]) then Minified(r[1..])
    else if r[0] == SLASH then
      if |r| > 1 && r[1] == SLASH then Minified(AfterLine(r[2..]))
      else if |r| > 1 && r[1] == STAR then Minified(AfterBlock(r[2..]))
      else Minified(r[1..])
    else if r[0] == QUOTE then [QUOTE] + InString(r[1..])
    else [r[0]] + Minified(r[1..])
  }

  /** The minified form of `r`, read inside a string. */
  function InString(r: seq<byte>): (m: seq<byte>)
    ensures |m| <= |r| && (r != [] ==> m != [] && m[0] == r[0])
    decreases |r|
  {
    if r == [] then []
    else if r[0] == QUOTE then [QUOTE] + Minified(r[1..])
    else if r[0] == BACKSLASH && |r| > 1 && r[1] == QUOTE then [BACKSLASH, QUOTE] + InString(r[2..])
    else [r[0]] + InString(r[1..])
  }

  /** One turn of the loop, and where it ends. */
  lemma MinifiedStep(r: seq<byte>)
    requires r != []
    ensures Minified(r) ==
            if IsBlank(r[0]) then Minified(r[1..])
            else if r[0] == SLASH then
              if |r| > 1 && r[1] == SLASH then Minified(AfterLine(r[2..]))
              else if |r| > 1 && r[1] == STAR then Minified(AfterBlock(r[2..]))
              else Minified(r[1..])
            else if r[0] == QUOTE then [QUOTE] + InString(r[1..])
            else [r[0]] + Minified(r[1..])
  {
  }

  lemma NothingIsLeft()
    ensures Minified([]) == []
  {
  }

  lemma QuoteOpensString(r: seq<byte>)
    ensures Minified([QUOTE] + r) == [QUOTE] + InString(r)
  {
    assert ([QUOTE] + r)[1..] == r;
  }

  /** Minifying twice is minifying once, on every text, unterminated strings and comments included. */
  lemma {:induction false} MinifyIsIdempotent(r: seq<byte>)
    ensures Minified(Minified(r)) == Minified(r)
    decreases |r|
  {
    if r == [] {
    } else if IsBlank(r[0]) {
      MinifyIsIdempotent(r[1..]);
    } else if r[0] == SLASH {
      MinifyIsIdempotent(
        if |r| > 1 && r[1] == SLASH then AfterLine(r[2..])
        else if |r| > 1 && r[1] == STAR then AfterBlock(r[2..])
        else r[1..]);
    } else if r[0] == QUOTE {
      InStringIsIdempotent(r[1..]);
      assert ([QUOTE] + InString(r[1..]))[1..] == InString(r[1..]);
    } else {
      MinifyIsIdempotent(r[1..]);
      assert ([r[0]] + Minified(r[1..]))[1..] == Minified(r[1..]);
    }
  }

  lemma {:induction false} InStringIsIdempotent(r: seq<byte>)
    ensures InString(InString(r)) == InString(r)
    decreases |r|
  {
    if r == [] {
    } else if r[0] == QUOTE {
      MinifyIsIdempotent(r[1..]);
      assert ([QUOTE] + Minified(r[1..]))[1..] == Minified(r[1..]);
    } else if r[0] == BACKSLASH && |r| > 1 && r[1] == QUOTE {
      InStringIsIdempotent(r[2..]);
      assert ([BACKSLASH, QUOTE] + InString(r[2..]))[2..] == InString(r[2..]);
    } else {
      InStringIsIdempotent(r[1..]);
      assert ([r[0]] + InString(r[1..]))[1..] == InString(r[1..]);
    }
  }

  // ---------- in place

  /** `json` holds the C string `text` from `i` on: its bytes from there and its NUL. */
  ghost predicate Reads(json: array<byte>, text: CString, i: nat)
    reads json
  {
    && i <= |text| < json.Length
    && json[|text|] == NUL
    && json[i..|text|] == text[i..]
  }

  lemma ReadsByte(json: array<byte>, text: CString, i: nat)
    requires Reads(json, text, i)
    ensures i < |text| ==> json[i] == text[i] != NUL && text[i..][0] == text[i] && text[i..][1..] == text[i + 1..]
    ensures i == |text| ==> json[i] == NUL
    ensures i + 1 < |text| ==>
              json[i + 1] == text[i + 1] != NUL && text[i..][1] == text[i + 1] && text[i..][2..] == text[i + 2..]
    ensures i + 1 == |text| ==> json[i + 1] == NUL
  {
    if i < |text| {
      assert json[i..|text|][0] == text[i..][0];
    }
    if i + 1 < |text| {
      assert json[i..|text|][1] == text[i..][1];
    }
  }

  lemma ReadsLater(json: array<byte>, text: CString, i: nat, j: nat)
    requires Reads(json, text, i) && i <= j <= |text|
    ensures Reads(json, text, j)
  {
    assert json[j..|text|] == json[i..|text|][j - i..];
    assert text[j..] == text[i..][j - i..];
  }

  method SkipOnelineComment(json: array<byte>, ghost text: CString, i: nat) returns (j: nat)
    requires Reads(json, text, i) && i + 2 <= |text|
    ensures i + 2 <= j <= |text| && text[j..] == AfterLine(text[i + 2..])
  {
    j := i + 2;
    ReadsLater(json, text, i, j);
    ReadsByte(json, text, j);
    while json[j] != NUL
      invariant i + 2 <= j <= |text| && Reads(json, text, j)
      invariant AfterLine(text[j..]) == AfterLine(text[i + 2..])
      decreases |text| - j
    {
      ReadsByte(json, text, j);
      if json[j] == NEWLINE {
        return j + 1;
      }
      ReadsLater(json, text, j, j + 1);
      j := j + 1;
    }
    ReadsByte(json, text, j);
  }

  method SkipMultilineComment(json: array<byte>, ghost text: CString, i: nat) returns (j: nat)
    requires Reads(json, text, i) && i + 2 <= |text|
    ensures i + 2 <= j <= |text| && text[j..] == AfterBlock(text[i + 2..])
  {
    j := i + 2;
    ReadsLater(json, text, i, j);
    ReadsByte(json, text, j);
    while json[j] != NUL
      invariant i + 2 <= j <= |text| && Reads(json, text, j)
      invariant AfterBlock(text[j..]) == AfterBlock(text[i + 2..])
      decreases |text| - j
    {
      ReadsByte(json, text, j);
      if json[j] == STAR && json[j + 1] == SLASH {
        return j + 2;
      }
      ReadsLater(json, text, j, j + 1);
      j := j + 1;
    }
    ReadsByte(json, text, j);
  }

  /** What the in-place run keeps: the output so far ends at or before the byte to be read next. */
  ghost predicate Writes(json: array<byte>, text: CString, i: nat, into: nat, rest: seq<byte>, whole: seq<byte>)
    reads json
  {
    Reads(json, text, i) && into <= i && json[..into] + rest == whole
  }

  /** Copies one byte from the read to the write position. */
  method CopyByte(
    json: array<byte>, ghost text: CString, i: nat, into: nat, ghost rest: seq<byte>, ghost whole: seq<byte>)
    requires i < |text| && Writes(json, text, i, into, [text[i]] + rest, whole)
    modifies json
    ensures Writes(json, text, i + 1, into + 1, rest, whole)
    ensures forall k :: |text| < k < json.Length ==> json[k] == old(json[k])
  {
    ReadsByte(json, text, i);
    ReadsLater(json, text, i, i + 1);
    json[into] := json[i];
    assert json[i + 1..|text|] == old(json[i + 1..|text|]);
    assert json[..into + 1] + rest == old(json[..into]) + ([text[i]] + rest);
  }

  /** One turn of the loop over the bytes of a string; `closed` says that the closing quote was copied. */
  method MinifyStringByte(json: array<byte>, ghost text: CString, i: nat, into: nat, ghost whole: seq<byte>)
    returns (i': nat, into': nat, closed: bool)
    requires i < |text| && Writes(json, text, i, into, InString(text[i..]), whole)
    modifies json
    ensures i < i' <= |text|
    ensures Writes(json, text, i', into', if closed then Minified(text[i'..]) else InString(text[i'..]), whole)
    ensures forall k :: |text| < k < json.Length ==> json[k] == old(json[k])
  {
    ReadsByte(json, text, i);
    var b := json[i];
    closed := b == QUOTE;
    var escape := b == BACKSLASH && json[i + 1] == QUOTE;
    ghost var rest := if closed then Minified(text[i + 1..])
                      else if escape then [QUOTE] + InString(text[i + 2..])
                      else InString(text[i + 1..]);
    assert InString(text[i..]) == [text[i]] + rest;
    hide Minified, InString;
    CopyByte(json, text, i, into, rest, whole);
    i', into' := i + 1, into + 1;
    if escape {
      CopyByte(json, text, i', into', InString(text[i' + 1..]), whole);
      i', into' := i' + 1, into' + 1;
    }
  }

  method MinifyString(json: array<byte>, ghost text: CString, i: nat, into: nat, ghost whole: seq<byte>)
    returns (i': nat, into': nat)
    requires i < |text| && text[i] == QUOTE && Writes(json, text, i, into, Minified(text[i..]), whole)
    modifies json
    ensures i < i' <= |text| && Writes(json, text, i', into', Minified(text[i'..]), whole)
    ensures forall k :: |text| < k < json.Length ==> json[k] == old(json[k])
  {
    ReadsByte(json, text, i);
    CopyByte(json, text, i, into, InString(text[i + 1..]), whole);
    i', into' := i + 1, into + 1;
    ReadsByte(json, text, i');
    while json[i'] != NUL
      invariant i < i' <= |text| && Writes(json, text, i', into', InString(text[i'..]), whole)
      invariant forall k :: |text| < k < json.Length ==> json[k] == old(json[k])
      decreases |text| - i'
    {
      ReadsByte(json, text, i');
      var closed;
      i', into', closed := MinifyStringByte(json, text, i', into', whole);
      if closed {
        return;
      }
    }
    ReadsByte(json, text, i');
  }

  /**
    Minifies the C string `text` in the array it stands in. The write position `into` stays at or
    before the read position throughout; nothing behind the old terminator changes.
   */
  method MinifyInPlace(json: array<byte>, ghost text: CString)
    requires Reads(json, text, 0)
    modifies json
    ensures |Minified(text)| <= |text| < json.Length
    ensures json[..|Minified(text)|] == Minified(text) && json[|Minified(text)|] == NUL
    ensures forall k :: |text| < k < json.Length ==> json[k] == old(json[k])
  {
    hide Minified, InString, AfterLine, AfterBlock;
    NothingIsLeft();
    var i, into := 0, 0;
    ghost var whole := Minified(text);
    assert text[0..] == text && json[..0] + whole == whole;
    ReadsByte(json, text, 0);
    while json[i] != NUL
      invariant 0 <= into <= i <= |text| && Writes(json, text, i, into, Minified(text[i..]), whole)
      invariant forall k :: |text| < k < json.Length ==> json[k] == old(json[k])
      decreases |text| - i
    {
      ReadsByte(json, text, i);
      var b := json[i];
      MinifiedStep(text[i..]);
      if IsBlank(b) {
        ReadsLater(json, text, i, i + 1);
        i := i + 1;
      } else if b == SLASH {
        var j := i + 1;
        if json[i + 1] == SLASH {
          j := SkipOnelineComment(json, text, i);
        } else if json[i + 1] == STAR {
          j := SkipMultilineComment(json, text, i);
        }
        ReadsLater(json, text, i, j);
        i := j;
      } else if b == QUOTE {
        i, into := MinifyString(json, text, i, into, whole);
      } else {
        CopyByte(json, text, i, into, Minified(text[i + 1..]), whole);
        i, into := i + 1, into + 1;
      }
    }
    ReadsByte(json, text, i);
    json[into] := NUL;
  }
}
