/** What the minifier keeps of a text, token by token. */
module MinifyTokens {
  import opened Bytes
  import opened Minify

  /** A text taken apart from its start on. The last three constructors are cut off by its end. */
  datatype Tokens =
    | End
    | Blank(b: byte, rest: Tokens)
    | LineComment(line: seq<byte>, rest: Tokens)
    | BlockComment(body: seq<byte>, rest: Tokens)
    | LoneSlash(rest: Tokens)
    | Literal(content: seq<byte>, rest: Tokens)
    | Other(b: byte, rest: Tokens)
    | OpenLine(line: seq<byte>)
    | OpenBlock(body: seq<byte>)
    | OpenLiteral(content: seq<byte>)

  /** `*` and `/` side by side. */
  ghost predicate ClosesAt(s: seq<byte>, k: nat) {
    k + 1 < |s| && s[k] == 42 && s[k + 1] == 47
  }

  /** Every quote has a backslash just before it. */
  ghost predicate QuotesAreMarked(content: seq<byte>) {
    forall k :: 0 <= k < |content| && content[k] == 34 ==> k > 0 && content[k - 1] == 92
  }

  function Written(t: Tokens): seq<byte> {
    match t
    case End => []
    case Blank(b, rest) => [b] + Written(rest)
    case LineComment(line, rest) => [47, 47] + line + [10] + Written(rest)
    case BlockComment(body, rest) => [47, 42] + body + [42, 47] + Written(rest)
    case LoneSlash(rest) => [47] + Written(rest)
    case Literal(content, rest) => [34] + content + [34] + Written(rest)
    case Other(b, rest) => [b] + Written(rest)
    case OpenLine(line) => [47, 47] + line
    case OpenBlock(body) => [47, 42] + body
    case OpenLiteral(content) => [34] + content
  }

  ghost predicate AreTokens(t: Tokens) {
    match t
    case End => true
    case Blank(b, rest) => b in {32, 9, 10, 13} && AreTokens(rest)
    case LineComment(line, rest) => 10 !in line && AreTokens(rest)
    case BlockComment(body, rest) => (forall k :: !ClosesAt(body, k)) && AreTokens(rest)
    case LoneSlash(rest) => (Written(rest) == [] || Written(rest)[0] !in {47, 42}) && AreTokens(rest)
    case Literal(content, rest) =>
      QuotesAreMarked(content) && (content == [] || content[|content| - 1] != 92) && AreTokens(rest)
    case Other(b, rest) => b !in {32, 9, 10, 13, 47, 34} && AreTokens(rest)
    case OpenLine(line) => 10 !in line
    case OpenBlock(body) => forall k :: !ClosesAt(body, k)
    case OpenLiteral(content) => QuotesAreMarked(content)
  }

  /** Literals are kept as they are, blanks, comments and lone slashes are dropped. */
  function Kept(t: Tokens): seq<byte> {
    match t
    case End => []
    case Blank(_, rest) => Kept(rest)
    case LineComment(_, rest) => Kept(rest)
    case BlockComment(_, rest) => Kept(rest)
    case LoneSlash(rest) => Kept(rest)
    case Literal(content, rest) => [34] + content + [34] + Kept(rest)
    case Other(b, rest) => [b] + Kept(rest)
    case OpenLine(_) => []
    case OpenBlock(_) => []
    case OpenLiteral(content) => [34] + content
  }

  // ---------- comments

  lemma {:induction false} LineEnds(line: seq<byte>, r: seq<byte>)
    requires 10 !in line
    ensures AfterLine(line) == [] && AfterLine(line + [10] + r) == r
  {
    var s := line + [10] + r;
    if line == [] {
      assert s[0] == 10 && s[1..] == r;
    } else {
      assert s[0] == line[0] && s[1..] == line[1..] + [10] + r;
      LineEnds(line[1..], r);
    }
  }

  lemma {:induction false} BlockEnds(body: seq<byte>, r: seq<byte>)
    requires forall k :: !ClosesAt(body, k)
    ensures AfterBlock(body) == [] && AfterBlock(body + [42, 47] + r) == r
  {
    var s := body + [42, 47] + r;
    if body == [] {
      assert s[0] == 42 && s[1] == 47 && s[2..] == r;
    } else {
      assert !ClosesAt(body, 0);
      assert s[0] == body[0] && s[1] == (if |body| > 1 then body[1] else 42);
      assert s[1..] == body[1..] + [42, 47] + r;
      forall k: nat
        ensures !ClosesAt(body[1..], k)
      {
        assert !ClosesAt(body, k + 1);
      }
      BlockEnds(body[1..], r);
    }
  }

  // ---------- literals

  lemma TailIsMarked(content: seq<byte>, n: nat)
    requires QuotesAreMarked(content) && n <= |content| && (n < |content| ==> content[n] != 34)
    ensures QuotesAreMarked(content[n..])
  {
    forall k | 0 <= k < |content| - n && content[n..][k] == 34
      ensures k > 0 && content[n..][k - 1] == 92
    {
      assert content[n + k] == 34;
    }
  }

  /** Inside a literal, an unfinished one or one with its closing quote behind it. */
  lemma {:induction false} LiteralIsKept(content: seq<byte>, r: seq<byte>)
    requires QuotesAreMarked(content)
    ensures InString(content) == content
    ensures content == [] || content[|content| - 1] != 92 ==>
              InString(content + [34] + r) == content + [34] + Minified(r)
    decreases |content|
  {
    var s := content + [34] + r;
    if content == [] {
      assert s[0] == 34 && s[1..] == r;
    } else if content[0] == 92 && |content| > 1 && content[1] == 34 {
      PairIsKept(content, r);
    } else {
      assert s[0] == content[0] != 34 && s[1..] == content[1..] + [34] + r;
      assert content == [content[0]] + content[1..];
      TailIsMarked(content, 1);
      LiteralIsKept(content[1..], r);
      assert [content[0]] + (content[1..] + [34] + Minified(r)) == content + [34] + Minified(r);
    }
  }

  lemma {:induction false} PairIsKept(content: seq<byte>, r: seq<byte>)
    requires QuotesAreMarked(content) && |content| > 1 && content[0] == 92 && content[1] == 34
    ensures InString(content) == content
    ensures content[|content| - 1] != 92 ==> InString(content + [34] + r) == content + [34] + Minified(r)
    decreases |content|, 0
  {
    var s := content + [34] + r;
    assert s[0] == 92 && s[1] == 34 && s[2..] == content[2..] + [34] + r;
    assert content == [92, 34] + content[2..];
    TailIsMarked(content, 2);
    LiteralIsKept(content[2..], r);
    assert [92, 34] + (content[2..] + [34] + Minified(r)) == content + [34] + Minified(r);
  }

  // ---------- one token

  lemma ByteStep(b: byte, r: seq<byte>)
    ensures b in {32, 9, 10, 13} ==> Minified([b] + r) == Minified(r)
    ensures b == 47 && (r == [] || r[0] !in {47, 42}) ==> Minified([b] + r) == Minified(r)
    ensures b !in {32, 9, 10, 13, 47, 34} ==> Minified([b] + r) == [b] + Minified(r)
  {
    assert ([b] + r)[1..] == r;
  }

  lemma CommentStep(r: seq<byte>)
    ensures Minified([47, 47] + r) == Minified(AfterLine(r))
    ensures Minified([47, 42] + r) == Minified(AfterBlock(r))
  {
    assert ([47, 47] + r)[2..] == r && ([47, 42] + r)[2..] == r;
  }

  // ---------- every text

  /** The minified text is what is kept of the tokens of the text. */
  lemma {:induction false} MinifiedKeepsTokens(t: Tokens)
    requires AreTokens(t)
    ensures Minified(Written(t)) == Kept(t)
  {
    hide Minified, InString, AfterLine, AfterBlock;
    match t
    case End =>
      NothingIsKept();
    case Blank(b, rest) =>
      ByteStep(b, Written(rest));
      MinifiedKeepsTokens(rest);
    case LoneSlash(rest) =>
      ByteStep(47, Written(rest));
      MinifiedKeepsTokens(rest);
    case Other(b, rest) =>
      ByteStep(b, Written(rest));
      MinifiedKeepsTokens(rest);
    case LineComment(line, rest) =>
      MinifiedKeepsTokens(rest);
      LineIsDropped(line, Written(rest));
    case BlockComment(body, rest) =>
      MinifiedKeepsTokens(rest);
      BlockIsDropped(body, Written(rest));
    case Literal(content, rest) =>
      MinifiedKeepsTokens(rest);
      ClosedIsKept(content, Written(rest));
    case OpenLine(line) =>
      LineIsDropped(line, []);
    case OpenBlock(body) =>
      BlockIsDropped(body, []);
    case OpenLiteral(content) =>
      QuoteOpensString(content);
      LiteralIsKept(content, []);
  }

  lemma NothingIsKept()
    ensures Minified([]) == []
  {
  }

  lemma LineIsDropped(line: seq<byte>, r: seq<byte>)
    requires 10 !in line
    ensures Minified([47, 47] + line + [10] + r) == Minified(r) && Minified([47, 47] + line) == []
  {
    hide AfterLine, Minified;
    assert [47, 47] + line + [10] + r == [47, 47] + (line + [10] + r);
    CommentStep(line + [10] + r);
    CommentStep(line);
    LineEnds(line, r);
    NothingIsKept();
  }

  lemma BlockIsDropped(body: seq<byte>, r: seq<byte>)
    requires forall k :: !ClosesAt(body, k)
    ensures Minified([47, 42] + body + [42, 47] + r) == Minified(r) && Minified([47, 42] + body) == []
  {
    hide AfterBlock, Minified;
    assert [47, 42] + body + [42, 47] + r == [47, 42] + (body + [42, 47] + r);
    CommentStep(body + [42, 47] + r);
    CommentStep(body);
    BlockEnds(body, r);
    NothingIsKept();
  }

  lemma ClosedIsKept(content: seq<byte>, r: seq<byte>)
    requires QuotesAreMarked(content) && (content == [] || content[|content| - 1] != 92)
    ensures Minified([34] + content + [34] + r) == [34] + content + [34] + Minified(r)
  {
    hide Minified, InString;
    assert [34] + content + [34] + r == [34] + (content + [34] + r);
    QuoteOpensString(content + [34] + r);
    LiteralIsKept(content, r);
  }

  // ---------- and every text consists of tokens

  lemma {:induction false} LineIsFound(s: seq<byte>) returns (line: seq<byte>, closed: bool)
    ensures 10 !in line && |line| <= |s|
    ensures if closed then |line| < |s| && s == line + [10] + s[|line| + 1..] else s == line
  {
    if s == [] {
      return [], false;
    } else if s[0] == 10 {
      return [], true;
    }
    line, closed := LineIsFound(s[1..]);
    line := [s[0]] + line;
  }

  lemma {:induction false} BlockIsFound(s: seq<byte>) returns (body: seq<byte>, closed: bool)
    ensures forall k :: !ClosesAt(body, k)
    ensures if closed then |body| + 2 <= |s| && s == body + [42, 47] + s[|body| + 2..] else s == body
  {
    if ClosesAt(s, 0) {
      return [], true;
    } else if s == [] {
      return [], false;
    }
    var rest;
    rest, closed := BlockIsFound(s[1..]);
    body := [s[0]] + rest;
    forall k: nat
      ensures !ClosesAt(body, k)
    {
      if k == 0 {
        assert rest != [] ==> rest[0] == s[1];
      } else {
        assert !ClosesAt(rest, k - 1);
      }
    }
  }

  lemma {:induction false} LiteralIsFound(s: seq<byte>) returns (content: seq<byte>, closed: bool)
    ensures QuotesAreMarked(content)
    ensures if closed
            then && (content == [] || content[|content| - 1] != 92) && |content| < |s|
                 && s == content + [34] + s[|content| + 1..]
            else s == content
    decreases |s|
  {
    if s == [] {
      return [], false;
    } else if s[0] == 34 {
      return [], true;
    }
    var n := if s[0] == 92 && |s| > 1 && s[1] == 34 then 2 else 1;
    var rest;
    rest, closed := LiteralIsFound(s[n..]);
    content := s[..n] + rest;
    forall k | 0 <= k < |content| && content[k] == 34
      ensures k > 0 && content[k - 1] == 92
    {
      if k >= n {
        assert rest[k - n] == 34;
      }
    }
  }

  lemma {:induction false} EveryTextIsTokens(s: seq<byte>) returns (t: Tokens)
    ensures AreTokens(t) && Written(t) == s
    decreases |s|
  {
    if s == [] {
      return End;
    }
    var rest: Tokens;
    if s[0] == 34 {
      var content, closed := LiteralIsFound(s[1..]);
      if !closed {
        return OpenLiteral(content);
      }
      rest := EveryTextIsTokens(s[|content| + 2..]);
      return Literal(content, rest);
    } else if |s| > 1 && s[0] == 47 && s[1] == 47 {
      var line, closed := LineIsFound(s[2..]);
      if !closed {
        return OpenLine(line);
      }
      rest := EveryTextIsTokens(s[|line| + 3..]);
      return LineComment(line, rest);
    } else if |s| > 1 && s[0] == 47 && s[1] == 42 {
      var body, closed := BlockIsFound(s[2..]);
      if !closed {
        return OpenBlock(body);
      }
      rest := EveryTextIsTokens(s[|body| + 4..]);
      return BlockComment(body, rest);
    }
    rest := EveryTextIsTokens(s[1..]);
    t := if s[0] in {32, 9, 10, 13} then Blank(s[0], rest)
         else if s[0] == 47 then LoneSlash(rest) else Other(s[0], rest);
  }
}
