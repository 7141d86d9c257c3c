/** String literals: the scan that sizes the output, and the decoding that fills it. */
module StringLiteral {
  import opened Bytes
  import opened Utf16

  // ---------- pass one: find the closing quote and count the escapes

  function ScanEnd(s: seq<byte>, i: nat): (e: Option<nat>)
    requires i <= |s|
    ensures e.Some? ==> i <= e.value < |s| && s[e.value] == QUOTE
    decreases |s| - i
  {
    if i == |s| then None
    else if s[i] == QUOTE then Some(i)
    else if s[i] == BACKSLASH then
      if i + 1 >= |s| then None else ScanEnd(s, i + 2)
    else ScanEnd(s, i + 1)
  }

  /**
    How many escapes pass one counts in s[p..end]. `escaped` says that pass one met a backslash at
    p - 1 which starts an escape, so that it steps over p without looking.
   */
  function Escapes(s: seq<byte>, p: nat, end: nat, escaped: bool): nat
    requires p <= end <= |s|
    decreases end - p
  {
    if p == end then 0
    else if escaped then Escapes(s, p + 1, end, false)
    else if s[p] == BACKSLASH then 1 + Escapes(s, p + 1, end, true)
    else Escapes(s, p + 1, end, false)
  }

  /** Whether pass one steps over `q` without looking, when it is at `p` in state `escaped`. */
  function EscapedAt(s: seq<byte>, p: nat, q: nat, escaped: bool): bool
    requires p <= q <= |s|
    decreases q - p
  {
    if p == q then escaped else EscapedAt(s, p + 1, q, !escaped && s[p] == BACKSLASH)
  }

  lemma {:induction false} ScanEndIsNotEscaped(s: seq<byte>, i: nat)
    requires i <= |s| && ScanEnd(s, i).Some?
    ensures !EscapedAt(s, i, ScanEnd(s, i).value, false)
    decreases |s| - i
  {
    if s[i] == QUOTE {
    } else if s[i] == BACKSLASH {
      ScanEndIsNotEscaped(s, i + 2);
    } else {
      ScanEndIsNotEscaped(s, i + 1);
    }
  }

  /** Two escapes never start side by side: at most every other byte of a window starts one. */
  lemma {:induction false} EscapesInWindow(s: seq<byte>, p: nat, end: nat, escaped: bool, w: nat)
    requires p + w <= end <= |s|
    ensures var after := EscapedAt(s, p, p + w, escaped);
            && 2 * Escapes(s, p, end, escaped) + (if escaped then 1 else 0)
               <= 2 * Escapes(s, p + w, end, after) + w + (if after then 1 else 0)
            && EscapedAt(s, p, end, escaped) == EscapedAt(s, p + w, end, after)
    decreases w
  {
    if w > 0 {
      EscapesInWindow(s, p + 1, end, !escaped && s[p] == BACKSLASH, w - 1);
    }
  }

  /** How many backslashes stand in a row just before `q`, from `p` on. */
  function BackslashRun(s: seq<byte>, p: nat, q: nat): nat
    requires p <= q <= |s|
    decreases q
  {
    if q > p && s[q - 1] == 92 then 1 + BackslashRun(s, p, q - 1) else 0
  }

  /** The backslashes that start an escape: those after an even number of others in a row. */
  ghost function EscapeStarts(s: seq<byte>, p: nat, end: nat): set<nat>
    requires p <= end <= |s|
  {
    set q: nat | p <= q < end && s[q] == 92 && BackslashRun(s, p, q) % 2 == 0
  }

  lemma {:induction false} EscapedStep(s: seq<byte>, p: nat, q: nat, escaped: bool)
    requires p <= q < |s|
    ensures EscapedAt(s, p, q + 1, escaped) == (!EscapedAt(s, p, q, escaped) && s[q] == BACKSLASH)
    decreases q - p
  {
    if p < q {
      EscapedStep(s, p + 1, q, !escaped && s[p] == BACKSLASH);
    } else {
      assert EscapedAt(s, p + 1, p + 1, !escaped && s[p] == BACKSLASH) == (!escaped && s[p] == BACKSLASH);
    }
  }

  lemma {:induction false} EscapedExactlyAfterOddRun(s: seq<byte>, p: nat, q: nat)
    requires p <= q <= |s|
    ensures EscapedAt(s, p, q, false) <==> BackslashRun(s, p, q) % 2 == 1
    decreases q
  {
    if p < q {
      EscapedStep(s, p, q - 1, false);
      EscapedExactlyAfterOddRun(s, p, q - 1);
    }
  }

  lemma {:induction false} ScanEndIsFirstUnescaped(s: seq<byte>, i: nat, e: nat)
    requires i <= |s|
    ensures ScanEnd(s, i) == Some(e) <==>
              && i <= e < |s| && s[e] == QUOTE && !EscapedAt(s, i, e, false)
              && forall q :: i <= q < e && s[q] == QUOTE ==> EscapedAt(s, i, q, false)
    decreases |s| - i
  {
    if i < |s| && s[i] != QUOTE {
      if s[i] != BACKSLASH {
        ScanEndIsFirstUnescaped(s, i + 1, e);
      } else if i + 1 < |s| {
        assert EscapedAt(s, i, i + 1, false);
        assert forall q :: i + 2 <= q <= |s| ==> EscapedAt(s, i, q, false) == EscapedAt(s, i + 2, q, false);
        ScanEndIsFirstUnescaped(s, i + 2, e);
      }
    }
  }

  /** The closing quote is the first quote with an even number of backslashes in a row before it. */
  lemma ClosingQuoteExactly(s: seq<byte>, i: nat, e: nat)
    requires i <= |s|
    ensures ScanEnd(s, i) == Some(e) <==>
              && i <= e < |s| && s[e] == 34 && BackslashRun(s, i, e) % 2 == 0
              && forall q :: i <= q < e && s[q] == 34 ==> BackslashRun(s, i, q) % 2 == 1
  {
    ScanEndIsFirstUnescaped(s, i, e);
    hide ScanEnd, EscapedAt, BackslashRun;
    forall q | i <= q <= |s|
      ensures EscapedAt(s, i, q, false) <==> BackslashRun(s, i, q) % 2 == 1
    {
      EscapedExactlyAfterOddRun(s, i, q);
    }
  }

  lemma {:induction false} EscapesStep(s: seq<byte>, p: nat, q: nat, escaped: bool)
    requires p <= q < |s|
    ensures Escapes(s, p, q + 1, escaped) ==
            Escapes(s, p, q, escaped) + if s[q] == BACKSLASH && !EscapedAt(s, p, q, escaped) then 1 else 0
    decreases q - p
  {
    if p < q {
      EscapesStep(s, p + 1, q, !escaped && s[p] == BACKSLASH);
    } else {
      assert Escapes(s, p + 1, q + 1, !escaped && s[p] == BACKSLASH) == 0;
    }
  }

  /** Pass one counts each of them once. */
  lemma {:induction false} EscapesAreCounted(s: seq<byte>, p: nat, end: nat)
    requires p <= end <= |s|
    ensures Escapes(s, p, end, false) == |EscapeStarts(s, p, end)|
    decreases end
  {
    if p < end {
      EscapesAreCounted(s, p, end - 1);
      EscapesStep(s, p, end - 1, false);
      EscapedExactlyAfterOddRun(s, p, end - 1);
      var starts, before := EscapeStarts(s, p, end), EscapeStarts(s, p, end - 1);
      assert starts == if (end - 1) in starts then before + {end - 1} else before;
    } else {
      assert EscapeStarts(s, p, end) == {};
    }
  }

  /** Pass one as the source runs it: the index of the closing quote and the number of skipped bytes. */
  method ScanString(s: seq<byte>, start: nat) returns (ok: bool, end: nat, skipped: nat)
    requires start <= |s|
    ensures ok <==> ScanEnd(s, start).Some?
    ensures ok ==> end == ScanEnd(s, start).value && skipped == Escapes(s, start, end, false)
  {
    end, skipped := start, 0;
    while end < |s| && s[end] != QUOTE
      invariant start <= end <= |s|
      invariant ScanEnd(s, start) == ScanEnd(s, end)
      invariant forall q | end <= q <= |s| :: Escapes(s, start, q, false) == skipped + Escapes(s, end, q, false)
    {
      if s[end] == BACKSLASH {
        if end + 1 >= |s| {
          return false, end, skipped;
        }
        skipped := skipped + 1;
        end := end + 1;
      }
      end := end + 1;
    }
    ok := end < |s|;
  }

  // ---------- pass two: decode

  /** The bytes of a literal, or the index of the first escape that is refused. */
  datatype Decoding = Decoded(bytes: seq<byte>) | BadEscape(at: nat)

  function Prepend(b: seq<byte>, d: Decoding): Decoding {
    if d.Decoded? then Decoded(b + d.bytes) else d
  }

  lemma PrependTwice(a: seq<byte>, b: seq<byte>, d: Decoding)
    ensures Prepend(a, Prepend(b, d)) == Prepend(a + b, d)
  {
    if d.Decoded? {
      assert a + (b + d.bytes) == (a + b) + d.bytes;
    }
  }

  function SimpleEscape(b: byte): Option<byte> {
    if b == 98 then Some(BACKSPACE)
    else if b == 102 then Some(FORMFEED)
    else if b == 110 then Some(NEWLINE)
    else if b == 114 then Some(RETURN)
    else if b == 116 then Some(TAB)
    else if b == QUOTE || b == BACKSLASH || b == SLASH then Some(b)
    else None
  }

  /** Decodes s[p..end]. A last backslash that pass two takes for an escape reaches the quote at `end`. */
  function Decode(s: seq<byte>, p: nat, end: nat): (d: Decoding)
    requires p <= end + 1 && end < |s|
    ensures d.BadEscape? ==> p <= d.at < end
    decreases end + 1 - p
  {
    if p >= end then Decoded([])
    else if s[p] != BACKSLASH then Prepend([s[p]], Decode(s, p + 1, end))
    else if s[p + 1] == 117 then
      match LiteralAt(s, p, end)
      case Invalid => BadEscape(p)
      case Converted(length, codepoint) => Prepend(Utf8(codepoint), Decode(s, p + length, end))
    else
      match SimpleEscape(s[p + 1])
      case None => BadEscape(p)
      case Some(b) => Prepend([b], Decode(s, p + 2, end))
  }

  lemma NothingToDecode(s: seq<byte>, p: nat, end: nat)
    requires end <= p <= end + 1 && end < |s|
    ensures Decode(s, p, end) == Decoded([])
  {
  }

  lemma DecodePlain(s: seq<byte>, p: nat, end: nat)
    requires p < end < |s| && s[p] != BACKSLASH
    ensures Decode(s, p, end) == Prepend([s[p]], Decode(s, p + 1, end))
  {
  }

  lemma DecodeEnd(s: seq<byte>, p: nat, end: nat)
    requires p <= end + 1 && p >= end && end < |s|
    ensures forall b :: Prepend(b, Decode(s, p, end)) == Decoded(b)
  {
    forall b: seq<byte>
      ensures Prepend(b, Decode(s, p, end)) == Decoded(b)
    {
      assert b + [] == b;
    }
  }

  /** Room left before `p`'s share of the size estimate is used up. */
  function Room(s: seq<byte>, p: nat, end: nat, escaped: bool): int
    requires end <= |s|
  {
    if p <= end then end - p - Escapes(s, p, end, escaped) else 0
  }

  /** One step of pass two over `w` input bytes, out of step with pass one or not. */
  lemma RoomAfter(s: seq<byte>, p: nat, end: nat, escaped: bool, w: nat)
    requires p < end < |s| && w >= 1 && (p + w <= end || (w == 2 && s[p] == BACKSLASH))
    requires !EscapedAt(s, p, end, escaped)
    ensures p + w <= end ==> !EscapedAt(s, p + w, end, EscapedAt(s, p, p + w, escaped))
    ensures var after := p + w <= end && EscapedAt(s, p, p + w, escaped);
            var gain := Room(s, p, end, escaped) - Room(s, p + w, end, after);
            && (w == 1 && s[p] != BACKSLASH ==> gain >= 1)
            && (w == 2 ==> gain >= 1)
            && (w == 6 ==> gain >= 3)
            && (w == 12 ==> gain >= 6)
            && Room(s, p + w, end, after) >= 0
  {
    if p + w <= end {
      EscapesInWindow(s, p, end, escaped, w);
      EscapesInWindow(s, p + w, end, EscapedAt(s, p, p + w, escaped), end - p - w);
    } else {
      assert end == p + 1 && EscapedAt(s, p, end, escaped) == EscapedAt(s, p + 1, end, !escaped);
      assert escaped && Escapes(s, p, end, true) == Escapes(s, p + 1, end, false);
    }
  }

  /**
    The estimate of pass one is enough for pass two on every literal: content length less the
    escapes counted, even where malformed hexadecimal digits put the two passes out of step.
   */
  lemma {:induction false} DecodeFitsEstimate(s: seq<byte>, p: nat, end: nat, escaped: bool)
    requires p <= end < |s| && !EscapedAt(s, p, end, escaped)
    ensures Decode(s, p, end).Decoded? ==>
              |Decode(s, p, end).bytes| <= end - p - Escapes(s, p, end, escaped)
    decreases end - p
  {
    if p < end && Decode(s, p, end).Decoded? {
      hide EscapedAt, Escapes, LiteralAt;
      var w := if s[p] != BACKSLASH then 1 else if s[p + 1] == 117 then LiteralAt(s, p, end).length else 2;
      RoomAfter(s, p, end, escaped, w);
      if p + w <= end {
        DecodeFitsEstimate(s, p + w, end, EscapedAt(s, p, p + w, escaped));
      }
    }
  }

  /** The escape sequence at `p`, which starts with a backslash; `length` is 0 if it is refused. */
  method DecodeEscape(s: seq<byte>, p: nat, end: nat, output: array<byte>, pos: nat)
    returns (length: nat, pos': nat)
    requires p < end < |s| && s[p] == BACKSLASH
    requires pos + StepSize(s, p, end) <= output.Length
    modifies output
    ensures pos <= pos' <= pos + StepSize(s, p, end) && pos' <= output.Length
    ensures output[..pos] == old(output[..pos])
    ensures length == 0 ==> Decode(s, p, end) == BadEscape(p) && pos' == pos
    ensures length > 0 ==>
              && length == StepLength(s, p, end)
              && Decode(s, p, end) == Prepend(output[pos..pos'], Decode(s, p + length, end))
  {
    length := 2;
    if s[p + 1] == 117 {
      length, pos' := LiteralToUtf8(s, p, end, output, pos);
      if length > 0 {
        assert output[pos..pos'] == Utf8(LiteralAt(s, p, end).codepoint);
      }
    } else {
      match SimpleEscape(s[p + 1])
      case None =>
        return 0, pos;
      case Some(b) =>
        output[pos] := b;
        pos' := pos + 1;
        assert output[pos..pos'] == [b];
    }
  }

  /** How many input bytes the step at `p` uses, if it is not refused. */
  function StepLength(s: seq<byte>, p: nat, end: nat): nat
    requires p < end < |s|
  {
    if s[p] != BACKSLASH then 1
    else if s[p + 1] == 117 then (match LiteralAt(s, p, end) case Invalid => 0 case Converted(length, _) => length)
    else if SimpleEscape(s[p + 1]).Some? then 2
    else 0
  }

  /** How many output bytes it stores. */
  function StepSize(s: seq<byte>, p: nat, end: nat): nat
    requires p < end < |s|
  {
    if s[p] != BACKSLASH then 1
    else if s[p + 1] == 117 then
      (match LiteralAt(s, p, end) case Invalid => 0 case Converted(_, codepoint) => |Utf8(codepoint)|)
    else if SimpleEscape(s[p + 1]).Some? then 1
    else 0
  }

  lemma StepFitsRoom(s: seq<byte>, p: nat, end: nat, escaped: bool)
    requires p < end < |s| && !EscapedAt(s, p, end, escaped)
    ensures StepSize(s, p, end) <= Room(s, p, end, escaped)
    ensures var w := StepLength(s, p, end);
            var after := p + w <= end && EscapedAt(s, p, p + w, escaped);
            w > 0 ==>
              && (p + w <= end ==> !EscapedAt(s, p + w, end, after))
              && 0 <= Room(s, p + w, end, after) <= Room(s, p, end, escaped) - StepSize(s, p, end)
  {
    var w := StepLength(s, p, end);
    if w > 0 {
      RoomAfter(s, p, end, escaped, w);
    } else {
      EscapesInWindow(s, p, end, escaped, end - p);
    }
  }

  /**
    Pass two as the source runs it, into a buffer of the estimated size. `written` counts the
    bytes stored, on success and on failure alike; the terminator comes on top of them.
   */
  method DecodeString(s: seq<byte>, start: nat, end: nat, skipped: nat) returns (d: Decoding, written: nat)
    requires 1 <= start <= |s| && ScanEnd(s, start) == Some(end) && skipped == Escapes(s, start, end, false)
    ensures d == Decode(s, start, end)
    ensures written <= end - start - skipped
    ensures d.Decoded? ==> |d.bytes| == written
  {
    hide ScanEnd, Decode, LiteralAt;
    ScanEndIsNotEscaped(s, start);
    EscapesInWindow(s, start, end, false, end - start);
    var allocationLength := end - (start - 1) - skipped;
    var output := new byte[allocationLength + 1];
    var p, pos := start, 0;
    ghost var escaped := false;
    while p < end
      invariant start <= p <= end + 1
      invariant p <= end ==> !EscapedAt(s, p, end, escaped)
      invariant 0 <= pos <= pos + Room(s, p, end, escaped) <= end - start - skipped
      invariant Decode(s, start, end) == Prepend(output[..pos], Decode(s, p, end))
    {
      StepFitsRoom(s, p, end, escaped);
      ghost var before := output[..pos];
      ghost var length := StepLength(s, p, end);
      escaped := length > 0 && p + length <= end && EscapedAt(s, p, p + length, escaped);
      if s[p] != BACKSLASH {
        output[pos] := s[p];
        assert output[..pos + 1] == before + [s[p]];
        DecodePlain(s, p, end);
        PrependTwice(before, [s[p]], Decode(s, p + 1, end));
        p, pos := p + 1, pos + 1;
      } else {
        var sequenceLength, pos' := DecodeEscape(s, p, end, output, pos);
        if sequenceLength == 0 {
          return BadEscape(p), pos;
        }
        assert output[..pos'] == before + output[pos..pos'];
        PrependTwice(before, output[pos..pos'], Decode(s, p + sequenceLength, end));
        p, pos := p + sequenceLength, pos';
      }
    }
    output[pos] := NUL;
    DecodeEnd(s, p, end);
    d, written := Decoded(output[..pos]), pos;
  }

  // ---------- what a reader of the decoded text sees

  /** The output of the step at `p`. */
  function StepBytes(s: seq<byte>, p: nat, end: nat): seq<byte>
    requires p < end < |s| && StepLength(s, p, end) > 0
  {
    if s[p] != BACKSLASH then [s[p]]
    else if s[p + 1] == 117 then Utf8(LiteralAt(s, p, end).codepoint)
    else [SimpleEscape(s[p + 1]).value]
  }

  predicate IsNulEscape(s: seq<byte>, p: nat, end: nat)
    requires p < end < |s|
  {
    s[p] == BACKSLASH && s[p + 1] == 117 && LiteralAt(s, p, end) == Converted(6, 0)
  }

  /** Pass two comes to an escape for the code point 0. */
  predicate ReadsNulEscape(s: seq<byte>, p: nat, end: nat)
    requires p <= end + 1 && end < |s|
    decreases end + 1 - p
  {
    p < end && (IsNulEscape(s, p, end)
                || (StepLength(s, p, end) > 0 && ReadsNulEscape(s, p + StepLength(s, p, end), end)))
  }

  /** What is decoded before the first such escape. */
  function BeforeNulEscape(s: seq<byte>, p: nat, end: nat): seq<byte>
    requires p <= end + 1 && end < |s|
    decreases end + 1 - p
  {
    if p >= end || IsNulEscape(s, p, end) || StepLength(s, p, end) == 0 then []
    else StepBytes(s, p, end) + BeforeNulEscape(s, p + StepLength(s, p, end), end)
  }

  lemma DecodeStep(s: seq<byte>, p: nat, end: nat)
    requires p < end < |s| && Decode(s, p, end).Decoded?
    ensures StepLength(s, p, end) > 0 && p + StepLength(s, p, end) <= end + 1
    ensures Decode(s, p, end) == Prepend(StepBytes(s, p, end), Decode(s, p + StepLength(s, p, end), end))
  {
  }

  lemma StepIsNulFree(s: seq<byte>, p: nat, end: nat)
    requires p < end < |s| && s[p] != NUL && StepLength(s, p, end) > 0
    ensures if IsNulEscape(s, p, end) then StepBytes(s, p, end) == [NUL] else NUL !in StepBytes(s, p, end)
  {
  }

  lemma {:induction false} UpToNulAppend(a: seq<byte>, b: seq<byte>)
    requires NUL !in a
    ensures UpToNul(a + b) == a + UpToNul(b)
  {
    if a == [] {
      assert a + b == b;
    } else {
      assert (a + b)[1..] == a[1..] + b;
      UpToNulAppend(a[1..], b);
    }
  }

  /**
    A reader sees the decoded text up to the first escape for the code point 0, and all of it
    exactly if there is no such escape. The content of a literal holds no NUL of its own.
   */
  lemma {:induction false} TextIsWholeExactlyWithoutNulEscape(s: seq<byte>, p: nat, end: nat)
    requires p <= end + 1 && end < |s| && Decode(s, p, end).Decoded?
    requires forall k :: p <= k < end ==> s[k] != NUL
    ensures UpToNul(Decode(s, p, end).bytes) == BeforeNulEscape(s, p, end)
    ensures UpToNul(Decode(s, p, end).bytes) == Decode(s, p, end).bytes <==> !ReadsNulEscape(s, p, end)
    decreases end + 1 - p
  {
    hide Decode, StepBytes, IsNulEscape, StepLength;
    if p >= end {
      NothingToDecode(s, p, end);
    } else {
      DecodeStep(s, p, end);
      StepIsNulFree(s, p, end);
      var bytes, next := StepBytes(s, p, end), p + StepLength(s, p, end);
      var rest := Decode(s, next, end).bytes;
      if IsNulEscape(s, p, end) {
        assert (bytes + rest)[0] == NUL;
      } else {
        TextIsWholeExactlyWithoutNulEscape(s, next, end);
        UpToNulAppend(bytes, rest);
        assert (bytes + rest)[|bytes|..] == rest && (bytes + UpToNul(rest))[|bytes|..] == UpToNul(rest);
      }
    }
  }
}
