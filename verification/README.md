# Verification of the key-shard service's JSON engine and context registry

The service generates threshold RSA key shards inside an SGX enclave. Every request and reply passes
through a vendored JSON engine (`Enclave/json/cJSON.c`) and its facade (`Enclave/json/json.cpp`); every
generation task lives in a registry of contexts that the enclave and the host update from many threads
(`Enclave/Enclave.cpp`, `Enclave/tasks/GenerateTask.cpp`, `App/server/msg_handler.cpp`). This project
models both in Dafny and proves what they are relied upon for.

`dafny verify dfyconfig.toml` checks the project.

## How it is built

The engine's buffers, cursors and node chains are modelled as the source has them: classes whose methods
update an offset, a growing array or the `next` and `prev` links. Each method is proved against a pure
function of values, and the theorems are about those functions. What the functions mean is stated apart from
them, in bytes: which texts stand for a tree (`Language.dfy`), how strings and numbers are written
(`StringSyntax.dfy`, `NumberSyntax.dfy`), how a print is laid out (`Layout.dfy`), what a minifier keeps
(`MinifyTokens.dfy`).

| file | what it models |
|---|---|
| `Bytes.dfy`, `JsonTree.dfy` | bytes, C strings, int32; trees and their nesting |
| `Render.dfy`, `Printer.dfy` | the pure rendering; the print buffer with `ensure` and `update_offset` |
| `Bits.dfy`, `Utf16.dfy`, `StringLiteral.dfy`, `NumberText.dfy` | `\u` escapes, the two passes over a string literal, number tokens |
| `StringSyntax.dfy`, `NumberSyntax.dfy` | strings and numbers after RFC 8259, and what they are read as |
| `Grammar.dfy`, `Parser.dfy`, `RoundTrip.dfy` | the pure parser; the parser over a cursor; parse after print |
| `Language.dfy`, `Layout.dfy` | exactly which texts are accepted; how a printed text is laid out |
| `Minify.dfy`, `MinifyTokens.dfy` | the in-place minifier; what it keeps of any text, token by token |
| `MinifyPrint.dfy` | minify after formatted print |
| `MinifyParse.dfy`, `MinifyLiteral.dfy` | parse after minify: whole texts; any one literal |
| `Compare.dfy` | lookup and structural comparison |
| `Chain.dfy`, `ItemTree.dfy` | doubly linked child chains; chains of chains and their recursive copy |
| `Facade.dfy` | `JSON::Root` and `JSON::Value` |
| `KeyList.dfy` | the string both sides hash into a request key |
| `Registry.dfy`, `Enclave.dfy` | the registry as a step system over many tasks; the code that takes the steps |

## What turned out

- Printing and parsing are inverse exactly up to a nesting of 1000: the printer has no limit, the parser
  refuses one level more (`RoundTrip.PrintParseRoundTrip`).
- The parser accepts exactly the texts described in `Language.dfy`: JSON with bytes up to 32 as blanks, and
  anything behind the value unless the end is demanded (`Language.AcceptedExactly`). A number is cut after
  63 characters and the rest of it is left in the text (`NumberSyntax.LongNumberIsCut`).
- `cJSON_PrintPreallocated` needs the rendered length plus 2 bytes, for every tree and both formats. The
  header advises 5 bytes more (`Enclave/json/cJSON.h:160`); the model follows the code.
- `cJSON_Minify` takes the quote behind any backslash for an escaped one, also when the backslash is
  itself escaped. Minifying a formatted print therefore goes wrong for strings that end in a backslash,
  unless only closing brackets follow (`MinifyPrint.MinifyOfFormattedIsUnformatted` is exact).
- A `\u` escape of 6 bytes whose four digits are malformed is read as code point 0. Like a proper `\u0000` it
  ends the delivered string where it stands: the string is whole exactly if pass two reads no escape for code
  point 0 (`Grammar.StringIsWholeExactlyWithoutNulEscape`). A malformed second half of a surrogate pair and an
  escape cut off by the closing quote are refused (`Utf16.ConvertedExactlyIfSpelledOrMalformed`).
- Let no literal of a text have a backslash before its closing quote. If the text is accepted to its end, it
  keeps its tree when it is minified (`MinifyParse.MinifiedTextParsesAlike`). If bytes follow the value, it
  keeps its tree exactly if the tree is no number, or the number joined with what follows reads the same
  (`MinifyParse.MinifiedTextKeepsTreeExactly`): `12 3` reads 12 before and 123 afterwards.
- One literal before a string with a blank does harm exactly if it ends in a backslash: the text `["c","a b"]`
  then becomes `["c","ab"]`, for every content c that the parser accepts, and keeps its tree for every other
  one (`MinifyLiteral.LiteralIsHarmlessExactlyIfClear`). For whole texts the condition is sufficient but not
  necessary: a blank lost where no reader sees it, behind an escape for code point 0, does no harm
  (`MinifyLiteral.HiddenBlankMayBeLost`).
- A tree is equal to a copy of itself exactly if members of one object whose keys match hold equal values
  (`Compare.EqualToItsCopyExactlyIfCoherent`); with distinct keys comparison is equality up to the order of
  members.
- The string that is hashed tells key lists apart exactly when all allowed keys have one positive length
  (`KeyList.ListsAreToldApartExactlyByOneLength`).
- The registry is safe under two assumptions: no task inserts a key that another one inserted since its
  duplicate check (the lock is released between `Enclave/tasks/GenerateTask.cpp:90` and `:100`), and
  `ecall_create_report` does not take its failure path. Each is necessary: `Registry.SafetyNeedsInsertsAlone`
  and `Registry.SafetyNeedsReports` give, for every key, a run with only that one dropped which leaves a
  task writing through a freed context. A step keeps the invariant exactly if it meets both.
- The entry of a finished task stays for 5 seconds and goes at the first clear after them; one that ended in an
  error goes at the first clear (`Registry.EndedEntryStaysExactlyWhileAlive`).
- A reply that is lost on its way to the host leaves its context in the status Reporting for good, and its
  key is refused from then on (`Registry.LostReplyBlocksItsKey`). Under the two assumptions it is
  the only way a task can end and leave an entry that no later clear removes (`Registry.EntryStaysForGoodExactlyIfReplyLost`).
- A list assigned through the facade drops the Roots that were parsed rather than built, and an assignment
  through a parsed Root does nothing (`Facade.Value.AssignList`, `Facade.Root.At`).
- Two edits for SGX cannot be meant as they stand, the call at `Enclave/json/cJSON.c:526` and the size
  argument at `Enclave/json/cJSON.c:968`; the model follows the lines they replaced, `:521` and `:967`.

## Model

| member | source | states |
|---|---|---|
| `Render.DecimalLength` | Enclave/json/cJSON.c:488-564 | An int32 prints as 1 to 11 digits and sign, so it fits the 26-byte number buffer. |
| `Render.CountingPassIsExact` | Enclave/json/cJSON.c:884-978 | For every NUL-free string the counting pass predicts exactly the bytes the escaping pass writes, so quote and NUL land directly behind the last of them. |
| `Render.NoExtraNoEscape` | Enclave/json/cJSON.c:916-925 | When the count is 0 the escaped form is the string itself, which justifies the plain copy. |
| `Render.TextIsNulFree` | Enclave/json/cJSON.c:1300-1759 | The text of a tree holds no NUL, so `strlen` finds its end. |
| `Utf16.Hex4IsTheSpelledWord` | Enclave/json/cJSON.c:567-600 | Four bytes are read as v if and only if they are the four hexadecimal digits of v, taken from a table of the digits in either case by division of v; other bytes give 0. |
| `Utf16.ParseHex4` | Enclave/json/cJSON.c:567-600 | The loop gives the number whose digits, in either case, the four bytes are, and 0 if they are the digits of none. |
| `Utf16.Utf8RoundTrip` | Enclave/json/cJSON.c:667-716 | Decoding, by the table in section 3 of RFC 3629, the bytes written for any scalar value gives it back with its length. |
| `Utf16.LiteralAt` | Enclave/json/cJSON.c:604-665 | A literal that is converted takes 6 or 12 bytes inside the string, 12 exactly for a code point beyond 0xFFFF, and never denotes a surrogate or a value over 0x10FFFF. |
| `Utf16.LiteralDenotesItsCodePoint` | Enclave/json/cJSON.c:604-722 | Every converted literal is written with the digits of the UTF-16 encoding (section 2.1 of RFC 2781) of its code point, or is a malformed one of 6 bytes read as code point 0; the UTF-8 bytes decode to the code point. |
| `Bits.ContinuationByte` | Enclave/json/cJSON.c:700-705 | Setting the bit 0x80 and masking with 0xBF, the operators defined digit by binary digit, gives 0x80 plus the six low digits of c. |
| `Bits.LeadByte` | Enclave/json/cJSON.c:706-714 | Joining c with the mark and masking with 0xFF gives the mark plus c when c fits below the mark. |
| `Bits.PairDigits` | Enclave/json/cJSON.c:658-659 | The masks, the shift and the bitwise or of a surrogate pair put the ten low digits of both words side by side. |
| `Utf16.ConvertedExactlyIfSpelledOrMalformed` | Enclave/json/cJSON.c:604-665 | A literal is converted to a code point if and only if it is written with the digits of the UTF-16 encoding of that scalar value, in one word or in two with `\u` between them, or its first four bytes are the digits of no number, it is 6 bytes long and the code point is 0; everything else is refused, unpaired surrogates included. |
| `Utf16.EncodeUtf8` | Enclave/json/cJSON.c:667-716 | The loop from the last byte to the first stores exactly the UTF-8 bytes and nothing else; the out-of-range branch is unreachable. |
| `Utf16.LiteralToUtf8` | Enclave/json/cJSON.c:604-722 | The converter returns the literal's length and stores its bytes, or returns 0 and writes nothing. |
| `StringLiteral.ScanString` | Enclave/json/cJSON.c:738-760 | The scanning pass stops at the first quote outside an escape and counts the escapes before it, or reports that there is none. |
| `StringLiteral.ClosingQuoteExactly` | Enclave/json/cJSON.c:738-760 | The closing quote is the first quote with an even number of backslashes in a row before it, and there is none exactly if there is no such quote. |
| `StringLiteral.EscapesAreCounted` | Enclave/json/cJSON.c:744-754 | The count of pass one is the number of backslashes with an even number of others in a row before them. |
| `StringLiteral.DecodeFitsEstimate` | Enclave/json/cJSON.c:762-829 | For every literal, also when decoding falls out of step with scanning, a successful decoding has at most content length minus counted escapes bytes. |
| `StringLiteral.StepFitsRoom` | Enclave/json/cJSON.c:773-826 | Every turn of the decoding loop writes no more than what the estimate still allows for. |
| `StringLiteral.DecodeEscape` | Enclave/json/cJSON.c:782-824 | One escape sequence: the bytes it stands for are appended, earlier output is kept, and a malformed one writes nothing. |
| `StringLiteral.DecodeString` | Enclave/json/cJSON.c:762-829 | The decoding loop computes the decoding and, whether it succeeds or fails part way, never writes beyond the estimated size; every read is inside the text. |
| `StringSyntax.LiteralIsRead` | Enclave/json/cJSON.c:725-851 | Every string of section 7 of RFC 8259, an arbitrary sequence of plain bytes, the eight escapes of one letter and `\u` escapes in either case, single or paired, is read as the bytes its elements stand for, up to the first NUL among them. |
| `StringSyntax.EscapeIsRefusedExactly` | Enclave/json/cJSON.c:782-824 | An escape is refused if and only if its letter is none of the eight and no `u`, or if it is a `\u` escape that spells no scalar value and is not one of the malformed ones read as code point 0. |
| `StringLiteral.TextIsWholeExactlyWithoutNulEscape` | Enclave/json/cJSON.c:771-834 | A reader of the decoded string sees what is decoded before the first escape for code point 0, and all that is decoded if and only if pass two reads no such escape. |
| `Grammar.StringIsWholeExactlyWithoutNulEscape` | Enclave/json/cJSON.c:725-851 | The same for every string the parser delivers from a C string. |
| `NumberText.TokenLength` | Enclave/json/cJSON.c:296-326 | The copied token is the longest run of number characters, cut at 63. |
| `NumberText.CopyNumber` | Enclave/json/cJSON.c:296-326 | The copying loop gives exactly that token. |
| `NumberText.StrtodOfDecimal` | Enclave/json/cJSON.c:328-332 | `strtod` takes the whole of a printed int32 and reads its value. |
| `NumberText.NumberRoundTrip` | Enclave/json/cJSON.c:280-354 | Every int32, printed and followed by a byte that is no number character, is parsed back and the offset ends behind it. |
| `NumberSyntax.DigitsNameTheNumber` | Enclave/json/cJSON.c:488-564 | The printed digit at each decimal place is the one that division by powers of ten gives, without leading zeros. |
| `NumberSyntax.NumeralIsRead` | Enclave/json/cJSON.c:280-354 | Every number of section 6 of RFC 8259 with at most 63 characters, given by its digits, fraction and exponent, is read as its value truncated toward zero and saturated to 32 bits. |
| `NumberSyntax.LongNumberIsCut` | Enclave/json/cJSON.c:296-326 | Of a run of more than 63 digits the first 63 are read and the rest is left. |
| `Grammar.SkipWhitespace` | Enclave/json/cJSON.c:996-1014 | The skip stops at the first byte over 32 or at the last byte of the buffer, never beyond it. |
| `Grammar.ParseValue` | Enclave/json/cJSON.c:1245-1297 | Success moves strictly forward and stays below the length; a failure position lies within the buffer. |
| `Grammar.Parse` | Enclave/json/cJSON.c:1033-1110 | Every text gives a tree and an end, or an error position inside the text; with a required terminator the end is the terminator. |
| `Parser.ParseBuffer.SkipWhitespace` | Enclave/json/cJSON.c:996-1014 | The cursor ends where the specification says and the buffer stays valid. |
| `Parser.ParseBuffer.SkipByteOrderMark` | Enclave/json/cJSON.c:1017-1030 | Skips the mark only when it is there in full and at offset 0. |
| `Parser.ParseBuffer.ParseString` | Enclave/json/cJSON.c:725-851 | Both passes together compute the specified string, offset and error position. |
| `Parser.ParseBuffer.ParseNumber` | Enclave/json/cJSON.c:280-354 | Token, conversion and saturation compute the specified number and offset. |
| `Parser.ParseBuffer.ParseValue` | Enclave/json/cJSON.c:1245-1297 | Recursive descent refines the pure parser: same tree, same end, same error position; depth is restored on success and the cursor has moved forward. |
| `Parser.ParseBuffer.ParseArray` | Enclave/json/cJSON.c:1383-1474 | As above for arrays, with the depth check before anything is read. |
| `Parser.ParseBuffer.ParseItemList` | Enclave/json/cJSON.c:1417-1455 | The loop over elements collects exactly the specified items and ends behind the bracket. |
| `Parser.ParseBuffer.ParseObject` | Enclave/json/cJSON.c:1539-1645 | As above for objects. |
| `Parser.ParseBuffer.ParseMemberList` | Enclave/json/cJSON.c:1571-1627 | The loop over members collects exactly the specified members in order. |
| `Parser.ParseBuffer.ParseMember` | Enclave/json/cJSON.c:1595-1619 | Name, colon and value, each with the white space around it. |
| `Parser.ParseWithOpts` | Enclave/json/cJSON.c:1033-1110 | The imperative parser terminates on every text and equals the pure one; the reported position is at most the length of the text. |
| `RoundTrip.StringRoundTrip` | Enclave/json/cJSON.c:725-978 | Every NUL-free string is read back from its printed form. |
| `RoundTrip.ValueRoundTrip` | Enclave/json/cJSON.c:1245-1759 | Anywhere in a text and at any depth, the printed form of a tree is parsed to its end into that tree, or refused if it nests too deep. |
| `RoundTrip.PrintParseRoundTrip` | Enclave/json/cJSON.c:1245-1759 | For every tree and both formats: parsing the print consumes all of it and gives back exactly the tree if and only if the nesting is at most 1000; otherwise it is refused. |
| `Grammar.ValueFitsLimit` | Enclave/json/cJSON.c:1383-1645 | A value accepted inside depth open arrays and objects nests at most 1000 minus depth deep. |
| `RoundTrip.AcceptedTextReadsBack` | Enclave/json/cJSON.c:1033-1759 | The tree of every accepted text, numbers by their int32 value, can be printed in either format and parsed again to the same tree. |
| `Language.ValueExactly` | Enclave/json/cJSON.c:1245-1645 | A value is read from a position if and only if the bytes up to the end are a text of that tree, by a description of JSON texts that does not parse, and it nests at most 1000 deep. |
| `Language.StartIsFound` | Enclave/json/cJSON.c:996-1030 | Reading starts at the first byte over 32, behind a byte order mark if the text starts with one and has a fourth byte. |
| `Language.AcceptedExactly` | Enclave/json/cJSON.c:1033-1110 | The parser accepts a text with a tree and an end if and only if a text of that tree stands there behind the blanks at the start; anything may follow, or only blanks if the end is demanded. |
| `Language.BracketsAreAcceptedUpToLimit` | Enclave/json/cJSON.c:1383-1400 | A text of n opening and n closing brackets is accepted if and only if n is at most 1000. |
| `Layout.ScalarLayout` | Enclave/json/cJSON.c:1300-1380 | The bytes of the three words, of a number with its sign, and of a string between its quotes. |
| `Layout.ArrayLayout` | Enclave/json/cJSON.c:1477-1536 | The texts of the items between brackets, joined by a comma and, when formatted, a blank. |
| `Layout.ObjectLayout` | Enclave/json/cJSON.c:1648-1759 | Formatted, every member on its own line one tab deeper than the braces, a colon and a tab behind its key; unformatted, no blank at all; an empty object closes on the next line when formatted. |
| `Layout.EscapeLayout` | Enclave/json/cJSON.c:928-975 | Which of the seven escapes of one letter each byte is printed as, `\u` escapes with lower-case digits for the other control characters, and every other byte, the slash included, as itself. |
| `Printer.CopyingIsAmortised` | Enclave/json/cJSON.c:387-472 | Over any sequence of served requests the length stays within INT_MAX and the bytes copied by allocate-copy-free stay below twice the final length. |
| `Printer.PrintBuffer.Ensure` | Enclave/json/cJSON.c:387-472 | Succeeds exactly if offset + needed + 1 fits the capacity; then that much is reserved in a buffer of the specified new size, earlier bytes and the byte at the offset are kept. |
| `Printer.PrintBuffer.UpdateOffset` | Enclave/json/cJSON.c:475-485 | A NUL lies at or behind the offset, and `strlen` moves the offset exactly to the end of the finished text. |
| `Printer.PrintBuffer.Put` | Enclave/json/cJSON.c:387-472 | Every write lies inside the reserved range, which is the precondition, and changes nothing else. |
| `Printer.PrintBuffer.PrintNumber` | Enclave/json/cJSON.c:488-564 | Appends the decimal form, or fails exactly if it does not fit. |
| `Printer.PrintBuffer.PrintString` | Enclave/json/cJSON.c:854-979 | Writes the quoted form behind the finished text and leaves the offset, or fails exactly if it does not fit. |
| `Printer.PrintBuffer.PrintValue` | Enclave/json/cJSON.c:1300-1380 | Refines the pure rendering: the buffer holds the finished text followed by the text of the tree, and it fails exactly if that text does not fit. |
| `Printer.PrintBuffer.PrintArray` | Enclave/json/cJSON.c:1477-1536 | As above for arrays in both formats, depth restored. |
| `Printer.PrintBuffer.PrintItems` | Enclave/json/cJSON.c:1500-1524 | The loop over elements writes them and the separators between them. |
| `Printer.PrintBuffer.PrintObject` | Enclave/json/cJSON.c:1648-1759 | As above for objects, with the indentation of the closing brace. |
| `Printer.PrintBuffer.PrintMembers` | Enclave/json/cJSON.c:1675-1739 | The loop over members writes indentation, key, separator, value and line end of each. |
| `Printer.PrintBuffer.PrintMember` | Enclave/json/cJSON.c:1677-1717 | One member up to its value. |
| `Printer.CountExtra` | Enclave/json/cJSON.c:884-908 | The counting loop computes the number of extra bytes. |
| `Printer.EscapeSequence` | Enclave/json/cJSON.c:940-972 | The switch of the writing pass produces the escaped form of every byte that needs one. |
| `Printer.Print` | Enclave/json/cJSON.c:1120-1182 | From 256 bytes and with either way of growing, the printed string is the rendering and a NUL, unless that exceeds INT_MAX. |
| `Printer.PrintBuffered` | Enclave/json/cJSON.c:1195-1223 | The same from any starting size; a negative one is refused. |
| `Printer.PrintPreallocated` | Enclave/json/cJSON.c:1225-1242 | Succeeds if and only if the length is at least the rendered length plus 2; then the buffer holds the same text and a NUL. Bytes of the buffer behind that length are untouched. |
| `Minify.MinifyIsIdempotent` | Enclave/json/cJSON.c:2675-2770 | Minifying twice is minifying once, for every text, unterminated strings and comments included. |
| `Minify.SkipOnelineComment` | Enclave/json/cJSON.c:2675-2686 | The input pointer ends behind the line, or at the terminator. |
| `Minify.SkipMultilineComment` | Enclave/json/cJSON.c:2688-2700 | The input pointer ends behind the comment, or at the terminator. |
| `Minify.MinifyString` | Enclave/json/cJSON.c:2702-2722 | The string is copied down to its closing quote, with the bytes still to be read intact. |
| `Minify.MinifyInPlace` | Enclave/json/cJSON.c:2724-2770 | Writing into the text being read, never ahead of the read position, leaves the minified text and a NUL, and nothing behind the old terminator changes. |
| `MinifyTokens.MinifiedKeepsTokens` | Enclave/json/cJSON.c:2675-2770 | Of a text taken apart into blanks, line and block comments, slashes, literals and other bytes, the last one possibly unfinished, exactly the literals and the other bytes are kept, in order. |
| `MinifyTokens.EveryTextIsTokens` | Enclave/json/cJSON.c:2675-2770 | Every text can be taken apart that way. |
| `MinifyPrint.MinifyOfFormattedIsUnformatted` | Enclave/json/cJSON.c:2675-2770 | Minifying the formatted print gives the unformatted print byte for byte if and only if no string or key that ends in a backslash is followed by anything but closing brackets. |
| `MinifyPrint.NoBackslashEndsIsEnough` | Enclave/json/cJSON.c:2702-2722 | Trees without strings and keys that end in a backslash meet that condition. |
| `MinifyParse.MinifiedTextParsesAlike` | Enclave/json/cJSON.c:2675-2770 | For every text the parser accepts to its end, if no literal has a backslash just before its closing quote, the minified text is accepted to its end with the same tree. |
| `MinifyParse.MinifiedTextKeepsTreeExactly` | Enclave/json/cJSON.c:2724-2770 | For every text of which the parser accepts a value, whatever bytes follow it, if no literal of the value has a backslash just before its closing quote: minification keeps the tree exactly if it is no number or the number joined with the minified rest reads the same; a number always becomes the joined one, or is refused with it. |
| `MinifyParse.TrailingTextIsJoined` | Enclave/json/cJSON.c:2724-2770 | The case of 12, a blank and 3: 12 before minification, 123 after it; derived from the exact condition. |
| `MinifyLiteral.LiteralIsHarmlessExactlyIfClear` | Enclave/json/cJSON.c:2702-2722 | For every content of a literal that the parser accepts, with a string that holds a blank behind it in one array: the minified text is accepted with the same tree exactly if the content does not end in a backslash; otherwise the blank is gone from the second string. |
| `MinifyLiteral.HiddenBlankMayBeLost` | Enclave/json/cJSON.c:2702-2722 | Behind any literal that ends in a backslash, a blank lost behind an escape for code point 0 changes no tree: for whole texts the condition on closing quotes is not necessary. |
| `Compare.KeysMatchExactlyButForCase` | Enclave/json/cJSON.c:108-129 | Keys match without regard to case if and only if they have one length and at every index equal bytes, or a letter in 65 to 90 and the byte 32 above it. |
| `Compare.CaseInsensitiveCompare` | Enclave/json/cJSON.c:108-129 | The byte loop gives 0 exactly if the two strings are equal but for the case of ASCII letters, stated on the bytes. |
| `Compare.GetObjectItem` | Enclave/json/cJSON.c:1814-1844 | The lookup loop returns the first member whose key is equal, or equal but for the case of ASCII letters, or nothing if there is none. |
| `Compare.CompareNodes` | Enclave/json/cJSON.c:2872-2995 | A node equals itself by identity; two different nodes are equal exactly if their trees stand in the structural relation. |
| `Compare.CompareTrees` | Enclave/json/cJSON.c:2902-2994 | The recursive comparison of two different nodes, with both passes over objects, computes the structural relation the theorems below are about. |
| `Compare.CompareItems` | Enclave/json/cJSON.c:2930-2952 | Arrays are compared pairwise and must end together. |
| `Compare.CompareMembers` | Enclave/json/cJSON.c:2958-2971 | One pass over an object: every member has an equal one under its key in the other. |
| `Compare.EqualIsSymmetric` | Enclave/json/cJSON.c:2872-2995 | Comparison is symmetric on all trees, in both case modes. |
| `Compare.EqualIsTransitive` | Enclave/json/cJSON.c:2872-2995 | Comparison is transitive on all trees, in both case modes. |
| `Compare.EqualMeansSameUpToOrder` | Enclave/json/cJSON.c:2872-2995 | On trees whose objects have distinct keys it holds exactly if the trees agree up to reordering object members. |
| `Compare.EqualToItsCopyExactlyIfCoherent` | Enclave/json/cJSON.c:2902-2994 | A tree compares as equal to a copy of itself if and only if in every object of it members whose keys match hold values that compare as equal. |
| `Compare.RepeatedKeysBreakReflexivity` | Enclave/json/cJSON.c:2954-2990 | An input on which that fails: a key, repeated, with two values. |
| `Chain.DetachUndoesInsert` | Enclave/json/cJSON.c:2117-2214 | Detaching what was inserted gives the old sequence back, wherever the insertion put it. |
| `Chain.InsertUndoesDetach` | Enclave/json/cJSON.c:2117-2214 | Inserting a detached item at its old position gives the old sequence back. |
| `Chain.Parent.GetArrayItem` | Enclave/json/cJSON.c:1785-1802 | The walk along `next` finds the item at the index, or null. |
| `Chain.Parent.Attach` | Enclave/json/cJSON.c:1890-1917 | Head, `next` and `prev` stay consistent when a node is linked behind the last one. |
| `Chain.Parent.AddItem` | Enclave/json/cJSON.c:1890-1917 | Appends to any chain, and changes no content. |
| `Chain.Parent.InsertItem` | Enclave/json/cJSON.c:2187-2214 | Inserts before the item at the position; past the end it appends; below 0 it does nothing. |
| `Chain.Parent.InsertBefore` | Enclave/json/cJSON.c:2203-2213 | The relinking around the new node keeps the chain consistent. |
| `Chain.Parent.DetachItemViaPointer` | Enclave/json/cJSON.c:2117-2145 | Removes exactly the given node from any position and leaves it unlinked. |
| `Chain.Parent.DetachItemFromArray` | Enclave/json/cJSON.c:2147-2155 | Removes the node at an index, or returns null and changes nothing. |
| `Chain.Parent.ReplaceItemViaPointer` | Enclave/json/cJSON.c:2216-2249 | Puts the replacement in the item's place and unlinks the item. |
| `ItemTree.ChainedAt` | Enclave/json/cJSON.c:2639-2661 | Every item of a chain is laid out on its own, linked to the next one, and holds its part of the tree. |
| `ItemTree.Append` | Enclave/json/cJSON.c:2647-2659 | Crosswires a new item with the last child, or makes it the first one; the chain holds the old trees and the new one. |
| `ItemTree.Duplicate` | Enclave/json/cJSON.c:2596-2673 | The recursive copy, over chains of chains of any depth: new items only, linked as a tree without sharing, equal to the original in the fields of every item; without recursion no children; null for null; nothing old is written. |
| `Facade.AssignmentsReadBack` | Enclave/json/json.cpp:84-273 | After any assignments under keys distinct up to ASCII case, writing and parsing gives the object back if and only if the nesting is at most 1000, and then every key reads back its assigned value; of a list, each Root with a write tree at the index that counts such Roots before it. |
| `Facade.AbsentKeyReadsNothing` | Enclave/json/json.cpp:198-273 | Under a key that no assignment has, in any letter case, each of the five readers gives its default. |
| `Facade.OtherReadersReadNothing` | Enclave/json/json.cpp:198-273 | Of an assigned integer, boolean, string or list the readers of the other types give their defaults. |
| `Facade.AssignmentIsSeenIfKeyIsNew` | Enclave/json/json.cpp:84-196 | One more assignment is visible under a key exactly if nothing was visible there before. |
| `Facade.FirstAssignmentIsSeen` | Enclave/json/json.cpp:84-196 | In any history the first assignment under a key that adds anything is the one readers see. |
| `Facade.WriteParses` | Enclave/json/json.cpp:20-48 | A written tree parses to itself if it nests at most 1000 deep and to no tree otherwise. |
| `Facade.WriteObject.Add` | Enclave/json/cJSON.c:1941-1976 | Adding appends members under the key in order; an existing member of that key is kept. |
| `Facade.Value.AssignInt` | Enclave/json/json.cpp:142-148 | Appends one number member to the object being written and extends its history; on a read value it does nothing. |
| `Facade.Value.AssignBool` | Enclave/json/json.cpp:170-176 | The same for a boolean member. |
| `Facade.Value.AssignString` | Enclave/json/json.cpp:163-169 | The same for a string member, cut at its first NUL. |
| `Facade.Value.AssignRoot` | Enclave/json/json.cpp:177-184 | Appends a member with the read tree and then one with the write tree, as far as there are such, also when the Root is the one being written. |
| `Facade.ObjectsAreListed` | Enclave/json/json.cpp:187-190 | The array of a list has one item for each Root with a write tree, at the index that counts such Roots before it, with the members of that Root. |
| `Facade.AllAreListed` | Enclave/json/json.cpp:187-190 | If every Root has a write tree, item i holds the members of Root i and the lengths agree. |
| `Facade.Value.AssignList` | Enclave/json/json.cpp:185-196 | Appends one array member with an item for each Root that has a write tree, in their order; parsed Roots are left out. |
| `Facade.Value.ReadStringArray` | Enclave/json/json.cpp:261-273 | The strings of an array in order; a first item that is no string ends it with an exception. |
| `Facade.Value.ReadJson` | Enclave/json/json.cpp:250-259 | A new Root that holds a copy of an object node, or none. |
| `Facade.Root.Copy` | Enclave/json/json.cpp:11-15 | A copy has equal trees and shares no object with the original. |
| `Facade.Root.Parse` | Enclave/json/json.cpp:20-32 | Keeps the tree of the text up to its first NUL, or none when it is empty or malformed. |
| `Facade.ParsedExactly` | Enclave/json/json.cpp:20-32 | The read tree is a given one if and only if a text of it, nesting at most 1000 deep, stands at the start of the bytes up to the first NUL, whatever follows it. |
| `Facade.Root.Write` | Enclave/json/json.cpp:33-48 | The unformatted text of the write tree, or nothing. |
| `Facade.Root.Clear` | Enclave/json/json.cpp:72-82 | Both trees are gone and the Root is no longer valid. |
| `Facade.Root.At` | Enclave/json/json.cpp:84-104 | With a read tree, finds the value of the first member whose key is equal but for the case of ASCII letters; otherwise prepares a write, making the object on first use and only then. |
| `KeyList.OrderIsLexicographic` | App/server/keyshard_param.cpp:130-130 | A key sorts before another exactly if it is a prefix of it or has the smaller byte, unsigned, where they first differ. |
| `KeyList.SortedIsUnique` | App/server/keyshard_param.cpp:130-133 | There is one sorted order of a list, so any correct sort gives the same string. |
| `KeyList.HashedStringIgnoresOrder` | App/server/keyshard_param.cpp:130-133 | Every permutation of a key list gives the same string to hash. |
| `KeyList.HashedStringHoldsKeysInOrder` | App/server/keyshard_param.cpp:130-136 | Keys of one length n stand in the hashed string in lexicographic order, key i at i times n. |
| `KeyList.HashedStringTellsListsApart` | App/server/keyshard_param.cpp:122-140 | For keys of one common positive length, two lists give the same string if and only if they are equal as multisets. |
| `KeyList.ListsAreToldApartExactlyByOneLength` | Enclave/tasks/GenerateTask.cpp:155-158 | Over a set of allowed key lengths the string tells all non-empty lists apart, order aside, if and only if 0 is not allowed and no two different lengths are. |
| `KeyList.UnequalLengthsCollide` | Enclave/tasks/GenerateTask.cpp:155-158 | For any two different positive lengths there are two different lists of keys of these lengths with one string. |
| `KeyList.EmptyKeysCollide` | Enclave/tasks/GenerateTask.cpp:155-158 | Two different lists of empty keys have one string. |
| `KeyList.KeyShardParam.CalcPubkeyListHash` | App/server/keyshard_param.cpp:122-140 | Sorts its field and digests the concatenation; no keys, no hash. |
| `KeyList.GetPubkeyHash` | Enclave/tasks/GenerateTask.cpp:140-169 | Digests the concatenation of the sorted copy; an empty list is an error. |
| `KeyList.KeysOfOneRequest` | Enclave/tasks/GenerateTask.cpp:73-81 | Given the same non-empty keys in any two orders, host and enclave compute the same request key. |
| `Registry.EveryRunIsSafe` | Enclave/tasks/GenerateTask.cpp:82-132 | In every interleaving of any number of tasks, clears and queries under the two assumptions, no task holds a freed context and every entry points to a live one. |
| `Registry.StepKeepsInvariantExactlyIfAssumed` | Enclave/tasks/GenerateTask.cpp:82-132 | From an invariant state a step keeps the invariant if and only if it meets both assumptions. |
| `Registry.EntryStaysOrItsTaskEnds` | Enclave/Enclave.cpp:228-259 | Over a whole run an entry stays in the map with its context alive, unless on the way its own task set Finished or Error and stopped using the context. |
| `Registry.TaskActionIsOwnStep` | Enclave/tasks/GenerateTask.cpp:104-132 | Whatever a task writes between its insertion and its end, through its pointer or through the map, reaches its own context and no other. |
| `Registry.RunKeepsInvariant` | Enclave/tasks/GenerateTask.cpp:82-132 | The invariant that ties each program counter to its entry and status holds after every allowed run. |
| `Registry.EveryReportIsOwn` | Enclave/Enclave.cpp:161-209 | In every such run the data in a report is the digest of the task's own request key and the key-meta hash the same task wrote. |
| `Registry.StatusMovesForward` | Enclave/tasks/GenerateTask.cpp:98-132 | One step moves a status forward or to Error, and only the owning task moves it. |
| `Registry.StatusOnlyMovesForward` | Enclave/Enclave.cpp:140-221 | Over a whole run a status never goes back. |
| `Registry.EndIsFinalUnlessReplyLost` | App/server/msg_handler.cpp:73-124 | Of all the steps by which a task stops using its context, in any interleaving, exactly those other than the loss of its reply leave its status Finished or Error. |
| `Registry.EntryStaysForGoodExactlyIfReplyLost` | App/server/msg_handler.cpp:73-124 | The entry of a task that ends stays in the map over every later run if and only if its reply was lost. |
| `Registry.EndedEntryIsCleared` | Enclave/Enclave.cpp:228-259 | After any run that follows a final status, a clear that comes late enough removes the entry. |
| `Registry.ClearKeepsExactly` | Enclave/Enclave.cpp:228-259 | One clear keeps exactly the entries that are Generating, Reporting or Callback and those Finished at most 5 seconds ago, with their contexts unchanged, and frees the contexts of the others. |
| `Registry.EndedEntryStaysExactlyWhileAlive` | Enclave/Enclave.cpp:228-259 | Over every run the entry of a task that has ended stays, its context unchanged, if and only if it is Finished and every clear on the way comes at most 5 seconds after its end, or no clear comes at all. |
| `Registry.FinishedEntryStaysForFiveSeconds` | Enclave/Enclave.cpp:142-159 | The same counted from the step that posts the result at time f. |
| `Registry.LostReplyBlocksItsKey` | App/server/msg_handler.cpp:73-88 | After a lost reply every later request with the same key is refused at its duplicate check, over every run. |
| `Registry.SafetyNeedsInsertsAlone` | Enclave/tasks/GenerateTask.cpp:82-102 | For every key there is a run in which two tasks pass the duplicate check together and one ends up writing through a freed pointer. |
| `Registry.SafetyNeedsReports` | Enclave/Enclave.cpp:211-220 | For every key there is a run in which a failed report lets an old task finish a newer context, which is then freed under its owner. |
| `Enclave.KeyContextList.ClearContext` | Enclave/Enclave.cpp:228-259 | Erasing while iterating frees each expired context once; it keeps exactly the entries that are Generating, Reporting or Callback and those Finished no longer ago than the duration. |
| `Enclave.KeyContextList.SetGenerationStatus` | Enclave/Enclave.cpp:142-159 | Performs the final step; fails exactly if the hash is not in the map. |
| `Enclave.KeyContextList.ReadKeyMetaHash` | Enclave/Enclave.cpp:178-185 | Performs the first critical section of the report step. |
| `Enclave.KeyContextList.WriteReportStatus` | Enclave/Enclave.cpp:211-216 | Performs the second one; throws exactly if the entry has gone. |
| `Enclave.KeyContextList.IsDuplicate` | Enclave/tasks/GenerateTask.cpp:82-90 | Performs the duplicate check. |
| `Enclave.KeyContextList.Insert` | Enclave/tasks/GenerateTask.cpp:92-102 | Performs the insertion, which leaves an existing entry alone. |
| `Enclave.KeyContextList.WriteError` | Enclave/tasks/GenerateTask.cpp:104-130 | Performs an error exit through the held pointer. |
| `Enclave.KeyContextList.WriteKeyMetaHash` | Enclave/tasks/GenerateTask.cpp:120-120 | Performs the write of the key-meta hash. |
| `Enclave.KeyContextList.WriteReporting` | Enclave/tasks/GenerateTask.cpp:131-132 | Performs the last two writes of `execute`. |
| `Enclave.KeyContextList.Execute` | Enclave/tasks/GenerateTask.cpp:82-137 | One call, undisturbed: refuses a present key and changes nothing, or adds one entry whose context says how far it got. |
| `Enclave.KeyContextList.RunAndReport` | App/server/msg_handler.cpp:73-115 | The entry, the report and the hash with which each exit path reaches `_exit`. |
| `Enclave.KeyContextList.GenerateKeyShard` | App/server/msg_handler.cpp:48-137 | A whole task, with its own reading of the clock at each stage, after any history: exactly the expired entries go, one entry is added unless the key is present, its final status and report follow from how each stage ended, no other entry or task is touched, and the invariant holds again, so that one task can follow another. |

## Left out

- Floating point: a number is its `valueint`. `NumberText.Strtod` reads the grammar of decimal numbers with the exact value, which is then truncated and saturated; the rounding of `strtod` and of `%1.17g` and numbers that are no int32 in print are not modelled, nor is the comparison of `valuedouble`, which agrees with that of `valueint` on int32.
- `uint32_t` values above INT_MAX assigned through the facade: they print as numbers that are no int32.
- `cJSON_Raw`, items without a type, reference items, constant keys, locale-dependent decimal points and custom hooks: they add cases.
- Allocation failure anywhere, and with it the failure exits that free what was built so far.
- Grammar.Parse: of the error position only the bounds are stated, and for refused escapes the place; nothing in the service reads it.
- Linked nodes in the parser, the printer and the facade: children are sequences of values there; the links are modelled in `Chain.dfy` and `ItemTree.dfy` alone.
- The error pointer of the parser is given as an offset; the global that holds it and the pointers themselves are not modelled.
- MinifyParse.MinifiedTextParsesAlike: one way only; whether a dropped byte is seen depends on the escapes before it, so that for whole texts no condition on the closing quotes alone is exact. For one literal it is (`MinifyLiteral.LiteralIsHarmlessExactlyIfClear`).
- MinifyParse.MinifiedTextKeepsTreeExactly: exact on the bytes behind the value; the condition on closing quotes is one way here too.
- Printer.PrintBuffered: a `prebuffer` of 0 together with allocate-copy-free growth is excluded, because the source then copies one byte from an empty buffer.
- Printer.PrintPreallocated: a `length` beyond the end of the buffer is excluded, as the source has no way to notice it.
- Memory: `cJSON_Delete` and the pairing of allocations with releases; `Root::operator=`, which overwrites trees without releasing them, is not modelled.
- The null pointer that `operator=(const char*)` accepts is not modelled.
- Hashing: SHA-256, the hexadecimal form and the decoding of the two hashes are symbolic; a request key is the string it is the digest of, and the report data the pair of hashes.
- Enclave.KeyContextList.GenerateKeyShard: one task undisturbed by others; `Registry.dfy` has the interleavings. A failure of the SGX call before the duplicate check is only there.
- Addresses: a context is named by the task that allocated it, so that the reuse of an address by the allocator is not modelled; no claim is made about it.
- The `lock_guard` that unlocks again after an explicit `unlock` (`Enclave/Enclave.cpp:156`): the lock counts as released at the explicit call.
- The query task reads the map in one step and changes nothing; the text of its reply is not modelled.
- Key generation, ECIES, curve decoding, quoting, SGX calls, HTTP, the webhook, logging and clocks: their outcomes are parameters of steps.
- `ecall_free`, shutdown, the thread pool, the dispatcher, `IniConfig` and the range checks on `k`, `l` and the key length: easy, or settled by reading one branch.
