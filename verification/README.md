# The regular expressions of `<regexp.h>`, verified

This project models the header `usr/src/head/regexp.h`: `compile`, which turns the text of a
pattern into a program of bytes; `advance`, which executes such a program on a subject string by
backtracking; `step`, which looks for the leftmost match; and `getrnge`. It proves what they
compute.

## How the model is built

| file | contents |
|---|---|
| `Bytes.dfy` | bytes, bits, and bit maps of sets of bytes |
| `Pattern.dfy` | pieces of a pattern, and their meaning: traces of a pattern through a subject |
| `Code.dfy` | opcodes, the encoding of pieces as bytes, the class tests, reading a program back |
| `Syntax.dfy` | from text to pieces, with every fault that `compile` reports |
| `Grouping.dfy` | brackets and back references; which accepted patterns `advance` supports |
| `Grammar.dfy` | the notation as a grammar of words, and the accepted texts as those that it spells |
| `Mistakes.dfy` | the mistakes that a text can hold, and the refused texts as those that hold one |
| `Samples.dfy` | texts given as strings: the words, the number of groups, a sample of each error |
| `Rendering.dfy` | from pieces to text, and the round trip |
| `Space.dfy` | what `compile` writes at `endbuf` |
| `Backtrack.dfy` | the search as a pure function of the trace so far, with its soundness and priority |
| `Verdicts.dfy` | what the outcome of a search says about all matches |
| `Termination.dfy` | which patterns can keep a search from returning |
| `State.dfy` | the global variables of the header |
| `Compiler.dfy` | `compile`, writing into a buffer |
| `Matcher.dfy` | `advance` and `step` over the program bytes and the global variables |
| `EndToEnd.dfy` | `compile` followed by `step` |

The meaning of a pattern is independent of the program and of the search. A *trace* lists the
cursor positions before and after each piece. A trace is a match when every piece may end where
the trace says it ends; what a group captured is read off the trace. An interval `\{m,\}` stands
for m to m + 20000 repetitions, because that is what `getrnge` makes of it.

The main results:

- **Compiler correctness.** For every text, supported or not, `Compile` yields exactly the encoding
  of the pieces that `Parse` reads, or exactly the fault that is due.
- **The notation.** `Parse` accepts exactly the texts that a grammar of words spells, with the pieces
  that the words denote, whatever the delimiter is (`AcceptedIffSpelled`). It refuses exactly the
  texts in which a listed mistake stands behind such words, with the error of that mistake, one for
  each error code, and with the pieces read before it (`RefusedIffMisspelt`). The grammar and the
  mistakes are written with character literals and follow neither the reader nor its constants.
  Every balanced pattern has a text, up to the limits listed below (`ParseRendered`).
- **The buffer bound.** `compile` keeps to its part of the buffer, except for the byte at `endbuf`.
  `Compile` says exactly when that byte is written and what is written there. For a good pattern it
  is the byte of the program that belongs there, and it is written exactly when two bytes that are
  put together straddle `endbuf` (`GoodSpill`); a program that fits writes nothing there.
- **Matcher correctness.** `Advance` refines the pure `Search`, although `braslist` and `braelist`
  are global and are not restored when a branch fails.
- **Greedy priority.** A hit is the lexicographically greatest of all matches from its start; a miss
  means that there is none (`SearchDecides`). For every value of `locs` the result is the greatest
  of the traces that `locs` leaves (`SearchSound`, `SearchGreatest`).
- **Termination.** A starred back reference to an empty text keeps the scan in the source from
  ending. The model returns `Forever` there. `LoopsExactlyWhen` says exactly when this happens on a
  given subject, and `EmptyCopiesLoop` gives an instance. `CanLoop` is a test on the pattern alone:
  a pattern that fails it returns on every subject (`AlwaysReturns`), and one that passes it loops
  on some subject (`LoopsSomewhere`).
- **Leftmost.** For every value of `locs`, `Step` ends at the first start from which some run can
  end otherwise than by failing, and in the greatest way from there; a success is a match
  (`LeftmostSettles`, `Found`). With `locs` outside the subject this is the leftmost greatest match.
- **End to end.** `CompileAndStep` puts these together for every supported pattern text and subject.

Conventions:

- A pointer into the subject is an index. The subject is a sequence of bytes other than NUL,
  followed by one NUL. Characters are 0..255.
- The macros `GETC`, `PEEKC` and `UNGETC` become a cursor in a sequence of bytes, and `ERROR(n)`
  becomes a failure with that code. Two more failures stand for behaviour that C leaves undefined:
  `Exhausted`, for reading past the text, and `Overflow`, for an interval bound that does not fit
  an `int`.
- The parts of one long C function become several methods: `CompileClass`, `CompileInterval`,
  `CompileEscape` and others for `compile`; `StepOnce`, `Scan`, `Star` and `BackStar` for `advance`.
  The cases of `advance` that differ only in the test of one byte share the predicate `Takes`.
- `compile` looks for space once for each token, so a token that begins on the last free byte and
  puts two writes the second at `endbuf` before the next look reports error 50. `Spill` tells this
  from the text and the space. `Compile` asks for a byte at `endbuf` only when `Spill` says that one
  is written; for every other text `endbuf` may be the end of the buffer. `OneCharacterSpills` is an
  instance. A program that is returned lies below `endbuf`, and then `endbuf` is untouched.
- `compile` accepts patterns outside the meaning given here: an interval behind a bracket, a back
  reference or another interval; NUL as a literal or as the end of a range; a back reference to a
  group that is still open. `AcceptedPattern` states exactly which accepted patterns are supported;
  `Advance` and `Step` ask for a supported one. For a second interval `SecondIntervalIsCode` shows
  what its program is: the bounds 4 and d are the code of the character d.

## Model

| member | source | states |
|---|---|---|
| `Bytes.SetBitBits` | usr/src/head/regexp.h:57-58 | setting a bit through the bit table sets that bit and leaves every other bit as it was |
| `Bytes.BitmapUnique` | usr/src/head/regexp.h:57-58 | a bit map is determined by the bytes that are found in it |
| `Pattern.TraceAscends` | usr/src/head/regexp.h:379-530 | along every trace of the meaning the positions between pieces never move back and never pass the terminating NUL; where lp itself goes within a piece is stated by `Scan` |
| `Code.ClassTest` | usr/src/head/regexp.h:402-422 | under the plain narrow, negated narrow and wide encodings the bit test is membership in the class as written; NUL is accepted only by a class that is not negated and has NUL as a member |
| `Code.ProgramIsCode` | usr/src/head/regexp.h:131 | a program in a buffer can be read back piece by piece up to its end mark |
| `Code.SecondIntervalIsCode` | usr/src/head/regexp.h:254-288 | a second interval is executed as code: with the bounds 4 and d the program is, byte for byte, that of the pattern with the character d in place of that interval |
| `Code.OpcodeNumbers` | usr/src/head/regexp.h:41-53 | the opcodes of the atoms, the bits that suffixes set and the end mark, in numbers |
| `Code.CodeBytes` | usr/src/head/regexp.h:268-285 | the bytes of an instruction in order: opcode, operand, lower bound, upper bound |
| `Code.UniqueReading` | usr/src/head/regexp.h:377-577 | a program has one meaning: two supported patterns with the same program have equivalent pieces, one for one |
| `Syntax.IntervalFrom` | usr/src/head/regexp.h:259-288 | an accepted interval has a lower bound of at most 254 that does not exceed the upper bound |
| `Grouping.GroupsMeaning` | usr/src/head/regexp.h:238-252 | before every piece, the groups opened are those with numbers below nbra, those closed are the ones not on the bracket stack, the stack is increasing, and its height is nbra less the number closed |
| `Grouping.GroupsCounted` | usr/src/head/regexp.h:238-244 | nbra is the number of opening brackets passed so far |
| `Grouping.GroupSpan` | usr/src/head/regexp.h:238-252 | every group of an accepted pattern is opened exactly once and closed exactly once, later |
| `Grouping.GroupsNest` | usr/src/head/regexp.h:238-252 | groups open in the order of their numbers, and two groups nest or follow one another |
| `Grouping.BackReference` | usr/src/head/regexp.h:297-304 | an accepted back reference comes behind that many closed groups; the group it names has been opened, and is closed exactly when it is not on the bracket stack |
| `Grouping.AcceptedPattern` | usr/src/head/regexp.h:124-314 | an accepted pattern is balanced, its interval bounds are in order and an anchoring dollar stands only at its end; it is supported exactly when its pieces are plain and it names no open group |
| `Grammar.KindOfText` | usr/src/head/regexp.h:109-123 | told from the first byte: no text, no pattern, with the cursor behind the delimiter or on the newline, or a pattern, with a caret or not |
| `Grammar.PlaceValue` | usr/src/head/regexp.h:262-267 | the value of a numeral by place: a digit '0' to '9' in front of n others counts 10^n times |
| `Grammar.AcceptedIffSpelled` | usr/src/head/regexp.h:109-314 | a text is accepted, ended by the delimiter or a newline, if and only if words of the grammar spell it, and its pieces are those that the words denote: ranges, a star or dollar that stands for itself, a leading \{ and every delimiter included |
| `Grammar.SpelledRead` | usr/src/head/regexp.h:124-314 | from any point of a pattern on, a spelled text is accepted and gives what the words denote |
| `Grammar.ReadSpelled` | usr/src/head/regexp.h:124-314 | from any point of a pattern on, an accepted text is spelled by words that denote its pieces |
| `Grammar.PrefixRead` | usr/src/head/regexp.h:124-314 | words in front of any text, good or bad, are read as what they stand for, and then the rest |
| `Grammar.ElementsRead` | usr/src/head/regexp.h:179-212 | the elements of a class, bytes and ranges, are read as the members they stand for |
| `Grammar.RunRead` | usr/src/head/regexp.h:260-269 | a run of digits is a number exactly when a backslash or a comma follows it; otherwise error 16, or the text ends or the int overflows |
| `Mistakes.RefusedIffMisspelt` | usr/src/head/regexp.h:109-314 | a text is refused with an error, and with the pieces read before it, if and only if words spell it up to a mistake of that error: a group left open or nothing to close (42), a tenth group (43), a reference above the closed count (25), a newline (36), no digit (16), a bound of 255 or more (11), a third bound (44), no closing brace (45), bounds out of order (46), NUL or newline in a class (49) |
| `Mistakes.MistakeRefused` | usr/src/head/regexp.h:127-313 | behind any words a mistake gives its error, at the space that it takes to be found |
| `Mistakes.MistakeAt` | usr/src/head/regexp.h:127-313 | whatever is refused behind words is one of the mistakes |
| `Mistakes.IntervalRefused` | usr/src/head/regexp.h:259-288 | each mistake in an interval gives its own error |
| `Samples.WordStrings` | usr/src/head/regexp.h:137-311 | the words as strings: . * $ \( \) \n, a quoted character and a reference |
| `Samples.ClassStrings` | usr/src/head/regexp.h:164-233 | a class as a string: brackets, caret, ranges and a final dash |
| `Samples.IntervalStrings` | usr/src/head/regexp.h:254-288 | an interval as a string: \{ \} and the comma |
| `Samples.AtomsRead` | usr/src/head/regexp.h:137-311 | what is read of ./ $/ */ \n/ \./ and \{/ |
| `Samples.ClassReadAs` | usr/src/head/regexp.h:164-233 | what is read of [^b-d]/ |
| `Samples.SuffixesRead` | usr/src/head/regexp.h:151-288 | what is read of a*/ and a\{2,\}/ |
| `Samples.GroupsAccepted` | usr/src/head/regexp.h:238-252 | up to nine groups in a row are accepted, counted and numbered from 0 |
| `Samples.TenGroupsRefused` | usr/src/head/regexp.h:238-240 | ten or more groups in a row are refused with error 43 at the tenth |
| `Samples.ReferenceBehindGroups` | usr/src/head/regexp.h:297-304 | behind n groups \d is accepted exactly when d is at most n, nine included; otherwise error 25 |
| `Samples.AtMostNineGroups` | usr/src/head/regexp.h:55 | no accepted pattern has more than nine groups |
| `Samples.BackslashErrors` | usr/src/head/regexp.h:246-304 | errors 42, 25 and 36 for a\)/ a\1/ and a backslash before a newline |
| `Samples.NewlineErrors` | usr/src/head/regexp.h:141-182 | error 49 for a newline in a class, and 36 for one in a pattern of sed |
| `Samples.NotANumber` | usr/src/head/regexp.h:263-266 | error 16 for a\{x\}/ |
| `Samples.TooMany` | usr/src/head/regexp.h:268-269 | error 11 for a\{300\}/ |
| `Samples.ThreeBounds` | usr/src/head/regexp.h:271-273 | error 44 for a\{1,2,3\}/ |
| `Samples.NotClosed` | usr/src/head/regexp.h:282-283 | error 45 for a\{1\)/ |
| `Samples.NotAscending` | usr/src/head/regexp.h:286-287 | error 46 for a\{2,1\}/ |
| `Samples.NotAllClosed` | usr/src/head/regexp.h:131-150 | error 42 for a group open at the delimiter or at a newline |
| `Samples.RunTakesAll` | usr/src/head/regexp.h:434-504 | a* and a\{2,\} take all of aaa, unless locs stands there |
| `Rendering.ParseRendered` | usr/src/head/regexp.h:109-314 | every pattern that can be written has a text that is accepted and read back as the pattern, anchored or not |
| `Rendering.OpenGroupAccepted` | usr/src/head/regexp.h:298-300 | counting closed groups does not suffice: a pattern that refers to a group still open is accepted |
| `Compiler.Place` | usr/src/head/regexp.h:57 | one more member in the bit map, and nothing else changes in the buffer |
| `Compiler.Element` | usr/src/head/regexp.h:179-211 | one pass of the class loop: the bits are exactly the members and ranges read so far, the map is wide exactly when a member is above 127, and widening loses and invents no member |
| `Compiler.CompileClass` | usr/src/head/regexp.h:164-233 | the bytes written are the code of the class that the text denotes, plain or negated; otherwise exactly the fault that is due |
| `Compiler.CompileInterval` | usr/src/head/regexp.h:259-288 | the two bound bytes are those that the text denotes; otherwise exactly the fault that is due; the second byte is written exactly when `BoundByte` says so, faults 44, 45 and 46 included |
| `Compiler.PatchStar` | usr/src/head/regexp.h:151-156 | the code of the last piece becomes that of the starred piece, in place |
| `Compiler.PatchInterval` | usr/src/head/regexp.h:254-288 | the code of the last piece becomes that of the piece with the interval, in place |
| `Compiler.OpenGroup` | usr/src/head/regexp.h:238-244 | the new group gets the next number, which is pushed, and the stack keeps its meaning |
| `Compiler.CloseGroup` | usr/src/head/regexp.h:246-252 | the innermost open group is closed and popped, and the stack keeps its meaning |
| `Compiler.CompileToken` | usr/src/head/regexp.h:127-313 | one pass of the main loop does to buffer, last piece, bracket stack and nodelim what the token at the cursor says; behind the space only a second byte may be written, and only at endbuf |
| `Compiler.CompileRest` | usr/src/head/regexp.h:118-314 | the program, nbra and the cursor are those of the parsed pieces, or the fault is the one that is due; nodelim becomes 1 exactly when a newline ends the pattern, even if error 42 is then reported |
| `Compiler.Compile` | usr/src/head/regexp.h:109-314 | for every text: no pattern, or an anchored or plain one; the program lies below endbuf and is the encoding of the pieces read, and error 50 is reported exactly when it does not fit; with no pattern the cursor ends behind the delimiter, or on the newline with nodelim 1, and error 41 is due exactly when the buffer begins with NUL outside sed; nothing changes before the start or behind endbuf, the byte at endbuf itself becomes what `SpillOf` says or stays as it was, and it stays when a program is returned |
| `Compiler.OneCharacterSpills` | usr/src/head/regexp.h:125-126 | a one-character pattern with space for one byte writes the character at endbuf and reports error 50 |
| `Space.SpillIsCode` | usr/src/head/regexp.h:125-126 | from any point of a good pattern on, the byte written at endbuf is the byte of the program that belongs there, and there is one exactly when an opcode with its operand, or the two bounds of an interval, straddle endbuf |
| `Space.BoundByteWhen` | usr/src/head/regexp.h:268-287 | the second bound of an interval is written exactly when both bounds stand there, whatever error follows |
| `Space.GoodSpill` | usr/src/head/regexp.h:125-126 | the same for the whole text; a program that fits leaves endbuf alone |
| `Backtrack.TriesExact` | usr/src/head/regexp.h:434-575 | the ends tried for a piece are exactly those that its meaning permits, greatest first |
| `Backtrack.FirstPicks` | usr/src/head/regexp.h:568-575 | the star loop takes the earliest end that leads somewhere, unless locs comes before it |
| `Backtrack.SearchSound` | usr/src/head/regexp.h:375-578 | for every locs, a hit follows the meaning piece by piece to the end of the pattern, and a run that does not return is stuck at a starred back reference to an empty text |
| `Backtrack.SearchGreatest` | usr/src/head/regexp.h:375-578 | for every locs, no trace on which a run can end is lexicographically above the outcome, and there is none after a miss |
| `Verdicts.SearchDecides` | usr/src/head/regexp.h:375-578 | with locs outside the subject: a hit is the greatest of all matches from that start, a miss means that there is no match, and a run that does not return is stuck where no match is above it |
| `Verdicts.SearchSettles` | usr/src/head/regexp.h:375-578 | for every locs: a hit is a match and the greatest path on which a run from that start can end; after a miss there is no such path |
| `Verdicts.LeftmostSettles` | usr/src/head/regexp.h:334-354 | for every locs: the search over starts ends at the first start from which a run can end, with the greatest path from there, a hit being a match; after a miss no start up to the NUL has one |
| `Verdicts.RunEndsBeforeLocs` | usr/src/head/regexp.h:568-575 | a repeated byte alone takes its furthest end, and fails if that is locs |
| `Verdicts.LocsIgnored` | usr/src/head/regexp.h:518-530 | a pattern without a repeated byte does not depend on locs |
| `Verdicts.HitIsMatch` | usr/src/head/regexp.h:568-575 | whatever locs is, a success is a genuine match |
| `Verdicts.LoopsExactlyWhen` | usr/src/head/regexp.h:518-530 | advance fails to return if and only if some run is stuck at a starred back reference to an empty text and no match is above it |
| `Termination.AlwaysReturns` | usr/src/head/regexp.h:518-530 | a pattern in which no starred back reference, behind pieces that can be passed, names a group that can be empty returns on every subject, from every start and for every locs; an unstarred back reference is empty only if its group can be |
| `Termination.LoopsSomewhere` | usr/src/head/regexp.h:518-530 | that test is exact: a supported pattern, with an anchoring dollar only at its end as in every accepted one, passes it if and only if there is a subject on which the search does not return |
| `Verdicts.EmptyCopiesLoop` | usr/src/head/regexp.h:518-523 | the pattern \(x*\)\1* is supported, and does not return on the empty subject |
| `Verdicts.LeftmostDecides` | usr/src/head/regexp.h:348-354 | the search over all starts, the empty tail included, stops at the leftmost start of a match, or there is none at all |
| `Matcher.Ecmp` | usr/src/head/regexp.h:59 | the comparison holds exactly when the captured text stands at the cursor, before the NUL |
| `Matcher.StepByte` | usr/src/head/regexp.h:379-422 | the five one-byte opcodes pass a byte exactly when the atom accepts it, and end behind their operand |
| `Matcher.Getrnge` | usr/src/head/regexp.h:582-592 | low and size of the two bound bytes, with 20000 for an open bound; for bounds that compile writes, low lies in 0..254, and size too unless it is 20000 |
| `Matcher.Scan` | usr/src/head/regexp.h:434-504 | a starred or interval opcode fails exactly when the run is too short; otherwise curlp is the shortest permitted end, lp is one past the longest, and neither passes the NUL by more than one |
| `Matcher.NoteBracket` | usr/src/head/regexp.h:424-432 | braslist and braelist go on to hold every bracket position of the trace |
| `Matcher.CapturedIsCurrent` | usr/src/head/regexp.h:507-530 | a back reference reads from the global lists exactly the text that its group captured on the current trace |
| `Matcher.Star` | usr/src/head/regexp.h:568-575 | going on from the longest end down to the shortest, and stopping at locs, gives the outcome of the pure search |
| `Matcher.BackStar` | usr/src/head/regexp.h:518-530 | so does going on behind fewer and fewer copies of a captured text that is not empty; with an empty one the scan never ends |
| `Matcher.Advance` | usr/src/head/regexp.h:375-578 | the result is that of the pure search on the trace; loc2 and the bracket lists are those of the match, loc2 stays as it was otherwise, the brackets passed before are kept, and so are the marks of groups that the pattern does not have |
| `Matcher.FirstCharMisses` | usr/src/head/regexp.h:335-346 | a program that begins with a character cannot match where another character stands |
| `Matcher.Step` | usr/src/head/regexp.h:330-354 | for every locs: yes, with loc1, loc2 and the bracket lists of the match that begins first and is the greatest from there of those that locs leaves; no, and no run from an admitted start can succeed; or a run that never ends, with none that ends before or above it; loc1 and loc2 are unchanged by an unanchored failure |
| `EndToEnd.ReportDecides` | usr/src/head/regexp.h:318-355 | what step leaves in the globals is the leftmost greatest match of the meaning of the pattern, or there is none; when step does not return, the run from some start is stuck, no match begins before that start, and none from it is above the stuck run |
| `EndToEnd.CompileAndStep` | usr/src/head/regexp.h:81-355 | for every supported pattern text that fits, every subject and every locs, what `Step` states; and with locs outside the subject: yes, with the leftmost greatest match and its groups; no, and no start has a match; or never returning, with the stuck run, its start and no match before or above it, and only for a pattern that can loop; otherwise exactly the fault that is due |

## Left out

- The caller's macros `INIT`, `GETC`, `PEEKC`, `UNGETC`, `RETURN` and `ERROR`, beyond a cursor and a failure: their bodies are not in the header.
- Signed characters, and the K&R and lint variants of the declarations: bytes are 0..255.
- What `advance` does with a program of a pattern that is not supported, unless it is also the program of a supported one: such programs are outside the contracts of `Advance` and `Step`.
- The empty pattern, which stands for the program compiled before, is part of `Compile` but not of `CompileAndStep`.
- Matcher.Advance: asks for the program of a supported pattern, because the other accepted programs have no meaning in this model; says nothing about low and size when it returns, since every interval sets them anew.
- Matcher.Step: asks for the program of a supported pattern, as `Advance` does.
- Rendering.ParseRendered: writes no class with NUL or newline as a member and takes no delimiter that is also an operator of the notation; `Grammar.AcceptedIffSpelled` covers every text and every delimiter.
- Other headers of `usr/src/head`: prototypes, constants and layouts, without behaviour of their own.
