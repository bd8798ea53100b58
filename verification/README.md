# A verified model of PCRE's compiler and matcher, and of parts of SQLite

This project models the C code of PCRE 4.3 (with `study.c`, `pcretest.c` and `pcredemo.c` of
PCRE 5.0) and of SQLite 3.2 in Dafny and proves what that code is for. `dafny verify
dfyconfig.toml` checks all of it.

**The regular expression engine.** A pattern is a list of alternatives, each a list of items: literal
runs, `.`, the one-byte escapes, bitmap classes, `^`, `$` and plain or capturing groups, each with an
optional greedy or lazy quantifier. `Regex` gives patterns two meanings: the language of spans, and
textbook ordered backtracking, which lists every way to match in the order in which it is tried.
The engine is modelled in the form of the C code:

- `Lengths` and `FirstPass`: the loop that sizes the code, with its bracket stack, against the bytes
  that come out. The bound always holds, nested `{n,m}` copies included, so ERR23 cannot arise.
- `Compiler` (with `CodeText`): `compile_branch` and `compile_regex`, writing through an index into a
  byte array, moving items up, copying groups, chaining and reversing links in place. What they write
  is the encoding of a program tree (`Program`, `Lower`), and `Lower` proves that the tree has the
  ordered ways to match of the pattern. `Links` proves that the links lead from each bracket through
  its alternatives to its ket and back.
- `Matcher` (with `Machine`, `Layout` and `Slots`): `match`, stepping through the bytes with the
  offset vector, the `eptrb` chain and recursion, against a machine on program trees that keeps the
  same chain, extra blocks included. It terminates without a call limit, on every pattern. `Trails`
  follows what the machine does on failed ways too, the calls it makes and the groups it closes.
- `Ordered`, `Language` and `Correct`: what the machine accepts is one of the listed ways; on the exact
  fragment it is the first of them. Only inside groups that repeat without limit does the fragment
  ask anything: where the end of such a group can be reached without consuming, a group with a
  varying count must be greedy (`+?` and `{n,}?` may be lazy) and have a body that cannot match the
  empty string. Patterns whose repeated groups are all greedy and consume are in it, and so are
  `a(?:b)??c` and `(?:a*)*`. `Beyond` shows that equality fails outside: `(?:a(?:b)??)*$` misses "aa".
- `Meaning` and `Blind`: what single items match, said with tables and bytes alone, and that under
  CASELESS the case of the subject does not matter.
- `Hints`, `Anchor`, `Earlier`, `Pattern`, `Study` and `Exec`: first byte, required byte, anchoring, line
  starts and the start-byte map, each sound for every match, and `pcre_exec`, whose outcome with all
  these skips is that of calling `match` at every position. This holds on every pattern, inside the
  exact fragment and outside: behind a leading `.*` only saved positions differ, and lower ones let
  `match` try no less. `Leads` and `StudyMap` say when each of these is recorded; `Stuck` shows that
  nothing happens at all where the first bytes are missing.
- `FixedLength` (with `Widths`): the scan that tells how far a lookbehind steps back.
- `GlobalLoop`: the compile-and-list-all-matches program, on top of all of the above.

A call limit is an `Option`: with `None` every match runs to its end and the outcome is fixed
completely; with a limit, `match` reports that it was passed exactly if the attempt takes more calls.

**Smaller parts.** `Utf8` (encoding, decoding, stepping back), `NameTable` (sorted insertion into
byte slots, binary search), `JulianDay` (calendar arithmetic of SQLite on exact rationals, with C
truncation), `RootPages` (destroying root pages under auto-vacuum), `CreateTable` and `ReadTable` (the
CREATE TABLE printer, its buffer, and reading the statement back) and `TypeAffinity` (the rolling-hash
type classifier).

**What turned out not to hold.**

- `computeYMD` misses 1 March of the years 300, -100, -500 and so on: `(Z - 1867216.25)/36524.25` is
  exactly -1, -5, -9 there, and the date comes back as 29 February. From March -4716 on these are
  all the dates it misses (`JulianDay.DateBack`).
- `computeJD` is the Gregorian day count exactly when truncation toward zero equals flooring, which
  covers every date from year 0 on (`JulianDay.DayNumberExact`).
- A `\S` among the items that `set_start_bits` looks at leaves the vertical tab out of the map, although
  `match` accepts it (`Study.NotSpaceMissed`). The map is complete exactly if no `\S` is looked at or
  another item adds that byte (`Study.MapCompleteIff`).
- `\s` puts the vertical tab into the map, although `match` does not accept it: the map is the set of
  bytes that the leading items take, but for that byte (`StudyMap.ChoiceMarked`).
- `computeHMS` rounds the last half millisecond of a day to 24:00:00 (`JulianDay.TimeNearest`).
- An empty name is printed as nothing, so a table whose only column has neither name nor type is
  printed like one without columns if it fits on a line (`ReadTable.StatementRead`).
- The count of OP_REVERSE has two bytes, so a lookbehind branch of 2^16 bytes or more steps back too
  little: `(?<=a{65535}a)` does not step back at all (`FixedLength.LookbehindEnds`).
- `find_fixedlength` counts the body of an unlimited group repeat once (`FixedLength.LoopMiscounted`).
- In `internal.h` the numbers in the comments of the opcode list are one too low from OP_XCLASS on; the
  model uses the values that the enumeration gives.

## Model

| member | source | states |
|---|---|---|
| Bytes.GetPut | pcre-4.3/internal.h:93-98 | A 16-bit quantity stored with PUT is read back by GET, for every value below 2^16 |
| Bytes.OrSet | pcre-5.0/study.c:70-72 | A bit of `a \| b` is set if and only if it is set in one of them, for every position |
| Bytes.NotSet | pcre-5.0/study.c:209-213 | A bit of `~a` is set if and only if it is clear in `a` |
| Bytes.OneSet | pcre-5.0/study.c:70-72 | `1 << n` has bit `n` set and no other |
| Layout.FirstByte | pcre-4.3/internal.h:289-391 | The first byte of each compiled item is an opcode of its own kind, so it is never OP_END, OP_ALT or a ket |
| Program.EncAppend | pcre-4.3/pcre.c:2089-2560 | Items one after the other are encoded by their bytes one after the other |
| Lower.AltsValid | pcre-4.3/pcre.c:3336-3503 | Whatever the compiler makes of a valid pattern is well-formed code |
| Lower.LitEnds | pcre-4.3/pcre.c:2173-2227 | Chopping the last byte off a literal run and repeating it keeps the ordered ways to match |
| Lower.SingleEnds | pcre-4.3/pcre.c:2254-2366 | Splitting `x{n,m}` into EXACT, STAR, UPTO and QUERY items keeps the ordered ways to match, greedy or lazy |
| Lower.TestSplit | pcre-4.3/pcre.c:2282-2353 | The ways of `x{n,m}` are those of `n` mandatory bytes followed by up to `m - n` more |
| Lower.RepEnds | pcre-4.3/pcre.c:2404-2547 | Replicating a group for `{n,m}` (mandatory copies in a row, optional ones nested behind BRAZERO, a last one that loops) keeps its ordered ways to match |
| Lower.AltsEndsKept | pcre-4.3/pcre.c:1508-3301 | Compilation preserves meaning: for every pattern and state the compiled program has exactly the pattern's ordered list of ways to match |
| Compiler.CompileData.MoveUp | pcre-4.3/pcre.c:2448-2463 | memmove toward higher addresses: every byte arrives although the areas overlap, the bytes before are untouched |
| Compiler.CompileData.TakeLast | pcre-4.3/pcre.c:2209-2224 | The last byte is taken off a compiled literal; the item goes altogether if that was its only byte |
| Compiler.CompileData.Mandatory | pcre-4.3/pcre.c:2284-2317 | The mandatory part of a single-item repeat is left in place in front of the rest, with `previous` put back where the code puts it back |
| Compiler.CompileData.OutputSingle | pcre-4.3/pcre.c:2252-2368 | The code of a repeated literal byte, negated byte or type is exactly the encoding of its items, in place |
| Compiler.CompileData.RepeatClass | pcre-4.3/pcre.c:2374-2399 | A repeat after a class gives exactly the encoding of the repeated class; `{0}` abolishes it |
| Compiler.CompileData.FindKet | pcre-4.3/pcre.c:2418-2423 | Following the links from a bracket arrives at its own ket |
| Compiler.CompileData.Replicate | pcre-4.3/pcre.c:2486-2494 | Copies of the group are appended, and everything before them is unchanged |
| Compiler.CompileData.Nest | pcre-4.3/pcre.c:2504-2524 | The optional copies are opened one inside the other, their unfinished brackets chained through the link fields |
| Compiler.CompileData.CloseAll | pcre-4.3/pcre.c:2526-2540 | Following the chain closes every pending bracket: each link and each ket distance becomes the real length, innermost first |
| Compiler.CompileData.SetLoop | pcre-4.3/pcre.c:2542-2547 | The ket of the last copy, and of no other, becomes the repeating one of the right greediness |
| Compiler.CompileData.RepeatGroup | pcre-4.3/pcre.c:2401-2548 | Any quantifier after a group gives, in place and within the block, exactly the encoding of the replicated group |
| Compiler.CompileData.CloseAlternative | pcre-4.3/pcre.c:3459-3466 | One step of reversing the chain: the backward link of an alternative becomes its forward distance |
| Compiler.CompileData.CloseGroup | pcre-4.3/pcre.c:3456-3472 | Reversing the whole chain of alternatives in place and adding the ket gives the finished bracket |
| Compiler.CompileData.NextBranch | pcre-4.3/pcre.c:3491-3500 | An OP_ALT is added whose link points back to the branch before |
| Compiler.CompileData.Bracket | pcre-4.3/pcre.c:2903-2914 | The next group number is taken and put in the opcode or, above 150, in an item after it |
| Compiler.CompileData.CompileLiteral | pcre-4.3/pcre.c:3096-3292 | A literal run with its quantifier is written as its encoding |
| Compiler.CompileData.CompileBranch | pcre-4.3/pcre.c:1508-3301 | A branch is written as its encoding behind what was there, fails exactly for a quantifier after `^` or `$`, counts the groups and computes the branch's hints |
| Compiler.CompileData.CompileGroup | pcre-4.3/pcre.c:2921-2940 | A nested group, compiled recursively, is written as its encoding |
| Compiler.CompileData.CompileRegex | pcre-4.3/pcre.c:3336-3503 | Writes exactly the encoding of the alternatives as one bracket, leaves all bytes before it alone, never leaves the block, fails exactly when some item cannot be repeated, and returns the combined hints |
| Links.WalkHeaders | pcre-4.3/pcre.c:3458-3471 | Following the links from a bracket visits each alternative once, in order, and stops at its ket |
| Links.NodeIsLinked | pcre-4.3/pcre.c:2504-2540 | Every bracket inside an item, generated ones included, has forward links through its alternatives and a ket whose link is the distance back |
| Links.PatternLinked | pcre-4.3/pcre.c:3354-3503 | All of that for every bracket of every compiled pattern shorter than 2^16 bytes |
| Numbering.AltsOpenings | pcre-4.3/pcre.c:2903-2914 | The capturing groups carry the numbers that the compiler gives them if and only if their numbers count up in the order of the opening brackets, and there are top_bracket of them |
| Numbering.AltsCaps | pcre-4.3/pcre.c:2903-2914 | The group numbers in compiled alternatives lie in the range that their opening brackets were given, also in replicated copies, and no group contains its own number |
| Numbering.PatternClean | pcre-4.3/pcre.c:4704-4707 | No group number in the code of a pattern is more than top_bracket, and no open group meets its own number inside |
| FirstPass.LitFits | pcre-4.3/pcre.c:3951-3985 | The length counted for a literal with a quantifier covers the bytes emitted |
| FirstPass.TestFits | pcre-4.3/pcre.c:4150-4166 | The length counted for a single item or class with a quantifier covers the bytes emitted |
| FirstPass.GroupFits | pcre-4.3/pcre.c:4491-4543 | The length counted for a group with a quantifier covers all its copies with their added brackets |
| FirstPass.AltsFit | pcre-4.3/pcre.c:4002-4004 | The length counted for alternatives covers their bytes |
| FirstPass.AltsRoom | pcre-4.3/pcre.c:4002-4004 | The lengths counted for a branch and for the alternatives after it are never negative and never more than the whole, so the count leaves room for each of them in turn |
| FirstPass.PatternFits | pcre-4.3/pcre.c:4717-4721 | For every pattern the second pass emits at most `length` bytes, OP_END included |
| FirstPass.PatternExact | pcre-4.3/pcre.c:4002-4004 | Without quantifiers the count is exact, but for one byte too many for each negated byte |
| Lengths.ScanLengths | pcre-4.3/pcre.c:3840-4658 | The loop, with a fixed array as its bracket stack, gives what running over the items on a list as the stack gives, or ERR19 when that has no room |
| Lengths.ScanIs | pcre-4.3/pcre.c:4472-4496 | The stack overflows exactly when groups nest deeper than BRASTACK_SIZE; otherwise the loop ends with the pattern's length and its number of groups |
| Lengths.DepthIs | pcre-4.3/pcre.c:4472-4482 | The depth that the bracket stack has to hold is the largest number of groups one inside the other |
| Pattern.SecondPass | pcre-4.3/pcre.c:4690-4721 | The code is that of the pattern with its OP_END; ERR20 and ERR9 exactly where they belong, ERR23 never |
| Pattern.Compile | pcre-4.3/pcre.c:4660-4780 | pcre_compile: it fails exactly when groups nest too deeply, the length is too large or something cannot be repeated, and otherwise records code and hints that describe the pattern |
| Pattern.BytesSound | pcre-4.3/pcre.c:4755-4780 | Every match begins with the recorded first byte and contains the recorded required byte, after the first one if both are set, up to case |
| Leads.WhatIsRecorded | pcre-4.3/pcre.c:4738-4780 | What pcre_compile records follows from the leading and last items of the alternatives: the two flags and the first byte in both directions, the required byte whenever all alternatives come down to it; for an anchored pattern there is a required byte only if some item varies |
| Hints.LitGood | pcre-4.3/pcre.c:3252-3284 | The hints after a literal are true of every match so far, with and without a zero repeat |
| Hints.GroupGood | pcre-4.3/pcre.c:2979-3013 | The hints after a group, repeated or not, are true of every match so far |
| Hints.BranchGood | pcre-4.3/pcre.c:2115-2129 | Carrying the hints along a branch, with the back-off for zero repeats, keeps them true |
| Hints.MergeGood | pcre-4.3/pcre.c:3403-3426 | Combining the hints of one more alternative is right for its matches |
| Hints.MergeKeeps | pcre-4.3/pcre.c:3403-3426 | ... and for those of the earlier alternatives |
| Hints.AltsGood | pcre-4.3/pcre.c:3389-3426 | For every pattern and every match, the first-byte and required-byte hints of compile_regex hold |
| Leads.AltsFirst | pcre-4.3/pcre.c:3389-3426 | A first byte is known if and only if every alternative leads with that literal byte |
| Leads.AltsHave | pcre-4.3/pcre.c:3403-3426 | If the last literal byte that must occur is the same in every alternative, it becomes the required byte, or it is the first byte and nothing else is required |
| Leads.AltsVary | pcre-4.3/pcre.c:2130-2582 | The flag for variable length is set if and only if some item before can occur in different numbers, and a required byte carries it only then |
| Leads.AltsTied | pcre-4.3/pcre.c:3546-3655 | The tests for anchoring and for line starts come out right if and only if every item that can come first is `^` or `.*` in the mode that they ask for |
| Leads.AltsStuck | pcre-4.3/pcre.c:7433-7444 | Where the first byte is missing, the compiled pattern neither consumes anything nor closes a group |
| Anchor.FirstSignificant | pcre-4.3/pcre.c:962-1000 | The item after a possible group number is found in the bytes |
| Anchor.IsAnchored | pcre-4.3/pcre.c:3546-3591 | The scan of the code answers whether every alternative begins with an anchoring item |
| Anchor.IsStartline | pcre-4.3/pcre.c:3616-3655 | The scan of the code answers whether every alternative begins with `^` or `.*` |
| Anchor.BeginsAltsKept | pcre-4.3/pcre.c:3546-3655 | What the scans see in the code is the same property of the pattern |
| Earlier.RunOver | pcre-4.3/pcre.c:5567-5589 | Lower saved positions on the chain never make `match` do less: whatever match or end of a group is reached with one chain is reached with a lower one, on every program |
| Earlier.AttemptBack | pcre-4.3/pcre.c:4738-4746 | On every pattern that is anchored, or starts lines with no newline before the position, success at a position means success a byte earlier, also under NOTEMPTY |
| Earlier.ClosedBack | pcre-4.3/pcre.c:7446-7455 | An attempt passed over on the way to a line start would have closed no group that the one a byte earlier did not close |
| Stuck.AttemptStops | pcre-4.3/pcre.c:5059-5066 | An attempt on code that the byte at its position stops fails without having closed a group |
| Machine.RunKet | pcre-4.3/pcre.c:5567-5589 | At a repeating ket the saved position is never before the start of the pass, so going round has always consumed something |
| Machine.RunZero | pcre-4.3/pcre.c:5458-5476 | BRAZERO and BRAMINZERO try both ways, with the extra block that the nested call leaves on the chain |
| Trails.TrackKet | pcre-4.3/pcre.c:5526-5589 | At a ket the group counts as closed, and each way on that is tried in a call of its own counts as a call |
| Layout.StepOver | pcre-4.3/internal.h:440-466 | Behind each item's bytes stands the rest of what is to be matched |
| Layout.AtKet | pcre-4.3/pcre.c:5486-5513 | The link of a ket leads back to the bracket that it closes |
| Layout.SkipGroup | pcre-4.3/pcre.c:5463-5471 | Following the links over the alternatives ends at the group's own ket |
| Matcher.MatchData.Chars | pcre-4.3/pcre.c:6197-6228 | OP_CHARS goes on behind the run exactly when it stands at the current position, case options respected |
| Matcher.MatchData.Assertion | pcre-4.3/pcre.c:5595-5660 | `^`, `$` and group-number items consume nothing and fail exactly when they do not hold |
| Matcher.MatchData.OneByte | pcre-4.3/pcre.c:5711-5806 | A type or negated byte consumes exactly one byte that it accepts, or fails |
| Matcher.MatchData.DecodeByte | pcre-4.3/pcre.c:6231-6262 | Test, bounds and greediness of a byte repeat are read back from its bytes |
| Matcher.MatchData.DecodeClass | pcre-4.3/pcre.c:5930-5966 | Map, bounds and greediness of a class with any repeat are read back from its bytes |
| Matcher.MatchData.RepeatLazy | pcre-4.3/pcre.c:5998-6016 | A lazy repeat finds the first success counting up from the minimum, and leaves the vector alone on failure |
| Matcher.MatchData.RepeatGreedy | pcre-4.3/pcre.c:6022-6098 | A greedy repeat finds the first success counting down from the most bytes that pass, and leaves the vector alone on failure |
| Matcher.MatchData.Repeat | pcre-4.3/pcre.c:6231-7243 | Every form of repeat, read from its bytes, behaves like the machine's |
| Matcher.MatchData.Alternatives | pcre-4.3/pcre.c:5059-5066 | The alternatives of a group are tried in order until one succeeds |
| Matcher.MatchData.Bracket | pcre-4.3/pcre.c:5031-5096 | A group whose alternatives all fail leaves every pair of the offset vector as it was |
| Matcher.MatchData.Record | pcre-4.3/pcre.c:5526-5535 | Closing a group records exactly its pair and the high-water mark, or sets the overflow flag, exactly if it has no room |
| Matcher.MatchData.KetItem | pcre-4.3/pcre.c:5483-5591 | The capture is recorded, and leaving or repeating the group has the outcome of the machine's choice |
| Matcher.MatchData.ZeroItem | pcre-4.3/pcre.c:5458-5476 | A group that may be skipped has the outcome of the machine's two ways in their order |
| Matcher.MatchData.Match | pcre-4.3/pcre.c:4984-7243 | For every program, position and state, `match` on the bytes terminates with the machine's result: same success, same end, same captures in the vector; on failure the vector is as it was. The calls made, failed ways included, are exactly those of the machine, the limit is reported exactly if they are too many, and the overflow flag is set exactly if one of the groups closed on the way has no pair |
| Slots.SyncClose | pcre-4.3/pcre.c:5526-5535 | After a group is closed the vector holds exactly the captures of the new state |
| Slots.TopClose | pcre-4.3/pcre.c:5534 | `offset_top` stays one past the highest captured group |
| Ordered.RunRight | pcre-4.3/pcre.c:4984-7243 | Whatever the machine accepts is one of the ordered ways to match; on tame programs it is the first one, and failure means that there is none |
| Ordered.TestSpan | pcre-4.3/pcre.c:5998-6098 | The ways of a repeated test are its possible counts, in the order of its greediness |
| Language.AltsSound | pcre-4.3/pcre.c:5483-5591 | Every way to match is a span of the language, and every capture in it is in bounds and in the language of its group |
| Language.AltsComplete | pcre-4.3/pcre.c:4984-5005 | Every span of the language is among the ways to match |
| Language.EndsAreLanguage | pcre-4.3/pcre.c:4984-5005 | The ends that ordered backtracking lists are exactly the ends of the language |
| Correct.AttemptIsFirst | pcre-4.3/pcre.c:4984-7243 | On the exact fragment an attempt has the end and the captures of the first way to match (the first that is not empty under NOTEMPTY), and fails only if there is none |
| Correct.AttemptDecides | pcre-4.3/pcre.c:4984-7243 | On the exact fragment an attempt at a position succeeds if and only if the language has a permitted span there |
| Correct.ConsumingExact | pcre-4.3/pcre.c:5540-5591 | Every pattern whose group repeats of varying count are greedy, with bodies that cannot match the empty string, is in the exact fragment |
| Correct.AttemptSound | pcre-4.3/pcre.c:5031-5075 | On every pattern, lazy and possibly empty group repeats included, an accepted span is in the language and each capture is a span of its own group |
| Meaning.LiteralAlone | pcre-4.3/pcre.c:6215-6225 | A pattern that is one literal run matches at a position if and only if the bytes there are those of the run, or under CASELESS have the same lower-case forms |
| Meaning.SingleAlone | pcre-4.3/pcre.c:5711-5806 | A pattern that is one type, class or negated byte matches exactly one byte, by the bit of the type table, the bit of the class map or the comparison |
| Meaning.CircAlone | pcre-4.3/pcre.c:5595-5610 | `^` holds at the start of the subject unless NOTBOL is set, and in multiline mode behind every newline |
| Meaning.DollAlone | pcre-4.3/pcre.c:5623-5652 | `$` holds at the end of the subject unless NOTEOL is set, before a newline that ends it unless NOTEOL or DOLLAR_ENDONLY is set, and in multiline mode before every newline |
| Meaning.RepeatAlone | pcre-4.3/pcre.c:5998-6098 | A repeated one-byte item takes as few bytes as it may if it is lazy, and as many as pass if it is greedy |
| Blind.AttemptBlind | pcre-4.3/pcre.c:6215-6220 | Under CASELESS, with tables and classes that treat both cases alike, flipping the case of any bytes of the subject leaves every attempt as it was, captures included |
| Beyond.Missed | pcre-4.3/pcre.c:5472 | `(?:a(?:b)??)*$` has "aa" in its language, and `match` at offset 0 fails on it |
| Beyond.Boundary | pcre-4.3/pcre.c:5472 | `a(?:b)??c` and `(?:a*)*` are in the exact fragment, that pattern is not |
| Exec.AnchoredMiss | pcre-4.3/pcre.c:7585 | If a pattern that is_anchored accepts does not match at the first position it matches nowhere later, whatever the pattern |
| Exec.AdvanceFirst | pcre-4.3/pcre.c:7433-7444 | Skipping to the first byte passes over no match and over no attempt that would set the overflow flag, on every pattern |
| Exec.AdvanceLine | pcre-4.3/pcre.c:7446-7455 | Skipping to a line start passes over no match, and over no attempt that would set the overflow flag if those before did not, on every pattern |
| Exec.AdvanceStudy | pcre-4.3/pcre.c:7457-7466 | Skipping by the study map passes over no match and over no attempt that would set the overflow flag |
| Exec.Required | pcre-4.3/pcre.c:7487-7522 | Giving up because the required byte is absent is right: no later position matches either |
| Exec.Try | pcre-4.3/pcre.c:7524-7535 | One call of `match` decides one start position, leaves the vector as it was on failure, and reports the limit or sets the overflow flag exactly as the attempt requires |
| Exec.Report | pcre-4.3/pcre.c:7571-7580 | Offsets, captures and return code of a success are those of the attempt |
| Exec.PcreExec | pcre-4.3/pcre.c:7273-7596 | On every pattern, with all its skips, pcre_exec returns what trying every start position from `start_offset` returns: the same first start, the end, every group's offsets and the highest group; -1 exactly when `match` succeeds nowhere; 0 exactly if the vector has no pair, or an attempt from `start_offset` up to the match closes a group that has none; the limit is reported only if an attempt at or before the first match takes more calls |
| FixedLength.ChoiceFixed | pcre-4.3/pcre.c:1015-1177 | If the length is fixed and no group that can consume repeats without limit, every match of the bracket consumes exactly that many bytes |
| FixedLength.FixedIsMeasure | pcre-4.3/pcre.c:1015-1177 | There is a length if and only if all ways through take the same number of bytes and there is no negated byte and no BRAZERO; then it is that number |
| FixedLength.BareAlts | pcre-4.3/pcre.c:1030 | Group numbers do not matter for the length |
| FixedLength.StoreReverse | pcre-4.3/pcre.c:3432-3445 | A lookbehind branch ended by OP_END for the time being gets the one length that it has stored as the count of its OP_REVERSE, and is rejected exactly if its ways differ or cannot be counted; its own code is unchanged |
| FixedLength.StepBack | pcre-4.3/pcre.c:5227-5252 | OP_REVERSE goes back by its count, or fails exactly if that is before the start of the subject |
| FixedLength.LookbehindEnds | pcre-4.3/pcre.c:5227-5252 | A lookbehind branch that matches from where the stored count leads ends where it was asked if and only if its length is below 2^16 |
| FixedLength.LookbehindWrapped | pcre-4.3/pcre.c:3444 | The branch of `(?<=a{65535}a)` is 65536 bytes long and its stored count is 0 |
| FixedLength.LoopMiscounted | pcre-4.3/pcre.c:1034-1057 | `(?:a)+` is given the length 1 and can match two bytes |
| FixedLength.ItemLength | pcre-4.3/pcre.c:1065-1170 | The length of one item and the place of the next are read off its bytes |
| FixedLength.FindFixedLength | pcre-4.3/pcre.c:1015-1177 | The scan of the code, of a bracket or of a branch that OP_END ends, gives the one number of bytes that all ways through it take, and -1 exactly if there is no such number or the code cannot be counted |
| Study.SetBit | pcre-5.0/study.c:67-73 | Adds exactly the bits of the byte and, caseless, of its other case |
| Study.OrMap | pcre-5.0/study.c:209-245 | Adds exactly the bytes of a class map or of its complement |
| Study.PlainItem | pcre-5.0/study.c:168-311 | The bits added for one item are exactly those of the bytes it can begin with, or the item ends the study |
| Study.StudyClass | pcre-5.0/study.c:313-376 | The bits of a class are added, and its repeat decides whether the next item counts too |
| Study.BranchStart | pcre-5.0/study.c:110-380 | Exactly the bytes that can begin one alternative are added |
| Study.SetStartBits | pcre-5.0/study.c:95-384 | On success exactly the bytes that can begin some alternative are set |
| Study.ChoiceLed | pcre-5.0/study.c:110-380 | Each match of code that is studied to the end is not empty and begins with a byte that an item looked at accepts |
| Study.MapCompleteIff | pcre-5.0/study.c:219-225 | The map has every byte that the items looked at accept if and only if none of them is `\S` or another one adds VT |
| StudyMap.ChoiceKnown | pcre-5.0/study.c:95-384 | A map can be made if and only if no alternative can be empty and none of the items that can come first is `^`, `$`, `.`, a negated byte or a group that can be empty |
| StudyMap.ChoiceMarked | pcre-5.0/study.c:67-384 | A byte is in the map if and only if an item that can come first takes it as its first byte, but for VT, which `\s` adds and `\S` does not |
| Study.StudySound | pcre-5.0/study.c:95-384 | Under that condition every match is non-empty and its first byte has its bit set |
| Study.PcreStudy | pcre-5.0/study.c:407-482 | A map is returned exactly for patterns whose start is not tied down otherwise and can be studied; it has exactly the bits of the items looked at, and where that is complete pcre_exec may rely on it for every subject |
| Study.NotSpaceMissed | pcre-5.0/study.c:221-225 | The set for `\S` lacks VT, which `match` accepts |
| GlobalLoop.Call | pcre-5.0/pcredemo.c:250-261 | One call reports the first match beyond the last span, or the longer match at its place, and what it passes over has none |
| GlobalLoop.FindAll | pcre-5.0/pcredemo.c:232-317 | On every pattern the loop terminates, and each reported span is the first match beyond the one before it, where an empty one may only be followed by a longer one at its place; it stops early only if some attempt goes beyond the call limit, and otherwise nothing is left after the last |
| GlobalLoop.Demo | pcre-5.0/pcredemo.c:76-317 | Compiling a pattern and listing its matches succeeds for every pattern within the limits and gives the complete list |
| GlobalLoop.Apart | pcre-5.0/pcredemo.c:232-317 | Reported spans are in order, do not overlap and are pairwise different |
| GlobalLoop.NoneBetween | pcre-5.0/pcredemo.c:241-271 | Between two reported spans `match` succeeds nowhere, apart from the first of them if it is empty |
| GlobalLoop.NoSpanBetween | pcre-5.0/pcredemo.c:241-271 | On the exact fragment the language has no other match there either |
| GlobalLoop.ListedOnce | pcre-5.0/pcredemo.c:232-317 | Subject and pattern determine the list: two lists with these properties agree as far as both go |
| NameTable.Names.Insert | pcre-4.3/pcre.c:2696-2733 | A new name takes its place in the order and all other entries keep their bytes' meaning; ERR43 exactly when the name is there already, and then nothing changes |
| NameTable.Names.Place | pcre-4.3/pcre.c:2713-2732 | Moving the later slots up and storing number, name and zero leaves a valid sorted table with the new entry in its place |
| NameTable.Names.SlotsAfter | pcre-4.3/pcre.c:2713-2732 | Every slot holds its entry after the move |
| NameTable.Agrees | pcre-4.3/pcre.c:2703-2710 | A name that agrees with a slot is the one stored if and only if a zero follows, and otherwise comes before it |
| NameTable.Differs | pcre-4.3/pcre.c:2700-2717 | Where memcmp finds a difference it orders the two names as strcmp does |
| NameTable.Transitive | pcre-4.3/get.c:79-84 | The order of names is transitive |
| NameTable.Names.DefineAll | pcre-4.3/pcre.c:2696-2733 | After any sequence of named groups the table is sorted and holds exactly them, and a repeated name is rejected whenever there is one |
| NameTable.Names.Strcmp | pcre-4.3/get.c:82 | Comparing with the bytes of a slot gives the sign that orders the two names |
| NameTable.Names.GetStringNumber | pcre-4.3/get.c:61-89 | The binary search returns the number recorded for the name, or NOSUBSTRING exactly when it is absent |
| JulianDay.DayNumberExact | sqlite-3.2/date.c:216-236 | computeJD is the Gregorian leap-rule day count if and only if truncation does no harm, and so for every date from year 0 on |
| JulianDay.DateBackMissed | sqlite-3.2/date.c:341-351 | 1 March of 300, -100, -500 and so on, every 400 years, comes back as 29 February |
| JulianDay.DateBack | sqlite-3.2/date.c:333-354 | Every valid date from March -4716 on comes back from its day number if and only if it is not 1 March of a year below 400 that leaves 300 when divided by 400 |
| JulianDay.TimeBack | sqlite-3.2/date.c:359-372 | Hours, minutes and seconds (whole milliseconds) come back from a Julian day |
| JulianDay.TimeNearest | sqlite-3.2/date.c:359-372 | From Julian day -0.5 on the time fields are the nearest whole millisecond, of two the later; within half a millisecond of midnight that is 24:00:00 |
| JulianDay.RoundTrip | sqlite-3.2/date.c:216-372 | From the year -4712 on the time always comes back from the Julian day; the date does if and only if computeJD counts it right and computeYMD does not miss it |
| JulianDay.DateTime.ComputeJD | sqlite-3.2/date.c:216-248 | The object's Julian day and validity flags after the call, for every combination of flags |
| JulianDay.DateTime.ComputeYMD | sqlite-3.2/date.c:333-354 | The date fields become those of the Julian day, or 2000-01-01 without one, unless they were valid |
| JulianDay.DateTime.ComputeHMS | sqlite-3.2/date.c:359-372 | The time fields become those of the Julian day unless they were valid |
| RootPages.Database.DestroyTable | sqlite-3.2/build.c:1795-1841 | Each root page of the table and its indices is destroyed once, in strictly decreasing order, while it still holds the object that it held at first, and afterwards sqlite_master records the right page for every survivor |
| RootPages.Database.DestroyRootPage | sqlite-3.2/build.c:1771-1787 | Destroying the largest of the doomed pages moves none of the others, and the update keeps every record right |
| RootPages.WrongOrder | sqlite-3.2/build.c:1810-1821 | In any database, destroying a page below the highest one takes the highest one away from its number |
| RootPages.Database.Largest | sqlite-3.2/build.c:1825-1835 | The scan finds the largest page below the one destroyed last, or 0 if none is left |
| CreateTable.IdentLength | sqlite-3.2/build.c:1318-1324 | The length of the name with its quotes doubled, plus two |
| CreateTable.IdentPut | sqlite-3.2/build.c:1330-1347 | The name is written, quoted when it must be with embedded quotes doubled, and terminated |
| CreateTable.IdentRoundTrip | sqlite-3.2/build.c:1330-1347 | Unquoting what is written gives the name back, for every name |
| ReadTable.NameRead | sqlite-3.2/build.c:1330-1347 | Whatever the name, a reader of SQL gets it back from the text, in front of anything that cannot go on a name |
| ReadTable.QuotedIff | sqlite-3.2/build.c:1330-1347 | Quotes are written if and only if the bare text would not be read as that name |
| CreateTable.CreateTableStmt | sqlite-3.2/build.c:1354-1397 | For every table the statement's text is written in full, terminator included, within the bytes allocated |
| ReadTable.StatementRead | sqlite-3.2/build.c:1380-1397 | A reader gets TEMP, the table's name and every column's name and type back from the statement, if and only if it is not the statement, on one line, of a table whose only column has neither name nor type |
| ReadTable.LinesBroken | sqlite-3.2/build.c:1359-1376 | Each column stands on a line of its own if and only if names, with quotes, and types take 50 bytes or more |
| TypeAffinity.WindowIs | sqlite-3.2/build.c:901-902 | The 32-bit rolling value is that of the last four bytes |
| TypeAffinity.WordSeen | sqlite-3.2/build.c:904-913 | Comparing the window with a four-letter word tells exactly whether the text ends in it |
| TypeAffinity.IntSeen | sqlite-3.2/build.c:914 | The masked comparison tells exactly whether the text ends in INT |
| TypeAffinity.AffinityType | sqlite-3.2/build.c:895-922 | For every string the result is that of the case-insensitive substring table with its priorities |
| TypeAffinity.LowerMentions | sqlite-3.2/build.c:901 | Searching the folded text finds a word exactly where its letters stand in the text in either case |
| TypeAffinity.CaseIgnored | sqlite-3.2/build.c:895-922 | Types that differ in the case of letters alone have the same affinity |
| Utf8.Ord2Utf8 | pcre-4.3/pcre.c:404-418 | Filling the buffer backwards writes the shortest encoding of every value up to 0x7fffffff |
| Utf8.DecodeEncode | pcre-4.3/pcre.c:290-302 | Decoding inverts encoding, wherever the character stands |
| Utf8.GetCharInc | pcre-4.3/pcre.c:290-302 | The macro's loop computes the decoded value and the next position |
| Utf8.CharacterAt | pcre-4.3/pcre.c:272-302 | In a sequence of encoded values, decoding at each boundary gives the value that stands there and the next boundary |
| Utf8.BackChar | pcre-4.3/pcre.c:342 | Steps back over continuation bytes, and only those |
| Utf8.BackToStart | pcre-4.3/pcre.c:342 | From just before a boundary this lands on the start of the preceding character |
| Utf8.Shortest | pcre-5.0/pcretest.c:227-231 | A well-formed sequence is the encoding of its value if and only if its length is the shortest |
| Utf8.Utf82Ord | pcre-5.0/pcretest.c:198-237 | Accepts exactly the shortest forms, with their value and length; otherwise the bytes before the reported offset are in order and the byte there, or the length itself, is at fault |

## Left out

- The lexing of patterns: a pattern is a list of items. `is_counted_repeat` uses `&&` where `&` is meant, so its grammar would have to be taken from the code.
- Back references, recursion, conditional, atomic and possessive groups, lookaround in `match` but for the step back of OP_REVERSE, `\b`, `\B`, `\A`, `\Z`, `\C`, callouts, option changes inside a pattern, and UTF-8 inside `match`.
- `could_be_empty_branch` and `find_bracket`, which only recursion and POSIX classes need; `find_firstassertedchar`, which finds nothing in patterns without assertions.
- Correct.AttemptIsFirst: the exact fragment is a sufficient condition. Outside it some subjects are matched as backtracking does and some are not, and no condition for single subjects is given.
- Matcher.MatchData.Bracket: `capture_last`, which only callouts read, is set and restored as in the code, but no contract mentions it.
- Exec.PcreExec: attempts at positions that are skipped are not counted against the call limit, so whether a limit is passed there is not part of the result. What the vector holds beyond the groups of the pattern, and in its working third, is not stated; temporary storage for back references is not modelled.
- `match` has copies of the repeat loops for literals, negated bytes, types and classes; they are one set of loops with the test as a parameter.
- The hints of `compile_branch` are computed by functions beside the code they belong to, not by variables updated between the stores.
- compile_branch's stores are modelled one by one, but its `goto` structure is split into methods.
- Hints.GroupGood: the byte codes REQ_UNSET and REQ_NONE and the flag bits are a datatype, not integers.
- Character tables are parameters with the properties that `maketables` gives them; locale changes are not modelled.
- `study.c` and `pcredemo.c` are those of PCRE 5.0, whose own `pcre.c` is not part of this model: opcodes and pcre_exec are those of 4.3, and the study case for single characters is read as 4.3's OP_CHARS.
- NameTable.Names.DefineAll: the insertions are run in one loop, where the compiler meets them between other items of the pattern.
- NameTable.Names.Insert: the largest name's length and the number of names are given, as the first pass counts them.
- The doubles of `date.c` are exact rationals; rounding, parsing, modifiers, time zones of the host and `now` are not modelled.
- RootPages.Database.DestroyTable: of the B-tree only the moving of the highest root page is modelled, and the nested UPDATE is run at once instead of being compiled to VDBE code.
- CreateTable.IdentPut: the keyword test is a parameter, the letters and digits are those of ASCII.
- The parser, hash tables, B-tree, VDBE, allocator, authorizer and attach code of SQLite, `sqlite3CreateIndex`'s list order, and allocation failure everywhere.
- `ucp_findchar`, `pcregrep`, `printint`, `dftables`, the Objective-C and OpenGL code, and all input and output.
