# Verified models of two QuickJS support libraries

This project models the two hardest cores of QuickJS's support libraries and
proves what they promise:

* **The regular expression engine** (`quickjs/libregexp.c`). A compiler emits
  relative-jump bytecode while it parses, inserting, copying, rotating and
  patching code it has already emitted; a virtual machine runs it with an
  explicit stack of saved states. The end-to-end theorem says that compiling a
  pattern and executing the bytecode gives exactly the first result of a direct
  recursive matcher on the pattern, for every pattern (captures, back
  references, lookarounds in both directions, greedy and lazy quantifiers with
  any bounds), every subject and every start position.
* **Multi-limb arithmetic** (`quickjs/libbf.c`). Carry loops in place on limb
  arrays, division of two limbs by one through an inverse, schoolbook division,
  Newton's reciprocal, division by the reciprocal and the Karatsuba square root,
  each proved exact for all inputs its comment allows.

Verify everything with `dafny verify dfyconfig.toml` (Dafny 4.11).

## How the regular expression part is built

| module | role |
|---|---|
| Bytes, Opcodes, Image | little-endian fields, the instruction set with encoder and decoder, the header |
| Pattern, Matcher | patterns as the parser's calls build them, and their reference meaning |
| Codegen, CodegenFacts | the instruction list of every construct, the linear scans, and static facts |
| Machine | the backtracking machine as single transitions on bytes |
| CharRange | boundary lists, emitted tables and bisection |
| Traces, Fragments, Straight, Loops | what running a fragment delivers, from single instructions to all nodes |
| Meanings, Captures | what the definitions shared by reference and executor mean, in terms of characters, positions and bits; what captures record |
| RangeSets | boundary lists as sets: union, intersection, difference, complement, case folding, and classes from their parts |
| Utf16 | subjects of 16-bit units read in surrogate pairs, as lists of characters |
| Adequacy, MatcherFacts | whole programs: agreement in both directions, halting, never stuck |
| Halting | halting is settled within limits computed from sizes, for every bytecode program |
| Boundaries | jumps land on instructions, and the stack depth at every reachable state |
| Scans, Compiler, Parser | the compiler as it works: passes over bytes, in-place emission, the recursive descent |
| Executor | the executor as it works: one class whose fields are updated opcode by opcode |
| Engine | compile, then execute |

The reference matcher lists, in priority order, every way a node matches from a
state (position and capture slots). Unbounded loops spend one unit of fuel per
round, and a list cut off by the fuel is marked unfinished, so nothing is said
to fail merely because the fuel ran out. The link between machine and matcher
is the relation `Traces.Emits`: started on a fragment, the machine reaches the
end of the fragment with the first result, after unwinding with the second, and
so on, and finally unwinds into whatever was saved below; if the list is
unfinished, it keeps running at least as many steps as there was fuel.

The meaning is the engine's own. Captures inside a quantified atom are reset
once, by the instruction in front of the loop, and only when the minimum is 0;
they are not reset in each round as section 21.2.2.5.1 of ECMA-262 (2020)
says. A lazy loop, or a greedy one whose body refers to a capture it sets, has
no test for rounds that do not move, so both can run for ever;
`Adequacy.LazyEmptyLoopNeverHalts` and `Adequacy.SelfReferentialLoopNeverHalts`
give a pattern for each that the compiler accepts, `Adequacy.GuardedHalts` shows
that every other unbounded loop halts, and `Halting.HaltsIffDecidedAtLimit` says
for all patterns exactly when the machine does: when the reference search comes
to a decision at one depth, computed from the sizes of code, subject, captures
and integer stack.

The compiler and the executor are imperative models: `REParseState` owns the
byte buffer and the capture counter, `REExecContext` the program counter, the
position, the capture and stack arrays and the state stack. Each method is tied
to the functions above (the buffer grows by the encoding of the node; one turn
of the dispatch or of the unwinding loop is one transition of the machine), and
`Engine` puts both together.

## How the arithmetic part is built

| module | role |
|---|---|
| Limbs | limbs as integers below B = 2^64, the value of a stretch of limbs, the carry loops, the schoolbook product |
| DivLimb | two limbs by one through the precomputed inverse |
| FastDiv | division of a limb by a constant, of two limbs by 10^19, and the table of powers of ten |
| Divnorm | division by one limb, and schoolbook division with trial digits and add-back |
| Newton | the arithmetic of Newton's step and of division by the reciprocal |
| Reciprocal | reciprocal, large division and the dispatch between the division forms |
| Sqrt | table, one and two limbs, and the recursion |

A pointer into a limb array is an array and an offset. Overlapping operands are
allowed exactly where the loops read each limb before they overwrite it.
Wrap-around is written out with `%`; carries, borrows and sign tests are the
comparisons of the source.

## Where code and comments disagree

The models follow the code.

* `quickjs/libbf.c:1346` promises `a*r < B^(2*n) < a*r + 2` for the reciprocal;
  the code gives, and the proof shows, `a*r < B^(2*n) < a*(r + 2)`.
* `quickjs/libbf.c:2046` calls the top limb of the remainder the value of the
  function; the code stores it behind the remainder and returns a status.
* `quickjs/libbf.c:5519` says the table of multipliers is precomputed by
  `fast_udiv_init`. The entry for 10^19 is two larger than that function should
  give (it shifts by 64 there, which C leaves undefined). The proof shows the
  entry is exact all the same.
* `quickjs/libregexp-opcode.h:53` says `bne_char_pos` jumps if the positions are
  equal; the executor jumps if they differ.
* The advance check marks the captures of a reset except the last one
  (`quickjs/libregexp.c:1001`), and the comment on its result -1 suggests it is
  a safe answer; in fact it drops the test and the loop may not end.
* `quickjs/libregexp.c:827` reports too many ranges from 65535 on, one less than
  the 16-bit count could hold.

## Model

| member | source | states |
|---|---|---|
| Opcodes.DecodeEnc | quickjs/libregexp.c:394-428 | Round trip: whatever instruction the emitters write, the fetch of the executor reads the same instruction back, for every opcode and every operand that fits its field. |
| Bytes.GetAfterPut32 | quickjs/libregexp.c:400-416 | A 32-bit operand stored little-endian is read back unchanged. |
| Bytes.GetAfterPutTable16 | quickjs/libregexp.c:841-847 | A table of 16-bit bounds is read back entry by entry. |
| Bytes.GetAfterPutTable32 | quickjs/libregexp.c:850-853 | The same for 32-bit bounds. |
| CharRange.BisectFinds | quickjs/libregexp.c:2391-2402 | The bisection finds a pair containing the character if and only if there is one, for every sorted table. |
| CharRange.HitIsInRanges | quickjs/libregexp.c:837-853 | End to end: the emitted table, searched by the machine, accepts exactly the members of the boundary list, including 0xffff standing for "no upper bound" in a narrow table. |
| CharRange.CharInstrCorrect | quickjs/libregexp.c:1482-1496 | The instruction emitted for a character, dot or class accepts a character exactly when the node does, and its operands fit. |
| CharRange.RangeTableFits | quickjs/libregexp.c:834-853 | Every bound of a narrow or wide table fits its field. |
| RangeSets.SameMembersSameList | quickjs/libunicode.c:325-352 | Strictly ordered boundary lists are canonical: two lists with the same members are equal. |
| RangeSets.MemberIsInRanges | quickjs/libunicode.c:354-405 | Counting boundaries at or below a character and lying in one of the intervals are the same for strictly ordered lists. |
| RangeSets.MergeStep | quickjs/libunicode.c:362-400 | Taking the next boundary from either list, and adding it when the status changes, keeps the output the union, intersection or symmetric difference of what was taken. |
| RangeSets.CharSet.TouchingEnd | quickjs/libunicode.c:341-343 | The inner loop finds the end of a run of touching intervals, which together are one interval. |
| RangeSets.CharSet.Compress | quickjs/libunicode.c:325-352 | In place: the result is strictly ordered and has the members of the input, for every ordered list with repetitions. |
| RangeSets.CharSet.Op | quickjs/libunicode.c:354-405 | Union, intersection and symmetric difference hold the characters in either, both, or exactly one of the sets, and the result is strictly ordered. |
| RangeSets.CharSet.Union1 | quickjs/libunicode.c:407-417 | Adds the members of another list. |
| RangeSets.CharSet.UnionInterval | quickjs/libunicode.h:91-97 | Adds the characters from c1 to c2. |
| RangeSets.CharSet.Invert | quickjs/libunicode.c:419-431 | Exact complement below UINT32_MAX. |
| RangeSets.CharSet.Canonicalize | quickjs/libregexp.c:248-273 | With case ignored a capital letter becomes a member exactly when it or its small letter was one; nothing else changes. |
| RangeSets.ParseClass | quickjs/libregexp.c:859-943 | A class from its ranges and predefined parts, folded and inverted in this order; fails if and only if some range ends before it starts. |
| RangeSets.ClassEndToEnd | quickjs/libregexp.c:859-943 | From the parts of a class through boundary list, emitted table and bisection: a character is accepted exactly when its canonical form is in the class. |
| Utf16.ForwardThenBack | quickjs/libregexp.c:1924-2010 | Between characters, stepping back undoes stepping forwards and all five ways of reading see the same character, on every string of 16-bit units. |
| Utf16.BackThenForward | quickjs/libregexp.c:1924-2010 | The same starting with a step back. |
| Utf16.GetCharAt | quickjs/libregexp.c:1924-1941 | Character k of the string is read at its offset, and the next offset follows it. |
| Utf16.PairValue | quickjs/libregexp.c:1924-1941 | The units that encode a code point above 0xffff are read as that code point. |
| Utf16.CharsOfEncode | quickjs/libregexp.c:1924-1941 | Round trip: the characters of an encoded list of code points are the list, unless a lone high surrogate meets a low one. |
| Utf16.EncodeOfChars | quickjs/libregexp.c:1924-1941 | Round trip: every string of 16-bit units is the encoding of its characters. |
| Utf16.BoundaryIsOffset | quickjs/libregexp.c:1924-1941 | The positions between characters are exactly the offsets of the list of characters. |
| Utf16.OffsetIncreases | quickjs/libregexp.c:2295-2300 | Offsets grow with the index, so comparing positions in units compares positions in characters. |
| Utf16.CharsAreCodePoints | quickjs/libregexp.c:1924-1941 | Every character read is a code point, so the list is a subject of the machine. |
| Utf16.SeesCharacters | quickjs/libregexp.c:1924-2010 | Ends, next and previous characters at an offset are those of the list of characters at the index. |
| Utf16.GoBack | quickjs/libregexp.c:2149-2153 | Stepping back n characters from the offset of character k ends at the offset of character k - n. |
| CodegenFacts.CodeBalanced | quickjs/libregexp.c:1596-1691 | The code of every node leaves the integer stack as deep as it found it and never goes below that depth in between. |
| CodegenFacts.CodeSets | quickjs/libregexp.c:992-1010 | The captures the advance check finds written and referred to in emitted code are those of the pattern (with the last one of a reset left out, as in the code). |
| CodegenFacts.StartsMeansMustMove | quickjs/libregexp.c:974-1015 | When the first deciding opcode of emitted code reads a character, the pattern is one that must consume: alternatives on both sides, quantified parts with a positive minimum. |
| Straight.CheckAdvanceSound | quickjs/libregexp.c:945-1030 | When the advance check answers 1 for the code of a node, no match of the node, in either direction, ends where it began. |
| CodegenFacts.SimpleQuantExactly | quickjs/libregexp.c:1563-1589 | A quantified node is itself straight-line code if and only if it is emitted as nothing (maximum 0, no captures) or as one bare copy of a straight-line body that did not get the fast quantifier. |
| CodegenFacts.SimpleHasNoCaptures | quickjs/libregexp.c:1034-1071 | A node whose code the fast quantifier accepts opens no captures. |
| MatcherFacts.MatchSound | quickjs/libregexp.c:1215-1693 | Every way a node matches keeps the position inside the subject, moves it only in the direction of matching, strictly if the node must move, and keeps the number of capture slots. |
| MatcherFacts.MatchDone | quickjs/libregexp.c:1621-1637 | A guarded node has finitely many matches from every state: the list is finished at a depth computable from pattern and subject length. |
| Meanings.WordCharIsClass | quickjs/libregexp.c:199-205 | The word test of the executor accepts exactly the members of the boundary list of the class "\w". |
| Meanings.LineTerminators | quickjs/libregexp.c:1911-1914 | Four code points end lines and no others. |
| Meanings.LineAnchors | quickjs/libregexp.c:2227-2243 | "^" and "$" by position and neighbouring character: at the ends of the subject, and next to a line end when multiline. |
| Meanings.WordBoundaries | quickjs/libregexp.c:2301-2322 | A word boundary is where membership in "\w" differs between the two sides, the outside counting as no member; the negated form is everywhere else. |
| Meanings.CharacterMeans | quickjs/libregexp.c:2175-2191 | A character, dot or class takes the next character of the text in the direction of matching exactly when it equals, does not end a line, or is a member; by folded characters only when case is ignored. |
| Meanings.LiteralMeans | quickjs/libregexp.c:1704-1736 | A concatenation of characters matches once, exactly where the text stands after (or, backwards, before) the position. |
| Meanings.AlternativesInOrder | quickjs/libregexp.c:1738-1770 | All ways of the left alternative precede those of the right one. |
| Meanings.LookaroundMeans | quickjs/libregexp.c:2211-2222 | A lookaround stays where it is; a positive one takes the captures of the first way, a negative one succeeds when there is none. |
| Meanings.QuantifiedCharacter | quickjs/libregexp.c:1555-1693 | A quantified character with any bounds: one way for each admissible number of characters, falling when greedy and rising when lazy, and none when there are too few. |
| Meanings.MatchRefMeans | quickjs/libregexp.c:2335-2349 | Comparing forwards succeeds exactly when a copy of the text follows the position inside the subject, and ends behind it. |
| Meanings.MatchRefBackMeans | quickjs/libregexp.c:2350-2364 | Comparing backwards succeeds exactly when a copy of the text precedes the position, and ends before it. |
| Meanings.BackReferenceMeans | quickjs/libregexp.c:2323-2366 | A back reference to a set capture takes exactly a copy of its text, to an unset one nothing, and to a missing one fails. |
| Meanings.ResetMeans | quickjs/libregexp.c:2263-2276 | A reset unsets both ends of the captures from first to last and changes nothing else. |
| Meanings.SkippedCaptures | quickjs/libregexp.c:1603-1612 | A quantifier that makes no round leaves the captures inside it unset. |
| Meanings.OpcodeNumbers | quickjs/libregexp-opcode.h:27-56 | Every instruction has the number of its place in the list of opcodes. |
| Meanings.FlagBits | quickjs/libregexp.h:33-40 | Which bit of the flag byte sets which flag. |
| Meanings.HeaderBytes | quickjs/libregexp.c:103-107 | Flags, captures and stack size take one byte each and the code length four. |
| Meanings.LittleEndian | quickjs/libregexp.c:400-416 | Words of 16 and 32 bits are stored lowest byte first. |
| Meanings.SignedDistance | quickjs/libregexp.c:409-416 | Distances are stored as two's complement numbers of 32 bits. |
| Meanings.CounterStep | quickjs/libregexp.c:2285-2291 | The counter of a loop goes down by one modulo 2^64. |
| Meanings.ResetMarks | quickjs/libregexp.c:997-1004 | The advance check counts the captures of a reset as written except the last. |
| Captures.MatchKeeps | quickjs/libregexp.c:1215-1693 | Whatever way a node matches, only the slots of its own captures can change. |
| Captures.CaptureRecords | quickjs/libregexp.c:2257-2262 | In every result a capture holds the positions where it began and ended, in text order for both directions, and captures outside it are as before. |
| Captures.LeftmostFirst | quickjs/libregexp.c:1851-1859 | The reported match begins at the first position that has one; every earlier position was tried and failed; a sticky search tries one position. |
| Captures.ReportedMatch | quickjs/libregexp.c:2499-2535 | Capture 0 of a reported match lies inside the subject, from the start position on. |
| Machine.HaltUnique | quickjs/libregexp.c:2100-2104 | The answer of the machine does not depend on how long one waits for it. |
| Straight.SimpleMatch | quickjs/libregexp.c:1034-1071 | A node with straight-line code matches in at most one way, and that way is the path through its code. |
| Straight.QuantList | quickjs/libregexp.c:1563-1589 | What a greedy quantifier over a straight-line node should explore: all round counts from the largest possible down to the minimum, each one atom width apart. |
| Straight.AtomFollowsPath | quickjs/libregexp.c:2466-2467 | The nested run of the executor follows the path through the atom. |
| Straight.GreedyCounts | quickjs/libregexp.c:2464-2476 | The repetition loop stops at the largest number of rounds within the maximum. |
| Straight.SimpleQuantEmits | quickjs/libregexp.c:2450-2488 | Fast quantifier: running the one opcode, with its "step back, decrement the count" backtracking, offers the same continuations in the same order as the reference meaning of the quantifier, for every atom and all bounds. |
| Traces.EmitsAppend | quickjs/libregexp.c:2192-2210 | If one way of going on delivers a list of results and the state saved below it a second list, the machine delivers the first list followed by the second. |
| Traces.EmitsBind | quickjs/libregexp.c:1704-1736 | Sequencing: if each result of one fragment is continued by another, the machine delivers the results of the composition in priority order. |
| Fragments.SplitEmits | quickjs/libregexp.c:2192-2210 | A split delivers everything of its first way before anything of its second. |
| Fragments.LookEmits | quickjs/libregexp.c:2211-2222 | A lookaround delivers at most one result; a positive one keeps the captures of the first inner match, a negative one none; the position is restored and all inner choice points are dropped. |
| Loops.StarEmits | quickjs/libregexp.c:1621-1637 | An unbounded loop, with or without the zero-advance test as the compiler decides, delivers the reference list. |
| Loops.UpToEmits | quickjs/libregexp.c:1638-1649 | A counted loop with an early exit delivers between 0 and n rounds in priority order. |
| Loops.ExactlyEmits | quickjs/libregexp.c:1655-1666 | The mandatory rounds of a counted quantifier. |
| Loops.QuantEmits | quickjs/libregexp.c:1555-1693 | Every combination of minimum, maximum and greediness, whichever form the compiler picks. |
| Loops.NodeEmits | quickjs/libregexp.c:2089-2494 | Main induction: for every node, both directions, any stack contents and any saved states below, the emitted code delivers exactly the results of the reference matcher, in order, and then unwinds into what was saved below. |
| Adequacy.CodeEncodable | quickjs/libregexp.c:1832-1892 | No operand of a pattern within the limits overflows its field: 8-bit capture numbers, 16-bit table lengths, 32-bit distances. |
| Adequacy.SearchEmits | quickjs/libregexp.c:1851-1859 | The search loop in front of an unanchored pattern delivers the results of each start position in turn. |
| Adequacy.FirstResultHalts | quickjs/libregexp.c:2499-2535 | Once the reference search has a first result the machine halts with its captures. |
| Adequacy.NoResultHalts | quickjs/libregexp.c:2499-2535 | Once the reference search is finished without result the machine halts with "no match". |
| Adequacy.HaltedMeansDecided | quickjs/libregexp.c:2089-2494 | Whatever the machine halts with is what the reference search says. |
| Adequacy.MachineAgreesWithSearch | quickjs/libregexp.c:2089-2494 | Main theorem, both directions: the machine reports a match with given captures if and only if the reference search finds it first, and no match if and only if the search ends empty; for every pattern, subject and start position. |
| Adequacy.HaltsIffDecided | quickjs/libregexp.c:2100-2172 | The machine halts if and only if the reference search reaches a decision at some depth. |
| Adequacy.NeverStuck | quickjs/libregexp.c:2100-2494 | No run leaves the code, overflows or underflows the integer stack, writes a capture that does not exist or steps back before the subject. |
| Adequacy.GuardedHalts | quickjs/libregexp.c:1621-1637 | When every unbounded loop is guarded the machine halts on every subject. |
| Adequacy.LazyEmptyLoopNeverHalts | quickjs/libregexp.c:1596-1598 | Counterexample: the compiler accepts a lazy unbounded loop over an empty body under all flags, gives it no zero-advance test, and the machine never halts on its program, on any subject. |
| Adequacy.SelfReferentialLoopNeverHalts | quickjs/libregexp.c:1019-1026 | Counterexample: the compiler accepts a greedy loop over a body that refers to a capture it sets, gives it no zero-advance test (the check returns -1), and the machine never halts on its program. |
| Halting.StepUnder | quickjs/libregexp.c:2050-2086 | What a thread does until it fails or matches does not depend on the states saved below it; one instruction saves at most one state. |
| Halting.StepBounded | quickjs/libregexp.c:2089-2494 | For any bytecode: one instruction keeps position, captures, stack words, stack depth and program counter within bounds computed from sizes. |
| Halting.GreedyRounds | quickjs/libregexp.c:2464-2476 | The fast quantifier makes at most as many rounds as there are characters left. |
| Halting.ExploreRuns | quickjs/libregexp.c:2100-2172 | A thread whose outcome is known at some depth reaches it on the machine, over any saved states, within a number of steps computed from the depth. |
| Halting.ExploreLives | quickjs/libregexp.c:2100-2172 | A thread whose outcome is unknown at depth f keeps the machine running for at least f steps. |
| Halting.KnownByLimit | quickjs/libregexp.c:2089-2494 | Outcomes still unknown at a depth computed from sizes are never known: each level that tells something new settles another of finitely many threads. |
| Halting.HaltsIffWithinLimit | quickjs/libregexp.c:2089-2494 | For every bytecode program, compiled or not: the machine halts if and only if it has halted after a number of steps that depends only on the sizes of code, subject, captures and integer stack. |
| Halting.HaltsIffDecidedAtLimit | quickjs/libregexp.c:1596-1637 | For every compiled pattern: the machine halts if and only if the reference search is decided at one depth computed from those sizes. |
| Boundaries.LandMoves | quickjs/libregexp.c:113-121 | A fragment can be moved: its relative jumps land on the same instructions after code is inserted before or after it. |
| Boundaries.CodeJumpsOk | quickjs/libregexp.c:1600-1691 | Every jump of a compiled fragment lands on an instruction of the fragment or just past its end, at the stack depth the linear scan has there. |
| Boundaries.StepOk | quickjs/libregexp.c:2089-2494 | One machine transition keeps the invariant that program counter and all saved states are at instructions with the scanned stack depth. |
| Boundaries.ReachableStates | quickjs/libregexp.c:1771-1815 | In every reachable state the program counter is at an instruction of the program and the integer stack is exactly as deep as the linear scan finds there, hence never deeper than the size in the header. |
| Scans.InstrLen | quickjs/libregexp.c:963-972 | The opcode size table plus the length of a range table is the size of the encoded instruction. |
| Scans.Mark | quickjs/libregexp.c:992-1009 | Marking one capture in the bitmap adds it to the set of written or of referred captures and leaves the other set alone. |
| Scans.MarkSpan | quickjs/libregexp.c:997-1004 | A reset marks its captures except the last. |
| Scans.AnyBoth | quickjs/libregexp.c:1022-1025 | Some bitmap entry is 3 if and only if a capture is both written and referred to. |
| Scans.ReCheckAdvance | quickjs/libregexp.c:945-1030 | The pass over the bytes, with its bitmap, computes the advance verdict of the instruction list. |
| Scans.ReIsSimpleQuantifier | quickjs/libregexp.c:1032-1071 | The pass over the bytes counts the characters of straight-line code and returns -1 for any other code. |
| Scans.ComputeStackSize | quickjs/libregexp.c:1772-1815 | The linear pass returns the largest depth of the integer stack, or -1 when it exceeds 255. |
| Compiler.SpaceCovers | quickjs/libregexp.c:1590-1691 | Bytes needed while compiling bound the bytes emitted. |
| Compiler.REParseState.EmitOp | quickjs/libregexp.c:394-398 | Appends one opcode. |
| Compiler.REParseState.EmitOpU32 | quickjs/libregexp.c:400-407 | Appends opcode and 32-bit operand and returns where the operand is. |
| Compiler.REParseState.EmitGoto | quickjs/libregexp.c:409-416 | Appends a jump whose distance, modulo 2^32, leads back to the target. |
| Compiler.REParseState.EmitOpU8 | quickjs/libregexp.c:418-422 | Appends opcode and one operand byte. |
| Compiler.REParseState.EmitOpU16 | quickjs/libregexp.c:424-428 | Appends opcode and 16-bit operand. |
| Compiler.REParseState.DbufInsert | quickjs/libregexp.c:113-121 | Opens a gap: what was before stays, what was after moves up unchanged. |
| Compiler.REParseState.Rotate | quickjs/libregexp.c:1721-1733 | Moves the newest term in front of the terms before it. |
| Compiler.REParseState.PatchU32 | quickjs/libregexp.c:1765-1767 | Overwrites the operand of a jump emitted before its target was known, and nothing else. |
| Compiler.REParseState.InsertReset | quickjs/libregexp.c:1603-1612 | The capture reset in front of the atom; the atom moves up intact. |
| Compiler.REParseState.PutSimpleQuant | quickjs/libregexp.c:1563-1589 | In-place construction of the fast quantifier around the atom. |
| Compiler.REParseState.WrapInStar | quickjs/libregexp.c:1621-1637 | In-place unbounded loop, with or without the zero-advance test. |
| Compiler.REParseState.WrapInUpTo | quickjs/libregexp.c:1638-1649 | In-place counted loop with early exit. |
| Compiler.REParseState.WrapInExactly | quickjs/libregexp.c:1658-1666 | In-place mandatory rounds; the copy source moves by five bytes. |
| Compiler.REParseState.AppendStar | quickjs/libregexp.c:1667-1678 | A second copy of the atom as unbounded loop. |
| Compiler.REParseState.AppendUpTo | quickjs/libregexp.c:1679-1688 | A second copy of the atom as counted loop. |
| Compiler.REParseState.PutOptional | quickjs/libregexp.c:1613-1649 | All forms with minimum 0 after the reset. |
| Compiler.REParseState.ParseQuantifier | quickjs/libregexp.c:1563-1691 | Reworking the atom in place produces the encoding of the quantified code, for every atom, every pair of bounds and both kinds of greediness. |
| Compiler.REParseState.EmitRange | quickjs/libregexp.c:821-857 | Emits the class test, choosing the table width; fails if and only if there are 65535 ranges or more. |
| Parser.ReParseDisjunction | quickjs/libregexp.c:1738-1770 | Alternatives: split inserted in front of everything so far, jump appended and patched; succeeds if and only if the pattern is within the limits. |
| Parser.ReParseAlternative | quickjs/libregexp.c:1704-1736 | Terms in order, rotated when matching backwards. |
| Parser.ReParseTerm | quickjs/libregexp.c:1215-1693 | One term: the buffer grows by exactly the encoding of the node and the capture counter by its captures. |
| Parser.ReParseChar | quickjs/libregexp.c:1477-1499 | A character test, stepped over before and after when matching backwards. |
| Parser.ReParseCapture | quickjs/libregexp.c:1336-1355 | Numbers the capture and brackets its body; fails if and only if the count passes 255. |
| Parser.ReParseLookaround | quickjs/libregexp.c:1295-1313 | Body closed by a match opcode, jump patched past it. |
| Parser.ReParseQuantified | quickjs/libregexp.c:1500-1693 | Atom and quantifier together give the code of the quantified node. |
| Parser.EmitProgram | quickjs/libregexp.c:1851-1873 | Search loop unless sticky, capture 0 around the pattern, final match. |
| Parser.LreCompile | quickjs/libregexp.c:1821-1908 | Returns an image if and only if the pattern is within the limits (ranges per class, captures, stack depth), and the image is header plus encoded program. |
| Executor.REExecContext.constructor | quickjs/libregexp.c:2507-2533 | All captures NULL, both stacks empty, position and program counter at the start. |
| Executor.REExecContext.InRange16 | quickjs/libregexp.c:2367-2406 | The unsigned bisection over 16-bit bounds equals the machine test, and its index never goes below zero. |
| Executor.REExecContext.InRange32 | quickjs/libregexp.c:2407-2443 | The same over 32-bit bounds. |
| Executor.REExecContext.TestChar | quickjs/libregexp.c:2175-2191 | Character opcodes compute the same new position as the machine. |
| Executor.REExecContext.TestPosition | quickjs/libregexp.c:2227-2322 | Line and word assertions hold exactly when they do in the machine: by the ends of the subject, the four line ends, and a change of membership in the word class. |
| Executor.REExecContext.PushState | quickjs/libregexp.c:2050-2086 | Saves position, captures and integer stack. |
| Executor.REExecContext.ExecSplit | quickjs/libregexp.c:2192-2210 | Follows the machine transition of a split. |
| Executor.REExecContext.ExecLookahead | quickjs/libregexp.c:2211-2222 | Follows the machine transition of a lookaround. |
| Executor.REExecContext.ExecSave | quickjs/libregexp.c:2257-2262 | Writes the position to the begin or the end slot of a capture, as the opcode says, and to no other. |
| Executor.REExecContext.ExecSaveReset | quickjs/libregexp.c:2263-2276 | The loop resets both ends of the captures in the range and no others. |
| Executor.REExecContext.ExecLoop | quickjs/libregexp.c:2285-2291 | Counts down and jumps while not zero. |
| Executor.REExecContext.ExecBneCharPos | quickjs/libregexp.c:2295-2300 | Jumps when the position differs from the one pushed. |
| Executor.REExecContext.CompareForward | quickjs/libregexp.c:2335-2349 | The forward comparison loop succeeds exactly when a copy of the captured text follows, up to folding, and returns the position behind it. |
| Executor.REExecContext.CompareBackward | quickjs/libregexp.c:2350-2364 | The backward comparison loop succeeds exactly when a copy of the captured text precedes, and returns the position before it. |
| Executor.REExecContext.ExecBackReference | quickjs/libregexp.c:2323-2366 | A capture that is not set matches the empty string; one that does not exist fails. |
| Executor.REExecContext.RunAtomOnce | quickjs/libregexp.c:2106-2116 | The nested run without saved states equals the machine's run of the atom. |
| Executor.REExecContext.Repeat | quickjs/libregexp.c:2464-2476 | The repetition loop of the greedy quantifier. |
| Executor.REExecContext.ExecSimpleQuant | quickjs/libregexp.c:2450-2488 | Follows the machine transition of the greedy quantifier. |
| Executor.REExecContext.ExecOpcode | quickjs/libregexp.c:2104-2494 | One turn of the dispatch loop is one machine transition, for every opcode. |
| Executor.REExecContext.GiveBack | quickjs/libregexp.c:2137-2159 | Backtracking into the greedy quantifier: character by character back, one round less. |
| Executor.REExecContext.Unwind | quickjs/libregexp.c:2118-2172 | One turn of the unwinding loop is one machine transition. |
| Executor.REExecContext.LreExecBacktrack | quickjs/libregexp.c:2089-2494 | The whole imperative run ends, and with exactly the answer at which the machine halts. |
| Engine.LreExec | quickjs/libregexp.c:2499-2535 | Executing an image gives the answer of the machine on the program the image holds. |
| Engine.CodeIgnoresInput | quickjs/libregexp.c:1821-1908 | The emitted code depends on flags and case folding only, not on the subject. |
| Engine.ImageLoads | quickjs/libregexp.c:2507-2516 | An image produced by the compiler is, on any subject, the program of its pattern. |
| Engine.ImageAnswers | quickjs/libregexp.c:2499-2535 | A decided reference search bounds the run on the image and gives its answer. |
| Engine.VerdictPlaced | quickjs/libregexp.c:2499-2535 | A reported match has two slots per capture, with start position <= begin <= end <= length for capture 0, and begins at the start position when the sticky bit is set. |
| Engine.CompileAndExec | quickjs/libregexp.c:1821-2535 | Client theorem: compile and execute returns what the reference search says, at whatever depth it is decided; a pattern is rejected if and only if it exceeds the limits. |
| Engine.GuardedDecided | quickjs/libregexp.c:1621-1637 | Guarded patterns are decided at a depth known beforehand. |
| Engine.CompileAndExecGuarded | quickjs/libregexp.c:1821-2535 | For guarded patterns compile and execute always ends, with the reference verdict. |
| Limbs.MpAdd | quickjs/libbf.c:1024-1040 | Sum plus carry out equals the two numbers plus carry in, also in place; nothing else changes. |
| Limbs.MpAddUi | quickjs/libbf.c:1042-1056 | Adding one limb with early exit. |
| Limbs.MpSub | quickjs/libbf.c:1058-1074 | Difference and borrow, also in place. |
| Limbs.MpNeg | quickjs/libbf.c:1076-1092 | Negation modulo B^n with borrow. |
| Limbs.MpSubUi | quickjs/libbf.c:1094-1109 | Subtracting one limb with early exit. |
| Limbs.MpShr | quickjs/libbf.c:1111-1127 | Right shift by any number of bits, high limb shifted in, bits shifted out returned, also in place. |
| Limbs.MpMul1 | quickjs/libbf.c:1129-1142 | Product by one limb plus carry in. |
| Limbs.MpAddMul1 | quickjs/libbf.c:1144-1158 | Multiply and accumulate. |
| Limbs.MpSubMul1 | quickjs/libbf.c:1196-1211 | Multiply and subtract in wrapped double-limb arithmetic. |
| Limbs.Wrapped | quickjs/libbf.c:1206-1208 | The negated high half of a wrapped negative double limb is what has to be borrowed. |
| Limbs.MpMulBasecase | quickjs/libbf.c:1160-1172 | The schoolbook product is the product. |
| Limbs.MpCmp | quickjs/libbf.c:1414-1427 | Comparison from the top limb down orders the values. |
| DivLimb.Udiv1normInit | quickjs/libbf.c:1213-1220 | The precomputed inverse is floor((B^2 - 1) / d) - B. |
| DivLimb.EstimateIdentity | quickjs/libbf.c:1229-1234 | Exact value of the error of the quotient estimate, as a sum of three small terms. |
| DivLimb.Estimate | quickjs/libbf.c:1229-1234 | The estimate from the inverse is the quotient or one less, for all dividends. |
| DivLimb.Udiv1norm | quickjs/libbf.c:1222-1242 | Exact quotient and remainder of two limbs by a normalized one, for all 0 <= a1 < d. |
| FastDiv.FastUdivInit | quickjs/libbf.c:5462-5483 | The precomputed multiplier and shifts divide by any limb d. |
| FastDiv.MultiplierExact | quickjs/libbf.c:5462-5483 | The multiplier is exact for every limb. |
| FastDiv.QuotientIffReaches | quickjs/libbf.c:5485-5491 | Exact condition: multiplication and shifts give floor(a / d) if and only if the excess of the multiplier, times a, stays below the gap to the next multiple of d. |
| FastDiv.FastUdiv | quickjs/libbf.c:5485-5491 | floor(a / d) for every limb a. |
| FastDiv.LastEntry | quickjs/libbf.c:5519-5552 | The table entry for 10^19 is not what the initialisation computes but two larger, and still exact. |
| FastDiv.TableDivides | quickjs/libbf.c:5519-5552 | All twenty entries divide by their power of ten. |
| FastDiv.FastShrRemDec | quickjs/libbf.c:5556-5563 | Quotient and remainder by any power of ten up to 10^19. |
| FastDiv.BaseEstimate | quickjs/libbf.c:5418-5424 | The quotient estimate for base 10^19 is never too large and at most two too small. |
| FastDiv.DivdqBase | quickjs/libbf.c:5412-5431 | Exact quotient and remainder of two limbs by 10^19 for all a1 < 2^63. |
| Divnorm.MpDiv1norm | quickjs/libbf.c:1244-1265 | Division of n limbs by one, on both sides of the threshold. |
| Divnorm.TrialBounds | quickjs/libbf.c:1311-1321 | The trial digit is never too small and at most two too large. |
| Divnorm.AddBack | quickjs/libbf.c:1328-1341 | At most two divisors are added back, and the window then holds the true remainder. |
| Divnorm.DivDigit | quickjs/libbf.c:1309-1342 | One quotient limb: window minus digit times divisor, below the divisor, with at most two corrections. |
| Divnorm.TopQuotient | quickjs/libbf.c:1296-1304 | The top quotient limb is 1 exactly when the divisor fits. |
| Divnorm.MpDivnormBase | quickjs/libbf.c:1271-1344 | Schoolbook division: Q * b + R = old a, R < b, top limb of Q at most 1. |
| Newton.StartBound | quickjs/libbf.c:1385-1393 | The reciprocal of the high limbs is at most two too small for the whole divisor. |
| Newton.RefineIdentity | quickjs/libbf.c:1394-1403 | Exact error of one Newton step, as a sum of three terms. |
| Newton.Refine | quickjs/libbf.c:1384-1404 | One Newton step keeps a * r < B^(2n) < a * (r + 2). |
| Newton.NeverTooLarge | quickjs/libbf.c:1472-1478 | The quotient by the truncated inverse is never too large. |
| Newton.AtMostThreeTooSmall | quickjs/libbf.c:1472-1510 | It is at most three too small. |
| Reciprocal.Residual | quickjs/libbf.c:1387-1396 | The decrement loop ends with the largest product below B^(n + h); then T is what is missing. |
| Reciprocal.Complement | quickjs/libbf.c:1394-1396 | Negation and increment of the top limb turn T into B^m - T. |
| Reciprocal.RefineLimbs | quickjs/libbf.c:1400-1403 | The digits of the correction fit: the carry dropped by the final addition is 0. |
| Reciprocal.AddWithin | quickjs/libbf.c:1400-1403 | Adding in place with the carry dropped is exact when the sum fits. |
| Reciprocal.Assemble | quickjs/libbf.c:1400-1403 | Joining old and new digits in place gives the refined reciprocal. |
| Reciprocal.MpRecip | quickjs/libbf.c:1346-1412 | For every n and normalized a: a * r < B^(2n) < a * (r + 2) and r has a one on top. |
| Reciprocal.DivisorInverse | quickjs/libbf.c:1453-1472 | Inverse of the divisor, widened with zeros or cut off and rounded up, including the case where that is B^n. |
| Reciprocal.ApproximateQuotient | quickjs/libbf.c:1472-1478 | The quotient taken from the product with the inverse: never too large, at most three too small. |
| Reciprocal.SubtractProduct | quickjs/libbf.c:1487-1494 | The remainder computed on nb + 1 limbs only is the true one. |
| Reciprocal.CorrectUp | quickjs/libbf.c:1496-1510 | At most three divisors are subtracted. |
| Reciprocal.MpDivnormLarge | quickjs/libbf.c:1432-1522 | Division by the reciprocal meets the same contract as the schoolbook form. |
| Reciprocal.MpDivnorm | quickjs/libbf.c:1271-1344 | Division for all sizes, through whichever of the three forms applies. |
| Sqrt.TableEntry | quickjs/libbf.c:1881-1883 | All 192 table entries are integer square roots. |
| Sqrt.SqrtIsFloor | quickjs/libbf.c:1885-1886 | s * s + r = a with 0 <= r <= 2s means s is the floor of the square root. |
| Sqrt.SqrtStep | quickjs/libbf.c:1998-2039 | One doubling of the precision: the new root is exact or one too large, and then one step back makes the remainder non-negative. |
| Sqrt.TableRoot | quickjs/libbf.c:1891-1897 | 16-bit root from the table with at most one increment. |
| Sqrt.DoubleBits | quickjs/libbf.c:1899-1925 | The two limb-sized iterations in wrapped arithmetic. |
| Sqrt.MpSqrtrem1 | quickjs/libbf.c:1884-1928 | Root and remainder of every limb with one of its top two bits set. |
| Sqrt.MpSqrtrem2 | quickjs/libbf.c:1944-1970 | Root and remainder of two limbs, including q = 2^32 and the root wrapping to 0. |
| Sqrt.HalveQuotient | quickjs/libbf.c:1998-2014 | Dividing by the root of the upper half and halving equals dividing by twice that root. |
| Sqrt.JoinHalves | quickjs/libbf.c:2020-2020 | The top bit of the quotient goes into the upper half; the root wraps to 0 exactly when it is B^n. |
| Sqrt.SubtractSquare | quickjs/libbf.c:2025-2034 | Subtracts the square of the lower half, with the shortcut when it is B^l. |
| Sqrt.FixUp | quickjs/libbf.c:2034-2040 | A single step back is enough, and also repairs the wrapped root. |
| Sqrt.MpSqrtremRec | quickjs/libbf.c:1974-2042 | Karatsuba square root for every n >= 1 and every number with top limb at least B / 4: s * s + r = a and 0 <= r <= 2s. |
| Sqrt.MpSqrtrem | quickjs/libbf.c:2044-2068 | Floor of the square root, remainder in n + 1 limbs. |

## Left out

Regular expressions:

- Pattern text: escapes, Annex B fallbacks, group names and their table behind the code, named references, syntax errors. The model starts from the calls the parser makes and covers the three errors raised while emitting.
- Engine.LreExec: does not model subjects read in surrogate pairs (`cbuf_type` 2); `Utf16` proves that on those the executor sees a list of characters, which is what the model runs on.
- Executor.REExecContext.LreExecBacktrack: the same, and no allocation error result.
- Parser.ReParseTerm: starts from a pattern node, so the branches on text (escapes, Annex B) and their errors are not part of it.
- Parser.ReParseQuantified: bounds and greediness arrive parsed; the fallbacks and errors of the brace syntax are not part of it.
- Parser.LreCompile: does not model text errors, nor the table of group names behind the code and its header flag.
- Case folding of characters beyond ASCII: folding is a parameter of compiler and executor. The Unicode tables are not part of this model.
- Growing buffers, allocation failure and the check for native stack overflow. The code and every intermediate buffer are assumed to stay below 2^31 bytes, the range of the `int` offsets.
- Executor.REExecContext.RunAtomOnce: the executor's call on itself with saving switched off is modelled as a loop of its own over the opcodes such code can contain.
- Adequacy.GuardedHalts: the guard on loops is sufficient for halting, not necessary; the exact statement is Halting.HaltsIffDecidedAtLimit.

Arithmetic:

- FFT multiplication: products are always formed by the schoolbook loop, also where the source would switch.
- The 32-bit limb and AVX2 variants, allocation failure and shared temporary buffers.
- FastDiv.FastUdivInit: for divisors above 2^63 the source shifts a limb by 64, which C leaves undefined; the model takes the result to be 0.
- Decimal long division (`mp_div_dec`): the digit argument is that of Divnorm.TrialBounds, which holds for every base, on a second set of carry loops.
- Everything above whole numbers of limbs: rounding, floating addition, radix conversion, transcendental functions, the number-theoretic transform.

Other libraries of the repository (sorting, Unicode tables, the source compressor, the calculator's number theory) are not modelled.
