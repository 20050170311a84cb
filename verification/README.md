# A verified model of the QuickJS numeric and matching cores

This project models six C files of QuickJS in Dafny and proves what their algorithms are for. Code
that changes arrays, buffers and objects in place is modelled by methods that do the same, each
proved against a specification; the specifications are then related to independent definitions.

- **Regular expressions** (`quickjs/libregexp.c`). `RegexpEmit` patches one byte buffer as the parser
  does and is proved to produce the encoding of `RegexpCompile.Compile`. `RegexpVM.Step` is one turn of
  the backtracking machine on that bytecode, `RegexpExec` the interpreter loop with its operand stack
  and its stack of pending states, proved to follow `Step` turn by turn. `RegexpSemantics.Ends` lists
  the successes of a pattern in priority order and `Lang` is the language of a pattern, defined without
  any order. `RegexpTheorem`: the compiled code delivers exactly `Ends`. `RegexpLanguage`: `Ends` and
  `Lang` have the same positions. `RegexpRun`: execution halts with the first success, whenever no
  unbounded loop can go through an unnoticed empty round. `RegexpHalts`: which trees guarantee that, all
  greedy patterns without back references among them. `RegexpDiverge`: for a lazy loop this condition is
  also necessary. `RegexpAnswers`: whenever execution ends, for whatever reason, it accepts iff the
  language does. `RegexpCaptures`: then every group has registers between which its body matches.
  `RegexpReference` is a matcher with continuations that shares no definition of matching with the
  others; it delivers the same registers. `RegexpAtoms` gives single characters, classes and assertions under each
  flag from the input alone, `RegexpVerdict` tells from the tree what the scans of the compiler find.
  `RegexpApi` puts compilation and execution together. Captures, back references,
  look-around in both directions and both kinds of quantifiers are covered by the equivalence of code
  and `Ends`; the language is defined for patterns without back references. `RegexpClosed`: every jump
  of every block lands on an instruction of the block at the depth the linear scan computes there, so
  the operand stack never exceeds its bound.
- **Limbs** (`quickjs/libbf.c`). `Limbs`, `LimbOps`: words of 64 bits in arrays and the schoolbook loops
  on them. `LimbDiv`, `LimbRecip`, `LimbDivLarge`: division with a precomputed inverse, the Newton
  reciprocal and division by it. `LimbSqrt`, `LimbSqrtRec`: the recursive square root.
- **Number theoretic transform** (`quickjs/libbf.c`). From the modular arithmetic on words (`NttArith`)
  over the transform, its recursive split and the convolution (`NttDft`, `NttFft`, `NttSplit`,
  `NttConv`) to the product of two integers (`NttDigits`, `NttGarner`, `NttMul`). The theory of the
  discrete transform is in `NttDft`; `NttInit` shows that the constants of the source have the
  properties the rest relies on.
- **Correct rounding** (`quickjs/libbf.c`). `Rounding` defines what section 4.3 of IEEE 754-2008 asks of
  a rounded quotient, plus the mode that rounds away from zero. `BfExact.RoundsTo` says what it means
  that a number and a status are an exact rational value rounded, with overflow, underflow and
  subnormal numbers; rounding (`BfNumber`), addition (`BfAdd`) and division (`BfDiv`) are proved against it.
  `BfDirected` relates any such result to the numbers there are: on the right side of the exact value,
  none in between, infinity after all of them, and the status that says so.
  `BfLogic` treats the bit operations on sign and magnitude as operations on all bits of two's
  complement integers, `BfRadix` the conversion of the radix.
- **Sorting** (`quickjs/cutils.c`, `RqSort`), **compression** (`quickjs/jscompress.c`, `LzCompress`) and
  **code point sets and tables** (`quickjs/libunicode.c`, `CharRange`, `UnicodeTable`), the tables also
  from the side that writes them (`quickjs/unicode_gen.c`, `UnicodeRuns`, `UnicodeGen`).

A limb is an integer below B = 2^64. Pointers into arrays are an array and an offset, `At(a, o, n)` is
the value of n limbs from offset o on, and `Outside` says that nothing else in the array has changed.

## Where the code and its documentation differ

- Lazy quantifiers and loops around a back reference to a group of their own get no check for empty
  rounds (`quickjs/libregexp.c:1584-1590`), so such a pattern can run for ever:
  `RegexpRun.LazyEmptyRunsForever` and `RegexpDiverge.OwnRefRunsForever` each give one.
  `RegexpTheorem.Supported` asks of every loop without a check that no round of it can be empty on the
  input at hand; then execution halts. `RegexpDiverge.LazyHaltsIff` shows that a lazy loop before
  something that fails halts from every start if and only if its rounds cannot be empty; without
  assertions this can be read off the tree (`RegexpDiverge.LazyPlainIff`).
  `RegexpHalts.TreeSafeSupported` gives a condition on the tree for any input. If execution ends all the
  same, the answer is right for every pattern without back references (`RegexpAnswers.AnswerIsRight`).
- An empty round of a loop ends the loop (`quickjs/libregexp.c:1620-1626`) where section 21.2.2 of
  ECMA-262 rejects it. `Ends` follows the code. The language accepted is the same
  (`RegexpLanguage.EndsHits`).
- The comment on `count_cancelled_bits` promises that many leading zero bits; the difference may have
  one less (`BfCancel.OneLess`). `BfCancel.PromiseKept` says for which operands the promise is kept.
- The assertion in `init_mul_mod_fast` (`quickjs/libbf.c:7418-7425`) admits the modulus 2^61. Of all moduli
  it admits that is the one whose inverse does not fit in a limb (`NttArith.InverseFitsIff`); the moduli
  in use are larger.
- `bf_get_fft_size` (`quickjs/libbf.c:8319-8321`) looks for the cheapest transform, but not among digits
  longer than half the width less two bits. That misses the cheapest one for products of 19 limbs and
  for no others (`NttMul.BfGetFftSize`, `NttMul.Nineteen`). The source calls it for products of 200 limbs and more.
- Without subnormal numbers a value whose rounding is below 2^(emin - 1) becomes zero also in the modes that
  must not go toward zero (`quickjs/libbf.c:553-563`), and with infinite precision an overflow becomes
  infinity also in those that must not go away from it (`quickjs/libbf.c:454-460`). These are the only
  exceptions to the sides the modes promise (`BfDirected.AwayIs`, `BfDirected.TowardIs`).
- With precision 0 an overflow that rounds to the largest finite number has no limb to be stored in
  (`quickjs/libbf.c:461-474`). `BfExact.HasRoom` is the condition that this does not happen, and all that
  rounding asks for; `BfExact.NoRoom` is an input that violates it. The header allows the precision
  mode of the radix point for `bf_round` only, and so do addition and division.

## Model

| member | source | states |
|---|---|---|
| CharRanges.CharRange.Compress | quickjs/libunicode.c:326-352 | merging in place keeps the set and leaves strictly ascending points |
| CharRanges.CharRange.Combine | quickjs/libunicode.c:355-405 | the merge of two point lists is the pointwise union, intersection or exclusive or, with strictly ascending points, even in number |
| CharRanges.CharRange.UnionWith | quickjs/libunicode.c:407-417 | adds a set to this one |
| CharRanges.CharRange.Invert | quickjs/libunicode.c:419-431 | the complement within [0, 2^32 - 1) |
| CharRanges.InIsOdd | quickjs/libunicode.c:355-405 | being in an interval is having passed an odd number of points |
| CharRanges.CombinesStep | quickjs/libunicode.c:366-401 | adding a point exactly when the combined status changes keeps the parities right for every code point |
| CharRanges.Canonical | quickjs/libunicode.c:326-352 | compressed lists are canonical: equal sets have equal points |
| CharRanges.InvertedPoints | quickjs/libunicode.c:419-431 | framing the points with 0 and 2^32 - 1 complements the set |
| RegexpCode.DecodeEnc | quickjs/libregexp.c:394-428 | decoding inverts encoding for every instruction, wherever it sits |
| RegexpCode.EncAllAt | quickjs/libregexp.c:394-428 | a block whose bytes are found at a position is fetched instruction by instruction from there |
| RegexpScan.IsSimpleQuantifier | quickjs/libregexp.c:1033-1070 | the scan of the bytes returns the number of characters of straight-line code, or -1 |
| RegexpScan.CheckAdvanceScan | quickjs/libregexp.c:949-1029 | the scan of the bytes with its bitmap of groups decides between progress, no own back reference, and neither |
| RegexpVerdict.VerdictIs | quickjs/libregexp.c:949-1070 | told from the tree: the verdict is -1 iff a back reference reads a group the pattern sets, otherwise 1 iff the first thing with a say is a character; and how many characters straight-line code has |
| RegexpScan.ComputeStackSize | quickjs/libregexp.c:1762-1804 | the scan of the bytes returns the largest depth, or -1 above the limit |
| RegexpEmit.REParseState.EmitGoto | quickjs/libregexp.c:409-416 | appends a jump whose displacement leads to the given position |
| RegexpEmit.REParseState.Insert | quickjs/libregexp.c:113-121 | opens a gap and moves what follows, nothing else changes |
| RegexpEmit.REParseState.EmitRange | quickjs/libregexp.c:820-856 | appends the range instruction of the class, or fails on 65535 ranges and more |
| RegexpEmit.REParseState.Quantifier | quickjs/libregexp.c:1546-1684 | inserting, copying and patching around the atom in the buffer yields the encoding of the quantified block |
| RegexpEmit.REParseState.Rotate | quickjs/libregexp.c:1713-1725 | the new term moves in front of the earlier ones |
| RegexpEmit.REParseState.Emit | quickjs/libregexp.c:1209-1694 | emits the compiled block of any term, or fails exactly on too many groups or ranges |
| RegexpEmit.REParseState.Alternative | quickjs/libregexp.c:1696-1728 | emits a sequence of terms, in reverse order when matching backward |
| RegexpEmit.REParseState.Disjunction | quickjs/libregexp.c:1730-1759 | emits alternatives, inserting a split in front of everything before each of them |
| RegexpClosed.DepthConcat | quickjs/libregexp.c:1762-1804 | the net stack effect of code is additive |
| RegexpClosed.ClosedQuant | quickjs/libregexp.c:1555-1684 | every form of quantifier around a closed block is closed |
| RegexpClosed.CompileClosed | quickjs/libregexp.c:1555-1756 | for every construct in both directions each jump lands on an instruction of the block, at the depth of the linear scan there |
| RegexpRun.StepKeepsStack | quickjs/libregexp.c:2266-2289 | one turn of the machine keeps program counters on instructions and the operand stack, also of all pending states, at the scanned depth |
| RegexpRun.StackBounded | quickjs/libregexp.c:1762-1804 | in every run of every closed program the operand stack stays within the recorded size |
| RegexpRun.ProgramClosed | quickjs/libregexp.c:1840-1862 | the programs the compiler emits are closed, whatever the pattern uses |
| RegexpCorrect.RangeInstrAccepts | quickjs/libregexp.c:820-856 | the emitted ranges accept exactly the code points of the class, with 0xffff standing for no upper bound |
| RegexpCorrect.EndsMove | quickjs/libregexp.c:2164-2180 | no success lies against the direction of matching |
| RegexpCorrect.AdvanceStrict | quickjs/libregexp.c:949-1029 | where the scan promises progress every success consumes a character |
| RegexpBlocks.StarOk | quickjs/libregexp.c:1613-1629 | the unbounded loop enumerates zero and more rounds, ending a loop at an empty round |
| RegexpBlocks.UpToOk | quickjs/libregexp.c:1630-1641 | the counted optional loop enumerates up to n rounds |
| RegexpBlocks.ExactOk | quickjs/libregexp.c:1650-1657 | the counted loop enumerates exactly n rounds |
| RegexpBlocks.AltOk | quickjs/libregexp.c:1737-1757 | a split and a jump around two blocks enumerate the successes of the first, then those of the second |
| RegexpQuant.SimpleFormOk | quickjs/libregexp.c:1557-1581 | the compact greedy form enumerates the same successes, in the same order, as the general loops |
| RegexpQuant.QuantOk | quickjs/libregexp.c:1555-1684 | so does every form of quantifier the parser chooses |
| RegexpTheorem.SimpleEnds | quickjs/libregexp.c:1033-1070 | straight-line code has exactly the successes of its atom and no groups |
| RegexpTheorem.CompileOk | quickjs/libregexp.c:1209-1759 | the code of a pattern whose loops are safe on the input, wherever it is stored and in both directions, delivers the successes of the pattern in priority order and then fails back |
| RegexpLanguage.EndsHits | quickjs/libregexp.c:1494-1759 | a pattern has a success at a position iff its language connects the two positions |
| RegexpRun.StickyRun | quickjs/libregexp.c:2078-2163 | if the loops are safe on the input, a sticky run halts with the first success and its captures, or without a match |
| RegexpRun.StickyAccepts | quickjs/libregexp.c:2078-2483 | if the loops are safe on the input, a sticky run halts, and matches iff some prefix of the rest of the input is in the language |
| RegexpRun.SearchRun | quickjs/libregexp.c:1840-1848 | with the search loop in front the machine, the loops of the pattern being safe on the input, halts with the first success at the leftmost possible start |
| RegexpRun.SearchIffLang | quickjs/libregexp.c:1840-1848 | a search succeeds iff a match starts at or after the index |
| RegexpRun.LazyEmptyCode | quickjs/libregexp.c:1584-1590 | the code of the pattern /(?:)*?b/ has a loop without a check |
| RegexpRun.LazyEmptyRunsForever | quickjs/libregexp.c:1584-1590 | on the input "a" that code is still running after any number of steps |
| RegexpHalts.CompileNoRefs | quickjs/libregexp.c:949-1029 | copying and inserting never introduces a back reference |
| RegexpHalts.NeverEmptyMoves | quickjs/libregexp.c:1494-1684 | a pattern that by its shape matches no empty string has all its successes elsewhere |
| RegexpHalts.PlainStrictIff | quickjs/libregexp.c:1494-1684 | without assertions and back references the shape decides whether an empty success exists, on every input |
| RegexpHalts.TreeSafeSupported | quickjs/libregexp.c:1584-1684 | if every unbounded loop is over such an atom, or greedy without back references, all loops are safe on every input |
| RegexpHalts.GreedySupported | quickjs/libregexp.c:1584-1684 | so it is for greedy patterns without back references |
| RegexpHalts.SafeHalts | quickjs/libregexp.c:2078-2483 | for such a tree the sticky and the searching program halt on every input, and match iff the language does |
| RegexpHalts.GreedyHalts | quickjs/libregexp.c:2078-2483 | in particular for every greedy pattern without back references |
| RegexpBlocks.LazyLimited | quickjs/libregexp.c:1588-1681 | in executions that end within a limit, a lazy loop without a check enumerates at most that many rounds |
| RegexpLanguage.FewSteps | quickjs/libregexp.c:1588-1681 | rounds that consume nothing can be left out: what a loop reaches it reaches in at most as many rounds as there are characters |
| RegexpAnswers.CutOutcome | quickjs/libregexp.c:2078-2483 | an execution that ends, sticky or searching, ends with the first success of the pattern with its lazy loops cut off |
| RegexpAnswers.AnswerIsRight | quickjs/libregexp.c:2078-2483 | for every pattern without back references, lazy loops of any kind included: if the machine stops, it reports a match iff the language has one |
| RegexpCaptures.EndsGroups | quickjs/libregexp.c:1336-1346 | every success of every construct leaves each group either without a part in the match or with registers between which its body matches |
| RegexpCaptures.AnswerCaptures | quickjs/libregexp.c:2246-2264 | the registers of a machine that stops with a match: group 0 is a match, sticky or leftmost, and every other group has not taken part or its body matches between its registers |
| RegexpReference.AttemptIs | quickjs/libregexp.c:1209-1759 | a matcher with continuations in the style of section 21.2.2 of ECMA-262 delivers what the continuation accepts first among the successes, for every construct, back references included |
| RegexpReference.MatchAtIs | quickjs/libregexp.c:1849-1862 | so the reference for a whole match at one place delivers the registers of the first success |
| RegexpReference.MatchFromIs | quickjs/libregexp.c:1840-1848 | and the reference for a search those of the first success at the leftmost start |
| RegexpAtoms.AtomAccepts | quickjs/libregexp.c:1219-1236 | what single characters, classes and assertions match, from the input and the flag bits 4, 8 and 32 alone |
| RegexpDiverge.LazyQuantIff | quickjs/libregexp.c:1588-1681 | the code of a lazy unbounded quantifier, in each of its forms and both directions, enumerates the quantifier iff no round can be empty |
| RegexpDiverge.LazyHaltsIff | quickjs/libregexp.c:1588-1681 | followed by something that fails, a lazy unbounded quantifier without back references halts from every start iff no round can be empty on the input |
| RegexpDiverge.LazyPlainIff | quickjs/libregexp.c:1588-1681 | without assertions this is a property of the tree |
| RegexpDiverge.OwnRefCode | quickjs/libregexp.c:1584-1587 | the code of the greedy pattern /(?:()\1)*/ has a loop without a check |
| RegexpDiverge.OwnRefRunsForever | quickjs/libregexp.c:1584-1587 | it never halts, on any input and from any start |
| RegexpExec.SearchRange | quickjs/libregexp.c:2356-2395 | the binary search over 16-bit ranges decides membership |
| RegexpExec.SearchRange32 | quickjs/libregexp.c:2396-2432 | the binary search over 32-bit ranges decides membership |
| RegexpExec.TestChar | quickjs/libregexp.c:2164-2245 | each opcode that reads a character accepts exactly the characters it stands for |
| RegexpExec.RunGreedy | quickjs/libregexp.c:2453-2465 | the loop of the compact quantifier counts the rounds that match, up to the limit |
| RegexpExec.REExecContext.PushState | quickjs/libregexp.c:2039-2075 | the registers, captures and operand stack are saved on top of the pending states |
| RegexpExec.REExecContext.StepOpcode | quickjs/libregexp.c:2164-2478 | interpreting one opcode is one step of the machine |
| RegexpExec.REExecContext.Backtrack | quickjs/libregexp.c:2106-2162 | popping pending states resumes the machine where its steps lead, or ends the run with the final answer |
| RegexpExec.REExecContext.Execute | quickjs/libregexp.c:2078-2483 | the interpreter loop ends in the final state of the machine, with its position and captures, and never leaves its stack |
| RegexpApi.HeaderFields | quickjs/libregexp.c:103-107 | the header gives back flags, group count, stack size and length |
| RegexpApi.RunOutcome | quickjs/libregexp.c:2488-2524 | compiled bytes of a pattern with safe loops, loaded and started, answer with the first success |
| RegexpApi.SupportedHalts | quickjs/libregexp.c:2488-2524 | so execution of any bytes that hold such a pattern ends |
| RegexpApi.AtomHalts | quickjs/libregexp.c:2488-2524 | execution of single characters, classes and assertions ends |
| RegexpApi.AnswerDelivers | quickjs/libregexp.c:2078-2524 | an execution that ends delivers, for patterns without back references, the answer of the language and registers that match group by group, and with safe loops the registers of the reference matcher |
| RegexpApi.LreCompile | quickjs/libregexp.c:1810-1898 | compilation succeeds exactly within the limits on groups, ranges and stack, and delivers the header and code of the pattern |
| RegexpApi.LreExec | quickjs/libregexp.c:2488-2524 | every execution that ends delivers the answer of the language and registers right for every group, for patterns without back references; with safe loops exactly the registers of the reference matcher, for every pattern |
| RegexpApi.Match | quickjs/libregexp.c:1810-2524 | compiling and executing, if it ends, delivers the answer and registers of the pattern; for single characters, classes and assertions the answer is the one read off the input and the flag bits |
| LimbOps.MpAdd | quickjs/libbf.c:1024-1040 | sum and carry out, with the result allowed to overlap |
| LimbOps.MpSub | quickjs/libbf.c:1058-1074 | difference and borrow out |
| LimbOps.MpNeg | quickjs/libbf.c:1077-1092 | negation modulo B^n |
| LimbOps.MpAddUi | quickjs/libbf.c:1042-1056 | the loop that stops at the first missing carry still adds to the whole number |
| LimbOps.MpSubUi | quickjs/libbf.c:1094-1109 | likewise for subtraction |
| LimbOps.MpShr | quickjs/libbf.c:1113-1127 | quotient and remainder by a power of two |
| LimbOps.MpMul1 | quickjs/libbf.c:1130-1142 | product with a limb, plus a limb |
| LimbOps.MpAddMul1 | quickjs/libbf.c:1145-1158 | adds a product with a limb |
| LimbOps.MpSubMul1 | quickjs/libbf.c:1198-1211 | subtracts a product with a limb; the limb returned is what the next one owes |
| LimbOps.MpMulBasecase | quickjs/libbf.c:1161-1172 | the schoolbook product |
| LimbOps.MpCmp | quickjs/libbf.c:1415-1427 | the order of the values |
| LimbDiv.Udiv1normInit | quickjs/libbf.c:1214-1220 | the inverse floor((B^2 - 1) / d) - B fits in a limb |
| LimbDiv.EstimateOk | quickjs/libbf.c:1224-1242 | the first estimate from the inverse is exact or one too small |
| LimbDiv.Udiv1norm | quickjs/libbf.c:1224-1242 | with wrapping products and masks, quotient and remainder of two limbs by a normalized one |
| LimbDiv.MpDiv1norm | quickjs/libbf.c:1245-1265 | quotient and remainder by one limb, the top digit at most 1 |
| LimbDiv.GuessNotBelow | quickjs/libbf.c:1311-1320 | the true digit is never above a guess from the leading limbs |
| LimbDiv.GuessNotFarAbove | quickjs/libbf.c:1311-1320 | a guess for a normalized divisor is at most 2 too large |
| LimbDiv.GuessDigit | quickjs/libbf.c:1311-1320 | both ways to guess a digit are good guesses |
| LimbDiv.AddBack | quickjs/libbf.c:1328-1340 | adding the divisor back at most twice restores a remainder in range |
| LimbDiv.DivLimb | quickjs/libbf.c:1310-1341 | one round yields the exact digit and remainder of its window |
| LimbDiv.MpDivnormBase | quickjs/libbf.c:1281-1343 | a = q * b + r with r < b and a top digit of at most 1, for every normalized divisor |
| LimbRecip.NewtonIdentity | quickjs/libbf.c:1387-1403 | the error of the refined reciprocal in terms of what the truncations cut off |
| LimbRecip.NewtonStep | quickjs/libbf.c:1387-1403 | a reciprocal that is at most 2 too small is refined to one of twice the length with the same bound |
| LimbRecip.RecipDirect | quickjs/libbf.c:1356-1373 | the reciprocal by division |
| LimbRecip.RecipRefine | quickjs/libbf.c:1384-1403 | the refinement in the arrays |
| LimbRecip.MpRecip | quickjs/libbf.c:1351-1412 | x * a < B^2n < a * (x + 2) and the top limb is 1, for every normalized a of n limbs |
| LimbDivLarge.EstimateExact | quickjs/libbf.c:1453-1478 | with a divisor scaled up the estimate is never above the quotient and less than 4 below |
| LimbDivLarge.EstimateCut | quickjs/libbf.c:1458-1478 | so is the estimate with a divisor cut to its leading limbs and incremented |
| LimbDivLarge.CountUp | quickjs/libbf.c:1502-1510 | at most three corrections reach the quotient |
| LimbDivLarge.MpDivnormLarge | quickjs/libbf.c:1433-1522 | exact quotient and remainder, with both choices of the inverse |
| LimbDivLarge.MpDivnorm | quickjs/libbf.c:1275-1344 | exact quotient and remainder whichever algorithm is chosen |
| LimbSqrt.SqrtTable | quickjs/libbf.c:1881-1883 | each entry is the floor of the root of 256 times its high byte |
| LimbSqrt.RootIsFloor | quickjs/libbf.c:1885-1886 | a = s * s + r with 0 <= r <= 2 * s makes s the floor of the root |
| LimbSqrt.KaratsubaStep | quickjs/libbf.c:1998-2039 | root of the leading half and one division give a root that is exact or one too large, also when the quotient reaches the digit base |
| LimbSqrt.MpSqrtrem1 | quickjs/libbf.c:1887-1928 | root and remainder of one limb from the table and two unrolled steps |
| LimbSqrt.MpSqrtrem2 | quickjs/libbf.c:1944-1970 | root and remainder of two limbs |
| LimbSqrtRec.DivideByRoot | quickjs/libbf.c:1998-2006 | division by the half root with the excess that does not fit its digits |
| LimbSqrtRec.HalveQuotient | quickjs/libbf.c:2007-2014 | halving the quotient turns this into division by twice the root |
| LimbSqrtRec.RepairRoot | quickjs/libbf.c:2034-2039 | one decrement makes a negative remainder right, even when the root had overflowed |
| LimbSqrtRec.MpSqrtremRec | quickjs/libbf.c:1976-2042 | floor of the square root and remainder for every normalized number of 2n limbs |
| NttArith.AddMod | quickjs/libbf.c:7368-7375 | sum modulo m, reduced once |
| NttArith.SubMod | quickjs/libbf.c:7378-7385 | difference modulo m, reduced once |
| NttArith.ModFast | quickjs/libbf.c:7390-7406 | a 125-bit number modulo m through two estimates |
| NttArith.MulModFast | quickjs/libbf.c:7410-7416 | product modulo m |
| NttArith.MulModFast2 | quickjs/libbf.c:7429-7439 | product modulo m by a factor whose quotient is precomputed |
| NttArith.MulModFast3 | quickjs/libbf.c:7444-7452 | the same up to one m too large, with wrapping arithmetic |
| NttArith.InitMulModFast | quickjs/libbf.c:7418-7425 | the largest number whose product with m is at most 2^125, and it is a limb |
| NttArith.InverseFitsIff | quickjs/libbf.c:7418-7425 | of the moduli the assertion admits, 2^61 is the one without such a limb |
| NttDft.GeoZero | quickjs/libbf.c:7721-7778 | the powers of a root of unity add up to zero |
| NttDft.InverseDft | quickjs/libbf.c:7940-7970 | transforming forward and back multiplies by the length |
| NttDft.Convolution | quickjs/libbf.c:7940-7970 | evaluation turns a convolution into a product |
| NttDft.PassKeeps | quickjs/libbf.c:7721-7778 | one pass of butterflies keeps the interleaved partial transforms those of the whole input |
| NttFft.RootsPrimitive | quickjs/libbf.c:8281-8289 | each entry of the table of roots is primitive of its order |
| NttFft.GetTrig | quickjs/libbf.c:7818-7853 | the table of powers of the root and their quotients |
| NttFft.Butterfly | quickjs/libbf.c:7750-7756 | the lazily reduced butterfly is right modulo m and below 2m, and nothing wraps |
| NttFft.FftPass | quickjs/libbf.c:7745-7760 | the two inner loops perform one pass |
| NttFft.LastPass | quickjs/libbf.c:7767-7776 | the last pass works in place |
| NttFft.Fft | quickjs/libbf.c:7721-7778 | the natural-order transform modulo m of every input of length 2^k, every entry staying below 2m |
| NttConv.NttVecMul | quickjs/libbf.c:7780-7801 | pointwise products scaled by the inverse of the length |
| NttSplit.FourStep | quickjs/libbf.c:7881-7936 | an output of a long transform is an output of the transform of a row of the twisted, transformed columns |
| NttSplit.PartRoots | quickjs/libbf.c:8281-8289 | the tabulated roots of the parts are the powers of the root of the whole that the split needs |
| NttSplit.MulTrig | quickjs/libbf.c:7803-7814 | every entry is multiplied by the power of the factor that belongs to its position |
| NttSplit.GatherStrip | quickjs/libbf.c:7908-7912 | a strip of columns becomes the rows of the small buffer |
| NttSplit.ScatterStrip | quickjs/libbf.c:7922-7926 | the rows become the columns of the strip again, and no other entry changes |
| NttSplit.FftPartial | quickjs/libbf.c:7881-7936 | every column is transformed and then twisted by the powers of its root, or backward the other way round, whatever the number of strips |
| NttSplit.ForwardRow | quickjs/libbf.c:7954-7957 | what the forward pass leaves in a row still has to be transformed to give outputs of the whole |
| NttSplit.BackwardRow | quickjs/libbf.c:7966-7967 | the backward pass undoes the forward one up to the number of rows |
| NttConv.BuffersConvolved | quickjs/libbf.c:7954-7969 | without a split, two transforms, a product and the inverse transform make a cyclic convolution |
| NttConv.SplitConvolved | quickjs/libbf.c:7954-7969 | with a split, the cyclic convolutions of the rows make the cyclic convolution of the whole |
| NttConv.Convolve | quickjs/libbf.c:7939-7970 | for every length up to 2^51, recursive splits included, the buffer holds the cyclic convolution modulo m scaled by the length over the total length |
| NttConv.CyclicIsConvolution | quickjs/libbf.c:7939-7970 | for the total length, and factors whose product does not wrap around, that is the convolution |
| NttDigits.DigitIs | quickjs/libbf.c:7995-8019 | the bits read are the digits of the number in base 2^dpl |
| NttDigits.Residue | quickjs/libbf.c:8003-8028 | each width of digit is reduced within the range of the fast reduction |
| NttDigits.LimbToNtt | quickjs/libbf.c:7973-8031 | the residues of all digits modulo all moduli, and zeros after them |
| NttGarner.MixedIs | quickjs/libbf.c:8179-8191 | the mixed radix digits of a number below the product of the moduli add up to it |
| NttGarner.Garner | quickjs/libbf.c:8179-8191 | the residues are turned into the mixed radix digits of the number they come from |
| NttGarner.MixedToLimbs | quickjs/libbf.c:8193-8214 | back to limbs, with the carry added |
| NttGarner.WriteDigit | quickjs/libbf.c:8224-8230 | the low dpl bits are put at their position, bits past the end dropped |
| NttGarner.NextCarry | quickjs/libbf.c:8231-8241 | the rest is the next carry |
| NttMul.NttToLimb | quickjs/libbf.c:8146-8243 | if all coefficients are below the product of the moduli, the limbs hold the value of the polynomial at 2^dpl |
| NttMul.BfGetFftSize | quickjs/libbf.c:8308-8355 | a size is found iff the product has at most 2^52 limbs, every size found leaves room for all coefficients, and its estimated cost is the least of all sizes that lose nothing iff the product does not have 19 limbs |
| NttMul.LongDigits | quickjs/libbf.c:8319-8321 | digits longer than the search starts with can be replaced by shorter ones in a transform of the same length, unless there are 19 limbs |
| NttMul.Nineteen | quickjs/libbf.c:8319-8321 | 19 limbs fit in 8 digits of 152 bits, which is cheaper than what the search finds |
| NttMul.CoefficientsBelow | quickjs/libbf.c:8308-8355 | with a size chosen for the operands every coefficient is below the product of the moduli |
| NttMul.ProductEval | quickjs/libbf.c:8358-8457 | the product is the convolution of the digits evaluated at 2^dpl |
| NttMul.MulModulus | quickjs/libbf.c:8420-8431 | for each modulus the buffer holds the coefficients of the product |
| NttMul.FftMul | quickjs/libbf.c:8358-8457 | the exact product of any two numbers of together 3 to 2^52 limbs; above that it gives up |
| NttInit.Root0 | quickjs/libbf.c:7299-7302 | the first root of the table has order 2^51 |
| NttInit.InitMod | quickjs/libbf.c:8265-8290 | roots, their inverses and the inverses of the lengths for one modulus |
| NttInit.ConstantsWide | quickjs/libbf.c:7294-7298 | the products of the moduli have exactly the widths of the table |
| NttInit.NttStaticInit | quickjs/libbf.c:8246-8306 | the constants of the source meet everything the transform, the convolution and the reconstruction ask for |
| Bits.GetBits | quickjs/libbf.c:318-339 | a window of 64 bits of the number at any position, also negative or past the end |
| Bits.PutBits | quickjs/libbf.c:7241-7256 | writing at any bit position adds the value there |
| Bits.CeilLog2 | quickjs/libbf.c:120-126 | the least k with a <= 2^k |
| Rounding.RoundQIs | quickjs/libbf.c:395-446 | the rounding of a quotient is the one the standard defines, and the only one |
| Rounding.StickyRounds | quickjs/libbf.c:1687-1716 | a quotient cut to an integer with a sticky bit rounds like the quotient when two more bits are kept |
| Rounding.RoundScale | quickjs/libbf.c:484-589 | rounding does not depend on the scale |
| BfRound.ScanBitNz | quickjs/libbf.c:373-391 | whether a bit below a position is set |
| BfRound.GetRndAdd | quickjs/libbf.c:395-446 | whether to round up and whether the value changes, for every precision and mode |
| BfRound.AddOne | quickjs/libbf.c:525-550 | adding a unit, with the carry out shifted back in |
| BfRound.KeepBits | quickjs/libbf.c:570-586 | the bits kept and the zero limbs removed |
| BfExact.UlpsAreStandard | quickjs/libbf.c:395-446 | the units of a rounded value are those section 4.3 of IEEE 754-2008 selects |
| BfExact.ResultIsRounded | quickjs/libbf.c:484-589 | what rounding does to a mantissa is the rounding of its exact value |
| BfExact.EqualRounds | quickjs/libbf.c:484-589 | equal values round to the same number and status |
| BfExact.StickyExact | quickjs/libbf.c:1687-1716 | a cut value with a sticky bit stands for the exact one |
| BfExact.NoRoom | quickjs/libbf.c:461-474 | a value, mode and exponent range for which precision 0 leaves no limb to store an overflow in |
| BfExact.EqualRoom | quickjs/libbf.c:484-625 | whether there is room depends on the value only |
| BfDirected.TowardIs | quickjs/libbf.c:448-589 | in RNDZ, RNDU of a negative and RNDD of a positive value the result is not larger in magnitude than the exact value, iff the precision is finite or the value below 2^emax; and no number that fits lies in between |
| BfDirected.AwayIs | quickjs/libbf.c:448-589 | in RNDA, RNDU of a positive and RNDD of a negative value the result is not smaller, iff the value is not one that is replaced by zero for want of subnormal numbers; then no number that fits lies in between, infinity coming after all of them |
| BfDirected.NearestIs | quickjs/libbf.c:448-589 | in RNDN and RNDNA the result is infinite iff the value is at least half a unit below 2^emax; otherwise no number that fits is nearer |
| BfDirected.OneIs | quickjs/libbf.c:484-589 | the result is zero, infinity or a number of at most prec bits between the limits of the exponent, 2^(expBits - 1) and 3 - 2^(expBits - 1) |
| BfDirected.StatusIs | quickjs/libbf.c:484-589 | inexact iff the result is not the exact value, overflow iff the result is infinite or the value 2^emax or more, underflow iff inexact and below 2^(emin - 1) |
| BfNumber.BfT.SetOverflow | quickjs/libbf.c:448-477 | infinity, or in the modes that never go away from zero for the sign the largest finite number (2^prec - 1) * 2^(emax - prec) |
| BfNumber.BfT.Round | quickjs/libbf.c:484-589 | the correctly rounded value with exact inexact, underflow and overflow status, normalized, for every precision including those below 1, unless an overflow has no limb to be stored in; and the laws of BfDirected |
| BfNumber.BfT.NormalizeAndRound | quickjs/libbf.c:592-625 | the same for any limbs |
| BfCancel.XorTop | quickjs/libbf.c:837-839 | the top bit of an exclusive or is the first difference |
| BfCancel.CountCancelledBits | quickjs/libbf.c:816-866 | counts through the first difference and the run of zeros against ones after it |
| BfCancel.CancelledBounds | quickjs/libbf.c:816-866 | the leading zeros of the difference never exceed the count and fall short of it by at most one |
| BfCancel.OneLess | quickjs/libbf.c:807-815 | a difference with one leading zero less than the count |
| BfCancel.PromiseKept | quickjs/libbf.c:807-815 | the difference has as many leading zeros as counted iff the operands have the same bit after those counted and below it the first is less |
| BfCancel.Cmpu | quickjs/libbf.c:738-761 | the order of the absolute values |
| BfDiv.QuotientLimbs | quickjs/libbf.c:1692-1712 | quotient limbs and whether anything is left over |
| BfDiv.Div | quickjs/libbf.c:1652-1722 | the correctly rounded exact quotient, obeying the laws of BfDirected, and each special case with its status |
| BfAdd.SumLimbs | quickjs/libbf.c:926-1002 | the window of the sum or difference is the exact one cut off, with a sticky bit for everything below |
| BfAdd.LeadingLoss | quickjs/libbf.c:915-924 | a bound for the leading bits a difference loses |
| BfAdd.AddSpecial | quickjs/libbf.c:889-907 | the cases without two finite operands |
| BfAdd.Add | quickjs/libbf.c:868-1010 | the correctly rounded exact sum or difference, obeying the laws of BfDirected, the sign of a zero result, and each special case with its status |
| BfLogic.BitsDetermine | quickjs/libbf.c:2309-2320 | an integer is determined by its bits in infinite two's complement |
| Bits.BitwiseBit | quickjs/libbf.c:2309-2320 | the operation on limbs is the operation on each bit |
| BfLogic.BfLogicOp | quickjs/libbf.c:2322-2406 | the result is the integer that has the bits of the operands combined, all infinitely many of them |
| BfRadix.SplitLens | quickjs/libbf.c:2704-2705 | both parts of a split are at least one digit long and have the lengths of the next level |
| BfRadix.LevelBound | quickjs/libbf.c:2732-2753 | a level that splits is below the number of table entries allocated |
| BfRadix.FromRadix | quickjs/libbf.c:2693-2753 | the value of the digits |
| BfRadix.Adjust | quickjs/libbf.c:3426-3437 | any estimate is repaired to the exact quotient and remainder |
| BfRadix.ToRadixRec | quickjs/libbf.c:3373-3456 | the digits of any a below radix^n, whatever the estimates are |
| BfRadix.ToRadix | quickjs/libbf.c:3459-3482 | digits whose value is a |
| BfRadix.DigitsDetermined | quickjs/libbf.c:3373-3482 | the digits of a number are unique |
| BfRadix.RoundTrip | quickjs/libbf.c:2693-2753 | converting to digits and back returns the number |
| RqSort.InsertionSort | quickjs/cutils.c:612-616 | sorts a short segment |
| RqSort.HeapSort | quickjs/cutils.c:459-491 | sorts a segment for every total preorder |
| RqSort.Med3IsMiddle | quickjs/cutils.c:493-498 | the element chosen lies between two of the three, whatever the ties |
| RqSort.Partition | quickjs/cutils.c:531-594 | the pivot is the middle of three elements of the segment; smaller elements, those like it, greater ones |
| RqSort.SplitSegment | quickjs/cutils.c:595-610 | stacking the larger part leaves everything sorted but the segments, the depths on the stack strictly increasing, and less work |
| RqSort.SortSegment | quickjs/cutils.c:518-617 | the stack never holds more than 50 segments |
| RqSort.Sort | quickjs/cutils.c:501-618 | a sorted permutation of the input for every total preorder |
| LzCompress.BuildChains | quickjs/jscompress.c:698-714 | each position is linked to the last one before it with the same hash |
| LzCompress.LongSameHash | quickjs/jscompress.c:707-711 | a match of three bytes is found in the chain |
| LzCompress.FindLongestMatch | quickjs/jscompress.c:666-689 | the length is the one an exhaustive search of the window would find, and the distance leads to the nearest such match |
| LzCompress.Choose | quickjs/jscompress.c:720-752 | a copy is written iff the longest one, found by comparing all places of the window, has three bytes or more, the next position has no longer one and a token can say so; it is copied from the nearest place |
| LzCompress.TokensUnique | quickjs/jscompress.c:716-757 | this rule and the two forms of a token leave one way to write the output |
| LzCompress.CopyIs | quickjs/jscompress.c:735-752 | copying from an overlapping match reproduces the source |
| LzCompress.DecodeMore | quickjs/jscompress.c:735-752 | decoding can be resumed between tokens |
| LzCompress.Compress | quickjs/jscompress.c:691-757 | fails iff some byte is 128 or more; otherwise the length in four bytes, then exactly the tokens of the rule below, at most as many bytes as the source, and decoding returns the source |
| UnicodeTable.Skip | quickjs/libunicode.c:205-238 | starting to decode in the middle gives the same answers from there on |
| UnicodeTable.GetIndexPos | quickjs/libunicode.c:172-203 | the last entry at or before the code point, which starts a run, or the start of the table before the first entry; none exactly past the end |
| UnicodeTable.IsInTable | quickjs/libunicode.c:205-238 | membership in the set that decoding the whole table gives |
| UnicodeTable.UnicodeProp1 | quickjs/libunicode.c:1111-1148 | the intervals listed are the set the table decodes to; for the table of any list of runs the points are exactly the ends of the runs inside the set |
| UnicodeTable.RunMembers | quickjs/libunicode.c:1111-1148 | all code points of a run share its bit |
| UnicodeTable.TokenIs | quickjs/unicode_gen.c:1450-1472 | every token gives back the lengths of the one or two runs it codes |
| UnicodeTable.EncodeDecodes | quickjs/unicode_gen.c:1410-1472 | for every list of run lengths, decoding its table contains a code point iff it lies in a run of odd index by partial sums |
| UnicodeTable.RunEnds | quickjs/libunicode.c:1111-1148 | the ends of the runs inside the set are strictly ascending points of exactly that set |
| UnicodeGen.CountRuns | quickjs/unicode_gen.c:1410-1422 | the runs of a property that does not hold of 0 are those of its code points |
| UnicodeGen.EncodeRuns | quickjs/unicode_gen.c:1424-1481 | writes the table of the runs, and an index the queries can use, iff behind every block of 32 bytes a token in front of a run outside the set starts within 8 bytes, if any does |
| UnicodeGen.BuildPropTable | quickjs/unicode_gen.c:1399-1481 | the queries read back the property from the table and the index |

## Left out

- Allocation failures and growing buffers: every allocation succeeds.
- The text of patterns (tokens, escapes, classes in text form, named groups): emission starts from a tree.
- Case folding, surrogate pairs and 8-bit input: characters are single units.
- Patterns whose code exceeds the 31-bit displacements the parser computes with, and the interrupt and stack overflow checks of the interpreter.
- UnicodeGen.BuildPropTable: takes the property as a sequence of up to 2^21 - 1 truth values; the output as C source text is not modelled.
- RegexpRun.StickyAccepts: asks that no loop without a check has an empty round on the input; without that, execution may not end, and RegexpAnswers.AnswerIsRight applies if it does.
- The vectorized floating point transform.
- NttMul.FftMul: asks for 3 limbs, so that a transform has at least 2 elements; the callers of the source start at 100 limbs.
- The residues for different moduli are in separate arrays, in the source in one block; the cache of root powers is not modelled.
- LimbRecip.MpRecip: multiplies with the schoolbook product where the source may switch to the transform for long operands; both have the same contract.
- Bit operations on limbs (shifts, masks, exclusive or) are written as arithmetic, words of 128 bits as integers with the wrap-around written out where it happens.
- BfDirected.StatusIs: for precisions from 2 bits up, counted in the mantissa, and at least 3 bits of the exponent, the range the library asks for; BfDirected.NearestIs, BfDirected.OneIs and the clauses on numbers in between likewise.
- BfExact.RoundsTo: says nothing about the value in the mode of faithful rounding, beyond the choice the code makes; its status is always inexact.
- BfAdd.Add: the result object differs from the operands, as after the copies the callers make; likewise BfDiv.Div and BfLogic.BfLogicOp.
- BfLogic.BfLogicOp: operands below 2^(2^60 - 65) whose lowest limb is not zero, which is what the other operations return.
- BfRadix.ToRadixRec: works on the integers the numbers stand for, without reading their limbs; the quotient from the approximate inverse is an arbitrary function, so nothing depends on its error.
- BfRadix.ToRadix: likewise.
- BfRadix.FromRadix: products and sums of the powers are integers, without the intermediate numbers of the library.
- The exchange functions chosen by alignment in sorting are exchanges of elements.
- UnicodeTable.IsInTable: the contents of the tables are not part of this model; the index is required to agree with the table, as one written by UnicodeGen.BuildPropTable does.
- The decoder of the compressed format is defined from the format of the tokens; the source has none.
- Transcendental functions, decimal input and output, and the tokenizer and preprocessor of the compressor.
