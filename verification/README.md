# A verified model of the QuickJS regular expressions, float conversions, code-point sets and sort

The vendored engine keeps four self-contained pieces of C whose results the rest of the system relies on. This
project models them in Dafny, in the form the C has (byte buffers and arrays rewritten in place, loops, explicit
stacks), and proves that each computes what its documentation or the standard behind it asks for.

**Regular expressions** (`libregexp.c`). A parsed pattern is a `Regex`. `EcmaMatcher` is the continuation-passing
matcher of section 22.2.2 of ECMA-262. It looks at the characters of the text (`Subject.Text`, decoded from UTF-16 where
that applies) and not at the engine's steps: one-character terms, assertions and back references say what the text at
the position must be, and `TextMatching` proves that the engine's steps and loops find exactly that. What the two have in
common is the pattern syntax, which characters a one-character term accepts, the sets of line terminators and word
characters, the reset of captures, and the sentinel for a missing bound. `Compiler` is the emitter: it appends
to, inserts into, patches and rotates one growable byte buffer, and numbers the registers in a second pass. `Codegen`
says which instructions those bytes must encode. `Machine` runs instructions with a full copy of the captures in
every saved state; `Exec` is the matcher the engine really has, with one stack shared by saved states and an undo
log. The proof goes through lists of outcomes:

1. matcher = first outcome the continuation accepts (`MatcherEquivalence.MatchIsFirst`, a statement about the
   standard alone);
2. outcomes of the standard = outcomes of the emitted code, up to groups that are only half written
   (`CaptureElision`, with `ZeroAdvance` for the dropped check and `CaptureFrames` for the dropped resets);
3. emitted code on the snapshot machine delivers exactly its outcomes, in order (`Simulation`);
4. the undo-log matcher implements the snapshot machine step by step (`UndoLog`, `Exec`);
5. the emitter's bytes encode that code (`Compiler`, `CodeScan`, `Allocation`), and decode to it (`Bytecode`).

`LreExec.LreExec` is the end of the chain: compiled bytes, run on a subject, always stop and give the leftmost match
of the standard's matcher. Captures are compared after `Settled`, which reads a group as unset unless both its ends
are set; that is how the engine's caller reads them (`Sources/CQuickJS/quickjs.c:48030`).

One deviation from the standard is located exactly. A missing upper bound is stored as INT32_MAX and, after a positive
minimum, counted down like any other bound. `CounterLimit.UnboundedWorksExactly`: the code is right about `a{min,}`
on subjects of a given length if and only if `min` is 0 or `min + length <= INT32_MAX`. `CountsFit` is that guard for
a whole pattern; without it the run still stops and gives the first outcome of the emitted code.

**Float64 printing and parsing** (`dtoa.c`). `Limbs` and `BigNumber` are the multi-limb integers, updated in place;
`Scaling`, `ToDouble` and `FloatRounding` round `m * 2^e * radix^f` once; `Atod` reads any string and `JsDtoa` prints any
float64. `Doubles` defines the finite float64 values independently, as multiples of 2^-1074, and proves that what is
computed is the closest one with ties to even. `JsDtoa.PrintThenParse` is the identity on every finite non-zero
float64.

What is printed is determined: `JsDtoa.IsPrinted` asks for the value correctly rounded to some number of digits that reads
back, as every longer rounding does and the one a digit shorter does not, laid out by the format of section 6.1.6.1.20 of
ECMA-262 (`NumberText.Layout`); `JsDtoa.PrintedOnce` says that there is one such text. It has an exponent part exactly
outside 10^-6 <= |d| < 10^21 (`Notation.PrintsExponent`, on the bits of the float64). Texts that can be read are described
by their parts in `NumericLiteral`, in both directions.

The comment on the search (`Sources/CQuickJS/dtoa.c:1192`) promises the minimum number of digits. It tries only the correct
rounding at each length, and `MinimalDigits.FewestDigits` locates where that is not enough: some decimal with fewer digits
reads back if and only if the one just above the last rounding tried does, which can be so only for a power of two. For
2^-44 it is: 5.6843418860808015e-14 is printed, and 5.684341886080802e-14 reads back.

One deviation from correct rounding is located exactly, too. `js_atod` adds the written exponent and the positions of the
digits in 32 bits (`Sources/CQuickJS/dtoa.c:1581-1582`), and the guard on the written exponent lets it reach 2147483639.
`Atod.JsAtod`: a numeral reads as the correctly rounded float64 if and only if `Atod.ExponentFits` holds, that is, it
is zero, its exponent was already flagged as too large, or that sum is a 32-bit integer. Otherwise the largest numbers
read as 0 and the smallest as infinity: `ExponentLimit.ReadLarge` and `ExponentLimit.ReadSmall` are
`123456789e2147483639` and `0.00000000001e-2147483639`. The overflow is taken to wrap around; C leaves it undefined, and
nothing in the package manifest defines it. Printed text never comes near, so printing and parsing back is
unconditional. The branch for very small exponents in `js_atod` (`Sources/CQuickJS/dtoa.c:1597-1600`) is proved
unreachable for radix 10.

**Code-point sets** (`libunicode.c`, `libunicode.h`). A `CharRange` is a boundary array; a code point is in the set when
an odd number of boundaries is at or below it. Merging, compressing, inverting, sorting and case folding are the
engine's loops; canonical arrays are proved unique, so results are determined by membership. Generated tables are
parameters with stated well-formedness (`CaseTables.TablesOk`, `CaseTables.AsciiAgrees`, `RunTables.IndexOk`).
`CaseLaws` says what the case conversions do on each kind of run without naming the entry: letters in alternation or in
paired runs are each other's other case, folding is the lower case of the upper case. `CaseExamples` takes one run of each
kind as the generated table has it. `RunEncoding` is the inverse of the packed tables.
`CombiningOrder` is canonical ordering, also against the exchange rule of section 3.11 of the Unicode Standard.

**Sorting** (`cutils.c`). `QuickSort.Rqsort` with its insertion-sort and heap-sort fallbacks: a permutation within 50
stack slots whatever the comparator answers, even if it answers the same question differently from call to call, as user
code may (`Sources/CQuickJS/quickjs.c:43141-43199`); sorted if it always answers by one preorder.

Integers are unbounded here. Where the C width matters it is written out: 32-bit limbs and their 64-bit products,
wrap-around in `Limbs` and `PowerTables`, the 32-bit exponent sum of `js_atod`, INT32_MAX counters, 16-bit class bounds,
the 31-bit buffer size of the compiler. Text to be parsed is shorter than 2^30 characters, as every string of the engine
is (`Sources/CQuickJS/quickjs.c:218`), so that digit positions stay below 2^31.

## Model

| member | source | states |
|---|---|---|
| Subject.ForwardStep | Sources/CQuickJS/libregexp.c:2621-2636 | reading a character forward from a boundary ends on a boundary, and reading back from there returns to the start with the same character |
| Subject.BackwardStep | Sources/CQuickJS/libregexp.c:2670-2702 | the same for a backward step, undone by a forward one |
| Subject.StartPosition | Sources/CQuickJS/libregexp.c:3351-3357 | the adjusted start index is a code-point boundary at or one unit before the given one |
| Subject.TextFirst | Sources/CQuickJS/libregexp.c:2621-2636 | reading forward takes the first character of the decoded text |
| Subject.TextLast | Sources/CQuickJS/libregexp.c:2670-2702 | reading backward takes the last one |
| Utf16.EncodeDecode | Sources/CQuickJS/libregexp.c:2621-2636 | encoding the decoded characters in UTF-16 gives back the units, whatever they are |
| Utf16.DecodeEncode | Sources/CQuickJS/libregexp.c:2621-2636 | decoding encoded characters gives them back iff no two neighbours look like a surrogate pair |
| Boundaries.StepKeepsBoundaries | Sources/CQuickJS/libregexp.c:2836-3321 | every step, of any program at all, keeps the position, the captures and every saved state on code-point boundaries |
| Boundaries.RunKeepsBoundaries | Sources/CQuickJS/libregexp.c:3326-3364 | hence no run ever holds a position inside a surrogate pair |
| TextMatching.StepReads | Sources/CQuickJS/libregexp.c:2621-2702 | the engine steps over a character exactly where the text has one, and it is that one |
| TextMatching.AssertionHolds | Sources/CQuickJS/libregexp.c:2985-3171 | line starts, line ends and word boundaries hold as the text on both sides says |
| TextMatching.CopyEndIsCopy | Sources/CQuickJS/libregexp.c:3193-3222 | the comparison loop ends at a position iff the text up to it has as many characters as the captured text and agrees with each, under canonicalization when case is ignored |
| TextMatching.ReferenceEndIsText | Sources/CQuickJS/libregexp.c:3172-3228 | a back reference matches iff it repeats the first listed group that is set, or is empty with none set |
| Bytecode.FetchBytes | Sources/CQuickJS/libregexp.c:2836-2850 | fetching at the bytes of any encodable instruction gives back that instruction |
| Bytecode.AssembledHasCode | Sources/CQuickJS/libregexp.c:616-671 | assembled bytes decode, instruction by instruction, to the code they were assembled from |
| ClassOpcodes.SearchFinds | Sources/CQuickJS/libregexp.c:3254-3265 | the binary search answers exactly whether some interval contains the code point |
| ClassOpcodes.SearchNeverUnderflows | Sources/CQuickJS/libregexp.c:3243-3262 | behind the lower guard the unsigned upper index is never decremented below zero |
| ClassOpcodes.ClassMatches | Sources/CQuickJS/libregexp.c:1225-1259 | the opcode chosen for a canonical set (16-bit with 0xffff as infinity, 32-bit, or never matching) accepts a code point iff the set contains it |
| ClassOpcodes.CharacterMatches | Sources/CQuickJS/libregexp.c:2926-3024 | every one-character opcode accepts exactly the characters of its pattern |
| ZeroAdvance.UncheckedMoves | Sources/CQuickJS/libregexp.c:1557-1628 | when the scan says no zero-advance check is needed, every successful run of the atom ends at a different position |
| CaptureFrames.Frame | Sources/CQuickJS/libregexp.c:3031-3053 | the code of a pattern changes only the groups it is said to write |
| CaptureElision.PredictableNeedsNoReset | Sources/CQuickJS/libregexp.c:2264-2297 | an atom without branches and back references runs the same with and without the capture reset |
| RegexSyntax.ResetGroups | Sources/CQuickJS/libregexp.c:3038-3054 | a reset undefines exactly the groups of the range |
| CaptureElision.OutcomesAgree | Sources/CQuickJS/libregexp.c:2248-2358 | the emitted code's outcomes, half-written groups read as unset, are exactly the standard's, resets and checks elided or not |
| CounterLimit.UnboundedWorksExactly | Sources/CQuickJS/libregexp.c:2332-2357 | `a{min,}` is right for every atom and every subject of a length iff `min` is 0 or `min + length <= INT32_MAX` |
| Simulation.Simulates | Sources/CQuickJS/libregexp.c:1845-2440 | compiler correctness: wherever the code of a pattern lies, running it delivers exactly the pattern's outcomes, in order, each resumed by backtracking, and then falls back to the state before |
| Simulation.SimulatesLook | Sources/CQuickJS/libregexp.c:2874-2925 | lookahead and lookbehind keep the captures of a success, forget its alternatives, and restore everything on failure |
| Simulation.SimulatesGroup | Sources/CQuickJS/libregexp.c:3031-3037 | the same for a capture group, forward and backward |
| Simulation.SimulatesQuant | Sources/CQuickJS/libregexp.c:2257-2358 | the same for every quantifier form |
| Simulation.SimulatesCounted | Sources/CQuickJS/libregexp.c:3077-3126 | the counted loop runs its mandatory and then its optional iterations, with the zero-advance test |
| Search.FirstMatchIsLeftmost | Sources/CQuickJS/libregexp.c:2554-2576 | the match found by trying start positions in turn is the leftmost one, and none is found only if there is none |
| Search.FirstCodeIsFirstMatch | Sources/CQuickJS/libregexp.c:2554-2576 | under `CountsFit` the code's first outcome over all start positions is the standard's first match |
| Search.ProgramHalts | Sources/CQuickJS/libregexp.c:2774-3321 | every run of a compiled program stops, without an invalid access, with the first outcome of its code: no condition on pattern or subject |
| Search.ProgramIsFirstMatch | Sources/CQuickJS/libregexp.c:2522-2614 | under `CountsFit` that is the standard's leftmost match: end position and captures |
| UndoLog.UndoSaved | Sources/CQuickJS/libregexp.c:2815-2833 | skipping a log entry for an index already logged does not change what undoing restores |
| UndoLog.AppendLog | Sources/CQuickJS/libregexp.c:2874-2906 | the concatenated logs of discarded states undo to what the oldest of them saved |
| UndoLog.ChainUnchanged | Sources/CQuickJS/libregexp.c:2874-2906 | the links threaded through discarded states survive writes below them |
| Exec.Matcher.SaveCaptureCheck | Sources/CQuickJS/libregexp.c:2815-2833 | writes the capture and keeps the stack a well-formed chain of frames that still restores every saved state |
| Exec.Matcher.Push | Sources/CQuickJS/libregexp.c:2945-2978 | saves position, target and current captures as one more state |
| Exec.Matcher.PopFrame | Sources/CQuickJS/libregexp.c:2852-2873 | restores captures, registers and position exactly as they were when the state was saved |
| Exec.Matcher.NoMatch | Sources/CQuickJS/libregexp.c:2852-2873 | resumes the newest state that is not a lookahead, as the snapshot machine does, or reports failure |
| Exec.Matcher.LookaheadMatch | Sources/CQuickJS/libregexp.c:2874-2906 | drops the states saved inside the lookahead and compacts their log entries in place: captures stay, older states still restore exactly |
| Exec.Matcher.NegativeLookaheadMatch | Sources/CQuickJS/libregexp.c:2907-2925 | unwinds to the lookahead, restores, and fails |
| Exec.Matcher.ReadOp | Sources/CQuickJS/libregexp.c:2926-3307 | the character opcodes do one step of the snapshot machine |
| Exec.Matcher.TestOp | Sources/CQuickJS/libregexp.c:2985-3228 | so do assertions, word boundaries, back references and the backward step |
| Exec.Matcher.SaveOp | Sources/CQuickJS/libregexp.c:3031-3054 | so do capture writes and resets |
| Exec.Matcher.RegisterOp | Sources/CQuickJS/libregexp.c:3055-3137 | so do counters, loops and zero-advance checks |
| Exec.Matcher.ControlOp | Sources/CQuickJS/libregexp.c:2850-2984 | so do splits, jumps, lookarounds and the final match |
| Exec.Matcher.Execute | Sources/CQuickJS/libregexp.c:2774-3321 | the whole loop gives the result, end and captures of the snapshot machine's run |
| CodeScan.LengthIsSize | Sources/CQuickJS/libregexp.c:1557-1580 | the length computed from opcode and operands is the size of the encoded instruction |
| CodeScan.ScanOfCode | Sources/CQuickJS/libregexp.c:1557-1628 | scanning the instructions of an atom finds what its syntax tree says: consumes, stops, references |
| Compiler.Emitter.NeedCheckAdvAndCaptureInit | Sources/CQuickJS/libregexp.c:1557-1628 | the byte scan of an emitted atom decides both elisions as specified |
| Compiler.Emitter.Claim | Sources/CQuickJS/cutils.c:104-128 | grows the buffer by at least half, and refuses only sizes from two thirds of the 31-bit limit on |
| Compiler.Emitter.Insert | Sources/CQuickJS/libregexp.c:2276-2358 | opens a gap and keeps the bytes on both sides |
| Compiler.Emitter.Prepend | Sources/CQuickJS/libregexp.c:2276-2358 | inserting instructions in front of emitted code leaves a buffer that encodes both in order |
| Compiler.Emitter.Patch | Sources/CQuickJS/libregexp.c:1970-1981 | filling in a pending jump changes exactly that jump |
| Compiler.Emitter.EmitRange | Sources/CQuickJS/libregexp.c:1225-1259 | appends the class opcode, or reports too many ranges from 65535 on and only then |
| Compiler.Emitter.EmitPattern | Sources/CQuickJS/libregexp.c:1845-2440 | leaves exactly the specified code of the pattern behind what was there, or the reason it stopped |
| Compiler.Emitter.EmitLook | Sources/CQuickJS/libregexp.c:1951-1981 | the same for lookaround, with the length of the body patched afterwards |
| Compiler.Emitter.EmitTerms | Sources/CQuickJS/libregexp.c:2372-2404 | the same for a sequence of terms, moved into reverse order inside a lookbehind |
| Compiler.Emitter.MoveTerm | Sources/CQuickJS/libregexp.c:2385-2401 | exchanges the last term with those before it |
| Compiler.Emitter.EmitAlternatives | Sources/CQuickJS/libregexp.c:2406-2440 | the same for a disjunction, with a split inserted in front and a jump patched |
| Compiler.Emitter.EmitQuantified | Sources/CQuickJS/libregexp.c:2248-2360 | the same for a quantified atom |
| Compiler.Emitter.EmitOptional | Sources/CQuickJS/libregexp.c:2299-2313 | wraps an emitted atom as `?` or `*`, around code already in the buffer |
| Compiler.Emitter.EmitOptionalCounted | Sources/CQuickJS/libregexp.c:2314-2331 | wraps an emitted atom as `{0,max}` |
| Compiler.Emitter.EmitCounted | Sources/CQuickJS/libregexp.c:2336-2358 | wraps an emitted atom as `{min,max}` |
| Compiler.Emitter.ComputeRegisterCount | Sources/CQuickJS/libregexp.c:2444-2505 | numbers all register operands in place and returns their maximum, or fails exactly when it exceeds 255 |
| Compiler.Emitter.EmitProgram | Sources/CQuickJS/libregexp.c:2554-2586 | the search prefix, group 0 and the final match around the pattern |
| Compiler.Compile | Sources/CQuickJS/libregexp.c:2522-2614 | success gives the compiled form of the pattern; each error is reported only for its cause |
| Compiler.ShiftedParts | Sources/CQuickJS/libregexp.c:2385-2401 | code written behind other code can be cut out and put in front of it |
| Allocation.AllocatesPattern | Sources/CQuickJS/libregexp.c:2444-2505 | in emitted code pushes and pops balance, every loop or check opcode gets the register its matching set opcode wrote, enclosing loops keep theirs, and the maximum bounds all |
| Allocation.AllocatesProgram | Sources/CQuickJS/libregexp.c:2588-2595 | the same for a whole program, starting from register 0 |
| Relocation.JumpsStayInside | Sources/CQuickJS/libregexp.c:2248-2440 | every jump emitted for a term lands on an instruction of the term or directly behind it |
| Relocation.LandsInside | Sources/CQuickJS/libregexp.c:2276-2358 | hence code put before or behind such code leaves its jumps inside it |
| Relocation.AlternativeBlocks | Sources/CQuickJS/libregexp.c:2372-2404 | forward an alternative is its terms' blocks in order, backward in reverse order |
| LreExec.LreExec | Sources/CQuickJS/libregexp.c:3326-3364 | running compiled bytes on a subject stops and reports the first outcome of the code with its captures: under `CountsFit` the standard's leftmost match from the adjusted start, and no match iff there is none |
| LreExec.FlagBits | Sources/CQuickJS/libregexp.h:30-38 | which bits of the flags make an expression Unicode or sticky |
| Limbs.AddUi | Sources/CQuickJS/dtoa.c:74-88 | adds one limb in place; the carry accounts for the rest |
| Limbs.Mul1 | Sources/CQuickJS/dtoa.c:91-103 | multiplies by a limb and adds one, in place, exactly |
| Limbs.Shl | Sources/CQuickJS/dtoa.c:169-183 | shifts left in place; value and carried-out bits are exact |
| Limbs.Shr | Sources/CQuickJS/dtoa.c:151-165 | shifts right in place with the low bits of a higher limb shifted in; value and shifted-out bits are exact |
| Limbs.Udiv1NormInit | Sources/CQuickJS/dtoa.c:106-112 | computes the inverse of a normalised divisor |
| Limbs.InverseOf | Sources/CQuickJS/dtoa.c:106-112 | divisor times inverse misses 2^64 by between 1 and the divisor |
| Limbs.EstimateIsClose | Sources/CQuickJS/dtoa.c:116-134 | the estimate from the inverse is the quotient or one less |
| Limbs.Udiv1Norm | Sources/CQuickJS/dtoa.c:116-134 | quotient and remainder are exact for every normalised divisor and every smaller high limb |
| Limbs.Div1 | Sources/CQuickJS/dtoa.c:136-147 | divides a multi-limb number in place, exactly, carrying on from the remainder of the limbs above |
| Limbs.Div1Norm | Sources/CQuickJS/dtoa.c:185-198 | the same by a precomputed inverse, with the pre-shift of number and incoming remainder and the shift back of the remainder |
| Rounding.StickyRounds | Sources/CQuickJS/dtoa.c:892-955 | a truncated quotient with one sticky bit rounds like the exact quotient when at least two extra bits are kept |
| Rounding.RoundIsNearest | Sources/CQuickJS/dtoa.c:312-397 | ties-to-even rounding is the closest integer, the even one of two |
| Rounding.RoundAwayIsNearest | Sources/CQuickJS/dtoa.c:312-397 | rounding away from zero is the closest integer, the upper one of two |
| Rounding.RoundDownIsFloor | Sources/CQuickJS/dtoa.c:312-397 | rounding toward zero is the floor |
| BigNumber.Mpb.ShrRound | Sources/CQuickJS/dtoa.c:312-397 | shifts left, or right with one rounding in the requested mode, in place |
| BigNumber.Mpb.RoundBit | Sources/CQuickJS/dtoa.c:335-372 | the guard and sticky bits decide the increment as exact rounding does, in all three modes |
| PowerTables.Pow5Entries | Sources/CQuickJS/dtoa.c:219-230 | the table of powers of 5 is right |
| PowerTables.Pow5Inverses | Sources/CQuickJS/dtoa.c:232-237 | the table of inverses is right for the shifted powers |
| PowerTables.PowUi | Sources/CQuickJS/dtoa.c:241-268 | computes powers below 2^64 in 64-bit arithmetic |
| PowerTables.PowUiInv | Sources/CQuickJS/dtoa.c:270-291 | a power shifted up to a normalised divisor, the shift, and its inverse |
| Scaling.MulPow | Sources/CQuickJS/dtoa.c:892-955 | multiplies by a power of the radix, or divides leaving enough bits and a sticky bit |
| Scaling.MulPowRound | Sources/CQuickJS/dtoa.c:958-966 | yields m * 2^e * radix^f rounded once in the requested mode, for either sign of f |
| Scaling.ScaledRounds | Sources/CQuickJS/dtoa.c:892-966 | rounding the scaled number is rounding the exact value |
| Doubles.NearestIsClosest | Sources/CQuickJS/dtoa.c:969-1000 | the defined nearest value is at least as close as every float64, and has an even significand on ties |
| Doubles.NearestIsDouble | Sources/CQuickJS/dtoa.c:969-1000 | and is itself a float64, subnormals included |
| ToDouble.RoundToD | Sources/CQuickJS/dtoa.c:969-1000 | gives 0 for zero and otherwise the nearest float64 of the value the number approximates, through subnormals and the carry into the next binade |
| FloatRounding.MulPowRoundToD | Sources/CQuickJS/dtoa.c:1005-1012 | gives the nearest float64 of a * radix^f |
| FloatRounding.RoundDecimal | Sources/CQuickJS/dtoa.c:1581-1607 | with both 32-bit sums wrapping around: the bits of the nearest float64 of an integer times a power of ten, infinity and zero included, iff the exponent sum is a 32-bit integer; else the opposite end of the range |
| Logarithm.Exact | Sources/CQuickJS/dtoa.c:473-487 | the multiply-and-shift logarithm for radix 10 is the exact floor over -2048..2047 |
| Atod.JsAtod | Sources/CQuickJS/dtoa.c:1353-1619 | on any string: NaN iff no numeral starts it, infinity for the literal, otherwise the sign, and the correctly rounded float64 of the kept digits iff the 32-bit exponent sum does not overflow; where it does, 0 for the largest and infinity for the smallest numbers |
| ExponentLimit.LargeNumeralOverflows | Sources/CQuickJS/dtoa.c:1537-1582 | a numeral whose exponent passes the guard and whose sum is 2^31: only infinity would be correct |
| ExponentLimit.SmallNumeralOverflows | Sources/CQuickJS/dtoa.c:1537-1582 | a numeral whose exponent passes the guard and whose sum is below -2^31: only 0 would be correct |
| ExponentLimit.ReadLarge | Sources/CQuickJS/dtoa.c:1581-1594 | reading the first gives 0 |
| ExponentLimit.ReadSmall | Sources/CQuickJS/dtoa.c:1581-1594 | reading the second gives infinity |
| Atod.KeptIsExact | Sources/CQuickJS/dtoa.c:1479-1503 | with at most 38 significant digits the kept digits are the numeral itself |
| Atod.ReadMantissa | Sources/CQuickJS/dtoa.c:1441-1504 | the digit loop, with point and leading zeros, collects the significant digits and their exponent |
| NumericLiteral.LiteralReads | Sources/CQuickJS/dtoa.c:1353-1560 | a text put together from sign, digits, point, digits and exponent is read as the number these mean |
| NumericLiteral.ReadIsLiteral | Sources/CQuickJS/dtoa.c:1353-1560 | a text that is read as a number is put together like that, and means that number |
| Atod.Mul1Base | Sources/CQuickJS/dtoa.c:1332-1350 | appends a limb of digits to the number; a base of 0 is 2^32 |
| Dtoa.RoundToDigits | Sources/CQuickJS/dtoa.c:1196-1206 | the float64 correctly rounded to P digits, with the exponent estimate corrected by at most one |
| Dtoa.SeventeenReadBack | Sources/CQuickJS/dtoa.c:1186-1214 | 17 digits always read back, because 10^16 > 2^53: the first try needs no check |
| Dtoa.Check | Sources/CQuickJS/dtoa.c:1215-1222 | a shorter candidate is accepted iff it reads back |
| Dtoa.FreeDigits | Sources/CQuickJS/dtoa.c:1181-1236 | the search ends with the value correctly rounded to `prec` digits, the last not zero, where this and every longer rounding reads back and the rounding one digit shorter does not |
| Shortest.ShortestOnce | Sources/CQuickJS/dtoa.c:1181-1236 | that determines digits, length and exponent |
| Shortest.NoShorter | Sources/CQuickJS/dtoa.c:1191-1231 | with one digit less, rounding with any exponent gives nothing that reads back |
| MinimalDigits.FewestDigits | Sources/CQuickJS/dtoa.c:1191-1231 | exactly when the digits are the fewest of all decimals that read back: iff the decimal just above the last rounding tried does not read back, and always when the float64 is no power of two above the subnormals |
| MinimalDigits.OneDigitTooMany | Sources/CQuickJS/dtoa.c:1191-1231 | for 2^-44 they are not: 17 are found, and 16 others read back |
| Shortest.IntegerShortest | Sources/CQuickJS/dtoa.c:1168-1178 | for an integer below 2^53 the search would find its own digits up to the last that is not zero |
| JsDtoa.OutputDigits | Sources/CQuickJS/dtoa.c:846-888 | writes exactly the digits of the number, with the point inserted where it is due |
| JsDtoa.PlaceDigits | Sources/CQuickJS/dtoa.c:1277-1311 | lays the digits out by ECMA-262, section 6.1.6.1.20: plain, with a point, with leading zeros, or with an exponent and its sign |
| NumberText.LayoutReads | Sources/CQuickJS/dtoa.c:1277-1311 | a text in that layout is read as the numeral it was written from |
| NumberText.LayoutValue | Sources/CQuickJS/dtoa.c:1277-1311 | and that numeral has the digits and the exponent that were to be printed |
| JsDtoa.PrintInteger | Sources/CQuickJS/dtoa.c:1168-1178 | the fast path for integers prints what the search and the layout would |
| JsDtoa.JsDtoa | Sources/CQuickJS/dtoa.c:1107-1317 | prints NaN, the infinities, 0, and every other float64 as the shortest rounding that reads back, in the standard layout |
| JsDtoa.PrintedOnce | Sources/CQuickJS/dtoa.c:1107-1317 | there is only one such text |
| Notation.PrintsExponent | Sources/CQuickJS/dtoa.c:1277-1284 | the text has an exponent part iff the float64 is below 10^-6 or not below 10^21, by its bits |
| JsDtoa.UnitsOfOnce | Sources/CQuickJS/dtoa.c:1138-1165 | bit patterns are ordered as their values are; different ones are different values |
| JsDtoa.PrintThenParse | Sources/CQuickJS/dtoa.c:1107-1619 | printing and parsing returns the sign and the bits of every finite non-zero float64 |
| CharSets.InIsMember | Sources/CQuickJS/libunicode.h:41-47 | for sorted boundaries the parity reading is membership in one of the intervals |
| CharSets.CanonicalUnique | Sources/CQuickJS/libunicode.c:433-459 | two strictly increasing arrays with the same members are equal |
| CharSets.CancelPair | Sources/CQuickJS/libunicode.c:433-459 | dropping two equal neighbours changes no membership |
| CharSets.ComplementTwice | Sources/CQuickJS/libunicode.c:529-541 | inverting twice gives back the same canonical array |
| CharSets.SubIsInterComplement | Sources/CQuickJS/libunicode.c:462-515 | difference is intersection with the complement, as arrays |
| CharSets.Members | Sources/CQuickJS/libunicode.c:462-515 | which members union, intersection, difference and symmetric difference have |
| CharSets.XorIsUnionWithoutInter | Sources/CQuickJS/libunicode.c:462-515 | the symmetric difference is the union without the intersection, as arrays |
| CharSets.DeMorgan | Sources/CQuickJS/libunicode.c:462-541 | the complement of a union is the intersection of the complements, as arrays |
| CharRange.CharRange.AddPoint | Sources/CQuickJS/libunicode.h:61-69 | appends a boundary, growing the array when full |
| CharRange.CharRange.AddInterval | Sources/CQuickJS/libunicode.h:71-80 | appends two boundaries |
| CharRange.CharRange.Compress | Sources/CQuickJS/libunicode.c:433-459 | in place: same members, and strictly increasing when the boundaries were sorted |
| CharRange.MergeStep | Sources/CQuickJS/libunicode.c:462-515 | one more boundary keeps the output equal to the operation on what has been read |
| CharRange.CharRange.Op | Sources/CQuickJS/libunicode.c:462-515 | union, intersection, xor and difference pointwise, in canonical form, for all sorted inputs |
| CharRange.CharRange.Op1 | Sources/CQuickJS/libunicode.c:517-527 | the same in place of the first operand |
| CharRange.CharRange.UnionInterval | Sources/CQuickJS/libunicode.h:86-92 | adds one closed interval to any sorted range |
| CharRange.CharRange.Invert | Sources/CQuickJS/libunicode.c:529-541 | the canonical complement below UINT32_MAX |
| Overlap.SortPairs | Sources/CQuickJS/libunicode.c:622-628 | the intervals are permuted and ordered by their first boundary |
| Overlap.SortAndRemoveOverlap | Sources/CQuickJS/libunicode.c:622-656 | intervals in any order, overlapping, touching or empty, become ascending ones with the same members, strictly increasing when none was empty |
| CaseTables.FindRun | Sources/CQuickJS/libunicode.c:170-187 | the binary search finds the run covering a code point, or that there is none |
| CaseTables.LreCaseConv | Sources/CQuickJS/libunicode.c:156-190 | the binary search gives the conversion of the one run that covers the code point, or the code point itself |
| CaseTables.LreCanonicalize | Sources/CQuickJS/libunicode.c:227-261 | the same for folding |
| CaseTables.CanonicalizeIsEcma | Sources/CQuickJS/libunicode.c:192-261 | folding in terms of the conversions is ECMA-262, section 22.2.2.7.3: the single upper-case character unless it would fall into ASCII, or simple case folding |
| CaseLaws.AsciiLetters | Sources/CQuickJS/libunicode.c:156-169 | the letters of ASCII, and nothing else below 128, have their usual other case |
| CaseLaws.Caseless | Sources/CQuickJS/libunicode.c:148-190 | a code point that no run covers has no case |
| CaseLaws.Alternating | Sources/CQuickJS/libunicode.c:76-81 | letters in alternation: upper and lower case of both letters of a pair are the upper and the lower letter |
| CaseLaws.AllInPairs | Sources/CQuickJS/libunicode.c:76-81 | no letter of such a run is without a partner |
| CaseLaws.Digraph | Sources/CQuickJS/libunicode.c:82-89 | a digraph in title case, too, has the first of its run as upper and the last as lower case |
| CaseLaws.PairsInvert | Sources/CQuickJS/libunicode.c:66-75 | in runs that refer to each other upper and lower case are inverse, letter by letter |
| CaseLaws.PairsFold | Sources/CQuickJS/libunicode.c:66-75 | and both letters fold to the same one |
| CaseLaws.ListedInvert | Sources/CQuickJS/libunicode.c:109-114 | the same for single letters whose other case is listed |
| CaseLaws.VariantFolds | Sources/CQuickJS/libunicode.c:99-108 | a variant of a letter folds to the lower case of its upper case |
| CaseLaws.SeveralFold | Sources/CQuickJS/libunicode.c:121-143 | with several upper-case letters, folding is lower case applied to each of them |
| CaseLaws.SubscriptIota | Sources/CQuickJS/libunicode.c:90-98 | Greek letters with subscript iota keep their place along the run, and the iota follows in upper case |
| CaseLaws.AlternatingMatch | Sources/CQuickJS/libunicode.c:227-261 | letters in alternation match each other when case is ignored |
| CaseLaws.PairsMatch | Sources/CQuickJS/libunicode.c:227-261 | so do letters of paired runs |
| CaseExamples.EAcute | Sources/CQuickJS/libunicode-table.h:6-164 | the pair U+00C9, U+00E9 in its paired runs |
| CaseExamples.Cherokee | Sources/CQuickJS/libunicode-table.h:6-164 | the pair U+13A0, U+AB70, which folds to upper case |
| CaseExamples.AMacron | Sources/CQuickJS/libunicode-table.h:6-164 | the pair U+0100, U+0101 of an alternating run |
| CaseExamples.DzCaron | Sources/CQuickJS/libunicode-table.h:6-164 | the title-case digraph U+01C5 |
| CaseExamples.IotaSubscript | Sources/CQuickJS/libunicode-table.h:6-164 | U+1F8A, with subscript iota |
| CaseExamples.LongS | Sources/CQuickJS/libunicode-table.h:6-164 | U+017F, a variant of s |
| CaseExamples.LongSDot | Sources/CQuickJS/libunicode-table.h:6-164 | U+1E9B, a variant of a letter in an alternating run |
| CaseExamples.DotlessI | Sources/CQuickJS/libunicode-table.h:6-164 | U+0131, whose upper case leads elsewhere |
| CaseExamples.KelvinSign | Sources/CQuickJS/libunicode-table.h:6-164 | U+212A, whose lower case leads elsewhere |
| CaseExamples.SharpS | Sources/CQuickJS/libunicode-table.h:6-164 | U+00DF, with two upper-case letters |
| CaseExamples.IDot | Sources/CQuickJS/libunicode-table.h:6-164 | U+0130, with two lower-case letters |
| CaseExamples.IotaTonos | Sources/CQuickJS/libunicode-table.h:6-164 | U+0390, with three upper-case letters |
| CaseMask.ChangedIsMarked | Sources/CQuickJS/libunicode.c:552-613 | every code point that a selected conversion changes is put into the mask |
| CaseMask.MarkedIsChanged | Sources/CQuickJS/libunicode.c:552-613 | and only those: every code point of the mask is changed by one of the selected conversions |
| CaseMask.UnicodeCase1 | Sources/CQuickJS/libunicode.c:552-613 | the generated set is sorted and holds exactly the positions the run kinds select |
| CaseFolding.UnmarkedIsFixed | Sources/CQuickJS/libunicode.c:670-681 | a code point outside the mask folds to itself |
| CaseFolding.MoveOn | Sources/CQuickJS/libunicode.c:694-703 | the forward-only cursor reaches the run of every affected code point before the table ends |
| CaseFolding.FoldAll | Sources/CQuickJS/libunicode.c:683-721 | the collected intervals hold exactly the folded forms of the affected code points |
| CaseFolding.ImageSplits | Sources/CQuickJS/libunicode.c:660-742 | folded affected members and unaffected members together are the image |
| CaseFolding.RegexpCanonicalize | Sources/CQuickJS/libunicode.c:660-742 | turns a set into the canonical array of exactly its image under case folding |
| CaseFolding.FoldedClassAccepts | Sources/CQuickJS/libregexp.c:3229-3268 | a folded class accepts a character iff the original set has a member with the same canonical form |
| RunTables.UnicodeProp1 | Sources/CQuickJS/libunicode.c:1459-1504 | linear decoding yields the boundaries at which the runs of the table end |
| RunEncoding.PackedDecodes | Sources/CQuickJS/libunicode.c:1459-1504 | runs packed into bytes, two short ones in one, decode to where they end |
| RunEncoding.PackedEntry | Sources/CQuickJS/libunicode.c:262-302 | a checkpoint packed into three bytes is read with its code point and its offset |
| RunTables.GetIndexPos | Sources/CQuickJS/libunicode.c:271-302 | finds a checkpoint at or before the code point, or that it lies beyond the table |
| RunTables.LookChunk | Sources/CQuickJS/libunicode.c:318-344 | one chunk either decides membership or leaves the lookup correct behind it |
| RunTables.LreIsInTable | Sources/CQuickJS/libunicode.c:304-345 | the indexed lookup stops and answers exactly membership in the decoded set |
| CombiningOrder.SortCc | Sources/CQuickJS/libunicode.c:1091-1125 | puts the buffer into canonical order, in place |
| CombiningOrder.OrderedIsStableSort | Sources/CQuickJS/libunicode.c:1098-1113 | a run comes out as a permutation, ascending by class, equal classes in their old order |
| CombiningOrder.StartersStay | Sources/CQuickJS/libunicode.c:1091-1125 | the whole is a permutation that leaves every starter in place |
| CombiningOrder.ExchangesEndOrdered | Sources/CQuickJS/libunicode.c:1091-1125 | exchanging reorderable pairs in any order until none is left ends in that same order |
| HeapSort.InsertionSort | Sources/CQuickJS/cutils.c:633-637 | permutes its part whatever the comparator answers, and sorts it when it answers by a preorder |
| HeapSort.SiftDown | Sources/CQuickJS/cutils.c:480-512 | restores the heap property below one root |
| HeapSort.HeapSortX | Sources/CQuickJS/cutils.c:480-512 | permutes its part whatever the comparator answers, and sorts it when it answers by a preorder |
| QuickSort.Med3 | Sources/CQuickJS/cutils.c:514-519 | returns one of its arguments, whose element lies between the other two when the comparator answers by a preorder |
| QuickSort.Scan | Sources/CQuickJS/cutils.c:557-583 | parks equal elements at both ends and separates the rest around the pivot |
| QuickSort.SwapBlock | Sources/CQuickJS/cutils.c:594-609 | exchanges two blocks of equal length |
| QuickSort.Partition | Sources/CQuickJS/cutils.c:552-615 | smaller, equal and greater elements in three consecutive parts |
| QuickSort.SortSegment | Sources/CQuickJS/cutils.c:539-638 | one round of the main loop: the pending segments stay apart and shrink, and slot k holds depth at least k |
| QuickSort.Rqsort | Sources/CQuickJS/cutils.c:522-639 | a permutation, never more than 50 slots, whatever the comparator answers from call to call; sorted if it always answers by one preorder |

## Left out

- Parsing pattern text: the model starts from a parsed pattern. Escapes, Annex B forms, named groups and their trailer, modifiers, duplicate names and error messages belong to the text and are not modelled.
- Class strings of several characters (the `v` flag) and their hash table: a class is a set of code points here.
- Time-outs, interrupt polling and native stack overflow in the compiler and the matcher.
- Memory failure in the matcher and in `CharRange`; in the compiler only the 31-bit buffer limit can fail, and the error is reported at the first refused growth, where the engine keeps a sticky flag and reports it later.
- Exec.Matcher.Execute: the stack grows without bound, where the engine fails when an allocation does.
- LreExec.LreExec: agreement with the standard is stated under `CountsFit`; without it the result is the first outcome of the emitted code, and `CounterLimit.UnboundedWorksExactly` says exactly which counts differ.
- Boundaries.RunKeepsBoundaries: case folding and white space are functions of the code point given with the subject; their tables are modelled in `CaseTables` only.
- Generated Unicode data: tables are parameters with stated well-formedness, and only the entries named in `CaseExamples` are looked at.
- Unicode normalisation beyond canonical ordering (decomposition, composition, Hangul), scripts, general categories and property expressions.
- Atod.JsAtod: radix 10 without flags; other radices, prefixes, separators, legacy octal and the end pointer are not modelled. Beyond 38 significant digits it reads the first 38, as the engine deliberately does.
- JsDtoa.JsDtoa: radix 10, free format; fixed, fractional and exponential formats and other radices are not modelled. For some powers of two a decimal with fewer digits would read back; `MinimalDigits.FewestDigits` says exactly when.
- ToDouble.RoundToD: zero, or numbers of at least 2^-1085, below which the C code would shift a 64-bit word by 64 or more; both callers stay above.
- FloatRounding.MulPowRoundToD: non-zero numbers of at least 2^-1085, for the same reason; zero never reaches it (`Sources/CQuickJS/dtoa.c:1566-1569`).
- Scaling.MulPow: non-zero numbers and a limb array with room; the printer handles zero before it (`Sources/CQuickJS/dtoa.c:1138-1152`), and the callers' 52 limbs are shown to suffice.
- Scaling.MulPowRound: the same.
- BigNumber.Mpb.ShrRound: a zero number is not shifted left by a limb or more, which would leave zero limbs on top.
- Limbs.Div1Norm: source and destination are the same array, as in every call.
- Overlap.SortAndRemoveOverlap: no interval of the input ends before it starts, as the engine's callers guarantee.
- Overlap.SortPairs: the engine sorts the boundary array as 8-byte records; here the records are copied out and back.
- QuickSort.Rqsort: elements are values of any type; the choice of a byte-wise exchange routine by size and alignment is not modelled.
- The Swift layer, its macros and the module loader: they depend on an engine file that is not part of the repository.
