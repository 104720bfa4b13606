# dexdo-cli: verified core

A Dafny 4.11 model of the algorithmic core of the `dexdo` client, a command-line market client for model
inference, with proofs of what each part promises. `dafny verify dfyconfig.toml` checks everything.

| file | models |
|---|---|
| `SourceProbe.dfy` | the two Rust source scanners `body_of` and `code_of` |
| `SseFrames.dfy` | the incremental Server-Sent Events splitter |
| `EditDistance.dfy`, `Suggestions.dfy` | the two-row Levenshtein loop and the ranking built on it |
| `StreamMachine.dfy`, `Settlement.dfy` | the stream state machine and its settlement formulas |
| `SellPlan.dfy` | the accumulator sell planner |
| `ModelId.dfy` | the canonical model-id grammar |
| `OracleBounds.dfy` | big decimals compared as text, range-market bounds |
| `ShellAmount.dfy` | SHELL amounts printed and parsed |
| `Json.dfy`, `SubmitResponse.dfy`, `Sanitize.dfy` | judging and sanitising on-chain submit responses |
| `Masking.dfy` | replacing secrets by a mask, and what is left to read |
| `ClaimLimits.dfy`, `ClaimDriver.dfy` | the claim-rate limit, the burn reserve and the seller's claim loop |
| `Text.dfy`, `Numbers.dfy` | the text primitives the parsers share; integer widths |

How the source is represented:

- Rust text is a `string` of Unicode scalar values; where a length in bytes matters (the 127-byte model-id
  limit, the nine-decimal limit, the eight-byte secret limit) `Text.Utf8Len` counts bytes. The scanners of
  `source_probe.rs` step over bytes; every byte they react to is ASCII, so stepping over characters takes
  the same branches.
- Byte streams and registry names are sequences of `bv8`.
- `u64` and `u128` are `nat` with the wrap-around, saturation or checked overflow of the source written out.
  Plain `*` and `+` of the source are modelled as release builds compute them, wrapping.
- A panic is a value: `Refused` in the state machine, `NotDeclared`, `NoBody` or `NotClosed` in the scanners.
- Library sorts are modelled by insertion; a hash set's iteration order is arbitrary.

Where the code does not do what a comment says, the model follows the code:

- "Net burn always > 0" (`settle.rs:25`) needs a tick price of at least 41 raw units and a fee that fits
  64 bits: `NetBurnPositiveFromPrice41`, `NetBurnCanWrapToZero`.
- A deal that has ended can be settled again through the three calls that have no liveness guard:
  `UnguardedDisputeSettlesTwice`, with the exact guard in `GuardIsExact`.
- A burn accounts for the whole `2P` bond only while `2P` fits a `u64`: `BondIsAccountedFor`.
- "A deal of `max_ticks` ticks takes `max_ticks` calls" (`params.rs:1873-1875`): in whole ticks it takes one
  call less, the accepted probe being the first tick, and in smaller claims it can take more than the
  reserve pays for. `CoveredByShortfall` says exactly when it does, `SlowUsageOverdraws` shows the seller's
  own loop doing it.
- "A value that is not a decimal number" (`params.rs:192-194`) is refused, except a point without any digit,
  which reads as zero: `PointAloneIsZero`.
- A response is accepted although a code key holds a value that cannot be read as a 64-bit code:
  `LoneExitCode`, with a concrete one in `HugeExitCodeIsAccepted`.
- The body of an item is read from the first brace behind its declaration, be it in a comment or a
  literal: `BodyIsItsOwn` says exactly when that is the item's own brace, `BraceInComment` gives a source
  on which it is not.
- Masking does not hide every secret: one shorter than eight bytes, or one that overlaps the mask
  `<redacted>`, can stay readable. `HiddenInEveryPayload` says exactly which, `MaskWordStaysReadable` names
  one that is just long enough.

## Model

| member | source | states |
|---|---|---|
| SourceProbe.DeclarationStartsLine | crates/dexdo/src/source_probe.rs:37-43 | what the search finds is an occurrence of the signature preceded on its line only by white space |
| SourceProbe.DeclaresMeans | crates/dexdo/src/source_probe.rs:40-43 | an occurrence starts a line exactly when only white space stands before it, back to a newline or the start of the text |
| SourceProbe.DeclarationIsFirst | crates/dexdo/src/source_probe.rs:37-43 | for a one-line signature that starts with a visible character it is the first such occurrence, although matches are searched without overlap |
| SourceProbe.SkipBlockComment | crates/dexdo/src/source_probe.rs:76-91 | the nested-comment loop ends where all open comments are closed, or at the end of the text |
| SourceProbe.SkipQuoted | crates/dexdo/src/source_probe.rs:133-147 | the literal loop ends behind the first unescaped quote, or at or one past the end |
| SourceProbe.ScanBody | crates/dexdo/src/source_probe.rs:57-158 | the main loop finds the brace that closes the one it starts at, segment by segment |
| SourceProbe.BodyOf | crates/dexdo/src/source_probe.rs:27-162 | the body, or which of the three panics is raised |
| SourceProbe.CopySegment | crates/dexdo/src/source_probe.rs:182-269 | one turn of the stripping loop consumes exactly one segment and keeps it unless it is a comment |
| SourceProbe.CodeOf | crates/dexdo/src/source_probe.rs:177-272 | the code is the body's segments without the comments, newlines behind line comments kept |
| SourceProbe.BodyIsBalanced | crates/dexdo/src/source_probe.rs:57-161 | the segments of the body alone are the first segments of the whole source; depth stays positive until the last one, a plain closing brace, brings it to zero |
| SourceProbe.NotClosedMeans | crates/dexdo/src/source_probe.rs:160-161 | the scanner gives up exactly when no prefix of the segments balances |
| SourceProbe.FirstIsOwn | crates/dexdo/src/source_probe.rs:53-55 | the first brace character is the first brace outside comments and literals exactly when no comment or literal before that holds one |
| SourceProbe.BodyIsItsOwn | crates/dexdo/src/source_probe.rs:52-55 | the body read is the item's own, or rightly reported missing, exactly when no comment or literal between declaration and body holds a brace |
| SourceProbe.BraceInComment | crates/dexdo/src/source_probe.rs:52-55 | a concrete item with an empty body on which the scanner gives up, because of a brace in a comment |
| SourceProbe.SegmentsJoin | crates/dexdo/src/source_probe.rs:182-271 | the segments concatenate to the text: nothing lost, nothing reordered |
| SourceProbe.HeadPrefix | crates/dexdo/src/source_probe.rs:64-150 | cutting the text behind a later closing brace does not change the first segment, in spite of all lookahead |
| SourceProbe.NestedCommentIsOneSegment | crates/dexdo/src/source_probe.rs:71-92 | a block comment written from the nested-comment grammar is one segment, whatever follows |
| SourceProbe.LineCommentIsOneSegment | crates/dexdo/src/source_probe.rs:184-189 | a line comment is one segment that stops short of its newline |
| SourceProbe.QuotedIsOneSegment | crates/dexdo/src/source_probe.rs:113-147 | a quoted literal of plain and escaped characters is one segment, between apostrophes exactly if it does not start an identifier that goes on; else the apostrophe stands alone |
| SourceProbe.RawStringIsOneSegment | crates/dexdo/src/source_probe.rs:94-112 | a raw string ends at the first quote followed by its own number of hashes |
| SourceProbe.LifetimeOrCharacter | crates/dexdo/src/source_probe.rs:113-132 | an apostrophe and an identifier start open a character literal exactly when the next character closes it |
| SourceProbe.OpenRawTakesTheRest | crates/dexdo/src/source_probe.rs:94-112 | a raw string that never ends takes the rest of the text |
| SourceProbe.OpenQuoteTakesTheRest | crates/dexdo/src/source_probe.rs:133-147 | so does a literal without its closing quote, a trailing backslash included |
| SourceProbe.OpenCommentTakesTheRest | crates/dexdo/src/source_probe.rs:76-91 | and a block comment that is not closed |
| SourceProbe.TokenIsOneSegment | crates/dexdo/src/source_probe.rs:64-157 | every token of an independent grammar of comments, literals and lone symbols is one segment of its kind |
| SourceProbe.SegmentsAreTokens | crates/dexdo/src/source_probe.rs:182-271 | a text written from tokens is cut into exactly these tokens |
| SourceProbe.WrittenItemIsRead | crates/dexdo/src/source_probe.rs:27-272 | an item written from tokens whose braces nest is read through its own closing brace, and its code is what the tokens other than comments spell |
| SseFrames.SplitIsExact | crates/dexdo/src/api_format.rs:232-246 | frames and rest of the reference split reproduce the stream, and the rest holds no blank line |
| SseFrames.FramesAreFrames | crates/dexdo/src/api_format.rs:232-246 | every frame ends at its first pair of line feeds |
| SseFrames.SplitIsUnique | crates/dexdo/src/api_format.rs:232-246 | no other list of frames and rest does both |
| SseFrames.SplitResumes | crates/dexdo/src/api_format.rs:254-258 | later bytes are split as if appended to the unfinished frame alone |
| SseFrames.DrainIsSplit | crates/dexdo/src/api_format.rs:253-270 | one drain gives the reference split, or the frames before the first that is not UTF-8 with that frame gone too |
| SseFrames.DrainTexts | crates/dexdo/src/api_format.rs:264-269 | the text of a frame is its bytes without the two line feeds |
| SseFrames.AnswerMeans | crates/dexdo/src/api_format.rs:253-275 | a push is refused as not UTF-8 exactly when a complete frame is not, as over the cap exactly when all are and the unfinished frame is longer, and else gives all complete frames |
| SseFrames.ChunkingIsInvisible | crates/dexdo/src/api_format.rs:250-275 | however the stream is cut into accepted pushes, their frames and the final rest are those of one split of the whole stream, and reproduce it |
| SseFrames.AcceptedExactlyWhen | crates/dexdo/src/api_format.rs:250-275 | a cut is accepted throughout exactly when all frames are UTF-8 and the unfinished frame is within the cap after every push |
| SseFrames.Splitter.Search | crates/dexdo/src/api_format.rs:254-262 | the window search returns the first pair from its start position and records exactly the windows from there through the one found, or all of them |
| SseFrames.Splitter.NextFrame | crates/dexdo/src/api_format.rs:253-265 | searching on from the watermark takes exactly the next frame, a straddling end included |
| SseFrames.TraceTakesFrame | crates/dexdo/src/api_format.rs:260-263 | a frame found in several searches has had each of its own windows compared once, and none that straddles its end |
| SseFrames.Splitter.Push | crates/dexdo/src/api_format.rs:250-275 | the answer and the buffer left behind, errors included, as the drain of old buffer plus new bytes |
| SseFrames.Splitter.TakeRest | crates/dexdo/src/api_format.rs:278-281 | returns the buffer, which after a push that was not refused as UTF-8 is the rest of the stream, and starts over |
| SseFrames.Splitter.IsEmpty | crates/dexdo/src/api_format.rs:284-286 | true exactly when nothing is buffered, that is when the stream has no unfinished frame |
| SseFrames.Splitter.ComparesEachWindowOnce | crates/dexdo/src/api_format.rs:236-238 | the windows compared are, in stream order and once each, all up to the watermark except those that straddle a frame end; so comparisons and drained frames together are at most the bytes pushed |
| EditDistance.DistIsShortest | crates/dexdo/src/registry.rs:579-599 | the distance is the cost of the cheapest insert/delete/replace script and of no cheaper one |
| EditDistance.Symmetric | crates/dexdo/src/registry.rs:579-599 | the distance is symmetric |
| EditDistance.ZeroIsEqual | crates/dexdo/src/registry.rs:579-599 | it is zero exactly on equal texts |
| EditDistance.Triangle | crates/dexdo/src/registry.rs:579-599 | it obeys the triangle inequality, by composing scripts |
| EditDistance.EqualBytesTakeDiagonal | crates/dexdo/src/registry.rs:588-589 | the equal-byte shortcut loses nothing, because neighbouring cells differ by at most one |
| EditDistance.CaseFoldedDistance | crates/dexdo/src/registry.rs:579-599 | the two swapped rows compute the distance to the lowercased right side |
| EditDistance.LowercaseMeans | crates/dexdo/src/registry.rs:579-599 | folding leaves no capital, changes nothing but case, and makes exactly the texts equal that differ in case only |
| Suggestions.Rank | crates/dexdo/src/registry.rs:487-500 | the ranked list holds exactly the non-empty, non-forbidden names, each with its distance |
| Suggestions.PoolMeans | crates/dexdo/src/registry.rs:487-500 | the competing names are those discovered, not empty and not forbidden in lowercase, so that the case of a spelling does not matter |
| Suggestions.SortSorts | crates/dexdo/src/registry.rs:501-505 | sorting by distance, then name bytes, is an ordered permutation |
| Suggestions.DedupSorts | crates/dexdo/src/registry.rs:506-506 | on the sorted list, removing equal neighbours removes every duplicate and nothing else |
| Suggestions.Finalists | crates/dexdo/src/registry.rs:484-507 | what is left after sort, dedup and truncate is the true top five |
| Suggestions.TopIsUnique | crates/dexdo/src/registry.rs:501-507 | there is only one such list, so discovery order does not matter |
| Suggestions.TopIsNearest | crates/dexdo/src/registry.rs:501-507 | distances ascend, equal ones by name, and no name left out is nearer than one that is listed |
| Suggestions.LessMeans | crates/dexdo/src/registry.rs:501-505 | the first byte in which two names differ decides, a name that ends there comes first |
| Suggestions.RegisteredModelSuggestions | crates/dexdo/src/registry.rs:480-537 | the suggestions are the names of the top list that the registry confirms, all of them, in rank order |
| Settlement.MulBpsExact | crates/core/src/settle.rs:102-104 | the integer widths are invisible exactly when the true quotient fits 64 bits |
| Settlement.RateIsProportional | crates/core/src/settle.rs:14-17 | the rebate rate is proportional to the ticks up to the cap and the cap beyond |
| Settlement.AmountsAre | crates/core/src/settle.rs:9-34 | closed forms of fee, rebate and net burn while the fee fits: the rebate is quadratic up to the cap and linear beyond |
| Settlement.CanonicalAmounts | crates/core/src/settle.rs:9-34 | the same for the canonical constants: 4 bps per tick and tick up to 50 ticks, 200 bps beyond, of a fee of 250 |
| Settlement.NoBurnBeyondTheFee | crates/core/src/settle.rs:25-34 | a rebate rate that reaches the fee leaves nothing to burn |
| Settlement.BurnsAreClamped | crates/core/src/settle.rs:71-99 | which side of a burn is clamped to what, and when both sides lose alike |
| Settlement.FeeSplits | crates/core/src/settle.rs:9-34 | rebate plus net burn is the fee, up to one unit of rounding |
| Settlement.SplittingEarnsNothing | crates/core/src/settle.rs:14-23 | two deals never earn more rebate than one of their sum |
| Settlement.SplittingBurnsNoLess | crates/core/src/settle.rs:25-34 | and never burn less, up to one unit |
| Settlement.NetBurnPositiveFromPrice41 | crates/core/src/settle.rs:25-34 | with the canonical constants the net burn is positive for all tick counts whose fee fits exactly from price 41 up |
| Settlement.NetBurnCanWrapToZero | crates/core/src/settle.rs:102-104 | beyond 64 bits a huge burn is cut to zero, for a concrete deal |
| StreamMachine.Machine.Open | crates/core/src/machine.rs:119-127 | a deal opens on the probe with a bond of twice the price, an empty history and no settlement |
| StreamMachine.Machine.OnProbeAccepted | crates/core/src/machine.rs:133-144 | accepted exactly while the trial is on, that is when nothing but claims and promotions was called before; otherwise refused with the state untouched |
| StreamMachine.Machine.OnClaim | crates/core/src/machine.rs:176-191 | accepted exactly on an open stream for a total not below the largest accepted claim, which becomes trusted while the new total is pending; otherwise which error, with the state untouched; the invariant error never |
| StreamMachine.Machine.OnPromote | crates/core/src/machine.rs:194-206 | accepted exactly on an open stream; the largest accepted claim becomes trusted |
| StreamMachine.Machine.BuyerStop | crates/core/src/machine.rs:235-254 | refused exactly on a deal that is over; on the trial one tick burns on each side and the rest of the bond returns; else the seller is paid exactly what its history earned; one settlement more |
| StreamMachine.Machine.SellerStop | crates/core/src/machine.rs:268-282 | refused exactly on a deal that is over; else the seller is paid exactly what its history earned, on the trial nothing |
| StreamMachine.Machine.SellerNoShow | crates/core/src/machine.rs:285-292 | always settles, returning the bond; if the calls were guarded the deal was not over and this is the only settlement |
| StreamMachine.Machine.BuyerDispute | crates/core/src/machine.rs:295-305 | freezes the claimed but untrusted tail: trusted plus contested is the largest claim, what is earned and what is at risk do not change, a second dispute changes nothing |
| StreamMachine.Machine.ReleaseDispute | crates/core/src/machine.rs:310-324 | refused exactly on a deal that is over; else the seller is paid exactly what its history earned and the tail is dropped |
| StreamMachine.Machine.ResolveDisputeTimeout | crates/core/src/machine.rs:331-338 | always settles, burning the same bond on both sides; if the calls were guarded this is the only settlement |
| StreamMachine.Machine.Close | crates/core/src/machine.rs:341-343 | ends the deal without a settlement, after which nothing is earned |
| StreamMachine.Machine.CheckInvariant | crates/core/src/machine.rs:364-373 | an error exactly when the pending claim is below the trusted one, which no machine reaches by its calls |
| StreamMachine.Machine.SettlesOnce | crates/core/src/machine.rs:208-338 | a machine whose calls were guarded has settled at most once and is over if it has |
| StreamMachine.PipelineInvariant | crates/core/src/machine.rs:119-206 | every state of every run, told from the calls and accepted claims that led to it |
| StreamMachine.PhaseIsHistory | crates/core/src/machine.rs:119-343 | whether a deal is on trial, open, disputed or over follows from the sequence of calls alone |
| StreamMachine.StateIsItsHistory | crates/core/src/machine.rs:176-206 | pending is the largest accepted claim, trusted is what was pending before the last one unless a promotion came later; in every state the trusted ticks are what the history earned |
| StreamMachine.InvariantNeverBreaks | crates/core/src/machine.rs:363-373 | the invariant error is unreachable |
| StreamMachine.TrustedNeverFalls | crates/core/src/machine.rs:162-206 | trusted consumption never falls while a deal stays live |
| StreamMachine.SplitPaysTrustedOnly | crates/core/src/machine.rs:235-324 | a split pays exactly what the history made trusted if the deal streamed and had not ended before, and nothing otherwise; the contested tail is never paid |
| StreamMachine.RiskIsTheContestedTail | crates/core/src/machine.rs:295-361 | on the trial one tick is at risk, on an ended deal nothing; else trusted value plus at-risk value is claimed value without saturation; a dispute changes neither, a second dispute changes nothing, no sum overflows |
| StreamMachine.EndedStaysEnded | crates/core/src/machine.rs:208-226 | on an ended deal a call settles nothing and leaves it ended exactly when it is guarded; stops and releases are refused |
| StreamMachine.GuardedRunsSettleOnce | crates/core/src/machine.rs:208-338 | a run whose calls are guarded settles at most once, from any state |
| StreamMachine.GuardIsExact | crates/core/src/machine.rs:285-338 | after a settlement a further call keeps every guarded continuation at one settlement if and only if it is guarded |
| StreamMachine.UnguardedDisputeSettlesTwice | crates/core/src/machine.rs:295-305 | the concrete run stop, dispute, stop settles twice |
| StreamMachine.BondIsAccountedFor | crates/core/src/settle.rs:71-99 | a probe burn and a dispute burn account for the whole bond exactly when twice the price fits 64 bits |
| SellPlan.GreedyIsExact | crates/core/src/accumulator.rs:109-166 | the lots sum to the amount, come largest first, cost what the plan commits and are as many as the pre-pass counted |
| SellPlan.GreedyIsFewest | crates/core/src/accumulator.rs:109-116 | no list of allowed lots with the same sum is shorter |
| SellPlan.PushLots | crates/core/src/accumulator.rs:142-157 | the nested loops push exactly the greedy lots |
| SellPlan.ForWholeUsdc | crates/core/src/accumulator.rs:117-166 | which plan or refusal, for every amount and every allocator answer |
| SellPlan.ForAvailableShell | crates/core/src/accumulator.rs:169-192 | the plan uses everything but the dust below one eccUSDC, which is what is left in the wallet |
| SellPlan.LeftAndCommitted | crates/core/src/accumulator.rs:190-192 | what is left and what is committed make up what was available; a plan for more leaves nothing |
| SellPlan.CountsAccountForPlan | crates/core/src/accumulator.rs:195-203 | the per-denomination summary adds up to the planned amount |
| SellPlan.CountsAreMultiplicities | crates/core/src/accumulator.rs:195-203 | it lists each lot size of the plan once, largest first, with how many lots have it |
| ModelId.JoinSplit | crates/core/src/manifest.rs:153-153 | joining the split parts gives the text back |
| ModelId.SplitUndoesJoin | crates/core/src/manifest.rs:153-153 | splitting undoes joining exactly when no part holds the separator and no part before one ends in a dash |
| ModelId.ParseFlags | crates/core/src/manifest.rs:166-199 | the loop accepts exactly the token lists of the grammar line and reads the choice that was written; on refusal it names the first offending token and why, a repeated slot before a wrong order |
| ModelId.ParseCanonicalModelId | crates/core/src/manifest.rs:143-207 | an id is accepted exactly if it is three base parts and a grammar line joined, and read as what was written; which of the two base errors is raised when |
| ModelId.LineIsRead | crates/core/src/manifest.rs:137-142 | any choice of unit, positive window, resolution, tools, think and precision, written in the order of the grammar line, is accepted and read as exactly these fields |
| ModelId.OnlyLinesAreRead | crates/core/src/manifest.rs:102-134 | and nothing but such lines is accepted |
| ModelId.GrammarIsTheLine | crates/core/src/manifest.rs:137-207 | the whole ids accepted are base parts and a line, and their reading is what was written |
| ModelId.RefusedTokens | crates/core/src/manifest.rs:110-134 | which tokens are no flags, and which of the three reasons is given |
| ModelId.BuildKeepsTokens | crates/core/src/manifest.rs:180-198 | the flags read from ascending tokens give those tokens back in slot order |
| ModelId.RenderInvertsReading | crates/core/src/manifest.rs:137-142 | every accepted id is the rendering of what was read, so the grammar is injective |
| ModelId.ReadingInvertsRender | crates/core/src/manifest.rs:137-207 | rendering and reading a value again gives it back exactly when the grammar can express it |
| OracleBounds.CompareDecimalIsNumeric | crates/core/src/oracle_manifest.rs:18-22 | digit strings are ordered as their integer values, leading zeros included |
| OracleBounds.LargestNumeral | crates/core/src/oracle_manifest.rs:13-14 | the text constant denotes 2^256 - 1 |
| OracleBounds.IsUint256DecMeans | crates/core/src/oracle_manifest.rs:25-29 | the text test holds exactly for digit strings of at most 2^256 - 1 |
| OracleBounds.ValidateRanges | crates/core/src/oracle_manifest.rs:126-161 | accepted exactly for one or more ascending uint256 bounds, one outcome more than bounds and fewer than twenty; errors point at the offending bound |
| OracleBounds.RangeIsInterval | crates/core/src/oracle_manifest.rs:39-40 | ascending bounds cut the price line: a price is in range k exactly when it has passed bound k-1 and not bound k, whichever side a bound itself belongs to |
| OracleBounds.EveryOutcomeIsReached | crates/core/src/oracle_manifest.rs:149-155 | every outcome is reached by a uint256 price, except the first if bounds belong to the range above and the first is zero, or the last if they belong to the range below and the last is 2^256 - 1 |
| ShellAmount.RenderTrimmed | crates/core/src/params.rs:163-175 | the popping loop renders whole SHELL and the decimals without trailing zeros |
| ShellAmount.AmountsAreExact | crates/core/src/params.rs:195-240 | a well-formed text is read as its exact decimal value times 10^9, and refused exactly when that exceeds 128 bits |
| ShellAmount.OnlyAmountsAreAccepted | crates/core/src/params.rs:195-240 | nothing but digits, an optional point and at most nine decimals is accepted |
| ShellAmount.RefusalsAre | crates/core/src/params.rs:195-240 | what each of the refusals says about the text, in the order of the checks |
| ShellAmount.PointAloneIsZero | crates/core/src/params.rs:195-240 | a point alone reads as zero and is the only accepted text without a digit |
| ShellAmount.TrimmedRoundTrip | crates/core/src/params.rs:150-175 | printing trimmed and parsing is the identity on every 128-bit amount |
| ShellAmount.FixedRoundTrip | crates/core/src/accumulator.rs:306-317 | printing with nine decimals and parsing is the identity too |
| ShellAmount.TrimmedIsCanonical | crates/core/src/params.rs:163-175 | the trimmed rendering has no leading zero, no trailing decimal zero and no idle point, and is worth the raw amount |
| ShellAmount.FixedHasNine | crates/core/src/accumulator.rs:306-317 | the fixed rendering has nine decimals and is worth the raw amount |
| SubmitResponse.ReadsDecimalText | crates/core/src/onchain_diagnostics.rs:466-479 | a code in decimal digits, signed or not, white space around it or not, is read as that number, and one beyond 64 bits is not read as a code |
| SubmitResponse.ReadsHexText | crates/core/src/onchain_diagnostics.rs:473-478 | a code in hexadecimal digits of either case behind either prefix, signed or not, white space around it or not, is read as that number, and one beyond 64 bits is not read as a code |
| SubmitResponse.HexDenotes | crates/core/src/onchain_diagnostics.rs:473-478 | the number hexadecimal digits stand for: that of the digits of any number in any mixture of cases is the number |
| SubmitResponse.OnlyNumeralsAreRead | crates/core/src/onchain_diagnostics.rs:473-478 | a text that is read is, trimmed, an optional prefix, an optional sign and digits of that base |
| SubmitResponse.ReadsNumber | crates/core/src/onchain_diagnostics.rs:466-472 | a number is read as itself if it is an integer within 64 bits; no other value but text is read |
| SubmitResponse.Collect | crates/core/src/onchain_diagnostics.rs:370-429 | the recursive collectors append the codes of the traversal to what was collected before |
| SubmitResponse.LocateIsExact | crates/core/src/onchain_diagnostics.rs:370-395 | the traversal finds exactly the coded positions at any depth, each with its code and dotted stage |
| SubmitResponse.LocateInOrder | crates/core/src/onchain_diagnostics.rs:370-395 | it finds them in document order, each once |
| SubmitResponse.PathsAreOrdered | crates/core/src/onchain_diagnostics.rs:370-395 | document order is a strict total order: the first step in which two positions part decides, and what lies below a position comes behind it |
| SubmitResponse.StageIsDotted | crates/core/src/onchain_diagnostics.rs:370-395 | a stage joins keys by points and puts array positions in brackets |
| SubmitResponse.Validate | crates/core/src/onchain_diagnostics.rs:33-61 | the verdict, in the order the checks are made; an accepted response comes back unchanged, a rejected one sanitised, and the second lookup of the stated error cannot fail |
| SubmitResponse.KeySurvives | crates/core/src/onchain_diagnostics.rs:36-38 | sanitising an object keeps exactly its keys |
| SubmitResponse.JudgeMeans | crates/core/src/onchain_diagnostics.rs:33-61 | each of the five verdicts, exactly when: an error that is not null, a harmful exit code at any depth, a harmful action code, `result.aborted` true, or none of these; the failure reported is the first in document order |
| SubmitResponse.LoneExitCode | crates/core/src/onchain_diagnostics.rs:33-61 | a response that is one exit code, under any of its four keys, is refused with it exactly if it is read and not zero |
| SubmitResponse.LoneActionCode | crates/core/src/onchain_diagnostics.rs:48-54 | the same for an action code under any of its four keys |
| SubmitResponse.LoneAborted | crates/core/src/onchain_diagnostics.rs:56-58 | a response that only says whether it was aborted is refused exactly if it says true |
| SubmitResponse.LoneError | crates/core/src/onchain_diagnostics.rs:34-44 | a response that only states an error is refused exactly unless it is null |
| SubmitResponse.HugeExitCodeIsAccepted | crates/core/src/onchain_diagnostics.rs:466-479 | an exit code of 2^63 is passed over |
| Sanitize.CollectStrings | crates/core/src/onchain_diagnostics.rs:504-517 | adds every non-empty string below a value |
| Sanitize.CollectEchoSecrets | crates/core/src/onchain_diagnostics.rs:481-495 | adds the secrets of a value to those collected before |
| Sanitize.KeysAreListed | crates/core/src/onchain_diagnostics.rs:544-580 | the two key tests are the listed names in any mixture of cases, message tokens masked but not collected |
| Sanitize.EchoSecretsMeans | crates/core/src/onchain_diagnostics.rs:481-517 | the secrets are exactly the non-empty strings at positions below a credential key that is not a message token |
| Sanitize.OrderSecrets | crates/core/src/onchain_diagnostics.rs:584-588 | the secrets of at least eight bytes, each once, longest first |
| Masking.MaskExactSecrets | crates/core/src/onchain_diagnostics.rs:582-593 | the loop replaces the secrets one after the other |
| Masking.ReplaceFirst | crates/core/src/onchain_diagnostics.rs:590-590 | a replacement keeps the text before the first occurrence, masks it and goes on behind it |
| Masking.EchoIsMasked | crates/core/src/onchain_diagnostics.rs:582-593 | an echoed secret becomes the mask and the text around it stays |
| Masking.MaskLeavesOtherText | crates/core/src/onchain_diagnostics.rs:582-593 | text that holds no secret is unchanged |
| Masking.OneSecretIsHidden | crates/core/src/onchain_diagnostics.rs:582-593 | one secret is gone from every masked text exactly when it cannot be read from the mask together with the text around it |
| Masking.MaskHoldsNoSecret | crates/core/src/onchain_diagnostics.rs:582-593 | a secret that does not overlap the mask is gone from every masked text, whatever other secrets are masked with it and in whatever order |
| Masking.HiddenAmongOthers | crates/core/src/onchain_diagnostics.rs:582-593 | and only such a secret is, over all longest-first lists of secrets of at least eight bytes |
| Masking.PlainSecretDoesNotOverlap | crates/core/src/onchain_diagnostics.rs:582-593 | a secret without angle brackets that is not part of the word in the mask does not overlap it |
| Masking.MaskWordStaysReadable | crates/core/src/onchain_diagnostics.rs:582-593 | the eight-byte secret `redacted` is readable after it was masked |
| Sanitize.SanitizePayload | crates/core/src/onchain_diagnostics.rs:63-67 | the result is one rewriting pass with the secrets of the value, in some longest-first order |
| Sanitize.CredentialsAreMasked | crates/core/src/onchain_diagnostics.rs:519-546 | wherever a listed name in any case stands in a payload, every sanitised form holds the mask there |
| Sanitize.OtherTextIsKept | crates/core/src/onchain_diagnostics.rs:519-542 | text elsewhere that holds no long secret stays as it is |
| Sanitize.AuthorizationIsMasked | crates/core/src/onchain_diagnostics.rs:544-546 | the one sanitised form of a lone `Authorization` field |
| Sanitize.NoSecretSurvives | crates/core/src/onchain_diagnostics.rs:63-67 | no string of a sanitised payload, at any depth, holds a secret of the payload that has eight bytes and does not overlap the mask |
| Sanitize.HiddenInEveryPayload | crates/core/src/onchain_diagnostics.rs:63-67 | and this is exact: a secret is unreadable in every sanitised payload if and only if it has eight bytes and does not overlap the mask |
| Sanitize.SanitizingKeepsShape | crates/core/src/onchain_diagnostics.rs:519-542 | keys, array lengths and non-string leaves stay; fields under a listed name in any case hold the mask |
| Sanitize.SanitizingIsIdempotent | crates/core/src/onchain_diagnostics.rs:63-67 | sanitising twice is sanitising once, whatever order the hash sets iterate in |
| ClaimLimits.LimitMeans | crates/core/src/params.rs:2273-2293 | the limit admits exactly the increments that satisfy both inequalities of the contract |
| ClaimLimits.ClaimsAreBounded | crates/core/src/params.rs:2279-2293 | n claims advance at most n ticks and at most the physical rate over the whole time |
| ClaimLimits.ClaimsNeeded | crates/core/src/params.rs:1873-1875 | advancing by a number of ticks, that of the accepted probe not among them, takes at least as many claims |
| ClaimLimits.ReserveNeverOverdrawn | crates/core/src/params.rs:1898-1911 | no prefix of a clean run, in any order, overdraws the reserve below saturation |
| ClaimLimits.ReserveCoversExactlyWhen | crates/core/src/params.rs:1898-1911 | the reserve covers every clean run exactly when its sum fits 128 bits |
| ClaimLimits.ReserveIsTight | crates/core/src/params.rs:1873-1911 | the reserve is 0.300 plus 0.015 per tick, and beside everything else pays for exactly as many claims as the deal has ticks |
| ClaimLimits.ClaimsOfALife | crates/core/src/params.rs:1873-1875 | a deal claimed to the end takes at least one claim less than its ticks, the accepted probe being the first of them, and no more exactly when every claim is a whole tick |
| ClaimLimits.CoveredByShortfall | crates/core/src/params.rs:1873-1911 | such a deal is covered exactly when its claims leave at most one tick of their allowances unused, and one more per tick not funded; whole ticks leave the burn of as many claims over |
| ClaimLimits.ThirdsOverdraw | crates/core/src/params.rs:1873-1911 | three admissible claims that share the second tick of a two-tick deal overdraw its reserve, two halves do not |
| ClaimLimits.BuyReserveCoversTheRest | crates/core/src/params.rs:1916-1926 | what is reserved when a sell rests covers every entry still to come |
| ClaimLimits.BuyReserveIs | crates/core/src/params.rs:1916-1926 | 0.175 plus 0.015 per tick, 0.165 once the bond is funded |
| ClaimLimits.RunningTotals | crates/core/src/params.rs:1770-1816 | what a complete life has burned after each of its entries |
| ClaimLimits.MinDeployFundsEveryRun | crates/core/src/params.rs:2002-2006 | the whole-SHELL floor funds every clean run plus the surplus, and is the smallest that does |
| ClaimDriver.Drive | crates/dexdo/src/seller/advance.rs:421-565 | the loop makes the claims of the reference from the reported total and ends at their sum; a total below the probe tick or beyond the budget is refused |
| ClaimDriver.NextIsLargest | crates/dexdo/src/seller/advance.rs:475-495 | a round claims the largest total that rate, budget and usage support, unless that would exhaust the budget while requests run |
| ClaimDriver.DrivenIsAdmitted | crates/dexdo/src/seller/advance.rs:475-490 | however usage arrives, every claim is positive and within the rate limit, and the total exceeds neither budget nor accepted usage |
| ClaimDriver.BacklogIsWholeTicks | crates/dexdo/src/seller/advance.rs:475-490 | while every round finds the whole budget used up, each claim is a whole tick and there are no more of them than ticks left |
| ClaimDriver.BacklogIsCovered | crates/core/src/params.rs:1873-1911 | so such a loop never overdraws the reserve |
| ClaimDriver.SlowUsageOverdraws | crates/dexdo/src/seller/advance.rs:475-490 | on usage slower than a tick per claim the loop itself makes the three claims that overdraw a two-tick deal |

## Left out

- Chain, HTTP and SDK access, getters and account snapshots: a registry answer is the parameter `registered`.
- Keys, signatures and encryption (`note.rs`, `wallet_seed.rs`): they come from external crates.
- Operator texts, contract error names and labels; error messages are reduced to which error it is.
- Constants, timeouts and paths of `params.rs` that no modelled function computes with.
- `address.rs`, `wallet.rs`, `handover.rs`, `note_withdraw_gate.rs`: short checks and normalisers that would only add easy members.
- Per-format response facts, header filters and `frame_parts` of `api_format.rs`: field picking.
- `BuyPlan` and `require_funded` of `accumulator.rs`: single comparisons.
- The alias rules behind the forbidden suggestion names: the names to exclude are the parameter `forbidden`, and the claimed model arrives trimmed and lowercased as `comparison`.
- The identity fields and hash notations of `OracleMarketManifest::validate`: only bounds and outcomes are modelled.
- The receipt variants of `Settlement` in `machine.rs`: the machine never produces them.
- Real UTF-8 validation in the splitter: it is the parameter `utf8`, and the frame cap is the parameter `cap`.
- Arithmetic overflow panics of debug builds: products and sums wrap as in release builds.
- SseFrames.Splitter.TakeRest: after a push refused as not UTF-8 the buffer may still hold complete frames, so the rest of the stream is promised only otherwise.
- What ends or delays the claim loop from outside: closes, failed or concurrent claims, and the waiting for usage; a round of `ClaimDriver` is one that reaches the reading after its wait.
- Weekly quotas of subscriptions, which bound claims on chain only.
- Secrets that appear in object keys: the code rewrites values only, so readability is stated of strings.
- The side a price equal to a range bound falls on: the manifest does not fix it, so both are covered.
