# Datacap refill policy, modelled in Dafny

This project models the core of a Filecoin Plus allocator dashboard.
That core is the policy that decides how much datacap to ask for in an
application's next refill. Around it sit the helpers it relies on:

- `anyToBytes`, which parses a size such as `"10PiB"` into bytes;
- `splitString`, which splits a formatted size back into magnitude and unit;
- the lookup of an application's last datacap allocation;
- URL shortening;
- the sum over the last *n* daily values;
- the two rules that shape the application lists fetched from the backend.

The modules follow the source files:

| module | file | source |
|---|---|---|
| `Wrappers` | `wrappers.dfy` | `Option` and `Result`, standing for `undefined` and for a raised error |
| `JsSlice` | `js_slice.dfy` | the index rules of JavaScript's `String.prototype.slice` / `Array.prototype.slice` |
| `Types` | `types.dfy` | the record shapes of `src/type.ts` that the modelled code reads |
| `Utils` | `utils.dfy` | `src/lib/utils.ts` |
| `CalculateAmountToRefill` | `refill.dfy` | `src/helpers/calculateAmountToRefill.ts` |
| `ApiClient` | `api_client.dfy` | the list rules of `src/lib/apiClient.ts` |

## The refill policy

The request index *n* is the number of recorded allocation requests. The
candidate for request *n* is:

- *n* = 0: the lesser of half the weekly allocation and 5% of the total requested;
- *n* = 1: the lesser of the weekly allocation and 0.5 PiB;
- *n* = 2: the lesser of twice the weekly allocation and 1 PiB;
- *n* ≥ 3: the lesser of four times the weekly allocation and 2 PiB.

The policy then applies three checks, in order:

- If `floor(candidate + granted) > total`, the answer is the zero request `{'0', GiB}`.
- If the candidate is not positive, the answer is the zero request.
- Otherwise `floor(candidate)` is formatted with `bytesToiB`. `splitString` splits the text, and the result is kept only when its unit is a `RefillUnit` value. If it is not, the answer is the zero request.

The inner procedure is a `method` that keeps the source's mutable
`nextRequest`/`condition` variables and early returns. It is proved equal
to the value-level specification `AllocationToRequest`. The policy's
properties are stated as lemmas about that specification.

`bytesToiB` and the members of the `RefillUnit` enum come from outside
the modelled files. Both are a `Formatting` parameter: a function from a
byte count to text, and a set of unit names.

`anyToBytes` is modelled on the code's own normalisation, which:

- replaces `t`→`T`, `b`→`B`, `p`→`P`, `I`→`i`;
- removes every JavaScript whitespace character;
- splits the result into the unit, made of the characters outside `[0-9.]`, and the mantissa, made of the characters inside.

The mantissa holds only digits and dots, so JavaScript's `parseFloat`
never meets a sign or an exponent there. It is read with `parseFloat`'s rule: the longest
prefix `digits[.digits]` that has at least one digit (`ParseFloatFraction`
and `ParseFloatWhole` give its value). The `byte-converter` library is not part of this
model. Its binary unit table is taken as `B`, `KiB`, `MiB`, `GiB`, `TiB`,
`PiB` with the powers 2^0 … 2^50. A unit outside that table is an error.
So is a mantissa that `parseFloat` reads as NaN: one with no leading
digit and no `.` followed by a digit, such as `""` or `"..5"`.

Behaviour of the code worth knowing:

- **Half a unit.** `anyToBytes("0.5TiB")` is 2^39 and `anyToBytes("0.5PiB")` is 2^49 (lemma `AnyToBytesHalfUnit`).
- **Case of units.** Only `t`, `b`, `p` and `I` are folded, so `"1tib"` and `"1TIB"` read as TiB, but `"1gib"` becomes the unknown unit `giB` (`AnyToBytesTebibyteAnyCase`, `AnyToBytesLowercaseGibRefused`).
- **Missing amounts.** Only a null or undefined allocation amount is replaced, and it is replaced by `'0'`. An empty string is not replaced. `'0'` carries no unit, so under the unit table it does not parse (`MissingAmountHasNoUnit`).
- **Exhaustion.** At request 1 with 10 bytes left, a weekly allocation of 11 is refused, while for one of 10 the 10 bytes go to the formatter. The ceiling test at line 55 is a strict `>` on `floor(candidate + granted)` (`ExhaustionBoundary`).
- **Dropped remainder.** When the ceiling is hit, the remainder is computed into `nextRequest` and then discarded; the answer is still the zero request (`RemainderIsDropped`).

## Model

| member | source | states |
|---|---|---|
| `JsSlice.RelativeIndex` | src/lib/utils.ts:75 | a relative slice index lies in `[0, len]`: negative values count from the end, and out-of-range values are clamped |
| `JsSlice.Slice` | src/lib/utils.ts:74 | within range, `slice(start, end)` is the subsequence `s[start..end]`; it is never longer than `s` |
| `JsSlice.SliceFrom` | src/lib/utils.ts:75 | `slice(start)` is the suffix from `start`, or `|s|+start` for a negative start; it is empty past the end and the whole sequence before the start |
| `Utils.Filter` | src/lib/utils.ts:33-35 | a `replace(/[…]/g, '')` keeps only the characters satisfying `p`, and is never longer than its input |
| `Utils.FilterConcat` | src/lib/utils.ts:33-35 | removing characters distributes over concatenation |
| `Utils.FilterKeepsAll` | src/lib/utils.ts:33-35 | removal leaves a string unchanged when no character matches |
| `Utils.FilterDropsAll` | src/lib/utils.ts:33-35 | removal empties a string whose every character matches |
| `Utils.Normalize` | src/lib/utils.ts:28-33 | the definition of `formatDc`: the four letter replacements, then removal of whitespace; `NormalizeIsCharwise`, `NormalizeConcat` and `NormalizeIdempotent` state what it computes |
| `Utils.NormalizeIsCharwise` | src/lib/utils.ts:28-33 | the chain of four replacements plus whitespace removal equals a single per-character map that drops whitespace |
| `Utils.NormalizeSpecConcat` | src/lib/utils.ts:28-33 | the per-character normalisation distributes over concatenation |
| `Utils.NormalizeConcat` | src/lib/utils.ts:28-33 | normalisation of a concatenation is the concatenation of the normalisations |
| `Utils.NormalizeOneChar` | src/lib/utils.ts:28-33 | whitespace disappears; `t`, `b`, `p`, `I` are mapped; every other character is kept |
| `Utils.NormalizeFixedPoint` | src/lib/utils.ts:28-33 | a string with no whitespace and none of `t b p I` is left unchanged |
| `Utils.NormalizeSpecFixedPoint` | src/lib/utils.ts:28-33 | the same for the per-character form |
| `Utils.NormalizeSpecOutput` | src/lib/utils.ts:28-33 | normalised text holds no whitespace and no character the map would change |
| `Utils.NormalizeIdempotent` | src/lib/utils.ts:28-33 | normalising twice is normalising once |
| `Utils.LeadingDigits` | src/lib/utils.ts:37 | the length of the longest run of decimal digits at the start of the string |
| `Utils.ParseFloat` | src/lib/utils.ts:37 | `parseFloat` on the mantissa gives a non-negative number, and gives none (NaN) exactly when there is no leading digit and no `.` followed by a digit |
| `Utils.DecimalStringValue` | src/lib/utils.ts:37 | the decimal rendering of `k` reads back as `k` |
| `Utils.LeadingDigitsAll` | src/lib/utils.ts:37 | in an all-digit string the leading run is the whole string |
| `Utils.ParseFloatDecimal` | src/lib/utils.ts:37 | `parseFloat` of the decimal rendering of `k` is `k` |
| `Utils.LeadingDigitsPrefix` | src/lib/utils.ts:37 | the leading digit run of a digit string followed by a non-digit stops at the non-digit |
| `Utils.ParseFloatFraction` | src/lib/utils.ts:37 | on a string of digits and dots, the only strings `parseFloat` receives at line 37, `parseFloat(whole + "." + frac + rest)` is `whole + frac / 10^|frac|` for digit strings `whole` and `frac`, not both empty (so `"5."` is 5 and `".5"` is one half), when `rest` does not start with a digit: reading stops at a second `.` |
| `Utils.ParseFloatAtDot` | src/lib/utils.ts:37 | unfolding of `ParseFloat`'s definition in its dot branch, used by `ParseFloatFraction` |
| `Utils.ParseFloatWhole` | src/lib/utils.ts:37 | `parseFloat` of a non-empty digit string without a dot is its value, canonical or not (so `"05"` is 5) |
| `Utils.ParseFloatNoDot` | src/lib/utils.ts:37 | unfolding of `ParseFloat`'s definition in its no-dot branch, used by `ParseFloatWhole` |
| `Utils.ParseFloatOneAndAHalf` | src/lib/utils.ts:37 | `parseFloat("1.5")` is 1.5 |
| `Utils.Multiplier` | src/lib/utils.ts:36-39 | a unit has a multiplier exactly when it is in the binary unit table, and the multiplier is at least 1 |
| `Utils.MultipliersAreBinaryPowers` | src/lib/utils.ts:36-39 | the `k`-th unit of the table multiplies by 2^(10k) |
| `Utils.MultiplierIsPow2` | src/lib/utils.ts:36-39 | the unit at position `k` of the binary table is worth 2^(10k) bytes: 1 byte for `B`, then 1024 times the unit before it |
| `Utils.AnyToBytes` | src/lib/utils.ts:27-41 | parsing fails exactly when the normalised unit is unknown or `parseFloat` reads the normalised mantissa as NaN (no leading digit and no `.` followed by a digit) |
| `Utils.AnyToBytesIsFlooredProduct` | src/lib/utils.ts:36-40 | when both parts are readable, the result is `floor(mantissa × multiplier)`, and it lies within 1 below the exact product |
| `Utils.UnitPart` | src/lib/utils.ts:34 | the definition of `ext`: the normalised text without `[0-9.]`; `SplitPartsPartition` and `SplitsBack` state its properties |
| `Utils.MantissaPart` | src/lib/utils.ts:35 | the definition of `datacap`: the normalised text restricted to `[0-9.]`; `SplitPartsPartition` and `SplitsBack` state its properties |
| `Utils.SplitPartsPartition` | src/lib/utils.ts:34-35 | the unit and the mantissa split the normalised text: all unit characters are outside `[0-9.]`, all mantissa characters are inside, and together they are a rearrangement of the text |
| `Utils.MinusSignIsUnknownUnit` | src/lib/utils.ts:34-37 | a minus sign goes into the unit, so a negative amount is refused as an unknown unit and no negative byte count is produced |
| `Utils.AnyToBytesNormalized` | src/lib/utils.ts:28-33 | parsing the normalised text gives the same result as parsing the original |
| `Utils.SplitsBack` | src/lib/utils.ts:28-35 | a digit/dot mantissa followed by a canonical unit normalises to itself and splits back into the same two parts |
| `Utils.AnyToBytesFraction` | src/lib/utils.ts:27-41 | `anyToBytes(whole + "." + frac + unit)` is `floor(whole.frac × multiplier(unit))` for every known unit, for digit strings `whole` and `frac` not both empty |
| `Utils.AnyToBytesOneAndAHalfPib` | src/lib/utils.ts:27-41 | `anyToBytes("1.5PiB")` is 1.5 × 2^50 bytes |
| `Utils.AnyToBytesRoundTrip` | src/lib/utils.ts:27-41 | `anyToBytes(k + unit)` is `k × multiplier(unit)` for every `k` and every known unit |
| `Utils.AnyToBytesUnknownUnit` | src/lib/utils.ts:34-39 | a well-formed amount whose unit is outside the table is refused, naming that unit |
| `Utils.SameNormalForm` | src/lib/utils.ts:28-33 | inputs with the same normal form parse alike |
| `Utils.AnyToBytesUnitCase` | src/lib/utils.ts:28-33 | only the normal form of the unit matters |
| `Utils.NormalizeTib` | src/lib/utils.ts:29-32 | `tib` and `TIB` normalise to `TiB` |
| `Utils.NormalizeGib` | src/lib/utils.ts:29-32 | `gib` normalises to `giB`, because `g` is not folded |
| `Utils.AnyToBytesTebibyteAnyCase` | src/lib/utils.ts:27-41 | `k` followed by `tib` or `TIB` is `k × 2^40` bytes |
| `Utils.AnyToBytesLowercaseGibRefused` | src/lib/utils.ts:27-41 | `k` followed by `gib` is refused with the unknown unit `giB` |
| `Utils.AnyToBytesUnknownSuffix` | src/lib/utils.ts:27-41 | `k` followed by `XB` is refused with the unknown unit `XB` |
| `Utils.AnyToBytesEmpty` | src/lib/utils.ts:27-41 | the empty string has no unit and is refused |
| `Utils.AnyToBytesNoMantissa` | src/lib/utils.ts:35-37 | a bare unit has no number: NaN, which is refused |
| `Utils.ParseFloatHalf` | src/lib/utils.ts:37 | `parseFloat("0.5")` is one half |
| `Utils.HalfFloor` | src/lib/utils.ts:40 | flooring half of a multiplier gives integer halving |
| `Utils.AnyToBytesHalfUnit` | src/lib/utils.ts:27-41 | `"0.5" + unit` is half the unit's multiplier; for `TiB` that is 2^39, for `PiB` 2^49 |
| `Utils.FindById` | src/lib/utils.ts:49-52 | `find` returns the first index whose id matches, or nothing when no request has that id |
| `Utils.LastDatacapAllocation` | src/lib/utils.ts:43-63 | nothing without an active request id; otherwise the first request with that id, and only when it is inactive and has exactly two signers |
| `Utils.ShortenUrl` | src/lib/utils.ts:65-78 | the definition of `shortenUrl`; `ShortUrlUnchanged`, `ShortenedUrlShape` and `ShortenUrlZeroTailKeepsWholeUrl` state what it returns |
| `Utils.ShortUrlUnchanged` | src/lib/utils.ts:70-72 | a url no longer than `first + last` is returned unchanged |
| `Utils.ShortenedUrlShape` | src/lib/utils.ts:74-77 | with `last > 0` and a longer url, the result is the first `first` characters, `[...]`, and the last `last` characters; its length is `first + 5 + last` |
| `Utils.ShortenUrlZeroTailKeepsWholeUrl` | src/lib/utils.ts:75-77 | with `last = 0` the "tail" is the whole url, so the result is longer than the url |
| `Utils.ShortenUrlIntended` | src/lib/utils.ts:65-78 | the corrected shortener returns a short url unchanged, otherwise prefix, `[...]` and a tail of exactly `last` characters |
| `Utils.ShortenUrlIntendedAgrees` | src/lib/utils.ts:65-78 | the corrected shortener agrees with the source whenever `last > 0` |
| `Utils.ShortenUrlIntendedBound` | src/lib/utils.ts:65-78 | the corrected result is never longer than the url or `first + 5 + last` |
| `Utils.TotalLastNDays` | src/lib/utils.ts:81-88 | the definition of `calculateTotalLastNDays`: `slice(-n)` then a `reduce` from 0; `TotalLastNDaysSpec` gives its value for every `n` |
| `Utils.FoldSumIsSum` | src/lib/utils.ts:87 | the `reduce` from `acc` is `acc` plus the sum of the values |
| `Utils.TotalLastNDaysSpec` | src/lib/utils.ts:81-88 | for `0 < n ≤ |values|` the total is the sum of the last `n` values; for `n ≥ |values|` and for `n = 0` it is the sum of all values; a negative `n` drops the first `-n` values |
| `CalculateAmountToRefill.DigitRunEnd` | src/helpers/calculateAmountToRefill.ts:106 | the end of the run of digits starting at `i` |
| `CalculateAmountToRefill.DecimalNumeralIsShape` | src/helpers/calculateAmountToRefill.ts:106 | the scanner for `\d+(\.\d+)?` accepts exactly the strings of that shape |
| `CalculateAmountToRefill.SplitString` | src/helpers/calculateAmountToRefill.ts:104-114 | an answer other than the fallback `['0','B']` is a split of the input into a decimal numeral and a `[A-Za-z]iB` unit |
| `CalculateAmountToRefill.SplitStringJoin` | src/helpers/calculateAmountToRefill.ts:104-111 | splitting a numeral joined to a unit gives back the numeral and the unit |
| `CalculateAmountToRefill.SplitStringFallback` | src/helpers/calculateAmountToRefill.ts:104-114 | the fallback is returned exactly when the input does not match the pattern |
| `CalculateAmountToRefill.Offer` | src/helpers/calculateAmountToRefill.ts:67-81 | the formatted offer is either the zero request or carries a refill unit; `OfferOfFormatted` gives both directions |
| `CalculateAmountToRefill.OfferOfFormatted` | src/helpers/calculateAmountToRefill.ts:67-81 | when `bytesToiB` writes a numeral followed by a `[A-Za-z]iB` unit, the offer is exactly that numeral and unit if the unit is a `RefillUnit` value, and the zero request if it is not |
| `CalculateAmountToRefill.OfferMade` | src/helpers/calculateAmountToRefill.ts:47-81 | the offer path: under the ceiling, with a positive candidate whose floor `bytesToiB` writes as a numeral and a `RefillUnit` value, the answer is that numeral and unit |
| `CalculateAmountToRefill.CalculateAllocationToRequest` | src/helpers/calculateAmountToRefill.ts:7-82 | the step-by-step procedure, with its switch, mutable variables and early returns, computes the policy `AllocationToRequest` |
| `CalculateAmountToRefill.Candidate` | src/helpers/calculateAmountToRefill.ts:21-45 | the definition of `nextRequest` after the `switch`; `FirstTierCandidate`, `LaterTierCandidate`, `CandidateGrowsWithIndex` and `CandidateMonotoneInWeekly` state its properties |
| `CalculateAmountToRefill.AllocationToRequest` | src/helpers/calculateAmountToRefill.ts:47-81 | the definition of what `calculateAllocationToRequest` returns; `CeilingExceededGivesZero`, `NonPositiveCandidateGivesZero`, `OfferMade`, `OfferedRequestFitsCeiling` and `UnlistedUnitGivesZero` cover each of its paths |
| `CalculateAmountToRefill.FirstTierCandidate` | src/helpers/calculateAmountToRefill.ts:22-29 | request 0 asks for the lesser of half the weekly allocation and 5% of the total, taking half the weekly when they tie |
| `CalculateAmountToRefill.LaterTierCandidate` | src/helpers/calculateAmountToRefill.ts:13-17 | requests 1, 2 and ≥3 ask for the lesser of 1×, 2× and 4× the weekly allocation and 0.5, 1 and 2 PiB; no candidate exceeds 2 PiB |
| `CalculateAmountToRefill.TierBoundaries` | src/helpers/calculateAmountToRefill.ts:30-39 | a weekly allocation of 1 PiB is capped to 0.5 PiB at request 1; 0.25 PiB doubles to 0.5 PiB at request 2 |
| `CalculateAmountToRefill.CandidateGrowsWithIndex` | src/helpers/calculateAmountToRefill.ts:30-45 | from request 1 on, for a non-negative weekly allocation, a later request never asks for less; request 0 is excluded, since half the weekly allocation can exceed the 0.5 PiB cap of request 1 (weekly 2^51 and total 2^61 give 2^50 at request 0 and 2^49 at request 1) |
| `CalculateAmountToRefill.CandidateMonotoneInWeekly` | src/helpers/calculateAmountToRefill.ts:21-45 | a larger weekly allocation never gives a smaller candidate |
| `CalculateAmountToRefill.CeilingExceededGivesZero` | src/helpers/calculateAmountToRefill.ts:47-58 | when `floor(candidate + granted)` exceeds the total requested, the answer is the zero request |
| `CalculateAmountToRefill.NonPositiveCandidateGivesZero` | src/helpers/calculateAmountToRefill.ts:59-65 | a candidate that is not positive gives the zero request |
| `CalculateAmountToRefill.NonPositiveWeeklyGivesZero` | src/helpers/calculateAmountToRefill.ts:21-65 | a weekly allocation that is not positive gives the zero request at every index |
| `CalculateAmountToRefill.OfferedRequestFitsCeiling` | src/helpers/calculateAmountToRefill.ts:47-81 | any non-zero answer has a positive candidate that fits under the total with what was granted, carries a refill unit, and is `splitString(bytesToiB(floor(candidate)))` |
| `CalculateAmountToRefill.UnlistedUnitGivesZero` | src/helpers/calculateAmountToRefill.ts:67-81 | a formatted unit outside `RefillUnit` gives the zero request |
| `CalculateAmountToRefill.AnswerUnitIsRefillUnit` | src/helpers/calculateAmountToRefill.ts:51-81 | every answer carries a `RefillUnit` value |
| `CalculateAmountToRefill.ExhaustionBoundary` | src/helpers/calculateAmountToRefill.ts:47-58 | at request 1, with 11 bytes left a weekly allocation of 12 is refused; with 10 left, 11 is refused and the 10 bytes go to the formatter (`Offer(fmt, 10)`) |
| `CalculateAmountToRefill.RemainderIsDropped` | src/helpers/calculateAmountToRefill.ts:55-57 | with 1 PiB left and a 2 PiB candidate, the answer is the zero request, not the remainder |
| `CalculateAmountToRefill.RequestBytes` | src/helpers/calculateAmountToRefill.ts:85 | the definition of one step's summand: `anyToBytes` of the amount, `'0'` when it is missing; `MissingAmountHasNoUnit` states the missing case |
| `CalculateAmountToRefill.SumGranted` | src/helpers/calculateAmountToRefill.ts:84-87 | the definition of `totalDCGranted`, the left-to-right `reduce`; `SumGrantedIsTotal` and `SumGrantedError` state its value and its error |
| `CalculateAmountToRefill.SumGrantedIsTotal` | src/helpers/calculateAmountToRefill.ts:84-87 | the `reduce` succeeds exactly when every amount parses, and then yields `acc` plus the sum of the amounts |
| `CalculateAmountToRefill.SumGrantedError` | src/helpers/calculateAmountToRefill.ts:84-87 | a failing `reduce` raises the error of the first amount that does not parse; every amount before it parses |
| `CalculateAmountToRefill.GrantedBytesAppend` | src/helpers/calculateAmountToRefill.ts:84-87 | the granted total of two runs of requests is the sum of their totals |
| `CalculateAmountToRefill.MissingAmountHasNoUnit` | src/helpers/calculateAmountToRefill.ts:85 | a null amount becomes `'0'`, which has no unit and is refused |
| `CalculateAmountToRefill.AmountToRequest` | src/helpers/calculateAmountToRefill.ts:84-102 | the definition of what `calculateAmountToRequest` returns; `AmountToRequestInputs` states when it succeeds and with what |
| `CalculateAmountToRefill.CalculateAmountToRequest` | src/helpers/calculateAmountToRefill.ts:4-103 | the outer procedure computes `AmountToRequest`: the three totals, then the inner procedure at index `|Allocation Requests|` |
| `CalculateAmountToRefill.AmountToRequestInputs` | src/helpers/calculateAmountToRefill.ts:84-102 | the policy succeeds exactly when every recorded amount, the total and the weekly allocation parse, and then answers with the sum of the recorded amounts |
| `CalculateAmountToRefill.OfferedRequestKeepsCumulativeCeiling` | src/helpers/calculateAmountToRefill.ts:47-58 | when a non-zero answer is given, the recorded grants plus `floor(candidate)` stay within the total requested |
| `CalculateAmountToRefill.TenPib` | src/helpers/calculateAmountToRefill.ts:89-91 | `"10PiB"` is 10 × 2^50 bytes |
| `CalculateAmountToRefill.OnePib` | src/helpers/calculateAmountToRefill.ts:93-95 | `"1PiB"` is 2^50 bytes |
| `CalculateAmountToRefill.HalfPibSplits` | src/helpers/calculateAmountToRefill.ts:104-111 | `"0.5PiB"` splits into `"0.5"` and `"PiB"` |
| `CalculateAmountToRefill.FirstRequestOfTenPibApplication` | src/helpers/calculateAmountToRefill.ts:4-103 | an application asking for 10 PiB at 1 PiB a week, with no recorded request, is offered `{'0.5', 'PiB'}`, for a formatter that renders 2^49 bytes as `0.5PiB` with `PiB` a refill unit |
| `ApiClient.ActiveIds` | src/lib/apiClient.ts:65-67 | the keys of the active map are exactly the ids of the active applications |
| `ApiClient.KeptMerged` | src/lib/apiClient.ts:72-74 | the kept merged applications are no more than the merged entries, and none of them has an active id |
| `ApiClient.MergeApplications` | src/lib/apiClient.ts:69-75 | the list starts with all active applications unchanged, and no later entry has an active id |
| `ApiClient.ApplicationsForRepo` | src/lib/apiClient.ts:43-83 | the result is a list exactly when both requests resolve with arrays, and then it is the merge |
| `ApiClient.KeptMergedConcat` | src/lib/apiClient.ts:72-74 | filtering a concatenation filters each part |
| `ApiClient.KeptMergedMembership` | src/lib/apiClient.ts:72-74 | an application is kept exactly when some merged entry carries it and its id is not active |
| `ApiClient.KeptMergedNoneActive` | src/lib/apiClient.ts:72-74 | when no merged id is active, every merged application is kept, in order |
| `ApiClient.KeptMergedOrder` | src/lib/apiClient.ts:72-74 | the kept applications are the merged entries at exactly the positions whose id is not active, taken in increasing position order, so the merged list's relative order is kept |
| `ApiClient.MergeApplicationsLayout` | src/lib/apiClient.ts:69-75 | the list is the active records in order, then one record per non-active merged position in merged order; its length is `|active|` plus the number of merged entries whose id is not active |
| `ApiClient.MergeKeepsEveryId` | src/lib/apiClient.ts:65-75 | an id appears in the list exactly when it is active or merged; an active id appears only at active positions |
| `ApiClient.KeptMergedDistinct` | src/lib/apiClient.ts:72-74 | distinct merged ids stay distinct after filtering |
| `ApiClient.MergeDistinctIds` | src/lib/apiClient.ts:65-75 | distinct active ids and distinct merged ids give a list without duplicate ids |
| `ApiClient.RethrowMessage` | src/lib/apiClient.ts:81-82 | the definition of the re-raised message: the error's own message, or `Failed to fetch applications`; `ApplicationsForRepoErrors` and `AllApplications` state where it is raised |
| `ApiClient.ApplicationsForRepoErrors` | src/lib/apiClient.ts:43-83 | a rejection's message is re-raised, or the default message when it has none; a non-array payload raises the invalid-data message; no other message is raised |
| `ApiClient.WithOwnerAndRepo` | src/lib/apiClient.ts:97-101 | the record gains `owner` and `repo`, and nothing else changes |
| `ApiClient.AllApplications` | src/lib/apiClient.ts:95-110 | a resolved array gives one record per entry, each with the entry's owner and repo and otherwise unchanged; a rejection re-raises its message; a non-array raises a TypeError |
| `ApiClient.AllApplicationsRecoversRecords` | src/lib/apiClient.ts:96-102 | dropping the attached owner and repo gives back the records received |

## Left out

- The HTTP layer is not modelled: axios, the base URL, the access-token interceptor and `console.error`. Each request is given as its settled outcome (`Response`).
- `ApplicationsForRepo`: `Promise.all` reports whichever request rejects first in time. When both reject, the model reports the active request's error, because timing is not modelled.
- `AllApplications`: the TypeError raised by calling `map` on a non-array comes from the JavaScript engine. Its message is a parameter.
- `AnyToBytes`: the `byte-converter` library is not part of this model; its binary table is fixed as `B`…`PiB` (2^0…2^50). The unit is checked before the mantissa. JavaScript would carry NaN into the library instead of raising, and the model has no NaN, so a mantissa that `parseFloat` reads as NaN (no leading digit and no `.` followed by a digit) is an error.
- `ParseFloat`: only strings of digits and dots are modelled, the only strings the mantissa at src/lib/utils.ts:35 can hold; JavaScript's reading of a sign, an exponent, `Infinity` or leading whitespace is left out, so the lemmas about its value say nothing about such strings.
- `AnyToBytes`: the mantissa and the product are exact reals, not IEEE doubles. Rounding of very long mantissas or very large products is not modelled.
- `TotalLastNDays`: the values are integers, not doubles. The order of `Object.values` over the daily record is taken as given, as a sequence.
- `CalculateAllocationToRequest`: `weekly/2` and `total*0.05` are exact reals. 0.05 is exact here, while JavaScript rounds `total*0.05` to a double.
- `bytesToiB` and the `RefillUnit` enum are not part of this model. They are the `Formatting` parameter.
- `getCurrentDate` (it reads the clock), the chart options, `cn` and the rest of `utils.ts`, the UI components, the wallet and session code are outside the modelled core.
- The record fields that no modelled function reads are not carried in `Types`: versions, client and project data, most of `Datacap` and `Lifecycle`, and timestamps.
- `ShortenUrl`: JavaScript's `length` and `slice` count UTF-16 code units, while a Dafny string is a sequence of Unicode scalar values. For a url with a character outside the Basic Multilingual Plane (an emoji, say) the length test and the cut points differ, and JavaScript may split a surrogate pair; the model does not capture this.
- `OfferedRequestKeepsCumulativeCeiling`: bounds `floor(candidate)`, the byte count handed to `bytesToiB`. The formatter is a parameter, so the byte value of the returned `{amount, amountType}` is not tied to that count; if `bytesToiB` rounds up, the answer's bytes may exceed it.
- `OfferedRequestKeepsCumulativeCeiling`: the ceiling holds because an unreadable amount is an error here. In JavaScript `parseFloat` gives NaN for an empty amount (`?? '0'` does not replace `""`) and for any mantissa without a number. If the converter passes NaN on, the granted total is NaN, `Math.floor(nextRequest + NaN) > total` at src/helpers/calculateAmountToRefill.ts:55 is false, and the ceiling is skipped. What the converter does with NaN is not visible, so the model does not capture this path.
- `LastDatacapAllocation`: the application's requests are taken to carry a boolean `Active` and a signer list. Missing properties are not modelled.

## Findings

| source | as written | input that shows it | evidently intended | confidence | as-written member | corrected member |
|---|---|---|---|---|---|---|
| src/lib/utils.ts:75 | `url.slice(-last)` with `last = 0` is `url.slice(0)`, the whole url | `shortenUrl("abcdef", 2, 0)` gives `"ab[...]abcdef"`, longer than the url | a tail of exactly `last` characters, empty for `last = 0` | not executed | `Utils.ShortenUrlZeroTailKeepsWholeUrl` | `Utils.ShortenUrlIntended` (with `Utils.ShortenUrlIntendedAgrees`, `Utils.ShortenUrlIntendedBound`) |
