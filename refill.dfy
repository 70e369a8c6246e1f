/**
 * The refill-sizing policy of src/helpers/calculateAmountToRefill.ts.
 *
 * `calculateAmountToRequest` derives three byte totals from an
 * application (granted so far, total requested, weekly allocation) and
 * the request index (the number of recorded allocation requests), then
 * runs the inner step-by-step procedure `calculateAllocationToRequest`:
 * pick a candidate from a four-row tier table, refuse it when it would
 * take the cumulative grant past the total requested, refuse it when it
 * is not positive, and otherwise format it and keep it only when its unit
 * is a refill unit. Every refusal is the zero request `{'0', GiB}`.
 *
 * The formatter `bytesToiB` and the member list of `RefillUnit` are not
 * part of this model; they are taken as a `Formatting` parameter.
 */
module CalculateAmountToRefill {
  import opened Wrappers
  import opened Types
  import opened Utils

  /** The caps of the tier table, in bytes. */
  const HALF_PIB: int := 562949953421312   // 2^49
  const ONE_PIB: int := 1125899906842624   // 2^50
  const TWO_PIB: int := 2251799813685248   // 2^51

  /** `RefillUnit.GIB` */
  const GIB: string := "GiB"

  /** `RequestAmount`: a decimal magnitude and a unit name. */
  datatype RequestAmount = RequestAmount(amount: string, amountType: string)

  /** The answer "no further allocation": `{ amount: '0', amountType: RefillUnit.GIB }`. */
  const ZERO_REQUEST: RequestAmount := RequestAmount("0", GIB)

  /**
   * What the policy is given from outside: `bytesToiB(bytes, true)`,
   * which renders a byte count in binary units, and the values of the
   * `RefillUnit` enum.
   */
  datatype Formatting = Formatting(bytesToIB: nat -> string, refillUnits: set<string>)

  // ---------------------------------------------------------------------
  // splitString
  // ---------------------------------------------------------------------

  predicate IsAsciiLetter(c: char) {
    'A' <= c <= 'Z' || 'a' <= c <= 'z'
  }

  /** The end of the run of digits that starts at `i`. */
  function DigitRunEnd(s: string, i: nat): (j: nat)
    requires i <= |s|
    ensures i <= j <= |s|
    ensures forall k :: i <= k < j ==> IsDigit(s[k])
    ensures j < |s| ==> !IsDigit(s[j])
    decreases |s| - i
  {
    if i == |s| || !IsDigit(s[i]) then i else DigitRunEnd(s, i + 1)
  }

  /** Scanner for `\d+(\.\d+)?` over all of `s`: digits, then an optional dot and digits. */
  predicate IsDecimalNumeral(s: string) {
    var j := DigitRunEnd(s, 0);
    0 < j && (j == |s| || (s[j] == '.' && j + 1 < |s| && DigitRunEnd(s, j + 1) == |s|))
  }

  /** Reference shape of `\d+(\.\d+)?`: all digits, or digits, one dot, digits. */
  ghost predicate DecimalShape(s: string) {
    (|s| > 0 && AllDigits(s))
    || exists k :: 0 < k < |s| - 1 && s[k] == '.' && AllDigits(s[..k]) && AllDigits(s[k + 1..])
  }

  /** The shape `[A-Za-z]iB`. */
  predicate IsBinaryUnitName(u: string) {
    |u| == 3 && IsAsciiLetter(u[0]) && u[1] == 'i' && u[2] == 'B'
  }

  lemma {:induction false} DigitRunEndAt(s: string, i: nat, j: nat)
    requires i <= j <= |s|
    requires forall k :: i <= k < j ==> IsDigit(s[k])
    requires j < |s| ==> !IsDigit(s[j])
    ensures DigitRunEnd(s, i) == j
    decreases j - i
  {
    if i < j {
      DigitRunEndAt(s, i + 1, j);
    }
  }

  /** What the scanner accepts has the reference shape. */
  lemma NumeralHasShape(s: string)
    requires IsDecimalNumeral(s)
    ensures DecimalShape(s)
  {
    var j := DigitRunEnd(s, 0);
    if j == |s| {
      assert AllDigits(s);
    } else {
      assert AllDigits(s[..j]);
      assert AllDigits(s[j + 1..]) by {
        assert forall k :: j + 1 <= k < |s| ==> IsDigit(s[k]);
      }
    }
  }

  /** Every string of the reference shape is accepted by the scanner. */
  lemma ShapeIsNumeral(s: string)
    requires DecimalShape(s)
    ensures IsDecimalNumeral(s)
  {
    if |s| > 0 && AllDigits(s) {
      DigitRunEndAt(s, 0, |s|);
    } else {
      var k :| 0 < k < |s| - 1 && s[k] == '.' && AllDigits(s[..k]) && AllDigits(s[k + 1..]);
      assert forall i :: 0 <= i < k ==> IsDigit(s[i]) by {
        assert forall i :: 0 <= i < k ==> s[..k][i] == s[i];
      }
      DigitRunEndAt(s, 0, k);
      assert forall i :: k + 1 <= i < |s| ==> IsDigit(s[i]) by {
        assert forall i :: k + 1 <= i < |s| ==> s[k + 1..][i - k - 1] == s[i];
      }
      DigitRunEndAt(s, k + 1, |s|);
    }
  }

  /** The scanner accepts exactly the strings of the reference shape. */
  lemma DecimalNumeralIsShape(s: string)
    ensures IsDecimalNumeral(s) <==> DecimalShape(s)
  {
    if IsDecimalNumeral(s) {
      NumeralHasShape(s);
    }
    if DecimalShape(s) {
      ShapeIsNumeral(s);
    }
  }

  /**
   * `splitString`: the number and the unit of a string of the form
   * `\d+(\.\d+)?[A-Za-z]iB`, or `('0', 'B')` for anything else.
   */
  function SplitString(input: string): (r: (string, string))
    ensures r != ("0", "B") ==> r.0 + r.1 == input && DecimalShape(r.0) && IsBinaryUnitName(r.1)
    ensures r.1 == "B" || IsBinaryUnitName(r.1)
  {
    if |input| >= 3 && IsDecimalNumeral(input[..|input| - 3]) && IsBinaryUnitName(input[|input| - 3..]) then
      DecimalNumeralIsShape(input[..|input| - 3]);
      (input[..|input| - 3], input[|input| - 3..])
    else
      ("0", "B")
  }

  /** Round trip: a number joined to a unit name splits back into the two. */
  lemma SplitStringJoin(number: string, unit: string)
    requires DecimalShape(number) && IsBinaryUnitName(unit)
    ensures SplitString(number + unit) == (number, unit)
  {
    var s := number + unit;
    assert s[..|s| - 3] == number;
    assert s[|s| - 3..] == unit;
    DecimalNumeralIsShape(number);
  }

  /** `input` is the regular expression's language. */
  ghost predicate MatchesAmountPattern(input: string) {
    exists k :: 0 <= k <= |input| && DecimalShape(input[..k]) && IsBinaryUnitName(input[k..])
  }

  /** The fallback `('0', 'B')` comes back exactly for the strings the pattern refuses. */
  lemma SplitStringFallback(input: string)
    ensures SplitString(input) == ("0", "B") <==> !MatchesAmountPattern(input)
  {
    if MatchesAmountPattern(input) {
      var k :| 0 <= k <= |input| && DecimalShape(input[..k]) && IsBinaryUnitName(input[k..]);
      assert input[..k] + input[k..] == input;
      SplitStringJoin(input[..k], input[k..]);
    }
    if SplitString(input) != ("0", "B") {
      var r := SplitString(input);
      var k := |r.0|;
      assert input[..k] == r.0 && input[k..] == r.1;
    }
  }

  // ---------------------------------------------------------------------
  // calculateAllocationToRequest
  // ---------------------------------------------------------------------

  function Lesser(a: real, b: real): real {
    if a <= b then a else b
  }

  /** Weekly-rate multiple of tiers 1, 2 and 3 onwards. */
  function TierMultiple(n: nat): int
    requires n >= 1
  {
    if n == 1 then 1 else if n == 2 then 2 else 4
  }

  /** Cap of tiers 1, 2 and 3 onwards. */
  function TierCap(n: nat): int
    requires n >= 1
  {
    if n == 1 then HALF_PIB else if n == 2 then ONE_PIB else TWO_PIB
  }

  /**
   * The tier table: the lesser of half the weekly rate and 5% of the total
   * at index 0, the lesser of a multiple of the weekly rate and the tier's
   * cap afterwards. A tie takes the weekly-based value.
   */
  function Candidate(n: nat, weekly: int, total: int): real {
    if n == 0 then Lesser(weekly as real / 2.0, total as real * 0.05)
    else Lesser((TierMultiple(n) * weekly) as real, TierCap(n) as real)
  }

  /** Format `bytes` and keep the result when its unit is a refill unit. */
  function Offer(fmt: Formatting, bytes: nat): (r: RequestAmount)
    ensures r == ZERO_REQUEST || r.amountType in fmt.refillUnits
  {
    var parts := SplitString(fmt.bytesToIB(bytes));
    if parts.1 in fmt.refillUnits then RequestAmount(parts.0, parts.1) else ZERO_REQUEST
  }

  /** What `calculateAllocationToRequest` returns. */
  function AllocationToRequest(fmt: Formatting, n: nat, granted: int, total: int, weekly: int): RequestAmount {
    var candidate := Candidate(n, weekly, total);
    if (candidate + granted as real).Floor > total then ZERO_REQUEST
    else if candidate <= 0.0 then ZERO_REQUEST
    else Offer(fmt, candidate.Floor)
  }

  /**
   * `calculateAllocationToRequest`, step by step: the `switch` sets
   * `condition` and `nextRequest`, then the early returns decide.
   */
  method CalculateAllocationToRequest(
    fmt: Formatting, requestNumber: nat, grantedSoFar: int, totalRequested: int, weeklyAllocation: int)
    returns (r: RequestAmount)
    ensures r == AllocationToRequest(fmt, requestNumber, grantedSoFar, totalRequested, weeklyAllocation)
  {
    var nextRequest: real := 0.0;
    var condition := true;
    match requestNumber {
      case 0 =>
        condition := weeklyAllocation as real / 2.0 <= totalRequested as real * 0.05;
        nextRequest := if condition then weeklyAllocation as real / 2.0 else totalRequested as real * 0.05;
      case 1 =>
        condition := weeklyAllocation <= HALF_PIB;
        nextRequest := if condition then weeklyAllocation as real else HALF_PIB as real;
      case 2 =>
        condition := weeklyAllocation * 2 <= ONE_PIB;
        nextRequest := if condition then (weeklyAllocation * 2) as real else ONE_PIB as real;
      case _ =>
        condition := weeklyAllocation * 4 <= TWO_PIB;
        nextRequest := if condition then (weeklyAllocation * 4) as real else TWO_PIB as real;
    }
    assert nextRequest == Candidate(requestNumber, weeklyAllocation, totalRequested);

    var sumTotalAmountWithNextRequest := (nextRequest + grantedSoFar as real).Floor;
    r := ZERO_REQUEST;
    if sumTotalAmountWithNextRequest > totalRequested {
      // the remainder is computed and then dropped
      nextRequest := (totalRequested - grantedSoFar) as real;
      return;
    }
    if nextRequest <= 0.0 {
      r := ZERO_REQUEST;
      return;
    }

    var parts := SplitString(fmt.bytesToIB(nextRequest.Floor));
    if parts.1 in fmt.refillUnits {
      r := RequestAmount(parts.0, parts.1);
      return;
    }
  }

  // ---------------------------------------------------------------------
  // Properties of the tier table and the policy
  // ---------------------------------------------------------------------

  /** Index 0: the lesser of half the weekly rate and 5% of the total, ties to the weekly half. */
  lemma FirstTierCandidate(weekly: int, total: int)
    ensures Candidate(0, weekly, total) <= weekly as real / 2.0
    ensures Candidate(0, weekly, total) <= total as real / 20.0
    ensures Candidate(0, weekly, total) == weekly as real / 2.0 || Candidate(0, weekly, total) == total as real / 20.0
    ensures weekly as real / 2.0 <= total as real / 20.0 ==> Candidate(0, weekly, total) == weekly as real / 2.0
  {
  }

  /** From index 1 on, the candidate is the lesser of the rate multiple and the cap, so never above the cap. */
  lemma LaterTierCandidate(n: nat, weekly: int, total: int)
    requires n >= 1
    ensures Candidate(n, weekly, total) <= TierCap(n) as real
    ensures Candidate(n, weekly, total) <= (TierMultiple(n) * weekly) as real
    ensures Candidate(n, weekly, total) == TierCap(n) as real
         || Candidate(n, weekly, total) == (TierMultiple(n) * weekly) as real
    ensures n == 1 ==> Candidate(n, weekly, total) <= HALF_PIB as real
    ensures n == 2 ==> Candidate(n, weekly, total) <= ONE_PIB as real
    ensures n >= 3 ==> Candidate(n, weekly, total) <= TWO_PIB as real
    ensures Candidate(n, weekly, total) <= TWO_PIB as real
  {
  }

  /** The two tier boundaries: 1 PiB weekly is capped to 0.5 PiB at index 1; 2^48 weekly doubles to 2^49 at index 2. */
  lemma TierBoundaries(total: int)
    ensures Candidate(1, ONE_PIB, total) == HALF_PIB as real
    ensures Candidate(2, 281474976710656, total) == HALF_PIB as real
  {
  }

  /** With a non-negative weekly rate, later tiers never offer less than earlier ones. */
  lemma CandidateGrowsWithIndex(n: nat, m: nat, weekly: int, total: int)
    requires 1 <= n <= m && weekly >= 0
    ensures Candidate(n, weekly, total) <= Candidate(m, weekly, total)
  {
  }

  /** A higher weekly rate never lowers the candidate. */
  lemma CandidateMonotoneInWeekly(n: nat, weekly: int, weekly': int, total: int)
    requires weekly <= weekly'
    ensures Candidate(n, weekly, total) <= Candidate(n, weekly', total)
  {
  }

  /** Going past the total requested yields the zero request, not the remainder. */
  lemma CeilingExceededGivesZero(fmt: Formatting, n: nat, granted: int, total: int, weekly: int)
    requires (Candidate(n, weekly, total) + granted as real).Floor > total
    ensures AllocationToRequest(fmt, n, granted, total, weekly) == ZERO_REQUEST
  {
  }

  lemma NonPositiveCandidateGivesZero(fmt: Formatting, n: nat, granted: int, total: int, weekly: int)
    requires Candidate(n, weekly, total) <= 0.0
    ensures AllocationToRequest(fmt, n, granted, total, weekly) == ZERO_REQUEST
  {
  }

  /** A weekly rate of 0 (or less) yields the zero request at every index, whatever the totals. */
  lemma NonPositiveWeeklyGivesZero(fmt: Formatting, n: nat, granted: int, total: int, weekly: int)
    requires weekly <= 0
    ensures AllocationToRequest(fmt, n, granted, total, weekly) == ZERO_REQUEST
  {
    assert Candidate(n, weekly, total) <= 0.0 by {
      if n >= 1 {
        LaterTierCandidate(n, weekly, total);
      }
    }
  }

  /**
   * Every request other than the zero request fits under the ceiling:
   * its whole bytes plus what was granted stay within the total; it comes
   * from a positive candidate and its unit is a refill unit.
   */
  lemma OfferedRequestFitsCeiling(fmt: Formatting, n: nat, granted: int, total: int, weekly: int)
    requires AllocationToRequest(fmt, n, granted, total, weekly) != ZERO_REQUEST
    ensures Candidate(n, weekly, total) > 0.0
    ensures Candidate(n, weekly, total).Floor + granted <= total
    ensures AllocationToRequest(fmt, n, granted, total, weekly).amountType in fmt.refillUnits
    ensures var parts := SplitString(fmt.bytesToIB(Candidate(n, weekly, total).Floor));
      AllocationToRequest(fmt, n, granted, total, weekly) == RequestAmount(parts.0, parts.1)
  {
    var c := Candidate(n, weekly, total);
    assert (c + granted as real).Floor == c.Floor + granted;
  }

  /** A formatted unit that is not a refill unit yields the zero request. */
  lemma UnlistedUnitGivesZero(fmt: Formatting, n: nat, granted: int, total: int, weekly: int)
    requires Candidate(n, weekly, total) > 0.0
    requires SplitString(fmt.bytesToIB(Candidate(n, weekly, total).Floor)).1 !in fmt.refillUnits
    ensures AllocationToRequest(fmt, n, granted, total, weekly) == ZERO_REQUEST
  {
  }

  /**
   * What the formatted offer is once `bytesToiB` has written `number` and
   * `unit`: the split itself when the unit is a refill unit, and the zero
   * request otherwise.
   */
  lemma OfferOfFormatted(fmt: Formatting, bytes: nat, number: string, unit: string)
    requires fmt.bytesToIB(bytes) == number + unit
    requires DecimalShape(number) && IsBinaryUnitName(unit)
    ensures unit in fmt.refillUnits ==> Offer(fmt, bytes) == RequestAmount(number, unit)
    ensures unit !in fmt.refillUnits ==> Offer(fmt, bytes) == ZERO_REQUEST
  {
    SplitStringJoin(number, unit);
  }

  /**
   * The offer path: under the ceiling, with a positive candidate whose
   * floor the formatter writes as a numeral and a refill unit, that
   * numeral and unit are the answer.
   */
  lemma OfferMade(fmt: Formatting, n: nat, granted: int, total: int, weekly: int, number: string, unit: string)
    requires (Candidate(n, weekly, total) + granted as real).Floor <= total
    requires Candidate(n, weekly, total) > 0.0
    requires fmt.bytesToIB(Candidate(n, weekly, total).Floor) == number + unit
    requires DecimalShape(number) && IsBinaryUnitName(unit) && unit in fmt.refillUnits
    ensures AllocationToRequest(fmt, n, granted, total, weekly) == RequestAmount(number, unit)
  {
    OfferOfFormatted(fmt, Candidate(n, weekly, total).Floor, number, unit);
  }

  /** When `GiB` is a refill unit, every answer's unit is a refill unit. */
  lemma AnswerUnitIsRefillUnit(fmt: Formatting, n: nat, granted: int, total: int, weekly: int)
    requires GIB in fmt.refillUnits
    ensures AllocationToRequest(fmt, n, granted, total, weekly).amountType in fmt.refillUnits
  {
  }

  /**
   * The ceiling test is strict: with 11 bytes left a candidate of 12 is
   * refused; with 10 left, one of 11 is refused while one of exactly 10
   * passes the ceiling and goes to the formatter.
   */
  lemma ExhaustionBoundary(fmt: Formatting, total: int)
    ensures AllocationToRequest(fmt, 1, total - 11, total, 12) == ZERO_REQUEST
    ensures AllocationToRequest(fmt, 1, total - 10, total, 11) == ZERO_REQUEST
    ensures AllocationToRequest(fmt, 1, total - 10, total, 10) == Offer(fmt, 10)
  {
    assert Candidate(1, 12, total) == 12.0;
    assert Candidate(1, 11, total) == 11.0;
    assert Candidate(1, 10, total) == 10.0;
  }

  /**
   * The remainder is dropped: 9 PiB granted of 10 PiB requested, a 1 PiB
   * weekly rate at index 3 asks for 2 PiB, which is refused outright
   * although 1 PiB is still due.
   */
  lemma RemainderIsDropped(fmt: Formatting)
    ensures AllocationToRequest(fmt, 3, 9 * ONE_PIB, 10 * ONE_PIB, ONE_PIB) == ZERO_REQUEST
  {
    assert Candidate(3, ONE_PIB, 10 * ONE_PIB) == TWO_PIB as real;
  }

  // ---------------------------------------------------------------------
  // calculateAmountToRequest
  // ---------------------------------------------------------------------

  /** `cur['Allocation Amount'] ?? '0'` */
  function AmountOrZero(request: AllocationRequest): string {
    match request.allocationAmount
    case None => MISSING_AMOUNT
    case Some(amount) => amount
  }

  /** The `'0'` that stands in for a null or undefined amount. */
  const MISSING_AMOUNT: string := "0"

  /** What one request adds to the `reduce`: `anyToBytes(cur['Allocation Amount'] ?? '0')`. */
  function RequestBytes(request: AllocationRequest): Result<nat, ParseError> {
    AnyToBytes(AmountOrZero(request))
  }

  /**
   * The `reduce` over the requests, left to right from `acc`, with the
   * per-request conversion `bytesOf` (the policy uses `RequestBytes`);
   * an unreadable amount raises.
   */
  function SumGranted(bytesOf: AllocationRequest -> Result<nat, ParseError>, requests: seq<AllocationRequest>, acc: nat): Result<nat, ParseError>
    decreases |requests|
  {
    if requests == [] then Success(acc)
    else
      match bytesOf(requests[0])
      case Failure(e) => Failure(e)
      case Success(bytes) => SumGranted(bytesOf, requests[1..], acc + bytes)
  }

  ghost predicate AllAmountsReadable(bytesOf: AllocationRequest -> Result<nat, ParseError>, requests: seq<AllocationRequest>) {
    forall i :: 0 <= i < |requests| ==> bytesOf(requests[i]).Success?
  }

  /** Reference total of the recorded amounts. */
  ghost function GrantedBytes(bytesOf: AllocationRequest -> Result<nat, ParseError>, requests: seq<AllocationRequest>): nat
    requires AllAmountsReadable(bytesOf, requests)
  {
    if requests == [] then 0
    else bytesOf(requests[0]).value + GrantedBytes(bytesOf, requests[1..])
  }

  lemma ReadableTail(bytesOf: AllocationRequest -> Result<nat, ParseError>, requests: seq<AllocationRequest>)
    requires requests != []
    ensures AllAmountsReadable(bytesOf, requests) <==>
      bytesOf(requests[0]).Success? && AllAmountsReadable(bytesOf, requests[1..])
  {
    if bytesOf(requests[0]).Success? && AllAmountsReadable(bytesOf, requests[1..]) {
      forall i | 0 <= i < |requests|
        ensures bytesOf(requests[i]).Success?
      {
        if i > 0 {
          assert requests[i] == requests[1..][i - 1];
        }
      }
    }
    if AllAmountsReadable(bytesOf, requests) {
      forall i | 0 <= i < |requests[1..]|
        ensures bytesOf(requests[1..][i]).Success?
      {
        assert requests[1..][i] == requests[i + 1];
      }
    }
  }

  /** The fold succeeds exactly when every amount parses, and then it adds the reference total to `acc`. */
  lemma {:induction false} SumGrantedIsTotal(bytesOf: AllocationRequest -> Result<nat, ParseError>, requests: seq<AllocationRequest>, acc: nat)
    ensures SumGranted(bytesOf, requests, acc).Success? <==> AllAmountsReadable(bytesOf, requests)
    ensures AllAmountsReadable(bytesOf, requests) ==>
      SumGranted(bytesOf, requests, acc) == Success(acc + GrantedBytes(bytesOf, requests))
  {
    if requests != [] {
      ReadableTail(bytesOf, requests);
      var first := bytesOf(requests[0]);
      if first.Success? {
        SumGrantedIsTotal(bytesOf, requests[1..], acc + first.value);
      }
    }
  }

  /**
   * A failing fold reports the error of the first amount that does not
   * parse: every amount before it parses.
   */
  lemma {:induction false} SumGrantedError(bytesOf: AllocationRequest -> Result<nat, ParseError>, requests: seq<AllocationRequest>, acc: nat)
    requires SumGranted(bytesOf, requests, acc).Failure?
    ensures exists i ::
      && 0 <= i < |requests|
      && bytesOf(requests[i]) == Failure(SumGranted(bytesOf, requests, acc).error)
      && forall j :: 0 <= j < i ==> bytesOf(requests[j]).Success?
  {
    var first := bytesOf(requests[0]);
    if first.Success? {
      var tail := requests[1..];
      SumGrantedError(bytesOf, tail, acc + first.value);
      var i :|
        && 0 <= i < |tail|
        && bytesOf(tail[i]) == Failure(SumGranted(bytesOf, tail, acc + first.value).error)
        && forall j :: 0 <= j < i ==> bytesOf(tail[j]).Success?;
      assert tail[i] == requests[i + 1];
      forall j | 0 <= j < i + 1
        ensures bytesOf(requests[j]).Success?
      {
        if j > 0 {
          assert requests[j] == tail[j - 1];
        }
      }
    } else {
      assert bytesOf(requests[0]) == Failure(SumGranted(bytesOf, requests, acc).error);
    }
  }

  /** The granted total of two runs of requests is the sum of their totals. */
  lemma {:induction false} GrantedBytesAppend(bytesOf: AllocationRequest -> Result<nat, ParseError>, a: seq<AllocationRequest>, b: seq<AllocationRequest>)
    requires AllAmountsReadable(bytesOf, a) && AllAmountsReadable(bytesOf, b)
    ensures AllAmountsReadable(bytesOf, a + b)
    ensures GrantedBytes(bytesOf, a + b) == GrantedBytes(bytesOf, a) + GrantedBytes(bytesOf, b)
  {
    assert AllAmountsReadable(bytesOf, a + b) by {
      forall i | 0 <= i < |a + b|
        ensures bytesOf((a + b)[i]).Success?
      {
        if i < |a| {
          assert (a + b)[i] == a[i];
        } else {
          assert (a + b)[i] == b[i - |a|];
        }
      }
    }
    if a == [] {
      assert a + b == b;
    } else {
      assert (a + b)[1..] == a[1..] + b;
      ReadableTail(bytesOf, a);
      GrantedBytesAppend(bytesOf, a[1..], b);
    }
  }

  /**
   * A request whose amount is null or undefined contributes `anyToBytes('0')`;
   * `'0'` carries no unit, so under the binary unit table it does not parse.
   */
  lemma MissingAmountHasNoUnit(request: AllocationRequest)
    requires request.allocationAmount.None?
    ensures RequestBytes(request) == Failure(UnknownUnit(""))
  {
    assert Normalize("0") == "0" by {
      NormalizeIsCharwise("0");
    }
    assert UnitPart("0") == "";
  }

  /** `calculateAmountToRequest`, as a value; a parse failure of any amount propagates. */
  function AmountToRequest(fmt: Formatting, app: Application): Result<RequestAmount, ParseError> {
    var granted :- SumGranted(RequestBytes, app.allocationRequests, 0);
    var total :- AnyToBytes(app.datacap.totalRequestedAmount);
    var weekly :- AnyToBytes(app.datacap.weeklyAllocation);
    Success(AllocationToRequest(fmt, |app.allocationRequests|, granted, total, weekly))
  }

  /** `calculateAmountToRequest`: the totals, then the inner procedure. */
  method CalculateAmountToRequest(fmt: Formatting, app: Application) returns (r: Result<RequestAmount, ParseError>)
    ensures r == AmountToRequest(fmt, app)
  {
    var granted := SumGranted(RequestBytes, app.allocationRequests, 0);
    if granted.Failure? {
      return Failure(granted.error);
    }
    var total := AnyToBytes(app.datacap.totalRequestedAmount);
    if total.Failure? {
      return Failure(total.error);
    }
    var weekly := AnyToBytes(app.datacap.weeklyAllocation);
    if weekly.Failure? {
      return Failure(weekly.error);
    }
    var amount := CalculateAllocationToRequest(
      fmt, |app.allocationRequests|, granted.value, total.value, weekly.value);
    r := Success(amount);
  }

  /**
   * The policy reads exactly three totals and the number of recorded
   * requests: it succeeds when every amount parses, and then its answer
   * is the inner procedure at index `|Allocation Requests|` with the sum
   * of the recorded amounts.
   */
  lemma AmountToRequestInputs(fmt: Formatting, app: Application)
    ensures AmountToRequest(fmt, app).Success? <==>
      AllAmountsReadable(RequestBytes, app.allocationRequests)
      && AnyToBytes(app.datacap.totalRequestedAmount).Success?
      && AnyToBytes(app.datacap.weeklyAllocation).Success?
    ensures AmountToRequest(fmt, app).Success? ==>
      AmountToRequest(fmt, app).value == AllocationToRequest(
        fmt, |app.allocationRequests|, GrantedBytes(RequestBytes, app.allocationRequests),
        AnyToBytes(app.datacap.totalRequestedAmount).value,
        AnyToBytes(app.datacap.weeklyAllocation).value)
  {
    SumGrantedIsTotal(RequestBytes, app.allocationRequests, 0);
  }

  /**
   * Cumulative ceiling: for an offer, `floor(candidate)` plus the
   * recorded grants stays within the total.
   */
  lemma OfferedRequestKeepsCumulativeCeiling(fmt: Formatting, app: Application)
    requires AmountToRequest(fmt, app).Success? && AmountToRequest(fmt, app).value != ZERO_REQUEST
    ensures AllAmountsReadable(RequestBytes, app.allocationRequests)
    ensures var n := |app.allocationRequests|;
      var total := AnyToBytes(app.datacap.totalRequestedAmount).value;
      var weekly := AnyToBytes(app.datacap.weeklyAllocation).value;
      GrantedBytes(RequestBytes, app.allocationRequests) + Candidate(n, weekly, total).Floor <= total
  {
    AmountToRequestInputs(fmt, app);
    var n := |app.allocationRequests|;
    var total := AnyToBytes(app.datacap.totalRequestedAmount).value;
    var weekly := AnyToBytes(app.datacap.weeklyAllocation).value;
    OfferedRequestFitsCeiling(fmt, n, GrantedBytes(RequestBytes, app.allocationRequests), total, weekly);
  }

  lemma TenPib(s: string)
    requires s == "10PiB"
    ensures AnyToBytes(s) == Success(10 * ONE_PIB)
  {
    var d := DecimalString(10);
    assert d == "10" by {
      assert DecimalString(1) == "1";
    }
    assert d + "PiB" == s;
    var pebi := Multiplier("PiB").value;
    assert pebi == ONE_PIB;
    AnyToBytesRoundTrip(10, "PiB");
  }

  lemma OnePib(s: string)
    requires s == "1PiB"
    ensures AnyToBytes(s) == Success(ONE_PIB)
  {
    var d := DecimalString(1);
    assert d == "1";
    assert d + "PiB" == s;
    var pebi := Multiplier("PiB").value;
    assert pebi == ONE_PIB;
    AnyToBytesRoundTrip(1, "PiB");
  }

  lemma HalfPibSplits()
    ensures SplitString("0.5PiB") == ("0.5", "PiB")
  {
    assert DecimalShape("0.5") by {
      assert "0.5"[..1] == "0" && "0.5"[2..] == "5";
    }
    SplitStringJoin("0.5", "PiB");
    assert "0.5" + "PiB" == "0.5PiB";
  }

  /**
   * First request of a 10 PiB application with a 1 PiB weekly rate: both
   * halves of the first tier are 0.5 PiB, and a formatter that renders
   * 2^49 bytes as `0.5PiB` yields `{'0.5', 'PiB'}`.
   */
  lemma FirstRequestOfTenPibApplication(fmt: Formatting, app: Application)
    requires app.datacap.totalRequestedAmount == "10PiB" && app.datacap.weeklyAllocation == "1PiB"
    requires app.allocationRequests == []
    requires fmt.bytesToIB(HALF_PIB) == "0.5PiB" && "PiB" in fmt.refillUnits
    ensures AmountToRequest(fmt, app) == Success(RequestAmount("0.5", "PiB"))
  {
    TenPib(app.datacap.totalRequestedAmount);
    OnePib(app.datacap.weeklyAllocation);
    HalfPibSplits();
    assert Candidate(0, ONE_PIB, 10 * ONE_PIB) == HALF_PIB as real;
    assert (HALF_PIB as real).Floor == HALF_PIB;
  }
}
