/**
 * The pure helpers of src/lib/utils.ts: the capacity-string parser
 * `anyToBytes`, the selection rule `getLastDatacapAllocation`, the URL
 * shortener `shortenUrl` and the suffix sum `calculateTotalLastNDays`.
 *
 * JavaScript numbers are modelled as exact reals: `parseFloat` yields a
 * `real`, `Math.floor` is `.Floor`. A string with no leading digit and no
 * `.` followed by a digit, which `parseFloat` turns into NaN, is a
 * `NotANumber` parse error here.
 */
module Utils {
  import opened Wrappers
  import opened Types
  import opened JsSlice

  // ---------------------------------------------------------------------
  // Character classes and the `replace` steps of anyToBytes
  // ---------------------------------------------------------------------

  /** The characters `\s` matches in a JavaScript regular expression. */
  predicate IsWhitespace(c: char) {
    c == ' ' || c == '\t' || c == '\n' || c == '\r'
    || c as int == 0x0B || c as int == 0x0C || c as int == 0xA0
    || c as int == 0x1680 || 0x2000 <= c as int <= 0x200A
    || c as int == 0x2028 || c as int == 0x2029 || c as int == 0x202F
    || c as int == 0x205F || c as int == 0x3000 || c as int == 0xFEFF
  }

  predicate NotWhitespace(c: char) {
    !IsWhitespace(c)
  }

  predicate IsDigit(c: char) {
    '0' <= c <= '9'
  }

  /** The class `[0-9.]`: what the mantissa keeps. */
  predicate IsMantissaChar(c: char) {
    IsDigit(c) || c == '.'
  }

  /** The class `[^0-9.]`: what the unit keeps. */
  predicate IsUnitChar(c: char) {
    !IsMantissaChar(c)
  }

  /** The characters of `s` that satisfy `p`, in order. */
  function Filter(p: char -> bool, s: string): (r: string)
    ensures |r| <= |s|
    ensures forall i :: 0 <= i < |r| ==> p(r[i])
  {
    if s == [] then [] else (if p(s[0]) then [s[0]] else []) + Filter(p, s[1..])
  }

  /** `s.replace(/[from]/g, to)` for a class of one character. */
  function ReplaceAll(s: string, from: char, to: char): string {
    seq(|s|, i requires 0 <= i < |s| => if s[i] == from then to else s[i])
  }

  /** The `formatDc` chain: four one-letter case fixes, then every `\s` character removed. */
  function Normalize(s: string): string {
    Filter(NotWhitespace,
      ReplaceAll(ReplaceAll(ReplaceAll(ReplaceAll(s, 't', 'T'), 'b', 'B'), 'p', 'P'), 'I', 'i'))
  }

  /** What normalisation does to one non-blank character. */
  function NormalizeChar(c: char): char {
    if c == 't' then 'T'
    else if c == 'b' then 'B'
    else if c == 'p' then 'P'
    else if c == 'I' then 'i'
    else c
  }

  /** Reference definition: one pass that drops blanks and fixes case. */
  ghost function NormalizeSpec(s: string): string {
    if s == [] then []
    else (if IsWhitespace(s[0]) then [] else [NormalizeChar(s[0])]) + NormalizeSpec(s[1..])
  }

  lemma {:induction false} FilterConcat(p: char -> bool, a: string, b: string)
    ensures Filter(p, a + b) == Filter(p, a) + Filter(p, b)
  {
    if a == [] {
      assert a + b == b;
    } else {
      assert (a + b)[1..] == a[1..] + b;
      FilterConcat(p, a[1..], b);
    }
  }

  lemma {:induction false} FilterKeepsAll(p: char -> bool, s: string)
    requires forall i :: 0 <= i < |s| ==> p(s[i])
    ensures Filter(p, s) == s
  {
    if s != [] {
      FilterKeepsAll(p, s[1..]);
    }
  }

  lemma {:induction false} FilterDropsAll(p: char -> bool, s: string)
    requires forall i :: 0 <= i < |s| ==> !p(s[i])
    ensures Filter(p, s) == []
  {
    if s != [] {
      FilterDropsAll(p, s[1..]);
    }
  }

  /** The chain of `replace` calls is the one-pass normalisation. */
  lemma {:induction false} NormalizeIsCharwise(s: string)
    ensures Normalize(s) == NormalizeSpec(s)
  {
    if s != [] {
      var r := ReplaceAll(ReplaceAll(ReplaceAll(ReplaceAll(s, 't', 'T'), 'b', 'B'), 'p', 'P'), 'I', 'i');
      var r' := ReplaceAll(ReplaceAll(ReplaceAll(ReplaceAll(s[1..], 't', 'T'), 'b', 'B'), 'p', 'P'), 'I', 'i');
      assert r == [NormalizeChar(s[0])] + r';
      FilterConcat(NotWhitespace, [NormalizeChar(s[0])], r');
      assert IsWhitespace(NormalizeChar(s[0])) == IsWhitespace(s[0]);
      NormalizeIsCharwise(s[1..]);
    }
  }

  lemma {:induction false} NormalizeSpecConcat(a: string, b: string)
    ensures NormalizeSpec(a + b) == NormalizeSpec(a) + NormalizeSpec(b)
  {
    if a == [] {
      assert a + b == b;
    } else {
      assert (a + b)[1..] == a[1..] + b;
      NormalizeSpecConcat(a[1..], b);
    }
  }

  /**
   * Normalisation works character by character: the result for `a + b`
   * is the result for `a` followed by the result for `b`, and a single
   * character is dropped when it is blank, otherwise only `t`, `b`, `p`
   * and `I` change.
   */
  lemma NormalizeConcat(a: string, b: string)
    ensures Normalize(a + b) == Normalize(a) + Normalize(b)
  {
    NormalizeIsCharwise(a + b);
    NormalizeIsCharwise(a);
    NormalizeIsCharwise(b);
    NormalizeSpecConcat(a, b);
  }

  lemma NormalizeOneChar(c: char)
    ensures IsWhitespace(c) ==> Normalize([c]) == []
    ensures !IsWhitespace(c) ==> Normalize([c]) == [NormalizeChar(c)]
    ensures c != 't' && c != 'b' && c != 'p' && c != 'I' && !IsWhitespace(c) ==> Normalize([c]) == [c]
  {
    NormalizeIsCharwise([c]);
    assert NormalizeSpec([c]) == (if IsWhitespace(c) then [] else [NormalizeChar(c)]) + NormalizeSpec([]);
  }

  /** A string without blanks and without `t`, `b`, `p`, `I` is left as it is. */
  lemma {:induction false} NormalizeFixedPoint(s: string)
    requires forall i :: 0 <= i < |s| ==> NotWhitespace(s[i]) && NormalizeChar(s[i]) == s[i]
    ensures Normalize(s) == s
  {
    NormalizeIsCharwise(s);
    NormalizeSpecFixedPoint(s);
  }

  lemma {:induction false} NormalizeSpecFixedPoint(s: string)
    requires forall i :: 0 <= i < |s| ==> NotWhitespace(s[i]) && NormalizeChar(s[i]) == s[i]
    ensures NormalizeSpec(s) == s
  {
    if s != [] {
      NormalizeSpecFixedPoint(s[1..]);
    }
  }

  lemma {:induction false} NormalizeSpecOutput(s: string)
    ensures forall i :: 0 <= i < |NormalizeSpec(s)| ==>
      NotWhitespace(NormalizeSpec(s)[i]) && NormalizeChar(NormalizeSpec(s)[i]) == NormalizeSpec(s)[i]
  {
    if s != [] {
      NormalizeSpecOutput(s[1..]);
    }
  }

  /** Normalising twice is normalising once. */
  lemma NormalizeIdempotent(s: string)
    ensures Normalize(Normalize(s)) == Normalize(s)
  {
    NormalizeIsCharwise(s);
    NormalizeSpecOutput(s);
    NormalizeFixedPoint(Normalize(s));
  }

  // ---------------------------------------------------------------------
  // parseFloat on a string of digits and dots
  // ---------------------------------------------------------------------

  /** The number of leading decimal digits of `s`. */
  function LeadingDigits(s: string): (n: nat)
    ensures n <= |s|
    ensures forall i :: 0 <= i < n ==> IsDigit(s[i])
    ensures n < |s| ==> !IsDigit(s[n])
  {
    if s == [] || !IsDigit(s[0]) then 0 else 1 + LeadingDigits(s[1..])
  }

  predicate AllDigits(s: string) {
    forall i :: 0 <= i < |s| ==> IsDigit(s[i])
  }

  function DigitValue(c: char): nat
    requires IsDigit(c)
  {
    c as int - '0' as int
  }

  /** The value of a string of decimal digits (0 for the empty string). */
  function DigitsValue(s: string): nat
    requires AllDigits(s)
  {
    if s == [] then 0 else 10 * DigitsValue(s[..|s| - 1]) + DigitValue(s[|s| - 1])
  }

  function Pow10(k: nat): (r: nat)
    ensures r >= 1
  {
    if k == 0 then 1 else 10 * Pow10(k - 1)
  }

  /**
   * `parseFloat` on a string of digits and dots, the only strings it
   * receives in anyToBytes: the value of the longest prefix of the form
   * `digits [ '.' digits ]` that holds at least one digit, or NaN (None)
   * when there is no such prefix. JavaScript would also read a leading
   * sign or an exponent, which cannot occur in such a string.
   */
  function ParseFloat(s: string): (r: Option<real>)
    ensures r.Some? ==> r.value >= 0.0
    ensures r.None? <==> LeadingDigits(s) == 0 && (s == [] || s[0] != '.' || LeadingDigits(s[1..]) == 0)
  {
    var i := LeadingDigits(s);
    var frac := if i < |s| && s[i] == '.' then s[i + 1..][..LeadingDigits(s[i + 1..])] else [];
    if i == 0 && frac == [] then None
    else Some(DigitsValue(s[..i]) as real + FractionValue(frac))
  }

  /** The value `0.digits` of a string of decimal digits (0 for the empty string). */
  function FractionValue(digits: string): (r: real)
    requires AllDigits(digits)
    ensures 0.0 <= r
  {
    DigitsValue(digits) as real / Pow10(|digits|) as real
  }

  /** The decimal digits of `k`, most significant first, without leading zeros. */
  function DecimalString(k: nat): (r: string)
    ensures |r| >= 1 && AllDigits(r)
  {
    if k < 10 then ['0' + k as char] else DecimalString(k / 10) + ['0' + (k % 10) as char]
  }

  lemma {:induction false} DecimalStringValue(k: nat)
    ensures DigitsValue(DecimalString(k)) == k
  {
    if k >= 10 {
      DecimalStringValue(k / 10);
      var s := DecimalString(k);
      assert s[..|s| - 1] == DecimalString(k / 10);
    }
  }

  lemma {:induction false} LeadingDigitsAll(s: string)
    requires AllDigits(s)
    ensures LeadingDigits(s) == |s|
  {
    if s != [] {
      LeadingDigitsAll(s[1..]);
    }
  }

  /** `parseFloat` reads back every decimal rendering of a count. */
  lemma ParseFloatDecimal(k: nat)
    ensures ParseFloat(DecimalString(k)) == Some(k as real)
  {
    var s := DecimalString(k);
    LeadingDigitsAll(s);
    DecimalStringValue(k);
    assert s[..|s|] == s;
  }

  /** The leading digit run of `a + t` is `a` when `a` is all digits and `t` starts with no digit. */
  lemma {:induction false} LeadingDigitsPrefix(a: string, t: string)
    requires AllDigits(a) && (t == [] || !IsDigit(t[0]))
    ensures LeadingDigits(a + t) == |a|
  {
    if a != [] {
      assert (a + t)[1..] == a[1..] + t;
      LeadingDigitsPrefix(a[1..], t);
    } else {
      assert a + t == t;
    }
  }

  /** The value `whole.frac` of two digit strings. */
  function DecimalValue(whole: string, frac: string): real
    requires AllDigits(whole) && AllDigits(frac)
  {
    DigitsValue(whole) as real + FractionValue(frac)
  }

  /**
   * `parseFloat` on a string of digits and dots of the form `whole.frac`
   * followed by a `rest` that does not start with a digit (so it is empty
   * or starts with a second `.`): it reads `whole.frac` and stops there.
   * Either part may be empty, not both (`"5."` is 5, `".5"` is one half).
   */
  lemma ParseFloatFraction(whole: string, frac: string, rest: string)
    requires AllDigits(whole) && AllDigits(frac) && |whole| + |frac| > 0
    requires forall k :: 0 <= k < |rest| ==> IsMantissaChar(rest[k])
    requires rest == [] || !IsDigit(rest[0])
    ensures ParseFloat(whole + "." + frac + rest) == Some(DecimalValue(whole, frac))
  {
    var s := whole + "." + frac + rest;
    var tail := frac + rest;
    assert s == whole + (['.'] + tail);
    LeadingDigitsPrefix(whole, ['.'] + tail);
    var i := |whole|;
    assert s[..i] == whole;
    assert s[i] == '.';
    assert s[i + 1..] == tail;
    LeadingDigitsPrefix(frac, rest);
    assert tail[..|frac|] == frac;
    ParseFloatAtDot(s, i, whole, frac);
  }

  /** Unfolding of `ParseFloat` when its leading digit run `whole` is followed by a `.`. */
  lemma ParseFloatAtDot(s: string, i: nat, whole: string, frac: string)
    requires i == LeadingDigits(s) && i < |s| && s[i] == '.'
    requires whole == s[..i] && AllDigits(whole)
    requires frac == s[i + 1..][..LeadingDigits(s[i + 1..])] && AllDigits(frac)
    requires i > 0 || frac != []
    ensures ParseFloat(s) == Some(DecimalValue(whole, frac))
  {
  }

  /**
   * `parseFloat` on a non-empty string of digits without a dot, canonical
   * or not (`"05"` is 5): it reads the whole digit run.
   */
  lemma ParseFloatWhole(whole: string)
    requires AllDigits(whole) && |whole| > 0
    ensures ParseFloat(whole) == Some(DigitsValue(whole) as real)
  {
    LeadingDigitsAll(whole);
    assert whole[..|whole|] == whole;
    ParseFloatNoDot(whole, |whole|, whole);
  }

  /** Unfolding of `ParseFloat` when no `.` follows its non-empty leading digit run `whole`. */
  lemma ParseFloatNoDot(s: string, i: nat, whole: string)
    requires i == LeadingDigits(s) && i > 0
    requires whole == s[..i] && AllDigits(whole)
    requires i == |s| || s[i] != '.'
    ensures ParseFloat(s) == Some(DigitsValue(whole) as real)
  {
    assert FractionValue([]) == 0.0;
  }

  /** `parseFloat("1.5")` is one and a half. */
  lemma ParseFloatOneAndAHalf()
    ensures ParseFloat("1.5") == Some(1.5)
  {
  }

  // ---------------------------------------------------------------------
  // Unit table and anyToBytes
  // ---------------------------------------------------------------------

  datatype ParseError = UnknownUnit(unit: string) | NotANumber(mantissa: string)

  const KNOWN_UNITS: seq<string> := ["B", "KiB", "MiB", "GiB", "TiB", "PiB"]

  /** Bytes per unit in the converter's binary table. */
  function Multiplier(unit: string): (m: Option<nat>)
    ensures m.Some? <==> unit in KNOWN_UNITS
    ensures m.Some? ==> m.value >= 1
  {
    if unit == "B" then Some(1)
    else if unit == "KiB" then Some(1024)
    else if unit == "MiB" then Some(1048576)
    else if unit == "GiB" then Some(1073741824)
    else if unit == "TiB" then Some(1099511627776)
    else if unit == "PiB" then Some(1125899906842624)
    else None
  }

  function Pow2(k: nat): (r: nat)
    ensures r >= 1
  {
    if k == 0 then 1 else 2 * Pow2(k - 1)
  }

  /** Unit `KNOWN_UNITS[k]` is worth 2^(10k) bytes. */
  lemma MultipliersAreBinaryPowers()
    ensures forall k :: 0 <= k < |KNOWN_UNITS| ==> Multiplier(KNOWN_UNITS[k]) == Some(Pow2(10 * k))
  {
    forall k | 0 <= k < |KNOWN_UNITS|
      ensures Multiplier(KNOWN_UNITS[k]) == Some(Pow2(10 * k))
    {
      MultiplierIsPow2(k);
    }
  }

  /** Each unit of the table is 1024 times the one before it, starting from 1. */
  lemma {:induction false} MultiplierIsPow2(k: nat)
    requires k < |KNOWN_UNITS|
    ensures Multiplier(KNOWN_UNITS[k]) == Some(Pow2(10 * k))
  {
    if k > 0 {
      MultiplierIsPow2(k - 1);
      Pow2Kibi(10 * (k - 1));
      var unit := KNOWN_UNITS[k];
      var prev := KNOWN_UNITS[k - 1];
      assert Multiplier(unit).value == 1024 * Multiplier(prev).value by {
        if k == 1 {
          assert unit == "KiB" && prev == "B";
        } else if k == 2 {
          assert unit == "MiB" && prev == "KiB";
        } else if k == 3 {
          assert unit == "GiB" && prev == "MiB";
        } else if k == 4 {
          assert unit == "TiB" && prev == "GiB";
        } else {
          assert unit == "PiB" && prev == "TiB";
        }
      }
    }
  }

  /** Ten more doublings multiply by 1024. */
  lemma {:induction false} Pow2Kibi(k: nat)
    ensures Pow2(k + 10) == 1024 * Pow2(k)
  {
    var p := Pow2(k);
    assert Pow2(k + 1) == 2 * p;
    assert Pow2(k + 2) == 4 * p;
    assert Pow2(k + 3) == 8 * p;
    assert Pow2(k + 4) == 16 * p;
    assert Pow2(k + 5) == 32 * p;
    assert Pow2(k + 6) == 64 * p;
    assert Pow2(k + 7) == 128 * p;
    assert Pow2(k + 8) == 256 * p;
    assert Pow2(k + 9) == 512 * p;
  }

  /** The unit part `ext` of a normalised capacity string. */
  function UnitPart(formatted: string): string {
    Filter(IsUnitChar, formatted)
  }

  /** The mantissa part `datacap` of a normalised capacity string. */
  function MantissaPart(formatted: string): string {
    Filter(IsMantissaChar, formatted)
  }

  /**
   * `anyToBytes`: normalise, split into unit and mantissa, look the unit
   * up, parse the mantissa, and floor the product to whole bytes.
   */
  function AnyToBytes(input: string): (r: Result<nat, ParseError>)
    ensures r.Failure? <==>
      Multiplier(UnitPart(Normalize(input))).None? || ParseFloat(MantissaPart(Normalize(input))).None?
  {
    var formatted := Normalize(input);
    var ext := UnitPart(formatted);
    var datacap := MantissaPart(formatted);
    match Multiplier(ext)
    case None => Failure(UnknownUnit(ext))
    case Some(unit) =>
      match ParseFloat(datacap)
      case None => Failure(NotANumber(datacap))
      case Some(m) => Success(FloorProduct(m, unit))
  }

  /** `Math.floor(mantissa × multiplier)`: whole bytes, the fraction dropped. */
  function FloorProduct(m: real, unit: nat): nat
    requires m >= 0.0
  {
    ProductNonNegative(m, unit as real);
    (m * unit as real).Floor
  }

  /**
   * A recognised unit and a readable mantissa give the whole number of
   * bytes at or just below mantissa × multiplier: fractions of a byte are
   * dropped, never rounded up.
   */
  lemma AnyToBytesIsFlooredProduct(input: string, m: real, unit: nat)
    requires ParseFloat(MantissaPart(Normalize(input))) == Some(m)
    requires Multiplier(UnitPart(Normalize(input))) == Some(unit)
    ensures AnyToBytes(input) == Success((m * unit as real).Floor)
    ensures AnyToBytes(input).value as real <= m * unit as real < AnyToBytes(input).value as real + 1.0
  {
    assert AnyToBytes(input) == Success(FloorProduct(m, unit));
  }

  lemma ProductNonNegative(a: real, b: real)
    requires a >= 0.0 && b >= 0.0
    ensures a * b >= 0.0
  {
  }

  /**
   * After normalisation the unit holds no digit and no dot, the mantissa
   * holds nothing else, and together they hold every character.
   */
  lemma {:induction false} SplitPartsPartition(formatted: string)
    ensures forall i :: 0 <= i < |UnitPart(formatted)| ==> !IsMantissaChar(UnitPart(formatted)[i])
    ensures forall i :: 0 <= i < |MantissaPart(formatted)| ==> IsMantissaChar(MantissaPart(formatted)[i])
    ensures multiset(UnitPart(formatted)) + multiset(MantissaPart(formatted)) == multiset(formatted)
  {
    if formatted != [] {
      SplitPartsPartition(formatted[1..]);
      assert formatted == [formatted[0]] + formatted[1..];
    }
  }

  lemma {:induction false} FilterKeeps(p: char -> bool, s: string, c: char)
    requires c in s && p(c)
    ensures c in Filter(p, s)
  {
    if s[0] != c {
      FilterKeeps(p, s[1..], c);
    }
  }

  /** A sign never reaches the mantissa: it stays in the unit, which then is unknown. */
  lemma MinusSignIsUnknownUnit(input: string)
    requires '-' in Normalize(input)
    ensures AnyToBytes(input) == Failure(UnknownUnit(UnitPart(Normalize(input))))
  {
    var ext := UnitPart(Normalize(input));
    FilterKeeps(IsUnitChar, Normalize(input), '-');
    assert '-' in ext;
    assert ext !in KNOWN_UNITS;
  }

  /** The parse depends only on the normalised string. */
  lemma AnyToBytesNormalized(input: string)
    ensures AnyToBytes(Normalize(input)) == AnyToBytes(input)
  {
    NormalizeIdempotent(input);
  }

  /** `s` is unchanged by normalisation, character by character. */
  ghost predicate Canonical(s: string) {
    forall i :: 0 <= i < |s| ==> NotWhitespace(s[i]) && NormalizeChar(s[i]) == s[i]
  }

  ghost predicate MantissaOnly(s: string) {
    forall i :: 0 <= i < |s| ==> IsMantissaChar(s[i])
  }

  ghost predicate UnitOnly(s: string) {
    forall i :: 0 <= i < |s| ==> IsUnitChar(s[i])
  }

  lemma KnownUnitChars(unit: string)
    requires unit in KNOWN_UNITS
    ensures Canonical(unit) && UnitOnly(unit)
  {
    if unit != "B" {
      assert |unit| == 3 && unit[1] == 'i' && unit[2] == 'B';
      assert 'A' <= unit[0] <= 'Z' && unit[0] != 'I';
    }
  }

  lemma MantissaIsCanonical(d: string)
    requires MantissaOnly(d)
    ensures Canonical(d)
  {
  }

  lemma CanonicalConcat(a: string, b: string)
    requires Canonical(a) && Canonical(b)
    ensures Canonical(a + b)
  {
    forall i | 0 <= i < |a + b|
      ensures NotWhitespace((a + b)[i]) && NormalizeChar((a + b)[i]) == (a + b)[i]
    {
      if i >= |a| {
        assert (a + b)[i] == b[i - |a|];
      } else {
        assert (a + b)[i] == a[i];
      }
    }
  }

  /** A mantissa followed by a canonical unit normalises to itself and splits back into the two. */
  lemma SplitsBack(d: string, unit: string)
    requires MantissaOnly(d) && UnitOnly(unit) && Canonical(unit)
    ensures Normalize(d + unit) == d + unit
    ensures UnitPart(d + unit) == unit && MantissaPart(d + unit) == d
  {
    MantissaIsCanonical(d);
    CanonicalConcat(d, unit);
    NormalizeFixedPoint(d + unit);
    FilterConcat(IsUnitChar, d, unit);
    FilterConcat(IsMantissaChar, d, unit);
    FilterDropsAll(IsUnitChar, d);
    FilterKeepsAll(IsUnitChar, unit);
    FilterKeepsAll(IsMantissaChar, d);
    FilterDropsAll(IsMantissaChar, unit);
  }

  /** Round trip: a whole count written in decimal before a known unit parses to count × unit. */
  lemma AnyToBytesRoundTrip(k: nat, unit: string)
    requires unit in KNOWN_UNITS
    ensures AnyToBytes(DecimalString(k) + unit) == Success(k * Multiplier(unit).value)
  {
    var d := DecimalString(k);
    var mu := Multiplier(unit).value;
    KnownUnitChars(unit);
    SplitsBack(d, unit);
    assert MantissaPart(Normalize(d + unit)) == d && UnitPart(Normalize(d + unit)) == unit;
    ParseFloatDecimal(k);
    assert AnyToBytes(d + unit) == Success(FloorProduct(k as real, mu));
    WholeProduct(k, mu);
  }

  lemma WholeProduct(k: nat, mu: nat)
    ensures FloorProduct(k as real, mu) == k * mu
  {
    assert k as real * mu as real == (k * mu) as real;
  }

  /** A decimal amount `whole.frac` before a known unit is floor(whole.frac × multiplier) bytes. */
  lemma AnyToBytesFraction(whole: string, frac: string, unit: string)
    requires AllDigits(whole) && AllDigits(frac) && |whole| + |frac| > 0
    requires unit in KNOWN_UNITS
    ensures AnyToBytes(whole + "." + frac + unit)
      == Success((DecimalValue(whole, frac) * Multiplier(unit).value as real).Floor)
  {
    var m := whole + "." + frac;
    var mu := Multiplier(unit).value;
    assert MantissaOnly(m);
    KnownUnitChars(unit);
    SplitsBack(m, unit);
    ParseFloatFraction(whole, frac, "");
    assert m + "" == m;
    assert ParseFloat(MantissaPart(Normalize(m + unit))) == Some(DecimalValue(whole, frac));
    AnyToBytesIsFlooredProduct(m + unit, DecimalValue(whole, frac), mu);
  }

  /** `1.5PiB` is one and a half pebibytes: 1.5 × 2^50 bytes. */
  lemma AnyToBytesOneAndAHalfPib(s: string)
    requires s == "1.5PiB"
    ensures AnyToBytes(s) == Success(1688849860263936)
  {
    var whole, frac, unit := "1", "5", "PiB";
    assert whole + "." + frac + unit == s;
    var mu := Multiplier(unit).value;
    assert mu == 1125899906842624;
    var value := DecimalValue(whole, frac);
    assert value == 1.5 by {
      assert DigitsValue(whole) == 1 && DigitsValue(frac) == 5 && Pow10(|frac|) == 10;
    }
    AnyToBytesFraction(whole, frac, unit);
    OneAndAHalfPibFloor(value, mu);
  }

  lemma OneAndAHalfPibFloor(value: real, mu: nat)
    requires value == 1.5 && mu == 1125899906842624
    ensures (value * mu as real).Floor == 1688849860263936
  {
  }

  /** A canonical unit outside the table is refused whatever the mantissa. */
  lemma AnyToBytesUnknownUnit(d: string, unit: string)
    requires MantissaOnly(d) && UnitOnly(unit) && Canonical(unit) && unit !in KNOWN_UNITS
    ensures AnyToBytes(d + unit) == Failure(UnknownUnit(unit))
  {
    SplitsBack(d, unit);
  }

  lemma SameNormalForm(x: string, y: string)
    requires Normalize(x) == Normalize(y)
    ensures AnyToBytes(x) == AnyToBytes(y)
  {
  }

  /** Only the unit's normal form matters: `d + unit` parses as `d + Normalize(unit)`. */
  lemma AnyToBytesUnitCase(d: string, unit: string)
    requires MantissaOnly(d)
    ensures AnyToBytes(d + unit) == AnyToBytes(d + Normalize(unit))
  {
    MantissaIsCanonical(d);
    NormalizeFixedPoint(d);
    NormalizeConcat(d, unit);
    NormalizeConcat(d, Normalize(unit));
    NormalizeIdempotent(unit);
    SameNormalForm(d + unit, d + Normalize(unit));
  }

  lemma NormalizeTib()
    ensures Normalize("tib") == "TiB" && Normalize("TIB") == "TiB"
  {
    NormalizeThree('t', 'i', 'b');
    NormalizeThree('T', 'I', 'B');
  }

  /** Normalising three non-blank characters maps each of them. */
  lemma NormalizeThree(a: char, b: char, c: char)
    requires NotWhitespace(a) && NotWhitespace(b) && NotWhitespace(c)
    ensures Normalize([a, b, c]) == [NormalizeChar(a), NormalizeChar(b), NormalizeChar(c)]
  {
    NormalizeIsCharwise([a, b, c]);
    assert [c][1..] == [];
    assert NormalizeSpec([c]) == [NormalizeChar(c)];
    assert [b, c][1..] == [c];
    assert NormalizeSpec([b, c]) == [NormalizeChar(b), NormalizeChar(c)];
    assert [a, b, c][1..] == [b, c];
  }

  lemma NormalizeGib()
    ensures Normalize("gib") == "giB"
  {
    NormalizeIsCharwise("gib");
  }

  /** `tib`, `TIB` and `TiB` name the same unit. */
  lemma AnyToBytesTebibyteAnyCase(k: nat)
    ensures AnyToBytes(DecimalString(k) + "tib") == Success(k * 1099511627776)
    ensures AnyToBytes(DecimalString(k) + "TIB") == Success(k * 1099511627776)
  {
    var d := DecimalString(k);
    var tebi := Multiplier("TiB").value;
    assert tebi == 1099511627776;
    AnyToBytesRoundTrip(k, "TiB");
    var expected := AnyToBytes(d + "TiB");
    assert expected == Success(k * tebi);
    NormalizeTib();
    AnyToBytesUnitCase(d, "tib");
    assert AnyToBytes(d + "tib") == expected;
    AnyToBytesUnitCase(d, "TIB");
    assert AnyToBytes(d + "TIB") == expected;
  }

  /** Lower-case `g` is not folded, so `gib` becomes the unknown unit `giB`. */
  lemma AnyToBytesLowercaseGibRefused(k: nat)
    ensures AnyToBytes(DecimalString(k) + "gib") == Failure(UnknownUnit("giB"))
  {
    var d := DecimalString(k);
    AnyToBytesUnknownUnit(d, "giB");
    var refused := AnyToBytes(d + "giB");
    NormalizeGib();
    AnyToBytesUnitCase(d, "gib");
    assert AnyToBytes(d + "gib") == refused;
  }

  /** `5XB` names no unit of the table. */
  lemma AnyToBytesUnknownSuffix(k: nat)
    ensures AnyToBytes(DecimalString(k) + "XB") == Failure(UnknownUnit("XB"))
  {
    AnyToBytesUnknownUnit(DecimalString(k), "XB");
  }

  /** The empty string has no unit at all. */
  lemma AnyToBytesEmpty()
    ensures AnyToBytes("") == Failure(UnknownUnit(""))
  {
  }

  /** A unit with no mantissa is not a number. */
  lemma AnyToBytesNoMantissa(unit: string)
    requires unit in KNOWN_UNITS
    ensures AnyToBytes(unit) == Failure(NotANumber(""))
  {
    KnownUnitChars(unit);
    SplitsBack("", unit);
    assert "" + unit == unit;
  }

  lemma ParseFloatHalf()
    ensures ParseFloat("0.5") == Some(0.5)
  {
  }

  lemma HalfFloor(mu: nat)
    requires mu == 1 || mu % 2 == 0
    ensures FloorProduct(0.5, mu) == mu / 2
  {
    if mu != 1 {
      assert 0.5 * mu as real == (mu / 2) as real;
    }
  }

  /** Half of a known unit: `0.5TiB` is 2^39 bytes, `0.5PiB` is 2^49 bytes. */
  lemma AnyToBytesHalfUnit(unit: string)
    requires unit in KNOWN_UNITS
    ensures AnyToBytes("0.5" + unit) == Success(Multiplier(unit).value / 2)
  {
    var mu := Multiplier(unit).value;
    var half := "0.5";
    var s := half + unit;
    KnownUnitChars(unit);
    assert MantissaOnly(half);
    SplitsBack(half, unit);
    ParseFloatHalf();
    assert ParseFloat(MantissaPart(Normalize(s))) == Some(0.5);
    assert AnyToBytes(s) == Success(FloorProduct(0.5, mu));
    MultiplierEven(unit);
    HalfFloor(mu);
  }

  /** Every multiplier but the byte's is even. */
  lemma MultiplierEven(unit: string)
    requires unit in KNOWN_UNITS
    ensures Multiplier(unit).value == 1 || Multiplier(unit).value % 2 == 0
  {
    var m := Multiplier(unit).value;
    if unit != "B" {
      assert m == 1024 * (m / 1024);
    }
  }

  // ---------------------------------------------------------------------
  // getLastDatacapAllocation
  // ---------------------------------------------------------------------

  /** `i` is the position `find` stops at when looking for `id`. */
  ghost predicate IsFirstWithId(requests: seq<AllocationRequest>, id: string, i: int) {
    0 <= i < |requests| && requests[i].id == id
    && forall j :: 0 <= j < i ==> requests[j].id != id
  }

  /** `requests.find(r => r.ID === id)`, as an index. */
  function FindById(requests: seq<AllocationRequest>, id: string): (r: Option<nat>)
    ensures r.Some? ==> IsFirstWithId(requests, id, r.value)
    ensures r.None? ==> forall j :: 0 <= j < |requests| ==> requests[j].id != id
  {
    if requests == [] then None
    else if requests[0].id == id then Some(0)
    else match FindById(requests[1..], id)
      case None => None
      case Some(k) => Some(k + 1)
  }

  /** The request the lifecycle points at, when it is closed and carries exactly two signers. */
  ghost predicate IsLastAllocation(app: Application, i: int) {
    app.lifecycle.activeRequestId.Some?
    && IsFirstWithId(app.allocationRequests, app.lifecycle.activeRequestId.value, i)
    && !app.allocationRequests[i].active
    && |app.allocationRequests[i].signers| == 2
  }

  /** `getLastDatacapAllocation`; `None` stands for `undefined`. */
  function LastDatacapAllocation(app: Application): (r: Option<AllocationRequest>)
    ensures app.lifecycle.activeRequestId.None? ==> r.None?
    ensures r.Some? ==> exists i :: IsLastAllocation(app, i) && r.value == app.allocationRequests[i]
    ensures forall i :: IsLastAllocation(app, i) ==> r == Some(app.allocationRequests[i])
  {
    match app.lifecycle.activeRequestId
    case None => None
    case Some(id) =>
      match FindById(app.allocationRequests, id)
      case None => None
      case Some(k) =>
        var last := app.allocationRequests[k];
        if last.active || |last.signers| != 2 then None else Some(last)
  }

  // ---------------------------------------------------------------------
  // shortenUrl
  // ---------------------------------------------------------------------

  const ELLIPSIS: string := "[...]"

  /** `shortenUrl` as written, with JavaScript's `slice` rules for both ends. */
  function ShortenUrl(url: string, first: int, last: int): string {
    if |url| <= first + last then url
    else Slice(url, 0, first) + ELLIPSIS + SliceFrom(url, -last)
  }

  /** A url no longer than `first + last` is returned unchanged. */
  lemma ShortUrlUnchanged(url: string, first: int, last: int)
    requires |url| <= first + last
    ensures ShortenUrl(url, first, last) == url
  {
  }

  /** With a positive tail length the url keeps its head and its tail around the marker. */
  lemma ShortenedUrlShape(url: string, first: nat, last: nat)
    requires 0 < last && first + last < |url|
    ensures ShortenUrl(url, first, last) == url[..first] + ELLIPSIS + url[|url| - last..]
    ensures |ShortenUrl(url, first, last)| == first + 5 + last
  {
  }

  /**
   * With `last == 0`, `url.slice(-0)` is the whole url, so the "shortened"
   * form is longer than the url itself.
   */
  lemma ShortenUrlZeroTailKeepsWholeUrl(url: string, first: nat)
    requires first < |url|
    ensures ShortenUrl(url, first, 0) == url[..first] + ELLIPSIS + url
    ensures |ShortenUrl(url, first, 0)| > |url|
  {
  }

  /** `shortenUrl` as evidently intended: a tail of `last` characters, none when `last` is 0. */
  function ShortenUrlIntended(url: string, first: nat, last: nat): (r: string)
    ensures |url| <= first + last ==> r == url
    ensures first + last < |url| ==>
      |r| == first + 5 + last && r[..first] == url[..first]
      && r[first..first + 5] == ELLIPSIS && r[first + 5..] == url[|url| - last..]
  {
    if |url| <= first + last then url
    else url[..first] + ELLIPSIS + url[|url| - last..]
  }

  /** The two agree whenever the tail length is positive. */
  lemma ShortenUrlIntendedAgrees(url: string, first: nat, last: nat)
    requires 0 < last
    ensures ShortenUrlIntended(url, first, last) == ShortenUrl(url, first, last)
  {
  }

  /** The intended form never produces a result longer than `first + 5 + last`. */
  lemma ShortenUrlIntendedBound(url: string, first: nat, last: nat)
    ensures |ShortenUrlIntended(url, first, last)| <= if |url| <= first + last then |url| else first + 5 + last
  {
  }

  // ---------------------------------------------------------------------
  // calculateTotalLastNDays
  // ---------------------------------------------------------------------

  /** Reference sum. */
  function Sum(s: seq<int>): int {
    if s == [] then 0 else s[0] + Sum(s[1..])
  }

  /** `reduce((acc, value) => acc + value, acc)`: a left fold. */
  function FoldSum(s: seq<int>, acc: int): int {
    if s == [] then acc else FoldSum(s[1..], acc + s[0])
  }

  lemma {:induction false} FoldSumIsSum(s: seq<int>, acc: int)
    ensures FoldSum(s, acc) == acc + Sum(s)
  {
    if s != [] {
      FoldSumIsSum(s[1..], acc + s[0]);
    }
  }

  /**
   * `calculateTotalLastNDays` on the record's values, in the order
   * `Object.values` lists them.
   */
  function TotalLastNDays(values: seq<int>, n: int): int {
    FoldSum(SliceFrom(values, -n), 0)
  }

  /**
   * The sum of the last `n` values when `0 < n <= count`; of all values
   * when `n >= count` and, through `slice(-0)`, when `n == 0`; a negative
   * `n` drops the first `-n` values.
   */
  lemma TotalLastNDaysSpec(values: seq<int>, n: int)
    ensures 0 < n <= |values| ==> TotalLastNDays(values, n) == Sum(values[|values| - n..])
    ensures |values| <= n ==> TotalLastNDays(values, n) == Sum(values)
    ensures n == 0 ==> TotalLastNDays(values, n) == Sum(values)
    ensures n < 0 && -n <= |values| ==> TotalLastNDays(values, n) == Sum(values[-n..])
    ensures n < 0 && |values| < -n ==> TotalLastNDays(values, n) == 0
  {
    FoldSumIsSum(SliceFrom(values, -n), 0);
    assert values[0..] == values;
  }
}
