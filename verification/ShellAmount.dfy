/** SHELL amounts as text: the two renderers and the one grammar every amount argument accepts. */
module ShellAmount {
  import opened Numbers
  import opened Text

  // ----- Rendering -----

  /** Drop trailing zeros. */
  function StripZeros(s: string): (r: string)
    ensures |r| <= |s|
  {
    if s != "" && s[|s| - 1] == '0' then StripZeros(s[..|s| - 1]) else s
  }

  /** `shell_amount`: whole SHELL, and the nine decimals without trailing zeros if there are any. */
  function Trimmed(raw: nat): string {
    var whole, rest := raw / SHELL_UNIT, raw % SHELL_UNIT;
    if rest == 0 then Decimal(whole) else Decimal(whole) + "." + StripZeros(Padded(rest, 9))
  }

  method RenderTrimmed(raw: nat) returns (text: string)
    ensures text == Trimmed(raw)
  {
    var whole := raw / SHELL_UNIT;
    var rest := raw % SHELL_UNIT;
    if rest == 0 {
      return Decimal(whole);
    }
    var decimals := Padded(rest, 9);
    while decimals != "" && decimals[|decimals| - 1] == '0'
      invariant StripZeros(decimals) == StripZeros(Padded(rest, 9))
      decreases |decimals|
    {
      decimals := decimals[..|decimals| - 1];
    }
    text := Decimal(whole) + "." + decimals;
  }

  /** `decimal_units` with nine decimals. */
  function Fixed(raw: nat): string {
    Decimal(raw / SHELL_UNIT) + "." + Padded(raw % SHELL_UNIT, 9)
  }

  // ----- Parsing -----

  datatype AmountError = Empty | TooFine | Signed | BadWhole | BadDecimals | OutOfRange

  datatype Amount = Raw(units: nat) | Rejected(error: AmountError)

  /** `str::parse::<u128>` on a text without a plus sign; no text stands for zero. */
  function ParsePart(s: string): Option<nat> {
    if s == "" then Some(0)
    else if AllDigits(s) && Value(s) <= U128_MAX then Some(Value(s))
    else None
  }

  /** `split_once('.')`, an absent point leaving no decimals. */
  function SplitPoint(s: string): (string, string) {
    match Find(s, ".") case None => (s, "") case Some(n) => (s[..n], s[n + 1..])
  }

  /** `shell_amount_raw`. */
  function Parse(input: string): Amount {
    var text := Trim(input);
    if text == "" then Rejected(Empty)
    else
      var (whole, decimals) := SplitPoint(text);
      if Utf8Len(decimals) > 9 then Rejected(TooFine)
      else if '+' in text then Rejected(Signed)
      else if ParsePart(whole).None? then Rejected(BadWhole)
      else if ParsePart(decimals).None? then Rejected(BadDecimals)
      else Units(ParsePart(whole).value, ParsePart(decimals).value, |decimals|)
  }

  /** The checked multiplications and the checked sum. */
  function Units(whole: nat, decimals: nat, places: nat): Amount
    requires places <= 9
  {
    var raw, part := whole * SHELL_UNIT, decimals * Pow10(9 - places);
    if raw > U128_MAX || part > U128_MAX || raw + part > U128_MAX then Rejected(OutOfRange) else Raw(raw + part)
  }

  // ----- What the grammar accepts -----

  /** `w`, `w.` or `w.d` in digits, with at most nine decimals; any of the parts may be empty. */
  ghost predicate IsAmount(text: string, whole: string, decimals: string) {
    && text != "" && AllDigits(whole) && AllDigits(decimals) && |decimals| <= 9
    && (text == whole + "." + decimals || (text == whole && decimals == ""))
  }

  /** The raw units of a numeral: its decimal value times 10^9, which nine decimals make whole. */
  ghost predicate IsExact(units: nat, whole: string, decimals: string)
    requires AllDigits(whole) && AllDigits(decimals)
  {
    units * Pow10(|decimals|) == Value(whole + decimals) * SHELL_UNIT
  }

  lemma SplitAmount(text: string, whole: string, decimals: string)
    requires IsAmount(text, whole, decimals)
    ensures SplitPoint(text) == (whole, decimals)
  {
    hide Find;
    PointSplits(text, whole, decimals);
  }

  /** The raw units of a whole figure and its decimals. */
  ghost predicate IsScaled(raw: nat, whole: string, decimals: string) {
    && AllDigits(whole) && AllDigits(decimals) && |decimals| <= 9
    && raw == Value(whole) * SHELL_UNIT + Value(decimals) * Pow10(9 - |decimals|)
  }

  /** The scaled parts are the exact value. */
  lemma ScaledIsExact(whole: string, decimals: string)
    requires AllDigits(whole) && AllDigits(decimals) && |decimals| <= 9
    ensures AllDigits(whole + decimals)
    ensures forall units :: IsExact(units, whole, decimals) <==>
      units == Value(whole) * SHELL_UNIT + Value(decimals) * Pow10(9 - |decimals|)
  {
    var p, q := Pow10(|decimals|), Pow10(9 - |decimals|);
    ValueConcat(whole, decimals);
    PowSum(9 - |decimals|, |decimals|);
    NinePowers();
    var w, d := Value(whole), Value(decimals);
    assert q * p == SHELL_UNIT;
    Scaled(w, d, p, q);
  }

  lemma Scaled(w: nat, d: nat, p: nat, q: nat)
    requires p > 0
    ensures forall u: nat :: u * p == (w * p + d) * (q * p) <==> u == w * (q * p) + d * q
  {
    forall u: nat ensures u * p == (w * p + d) * (q * p) <==> u == w * (q * p) + d * q {
      var v := w * (q * p) + d * q;
      assert v * p == (w * p + d) * (q * p) by {
        calc {
          v * p;
          w * (q * p) * p + d * q * p;
          { assert d * q * p == d * (q * p); }
          w * (q * p) * p + d * (q * p);
          { assert w * (q * p) * p == w * p * (q * p); }
          w * p * (q * p) + d * (q * p);
          (w * p + d) * (q * p);
        }
      }
      Cancel(u, v, p);
    }
  }

  lemma Cancel(u: nat, v: nat, p: nat)
    requires p > 0
    ensures u * p == v * p <==> u == v
  {
    if u < v {
      assert (v - u) * p > 0;
    } else if v < u {
      assert (u - v) * p > 0;
    }
  }

  lemma {:induction false} PowSum(m: nat, n: nat)
    ensures Pow10(m) * Pow10(n) == Pow10(m + n)
  {
    if m > 0 {
      PowSum(m - 1, n);
      TimesTen(Pow10(m - 1), Pow10(n));
    }
  }

  lemma TimesTen(a: nat, b: nat)
    ensures (10 * a) * b == 10 * (a * b)
  {
  }

  lemma NinePowers()
    ensures Pow10(9) == SHELL_UNIT
  {
    assert Pow10(3) == 1000;
    PowSum(3, 3);
    PowSum(6, 3);
  }

  lemma DigitsAreAscii(s: string)
    requires AllDigits(s)
    ensures Utf8Len(s) == |s|
  {
    Utf8LenAscii(s);
  }

  lemma NoPlus(text: string, whole: string, decimals: string)
    requires IsAmount(text, whole, decimals)
    ensures '+' !in text
  {
    forall i | 0 <= i < |text| ensures text[i] != '+' {
      if i < |whole| {
        assert text[i] == whole[i];
      } else if i > |whole| {
        assert text[i] == decimals[i - |whole| - 1];
      }
    }
  }

  /** Every well-formed text whose exact raw value fits is accepted with that value, and refused as out of
      range or unreadable otherwise. */
  lemma AmountsAreExact(input: string, whole: string, decimals: string, units: nat)
    requires IsAmount(Trim(input), whole, decimals)
    requires AllDigits(whole + decimals) && IsExact(units, whole, decimals)
    ensures Parse(input) == Raw(units) <==> units <= U128_MAX
    ensures units > U128_MAX ==> Parse(input).Rejected?
  {
    hide Trim, Find, Utf8Len, Value, Pow10, IsExact;
    var text := Trim(input);
    SplitAmount(text, whole, decimals);
    DigitsAreAscii(decimals);
    NoPlus(text, whole, decimals);
    NoDigitsIsZero(whole);
    NoDigitsIsZero(decimals);
    ScaledIsExact(whole, decimals);
    ValueBound(decimals);
    Pow10Monotone(|decimals|, 9);
    NinePowers();
    assert Value(whole) <= Value(whole) * SHELL_UNIT;
    assert Value(decimals) * Pow10(9 - |decimals|) >= 0;
  }

  /** And nothing else is accepted. */
  lemma OnlyAmountsAreAccepted(input: string)
    requires Parse(input).Raw?
    ensures var (whole, decimals) := SplitPoint(Trim(input));
      && IsAmount(Trim(input), whole, decimals)
      && AllDigits(whole + decimals) && IsExact(Parse(input).units, whole, decimals)
      && Parse(input).units <= U128_MAX
  {
    hide Trim, Utf8Len, IsExact;
    var text := Trim(input);
    var (whole, decimals) := SplitPoint(text);
    assert |decimals| <= Utf8Len(decimals) <= 9;
    if Find(text, ".").Some? {
      var n := Find(text, ".").value;
      FindHit(text, ".");
      assert text[n..][0] == '.';
      assert text == text[..n] + "." + text[n + 1..];
    }
    ScaledIsExact(whole, decimals);
    NoDigitsIsZero(whole);
    NoDigitsIsZero(decimals);
  }

  lemma NoDigitsIsZero(s: string)
    requires AllDigits(s)
    ensures s == "" ==> Value(s) == 0
  {
  }

  /** Why a text is refused: nothing is left of it, its decimals take more than nine bytes, it holds a plus
      sign, one of its parts is no number that fits, or the amount itself does not fit. The checks are made
      in this order. */
  lemma RefusalsAre(input: string, whole: string, decimals: string)
    requires '.' !in whole
    requires Trim(input) == whole + "." + decimals || (Trim(input) == whole && decimals == "")
    ensures var fits := (s: string) => s == "" || (AllDigits(s) && Value(s) <= U128_MAX);
      Parse(input).Rejected? ==>
        match Parse(input).error
        case Empty => Trim(input) == ""
        case TooFine => Trim(input) != "" && Utf8Len(decimals) > 9
        case Signed => Utf8Len(decimals) <= 9 && '+' in Trim(input)
        case BadWhole => Utf8Len(decimals) <= 9 && '+' !in Trim(input) && !fits(whole)
        case BadDecimals => Utf8Len(decimals) <= 9 && '+' !in Trim(input) && fits(whole) && !fits(decimals)
        case OutOfRange => exists units: nat :: IsScaled(units, whole, decimals) && units > U128_MAX
  {
    hide Trim, Utf8Len, Value, Pow10, SplitPoint;
    PointSplits(Trim(input), whole, decimals);
    if Parse(input).Rejected? && Parse(input).error.OutOfRange? {
      NoDigitsIsZero(whole);
      NoDigitsIsZero(decimals);
      var raw := Value(whole) * SHELL_UNIT + Value(decimals) * Pow10(9 - |decimals|);
      assert IsScaled(raw, whole, decimals);
    }
  }

  lemma PointSplits(text: string, whole: string, decimals: string)
    requires '.' !in whole
    requires text == whole + "." + decimals || (text == whole && decimals == "")
    ensures SplitPoint(text) == (whole, decimals)
  {
    hide Find;
    NoPointNotFound(whole);
    if text != whole {
      PointBehind(whole, decimals);
      assert text[..|whole|] == whole && text[|whole| + 1..] == decimals;
    }
  }

  lemma {:induction false} NoPointNotFound(s: string)
    requires '.' !in s
    ensures Find(s, ".").None?
  {
    if s != "" {
      assert s[0] != '.';
      NoPointNotFound(s[1..]);
    }
  }

  lemma {:induction false} PointBehind(whole: string, rest: string)
    requires '.' !in whole
    ensures Find(whole + "." + rest, ".") == Some(|whole|)
  {
    var s := whole + "." + rest;
    if whole == "" {
      assert s[..1] == ".";
    } else {
      assert s[1..] == whole[1..] + "." + rest && s[0] == whole[0];
      PointBehind(whole[1..], rest);
    }
  }

  /** Either part may be empty, and so may both: a point alone is the one amount without a digit, and it
      reads as zero. */
  lemma PointAloneIsZero(input: string)
    ensures Trim(input) == "." ==> Parse(input) == Raw(0)
    ensures Parse(input).Raw? && Trim(input) != "." ==> exists i :: 0 <= i < |Trim(input)| && IsDigit(Trim(input)[i])
  {
    hide Trim, IsExact;
    var text := Trim(input);
    if text == "." {
      PointParts(text);
      assert Utf8Len("") == 0;
    }
    if Parse(input).Raw? && text != "." {
      OnlyAmountsAreAccepted(input);
      var (whole, decimals) := SplitPoint(text);
      var i := DigitInside(text, whole, decimals);
    }
  }

  lemma PointParts(text: string)
    requires text == "."
    ensures SplitPoint(text) == ("", "")
  {
    assert Find(text, ".") == Some(0);
  }

  lemma DigitInside(text: string, whole: string, decimals: string) returns (i: nat)
    requires IsAmount(text, whole, decimals) && text != "."
    ensures i < |text| && IsDigit(text[i])
  {
    if whole != "" {
      i := 0;
      assert text[0] == whole[0];
    } else {
      i := 1;
      assert text[1] == decimals[0];
    }
  }

  // ----- Round trips -----

  lemma AmountIsTrimmed(text: string, whole: string, decimals: string)
    requires IsAmount(text, whole, decimals)
    ensures Trim(text) == text
  {
    forall i | 0 <= i < |text| ensures !IsWhitespace(text[i]) {
      if i < |whole| {
        assert text[i] == whole[i] && IsDigit(whole[i]);
      } else if i > |whole| {
        assert text[i] == decimals[i - |whole| - 1] && IsDigit(decimals[i - |whole| - 1]);
      }
    }
    TrimNothing(text);
  }

  lemma {:induction false} StripZerosKeepsValue(s: string)
    requires AllDigits(s)
    ensures var t := StripZeros(s);
      AllDigits(t) && Value(s) == Value(t) * Pow10(|s| - |t|)
  {
    if s != "" && s[|s| - 1] == '0' {
      var high := s[..|s| - 1];
      StripZerosKeepsValue(high);
      ShiftTen(Value(StripZeros(s)), Pow10(|high| - |StripZeros(s)|));
    }
  }

  /** A whole figure and decimals that denote `raw` parse back to it. */
  lemma ParsesBack(text: string, whole: string, decimals: string, raw: nat)
    requires IsAmount(text, whole, decimals) && raw <= U128_MAX
    requires raw == Value(whole) * SHELL_UNIT + Value(decimals) * Pow10(9 - |decimals|)
    ensures Parse(text) == Raw(raw)
  {
    hide Trim, Parse, IsExact;
    AmountIsTrimmed(text, whole, decimals);
    ScaledIsExact(whole, decimals);
    AmountsAreExact(text, whole, decimals, raw);
  }

  /** Printing then parsing is the identity, for the trimmed renderer ... */
  lemma TrimmedRoundTrip(raw: nat)
    requires raw <= U128_MAX
    ensures Parse(Trimmed(raw)) == Raw(raw)
  {
    hide Parse, Trim, Find;
    var whole, rest := Decimal(raw / SHELL_UNIT), raw % SHELL_UNIT;
    ValueOfDecimal(raw / SHELL_UNIT);
    if rest == 0 {
      NoDigitsIsZero("");
      ParsesBack(whole, whole, "", raw);
    } else {
      var padded := Padded(rest, 9);
      var decimals := StripZeros(padded);
      NinePowers();
      PaddedIsNumeral(rest, 9);
      StripZerosKeepsValue(padded);
      ParsesBack(Trimmed(raw), whole, decimals, raw);
    }
  }

  /** ... and for the fixed nine-decimal one. */
  lemma FixedRoundTrip(raw: nat)
    requires raw <= U128_MAX
    ensures Parse(Fixed(raw)) == Raw(raw)
  {
    hide Parse, Trim, Find;
    var whole, decimals := Decimal(raw / SHELL_UNIT), Padded(raw % SHELL_UNIT, 9);
    ValueOfDecimal(raw / SHELL_UNIT);
    NinePowers();
    PaddedIsNumeral(raw % SHELL_UNIT, 9);
    assert Pow10(0) == 1;
    ParsesBack(Fixed(raw), whole, decimals, raw);
  }

  /** The trimmed rendering is canonical: no leading zero before the point, none trailing behind it, and a
      point only where decimals follow. */
  lemma TrimmedIsCanonical(raw: nat) returns (whole: string, decimals: string)
    ensures IsAmount(Trimmed(raw), whole, decimals) && IsScaled(raw, whole, decimals)
    ensures whole != "" && (whole[0] == '0' ==> whole == "0")
    ensures if decimals == "" then Trimmed(raw) == whole else decimals[|decimals| - 1] != '0'
  {
    hide Find, Value, StripZeros, Padded, Decimal, Pow10;
    whole := Decimal(raw / SHELL_UNIT);
    ValueOfDecimal(raw / SHELL_UNIT);
    ZeroIsZero();
    if raw % SHELL_UNIT == 0 {
      decimals := "";
      NoDigitsIsZero("");
    } else {
      decimals := NineDecimals(raw % SHELL_UNIT);
    }
  }

  lemma ZeroIsZero()
    ensures Decimal(0) == "0"
  {
  }

  lemma NineDecimals(rest: nat) returns (decimals: string)
    requires 0 < rest < SHELL_UNIT
    ensures decimals == StripZeros(Padded(rest, 9)) && AllDigits(decimals) && 0 < |decimals| <= 9
    ensures rest == Value(decimals) * Pow10(9 - |decimals|) && decimals[|decimals| - 1] != '0'
  {
    hide Value, Padded, Pow10, StripZeros;
    var padded := Padded(rest, 9);
    decimals := StripZeros(padded);
    NinePowers();
    PaddedIsNumeral(rest, 9);
    StripZerosKeepsValue(padded);
    NoZeroAtEnd(padded);
    NoDigitsIsZero(decimals);
  }

  lemma {:induction false} NoZeroAtEnd(s: string)
    ensures var r := StripZeros(s); r != "" ==> r[|r| - 1] != '0'
  {
    if s != "" && s[|s| - 1] == '0' {
      NoZeroAtEnd(s[..|s| - 1]);
    }
  }

  /** The fixed rendering has a point and nine decimals behind it. */
  lemma FixedHasNine(raw: nat)
    ensures |Fixed(raw)| > 10 && Fixed(raw)[|Fixed(raw)| - 10] == '.'
    ensures IsScaled(raw, Fixed(raw)[..|Fixed(raw)| - 10], Fixed(raw)[|Fixed(raw)| - 9..])
  {
    hide Value;
    var whole, decimals := Decimal(raw / SHELL_UNIT), Padded(raw % SHELL_UNIT, 9);
    ValueOfDecimal(raw / SHELL_UNIT);
    NinePowers();
    PaddedIsNumeral(raw % SHELL_UNIT, 9);
    assert Pow10(0) == 1;
    assert Fixed(raw)[..|Fixed(raw)| - 10] == whole && Fixed(raw)[|Fixed(raw)| - 9..] == decimals;
  }
}
