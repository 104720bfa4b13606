/** Big decimals compared as text, and the range check of an oracle market manifest. */
module OracleBounds {
  import opened Text

  const UINT256_MAX: nat := 0xFFFF_FFFF_FFFF_FFFF_FFFF_FFFF_FFFF_FFFF_FFFF_FFFF_FFFF_FFFF_FFFF_FFFF_FFFF_FFFF
  /** The 78 digits of 2^256 - 1. */
  const HIGH_DIGITS: string := "115792" + "089237" + "316195" + "423570" + "985008" + "687907" + "853269"
  const UINT256_MAX_DEC: string := HIGH_DIGITS + "984665" + "640564" + "039457" + "584007" + "913129" + "639935"

  datatype Ordering = Smaller | Same | Greater

  function Compare(a: int, b: int): Ordering {
    if a < b then Smaller else if a == b then Same else Greater
  }

  // ----- Comparing numerals -----

  /** `trim_start_matches('0')`. */
  function TrimZeros(s: string): string {
    if s != "" && s[0] == '0' then TrimZeros(s[1..]) else s
  }

  /** Lexicographic order of texts. */
  function CompareText(a: string, b: string): Ordering {
    if a == "" || b == "" then Compare(|a|, |b|)
    else if a[0] != b[0] then Compare(a[0] as int, b[0] as int)
    else CompareText(a[1..], b[1..])
  }

  /** `cmp_uint_dec`: without leading zeros the longer numeral is larger, equal lengths compare as text. */
  function CompareDecimal(a: string, b: string): Ordering {
    var x, y := TrimZeros(a), TrimZeros(b);
    if |x| != |y| then Compare(|x|, |y|) else CompareText(x, y)
  }

  lemma ValueOfHead(s: string)
    requires AllDigits(s) && s != ""
    ensures AllDigits(s[1..]) && Value(s) == DigitValue(s[0]) * Pow10(|s| - 1) + Value(s[1..])
  {
    var head := [s[0]];
    assert s == head + s[1..] && head[..0] == "";
    assert Value(head) == DigitValue(s[0]);
    ValueConcat(head, s[1..]);
  }

  lemma {:induction false} TrimZerosKeepsValue(s: string)
    requires AllDigits(s)
    ensures AllDigits(TrimZeros(s)) && Value(TrimZeros(s)) == Value(s)
    ensures TrimZeros(s) != "" ==> TrimZeros(s)[0] != '0'
  {
    if s != "" && s[0] == '0' {
      ValueOfHead(s);
      TrimZerosKeepsValue(s[1..]);
    }
  }

  lemma LeadingDigitDecides(x: nat, y: nat, p: nat, u: nat, v: nat)
    requires x < y && u < p
    ensures x * p + u < y * p + v
  {
    assert (x + 1) * p <= y * p;
  }

  lemma {:induction false} CompareTextIsNumeric(a: string, b: string)
    requires AllDigits(a) && AllDigits(b) && |a| == |b|
    ensures CompareText(a, b) == Compare(Value(a), Value(b))
  {
    if a != "" {
      ValueOfHead(a);
      ValueOfHead(b);
      ValueBound(a[1..]);
      ValueBound(b[1..]);
      var x, y, p := DigitValue(a[0]), DigitValue(b[0]), Pow10(|a| - 1);
      if x == y {
        CompareTextIsNumeric(a[1..], b[1..]);
      } else if x < y {
        LeadingDigitDecides(x, y, p, Value(a[1..]), Value(b[1..]));
      } else {
        LeadingDigitDecides(y, x, p, Value(b[1..]), Value(a[1..]));
      }
    }
  }

  /** Digit strings are ordered as the integers they denote, leading zeros or not. */
  lemma CompareDecimalIsNumeric(a: string, b: string)
    requires AllDigits(a) && AllDigits(b)
    ensures CompareDecimal(a, b) == Compare(Value(a), Value(b))
  {
    var x, y := TrimZeros(a), TrimZeros(b);
    TrimZerosKeepsValue(a);
    TrimZerosKeepsValue(b);
    if |x| == |y| {
      CompareTextIsNumeric(x, y);
    } else if |x| < |y| {
      LongerIsLarger(x, y);
    } else {
      LongerIsLarger(y, x);
    }
  }

  lemma LongerIsLarger(x: string, y: string)
    requires AllDigits(x) && AllDigits(y) && |x| < |y| && y[0] != '0'
    ensures Value(x) < Value(y)
  {
    ValueBound(x);
    ValueBound(y);
    Pow10Monotone(|x|, |y| - 1);
  }

  // ----- The 256-bit range -----

  /** `is_uint256_dec`. */
  predicate IsUint256Dec(s: string) {
    s != "" && AllDigits(s) && CompareDecimal(s, UINT256_MAX_DEC) != Greater
  }

  /** Six more digits. */
  lemma Extend(prefix: string, v: nat, chunk: string)
    requires AllDigits(prefix) && Value(prefix) == v && AllDigits(chunk) && |chunk| == 6
    ensures AllDigits(prefix + chunk)
    ensures Value(prefix + chunk) == 1_000_000 * v + Six(chunk)
  {
    ValueConcat(prefix, chunk);
    SixIsValue(chunk);
    assert Pow10(3) == 1000 && Pow10(6) == 1000 * Pow10(3);
  }

  function Six(s: string): nat
    requires AllDigits(s) && |s| == 6
  {
    100_000 * DigitValue(s[0]) + 10_000 * DigitValue(s[1]) + 1000 * DigitValue(s[2])
    + 100 * DigitValue(s[3]) + 10 * DigitValue(s[4]) + DigitValue(s[5])
  }

  lemma SixIsValue(s: string)
    requires AllDigits(s) && |s| == 6
    ensures Value(s) == Six(s)
  {
    assert Value(s[..0]) == 0;
    assert s[..1][..0] == s[..0] && Value(s[..1]) == DigitValue(s[0]);
    assert s[..2][..1] == s[..1] && Value(s[..2]) == 10 * Value(s[..1]) + DigitValue(s[1]);
    assert s[..3][..2] == s[..2] && Value(s[..3]) == 10 * Value(s[..2]) + DigitValue(s[2]);
    assert s[..4][..3] == s[..3] && Value(s[..4]) == 10 * Value(s[..3]) + DigitValue(s[3]);
    assert s[..5][..4] == s[..4] && Value(s[..5]) == 10 * Value(s[..4]) + DigitValue(s[4]);
  }

  lemma HighNumeral()
    ensures AllDigits(HIGH_DIGITS) && Value(HIGH_DIGITS) == 115792089237316195423570985008687907853269
  {
    hide Value;
    var s0 := "115792";
    SixIsValue(s0);
    var s1 := s0 + "089237";
    Extend(s0, 115792, "089237");
    var s2 := s1 + "316195";
    Extend(s1, 115792089237, "316195");
    var s3 := s2 + "423570";
    Extend(s2, 115792089237316195, "423570");
    var s4 := s3 + "985008";
    Extend(s3, 115792089237316195423570, "985008");
    var s5 := s4 + "687907";
    Extend(s4, 115792089237316195423570985008, "687907");
    var s6 := s5 + "853269";
    Extend(s5, 115792089237316195423570985008687907, "853269");
    assert s6 == HIGH_DIGITS;
  }

  /** The text constant denotes 2^256 - 1. */
  lemma LargestNumeral()
    ensures AllDigits(UINT256_MAX_DEC) && Value(UINT256_MAX_DEC) == UINT256_MAX
  {
    hide Value;
    HighNumeral();
    var s6 := HIGH_DIGITS;
    var s7 := s6 + "984665";
    Extend(s6, 115792089237316195423570985008687907853269, "984665");
    var s8 := s7 + "640564";
    Extend(s7, 115792089237316195423570985008687907853269984665, "640564");
    var s9 := s8 + "039457";
    Extend(s8, 115792089237316195423570985008687907853269984665640564, "039457");
    var s10 := s9 + "584007";
    Extend(s9, 115792089237316195423570985008687907853269984665640564039457, "584007");
    var s11 := s10 + "913129";
    Extend(s10, 115792089237316195423570985008687907853269984665640564039457584007, "913129");
    var s12 := s11 + "639935";
    Extend(s11, 115792089237316195423570985008687907853269984665640564039457584007913129, "639935");
    assert s12 == UINT256_MAX_DEC;
  }

  /** The text test is the numeric range of the contract type. */
  lemma IsUint256DecMeans(s: string)
    ensures IsUint256Dec(s) <==> s != "" && AllDigits(s) && Value(s) <= UINT256_MAX
  {
    hide Value, CompareDecimal;
    LargestNumeral();
    if AllDigits(s) {
      CompareDecimalIsNumeric(s, UINT256_MAX_DEC);
    }
  }

  // ----- Range bounds -----

  datatype BoundsError = NoBounds | NotUint256(i: nat) | NotIncreasing(i: nat) | OutcomeCount | TooManyOutcomes

  /** Every bound is a `uint256` numeral and their values strictly ascend. */
  ghost predicate Ascending(bounds: seq<string>) {
    && (forall i :: 0 <= i < |bounds| ==> AllDigits(bounds[i]) && bounds[i] != "" && Value(bounds[i]) <= UINT256_MAX)
    && (forall i, j :: 0 <= i < j < |bounds| ==> Value(bounds[i]) < Value(bounds[j]))
  }

  /** The bounds and outcomes part of `validate`. */
  method ValidateRanges(bounds: seq<string>, outcomes: nat) returns (error: Option<BoundsError>)
    ensures error.None? <==> 1 <= |bounds| && Ascending(bounds) && outcomes == |bounds| + 1 && outcomes < 20
    ensures error.Some? && error.value.NotUint256? ==> error.value.i < |bounds| && !IsUint256Dec(bounds[error.value.i])
    ensures error.Some? && error.value.NotIncreasing? ==>
      var i := error.value.i;
      && 0 < i < |bounds| && AllDigits(bounds[i - 1]) && AllDigits(bounds[i])
      && Value(bounds[i]) <= Value(bounds[i - 1])
  {
    hide Value, IsUint256Dec, CompareDecimal;
    if |bounds| < 1 {
      return Some(NoBounds);
    }
    var prev: Option<string> := None;
    for i := 0 to |bounds|
      invariant Ascending(bounds[..i])
      invariant prev == if i == 0 then None else Some(bounds[i - 1])
    {
      var b := bounds[i];
      assert bounds[..i + 1] == bounds[..i] + [b];
      IsUint256DecMeans(b);
      if !IsUint256Dec(b) {
        return Some(NotUint256(i));
      }
      if prev.Some? {
        assert bounds[..i][i - 1] == bounds[i - 1];
        CompareDecimalIsNumeric(b, prev.value);
        if CompareDecimal(b, prev.value) != Greater {
          return Some(NotIncreasing(i));
        }
      }
      prev := Some(b);
    }
    assert bounds[..|bounds|] == bounds;
    if outcomes != |bounds| + 1 {
      return Some(OutcomeCount);
    }
    if outcomes >= 20 {
      return Some(TooManyOutcomes);
    }
    error := None;
  }

  // ----- Outcomes -----

  /** Which of the two ranges a price equal to their common bound belongs to. The manifest leaves it to the
      contract, so everything below is stated for both. */
  datatype Side = Above | Below

  predicate Passed(side: Side, bound: nat, price: int) {
    if side.Above? then bound <= price else bound < price
  }

  /** How many bounds a price has passed: the index of its range. */
  function RangeOf(side: Side, bounds: seq<string>, price: int): nat
    requires forall i :: 0 <= i < |bounds| ==> AllDigits(bounds[i])
  {
    if bounds == [] then 0
    else RangeOf(side, bounds[..|bounds| - 1], price) + if Passed(side, Value(bounds[|bounds| - 1]), price) then 1 else 0
  }

  /** Ascending bounds cut the price line: a price is in range `k` exactly when it has passed the bound
      before the range and not the one behind it. */
  lemma {:induction false} RangeIsInterval(side: Side, bounds: seq<string>, price: int, k: nat)
    requires Ascending(bounds) && k <= |bounds|
    ensures RangeOf(side, bounds, price) <= |bounds|
    ensures RangeOf(side, bounds, price) == k <==>
      (k > 0 ==> Passed(side, Value(bounds[k - 1]), price)) && (k < |bounds| ==> !Passed(side, Value(bounds[k]), price))
  {
    hide Value;
    if bounds != [] {
      var n := |bounds| - 1;
      var lower := bounds[..n];
      RangeIsInterval(side, lower, price, n);
      assert n > 0 ==> lower[n - 1] == bounds[n - 1] && Value(bounds[n - 1]) < Value(bounds[n]);
      if k < n {
        RangeIsInterval(side, lower, price, k);
        assert lower[k] == bounds[k] && Value(bounds[k]) < Value(bounds[n]);
        assert k > 0 ==> lower[k - 1] == bounds[k - 1];
      }
    }
  }

  /** A price of the outcome, if it has one. */
  function Sample(side: Side, bounds: seq<string>, k: nat): nat
    requires Ascending(bounds) && k <= |bounds|
  {
    if side.Above? then (if k == 0 then 0 else Value(bounds[k - 1]))
    else if k < |bounds| then Value(bounds[k])
    else if k == 0 then 0 else Value(bounds[k - 1]) + 1
  }

  /** Each of the `|bounds| + 1` outcomes is reached by some `uint256` price, except the first when bounds
      belong to the range above them and the first bound is zero, or the last when bounds belong to the
      range below them and the last bound is the largest price. */
  lemma EveryOutcomeIsReached(side: Side, bounds: seq<string>, k: nat)
    requires bounds != [] && Ascending(bounds) && k <= |bounds|
    ensures (exists price: nat :: price <= UINT256_MAX && RangeOf(side, bounds, price) == k) <==>
      match side
      case Above => k > 0 || Value(bounds[0]) > 0
      case Below => k < |bounds| || Value(bounds[|bounds| - 1]) < UINT256_MAX
  {
    hide Value, RangeOf;
    RangeIsInterval(side, bounds, Sample(side, bounds, k), k);
    forall price: nat
      ensures RangeOf(side, bounds, price) == k ==>
        (k > 0 ==> Passed(side, Value(bounds[k - 1]), price)) && (k < |bounds| ==> !Passed(side, Value(bounds[k]), price))
    {
      RangeIsInterval(side, bounds, price, k);
    }
  }
}
