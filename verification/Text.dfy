/** Text primitives shared by the parsers and printers: Rust's `str::trim`, `str::len`, `str::find`,
    decimal rendering and decimal values. A `string` is a sequence of Unicode scalar values. */
module Text {

  datatype Option<+T> = None | Some(value: T)

  // ----- White space -----

  /** The Unicode `White_Space` property, which `char::is_whitespace` reads. */
  predicate IsWhitespace(c: char) {
    var n := c as int;
    || 0x09 <= n <= 0x0D || n == 0x20 || n == 0x85 || n == 0xA0 || n == 0x1680
    || 0x2000 <= n <= 0x200A || n == 0x2028 || n == 0x2029 || n == 0x202F || n == 0x205F || n == 0x3000
  }

  /** The characters with that property, one by one. */
  lemma WhitespaceIs(c: char)
    ensures IsWhitespace(c) <==> c as int in {
      0x09, 0x0A, 0x0B, 0x0C, 0x0D, 0x20, 0x85, 0xA0, 0x1680, 0x2000, 0x2001, 0x2002, 0x2003, 0x2004, 0x2005, 0x2006,
      0x2007, 0x2008, 0x2009, 0x200A, 0x2028, 0x2029, 0x202F, 0x205F, 0x3000 }
  {
  }

  function TrimStart(s: string): string {
    if s != "" && IsWhitespace(s[0]) then TrimStart(s[1..]) else s
  }

  function TrimEnd(s: string): string {
    if s != "" && IsWhitespace(s[|s| - 1]) then TrimEnd(s[..|s| - 1]) else s
  }

  function Trim(s: string): string {
    TrimEnd(TrimStart(s))
  }

  predicate IsBlank(s: string) {
    Trim(s) == ""
  }

  lemma TrimNothing(s: string)
    requires s != "" && !IsWhitespace(s[0]) && !IsWhitespace(s[|s| - 1])
    ensures Trim(s) == s
  {
  }

  lemma {:induction false} TrimEndKeepsHead(s: string)
    requires s != "" && !IsWhitespace(s[0])
    ensures TrimEnd(s) != ""
  {
    if |s| > 1 && IsWhitespace(s[|s| - 1]) {
      TrimEndKeepsHead(s[..|s| - 1]);
    }
  }

  lemma {:induction false} BlankIsWhitespace(s: string, i: nat)
    requires IsBlank(s) && i < |s|
    ensures IsWhitespace(s[i])
  {
    if !IsWhitespace(s[0]) {
      TrimEndKeepsHead(s);
    } else if i > 0 {
      BlankIsWhitespace(s[1..], i - 1);
    }
  }

  predicate AllWhitespace(s: string) {
    forall i :: 0 <= i < |s| ==> IsWhitespace(s[i])
  }

  /** Trimming takes away white space at both ends, and all of it. */
  lemma TrimMeans(s: string) returns (front: string, back: string)
    ensures s == front + Trim(s) + back && AllWhitespace(front) && AllWhitespace(back)
    ensures var t := Trim(s); t != "" ==> !IsWhitespace(t[0]) && !IsWhitespace(t[|t| - 1])
  {
    hide IsWhitespace;
    front := TrimStartMeans(s);
    back := TrimEndMeans(TrimStart(s));
    var t := Trim(s);
    if t != "" {
      assert t[0] == TrimStart(s)[0];
    }
  }

  lemma {:induction false} TrimStartMeans(s: string) returns (front: string)
    ensures s == front + TrimStart(s) && AllWhitespace(front)
    ensures TrimStart(s) != "" ==> !IsWhitespace(TrimStart(s)[0])
  {
    hide IsWhitespace;
    front := "";
    if s != "" && IsWhitespace(s[0]) {
      front := TrimStartMeans(s[1..]);
      front := [s[0]] + front;
    }
  }

  lemma {:induction false} TrimEndMeans(s: string) returns (back: string)
    ensures s == TrimEnd(s) + back && AllWhitespace(back)
    ensures TrimEnd(s) != "" ==> !IsWhitespace(TrimEnd(s)[|TrimEnd(s)| - 1])
  {
    hide IsWhitespace;
    back := "";
    if s != "" && IsWhitespace(s[|s| - 1]) {
      back := TrimEndMeans(s[..|s| - 1]);
      back := back + [s[|s| - 1]];
    }
  }

  lemma BlankMeans(s: string)
    ensures IsBlank(s) <==> AllWhitespace(s)
  {
    hide IsWhitespace, Trim;
    var front, back := TrimMeans(s);
    if IsBlank(s) {
      assert s == front + back;
    } else {
      var t := Trim(s);
      assert s[|front|] == t[0];
    }
  }

  // ----- Byte length -----

  function Utf8Width(c: char): (n: nat)
    ensures 1 <= n <= 4
  {
    var v := c as int;
    if v < 0x80 then 1 else if v < 0x800 then 2 else if v < 0x1_0000 then 3 else 4
  }

  /** `str::len`: the number of UTF-8 bytes. */
  function Utf8Len(s: string): (n: nat)
    ensures |s| <= n
  {
    if s == "" then 0 else Utf8Width(s[0]) + Utf8Len(s[1..])
  }

  /** One byte carries seven bits of a character, and `n` bytes carry `5 * n + 1`; the fewest that do are
      used. */
  lemma Utf8WidthIsFewest(c: char)
    ensures var v, n := c as int, Utf8Len([c]);
      && (n == 1 <==> v < 0x80)
      && (n <= 2 <==> v < 0x20 * 0x40) && (n <= 3 <==> v < 0x10 * 0x40 * 0x40) && v < 0x08 * 0x40 * 0x40 * 0x40
  {
  }

  lemma {:induction false} Utf8LenConcat(a: string, b: string)
    ensures Utf8Len(a + b) == Utf8Len(a) + Utf8Len(b)
  {
    hide Utf8Width;
    if a == "" {
      assert a + b == b;
    } else {
      Utf8LenConcat(a[1..], b);
      assert (a + b)[1..] == a[1..] + b;
    }
  }

  lemma {:induction false} Utf8LenAscii(s: string)
    requires forall i :: 0 <= i < |s| ==> s[i] as int < 0x80
    ensures Utf8Len(s) == |s|
  {
    if s != "" {
      Utf8LenAscii(s[1..]);
    }
  }

  // ----- Search -----

  /** `str::find` of a pattern: the leftmost position where it occurs. */
  function Find(s: string, pat: string): (r: Option<nat>)
    ensures r.Some? ==> r.value + |pat| <= |s|
  {
    if pat <= s then Some(0)
    else if s == "" then None
    else match Find(s[1..], pat) case None => None case Some(n) => Some(n + 1)
  }

  /** The pattern occurs where `Find` says ... */
  lemma {:induction false} FindHit(s: string, pat: string)
    requires Find(s, pat).Some?
    ensures pat <= s[Find(s, pat).value..]
  {
    if pat <= s {
      assert s[0..] == s;
    } else {
      FindHit(s[1..], pat);
    }
  }

  /** ... and nowhere before. */
  lemma {:induction false} FindIsFirst(s: string, pat: string, k: nat)
    requires k <= |s| && pat <= s[k..]
    ensures Find(s, pat).Some? && Find(s, pat).value <= k
  {
    if k == 0 {
      assert s[0..] == s;
    } else if !(pat <= s) {
      assert s[k..] == s[1..][k - 1..];
      FindIsFirst(s[1..], pat, k - 1);
    }
  }

  /** What is found stays where it is when the text goes on. */
  lemma {:induction false} FindExtends(a: string, pat: string, b: string)
    requires Find(a, pat).Some?
    ensures Find(a + b, pat) == Find(a, pat)
  {
    if pat <= a {
      assert pat <= a + b;
    } else {
      assert |pat| <= |a| && (a + b)[..|pat|] == a[..|pat|];
      assert (a + b)[1..] == a[1..] + b;
      FindExtends(a[1..], pat, b);
    }
  }

  // ----- Decimal numerals -----

  predicate IsDigit(c: char) {
    '0' <= c <= '9'
  }

  predicate AllDigits(s: string) {
    forall i :: 0 <= i < |s| ==> IsDigit(s[i])
  }

  function Pow10(n: nat): (p: nat)
    ensures p > 0
  {
    if n == 0 then 1 else 10 * Pow10(n - 1)
  }

  function DigitValue(c: char): (d: nat)
    requires IsDigit(c)
    ensures d < 10
  {
    c as int - '0' as int
  }

  function DigitChar(d: nat): (c: char)
    requires d < 10
    ensures IsDigit(c) && DigitValue(c) == d
  {
    (d + '0' as int) as char
  }

  /** The number a digit string denotes, most significant digit first; the empty string denotes zero. */
  function Value(s: string): nat
    requires AllDigits(s)
  {
    if s == "" then 0 else 10 * Value(s[..|s| - 1]) + DigitValue(s[|s| - 1])
  }

  /** Rust's decimal rendering of an unsigned integer. */
  function Decimal(n: nat): (s: string)
    ensures s != "" && AllDigits(s)
  {
    if n < 10 then [DigitChar(n)] else Decimal(n / 10) + [DigitChar(n % 10)]
  }

  lemma {:induction false} ValueOfDecimal(n: nat)
    ensures Value(Decimal(n)) == n
    ensures Decimal(n)[0] == '0' ==> n == 0
  {
    var s := Decimal(n);
    if n < 10 {
      assert s[..0] == "";
    } else {
      ValueOfDecimal(n / 10);
      assert s[..|s| - 1] == Decimal(n / 10);
    }
  }

  lemma {:induction false} ValueConcat(a: string, b: string)
    requires AllDigits(a) && AllDigits(b)
    ensures AllDigits(a + b) && Value(a + b) == Value(a) * Pow10(|b|) + Value(b)
  {
    if b == "" {
      assert a + b == a;
    } else {
      var high := b[..|b| - 1];
      ValueConcat(a, high);
      assert (a + b)[..|a + b| - 1] == a + high;
      ShiftTen(Value(a), Pow10(|high|));
    }
  }

  lemma ShiftTen(v: nat, p: nat)
    ensures v * (10 * p) == 10 * (v * p)
  {
  }

  lemma {:induction false} ValueBound(s: string)
    requires AllDigits(s)
    ensures Value(s) < Pow10(|s|)
    ensures s != "" && s[0] != '0' ==> Pow10(|s| - 1) <= Value(s)
  {
    if s != "" {
      ValueBound(s[..|s| - 1]);
    }
  }

  /** A numeral without a leading zero is the rendering of its value. */
  lemma {:induction false} DecimalOfValue(s: string)
    requires AllDigits(s) && s != "" && (s[0] != '0' || |s| == 1)
    ensures Decimal(Value(s)) == s
  {
    if |s| == 1 {
      assert Value(s[..0]) == 0;
      assert s == [s[0]];
    } else {
      var high, d := s[..|s| - 1], DigitValue(s[|s| - 1]);
      ValueBound(high);
      Pow10Monotone(0, |high| - 1);
      assert high[0] == s[0];
      DecimalOfValue(high);
      var n := Value(s);
      assert n == 10 * Value(high) + d && n >= 10;
      assert n / 10 == Value(high) && n % 10 == d;
      assert s == high + [DigitChar(d)];
    }
  }

  function Zeros(n: nat): (s: string)
    ensures |s| == n && AllDigits(s)
  {
    seq(n, _ => '0')
  }

  lemma {:induction false} ValueZeros(n: nat)
    ensures Value(Zeros(n)) == 0
  {
    if n > 0 {
      ValueZeros(n - 1);
      assert Zeros(n)[..n - 1] == Zeros(n - 1);
    }
  }

  /** `{:0width$}`: the rendering padded on the left with zeros. */
  function Padded(n: nat, width: nat): (s: string)
    ensures AllDigits(s) && |s| >= width
  {
    var s := Decimal(n);
    if |s| >= width then s else Zeros(width - |s|) + s
  }

  lemma PaddedIsNumeral(n: nat, width: nat)
    ensures Value(Padded(n, width)) == n
    ensures width > 0 && n < Pow10(width) ==> |Padded(n, width)| == width
  {
    hide Value, Decimal, Pow10, Zeros;
    var s := Decimal(n);
    ValueOfDecimal(n);
    if |s| < width {
      LeadingZeros(s, width - |s|);
    } else if |s| > width > 0 {
      ZeroIsOneDigit();
      ValueBound(s);
      Pow10Monotone(width, |s| - 1);
    }
  }

  lemma ZeroIsOneDigit()
    ensures |Decimal(0)| == 1
  {
  }

  lemma LeadingZeros(s: string, n: nat)
    requires AllDigits(s)
    ensures Value(Zeros(n) + s) == Value(s)
  {
    hide Value, Pow10, Zeros;
    ValueZeros(n);
    ValueConcat(Zeros(n), s);
    assert 0 * Pow10(|s|) == 0;
  }

  lemma {:induction false} Pow10Monotone(m: nat, n: nat)
    requires m <= n
    ensures Pow10(m) <= Pow10(n)
  {
    if m < n {
      Pow10Monotone(m, n - 1);
    }
  }
}
