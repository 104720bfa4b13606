/** Judging an on-chain submit response: every exit code and action result code, at any depth. */
module SubmitResponse {
  import opened Text
  import opened Json
  import Sanitize

  const I64_MIN: int := -0x8000_0000_0000_0000
  const I64_MAX: int := 0x7FFF_FFFF_FFFF_FFFF

  // ----- Reading a code -----

  function DigitIn(c: char, radix: nat): Option<nat> {
    var n := c as int;
    var d := if '0' <= c <= '9' then n - '0' as int
             else if 'a' <= c <= 'z' then n - 'a' as int + 10
             else if 'A' <= c <= 'Z' then n - 'A' as int + 10
             else radix;
    if d < radix then Some(d) else None
  }

  function Magnitude(s: string, radix: nat): Option<nat> {
    if s == "" then Some(0)
    else
      match (Magnitude(s[..|s| - 1], radix), DigitIn(s[|s| - 1], radix))
      case (Some(high), Some(d)) => Some(high * radix + d)
      case _ => None
  }

  /** `i64::from_str_radix`: an optional sign, at least one digit, and a value in range. */
  function ParseI64(s: string, radix: nat): Option<int> {
    var signed := s != "" && (s[0] == '+' || s[0] == '-');
    var digits := if signed then s[1..] else s;
    if digits == "" then None
    else
      match Magnitude(digits, radix)
      case None => None
      case Some(m) =>
        var value := if signed && s[0] == '-' then 0 - m as int else m as int;
        if I64_MIN <= value <= I64_MAX then Some(value) else None
  }

  /** `value_i64`. */
  function ValueI64(v: Value): Option<int> {
    match v
    case Num(Int(n)) => if I64_MIN <= n <= I64_MAX then Some(n) else None
    case Str(s) =>
      var t := Trim(s);
      if "0x" <= t || "0X" <= t then ParseI64(t[2..], 16) else ParseI64(t, 10)
    case _ => None
  }

  lemma {:induction false} MagnitudeIsValue(s: string)
    requires AllDigits(s)
    ensures Magnitude(s, 10) == Some(Text.Value(s))
  {
    if s != "" {
      MagnitudeIsValue(s[..|s| - 1]);
    }
  }

  predicate InI64(n: int) {
    I64_MIN <= n <= I64_MAX
  }

  /** A number is read as itself if it is an integer that fits; nothing else but text is read. */
  lemma ReadsNumber(v: Value)
    requires !v.Str?
    ensures forall n :: ValueI64(v) == Some(n) <==> v == Num(Int(n)) && -0x8000_0000_0000_0000 <= n < 0x8000_0000_0000_0000
  {
  }

  predicate IsSign(s: string) {
    s == "" || s == "+" || s == "-"
  }

  function Signed(sign: string, m: nat): int {
    if sign == "-" then 0 - m as int else m as int
  }

  /** A code written in decimal digits, with or without a sign and white space around it, is read as that
      number, and not read when it does not fit. */
  lemma ReadsDecimalText(text: string, sign: string, digits: string)
    requires IsSign(sign) && digits != "" && AllDigits(digits) && Trim(text) == sign + digits
    ensures var n := Signed(sign, Text.Value(digits));
      ValueI64(Str(text)) == if InI64(n) then Some(n) else None
  {
    hide ParseI64, Trim, Text.Value;
    NotHex(sign + digits, sign, digits);
    MagnitudeIsValue(digits);
    assert IsDigit(digits[0]);
    ParsesDigits(sign, digits, Text.Value(digits), 10);
  }

  lemma NotHex(text: string, sign: string, digits: string)
    requires AllDigits(digits) && digits != "" && IsSign(sign) && text == sign + digits
    ensures !("0x" <= text) && !("0X" <= text)
  {
    if |text| >= 2 {
      assert text[1] == if sign == "" then digits[1] else digits[0];
      assert IsDigit(text[1]);
    }
  }

  lemma ParsesDigits(sign: string, digits: string, m: nat, radix: nat)
    requires IsSign(sign) && digits != "" && digits[0] != '+' && digits[0] != '-' && Magnitude(digits, radix) == Some(m)
    ensures ParseI64(sign + digits, radix) == if InI64(Signed(sign, m)) then Some(Signed(sign, m)) else None
  {
    hide Magnitude;
    if sign == "" {
      assert sign + digits == digits;
    } else {
      assert (sign + digits)[1..] == digits;
    }
  }

  predicate IsHexDigit(c: char) {
    '0' <= c <= '9' || 'a' <= c <= 'f' || 'A' <= c <= 'F'
  }

  predicate AllHex(s: string) {
    forall i :: 0 <= i < |s| ==> IsHexDigit(s[i])
  }

  function HexDigitValue(c: char): nat
    requires IsHexDigit(c)
  {
    if c <= '9' then c as int - '0' as int
    else if c <= 'F' then 10 + (c as int - 'A' as int)
    else 10 + (c as int - 'a' as int)
  }

  /** The number hexadecimal digits denote, most significant first. */
  function HexValue(s: string): nat
    requires AllHex(s)
  {
    if s == "" then 0 else 16 * HexValue(s[..|s| - 1]) + HexDigitValue(s[|s| - 1])
  }

  /** A hexadecimal digit, in either case. */
  function HexDigit(d: nat, upper: bool): char
    requires d < 16
  {
    if d < 10 then ('0' as int + d) as char
    else if upper then ('A' as int + (d - 10)) as char
    else ('a' as int + (d - 10)) as char
  }

  /** A number in hexadecimal digits, each in the case that `upper` picks. */
  function Hex(n: nat, upper: nat -> bool): (s: string)
    ensures s != ""
  {
    if n < 16 then [HexDigit(n, upper(n))] else Hex(n / 16, upper) + [HexDigit(n % 16, upper(n))]
  }

  lemma HexDigitMeans(d: nat, upper: bool)
    requires d < 16
    ensures IsHexDigit(HexDigit(d, upper)) && HexDigitValue(HexDigit(d, upper)) == d
  {
  }

  /** Whatever the cases, the digits of a number denote it. */
  lemma {:induction false} HexDenotes(n: nat, upper: nat -> bool)
    ensures AllHex(Hex(n, upper)) && HexValue(Hex(n, upper)) == n
  {
    hide HexDigitValue, HexDigit, IsHexDigit;
    var s := Hex(n, upper);
    HexDigitMeans(n % 16, upper(n));
    if n < 16 {
      assert s[..0] == "" && HexValue("") == 0;
    } else {
      HexDenotes(n / 16, upper);
      assert s[..|s| - 1] == Hex(n / 16, upper);
    }
  }

  lemma DigitInMeans(c: char)
    ensures DigitIn(c, 16) == if IsHexDigit(c) then Some(HexDigitValue(c)) else None
    ensures DigitIn(c, 10) == if IsDigit(c) then Some(DigitValue(c)) else None
  {
  }

  lemma {:induction false} HexMagnitude(s: string)
    requires AllHex(s)
    ensures Magnitude(s, 16) == Some(HexValue(s))
  {
    hide DigitIn, HexDigitValue, IsHexDigit;
    if s != "" {
      HexMagnitude(s[..|s| - 1]);
      DigitInMeans(s[|s| - 1]);
    }
  }

  /** A code written in hexadecimal, with either prefix, digits of either case, a sign behind the prefix or
      none and white space around it, is read as that number, and not read when it does not fit. */
  lemma ReadsHexText(text: string, prefix: string, sign: string, digits: string)
    requires (prefix == "0x" || prefix == "0X") && IsSign(sign) && digits != "" && AllHex(digits)
    requires Trim(text) == prefix + (sign + digits)
    ensures var n := Signed(sign, HexValue(digits));
      ValueI64(Str(text)) == if InI64(n) then Some(n) else None
  {
    hide ParseI64, Trim, HexValue;
    HexMagnitude(digits);
    var body := sign + digits;
    assert (prefix + body)[2..] == body && prefix <= prefix + body;
    assert IsHexDigit(digits[0]);
    ParsesDigits(sign, digits, HexValue(digits), 16);
  }

  ghost predicate Numeral(s: string, radix: nat) {
    s != "" && forall i :: 0 <= i < |s| ==> DigitIn(s[i], radix).Some?
  }

  lemma {:induction false} MagnitudeMeans(s: string, radix: nat)
    ensures Magnitude(s, radix).Some? <==> s == "" || Numeral(s, radix)
  {
    hide DigitIn;
    if s != "" {
      var high, last := s[..|s| - 1], s[|s| - 1];
      MagnitudeMeans(high, radix);
      assert s == high + [last];
    }
  }

  /** Nothing else is read: the text, trimmed, is an optional prefix, an optional sign and digits. */
  lemma OnlyNumeralsAreRead(s: string) returns (prefix: string, sign: string, digits: string)
    requires ValueI64(Str(s)).Some?
    ensures Trim(s) == prefix + (sign + digits) && (sign == "" || sign == "+" || sign == "-")
    ensures digits != "" && if prefix == "" then AllDigits(digits) else (prefix == "0x" || prefix == "0X") && AllHex(digits)
  {
    hide Trim, ParseI64, Numeral, IsHexDigit, IsDigit;
    var t := Trim(s);
    if "0x" <= t || "0X" <= t {
      prefix := if "0x" <= t then "0x" else "0X";
      assert t == prefix + t[2..];
      sign, digits := OnlySigned(t[2..], 16);
      NumeralMeans(digits);
    } else {
      prefix := "";
      assert t == prefix + t;
      sign, digits := OnlySigned(t, 10);
      NumeralMeans(digits);
    }
  }

  lemma NumeralMeans(s: string)
    ensures Numeral(s, 10) <==> s != "" && AllDigits(s)
    ensures Numeral(s, 16) <==> s != "" && AllHex(s)
  {
    hide DigitIn, IsDigit, IsHexDigit;
    forall c ensures DigitIn(c, 10).Some? <==> IsDigit(c) {
      DigitInMeans(c);
    }
    forall c ensures DigitIn(c, 16).Some? <==> IsHexDigit(c) {
      DigitInMeans(c);
    }
  }

  lemma OnlySigned(s: string, radix: nat) returns (sign: string, digits: string)
    requires ParseI64(s, radix).Some?
    ensures s == sign + digits && (sign == "" || sign == "+" || sign == "-") && Numeral(digits, radix)
  {
    hide Magnitude, Numeral;
    var signed := s != "" && (s[0] == '+' || s[0] == '-');
    sign := if !signed then "" else if s[0] == '+' then "+" else "-";
    digits := if signed then s[1..] else s;
    assert s == sign + digits;
    MagnitudeMeans(digits, radix);
  }

  // ----- Where the codes are -----

  const EXIT_KEYS: set<string> := {"exit_code", "exitCode", "vm_exit_code", "vmExitCode"}
  const ACTION_KEYS: set<string> := {"result_code", "resultCode", "action_result_code", "actionResultCode"}

  /** A position: the child index to follow at each level. */
  type Path = seq<nat>

  /** The code at a position: descend along the path; its last step has to be a field with a code key. */
  function CodeAt(v: Value, path: Path, keys: set<string>): Option<int>
    decreases |path|, 0
  {
    if path == [] then None
    else match v
      case Obj(fields) => if path[0] < |fields| then CodeInField(fields[path[0]], path[1..], keys) else None
      case Arr(items) => if path[0] < |items| then CodeAt(items[path[0]], path[1..], keys) else None
      case _ => None
  }

  function CodeInField(f: Field, path: Path, keys: set<string>): Option<int>
    decreases |path|, 1
  {
    if path == [] then (if f.key in keys then ValueI64(f.value) else None) else CodeAt(f.value, path, keys)
  }

  function FieldStage(stage: string, key: string): string {
    if stage == "" then key else stage + "." + key
  }

  function ItemStage(stage: string, i: nat): string {
    stage + "[" + Decimal(i) + "]"
  }

  /** The dotted rendering of the object that holds the position. */
  function StageAt(v: Value, path: Path, stage: string): string
    decreases |path|
  {
    if |path| <= 1 then stage
    else match v
      case Obj(fields) =>
        if path[0] < |fields| then StageAt(fields[path[0]].value, path[1..], FieldStage(stage, fields[path[0]].key)) else stage
      case Arr(items) => if path[0] < |items| then StageAt(items[path[0]], path[1..], ItemStage(stage, path[0])) else stage
      case _ => stage
  }

  /** The stage is a path of keys joined by points, with array positions in brackets behind them. */
  lemma StageIsDotted(a: string, b: string, items: seq<Value>, i: nat, k: nat)
    requires a != "" && i < |items|
    ensures var v := Obj([Field(a, Obj([Field(b, Arr(items))]))]);
      StageAt(v, [0, 0, i, k], "") == a + "." + b + "[" + Decimal(i) + "]"
  {
    hide Decimal;
    assert [0, 0, i, k][1..] == [0, i, k] && [0, i, k][1..] == [i, k] && [i, k][1..] == [k];
    var list := Arr(items);
    var inner := Obj([Field(b, list)]);
    assert StageAt(list, [i, k], a + "." + b) == ItemStage(a + "." + b, i);
    assert StageAt(inner, [0, i, k], a) == StageAt(list, [i, k], FieldStage(a, b));
    assert StageAt(Obj([Field(a, inner)]), [0, 0, i, k], "") == StageAt(inner, [0, i, k], a);
  }

  /** Document order: an object's field comes before everything below it, and before later siblings. */
  predicate Before(p: Path, q: Path) {
    q != [] && (p == [] || p[0] < q[0] || (p[0] == q[0] && Before(p[1..], q[1..])))
  }

  /** Of two positions exactly one comes before the other; what lies below a position comes behind it, and
      at the first step in which they part the smaller index decides. */
  lemma {:induction false} PathsAreOrdered(p: Path, q: Path, k: nat)
    ensures !(Before(p, q) && Before(q, p)) && !Before(p, p)
    ensures p == q || Before(p, q) || Before(q, p)
    ensures k <= |p| && k < |q| && p[..k] == q[..k] && (k == |p| || p[k] < q[k]) ==> Before(p, q)
    decreases |p|
  {
    if p != [] {
      PathsAreOrdered(p[1..], if q == [] then [] else q[1..], if k > 0 then k - 1 else 0);
      assert q != [] ==> p == [p[0]] + p[1..] && q == [q[0]] + q[1..];
      if 0 < k <= |p| && k < |q| {
        FirstSteps(p, k);
        FirstSteps(q, k);
      }
    }
  }

  lemma FirstSteps(p: Path, k: nat)
    requires 0 < k <= |p|
    ensures p[..k][0] == p[0] && p[..k][1..] == p[1..][..k - 1]
  {
  }

  // ----- The traversal -----

  datatype Found = Found(path: Path, code: int, stage: string)

  function Below(k: nat, found: seq<Found>): (r: seq<Found>)
    ensures |r| == |found|
  {
    seq(|found|, i requires 0 <= i < |found| => found[i].(path := [k] + found[i].path))
  }

  function Own(f: Field, k: nat, stage: string, keys: set<string>): seq<Found> {
    match CodeInField(f, [], keys) case None => [] case Some(code) => [Found([k], code, stage)]
  }

  /** The codes in traversal order, with where each was found. */
  function Locate(v: Value, stage: string, keys: set<string>): seq<Found>
    decreases v, 0
  {
    match v
    case Obj(fields) => LocateFields(fields, 0, stage, keys)
    case Arr(items) => LocateItems(items, 0, stage, keys)
    case _ => []
  }

  function LocateFields(fields: seq<Field>, k: nat, stage: string, keys: set<string>): seq<Found>
    requires k <= |fields|
    decreases fields, |fields| - k
  {
    if k == |fields| then []
    else
      var f := fields[k];
      Own(f, k, stage, keys) + Below(k, Locate(f.value, FieldStage(stage, f.key), keys)) + LocateFields(fields, k + 1, stage, keys)
  }

  function LocateItems(items: seq<Value>, k: nat, stage: string, keys: set<string>): seq<Found>
    requires k <= |items|
    decreases items, |items| - k
  {
    if k == |items| then []
    else Below(k, Locate(items[k], ItemStage(stage, k), keys)) + LocateItems(items, k + 1, stage, keys)
  }

  // ----- Complete and sound -----

  ghost predicate Has(found: seq<Found>, path: Path, code: int, stage: string) {
    Found(path, code, stage) in found
  }

  lemma HasBelow(k: nat, found: seq<Found>, path: Path, code: int, stage: string)
    ensures Has(Below(k, found), path, code, stage) <==> path != [] && path[0] == k && Has(found, path[1..], code, stage)
  {
    var below := Below(k, found);
    if Has(below, path, code, stage) {
      var i :| 0 <= i < |below| && below[i] == Found(path, code, stage);
      assert path[1..] == found[i].path;
      assert found[i] == Found(path[1..], code, stage);
    }
    if path != [] && path[0] == k && Has(found, path[1..], code, stage) {
      var i :| 0 <= i < |found| && found[i] == Found(path[1..], code, stage);
      assert path == [k] + path[1..];
      assert below[i] == Found(path, code, stage);
    }
  }

  /** The traversal finds exactly the coded positions, each under its own stage. */
  lemma {:induction false} LocateIsExact(v: Value, stage: string, keys: set<string>, path: Path, code: int, at: string)
    ensures Has(Locate(v, stage, keys), path, code, at) <==> CodeAt(v, path, keys) == Some(code) && at == StageAt(v, path, stage)
    decreases v, 0
  {
    match v
    case Obj(fields) => FieldsExact(fields, 0, stage, keys, path, code, at);
    case Arr(items) => ItemsExact(items, 0, stage, keys, path, code, at);
    case _ =>
  }

  lemma {:induction false} FieldsExact(fields: seq<Field>, k: nat, stage: string, keys: set<string>, path: Path, code: int, at: string)
    requires k <= |fields|
    ensures Has(LocateFields(fields, k, stage, keys), path, code, at) <==>
      && path != [] && k <= path[0] < |fields|
      && CodeInField(fields[path[0]], path[1..], keys) == Some(code) && at == StageAt(Obj(fields), path, stage)
    decreases fields, |fields| - k
  {
    hide Own, Below, Locate, ValueI64, FieldStage;
    if k < |fields| {
      var f := fields[k];
      var inner := FieldStage(stage, f.key);
      var own, below, later := Own(f, k, stage, keys), Below(k, Locate(f.value, inner, keys)), LocateFields(fields, k + 1, stage, keys);
      var tail := if path == [] then [] else path[1..];
      FieldsExact(fields, k + 1, stage, keys, path, code, at);
      HasBelow(k, Locate(f.value, inner, keys), path, code, at);
      LocateIsExact(f.value, inner, keys, tail, code, at);
      OwnExact(f, k, stage, keys, path, code, at);
      Split3(own, below, later, Found(path, code, at));
    }
  }

  lemma OwnExact(f: Field, k: nat, stage: string, keys: set<string>, path: Path, code: int, at: string)
    ensures Has(Own(f, k, stage, keys), path, code, at) <==> path == [k] && CodeInField(f, [], keys) == Some(code) && at == stage
  {
  }

  lemma Split3<T>(a: seq<T>, b: seq<T>, c: seq<T>, x: T)
    ensures x in a + b + c <==> x in a || x in b || x in c
  {
  }

  lemma {:induction false} ItemsExact(items: seq<Value>, k: nat, stage: string, keys: set<string>, path: Path, code: int, at: string)
    requires k <= |items|
    ensures Has(LocateItems(items, k, stage, keys), path, code, at) <==>
      && path != [] && k <= path[0] < |items|
      && CodeAt(items[path[0]], path[1..], keys) == Some(code) && at == StageAt(Arr(items), path, stage)
    decreases items, |items| - k
  {
    hide Locate, ItemStage, Below;
    if k < |items| {
      var inner := ItemStage(stage, k);
      var tail := if path == [] then [] else path[1..];
      ItemsExact(items, k + 1, stage, keys, path, code, at);
      HasBelow(k, Locate(items[k], inner, keys), path, code, at);
      LocateIsExact(items[k], inner, keys, tail, code, at);
    }
  }

  // ----- In document order -----

  ghost predicate InOrder(found: seq<Found>) {
    forall i, j :: 0 <= i < j < |found| ==> Before(found[i].path, found[j].path)
  }

  /** All paths start at child `lo` or later. */
  ghost predicate StartsFrom(found: seq<Found>, lo: nat) {
    forall i :: 0 <= i < |found| ==> found[i].path != [] && found[i].path[0] >= lo
  }

  lemma BelowInOrder(k: nat, found: seq<Found>)
    requires InOrder(found)
    ensures InOrder(Below(k, found)) && StartsFrom(Below(k, found), k)
  {
    var below := Below(k, found);
    forall i, j | 0 <= i < j < |below| ensures Before(below[i].path, below[j].path) {
      assert below[i].path[1..] == found[i].path && below[j].path[1..] == found[j].path;
    }
  }

  /** Codes of one child, then those of later children. */
  lemma ChildThenLater(k: nat, below: seq<Found>, later: seq<Found>)
    requires InOrder(below) && InOrder(later) && StartsFrom(later, k + 1)
    requires forall i :: 0 <= i < |below| ==> below[i].path != [] && below[i].path[0] == k
    ensures InOrder(below + later) && StartsFrom(below + later, k)
  {
  }

  /** A field's own code stands before the codes below it. */
  lemma OwnThenBelow(k: nat, own: seq<Found>, child: seq<Found>)
    requires |own| <= 1 && (own != [] ==> own[0].path == [k])
    requires InOrder(child) && forall i :: 0 <= i < |child| ==> child[i].path != []
    ensures InOrder(own + Below(k, child))
    ensures forall i :: 0 <= i < |own + Below(k, child)| ==>
      (own + Below(k, child))[i].path != [] && (own + Below(k, child))[i].path[0] == k
  {
    BelowInOrder(k, child);
    var below, all := Below(k, child), own + Below(k, child);
    forall i, j | 0 <= i < j < |all| ensures Before(all[i].path, all[j].path) {
      if i < |own| {
        var p := all[j].path;
        assert p[1..] == child[j - |own|].path && [k][1..] == [];
      } else {
        assert all[i] == below[i - |own|] && all[j] == below[j - |own|];
      }
    }
  }

  /** The traversal is in document order, so no position is reported twice. */
  lemma {:induction false} LocateInOrder(v: Value, stage: string, keys: set<string>)
    ensures InOrder(Locate(v, stage, keys)) && StartsFrom(Locate(v, stage, keys), 0)
    decreases v, 0
  {
    match v
    case Obj(fields) => FieldsInOrder(fields, 0, stage, keys);
    case Arr(items) => ItemsInOrder(items, 0, stage, keys);
    case _ =>
  }

  lemma {:induction false} FieldsInOrder(fields: seq<Field>, k: nat, stage: string, keys: set<string>)
    requires k <= |fields|
    ensures InOrder(LocateFields(fields, k, stage, keys)) && StartsFrom(LocateFields(fields, k, stage, keys), k)
    decreases fields, |fields| - k
  {
    if k < |fields| {
      hide Before;
      var f := fields[k];
      var inner := FieldStage(stage, f.key);
      LocateInOrder(f.value, inner, keys);
      FieldsInOrder(fields, k + 1, stage, keys);
      var own, child := Own(f, k, stage, keys), Locate(f.value, inner, keys);
      OwnThenBelow(k, own, child);
      ChildThenLater(k, own + Below(k, child), LocateFields(fields, k + 1, stage, keys));
    }
  }

  lemma {:induction false} ItemsInOrder(items: seq<Value>, k: nat, stage: string, keys: set<string>)
    requires k <= |items|
    ensures InOrder(LocateItems(items, k, stage, keys)) && StartsFrom(LocateItems(items, k, stage, keys), k)
    decreases items, |items| - k
  {
    if k < |items| {
      hide Before;
      var inner := ItemStage(stage, k);
      LocateInOrder(items[k], inner, keys);
      ItemsInOrder(items, k + 1, stage, keys);
      var child := Locate(items[k], inner, keys);
      OwnThenBelow(k, [], child);
      assert [] + Below(k, child) == Below(k, child);
      ChildThenLater(k, Below(k, child), LocateItems(items, k + 1, stage, keys));
    }
  }

  // ----- The collector -----

  datatype ExitCode = ExitCode(code: int, stage: string)

  function Reported(found: seq<Found>): (r: seq<ExitCode>)
    ensures |r| == |found|
  {
    seq(|found|, i requires 0 <= i < |found| => ExitCode(found[i].code, found[i].stage))
  }

  lemma ReportedConcat(a: seq<Found>, b: seq<Found>)
    ensures Reported(a + b) == Reported(a) + Reported(b)
  {
  }

  lemma ReportedBelow(k: nat, found: seq<Found>)
    ensures Reported(Below(k, found)) == Reported(found)
  {
  }

  /** `collect_exit_codes_recursive` and its action-phase twin, which differ in the keys alone. */
  method Collect(value: Value, path: string, keys: set<string>, before: seq<ExitCode>) returns (out: seq<ExitCode>)
    ensures out == before + Reported(Locate(value, path, keys))
    decreases value
  {
    hide ValueI64, FieldStage, ItemStage, Locate, LocateFields, LocateItems, Reported, Own;
    LocateStarts(value, path, keys);
    out := before;
    match value
    case Obj(fields) =>
      for k := 0 to |fields|
        invariant out + Reported(LocateFields(fields, k, path, keys)) == before + Reported(LocateFields(fields, 0, path, keys))
      {
        var key, child := fields[k].key, fields[k].value;
        var stage := FieldStage(path, key);
        OwnReported(fields[k], k, path, keys);
        FieldReported(fields, k, path, keys, out);
        NothingMore(out);
        if key in keys {
          var code := ValueI64(child);
          if code.Some? {
            out := out + [ExitCode(code.value, path)];
          }
        }
        out := Collect(child, stage, keys, out);
      }
      NoFieldsLeft(fields, path, keys);
      NothingMore(out);
    case Arr(items) =>
      for k := 0 to |items|
        invariant out + Reported(LocateItems(items, k, path, keys)) == before + Reported(LocateItems(items, 0, path, keys))
      {
        ItemReported(items, k, path, keys, out);
        out := Collect(items[k], ItemStage(path, k), keys, out);
      }
      NoItemsLeft(items, path, keys);
      NothingMore(out);
    case _ =>
      NothingMore(out);
  }

  lemma LocateStarts(v: Value, stage: string, keys: set<string>)
    ensures match v
      case Obj(fields) => Locate(v, stage, keys) == LocateFields(fields, 0, stage, keys)
      case Arr(items) => Locate(v, stage, keys) == LocateItems(items, 0, stage, keys)
      case _ => Reported(Locate(v, stage, keys)) == []
  {
  }

  lemma OwnReported(f: Field, k: nat, stage: string, keys: set<string>)
    ensures Reported(Own(f, k, stage, keys)) ==
      if f.key in keys && ValueI64(f.value).Some? then [ExitCode(ValueI64(f.value).value, stage)] else []
  {
    hide ValueI64;
  }

  lemma NoFieldsLeft(fields: seq<Field>, stage: string, keys: set<string>)
    ensures Reported(LocateFields(fields, |fields|, stage, keys)) == []
  {
  }

  lemma NoItemsLeft(items: seq<Value>, stage: string, keys: set<string>)
    ensures Reported(LocateItems(items, |items|, stage, keys)) == []
  {
  }

  lemma NothingMore<T>(a: seq<T>)
    ensures a + [] == a
  {
  }

  lemma FieldReported(fields: seq<Field>, k: nat, stage: string, keys: set<string>, start: seq<ExitCode>)
    requires k < |fields|
    ensures var f := fields[k];
      start + Reported(LocateFields(fields, k, stage, keys)) ==
      start + Reported(Own(f, k, stage, keys)) + Reported(Locate(f.value, FieldStage(stage, f.key), keys))
      + Reported(LocateFields(fields, k + 1, stage, keys))
  {
    hide Locate, Reported, Below, Own;
    var f := fields[k];
    var own, child, later := Own(f, k, stage, keys), Locate(f.value, FieldStage(stage, f.key), keys), LocateFields(fields, k + 1, stage, keys);
    ReportedBelow(k, child);
    ReportedConcat(own, Below(k, child));
    ReportedConcat(own + Below(k, child), later);
    Assoc4(start, Reported(own), Reported(child), Reported(later));
  }

  lemma Assoc4<T>(a: seq<T>, b: seq<T>, c: seq<T>, d: seq<T>)
    ensures a + ((b + c) + d) == ((a + b) + c) + d
  {
  }

  lemma ItemReported(items: seq<Value>, k: nat, stage: string, keys: set<string>, start: seq<ExitCode>)
    requires k < |items|
    ensures start + Reported(LocateItems(items, k, stage, keys)) ==
      start + Reported(Locate(items[k], ItemStage(stage, k), keys)) + Reported(LocateItems(items, k + 1, stage, keys))
  {
    hide Locate, Reported, Below;
    var child, later := Locate(items[k], ItemStage(stage, k), keys), LocateItems(items, k + 1, stage, keys);
    ReportedBelow(k, child);
    ReportedConcat(Below(k, child), later);
    assert start + (Reported(child) + Reported(later)) == start + Reported(child) + Reported(later);
  }

  /** `.find(|exit| exit.code != 0)` on the collected list. */
  method FirstNonzero(v: Value, keys: set<string>) returns (r: Option<ExitCode>)
    ensures r == FirstFailure(Reported(Locate(v, "", keys)))
  {
    var codes := Collect(v, "", keys, []);
    for i := 0 to |codes|
      invariant FirstFailure(codes[i..]) == FirstFailure(codes)
    {
      if codes[i].code != 0 {
        return Some(codes[i]);
      }
    }
    r := None;
  }

  function FirstFailure(codes: seq<ExitCode>): Option<ExitCode> {
    if codes == [] then None else if codes[0].code != 0 then Some(codes[0]) else FirstFailure(codes[1..])
  }

  // ----- The verdict -----

  datatype Verdict =
    | Accepted
    | StatedError
    | ExitFailure(exit: ExitCode)
    | ActionFailure(action: ExitCode)
    | Aborted

  predicate StatesError(resp: Value) {
    Get(resp, "error").Some? && !Get(resp, "error").value.Null?
  }

  predicate StatesAborted(resp: Value) {
    Get(resp, "result").Some? && Get(Get(resp, "result").value, "aborted") == Some(Bool(true))
  }

  /** `validate_onchain_submit_response`: an accepted response is returned as it came, a rejected one
      sanitised. Looking the stated error up again in the sanitised payload cannot fail. */
  method Validate(resp: Value) returns (r: Verdict, payload: Value, stated: Option<Value>)
    ensures r == Judge(resp)
    ensures if r.Accepted? then payload == resp else Sanitize.IsSanitized(resp, payload)
    ensures stated == if r.StatedError? then Get(payload, "error") else None
    ensures r.StatedError? ==> stated.Some?
  {
    hide Locate, Sanitize.Sanitized;
    var error := Get(resp, "error");
    payload, stated := resp, None;
    if error.Some? && !error.value.Null? {
      payload := Sanitize.SanitizePayload(resp);
      KeySurvives(resp, payload, "error");
      stated := Some(Get(payload, "error").value);
      return StatedError, payload, stated;
    }
    var exit := FirstNonzero(resp, EXIT_KEYS);
    if exit.Some? {
      payload := Sanitize.SanitizePayload(resp);
      return ExitFailure(exit.value), payload, None;
    }
    var action := FirstNonzero(resp, ACTION_KEYS);
    if action.Some? {
      payload := Sanitize.SanitizePayload(resp);
      return ActionFailure(action.value), payload, None;
    }
    if StatesAborted(resp) {
      payload := Sanitize.SanitizePayload(resp);
      return Aborted, payload, None;
    }
    r := Accepted;
  }

  /** Sanitising keeps every key of an object. */
  lemma KeySurvives(v: Value, w: Value, key: string)
    requires Sanitize.IsSanitized(v, w)
    ensures Get(v, key).Some? <==> Get(w, key).Some?
  {
    hide Sanitize.Sanitized;
    var order :| Sanitize.MaskingOrder(order, Sanitize.EchoSecrets(v)) && w == Sanitize.Sanitized(v, order);
    Sanitize.SanitizingKeepsShape(v, order);
    if v.Obj? {
      FieldSurvives(v.fields, w.fields, key);
    }
  }

  lemma {:induction false} FieldSurvives(a: seq<Field>, b: seq<Field>, key: string)
    requires Sanitize.SameFields(a, b)
    ensures GetFrom(a, key).Some? <==> GetFrom(b, key).Some?
  {
    if a != [] {
      FieldSurvives(a[1..], b[1..], key);
    }
  }

  function Judge(resp: Value): Verdict {
    var exit, action := FirstFailure(Reported(Locate(resp, "", EXIT_KEYS))), FirstFailure(Reported(Locate(resp, "", ACTION_KEYS)));
    if StatesError(resp) then StatedError
    else if exit.Some? then ExitFailure(exit.value)
    else if action.Some? then ActionFailure(action.value)
    else if StatesAborted(resp) then Aborted
    else Accepted
  }

  /** The value of the field with a code key at a position, whether or not it can be read as a code. */
  function KeyedAt(v: Value, path: Path, keys: set<string>): Option<Value>
    decreases |path|, 0
  {
    if path == [] then None
    else match v
      case Obj(fields) => if path[0] < |fields| then KeyedInField(fields[path[0]], path[1..], keys) else None
      case Arr(items) => if path[0] < |items| then KeyedAt(items[path[0]], path[1..], keys) else None
      case _ => None
  }

  function KeyedInField(f: Field, path: Path, keys: set<string>): Option<Value>
    decreases |path|, 1
  {
    if path == [] then (if f.key in keys then Some(f.value) else None) else KeyedAt(f.value, path, keys)
  }

  function Read(x: Option<Value>): Option<int> {
    match x case None => None case Some(value) => ValueI64(value)
  }

  /** A code is such a value that can be read. */
  lemma {:induction false} CodeIsKeyed(v: Value, path: Path, keys: set<string>)
    ensures CodeAt(v, path, keys) == Read(KeyedAt(v, path, keys))
    decreases |path|
  {
    hide ValueI64;
    if path != [] {
      match v
      case Obj(fields) =>
        if path[0] < |fields| {
          CodeIsKeyed(fields[path[0]].value, path[1..], keys);
        }
      case Arr(items) =>
        if path[0] < |items| {
          CodeIsKeyed(items[path[0]], path[1..], keys);
        }
      case _ =>
    }
  }

  predicate IsHarmless(code: Option<int>) {
    code == None || code == Some(0)
  }

  /** Every field with a code key, at any depth, holds zero or something that is not read as a code. */
  ghost predicate Harmless(v: Value, keys: set<string>) {
    forall path: Path :: IsHarmless(Read(KeyedAt(v, path, keys)))
  }

  lemma HarmlessMeans(v: Value, keys: set<string>)
    ensures AllZero(v, keys) <==> Harmless(v, keys)
  {
    hide CodeAt, KeyedAt, Read;
    forall path: Path ensures CodeAt(v, path, keys) == Read(KeyedAt(v, path, keys)) {
      CodeIsKeyed(v, path, keys);
    }
    if AllZero(v, keys) {
      forall path: Path ensures IsHarmless(Read(KeyedAt(v, path, keys))) {
        CodeIsKeyed(v, path, keys);
        if CodeAt(v, path, keys).Some? {
          var code := CodeAt(v, path, keys).value;
          assert CodeAt(v, path, keys) == Some(code);
        }
      }
    }
  }

  /** Every code at any depth is zero. */
  ghost predicate AllZero(v: Value, keys: set<string>) {
    forall path: Path, code :: CodeAt(v, path, keys) == Some(code) ==> code == 0
  }

  /** `exit` is the failure whose position comes first in the document. */
  ghost predicate IsFirstFailure(v: Value, keys: set<string>, exit: ExitCode) {
    exists path: Path ::
      && CodeAt(v, path, keys) == Some(exit.code) && exit.code != 0 && exit.stage == StageAt(v, path, "")
      && forall q: Path, code :: CodeAt(v, q, keys) == Some(code) && code != 0 ==> q == path || Before(path, q)
  }

  /** The index `FirstFailure` stops at. */
  lemma {:induction false} FirstFailureIndex(codes: seq<ExitCode>) returns (i: nat)
    ensures i <= |codes| && forall j :: 0 <= j < i ==> codes[j].code == 0
    ensures FirstFailure(codes) == if i < |codes| then Some(codes[i]) else None
    ensures i < |codes| ==> codes[i].code != 0
  {
    if codes == [] || codes[0].code != 0 {
      i := 0;
    } else {
      var k := FirstFailureIndex(codes[1..]);
      i := k + 1;
    }
  }

  lemma FirstFailureMeans(v: Value, keys: set<string>)
    ensures var r := FirstFailure(Reported(Locate(v, "", keys)));
      if r.None? then AllZero(v, keys) else IsFirstFailure(v, keys, r.value)
  {
    hide Locate, CodeAt, StageAt, Before;
    var found := Locate(v, "", keys);
    var i := FirstFailureIndex(Reported(found));
    LocateInOrder(v, "", keys);
    forall q: Path, code | CodeAt(v, q, keys) == Some(code) && code != 0
      ensures exists j :: i <= j < |found| && found[j].path == q && found[j].code == code
    {
      LocateIsExact(v, "", keys, q, code, StageAt(v, q, ""));
      var j :| 0 <= j < |found| && found[j] == Found(q, code, StageAt(v, q, ""));
      assert Reported(found)[j].code == code;
    }
    if i < |found| {
      var f := found[i];
      assert f in found && f == Found(f.path, f.code, f.stage);
      LocateIsExact(v, "", keys, f.path, f.code, f.stage);
    }
  }

  /** `x` is what an object holds under a key. */
  ghost predicate Holds(v: Value, key: string, x: Value) {
    v.Obj? && exists k :: 0 <= k < |v.fields| && v.fields[k] == Field(key, x) && forall j :: 0 <= j < k ==> v.fields[j].key != key
  }

  lemma GetMeans(v: Value, key: string, x: Value)
    ensures Get(v, key) == Some(x) <==> Holds(v, key, x)
  {
    if v.Obj? {
      GetFromMeans(v.fields, key, x);
    }
  }

  lemma {:induction false} GetFromMeans(fields: seq<Field>, key: string, x: Value)
    ensures GetFrom(fields, key) == Some(x) <==>
      exists k :: 0 <= k < |fields| && fields[k] == Field(key, x) && forall j :: 0 <= j < k ==> fields[j].key != key
  {
    if fields != [] {
      var later := fields[1..];
      GetFromMeans(later, key, x);
      assert forall i :: 0 <= i < |later| ==> later[i] == fields[i + 1];
      if k :| 0 <= k < |later| && later[k] == Field(key, x) && forall j :: 0 <= j < k ==> later[j].key != key {
        if fields[0].key != key {
          assert fields[k + 1] == Field(key, x);
          assert forall j :: 0 <= j < k + 1 ==> fields[j].key != key;
        }
      }
      if k :| 0 < k < |fields| && fields[k] == Field(key, x) && forall j :: 0 <= j < k ==> fields[j].key != key {
        assert later[k - 1] == Field(key, x);
      }
    }
  }

  /** The response holds an error that is not null. */
  ghost predicate HoldsError(resp: Value) {
    exists x :: Holds(resp, "error", x) && x != Null
  }

  /** The response holds a result that says it was aborted. */
  ghost predicate HoldsAborted(resp: Value) {
    exists r :: Holds(resp, "result", r) && Holds(r, "aborted", Bool(true))
  }

  lemma StatedMeans(resp: Value)
    ensures StatesError(resp) <==> HoldsError(resp)
    ensures StatesAborted(resp) <==> HoldsAborted(resp)
  {
    hide Get, Holds;
    forall key, x ensures Get(resp, key) == Some(x) <==> Holds(resp, key, x) {
      GetMeans(resp, key, x);
    }
    forall r: Value ensures Get(r, "aborted") == Some(Bool(true)) <==> Holds(r, "aborted", Bool(true)) {
      GetMeans(r, "aborted", Bool(true));
    }
    if StatesError(resp) {
      assert Holds(resp, "error", Get(resp, "error").value);
    }
    if StatesAborted(resp) {
      assert Holds(resp, "result", Get(resp, "result").value);
    }
  }

  /** The five verdicts, each exactly when: a stated error, a harmful exit code at any depth, a harmful
      action code, an abort, or none of them. The failure reported is the first one in the document. */
  lemma JudgeMeans(resp: Value)
    ensures var e, x, a := HoldsError(resp), Harmless(resp, EXIT_KEYS), Harmless(resp, ACTION_KEYS);
      && (Judge(resp).StatedError? <==> e)
      && (Judge(resp).ExitFailure? <==> !e && !x)
      && (Judge(resp).ActionFailure? <==> !e && x && !a)
      && (Judge(resp).Aborted? <==> !e && x && a && HoldsAborted(resp))
      && (Judge(resp).Accepted? <==> !e && x && a && !HoldsAborted(resp))
    ensures Judge(resp).ExitFailure? ==> IsFirstFailure(resp, EXIT_KEYS, Judge(resp).exit)
    ensures Judge(resp).ActionFailure? ==> IsFirstFailure(resp, ACTION_KEYS, Judge(resp).action)
  {
    hide Locate, CodeAt, StageAt, Before, FirstFailure, StatesError, StatesAborted, HoldsError, HoldsAborted, AllZero, Harmless;
    StatedMeans(resp);
    FirstFailureMeans(resp, EXIT_KEYS);
    FirstFailureMeans(resp, ACTION_KEYS);
    FailureIsNotZero(resp, EXIT_KEYS);
    FailureIsNotZero(resp, ACTION_KEYS);
    HarmlessMeans(resp, EXIT_KEYS);
    HarmlessMeans(resp, ACTION_KEYS);
  }

  lemma FailureIsNotZero(resp: Value, keys: set<string>)
    ensures var r := FirstFailure(Reported(Locate(resp, "", keys))); r.Some? ==> !AllZero(resp, keys)
  {
    hide Locate, CodeAt, StageAt, Before, FirstFailure;
    FirstFailureMeans(resp, keys);
  }

  // ----- Lone fields -----

  lemma LoneHolds(f: Field, key: string, x: Value)
    ensures Holds(Obj([f]), key, x) <==> f == Field(key, x)
  {
    assert [f][0] == f;
  }

  lemma LoneField(f: Field, keys: set<string>)
    ensures Harmless(Obj([f]), keys) <==> (f.key in keys ==> IsHarmless(ValueI64(f.value))) && Harmless(f.value, keys)
  {
    hide ValueI64;
    var resp := Obj([f]);
    forall path: Path ensures KeyedAt(resp, path, keys) ==
      if path == [] || path[0] != 0 then None
      else if |path| == 1 then (if f.key in keys then Some(f.value) else None)
      else KeyedAt(f.value, path[1..], keys)
    {
      if path != [] && path[0] == 0 {
        assert KeyedAt(resp, path, keys) == KeyedInField(f, path[1..], keys);
      }
    }
    assert [0][1..] == [];
    assert f.key in keys ==> Read(KeyedAt(resp, [0], keys)) == ValueI64(f.value);
    forall path: Path | Harmless(resp, keys) ensures IsHarmless(Read(KeyedAt(f.value, path, keys))) {
      if path != [] {
        assert ([0] + path)[1..] == path;
        assert KeyedAt(resp, [0] + path, keys) == KeyedAt(f.value, path, keys);
      }
    }
  }

  lemma ScalarIsHarmless(x: Value, keys: set<string>)
    requires !x.Obj? && !x.Arr?
    ensures Harmless(x, keys)
  {
  }

  /** None of the code keys is `error`, `result` or `aborted`, and the two kinds are apart. */
  lemma KeysAreApart(key: string)
    ensures key in EXIT_KEYS <==> key in ["exit_code", "exitCode", "vm_exit_code", "vmExitCode"]
    ensures key in ACTION_KEYS <==> key in ["result_code", "resultCode", "action_result_code", "actionResultCode"]
    ensures key in EXIT_KEYS ==> |key| > 7 && key !in ACTION_KEYS
    ensures key in ACTION_KEYS ==> |key| > 7
  {
    if key in EXIT_KEYS {
      assert key[0] == 'e' || key[0] == 'v';
    }
    if key in ACTION_KEYS {
      assert key[0] == 'r' || key[0] == 'a';
    }
  }

  /** A response that is one exit code is refused with that code exactly if it is read and not zero. */
  lemma LoneExitCode(key: string, x: Value)
    requires key in ["exit_code", "exitCode", "vm_exit_code", "vmExitCode"] && !x.Obj? && !x.Arr?
    ensures Judge(Obj([Field(key, x)])) ==
      if IsHarmless(ValueI64(x)) then Accepted else ExitFailure(ExitCode(ValueI64(x).value, ""))
  {
    hide ValueI64, Harmless, Judge, HoldsError, HoldsAborted, IsFirstFailure;
    KeysAreApart(key);
    LoneCode(Field(key, x));
    if !IsHarmless(ValueI64(x)) {
      LoneFailure(Field(key, x), EXIT_KEYS, Judge(Obj([Field(key, x)])).exit);
    }
  }

  /** The same for an action code. */
  lemma LoneActionCode(key: string, x: Value)
    requires key in ["result_code", "resultCode", "action_result_code", "actionResultCode"] && !x.Obj? && !x.Arr?
    ensures Judge(Obj([Field(key, x)])) ==
      if IsHarmless(ValueI64(x)) then Accepted else ActionFailure(ExitCode(ValueI64(x).value, ""))
  {
    hide ValueI64, Harmless, Judge, HoldsError, HoldsAborted, IsFirstFailure;
    KeysAreApart(key);
    LoneCode(Field(key, x));
    if !IsHarmless(ValueI64(x)) {
      LoneFailure(Field(key, x), ACTION_KEYS, Judge(Obj([Field(key, x)])).action);
    }
  }

  lemma LoneCode(f: Field)
    requires !f.value.Obj? && !f.value.Arr? && (f.key in EXIT_KEYS || f.key in ACTION_KEYS)
    ensures var r, bad := Judge(Obj([f])), !IsHarmless(ValueI64(f.value));
      && (r.ExitFailure? <==> f.key in EXIT_KEYS && bad) && (r.ActionFailure? <==> f.key in ACTION_KEYS && bad)
      && (r.Accepted? <==> !bad)
      && (r.ExitFailure? ==> IsFirstFailure(Obj([f]), EXIT_KEYS, r.exit))
      && (r.ActionFailure? ==> IsFirstFailure(Obj([f]), ACTION_KEYS, r.action))
  {
    hide ValueI64, Harmless, Judge, Holds, IsFirstFailure;
    KeysAreApart(f.key);
    JudgeMeans(Obj([f]));
    LoneField(f, EXIT_KEYS);
    LoneField(f, ACTION_KEYS);
    ScalarIsHarmless(f.value, EXIT_KEYS);
    ScalarIsHarmless(f.value, ACTION_KEYS);
    assert |"error"| == 5 && |"result"| == 6;
    forall x ensures !Holds(Obj([f]), "error", x) && !Holds(Obj([f]), "result", x) {
      LoneHolds(f, "error", x);
      LoneHolds(f, "result", x);
    }
  }

  lemma LoneFailure(f: Field, keys: set<string>, exit: ExitCode)
    requires IsFirstFailure(Obj([f]), keys, exit) && !f.value.Obj? && !f.value.Arr?
    ensures exit.stage == "" && ValueI64(f.value) == Some(exit.code)
  {
    hide ValueI64, Before;
    var v := Obj([f]);
    var path: Path :| CodeAt(v, path, keys) == Some(exit.code) && exit.stage == StageAt(v, path, "");
    ScalarFieldCode(f, path, keys);
  }

  lemma ScalarFieldCode(f: Field, path: Path, keys: set<string>)
    requires !f.value.Obj? && !f.value.Arr?
    ensures CodeAt(Obj([f]), path, keys) == if |path| == 1 && path[0] == 0 && f.key in keys then ValueI64(f.value) else None
  {
    hide ValueI64;
    if path != [] && path[0] == 0 {
      assert CodeAt(Obj([f]), path, keys) == CodeInField(f, path[1..], keys);
      assert path[1..] != [] ==> CodeInField(f, path[1..], keys) == CodeAt(f.value, path[1..], keys);
    }
  }

  /** One that does not fit 64 bits cannot be read: a failure is passed over. */
  lemma HugeExitCodeIsAccepted()
    ensures Judge(Obj([Field("exit_code", Num(Int(0x8000_0000_0000_0000)))])).Accepted?
  {
    hide Judge;
    LoneExitCode("exit_code", Num(Int(0x8000_0000_0000_0000)));
  }

  /** A response that only says whether it was aborted is refused exactly if it says so. */
  lemma LoneAborted(x: Value)
    requires !x.Obj? && !x.Arr?
    ensures Judge(Obj([Field("result", Obj([Field("aborted", x)]))])) == if x == Bool(true) then Aborted else Accepted
  {
    hide ValueI64, Harmless, Judge, Holds;
    var f := Field("aborted", x);
    var g := Field("result", Obj([f]));
    QuietField(f);
    QuietField(g);
    JudgeMeans(Obj([g]));
    assert |"error"| == 5;
    forall y ensures !Holds(Obj([g]), "error", y) && (Holds(Obj([g]), "result", y) <==> y == Obj([f])) {
      LoneHolds(g, "error", y);
      LoneHolds(g, "result", y);
    }
    LoneHolds(f, "aborted", Bool(true));
  }

  lemma QuietField(f: Field)
    requires |f.key| <= 7
    ensures Harmless(Obj([f]), EXIT_KEYS) <==> Harmless(f.value, EXIT_KEYS)
    ensures Harmless(Obj([f]), ACTION_KEYS) <==> Harmless(f.value, ACTION_KEYS)
    ensures !f.value.Obj? && !f.value.Arr? ==> Harmless(Obj([f]), EXIT_KEYS) && Harmless(Obj([f]), ACTION_KEYS)
  {
    hide Harmless, ValueI64;
    KeysAreApart(f.key);
    LoneField(f, EXIT_KEYS);
    LoneField(f, ACTION_KEYS);
    if !f.value.Obj? && !f.value.Arr? {
      ScalarIsHarmless(f.value, EXIT_KEYS);
      ScalarIsHarmless(f.value, ACTION_KEYS);
    }
  }

  /** A response that only states an error is refused exactly unless it is null. */
  lemma {:induction false} LoneError(x: Value)
    ensures Judge(Obj([Field("error", x)])) == StatedError <==> x != Null
    ensures Judge(Obj([Field("error", Null)])) == Accepted
  {
    hide ValueI64, Harmless, Judge, Holds;
    var f, g := Field("error", x), Field("error", Null);
    JudgeMeans(Obj([f]));
    JudgeMeans(Obj([g]));
    QuietField(g);
    assert |"result"| == 6 && |"error"| == 5;
    LoneHolds(f, "error", x);
    forall y ensures Holds(Obj([f]), "error", y) <==> y == x {
      LoneHolds(f, "error", y);
    }
    assert HoldsError(Obj([f])) <==> x != Null;
    forall y ensures !Holds(Obj([g]), "result", y) && (Holds(Obj([g]), "error", y) <==> y == Null) {
      LoneHolds(g, "error", y);
      LoneHolds(g, "result", y);
    }
  }
}
