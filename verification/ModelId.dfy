/** The canonical model-id grammar
    `producer--model--version[--unit][--w<N>k][--<N>p][--tools][--think][--<precision>]`. */
module ModelId {
  import opened Numbers
  import opened Text

  const MODEL_NAME_MAX_BYTES: nat := 127
  const SEP: string := "--"
  const SLOTS: nat := 6

  // ----- Splitting and joining at `--` -----

  /** `str::split("--")`. */
  function Split(s: string): (parts: seq<string>)
    ensures parts != []
    decreases |s|
  {
    match Find(s, SEP) case None => [s] case Some(n) => [s[..n]] + Split(s[n + 2..])
  }

  function Join(parts: seq<string>): string
    requires parts != []
  {
    if |parts| == 1 then parts[0] else parts[0] + SEP + Join(parts[1..])
  }

  predicate EndsInDash(s: string) {
    s != "" && s[|s| - 1] == '-'
  }

  /** The parts a join can be split back into: no part holds the separator, and no part before a
      separator ends in a dash. */
  ghost predicate Separable(parts: seq<string>) {
    && (forall i :: 0 <= i < |parts| ==> Find(parts[i], SEP).None?)
    && (forall i :: 0 <= i < |parts| - 1 ==> !EndsInDash(parts[i]))
  }

  lemma {:induction false} JoinSplit(s: string)
    ensures Join(Split(s)) == s
    decreases |s|
  {
    hide Find, Join;
    match Find(s, SEP)
    case None => JoinOne(s);
    case Some(n) =>
      JoinSplit(s[n + 2..]);
      JoinCons(s[..n], Split(s[n + 2..]));
      AroundSeparator(s, n);
  }

  lemma JoinOne(s: string)
    ensures Join([s]) == s
  {
  }

  lemma JoinCons(first: string, parts: seq<string>)
    requires parts != []
    ensures Join([first] + parts) == first + SEP + Join(parts)
  {
    assert ([first] + parts)[1..] == parts;
  }

  lemma AroundSeparator(s: string, n: nat)
    requires Find(s, SEP) == Some(n)
    ensures s == s[..n] + SEP + s[n + 2..]
  {
    hide Find;
    FindHit(s, SEP);
    assert s[n..n + 2] == s[n..][..2] == SEP;
    assert s == s[..n] + s[n..n + 2] + s[n + 2..];
  }

  /** The leftmost separator leaves a part without one, which does not end in a dash. */
  lemma FirstPartIsClean(s: string, n: nat)
    requires Find(s, SEP) == Some(n)
    ensures Find(s[..n], SEP).None? && !EndsInDash(s[..n])
  {
    FindHit(s, SEP);
    if Find(s[..n], SEP).Some? {
      var k := Find(s[..n], SEP).value;
      FindHit(s[..n], SEP);
      assert SEP <= s[k..] by { assert s[..n][k..][..2] == s[k..][..2]; }
      FindIsFirst(s, SEP, k);
    }
    if EndsInDash(s[..n]) {
      assert s[n] == s[n..][0] == '-';
      assert s[n - 1..][0] == '-' && s[n - 1..][1] == '-';
      FindIsFirst(s, SEP, n - 1);
    }
  }

  lemma {:induction false} SplitIsSeparable(s: string)
    ensures Separable(Split(s))
    decreases |s|
  {
    hide Find, EndsInDash;
    match Find(s, SEP)
    case None =>
    case Some(n) =>
      FirstPartIsClean(s, n);
      SplitIsSeparable(s[n + 2..]);
      SeparableCons(s[..n], Split(s[n + 2..]));
  }

  lemma SeparableCons(first: string, parts: seq<string>)
    requires Find(first, SEP).None? && !EndsInDash(first) && Separable(parts)
    ensures Separable([first] + parts)
  {
    hide Find, EndsInDash;
  }

  /** Where the separator is found in a clean part followed by one. */
  lemma {:induction false} FindAfterClean(p: string, rest: string)
    requires Find(p, SEP).None? && !EndsInDash(p)
    ensures Find(p + SEP + rest, SEP) == Some(|p|)
  {
    var s := p + SEP + rest;
    if p == "" {
      assert s[..2] == SEP;
    } else {
      assert s[1..] == p[1..] + SEP + rest;
      FindAfterClean(p[1..], rest);
      assert s[0] == p[0] && (|p| >= 2 ==> s[1] == p[1]);
      assert !(SEP <= p);
      assert SEP <= s <==> s[0] == '-' && s[1] == '-';
    }
  }

  lemma {:induction false} SplitJoin(parts: seq<string>)
    requires parts != [] && Separable(parts)
    ensures Split(Join(parts)) == parts
  {
    hide Find, Split;
    if |parts| == 1 {
      SplitNothing(parts[0]);
      assert parts == [parts[0]];
    } else {
      FindAfterClean(parts[0], Join(parts[1..]));
      SplitOne(parts[0], Join(parts[1..]));
      SplitJoin(parts[1..]);
      assert parts == [parts[0]] + parts[1..];
    }
  }

  lemma SplitNothing(s: string)
    requires Find(s, SEP).None?
    ensures Split(s) == [s]
  {
    hide Find;
  }

  lemma SplitOne(p: string, rest: string)
    requires Find(p + SEP + rest, SEP) == Some(|p|)
    ensures Split(p + SEP + rest) == [p] + Split(rest)
  {
    hide Find;
    var s := p + SEP + rest;
    assert s[..|p|] == p && s[|p| + 2..] == rest;
  }

  /** Splitting undoes joining exactly on separable parts. */
  lemma SplitUndoesJoin(parts: seq<string>)
    requires parts != []
    ensures Split(Join(parts)) == parts <==> Separable(parts)
  {
    if Separable(parts) {
      SplitJoin(parts);
    } else {
      SplitIsSeparable(Join(parts));
    }
  }

  // ----- Flag tokens -----

  datatype FlagError = PackingFormat | MalformedWindow | UnknownFlag

  datatype Slot = Slot(index: nat) | BadFlag(error: FlagError)

  /** The number of `w<N>k` is positive, fits 64 bits and has no leading zero. */
  predicate CanonicalCount(digits: string) {
    && digits != "" && AllDigits(digits)
    && 0 < Value(digits) <= U64_MAX && Decimal(Value(digits)) == digits
  }

  predicate IsWindow(token: string) {
    && |token| >= 2 && token[0] == 'w' && token[|token| - 1] == 'k'
    && CanonicalCount(token[1..|token| - 1])
  }

  /** `parse_model_flag`. */
  function ParseFlag(token: string): Slot {
    if token in ["sec", "min", "img", "frame"] then Slot(0)
    else if token in ["480p", "720p", "1080p", "2160p"] then Slot(2)
    else if token == "tools" then Slot(3)
    else if token == "think" then Slot(4)
    else if token in ["fp32", "bf16", "fp16", "fp8", "int8", "int4"] then Slot(5)
    else if token in ["gptq", "awq", "gguf", "Q4_K_M"] then BadFlag(PackingFormat)
    else if token != "" && token[0] == 'w' then (if IsWindow(token) then Slot(1) else BadFlag(MalformedWindow))
    else BadFlag(UnknownFlag)
  }

  predicate NoDash(s: string) {
    forall i :: 0 <= i < |s| ==> s[i] != '-'
  }

  lemma FlagsHaveNoDash(token: string)
    requires ParseFlag(token).Slot?
    ensures NoDash(token) && ParseFlag(token).index < SLOTS
  {
    hide IsWindow;
    if ParseFlag(token).index == 1 {
      WindowHasNoDash(token);
    }
  }

  lemma WindowHasNoDash(token: string)
    requires IsWindow(token)
    ensures NoDash(token)
  {
    hide Value, Decimal;
    var digits := token[1..|token| - 1];
    assert token == "w" + digits + "k";
    assert forall i :: 0 <= i < |digits| ==> IsDigit(digits[i]);
  }

  lemma {:induction false} NoDashNoSeparator(s: string)
    requires NoDash(s)
    ensures Find(s, SEP).None? && !EndsInDash(s)
  {
    if s != "" {
      NoDashNoSeparator(s[1..]);
      assert s[0] != '-' && SEP[0] == '-';
    } else {
      assert !(SEP <= s);
    }
  }

  /** `seen`, `last_slot` and order together: every token is a flag and their slots strictly ascend. */
  ghost predicate Ascending(tokens: seq<string>) {
    && (forall i :: 0 <= i < |tokens| ==> ParseFlag(tokens[i]).Slot?)
    && (forall i, j :: 0 <= i < j < |tokens| ==> ParseFlag(tokens[i]).index < ParseFlag(tokens[j]).index)
  }

  // ----- Flags -----

  datatype Flags = Flags(
    unit: Option<string>,
    window: Option<string>,
    resolution: Option<string>,
    tools: bool,
    think: bool,
    precision: Option<string>)

  const NO_FLAGS := Flags(None, None, None, false, false, None)

  function Set(f: Flags, slot: nat, token: string): Flags {
    match slot
    case 0 => f.(unit := Some(token))
    case 1 => f.(window := Some(token))
    case 2 => f.(resolution := Some(token))
    case 3 => f.(tools := true)
    case 4 => f.(think := true)
    case _ => f.(precision := Some(token))
  }

  /** The flags after a list of tokens. */
  function Build(tokens: seq<string>): Flags
    requires forall i :: 0 <= i < |tokens| ==> ParseFlag(tokens[i]).Slot?
  {
    if tokens == [] then NO_FLAGS
    else
      var last := tokens[|tokens| - 1];
      Set(Build(tokens[..|tokens| - 1]), ParseFlag(last).index, last)
  }

  function OfOption(o: Option<string>): seq<string> {
    match o case None => [] case Some(t) => [t]
  }

  function OfBool(b: bool, t: string): seq<string> {
    if b then [t] else []
  }

  /** The token of one slot, if it is set. */
  function TokenAt(f: Flags, slot: nat): seq<string> {
    match slot
    case 0 => OfOption(f.unit)
    case 1 => OfOption(f.window)
    case 2 => OfOption(f.resolution)
    case 3 => OfBool(f.tools, "tools")
    case 4 => OfBool(f.think, "think")
    case _ => OfOption(f.precision)
  }

  /** The tokens of the first `n` slots, in slot order. */
  function TokensTo(f: Flags, n: nat): seq<string> {
    if n == 0 then [] else TokensTo(f, n - 1) + TokenAt(f, n - 1)
  }

  function FlagTokens(f: Flags): seq<string> {
    TokensTo(f, SLOTS)
  }

  ghost predicate ValidFlags(f: Flags) {
    forall slot, t :: 0 <= slot < SLOTS && t in TokenAt(f, slot) ==> ParseFlag(t) == Slot(slot)
  }

  /** Setting a slot that is above every set one appends its token. */
  lemma {:induction false} SetAppends(f: Flags, slot: nat, token: string, n: nat)
    requires slot < SLOTS && n <= SLOTS && ParseFlag(token) == Slot(slot)
    requires forall k :: slot <= k < SLOTS ==> TokenAt(f, k) == []
    ensures TokensTo(Set(f, slot, token), n) == TokensTo(f, n) + if slot < n then [token] else []
  {
    hide ParseFlag, TokenAt, Set;
    if n > 0 {
      SetAppends(f, slot, token, n - 1);
      SetOne(f, slot, token, n - 1);
      assert n - 1 >= slot ==> TokenAt(f, n - 1) == [];
    }
  }

  lemma SetOne(f: Flags, slot: nat, token: string, k: nat)
    requires slot < SLOTS && k < SLOTS && ParseFlag(token) == Slot(slot)
    ensures TokenAt(Set(f, slot, token), k) == if k == slot then [token] else TokenAt(f, k)
  {
  }

  /** Parsing keeps every token: the flags built from ascending tokens give those tokens back. */
  lemma {:induction false} BuildKeepsTokens(tokens: seq<string>)
    requires Ascending(tokens)
    ensures FlagTokens(Build(tokens)) == tokens && ValidFlags(Build(tokens))
    ensures forall k :: 0 <= k < SLOTS && (tokens == [] || ParseFlag(tokens[|tokens| - 1]).index < k) ==> TokenAt(Build(tokens), k) == []
  {
    hide ParseFlag, TokenAt, Set, TokensTo;
    if tokens == [] {
      NoTokens();
    } else {
      var earlier, last := tokens[..|tokens| - 1], tokens[|tokens| - 1];
      var slot := ParseFlag(last).index;
      FlagsHaveNoDash(last);
      BuildKeepsTokens(earlier);
      var f := Build(earlier);
      SetAppends(f, slot, last, SLOTS);
      assert tokens == earlier + [last];
      forall k | 0 <= k < SLOTS ensures TokenAt(Build(tokens), k) == if k == slot then [last] else TokenAt(f, k) {
        SetOne(f, slot, last, k);
      }
    }
  }

  lemma NoTokens()
    ensures FlagTokens(NO_FLAGS) == []
    ensures forall k :: 0 <= k < SLOTS ==> TokenAt(NO_FLAGS, k) == []
  {
    assert TokensTo(NO_FLAGS, 3) == TokensTo(NO_FLAGS, 2) == TokensTo(NO_FLAGS, 1) == TokensTo(NO_FLAGS, 0);
    assert TokensTo(NO_FLAGS, 6) == TokensTo(NO_FLAGS, 5) == TokensTo(NO_FLAGS, 4) == TokensTo(NO_FLAGS, 3);
  }

  lemma AscendingAppend(earlier: seq<string>, t: string, slot: nat)
    requires Ascending(earlier) && ParseFlag(t) == Slot(slot)
    requires forall i :: 0 <= i < |earlier| ==> ParseFlag(earlier[i]).index < slot
    ensures Ascending(earlier + [t]) && Build(earlier + [t]) == Set(Build(earlier), slot, t)
  {
    hide ParseFlag;
    assert (earlier + [t])[..|earlier|] == earlier;
  }

  lemma OneTokenPerSlot(f: Flags, slot: nat)
    ensures |TokenAt(f, slot)| <= 1
  {
  }

  /** What rendering the first `n` slots and building them again gives. */
  ghost predicate Rebuilt(f: Flags, n: nat) {
    var tokens := TokensTo(f, n);
    && Ascending(tokens)
    && (forall i :: 0 <= i < |tokens| ==> ParseFlag(tokens[i]).index < n)
    && (forall k :: 0 <= k < SLOTS ==> TokenAt(Build(tokens), k) == if k < n then TokenAt(f, k) else [])
  }

  lemma RebuiltNext(f: Flags, n: nat)
    requires ValidFlags(f) && n < SLOTS && Rebuilt(f, n)
    ensures Rebuilt(f, n + 1)
  {
    hide ParseFlag, TokenAt, Ascending, Build, Rebuilt;
    var earlier, now := TokensTo(f, n), TokenAt(f, n);
    OneTokenPerSlot(f, n);
    if now == [] {
      assert earlier + now == earlier;
      RebuiltSkips(f, n);
    } else {
      assert now[0] in now && now == [now[0]];
      RebuiltAppends(f, n, now[0]);
    }
  }

  lemma RebuiltSkips(f: Flags, n: nat)
    requires n < SLOTS && Rebuilt(f, n) && TokenAt(f, n) == [] && TokensTo(f, n + 1) == TokensTo(f, n)
    ensures Rebuilt(f, n + 1)
  {
    hide ParseFlag, TokenAt, Ascending, Build, TokensTo;
  }

  lemma RebuiltAppends(f: Flags, n: nat, t: string)
    requires n < SLOTS && Rebuilt(f, n) && TokenAt(f, n) == [t] && TokensTo(f, n + 1) == TokensTo(f, n) + [t]
    requires ParseFlag(t) == Slot(n)
    ensures Rebuilt(f, n + 1)
  {
    hide ParseFlag, TokenAt, Build, TokensTo, Set;
    var earlier := TokensTo(f, n);
    AscendingAppend(earlier, t, n);
    forall k | 0 <= k < SLOTS
      ensures TokenAt(Build(earlier + [t]), k) == if k == n then [t] else TokenAt(Build(earlier), k)
    {
      SetOne(Build(earlier), n, t, k);
    }
  }

  /** And valid flags are rendered as ascending tokens that build them again. */
  lemma TokensRebuild(f: Flags)
    requires ValidFlags(f)
    ensures Ascending(FlagTokens(f)) && Build(FlagTokens(f)) == f
  {
    hide ParseFlag, TokenAt, Set, TokensTo;
    assert Rebuilt(f, 0) by { RebuiltNothing(f); }
    for n := 0 to SLOTS
      invariant Rebuilt(f, n)
    {
      RebuiltNext(f, n);
    }
    SameSlots(Build(FlagTokens(f)), f);
  }

  lemma RebuiltNothing(f: Flags)
    ensures Rebuilt(f, 0)
  {
    NoTokens();
  }

  lemma SameSlots(f: Flags, g: Flags)
    requires forall k :: 0 <= k < SLOTS ==> TokenAt(f, k) == TokenAt(g, k)
    ensures f == g
  {
    assert TokenAt(f, 0) == TokenAt(g, 0) && TokenAt(f, 1) == TokenAt(g, 1) && TokenAt(f, 2) == TokenAt(g, 2);
    assert TokenAt(f, 3) == TokenAt(g, 3) && TokenAt(f, 4) == TokenAt(g, 4) && TokenAt(f, 5) == TokenAt(g, 5);
  }

  // ----- The parser -----

  datatype CanonicalId = CanonicalId(producer: string, model: string, version: string, flags: Flags)

  datatype ParseError =
    | TooLong
    | NotCanonical
    | FlagRefused(error: FlagError)
    | Duplicate(token: string)
    | WrongOrder(token: string)

  datatype ParseResult = Parsed(id: CanonicalId) | Rejected(error: ParseError)

  predicate HasBase(parts: seq<string>) {
    |parts| >= 3 && !IsBlank(parts[0]) && !IsBlank(parts[1]) && !IsBlank(parts[2])
  }

  /** The grammar: length, three non-blank base parts, and flags in ascending slots. */
  ghost predicate InGrammar(name: string) {
    Utf8Len(name) <= MODEL_NAME_MAX_BYTES && HasBase(Split(name)) && Ascending(Split(name)[3..])
  }

  ghost function Reading(name: string): CanonicalId
    requires InGrammar(name)
  {
    var parts := Split(name);
    CanonicalId(parts[0], parts[1], parts[2], Build(parts[3..]))
  }

  /** Why a token is refused after the tokens `earlier`. */
  ghost predicate Refuses(earlier: seq<string>, token: string, error: ParseError) {
    match error
    case FlagRefused(e) => ParseFlag(token) == BadFlag(e)
    case Duplicate(t) =>
      t == token && exists j :: 0 <= j < |earlier| && ParseFlag(earlier[j]) == ParseFlag(token)
    case WrongOrder(t) =>
      && t == token && ParseFlag(token).Slot?
      && (exists j :: 0 <= j < |earlier| && ParseFlag(earlier[j]).Slot? && ParseFlag(token).index < ParseFlag(earlier[j]).index)
      && (forall j :: 0 <= j < |earlier| ==> ParseFlag(earlier[j]) != ParseFlag(token))
    case _ => false
  }

  lemma RefusalBreaksOrder(tokens: seq<string>, i: nat, error: ParseError)
    requires i < |tokens| && Refuses(tokens[..i], tokens[i], error)
    ensures !Ascending(tokens)
  {
    hide ParseFlag;
    assert forall j :: 0 <= j < i ==> tokens[..i][j] == tokens[j];
  }

  /** What the `seen` table and `last_slot` record about the tokens before. */
  ghost predicate Recorded(earlier: seq<string>, seen: seq<bool>, lastSlot: Option<nat>) {
    && |seen| == SLOTS
    && (forall k :: 0 <= k < SLOTS ==> (seen[k] <==> exists j :: 0 <= j < |earlier| && ParseFlag(earlier[j]) == Slot(k)))
    && (forall j :: 0 <= j < |earlier| ==> ParseFlag(earlier[j]).Slot?)
    && lastSlot == if earlier == [] then None else Some(ParseFlag(earlier[|earlier| - 1]).index)
  }

  lemma NothingRecorded(seen: seq<bool>)
    requires |seen| == SLOTS && forall k :: 0 <= k < SLOTS ==> !seen[k]
    ensures Recorded([], seen, None)
  {
  }

  lemma SlotSeen(earlier: seq<string>, seen: seq<bool>, lastSlot: Option<nat>, token: string, slot: nat)
    requires Recorded(earlier, seen, lastSlot) && slot < SLOTS && ParseFlag(token) == Slot(slot) && seen[slot]
    ensures Refuses(earlier, token, Duplicate(token))
  {
    hide ParseFlag;
  }

  lemma SlotTooLow(earlier: seq<string>, seen: seq<bool>, lastSlot: Option<nat>, token: string, slot: nat)
    requires Recorded(earlier, seen, lastSlot) && slot < SLOTS && ParseFlag(token) == Slot(slot) && !seen[slot]
    requires lastSlot.Some? && slot < lastSlot.value
    ensures Refuses(earlier, token, WrongOrder(token))
  {
    hide ParseFlag;
    assert earlier != [] && ParseFlag(earlier[|earlier| - 1]).Slot?;
  }

  /** A slot that is unseen and not below the last one is above all of them. */
  lemma NextAscends(earlier: seq<string>, seen: seq<bool>, lastSlot: Option<nat>, slot: nat, i: nat)
    requires Ascending(earlier) && Recorded(earlier, seen, lastSlot) && i < |earlier|
    requires slot < SLOTS && !seen[slot] && lastSlot.Some? && lastSlot.value <= slot
    ensures ParseFlag(earlier[i]).index < slot
  {
    hide ParseFlag;
    assert ParseFlag(earlier[i]).Slot? && ParseFlag(earlier[i]) != Slot(slot);
  }

  lemma RecordNext(earlier: seq<string>, seen: seq<bool>, lastSlot: Option<nat>, token: string, slot: nat)
    requires Recorded(earlier, seen, lastSlot) && slot < SLOTS && ParseFlag(token) == Slot(slot)
    ensures Recorded(earlier + [token], seen[slot := true], Some(slot))
  {
    hide ParseFlag;
    var more := earlier + [token];
    assert more[|earlier|] == token && forall j :: 0 <= j < |earlier| ==> more[j] == earlier[j];
    forall k | 0 <= k < SLOTS
      ensures seen[slot := true][k] <==> exists j :: 0 <= j < |more| && ParseFlag(more[j]) == Slot(k)
    {
      if k == slot {
        assert ParseFlag(more[|earlier|]) == Slot(k);
      } else if seen[k] {
        var j :| 0 <= j < |earlier| && ParseFlag(earlier[j]) == Slot(k);
        assert ParseFlag(more[j]) == Slot(k);
      }
    }
  }

  lemma AcceptNext(earlier: seq<string>, seen: seq<bool>, lastSlot: Option<nat>, token: string, slot: nat)
    requires Ascending(earlier) && Recorded(earlier, seen, lastSlot) && slot < SLOTS && ParseFlag(token) == Slot(slot)
    requires !seen[slot] && (lastSlot.Some? ==> lastSlot.value <= slot)
    ensures Ascending(earlier + [token]) && Build(earlier + [token]) == Set(Build(earlier), slot, token)
  {
    hide ParseFlag, Ascending, Build;
    forall i | 0 <= i < |earlier| ensures ParseFlag(earlier[i]).index < slot {
      NextAscends(earlier, seen, lastSlot, slot, i);
    }
    AscendingAppend(earlier, token, slot);
  }

  /** The flag loop, with its `seen` table and `last_slot`. */
  method ParseFlags(tokens: seq<string>) returns (flags: Flags, error: Option<ParseError>)
    ensures error.None? <==> Ascending(tokens)
    ensures error.None? <==> exists c :: ValidChoice(c) && tokens == Line(c)
    ensures error.None? ==> flags == Build(tokens)
    ensures forall c :: ValidChoice(c) && tokens == Line(c) ==> flags == Fields(c)
    ensures error.Some? ==> exists i :: 0 <= i < |tokens| && Ascending(tokens[..i]) && Refuses(tokens[..i], tokens[i], error.value)
  {
    hide ParseFlag, Set, Build, Recorded, Refuses, Line, Fields;
    LinesAreRead(tokens);
    flags := NO_FLAGS;
    error := None;
    var seen := new bool[SLOTS](_ => false);
    var lastSlot: Option<nat> := None;
    NothingRecorded(seen[..]);
    NothingBuilt(tokens[..0]);
    for i := 0 to |tokens|
      invariant Ascending(tokens[..i]) && flags == Build(tokens[..i]) && Recorded(tokens[..i], seen[..], lastSlot)
    {
      var token := tokens[i];
      ghost var earlier := tokens[..i];
      assert tokens[..i + 1] == earlier + [token];
      var slot := ParseFlag(token);
      if slot.BadFlag? {
        error := Some(FlagRefused(slot.error));
        BadFlagRefused(earlier, token);
        RefusalBreaksOrder(tokens, i, error.value);
        return;
      }
      FlagsHaveNoDash(token);
      if seen[slot.index] {
        error := Some(Duplicate(token));
        SlotSeen(earlier, seen[..], lastSlot, token, slot.index);
        RefusalBreaksOrder(tokens, i, error.value);
        return;
      }
      if lastSlot.Some? && slot.index < lastSlot.value {
        error := Some(WrongOrder(token));
        SlotTooLow(earlier, seen[..], lastSlot, token, slot.index);
        RefusalBreaksOrder(tokens, i, error.value);
        return;
      }
      AcceptNext(earlier, seen[..], lastSlot, token, slot.index);
      RecordNext(earlier, seen[..], lastSlot, token, slot.index);
      assert seen[..][slot.index := true] == seen[..slot.index] + [true] + seen[slot.index + 1..];
      seen[slot.index] := true;
      lastSlot := Some(slot.index);
      flags := Set(flags, slot.index, token);
    }
    assert tokens[..|tokens|] == tokens;
  }

  lemma NothingBuilt(tokens: seq<string>)
    requires tokens == []
    ensures Ascending(tokens) && Build(tokens) == NO_FLAGS
  {
  }

  lemma BadFlagRefused(earlier: seq<string>, token: string)
    requires ParseFlag(token).BadFlag?
    ensures Refuses(earlier, token, FlagRefused(ParseFlag(token).error))
  {
    hide ParseFlag;
  }

  /** `parse_canonical_model_id`. */
  method ParseCanonicalModelId(name: string) returns (r: ParseResult)
    ensures r.Parsed? <==> InGrammar(name)
    ensures r.Parsed? ==> r.id == Reading(name)
    ensures r.Parsed? <==> exists producer, model, version, c :: IsWritten(name, producer, model, version, c)
    ensures forall producer, model, version, c :: IsWritten(name, producer, model, version, c) ==>
      r == Parsed(CanonicalId(producer, model, version, Fields(c)))
    ensures r == Rejected(TooLong) <==> Utf8Len(name) > MODEL_NAME_MAX_BYTES
    ensures r == Rejected(NotCanonical) <==> Utf8Len(name) <= MODEL_NAME_MAX_BYTES && !HasBase(Split(name))
  {
    hide Utf8Len, Split, IsBlank, IsWritten, Ascending, Build, Line, Fields;
    GrammarIsTheLine(name);
    if Utf8Len(name) > MODEL_NAME_MAX_BYTES {
      return Rejected(TooLong);
    }
    var parts := Split(name);
    if |parts| < 3 {
      return Rejected(NotCanonical);
    }
    var producer, model, version := parts[0], parts[1], parts[2];
    if IsBlank(producer) || IsBlank(model) || IsBlank(version) {
      return Rejected(NotCanonical);
    }
    var flags, error := ParseFlags(parts[3..]);
    LinesAreRead(parts[3..]);
    if error.Some? {
      return Rejected(error.value);
    }
    r := Parsed(CanonicalId(producer, model, version, flags));
  }

  // ----- The grammar is injective -----

  function Parts(id: CanonicalId): seq<string> {
    [id.producer, id.model, id.version] + FlagTokens(id.flags)
  }

  /** The id a reading is written as. */
  function Render(id: CanonicalId): string {
    Join(Parts(id))
  }

  /** Every accepted id is the rendering of what was read, so no two ids are read alike. */
  lemma RenderInvertsReading(name: string)
    requires InGrammar(name)
    ensures Render(Reading(name)) == name
  {
    hide ParseFlag, FlagTokens, Split;
    var parts := Split(name);
    BuildKeepsTokens(parts[3..]);
    assert parts == [parts[0], parts[1], parts[2]] + parts[3..];
    JoinSplit(name);
  }

  /** The values the grammar can express. */
  ghost predicate Expressible(id: CanonicalId) {
    && !IsBlank(id.producer) && !IsBlank(id.model) && !IsBlank(id.version)
    && ValidFlags(id.flags)
    && Find(id.producer, SEP).None? && Find(id.model, SEP).None? && Find(id.version, SEP).None?
    && !EndsInDash(id.producer) && !EndsInDash(id.model)
    && (FlagTokens(id.flags) != [] ==> !EndsInDash(id.version))
    && Utf8Len(Render(id)) <= MODEL_NAME_MAX_BYTES
  }

  lemma ExpressibleIsSeparable(id: CanonicalId)
    requires ValidFlags(id.flags)
    ensures Separable(Parts(id)) <==>
      && Find(id.producer, SEP).None? && Find(id.model, SEP).None? && Find(id.version, SEP).None?
      && !EndsInDash(id.producer) && !EndsInDash(id.model)
      && (FlagTokens(id.flags) != [] ==> !EndsInDash(id.version))
  {
    hide ParseFlag, Find, EndsInDash, FlagTokens;
    var tokens, parts := FlagTokens(id.flags), Parts(id);
    TokensRebuild(id.flags);
    forall i | 0 <= i < |tokens| ensures Find(tokens[i], SEP).None? && !EndsInDash(tokens[i]) {
      FlagsHaveNoDash(tokens[i]);
      NoDashNoSeparator(tokens[i]);
    }
    assert forall i :: 3 <= i < |parts| ==> parts[i] == tokens[i - 3];
    assert parts[0] == id.producer && parts[1] == id.model && parts[2] == id.version;
  }

  /** Rendering and parsing again gives the value back exactly when the grammar can express it. */
  lemma ReadingInvertsRender(id: CanonicalId)
    ensures Expressible(id) <==> InGrammar(Render(id)) && Reading(Render(id)) == id
  {
    hide ParseFlag, Find, EndsInDash, FlagTokens, Split, Join, Utf8Len, IsBlank, ValidFlags, Separable, Ascending;
    var name, tokens := Render(id), FlagTokens(id.flags);
    if Expressible(id) {
      ExpressibleIsSeparable(id);
      SplitUndoesJoin(Parts(id));
      TokensRebuild(id.flags);
      assert Parts(id)[3..] == tokens;
    } else if InGrammar(name) && Reading(name) == id {
      var parts := Split(name);
      BuildKeepsTokens(parts[3..]);
      assert parts == [parts[0], parts[1], parts[2]] + parts[3..] == Parts(id);
      SplitUndoesJoin(Parts(id));
      ExpressibleIsSeparable(id);
    }
  }

  // ----- The grammar line -----

  datatype Unit = Sec | Min | Img | Frame
  datatype Resolution = P480 | P720 | P1080 | P2160
  datatype Precision = Fp32 | Bf16 | Fp16 | Fp8 | Int8 | Int4

  function UnitName(u: Unit): string {
    match u case Sec => "sec" case Min => "min" case Img => "img" case Frame => "frame"
  }

  function WindowName(thousands: nat): string {
    "w" + Decimal(thousands) + "k"
  }

  function ResolutionName(r: Resolution): string {
    match r case P480 => "480p" case P720 => "720p" case P1080 => "1080p" case P2160 => "2160p"
  }

  function PrecisionName(p: Precision): string {
    match p
    case Fp32 => "fp32" case Bf16 => "bf16" case Fp16 => "fp16" case Fp8 => "fp8" case Int8 => "int8" case Int4 => "int4"
  }

  /** What an id can say behind its version: `[--unit][--w<N>k][--<N>p][--tools][--think][--<precision>]`. */
  datatype Choice = Choice(
    unit: Option<Unit>,
    thousands: Option<nat>,
    resolution: Option<Resolution>,
    tools: bool,
    think: bool,
    precision: Option<Precision>)

  predicate ValidChoice(c: Choice) {
    c.thousands.Some? ==> 0 < c.thousands.value <= U64_MAX
  }

  function Named<T>(o: Option<T>, name: T -> string): Option<string> {
    match o case None => None case Some(x) => Some(name(x))
  }

  /** The choice as the fields of a parsed id ... */
  function Fields(c: Choice): Flags {
    Flags(Named(c.unit, UnitName), Named(c.thousands, WindowName), Named(c.resolution, ResolutionName), c.tools, c.think,
          Named(c.precision, PrecisionName))
  }

  /** ... and as the tokens of the grammar line, in its order. */
  function Line(c: Choice): seq<string> {
    (if c.unit.Some? then [UnitName(c.unit.value)] else [])
    + (if c.thousands.Some? then [WindowName(c.thousands.value)] else [])
    + (if c.resolution.Some? then [ResolutionName(c.resolution.value)] else [])
    + (if c.tools then ["tools"] else []) + (if c.think then ["think"] else [])
    + (if c.precision.Some? then [PrecisionName(c.precision.value)] else [])
  }

  lemma UnitSlot(u: Unit)
    ensures ParseFlag(UnitName(u)) == Slot(0)
  {
  }

  lemma ResolutionSlot(r: Resolution)
    ensures ParseFlag(ResolutionName(r)) == Slot(2)
  {
    var t := ResolutionName(r);
    assert '0' <= t[0] <= '9';
    assert "sec"[0] == 's' && "min"[0] == 'm' && "img"[0] == 'i' && "frame"[0] == 'f';
  }

  lemma SwitchSlots()
    ensures ParseFlag("tools") == Slot(3) && ParseFlag("think") == Slot(4)
  {
    assert "tools"[0] == 't' && "think"[0] == 't' && "tools"[1] == 'o' && "think"[1] == 'h';
    assert "sec"[0] == 's' && "min"[0] == 'm' && "img"[0] == 'i' && "frame"[0] == 'f';
    assert "480p"[0] == '4' && "720p"[0] == '7' && "1080p"[0] == '1' && "2160p"[0] == '2';
  }

  lemma PrecisionSlot(p: Precision)
    ensures ParseFlag(PrecisionName(p)) == Slot(5)
  {
    var t := PrecisionName(p);
    assert t[0] == 'f' || t[0] == 'b' || t[0] == 'i';
    assert t[1] == 'p' || t[1] == 'f' || t[1] == 'n';
    assert "sec"[0] == 's' && "min"[0] == 'm' && "img"[1] == 'm' && "frame"[1] == 'r';
    assert "480p"[0] == '4' && "720p"[0] == '7' && "1080p"[0] == '1' && "2160p"[0] == '2';
    assert "tools"[0] == 't' && "think"[0] == 't';
  }

  /** A token with a leading `w` is none of the fixed spellings. */
  lemma StartsWithW(t: string)
    requires t != "" && t[0] == 'w'
    ensures ParseFlag(t) == if IsWindow(t) then Slot(1) else BadFlag(MalformedWindow)
  {
    assert "sec"[0] == 's' && "min"[0] == 'm' && "img"[0] == 'i' && "frame"[0] == 'f';
    assert "480p"[0] == '4' && "720p"[0] == '7' && "1080p"[0] == '1' && "2160p"[0] == '2';
    assert "tools"[0] == 't' && "think"[0] == 't';
    assert "fp32"[0] == 'f' && "bf16"[0] == 'b' && "fp16"[0] == 'f' && "fp8"[0] == 'f' && "int8"[0] == 'i' && "int4"[0] == 'i';
    assert "gptq"[0] == 'g' && "awq"[0] == 'a' && "gguf"[0] == 'g' && "Q4_K_M"[0] == 'Q';
  }

  lemma WindowSlot(thousands: nat)
    requires 0 < thousands <= U64_MAX
    ensures ParseFlag(WindowName(thousands)) == Slot(1)
  {
    hide Value, Decimal, ParseFlag;
    var t := WindowName(thousands);
    assert t[1..|t| - 1] == Decimal(thousands);
    ValueOfDecimal(thousands);
    StartsWithW(t);
  }

  lemma WindowIsNamed(t: string) returns (thousands: nat)
    requires IsWindow(t)
    ensures 0 < thousands <= U64_MAX && t == WindowName(thousands)
  {
    hide Value, Decimal;
    thousands := Value(t[1..|t| - 1]);
    assert t == "w" + t[1..|t| - 1] + "k";
  }

  /** The fields of a choice are rendered as its line, every token in the slot of its kind. */
  lemma LineIsRendered(c: Choice)
    requires ValidChoice(c)
    ensures FlagTokens(Fields(c)) == Line(c) && ValidFlags(Fields(c))
  {
    hide ParseFlag, UnitName, ResolutionName, PrecisionName, WindowName;
    var f := Fields(c);
    assert TokensTo(f, 3) == TokenAt(f, 0) + TokenAt(f, 1) + TokenAt(f, 2) by {
      assert TokensTo(f, 0) == [] && TokensTo(f, 1) == [] + TokenAt(f, 0) == TokenAt(f, 0);
      assert TokensTo(f, 2) == TokenAt(f, 0) + TokenAt(f, 1);
    }
    assert TokensTo(f, 6) == TokensTo(f, 3) + TokenAt(f, 3) + TokenAt(f, 4) + TokenAt(f, 5) by {
      assert TokensTo(f, 4) == TokensTo(f, 3) + TokenAt(f, 3);
      assert TokensTo(f, 5) == TokensTo(f, 4) + TokenAt(f, 4);
    }
    forall slot, t | 0 <= slot < SLOTS && t in TokenAt(f, slot) ensures ParseFlag(t) == Slot(slot) {
      ChoiceToken(c, slot, t);
    }
  }

  lemma ChoiceToken(c: Choice, slot: nat, t: string)
    requires ValidChoice(c) && slot < SLOTS && t in TokenAt(Fields(c), slot)
    ensures ParseFlag(t) == Slot(slot)
  {
    hide ParseFlag, UnitName, ResolutionName, PrecisionName, WindowName;
    SwitchSlots();
    match slot
    case 0 => UnitSlot(c.unit.value);
    case 1 => WindowSlot(c.thousands.value);
    case 2 => ResolutionSlot(c.resolution.value);
    case 3 =>
    case 4 =>
    case _ => PrecisionSlot(c.precision.value);
  }

  /** Whatever is chosen, its line is accepted and read as exactly that choice. */
  lemma LineIsRead(c: Choice)
    requires ValidChoice(c)
    ensures Ascending(Line(c)) && Build(Line(c)) == Fields(c)
  {
    hide Fields, Line, FlagTokens, ValidFlags;
    LineIsRendered(c);
    TokensRebuild(Fields(c));
  }

  /** And nothing but such lines is accepted. */
  lemma OnlyLinesAreRead(tokens: seq<string>) returns (c: Choice)
    requires Ascending(tokens)
    ensures ValidChoice(c) && tokens == Line(c) && Build(tokens) == Fields(c)
  {
    hide Line, FlagTokens, Build;
    BuildKeepsTokens(tokens);
    c := Chosen(Build(tokens));
    LineIsRendered(c);
  }

  lemma Chosen(f: Flags) returns (c: Choice)
    requires ValidFlags(f)
    ensures ValidChoice(c) && Fields(c) == f
  {
    hide ParseFlag, UnitName, ResolutionName, PrecisionName, WindowName;
    c := Choice(None, None, None, f.tools, f.think, None);
    if f.unit.Some? {
      assert f.unit.value in TokenAt(f, 0);
      var u := UnitOf(f.unit.value);
      c := c.(unit := Some(u));
    }
    if f.window.Some? {
      assert f.window.value in TokenAt(f, 1);
      var n := WindowOf(f.window.value);
      c := c.(thousands := Some(n));
    }
    if f.resolution.Some? {
      assert f.resolution.value in TokenAt(f, 2);
      var r := ResolutionOf(f.resolution.value);
      c := c.(resolution := Some(r));
    }
    if f.precision.Some? {
      assert f.precision.value in TokenAt(f, 5);
      var p := PrecisionOf(f.precision.value);
      c := c.(precision := Some(p));
    }
  }

  lemma UnitOf(t: string) returns (u: Unit)
    requires ParseFlag(t) == Slot(0)
    ensures t == UnitName(u)
  {
    u := if t == "sec" then Sec else if t == "min" then Min else if t == "img" then Img else Frame;
  }

  lemma WindowOf(t: string) returns (thousands: nat)
    requires ParseFlag(t) == Slot(1)
    ensures 0 < thousands <= U64_MAX && t == WindowName(thousands)
  {
    hide IsWindow, WindowName;
    thousands := WindowIsNamed(t);
  }

  lemma ResolutionOf(t: string) returns (r: Resolution)
    requires ParseFlag(t) == Slot(2)
    ensures t == ResolutionName(r)
  {
    r := if t == "480p" then P480 else if t == "720p" then P720 else if t == "1080p" then P1080 else P2160;
  }

  lemma PrecisionOf(t: string) returns (p: Precision)
    requires ParseFlag(t) == Slot(5)
    ensures t == PrecisionName(p)
  {
    p := if t == "fp32" then Fp32 else if t == "bf16" then Bf16 else if t == "fp16" then Fp16
         else if t == "fp8" then Fp8 else if t == "int8" then Int8 else Int4;
  }

  lemma LinesAreRead(tokens: seq<string>)
    ensures Ascending(tokens) <==> exists c :: ValidChoice(c) && tokens == Line(c)
    ensures forall c :: ValidChoice(c) && tokens == Line(c) ==> Ascending(tokens) && Build(tokens) == Fields(c)
  {
    hide Line, Fields, Build, ParseFlag;
    if Ascending(tokens) {
      var c := OnlyLinesAreRead(tokens);
    }
    forall c | ValidChoice(c) && tokens == Line(c) ensures Ascending(tokens) && Build(tokens) == Fields(c) {
      LineIsRead(c);
    }
  }

  /** Why a token is no flag at all: it is a packing format, starts like a window without being one, or is
      unknown. */
  lemma RefusedTokens(t: string)
    ensures ParseFlag(t) == BadFlag(PackingFormat) <==> t in ["gptq", "awq", "gguf", "Q4_K_M"]
    ensures ParseFlag(t) == BadFlag(MalformedWindow) <==>
      t != "" && t[0] == 'w' && forall n: nat :: 0 < n <= U64_MAX ==> t != WindowName(n)
    ensures ParseFlag(t).Slot? <==> exists c :: ValidChoice(c) && Line(c) == [t]
  {
    hide WindowName, IsWindow;
    PackingIsNoFlag(t);
    if t != "" && t[0] == 'w' {
      StartsWithW(t);
      if IsWindow(t) {
        var n := WindowIsNamed(t);
      }
      forall n: nat | 0 < n <= U64_MAX && t == WindowName(n) ensures ParseFlag(t) == Slot(1) {
        WindowSlot(n);
      }
    }
    if ParseFlag(t).Slot? {
      assert Ascending([t]);
      var c := OnlyLinesAreRead([t]);
    }
    forall c | ValidChoice(c) && Line(c) == [t] ensures ParseFlag(t).Slot? {
      LineIsRead(c);
      assert [t][0] == t;
    }
  }

  lemma PackingIsNoFlag(t: string)
    ensures ParseFlag(t) == BadFlag(PackingFormat) <==> t in ["gptq", "awq", "gguf", "Q4_K_M"]
  {
    if t in ["gptq", "awq", "gguf", "Q4_K_M"] {
      assert t[0] == 'g' || t[0] == 'a' || t[0] == 'Q';
      assert "sec"[0] == 's' && "min"[0] == 'm' && "img"[0] == 'i' && "frame"[0] == 'f';
      assert "480p"[0] == '4' && "720p"[0] == '7' && "1080p"[0] == '1' && "2160p"[0] == '2';
      assert "tools"[0] == 't' && "think"[0] == 't';
      assert "fp32"[0] == 'f' && "bf16"[0] == 'b' && "fp16"[0] == 'f' && "fp8"[0] == 'f' && "int8"[0] == 'i' && "int4"[0] == 'i';
    }
  }

  // ----- Whole ids -----

  /** An id of three base parts and a choice: none of the base parts is blank or can be mistaken for more. */
  ghost predicate IsWritten(name: string, producer: string, model: string, version: string, c: Choice) {
    && ValidChoice(c) && name == Join([producer, model, version] + Line(c)) && Utf8Len(name) <= 127
    && !AllWhitespace(producer) && !AllWhitespace(model) && !AllWhitespace(version)
    && Separable([producer, model, version] + Line(c))
  }

  /** An id is accepted exactly if it is written so, and then read as what was written. */
  lemma GrammarIsTheLine(name: string)
    ensures InGrammar(name) <==> exists producer, model, version, c :: IsWritten(name, producer, model, version, c)
    ensures forall producer, model, version, c :: IsWritten(name, producer, model, version, c) ==>
      InGrammar(name) && Reading(name) == CanonicalId(producer, model, version, Fields(c))
  {
    hide Split, Join, Separable, Line, Fields, Ascending, Build, Utf8Len, IsBlank, AllWhitespace;
    forall producer, model, version, c | IsWritten(name, producer, model, version, c)
      ensures InGrammar(name) && Reading(name) == CanonicalId(producer, model, version, Fields(c))
    {
      WrittenIsRead(name, producer, model, version, c);
    }
    if InGrammar(name) {
      var parts := Split(name);
      var c := OnlyLinesAreRead(parts[3..]);
      assert parts == [parts[0], parts[1], parts[2]] + Line(c);
      JoinSplit(name);
      SplitIsSeparable(name);
      BlankMeans(parts[0]);
      BlankMeans(parts[1]);
      BlankMeans(parts[2]);
      assert IsWritten(name, parts[0], parts[1], parts[2], c);
    }
  }

  lemma WrittenIsRead(name: string, producer: string, model: string, version: string, c: Choice)
    requires IsWritten(name, producer, model, version, c)
    ensures InGrammar(name) && Reading(name) == CanonicalId(producer, model, version, Fields(c))
  {
    hide Split, Join, Separable, Line, Fields, Build, ParseFlag, Utf8Len, IsBlank, AllWhitespace;
    var parts := [producer, model, version] + Line(c);
    SplitUndoesJoin(parts);
    assert parts[3..] == Line(c);
    LineIsRead(c);
    BlankMeans(producer);
    BlankMeans(model);
    BlankMeans(version);
  }
}
