/** The sell planner: a whole eccUSDC amount as the fewest accumulator lots. */
module SellPlan {
  import opened Numbers

  const USDC_UNIT: nat := 1_000_000
  const SHELL_PER_USDC_RAW: nat := 100 * SHELL_UNIT

  /** The lot sizes, largest first. */
  const DENOMS: seq<nat> := [1000, 100, 10, 1]

  datatype SellLot = SellLot(denom: nat, shellRaw: nat)

  datatype Plan = Plan(lots: seq<SellLot>, usdcWhole: nat, shellCommittedRaw: nat, usdcExpectedRaw: nat)

  datatype PlanError = ZeroAmount | Overflow

  datatype PlanResult = Planned(plan: Plan) | Refused(error: PlanError)

  // ----- Lots -----

  function Lot(denom: nat): SellLot {
    SellLot(denom, denom * SHELL_PER_USDC_RAW)
  }

  function Repeat(denom: nat, count: nat): (lots: seq<SellLot>)
    ensures |lots| == count
  {
    seq(count, _ => Lot(denom))
  }

  /** What is left of an amount once the lots of the first `i` sizes are taken. */
  function Left(i: nat, usdc: nat): nat
    requires i <= |DENOMS|
  {
    if i == 0 then usdc else Left(i - 1, usdc) % DENOMS[i - 1]
  }

  /** The lots of the first `i` sizes: as many of each as fit into what is left. */
  function Taken(i: nat, usdc: nat): seq<SellLot>
    requires i <= |DENOMS|
  {
    if i == 0 then [] else Taken(i - 1, usdc) + Repeat(DENOMS[i - 1], Left(i - 1, usdc) / DENOMS[i - 1])
  }

  function Greedy(usdc: nat): seq<SellLot> {
    Taken(|DENOMS|, usdc)
  }

  /** The counting pre-pass: quotients added up, the remainder carried on. */
  function CountTo(i: nat, usdc: nat): nat
    requires i <= |DENOMS|
  {
    if i == 0 then 0 else CountTo(i - 1, usdc) + Left(i - 1, usdc) / DENOMS[i - 1]
  }

  function LotCount(usdc: nat): nat {
    CountTo(|DENOMS|, usdc)
  }

  lemma {:induction false} CountIsLength(i: nat, usdc: nat)
    requires i <= |DENOMS|
    ensures CountTo(i, usdc) == |Taken(i, usdc)|
  {
    if i > 0 {
      CountIsLength(i - 1, usdc);
    }
  }

  lemma CountSteps(n: nat)
    ensures LotCount(n) == n / 1000 + n % 1000 / 100 + n % 1000 % 100 / 10 + n % 1000 % 100 % 10
  {
    assert Left(1, n) == n % 1000 && CountTo(1, n) == n / 1000;
    assert Left(2, n) == n % 1000 % 100 && CountTo(2, n) == CountTo(1, n) + n % 1000 / 100;
    assert Left(3, n) == n % 1000 % 100 % 10 && CountTo(3, n) == CountTo(2, n) + n % 1000 % 100 / 10;
    assert LotCount(n) == CountTo(3, n) + Left(3, n) / 1;
  }

  /** The pre-pass counts the decimal digits, thousands in one piece. */
  lemma CountOfDigits(q: nat, h: nat, t: nat, u: nat)
    requires h <= 9 && t <= 9 && u <= 9
    ensures LotCount(1000 * q + 100 * h + 10 * t + u) == q + h + t + u
  {
    hide LotCount;
    var n, r := 1000 * q + 100 * h + 10 * t + u, 100 * h + 10 * t + u;
    CountSteps(n);
    assert n / 1000 == q && n % 1000 == r;
    assert r / 100 == h && r % 100 == 10 * t + u;
  }

  function SumDenoms(lots: seq<SellLot>): nat {
    if lots == [] then 0 else lots[0].denom + SumDenoms(lots[1..])
  }

  function SumShell(lots: seq<SellLot>): nat {
    if lots == [] then 0 else lots[0].shellRaw + SumShell(lots[1..])
  }

  lemma {:induction false} SumConcat(a: seq<SellLot>, b: seq<SellLot>)
    ensures SumDenoms(a + b) == SumDenoms(a) + SumDenoms(b)
  {
    if a == [] {
      assert a + b == b;
    } else {
      SumConcat(a[1..], b);
      assert (a + b)[1..] == a[1..] + b;
    }
  }

  lemma {:induction false} SumRepeat(denom: nat, count: nat)
    ensures SumDenoms(Repeat(denom, count)) == denom * count
  {
    if count > 0 {
      SumRepeat(denom, count - 1);
      assert Repeat(denom, count)[1..] == Repeat(denom, count - 1);
    }
  }

  /** Every lot costs its size at the fixed rate. */
  ghost predicate Priced(lots: seq<SellLot>) {
    forall i :: 0 <= i < |lots| ==> lots[i].denom in DENOMS && lots[i] == Lot(lots[i].denom)
  }

  lemma {:induction false} PricedCost(lots: seq<SellLot>)
    requires Priced(lots)
    ensures SumShell(lots) == SumDenoms(lots) * SHELL_PER_USDC_RAW
  {
    if lots != [] {
      PricedCost(lots[1..]);
    }
  }

  // ----- Exact and optimal -----

  ghost predicate LargestFirst(lots: seq<SellLot>) {
    forall i, j :: 0 <= i < j < |lots| ==> lots[i].denom >= lots[j].denom
  }

  lemma {:induction false} TakenSum(i: nat, usdc: nat)
    requires i <= |DENOMS|
    ensures SumDenoms(Taken(i, usdc)) + Left(i, usdc) == usdc
  {
    hide SumDenoms, Repeat;
    if i == 0 {
      NoLots();
    } else {
      TakenSum(i - 1, usdc);
      var left, d := Left(i - 1, usdc), DENOMS[i - 1];
      SumRepeat(d, left / d);
      SumConcat(Taken(i - 1, usdc), Repeat(d, left / d));
      DivMod(left, d);
    }
  }

  lemma NoLots()
    ensures SumDenoms([]) == 0
  {
  }

  lemma DivMod(n: nat, d: nat)
    requires d > 0
    ensures d * (n / d) + n % d == n
  {
  }

  lemma {:induction false} TakenShape(i: nat, usdc: nat)
    requires i <= |DENOMS|
    ensures Priced(Taken(i, usdc)) && LargestFirst(Taken(i, usdc))
    ensures forall k :: 0 <= k < |Taken(i, usdc)| ==> i > 0 && Taken(i, usdc)[k].denom >= DENOMS[i - 1]
  {
    if i > 0 {
      TakenShape(i - 1, usdc);
      assert DENOMS[i - 1] in DENOMS;
    }
  }

  /** The greedy lots sum to the amount, come largest first, cost what the plan commits and are as many
      as the pre-pass counted. */
  lemma GreedyIsExact(usdc: nat)
    ensures SumDenoms(Greedy(usdc)) == usdc
    ensures SumShell(Greedy(usdc)) == usdc * SHELL_PER_USDC_RAW
    ensures LargestFirst(Greedy(usdc)) && Priced(Greedy(usdc))
    ensures |Greedy(usdc)| == LotCount(usdc)
  {
    TakenSum(|DENOMS|, usdc);
    TakenShape(|DENOMS|, usdc);
    PricedCost(Greedy(usdc));
    CountIsLength(|DENOMS|, usdc);
  }

  /** One more lot of any size raises the count by at most one: a full digit carries and only shrinks it. */
  lemma OneMoreLot(n: nat, denom: nat)
    requires denom in DENOMS
    ensures LotCount(n + denom) <= LotCount(n) + 1
  {
    hide LotCount;
    var q, h, t, u := n / 1000, n % 1000 / 100, n % 1000 % 100 / 10, n % 1000 % 100 % 10;
    CountOfDigits(q, h, t, u);
    if denom == 1 && u < 9 {
      CountOfDigits(q, h, t, u + 1);
    } else if (denom == 1 || denom == 10) && t < 9 {
      CountOfDigits(q, h, t + 1, if denom == 1 then 0 else u);
    } else if denom != 1000 && h < 9 {
      CountOfDigits(q, h + 1, if denom == 100 then t else 0, if denom == 1 then 0 else u);
    } else {
      CountOfDigits(q + 1, if denom == 1000 then h else 0, if denom >= 100 then t else 0, if denom == 1 then 0 else u);
    }
  }

  /** No list of allowed lots with the same sum is shorter than the greedy one. */
  lemma {:induction false} GreedyIsFewest(lots: seq<SellLot>)
    requires forall i :: 0 <= i < |lots| ==> lots[i].denom in DENOMS
    ensures |Greedy(SumDenoms(lots))| <= |lots|
  {
    hide Greedy, LotCount;
    GreedyIsExact(SumDenoms(lots));
    if lots == [] {
      CountOfDigits(0, 0, 0, 0);
    } else {
      GreedyIsFewest(lots[1..]);
      GreedyIsExact(SumDenoms(lots[1..]));
      OneMoreLot(SumDenoms(lots[1..]), lots[0].denom);
    }
  }

  // ----- The planner -----

  /** When a plan is formed: a positive amount whose raw figures fit 128 bits and whose lots fit memory. */
  predicate Plannable(usdc: nat, usizeMax: nat, canReserve: nat -> bool) {
    && usdc > 0 && usdc * SHELL_PER_USDC_RAW <= U128_MAX
    && LotCount(usdc) <= usizeMax && canReserve(LotCount(usdc))
  }

  lemma {:induction false} LotsAtMost(lots: seq<SellLot>)
    requires Priced(lots)
    ensures |lots| <= SumDenoms(lots)
  {
    if lots != [] {
      LotsAtMost(lots[1..]);
    }
  }

  /** `for_whole_usdc`; `canReserve` is the allocator's answer for one entry per lot. */
  method ForWholeUsdc(usdc: nat, usizeMax: nat, canReserve: nat -> bool) returns (r: PlanResult)
    requires usdc <= U128_MAX
    ensures r == if Plannable(usdc, usizeMax, canReserve)
                 then Planned(Plan(Greedy(usdc), usdc, usdc * SHELL_PER_USDC_RAW, usdc * USDC_UNIT))
                 else Refused(if usdc == 0 then ZeroAmount else Overflow)
    ensures r.Planned? ==> SumShell(r.plan.lots) == r.plan.shellCommittedRaw && |r.plan.lots| == LotCount(usdc)
    ensures r.Planned? ==> r.plan.shellCommittedRaw == usdc * 100_000_000_000 && r.plan.usdcExpectedRaw == usdc * 1_000_000
  {
    if usdc == 0 {
      return Refused(ZeroAmount);
    }
    var shellCommitted := usdc * SHELL_PER_USDC_RAW;
    if shellCommitted > U128_MAX {
      return Refused(Overflow);
    }
    var usdcExpected := usdc * USDC_UNIT;
    if usdcExpected > U128_MAX {
      return Refused(Overflow);
    }
    var lotCount := LotCount(usdc);
    GreedyIsExact(usdc);
    LotsAtMost(Greedy(usdc));
    if lotCount > U128_MAX || lotCount > usizeMax || !canReserve(lotCount) {
      return Refused(Overflow);
    }
    var lots := PushLots(usdc);
    r := Planned(Plan(lots, usdc, shellCommitted, usdcExpected));
  }

  /** The nested loops that push one lot per message. */
  method PushLots(usdc: nat) returns (lots: seq<SellLot>)
    ensures lots == Greedy(usdc)
  {
    lots := [];
    var left := usdc;
    for i := 0 to |DENOMS|
      invariant lots == Taken(i, usdc) && left == Left(i, usdc)
    {
      var denom := DENOMS[i];
      var count := left / denom;
      for k := 0 to count
        invariant lots == Taken(i, usdc) + Repeat(denom, k)
      {
        assert Repeat(denom, k + 1) == Repeat(denom, k) + [Lot(denom)];
        lots := lots + [SellLot(denom, denom * SHELL_PER_USDC_RAW)];
      }
      assert left - count * denom == left % denom;
      left := left - count * denom;
    }
  }

  function MaxWholeUsdc(shellRaw: nat): nat {
    shellRaw / SHELL_PER_USDC_RAW
  }

  function ShellRemainder(shellRaw: nat): nat {
    shellRaw % SHELL_PER_USDC_RAW
  }

  function ShellLeft(plan: Plan, available: nat): nat {
    if available >= plan.shellCommittedRaw then available - plan.shellCommittedRaw else 0
  }

  /** What is left and what is committed make up what was available; a plan for more leaves nothing. */
  lemma LeftAndCommitted(plan: Plan, available: nat)
    ensures ShellLeft(plan, available) + plan.shellCommittedRaw ==
      if plan.shellCommittedRaw <= available then available else plan.shellCommittedRaw
  {
  }

  /** `for_available_shell`: the plan takes everything but the dust below one eccUSDC. */
  method ForAvailableShell(available: nat, usizeMax: nat, canReserve: nat -> bool) returns (r: PlanResult)
    requires available <= U128_MAX
    ensures r == Refused(ZeroAmount) <==> available < SHELL_PER_USDC_RAW
    ensures r.Planned? ==>
      && r.plan.shellCommittedRaw <= available
      && ShellLeft(r.plan, available) == ShellRemainder(available) < SHELL_PER_USDC_RAW
      && SumShell(r.plan.lots) + ShellRemainder(available) == available
  {
    r := ForWholeUsdc(MaxWholeUsdc(available), usizeMax, canReserve);
  }

  // ----- Lot counts per denomination -----

  function Count(lots: seq<SellLot>, denom: nat): nat {
    if lots == [] then 0 else (if lots[0].denom == denom then 1 else 0) + Count(lots[1..], denom)
  }

  function CountsFrom(lots: seq<SellLot>, denoms: seq<nat>): seq<(nat, nat)> {
    if denoms == [] then []
    else
      var n := Count(lots, denoms[0]);
      (if n > 0 then [(denoms[0], n)] else []) + CountsFrom(lots, denoms[1..])
  }

  /** `denomination_counts`. */
  function DenominationCounts(lots: seq<SellLot>): seq<(nat, nat)> {
    CountsFrom(lots, DENOMS)
  }

  function DenomsOf(lots: seq<SellLot>): seq<nat> {
    seq(|lots|, i requires 0 <= i < |lots| => lots[i].denom)
  }

  lemma {:induction false} CountIsMultiplicity(lots: seq<SellLot>, denom: nat)
    ensures Count(lots, denom) == multiset(DenomsOf(lots))[denom]
  {
    if lots != [] {
      CountIsMultiplicity(lots[1..], denom);
      assert DenomsOf(lots) == [lots[0].denom] + DenomsOf(lots[1..]);
    }
  }

  lemma {:induction false} CountsFromMeans(lots: seq<SellLot>, denoms: seq<nat>)
    requires forall i, j :: 0 <= i < j < |denoms| ==> denoms[i] > denoms[j]
    ensures var counts := CountsFrom(lots, denoms);
      && (forall d, n :: (d, n) in counts <==> d in denoms && n == Count(lots, d) > 0)
      && (forall i, j :: 0 <= i < j < |counts| ==> counts[i].0 > counts[j].0)
      && (forall i :: 0 <= i < |counts| ==> counts[i].0 in denoms)
  {
    hide Count;
    if denoms != [] {
      CountsFromMeans(lots, denoms[1..]);
      assert denoms == [denoms[0]] + denoms[1..];
    }
  }

  /** The summary lists every lot size of the plan once, largest first, with how many lots have it. */
  lemma CountsAreMultiplicities(lots: seq<SellLot>, denom: nat, n: nat)
    requires forall i :: 0 <= i < |lots| ==> lots[i].denom in DENOMS
    ensures var counts := DenominationCounts(lots);
      && ((denom, n) in counts <==> n == multiset(DenomsOf(lots))[denom] > 0)
      && (forall i, j :: 0 <= i < j < |counts| ==> counts[i].0 > counts[j].0)
  {
    hide Count;
    CountsFromMeans(lots, DENOMS);
    CountIsMultiplicity(lots, denom);
    if denom in multiset(DenomsOf(lots)) {
      assert denom in DenomsOf(lots);
    }
  }

  function Total(counts: seq<(nat, nat)>): nat {
    if counts == [] then 0 else counts[0].0 * counts[0].1 + Total(counts[1..])
  }

  lemma {:induction false} SumByCounts(lots: seq<SellLot>)
    requires forall i :: 0 <= i < |lots| ==> lots[i].denom in DENOMS
    ensures SumDenoms(lots) == 1000 * Count(lots, 1000) + 100 * Count(lots, 100) + 10 * Count(lots, 10) + Count(lots, 1)
    ensures |lots| == Count(lots, 1000) + Count(lots, 100) + Count(lots, 10) + Count(lots, 1)
  {
    if lots != [] {
      SumByCounts(lots[1..]);
    }
  }

  lemma TotalCons(lots: seq<SellLot>, denoms: seq<nat>)
    requires denoms != []
    ensures Total(CountsFrom(lots, denoms)) == denoms[0] * Count(lots, denoms[0]) + Total(CountsFrom(lots, denoms[1..]))
  {
    var n, later := Count(lots, denoms[0]), CountsFrom(lots, denoms[1..]);
    if n > 0 {
      assert ([(denoms[0], n)] + later)[1..] == later;
    } else {
      assert [] + later == later;
    }
  }

  /** The summary of a plan accounts for the whole amount: no lot is dropped or counted twice. */
  lemma {:induction false} CountsAccountForPlan(lots: seq<SellLot>)
    requires forall i :: 0 <= i < |lots| ==> lots[i].denom in DENOMS
    ensures Total(DenominationCounts(lots)) == SumDenoms(lots)
  {
    SumByCounts(lots);
    TotalCons(lots, DENOMS);
    assert DENOMS[1..] == [100, 10, 1];
    TotalCons(lots, [100, 10, 1]);
    assert [100, 10, 1][1..] == [10, 1];
    TotalCons(lots, [10, 1]);
    assert [10, 1][1..] == [1];
    TotalCons(lots, [1]);
    assert Total(CountsFrom(lots, [1][1..])) == 0;
  }
}
