/** The claim-rate limit over runs of claims, and the burn reserve that has to outlast them. */
module ClaimLimits {
  import opened Numbers

  const TICK_SIZE: nat := 1_000_000
  const MAX_CLAIM_DELTA: nat := TICK_SIZE

  function Saturate(n: nat): nat {
    if n <= U128_MAX then n else U128_MAX
  }

  // ----- Claims -----

  /** `claim_delta_limit`, in whole seconds; a zero floor means no physical rate. */
  function DeltaLimit(elapsed: nat, floor: nat): nat {
    var rate := if floor == 0 then MAX_CLAIM_DELTA else elapsed * TICK_SIZE / floor;
    if rate < MAX_CLAIM_DELTA then rate else MAX_CLAIM_DELTA
  }

  lemma QuotientMeans(x: nat, n: nat, d: nat)
    requires d > 0
    ensures x <= n / d <==> x * d <= n
  {
    FloorTimes(n, d);
    if x <= n / d {
      MulMonotone(x, n / d, d);
    } else {
      MulMonotone(n / d + 1, x, d);
      assert (n / d + 1) * d == n / d * d + d && n / d * d + n % d == n;
    }
  }

  /** The limit admits exactly the increments that satisfy both inequalities of the contract. */
  lemma LimitMeans(delta: nat, elapsed: nat, floor: nat)
    ensures delta <= DeltaLimit(elapsed, floor) <==>
      delta <= MAX_CLAIM_DELTA && (floor > 0 ==> delta * floor <= elapsed * TICK_SIZE)
  {
    if floor > 0 {
      QuotientMeans(delta, elapsed * TICK_SIZE, floor);
    }
  }

  /** One claim: the seconds since the previous one and the tokens it adds. */
  datatype Claim = Claim(elapsed: nat, delta: nat)

  ghost predicate WithinLimit(claims: seq<Claim>, floor: nat) {
    forall i :: 0 <= i < |claims| ==> claims[i].delta <= DeltaLimit(claims[i].elapsed, floor)
  }

  function Tokens(claims: seq<Claim>): nat {
    if claims == [] then 0 else claims[0].delta + Tokens(claims[1..])
  }

  function Seconds(claims: seq<Claim>): nat {
    if claims == [] then 0 else claims[0].elapsed + Seconds(claims[1..])
  }

  lemma FloorTimes(n: nat, d: nat)
    requires d > 0
    ensures n / d * d <= n
  {
  }

  /** However the claims are spaced, `n` of them advance at most `n` ticks and never outrun the physical
      rate over the whole time. */
  lemma {:induction false} ClaimsAreBounded(claims: seq<Claim>, floor: nat)
    requires WithinLimit(claims, floor)
    ensures Tokens(claims) <= |claims| * TICK_SIZE
    ensures floor > 0 ==> Tokens(claims) * floor <= Seconds(claims) * TICK_SIZE
  {
    if claims != [] {
      ClaimsAreBounded(claims[1..], floor);
      var c := claims[0];
      assert c.delta <= DeltaLimit(c.elapsed, floor);
      if floor > 0 {
        FloorTimes(c.elapsed * TICK_SIZE, floor);
        MulMonotone(c.delta, c.elapsed * TICK_SIZE / floor, floor);
        MulDistributes(c.delta, Tokens(claims[1..]), floor);
      }
    }
  }

  /** So advancing by `ticks` whole ticks takes at least that many claims; the tick of the accepted probe is
      not among them. */
  lemma ClaimsNeeded(claims: seq<Claim>, floor: nat, ticks: nat)
    requires WithinLimit(claims, floor) && ticks * TICK_SIZE <= Tokens(claims)
    ensures ticks <= |claims|
  {
    ClaimsAreBounded(claims, floor);
  }

  // ----- The burn table -----

  datatype Entry =
    | Deploy
    | PostFromNote
    | FundFromBook
    | FundDeal
    | Open
    | AcceptProbe
    | Finalize
    | SellClosed
    | WindDown
    | WithdrawShell
    | Destroy
    | ClaimTokens

  function Burn(e: Entry): nat {
    match e
    case Deploy => 100_000_000
    case PostFromNote => 25_000_000
    case FundFromBook => 20_000_000
    case FundDeal => 10_000_000
    case Open => 15_000_000
    case AcceptProbe => 15_000_000
    case Finalize => 15_000_000
    case SellClosed => 5_000_000
    case WindDown => 45_000_000
    case WithdrawShell => 5_000_000
    case Destroy => 45_000_000
    case ClaimTokens => 15_000_000
  }

  function AtLeastOne(n: nat): nat {
    if n == 0 then 1 else n
  }

  const ONCE: nat := Burn(Deploy) + Burn(PostFromNote) + Burn(FundFromBook) + Burn(FundDeal) + Burn(Open)
                     + Burn(AcceptProbe) + Burn(Finalize) + Burn(SellClosed) + Burn(WithdrawShell)
                     + Burn(WindDown) + Burn(Destroy)

  /** What the table adds up to before any saturation. */
  function FullCost(maxTicks: nat): nat {
    ONCE + Burn(ClaimTokens) * AtLeastOne(maxTicks)
  }

  /** `deal_gas_reserve_raw`. */
  function Reserve(maxTicks: nat): nat {
    Saturate(ONCE + Saturate(Burn(ClaimTokens) * AtLeastOne(maxTicks)))
  }

  /** `deal_buy_reserve_raw`. */
  function BuyReserve(maxTicks: nat, sellerBondFunded: bool): nat {
    var spent := Burn(Deploy) + Burn(PostFromNote) + if sellerBondFunded then Burn(FundDeal) else 0;
    if Reserve(maxTicks) >= spent then Reserve(maxTicks) - spent else 0
  }

  // ----- Charging a run of calls -----

  function Charged(run: seq<Entry>): nat {
    if run == [] then 0 else Burn(run[0]) + Charged(run[1..])
  }

  function Count(run: seq<Entry>, e: Entry): nat {
    if run == [] then 0 else (if run[0] == e then 1 else 0) + Count(run[1..], e)
  }

  /** A clean life of a deal: every entry at most once, claims at most one per tick. */
  ghost predicate CleanRun(run: seq<Entry>, maxTicks: nat) {
    && (forall e :: e != ClaimTokens ==> Count(run, e) <= 1)
    && Count(run, ClaimTokens) <= AtLeastOne(maxTicks)
  }

  /** What `n` calls of an entry burn. */
  function Part(n: Entry -> nat, e: Entry): nat {
    Burn(e) * n(e)
  }

  /** The burn table weighted by how often each entry occurs. */
  function Weighted(n: Entry -> nat): nat {
    Part(n, Deploy) + Part(n, PostFromNote) + Part(n, FundFromBook) + Part(n, FundDeal) + Part(n, Open) + Part(n, AcceptProbe)
    + Part(n, Finalize) + Part(n, SellClosed) + Part(n, WindDown) + Part(n, WithdrawShell) + Part(n, Destroy)
    + Part(n, ClaimTokens)
  }

  lemma PartAtMost(n: Entry -> nat, e: Entry, k: nat)
    requires n(e) <= k
    ensures Part(n, e) <= Burn(e) * k
    ensures n(e) <= 1 ==> Part(n, e) == if n(e) == 0 then 0 else Burn(e)
  {
    hide Burn;
    MulMonotone(n(e), k, Burn(e));
  }

  lemma PartIs(n: Entry -> nat, e: Entry)
    ensures Part(n, e) == Burn(e) * n(e)
  {
  }

  lemma PartOneMore(n: Entry -> nat, m: Entry -> nat, e: Entry, x: Entry)
    requires m(x) == n(x) + if x == e then 1 else 0
    ensures Part(m, x) == Part(n, x) + if x == e then Burn(e) else 0
  {
    hide Burn;
  }

  function Counts(run: seq<Entry>): Entry -> nat {
    e => Count(run, e)
  }

  lemma WeightedOneMore(n: Entry -> nat, m: Entry -> nat, e: Entry)
    requires forall x :: m(x) == n(x) + if x == e then 1 else 0
    ensures Weighted(m) == Weighted(n) + Burn(e)
  {
    hide Part, Burn;
    forall x ensures Part(m, x) == Part(n, x) + if x == e then Burn(e) else 0 {
      PartOneMore(n, m, e, x);
    }
  }

  lemma {:induction false} ChargedByCount(run: seq<Entry>)
    ensures Charged(run) == Weighted(Counts(run))
  {
    if run == [] {
      assert forall e :: Counts(run)(e) == 0;
    } else {
      hide Weighted;
      ChargedByCount(run[1..]);
      WeightedOneMore(Counts(run[1..]), Counts(run), run[0]);
    }
  }

  lemma WeightedAtMost(n: Entry -> nat, maxTicks: nat)
    requires forall e :: e != ClaimTokens ==> n(e) <= 1
    requires n(ClaimTokens) <= AtLeastOne(maxTicks)
    ensures Weighted(n) <= FullCost(maxTicks)
    ensures (forall e :: e != ClaimTokens ==> n(e) == 1) ==> Weighted(n) == ONCE + Burn(ClaimTokens) * n(ClaimTokens)
  {
    hide Part, Burn;
    forall e | e != ClaimTokens ensures Part(n, e) == if n(e) == 0 then 0 else Burn(e) {
      PartAtMost(n, e, 1);
    }
    PartAtMost(n, ClaimTokens, AtLeastOne(maxTicks));
    assert Part(n, ClaimTokens) == Burn(ClaimTokens) * n(ClaimTokens) by { PartIs(n, ClaimTokens); }
  }

  lemma CleanRunCostsAtMost(run: seq<Entry>, maxTicks: nat)
    requires CleanRun(run, maxTicks)
    ensures Charged(run) <= FullCost(maxTicks)
  {
    hide Weighted;
    ChargedByCount(run);
    WeightedAtMost(Counts(run), maxTicks);
  }

  lemma {:induction false} CountConcat(a: seq<Entry>, b: seq<Entry>, e: Entry)
    ensures Count(a + b, e) == Count(a, e) + Count(b, e)
  {
    if a == [] {
      assert a + b == b;
    } else {
      CountConcat(a[1..], b, e);
      assert (a + b)[1..] == a[1..] + b;
    }
  }

  /** In whatever order the calls arrive, no prefix of a clean run overdraws the reserve, unless the
      reserve itself saturates. */
  lemma ReserveNeverOverdrawn(run: seq<Entry>, maxTicks: nat, n: nat)
    requires CleanRun(run, maxTicks) && n <= |run|
    requires FullCost(maxTicks) <= U128_MAX
    ensures Charged(run[..n]) <= Reserve(maxTicks)
  {
    assert run == run[..n] + run[n..];
    forall e ensures Count(run[..n], e) <= Count(run, e) {
      CountConcat(run[..n], run[n..], e);
    }
    CleanRunCostsAtMost(run[..n], maxTicks);
  }

  function Repeat(e: Entry, n: nat): (run: seq<Entry>)
    ensures |run| == n
  {
    seq(n, _ => e)
  }

  lemma {:induction false} CountRepeat(n: nat, e: Entry)
    ensures Count(Repeat(ClaimTokens, n), e) == if e == ClaimTokens then n else 0
  {
    if n > 0 {
      assert Repeat(ClaimTokens, n)[1..] == Repeat(ClaimTokens, n - 1);
      CountRepeat(n - 1, e);
    }
  }

  const EACH_ONCE: seq<Entry> :=
    [Deploy, PostFromNote, FundFromBook, FundDeal, Open, AcceptProbe, Finalize, SellClosed, WindDown, WithdrawShell, Destroy]

  lemma {:induction false} CountDistinct(run: seq<Entry>, e: Entry)
    requires forall i, j :: 0 <= i < j < |run| ==> run[i] != run[j]
    ensures Count(run, e) == if e in run then 1 else 0
  {
    if run != [] {
      CountDistinct(run[1..], e);
      assert run == [run[0]] + run[1..];
    }
  }

  /** The longest clean run costs the whole table, and every further claim is beyond it. */
  lemma FullRunCosts(claims: nat)
    ensures var run := EACH_ONCE + Repeat(ClaimTokens, claims);
      && Charged(run) == ONCE + Burn(ClaimTokens) * claims
      && (forall e :: Count(run, e) == if e == ClaimTokens then claims else 1)
  {
    hide Count, Weighted, Charged;
    var run := EACH_ONCE + Repeat(ClaimTokens, claims);
    forall e ensures Count(run, e) == if e == ClaimTokens then claims else 1 {
      CountConcat(EACH_ONCE, Repeat(ClaimTokens, claims), e);
      CountRepeat(claims, e);
      CountEachOnce(e);
    }
    ChargedByCount(run);
    WeightedAtMost(Counts(run), claims);
  }

  lemma CountEachOnce(e: Entry)
    ensures Count(EACH_ONCE, e) == if e == ClaimTokens then 0 else 1
  {
    hide Count;
    EachEntryListed(e);
    assert forall i :: 0 <= i < |EACH_ONCE| ==> Position(EACH_ONCE[i]) == i;
    CountDistinct(EACH_ONCE, e);
  }

  function Position(e: Entry): nat {
    match e
    case Deploy => 0 case PostFromNote => 1 case FundFromBook => 2 case FundDeal => 3 case Open => 4 case AcceptProbe => 5
    case Finalize => 6 case SellClosed => 7 case WindDown => 8 case WithdrawShell => 9 case Destroy => 10 case ClaimTokens => 11
  }

  lemma EachEntryListed(e: Entry)
    ensures e != ClaimTokens ==> e in EACH_ONCE
    ensures ClaimTokens !in EACH_ONCE
  {
    assert EACH_ONCE[0] == Deploy && EACH_ONCE[1] == PostFromNote && EACH_ONCE[2] == FundFromBook;
    assert EACH_ONCE[3] == FundDeal && EACH_ONCE[4] == Open && EACH_ONCE[5] == AcceptProbe;
    assert EACH_ONCE[6] == Finalize && EACH_ONCE[7] == SellClosed && EACH_ONCE[8] == WindDown;
    assert EACH_ONCE[9] == WithdrawShell && EACH_ONCE[10] == Destroy;
  }

  /** The reserve is enough for every clean run exactly when its sum fits 128 bits ... */
  lemma ReserveCoversExactlyWhen(maxTicks: nat)
    ensures (forall run :: CleanRun(run, maxTicks) ==> Charged(run) <= Reserve(maxTicks)) <==> FullCost(maxTicks) <= U128_MAX
  {
    hide Charged, Count;
    forall run | CleanRun(run, maxTicks) ensures Charged(run) <= FullCost(maxTicks) {
      CleanRunCostsAtMost(run, maxTicks);
    }
    var longest := EACH_ONCE + Repeat(ClaimTokens, AtLeastOne(maxTicks));
    FullRunCosts(AtLeastOne(maxTicks));
    assert CleanRun(longest, maxTicks) && Charged(longest) == FullCost(maxTicks);
  }

  /** ... and it pays for exactly `maxTicks` claims beside everything else: a complete life with more is not
      covered. */
  lemma ReserveIsTight(maxTicks: nat, claims: nat)
    requires FullCost(maxTicks) <= U128_MAX
    ensures Reserve(maxTicks) == 300_000_000 + 15_000_000 * if maxTicks == 0 then 1 else maxTicks
    ensures Charged(EACH_ONCE + Repeat(ClaimTokens, claims)) <= Reserve(maxTicks) <==> claims <= if maxTicks == 0 then 1 else maxTicks
  {
    FullRunCosts(claims);
  }

  // ----- Claims against the reserve -----

  ghost predicate WholeTicks(claims: seq<Claim>) {
    forall i :: 0 <= i < |claims| ==> claims[i].delta == TICK_SIZE
  }

  /** Claims reach one tick each exactly when none is smaller than a tick. */
  lemma {:induction false} FewestClaims(claims: seq<Claim>, floor: nat)
    requires WithinLimit(claims, floor)
    ensures Tokens(claims) == |claims| * TICK_SIZE <==> WholeTicks(claims)
  {
    if claims != [] {
      var later := claims[1..];
      FewestClaims(later, floor);
      ClaimsAreBounded(later, floor);
      assert claims[0].delta <= DeltaLimit(claims[0].elapsed, floor);
      assert forall i :: 0 <= i < |later| ==> later[i] == claims[i + 1];
      assert WholeTicks(claims) <==> claims[0].delta == TICK_SIZE && WholeTicks(later);
    }
  }

  /** `PROBE_SEED_TOKENS`: accepting the probe credits the first tick, before any claim. */
  const PROBE_SEED: nat := TICK_SIZE

  /** The cumulative total the claims of a deal lead to. */
  function Cumulative(claims: seq<Claim>): nat {
    PROBE_SEED + Tokens(claims)
  }

  /** What the claims leave unused of the tick that each of them may add. */
  function Shortfall(claims: seq<Claim>): int {
    if claims == [] then 0 else TICK_SIZE - claims[0].delta + Shortfall(claims[1..])
  }

  lemma {:induction false} ShortfallIsWhatIsMissing(claims: seq<Claim>)
    ensures Shortfall(claims) == |claims| * TICK_SIZE - Tokens(claims)
  {
    if claims != [] {
      ShortfallIsWhatIsMissing(claims[1..]);
    }
  }

  /** A deal funded with `funded` ticks and claimed to the end takes at least one claim less than it has
      ticks, the probe being the first, and no more than that exactly when every claim is a whole tick. */
  lemma ClaimsOfALife(claims: seq<Claim>, floor: nat, funded: nat)
    requires WithinLimit(claims, floor) && Cumulative(claims) == funded * TICK_SIZE
    ensures |claims| >= funded - 1 && (|claims| == funded - 1 <==> WholeTicks(claims))
  {
    hide Tokens;
    ClaimsAreBounded(claims, floor);
    FewestClaims(claims, floor);
  }

  /** What one life burns: everything once, and its claims. */
  function LifeCost(claims: seq<Claim>): nat {
    Charged(EACH_ONCE + Repeat(ClaimTokens, |claims|))
  }

  /** Claims may be smaller than a tick, so a life can take more of them than the table pays for. It is
      covered exactly when they leave no more than one tick unused, and one more for each tick the deal was
      not funded with; whole ticks leave the burn of as many claims over. */
  lemma {:induction false} CoveredByShortfall(claims: seq<Claim>, floor: nat, funded: nat, maxTicks: nat)
    requires WithinLimit(claims, floor) && Cumulative(claims) == funded * TICK_SIZE && funded <= maxTicks
    requires FullCost(maxTicks) <= U128_MAX
    ensures LifeCost(claims) <= Reserve(maxTicks) <==> |claims| <= maxTicks
    ensures LifeCost(claims) <= Reserve(maxTicks) <==> Shortfall(claims) <= (maxTicks - funded + 1) * TICK_SIZE
    ensures WholeTicks(claims) ==> LifeCost(claims) + Burn(ClaimTokens) * (maxTicks - funded + 1) == Reserve(maxTicks)
  {
    hide Charged, Tokens, Shortfall, Reserve, FullCost, WithinLimit, WholeTicks;
    ReserveIsTight(maxTicks, |claims|);
    FullRunCosts(|claims|);
    ShortfallIsWhatIsMissing(claims);
    ClaimsOfALife(claims, floor, funded);
  }

  /** Claims at one pace. */
  function Claims(elapsed: nat, deltas: seq<nat>): seq<Claim> {
    seq(|deltas|, i requires 0 <= i < |deltas| => Claim(elapsed, deltas[i]))
  }

  lemma TokensFrom(claims: seq<Claim>, k: nat)
    requires k <= |claims|
    ensures Tokens(claims[k..]) == if k == |claims| then 0 else claims[k].delta + Tokens(claims[k + 1..])
  {
    if k < |claims| {
      assert claims[k..][1..] == claims[k + 1..];
    }
  }

  lemma TwoTokens(claims: seq<Claim>)
    requires |claims| >= 2
    ensures Tokens(claims) == claims[0].delta + claims[1].delta + Tokens(claims[2..])
  {
    hide Tokens;
    assert claims[0..] == claims;
    TokensFrom(claims, 0);
    TokensFrom(claims, 1);
  }

  /** A deal of two ticks, claimed to the end at the canonical pace: in three thirds of its second tick it
      overdraws the reserve, in two halves it does not, although no half is a whole tick. */
  lemma ThirdsOverdraw()
    ensures var thirds, halves := Claims(60, [333_334, 333_333, 333_333]), Claims(60, [500_000, 500_000]);
      && WithinLimit(thirds, 60) && Cumulative(thirds) == 2 * TICK_SIZE && LifeCost(thirds) > Reserve(2)
      && WithinLimit(halves, 60) && Cumulative(halves) == 2 * TICK_SIZE && LifeCost(halves) <= Reserve(2)
      && !WholeTicks(halves)
  {
    hide Charged, Tokens;
    var thirds, halves := Claims(60, [333_334, 333_333, 333_333]), Claims(60, [500_000, 500_000]);
    TwoTokens(thirds);
    TokensFrom(thirds, 2);
    TokensFrom(thirds, 3);
    TwoTokens(halves);
    TokensFrom(halves, 2);
    CoveredByShortfall(thirds, 60, 2, 2);
    CoveredByShortfall(halves, 60, 2, 2);
    assert halves[0].delta == 500_000;
  }

  /** That is 0.175 SHELL and 0.015 for each tick, 0.010 less once the seller's bond is funded. */
  lemma BuyReserveIs(maxTicks: nat, funded: bool)
    requires FullCost(maxTicks) <= U128_MAX
    ensures BuyReserve(maxTicks, funded) == (if funded then 165_000_000 else 175_000_000) + 15_000_000 * if maxTicks == 0 then 1 else maxTicks
  {
    hide Reserve, FullCost;
    ReserveIsTight(maxTicks, 0);
  }

  /** What a complete life has burned when the sell rests, the deal is filled, funded, opened, its trial
      accepted, its last claim final, the sell closed, wound down and the account emptied and destroyed. */
  lemma RunningTotals()
    ensures Charged(EACH_ONCE[..1]) == 100_000_000
    ensures Charged(EACH_ONCE[..2]) == 125_000_000 && Charged(EACH_ONCE[..3]) == 145_000_000
    ensures Charged(EACH_ONCE[..4]) == 155_000_000 && Charged(EACH_ONCE[..5]) == 170_000_000
    ensures Charged(EACH_ONCE[..6]) == 185_000_000 && Charged(EACH_ONCE[..7]) == 200_000_000
    ensures Charged(EACH_ONCE[..8]) == 205_000_000 && Charged(EACH_ONCE[..9]) == 250_000_000
    ensures Charged(EACH_ONCE[..10]) == 255_000_000 && Charged(EACH_ONCE) == 300_000_000
  {
    hide Charged;
    var run := EACH_ONCE;
    NothingCharged(run[..0]);
    ChargedStep(run, 0);
    ChargedStep(run, 1);
    ChargedStep(run, 2);
    ChargedStep(run, 3);
    ChargedStep(run, 4);
    ChargedStep(run, 5);
    ChargedStep(run, 6);
    ChargedStep(run, 7);
    ChargedStep(run, 8);
    ChargedStep(run, 9);
    ChargedStep(run, 10);
    assert run[..11] == run;
  }

  lemma NothingCharged(run: seq<Entry>)
    requires run == []
    ensures Charged(run) == 0
  {
  }

  lemma {:induction false} ChargedStep(run: seq<Entry>, n: nat)
    requires n < |run|
    ensures Charged(run[..n + 1]) == Charged(run[..n]) + Burn(run[n])
  {
    hide Burn;
    if n > 0 {
      ChargedStep(run[1..], n - 1);
      assert run[..n + 1][1..] == run[1..][..n] && run[..n][1..] == run[1..][..n - 1];
    }
  }

  /** What is still reserved when a sell rests covers everything a clean run has yet to burn. */
  lemma BuyReserveCoversTheRest(paid: seq<Entry>, later: seq<Entry>, maxTicks: nat, funded: bool)
    requires FullCost(maxTicks) <= U128_MAX && CleanRun(paid + later, maxTicks)
    requires Count(paid, Deploy) == 1 && Count(paid, PostFromNote) == 1 && (funded ==> Count(paid, FundDeal) == 1)
    ensures Charged(later) <= BuyReserve(maxTicks, funded)
  {
    hide Weighted, Charged, Count;
    forall e ensures Count(later, e) == Count(paid + later, e) - Count(paid, e) {
      CountConcat(paid, later, e);
    }
    ChargedByCount(later);
    LaterAtMost(Counts(later), maxTicks, funded);
  }

  lemma LaterAtMost(n: Entry -> nat, maxTicks: nat, funded: bool)
    requires FullCost(maxTicks) <= U128_MAX
    requires forall e :: e != ClaimTokens ==> n(e) <= 1
    requires n(ClaimTokens) <= AtLeastOne(maxTicks)
    requires n(Deploy) == 0 && n(PostFromNote) == 0 && (funded ==> n(FundDeal) == 0)
    ensures Weighted(n) <= BuyReserve(maxTicks, funded)
  {
    hide Part, Burn, Reserve;
    forall e | e != ClaimTokens ensures Part(n, e) == if n(e) == 0 then 0 else Burn(e) {
      PartAtMost(n, e, 1);
    }
    PartAtMost(n, ClaimTokens, AtLeastOne(maxTicks));
    ReserveAdds(maxTicks);
  }

  lemma ReserveAdds(maxTicks: nat)
    requires FullCost(maxTicks) <= U128_MAX
    ensures Reserve(maxTicks) == FullCost(maxTicks)
  {
    hide Burn;
  }

  // ----- Whole-SHELL funding -----

  /** `min_deploy_shells_with_overhead`. */
  function MinDeployShells(maxTicks: nat, surplus: nat): nat {
    var required := Saturate(Reserve(maxTicks) + surplus);
    AtLeastOne((required + SHELL_UNIT - 1) / SHELL_UNIT)
  }

  /** The smallest whole number of SHELL that funds the requirement, so a deal funded with it survives
      every clean run. */
  lemma MinDeployFundsEveryRun(maxTicks: nat, surplus: nat, run: seq<Entry>)
    requires CleanRun(run, maxTicks) && FullCost(maxTicks) + surplus <= U128_MAX
    ensures Charged(run) + surplus <= MinDeployShells(maxTicks, surplus) * SHELL_UNIT
    ensures (MinDeployShells(maxTicks, surplus) - 1) * SHELL_UNIT < FullCost(maxTicks) + surplus
  {
    CleanRunCostsAtMost(run, maxTicks);
  }
}
