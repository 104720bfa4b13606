/** The seller's claim loop: which cumulative totals it claims as billable usage comes in. */
module ClaimDriver {
  import opened Text
  import opened Numbers
  import opened ClaimLimits

  /** One pass of the loop, after its wait: the usage it reads, and whether admitted requests still run. */
  datatype Round = Round(usage: nat, busy: bool)

  /** The wait between two claims and the shortest time for a tick, in seconds. */
  datatype Pace = Pace(interval: nat, floor: nat)

  function Lesser(a: nat, b: nat): nat {
    if a <= b then a else b
  }

  /** `claim_target`: usage fills the paid tick of the probe first, and never exceeds the budget. */
  function ClaimTarget(usage: nat, budget: nat): nat {
    Lesser(if usage >= PROBE_SEED then usage else PROBE_SEED, budget)
  }

  /** Without a wait only the limit per call is left. */
  function Allowance(pace: Pace): nat {
    if pace.interval == 0 then MAX_CLAIM_DELTA else DeltaLimit(pace.interval, pace.floor)
  }

  /** The total after a round. A claim that exhausts the budget is put off while requests run. */
  function NextTotal(claimed: nat, round: Round, pace: Pace, budget: nat): nat {
    var next := Lesser(ClaimTarget(round.usage, budget), Saturate(claimed + Allowance(pace)));
    if next <= claimed || (next == budget && round.busy) then claimed else next
  }

  /** The claims made from a total on. */
  function Driven(rounds: seq<Round>, claimed: nat, pace: Pace, budget: nat): seq<Claim> {
    if rounds == [] || claimed >= budget then []
    else
      var next := NextTotal(claimed, rounds[0], pace, budget);
      (if next > claimed then [Claim(pace.interval, next - claimed)] else []) + Driven(rounds[1..], next, pace, budget)
  }

  /** The loop of `drive_advance`, from the total the chain reports; a total that no accepted probe leads to,
      or one beyond the budget, is refused. */
  method Drive(pending: nat, rounds: seq<Round>, pace: Pace, budget: nat) returns (total: Option<nat>, claims: seq<Claim>)
    ensures total.Some? <==> PROBE_SEED <= pending <= budget
    ensures total.Some? ==>
      claims == Driven(rounds, pending, pace, budget) && total.value == pending + Tokens(claims)
  {
    hide Tokens, NextTotal, Driven;
    claims := [];
    if pending < TICK_SIZE || pending > budget {
      return None, claims;
    }
    var claimed, i := pending, 0;
    NoTokens();
    assert rounds[0..] == rounds && [] + Driven(rounds, pending, pace, budget) == Driven(rounds, pending, pace, budget);
    while i < |rounds| && claimed < budget
      invariant i <= |rounds| && claimed == pending + Tokens(claims)
      invariant claims + Driven(rounds[i..], claimed, pace, budget) == Driven(rounds, pending, pace, budget)
    {
      var next := NextTotal(claimed, rounds[i], pace, budget);
      DrivenNext(rounds, i, claimed, pace, budget, claims);
      if next > claimed {
        TokensAppend(claims, Claim(pace.interval, next - claimed));
        claims := claims + [Claim(pace.interval, next - claimed)];
        claimed := next;
      }
      i := i + 1;
    }
    DrivenEnds(rounds[i..], claimed, pace, budget);
    assert claims + [] == claims;
    total := Some(claimed);
  }

  lemma NoTokens()
    ensures Tokens([]) == 0
  {
  }

  lemma {:induction false} TokensAppend(claims: seq<Claim>, c: Claim)
    ensures Tokens(claims + [c]) == Tokens(claims) + c.delta
  {
    if claims == [] {
      assert [c][1..] == [] && claims + [c] == [c];
    } else {
      TokensAppend(claims[1..], c);
      assert (claims + [c])[1..] == claims[1..] + [c];
    }
  }

  lemma DrivenNext(rounds: seq<Round>, i: nat, claimed: nat, pace: Pace, budget: nat, before: seq<Claim>)
    requires i < |rounds| && claimed < budget
    ensures var next := NextTotal(claimed, rounds[i], pace, budget);
      && next >= claimed
      && before + Driven(rounds[i..], claimed, pace, budget) ==
         (if next > claimed then before + [Claim(pace.interval, next - claimed)] else before)
         + Driven(rounds[i + 1..], next, pace, budget)
  {
    assert rounds[i..][1..] == rounds[i + 1..];
  }

  lemma DrivenEnds(rounds: seq<Round>, claimed: nat, pace: Pace, budget: nat)
    requires rounds == [] || claimed >= budget
    ensures Driven(rounds, claimed, pace, budget) == []
  {
  }

  // ----- What a round claims -----

  /** A total the chain takes, the budget allows and the usage supports; the first tick needs no usage. */
  ghost predicate Supported(total: nat, claimed: nat, usage: nat, pace: Pace, budget: nat) {
    && claimed <= total <= budget && (total <= usage || total <= TICK_SIZE)
    && total - claimed <= TICK_SIZE
    && (pace.interval > 0 && pace.floor > 0 ==> (total - claimed) * pace.floor <= pace.interval * TICK_SIZE)
  }

  /** A round claims the largest total that is supported, unless that would exhaust the budget while requests
      still run: then it claims nothing. */
  lemma NextIsLargest(claimed: nat, round: Round, pace: Pace, budget: nat, total: nat)
    requires claimed <= budget <= U128_MAX && (claimed <= round.usage || claimed <= TICK_SIZE)
    ensures var next := NextTotal(claimed, round, pace, budget);
      && Supported(next, claimed, round.usage, pace, budget)
      && (Supported(total, claimed, round.usage, pace, budget) ==>
            total <= next || (next == claimed && round.busy && Supported(budget, claimed, round.usage, pace, budget)))
      && (next == budget && claimed < budget ==> !round.busy)
  {
    hide Allowance;
    var next := NextTotal(claimed, round, pace, budget);
    AllowanceMeans(next - claimed, pace);
    AllowanceMeans(budget - claimed, pace);
    if claimed <= total {
      AllowanceMeans(total - claimed, pace);
    }
  }

  lemma AllowanceMeans(delta: nat, pace: Pace)
    ensures delta <= Allowance(pace) <==>
      delta <= TICK_SIZE && (pace.interval > 0 && pace.floor > 0 ==> delta * pace.floor <= pace.interval * TICK_SIZE)
  {
    LimitMeans(delta, pace.interval, pace.floor);
  }

  // ----- What the chain admits -----

  /** One round stays within the limit, the budget and the usage. */
  lemma RoundIsAdmitted(claimed: nat, round: Round, pace: Pace, budget: nat)
    requires claimed <= budget
    ensures var next := NextTotal(claimed, round, pace, budget);
      && claimed <= next <= claimed + Allowance(pace) && next <= budget
      && (next > claimed ==> next <= ClaimTarget(round.usage, budget))
  {
  }

  /** However usage arrives, no claim exceeds the rate limit and the total exceeds neither the budget nor the
      largest usage read, unless it did before. */
  lemma {:induction false} DrivenIsAdmitted(rounds: seq<Round>, claimed: nat, pace: Pace, budget: nat, most: nat)
    requires claimed <= budget && (pace.interval > 0 || pace.floor == 0)
    requires forall i :: 0 <= i < |rounds| ==> rounds[i].usage <= most
    ensures var claims := Driven(rounds, claimed, pace, budget);
      && WithinLimit(claims, pace.floor)
      && (forall i :: 0 <= i < |claims| ==> claims[i].delta > 0)
      && claimed + Tokens(claims) <= budget
      && (Tokens(claims) == 0 || claimed + Tokens(claims) <= ClaimTarget(most, budget))
  {
    hide NextTotal, Allowance, DeltaLimit, ClaimTarget, WithinLimit, Tokens;
    if rounds == [] || claimed >= budget {
      NothingAdmitted(pace);
    } else {
      var next := NextTotal(claimed, rounds[0], pace, budget);
      var later := Driven(rounds[1..], next, pace, budget);
      RoundIsAdmitted(claimed, rounds[0], pace, budget);
      TargetGrows(rounds[0].usage, most, budget);
      DrivenIsAdmitted(rounds[1..], next, pace, budget, most);
      if next > claimed {
        AllowanceIsLimit(pace);
        OneMoreAdmitted(Claim(pace.interval, next - claimed), later, pace.floor);
      } else {
        assert [] + later == later;
      }
    }
  }

  lemma NothingAdmitted(pace: Pace)
    ensures WithinLimit([], pace.floor) && Tokens([]) == 0
  {
  }

  lemma OneMoreAdmitted(c: Claim, later: seq<Claim>, floor: nat)
    requires 0 < c.delta <= DeltaLimit(c.elapsed, floor) && WithinLimit(later, floor)
    requires forall i :: 0 <= i < |later| ==> later[i].delta > 0
    ensures WithinLimit([c] + later, floor) && Tokens([c] + later) == c.delta + Tokens(later)
    ensures forall i :: 0 <= i < |[c] + later| ==> ([c] + later)[i].delta > 0
  {
    hide DeltaLimit;
    assert ([c] + later)[1..] == later;
  }

  lemma TargetGrows(usage: nat, most: nat, budget: nat)
    requires usage <= most
    ensures ClaimTarget(usage, budget) <= ClaimTarget(most, budget)
  {
  }

  lemma AllowanceIsLimit(pace: Pace)
    requires pace.interval > 0 || pace.floor == 0
    ensures Allowance(pace) == DeltaLimit(pace.interval, pace.floor)
  {
  }

  // ----- What the reserve pays for -----

  /** As long as every round finds the whole budget used up, each claim is a whole tick. */
  lemma {:induction false} BacklogIsWholeTicks(rounds: seq<Round>, claimed: nat, pace: Pace, budget: nat, left: nat)
    requires claimed + left * TICK_SIZE == budget <= U128_MAX && Allowance(pace) == TICK_SIZE
    requires forall i :: 0 <= i < |rounds| ==> rounds[i].usage >= budget
    ensures var claims := Driven(rounds, claimed, pace, budget); WholeTicks(claims) && |claims| <= left
  {
    hide Allowance;
    if rounds != [] && claimed < budget {
      BacklogRound(claimed, rounds[0], pace, budget, left);
      var next := NextTotal(claimed, rounds[0], pace, budget);
      BacklogIsWholeTicks(rounds[1..], next, pace, budget, if next > claimed then left - 1 else left);
    }
  }

  lemma BacklogRound(claimed: nat, round: Round, pace: Pace, budget: nat, left: nat)
    requires claimed + left * TICK_SIZE == budget <= U128_MAX && Allowance(pace) == TICK_SIZE
    requires round.usage >= budget && claimed < budget
    ensures NextTotal(claimed, round, pace, budget) in {claimed, claimed + TICK_SIZE} && left > 0
  {
    hide Allowance;
  }

  /** Then the reserve always covers the deal ... */
  lemma BacklogIsCovered(rounds: seq<Round>, pace: Pace, funded: nat, maxTicks: nat)
    requires 1 <= funded <= maxTicks && FullCost(maxTicks) <= U128_MAX && funded * TICK_SIZE <= U128_MAX
    requires pace.interval >= pace.floor
    requires forall i :: 0 <= i < |rounds| ==> rounds[i].usage >= funded * TICK_SIZE
    ensures LifeCost(Driven(rounds, PROBE_SEED, pace, funded * TICK_SIZE)) <= Reserve(maxTicks)
  {
    hide Driven, Charged, Reserve, FullCost;
    FullPace(pace);
    BacklogIsWholeTicks(rounds, PROBE_SEED, pace, funded * TICK_SIZE, funded - 1);
    ReserveIsTight(maxTicks, |Driven(rounds, PROBE_SEED, pace, funded * TICK_SIZE)|);
  }

  lemma FullPace(pace: Pace)
    requires pace.interval >= pace.floor
    ensures Allowance(pace) == TICK_SIZE
  {
    if pace.interval > 0 {
      LimitMeans(TICK_SIZE, pace.interval, pace.floor);
    }
  }

  const SLOW: seq<Round> := [Round(1_333_334, false), Round(1_666_667, false), Round(2_000_000, false)]

  /** ... but not when usage comes in slower than a tick per claim: at the canonical pace the loop itself
      claims the second tick of a two-tick deal in thirds, and overdraws the reserve. */
  lemma SlowUsageOverdraws()
    ensures var claims := Driven(SLOW, PROBE_SEED, Pace(60, 60), 2 * TICK_SIZE);
      Cumulative(claims) == 2 * TICK_SIZE && LifeCost(claims) > Reserve(2)
  {
    hide LifeCost, Reserve, Cumulative;
    var pace, budget := Pace(60, 60), 2 * TICK_SIZE;
    var a, b, c := Claim(60, 333_334), Claim(60, 333_333), Claim(60, 333_333);
    assert SLOW[1..][1..] == SLOW[2..] && SLOW[2..][1..] == [];
    assert Driven([], budget, pace, budget) == [];
    assert Driven(SLOW[2..], 1_666_667, pace, budget) == [c];
    assert Driven(SLOW[1..], 1_333_334, pace, budget) == [b] + [c];
    assert Driven(SLOW, PROBE_SEED, pace, budget) == [a] + ([b] + [c]);
    assert Driven(SLOW, PROBE_SEED, pace, budget) == Claims(60, [333_334, 333_333, 333_333]);
    ThirdsOverdraw();
  }
}
