/** The stream state machine: what every call does to a deal, and what holds over whole runs. */
module StreamMachine {
  import opened Numbers
  import opened Settlement

  datatype Tick = Tick(index: nat, price: nat)

  datatype State =
    | Opening
    | Probe(tick: Tick)
    | Streaming(trusted: nat, pending: nat)
    | Stopping
    | Disputed(trusted: nat, contested: nat)
    | Closed

  datatype Outcome =
    | BurnBoth(burn: ContestedBurn)
    | AmicableSplit(toSellerTicks: nat, toBuyerRefund: nat)
    | SellerNoShow(toBuyerRefund: nat, sellerBondReturned: nat)

  datatype Violation = WrongState | ClaimDecreases | PendingBelowTrusted

  /** How a call ends: it returns nothing, an `InvariantError`, a settlement, or it panics. */
  datatype Answer = Done | Rejected(why: Violation) | Settled(outcome: Outcome) | Refused

  datatype Call =
    | ProbeAccepted
    | Claim(cumulative: nat)
    | Promote
    | BuyerStop
    | SellerStop
    | NoShow
    | Dispute
    | ReleaseDispute
    | DisputeTimeout
    | Close

  // ----- One call -----

  function TrustedTicks(s: State): nat {
    if s.Streaming? || s.Disputed? then s.trusted else 0
  }

  predicate Live(s: State) {
    s.Probe? || s.Streaming? || s.Disputed?
  }

  predicate Ended(s: State) {
    s.Stopping? || s.Closed?
  }

  /** The bond as a `u64`, saturated when `2P` does not fit. */
  function Bond(price: nat): nat {
    if 2 * price <= U64_MAX then 2 * price else U64_MAX
  }

  /** `check_invariant`. */
  function Checked(s: State): Answer {
    if s.Streaming? && s.pending < s.trusted then Rejected(PendingBelowTrusted) else Done
  }

  function Split(s: State): Answer {
    Settled(AmicableSplit(TrustedTicks(s), 0))
  }

  /** `buyer_dispute`, which accepts every state; the sum is a `u64` sum. */
  function DisputedFrom(s: State): State {
    var (trusted, pending) := match s
      case Streaming(t, p) => (t, p)
      case Disputed(t, c) => (t, (t + c) % TWO_64)
      case _ => (0, 0);
    Disputed(trusted, if pending >= trusted then pending - trusted else 0)
  }

  /** The state after a call, and its answer. */
  function Next(price: nat, s: State, call: Call): (State, Answer) {
    match call
    case ProbeAccepted => if s.Probe? then (Streaming(1, 1), Done) else (s, Rejected(WrongState))
    case Claim(n) =>
      if !s.Streaming? then (s, Rejected(WrongState))
      else if n < s.pending then (s, Rejected(ClaimDecreases))
      else var after := Streaming(s.pending, n); (after, Checked(after))
    case Promote =>
      if !s.Streaming? then (s, Rejected(WrongState))
      else var after := Streaming(s.pending, s.pending); (after, Checked(after))
    case BuyerStop =>
      if s.Probe? then (Stopping, Settled(BurnBoth(ProbeBurn(s.tick.price, Bond(price)))))
      else if Live(s) then (Stopping, Split(s))
      else (s, Refused)
    case SellerStop => if Live(s) then (Stopping, Split(s)) else (s, Refused)
    case NoShow => (Closed, Settled(SellerNoShow(0, 2 * price)))
    case Dispute => (DisputedFrom(s), Done)
    case ReleaseDispute => if Live(s) then (Closed, Split(s)) else (s, Refused)
    case DisputeTimeout => (Closed, Settled(BurnBoth(DisputeBurn(Bond(price), Bond(price)))))
    case Close => (Closed, Done)
  }

  function MaxBuyerLoss(price: nat, s: State): nat {
    var tail := match s
      case Probe(_) => 1
      case Streaming(t, p) => if p >= t then p - t else 0
      case Disputed(_, c) => c
      case _ => 0;
    if tail * price <= U128_MAX then tail * price else U128_MAX
  }

  // ----- Runs -----

  function Opened(price: nat): State {
    Probe(Tick(0, price))
  }

  /** The state after a run of calls. */
  function After(price: nat, s: State, calls: seq<Call>): State {
    if calls == [] then s else Next(price, After(price, s, calls[..|calls| - 1]), calls[|calls| - 1]).0
  }

  /** The answer to the last call of a non-empty run. */
  function LastAnswer(price: nat, s: State, calls: seq<Call>): Answer
    requires calls != []
  {
    Next(price, After(price, s, calls[..|calls| - 1]), calls[|calls| - 1]).1
  }

  /** Claims are `u64` values. */
  ghost predicate InRange(calls: seq<Call>) {
    forall i :: 0 <= i < |calls| && calls[i].Claim? ==> calls[i].cumulative <= U64_MAX
  }

  /** The accepted claims and promotions of a run, in order. */
  function Accepted(price: nat, s: State, calls: seq<Call>): seq<Call> {
    if calls == [] then []
    else
      var earlier, last := Accepted(price, s, calls[..|calls| - 1]), calls[|calls| - 1];
      if (last.Claim? || last.Promote?) && LastAnswer(price, s, calls) == Done then earlier + [last] else earlier
  }

  /** The largest accepted claim, or the one tick of the probe. */
  function LargestClaim(accepted: seq<Call>): nat {
    if accepted == [] then 1
    else
      var earlier, last := LargestClaim(accepted[..|accepted| - 1]), accepted[|accepted| - 1];
      if last.Claim? && last.cumulative > earlier then last.cumulative else earlier
  }

  /** What the history says is trusted: all that was pending before the last claim, or everything. */
  function TrustedByHistory(accepted: seq<Call>): nat {
    if accepted != [] && accepted[|accepted| - 1].Claim? then LargestClaim(accepted[..|accepted| - 1])
    else LargestClaim(accepted)
  }

  // ----- What the calls alone say -----

  /** Calls that neither end a deal nor dispute it. */
  predicate Quiet(call: Call) {
    call.ProbeAccepted? || call.Claim? || call.Promote?
  }

  predicate Terminal(call: Call) {
    !Quiet(call) && !call.Dispute?
  }

  /** The trial is still on: nothing but claims and promotions, all too early. */
  ghost predicate OnTrial(calls: seq<Call>) {
    forall i :: 0 <= i < |calls| ==> calls[i].Claim? || calls[i].Promote?
  }

  ghost predicate AllQuiet(calls: seq<Call>) {
    forall i :: 0 <= i < |calls| ==> Quiet(calls[i])
  }

  /** The trial was accepted and nothing was ended or disputed since. */
  ghost predicate OpenFor(calls: seq<Call>) {
    AllQuiet(calls) && ProbeAccepted in calls
  }

  /** The last call that was not quiet is a dispute. */
  ghost predicate InDispute(calls: seq<Call>) {
    exists i :: 0 <= i < |calls| && calls[i].Dispute? && forall j :: i < j < |calls| ==> Quiet(calls[j])
  }

  /** The last call that was not quiet ends a deal. */
  ghost predicate Over(calls: seq<Call>) {
    exists i :: 0 <= i < |calls| && Terminal(calls[i]) && forall j :: i < j < |calls| ==> Quiet(calls[j])
  }

  /** The trial was accepted before anything was ended or disputed. */
  ghost predicate Streamed(calls: seq<Call>) {
    exists i :: 0 <= i < |calls| && calls[i].ProbeAccepted? && AllQuiet(calls[..i])
  }

  ghost predicate HasEnded(calls: seq<Call>) {
    exists i :: 0 <= i < |calls| && Terminal(calls[i])
  }

  /** What the seller has earned: the trusted ticks of a deal that streamed and never ended. */
  ghost function Earned(price: nat, calls: seq<Call>): nat {
    if Streamed(calls) && !HasEnded(calls) then TrustedByHistory(Accepted(price, Opened(price), calls)) else 0
  }

  lemma TrialSteps(calls: seq<Call>, call: Call)
    ensures OnTrial(calls + [call]) <==> OnTrial(calls) && (call.Claim? || call.Promote?)
    ensures AllQuiet(calls + [call]) <==> AllQuiet(calls) && Quiet(call)
    ensures OpenFor(calls + [call]) <==> AllQuiet(calls) && Quiet(call) && (call.ProbeAccepted? || ProbeAccepted in calls)
  {
    var more := calls + [call];
    assert more[|calls|] == call && forall i :: 0 <= i < |calls| ==> more[i] == calls[i];
  }

  lemma DisputeSteps(calls: seq<Call>, call: Call)
    ensures InDispute(calls + [call]) <==> call.Dispute? || (InDispute(calls) && Quiet(call))
  {
    var more := calls + [call];
    assert more[|calls|] == call && forall i :: 0 <= i < |calls| ==> more[i] == calls[i];
    if InDispute(calls) && Quiet(call) {
      var i :| 0 <= i < |calls| && calls[i].Dispute? && forall j :: i < j < |calls| ==> Quiet(calls[j]);
      assert more[i].Dispute?;
    }
  }

  lemma OverSteps(calls: seq<Call>, call: Call)
    ensures Over(calls + [call]) <==> Terminal(call) || (Over(calls) && Quiet(call))
  {
    hide Terminal, Quiet;
    var more := calls + [call];
    assert more[|calls|] == call && forall i :: 0 <= i < |calls| ==> more[i] == calls[i];
    NotBoth(call);
    if Over(calls) && Quiet(call) {
      var i :| 0 <= i < |calls| && Terminal(calls[i]) && forall j :: i < j < |calls| ==> Quiet(calls[j]);
      assert Terminal(more[i]);
    }
  }

  lemma NotBoth(call: Call)
    ensures Terminal(call) ==> !Quiet(call)
  {
  }

  lemma EndedSteps(calls: seq<Call>, call: Call)
    ensures HasEnded(calls + [call]) <==> HasEnded(calls) || Terminal(call)
  {
    hide Terminal;
    var more := calls + [call];
    assert more[|calls|] == call && forall i :: 0 <= i < |calls| ==> more[i] == calls[i];
    if HasEnded(calls) {
      var i :| 0 <= i < |calls| && Terminal(calls[i]);
      assert Terminal(more[i]);
    }
  }

  lemma StreamedSteps(calls: seq<Call>, call: Call)
    ensures Streamed(calls + [call]) <==> Streamed(calls) || (call.ProbeAccepted? && AllQuiet(calls))
  {
    var more := calls + [call];
    assert more[..|calls|] == calls && more[|calls|] == call;
    assert forall i :: 0 <= i < |calls| ==> more[i] == calls[i] && more[..i] == calls[..i];
    if Streamed(calls) {
      var i :| 0 <= i < |calls| && calls[i].ProbeAccepted? && AllQuiet(calls[..i]);
      assert more[i].ProbeAccepted? && AllQuiet(more[..i]);
    }
  }

  /** A deal is in at most one of the four phases. */
  lemma PhasesExclude(calls: seq<Call>)
    ensures AllQuiet(calls) ==> !InDispute(calls) && !Over(calls) && !HasEnded(calls)
    ensures OnTrial(calls) ==> AllQuiet(calls) && !OpenFor(calls) && !Streamed(calls)
    ensures AllQuiet(calls) ==> OnTrial(calls) || OpenFor(calls)
    ensures OpenFor(calls) ==> AllQuiet(calls) && Streamed(calls)
    ensures Over(calls) ==> HasEnded(calls) && !InDispute(calls)
  {
    if OpenFor(calls) {
      var i :| 0 <= i < |calls| && calls[i] == ProbeAccepted;
      assert AllQuiet(calls[..i]);
    }
  }

  /** What every reachable state satisfies, against the calls that led to it. */
  ghost predicate Reachable(price: nat, s: State, calls: seq<Call>, accepted: seq<Call>) {
    match s
    case Opening => false
    case Probe(tick) => OnTrial(calls) && tick.price == price && accepted == []
    case Streaming(t, p) =>
      OpenFor(calls) && 1 <= t <= p <= U64_MAX && p == LargestClaim(accepted) && t == TrustedByHistory(accepted)
    case Disputed(t, c) =>
      && InDispute(calls)
      && (if Streamed(calls) && !HasEnded(calls) then
            t == TrustedByHistory(accepted) && t + c == LargestClaim(accepted) <= U64_MAX
          else t == 0 && c == 0)
    case _ => Over(calls)
  }

  /** The accepted claims and promotions after one more call. */
  function Extended(accepted: seq<Call>, call: Call, answer: Answer): seq<Call> {
    if (call.Claim? || call.Promote?) && answer == Done then accepted + [call] else accepted
  }

  lemma ClaimRaises(accepted: seq<Call>, n: nat)
    requires n >= LargestClaim(accepted)
    ensures LargestClaim(accepted + [Claim(n)]) == n && TrustedByHistory(accepted + [Claim(n)]) == LargestClaim(accepted)
  {
    assert (accepted + [Claim(n)])[..|accepted|] == accepted;
  }

  lemma PromotionKeeps(accepted: seq<Call>)
    ensures LargestClaim(accepted + [Promote]) == TrustedByHistory(accepted + [Promote]) == LargestClaim(accepted)
  {
    assert (accepted + [Promote])[..|accepted|] == accepted;
  }

  lemma ReachableStep(price: nat, s: State, calls: seq<Call>, accepted: seq<Call>, call: Call)
    requires Reachable(price, s, calls, accepted) && (call.Claim? ==> call.cumulative <= U64_MAX)
    ensures var (after, answer) := Next(price, s, call);
      Reachable(price, after, calls + [call], Extended(accepted, call, answer))
  {
    hide OnTrial, AllQuiet, OpenFor, InDispute, Over, Streamed, HasEnded, LargestClaim, TrustedByHistory;
    PhasesExclude(calls);
    PhasesExclude(calls + [call]);
    TrialSteps(calls, call);
    DisputeSteps(calls, call);
    OverSteps(calls, call);
    EndedSteps(calls, call);
    StreamedSteps(calls, call);
    PromotionKeeps(accepted);
    NothingAccepted();
    if call.Claim? && call.cumulative >= LargestClaim(accepted) {
      ClaimRaises(accepted, call.cumulative);
    }
  }

  lemma NothingAccepted()
    ensures LargestClaim([]) == TrustedByHistory([]) == 1
  {
  }

  lemma {:induction false} PipelineInvariant(price: nat, calls: seq<Call>)
    requires InRange(calls)
    ensures Reachable(price, After(price, Opened(price), calls), calls, Accepted(price, Opened(price), calls))
  {
    hide Reachable, Next;
    if calls == [] {
      OpenedIsReachable(price);
    } else {
      var earlier, last := calls[..|calls| - 1], calls[|calls| - 1];
      PipelineInvariant(price, earlier);
      assert calls == earlier + [last];
      ReachableStep(price, After(price, Opened(price), earlier), earlier, Accepted(price, Opened(price), earlier), last);
    }
  }

  lemma OpenedIsReachable(price: nat)
    ensures Reachable(price, Opened(price), [], [])
  {
  }

  /** The phase a deal is in follows from the calls alone, whatever they answered. */
  lemma PhaseIsHistory(price: nat, calls: seq<Call>)
    requires InRange(calls)
    ensures var s := After(price, Opened(price), calls);
      && !s.Opening? && (s.Probe? <==> OnTrial(calls)) && (s.Streaming? <==> OpenFor(calls))
      && (s.Disputed? <==> InDispute(calls)) && (Ended(s) <==> Over(calls))
  {
    hide After, OnTrial, AllQuiet, OpenFor, InDispute, Over, Streamed, HasEnded;
    PipelineInvariant(price, calls);
    PhasesExclude(calls);
  }

  /** In every state of every run: while streaming, `pending` is the largest accepted claim and `trusted` is
      what was pending before the last one, unless a promotion came later; in any state the trusted ticks
      are what the seller has earned. */
  lemma StateIsItsHistory(price: nat, calls: seq<Call>)
    requires InRange(calls)
    ensures var s := After(price, Opened(price), calls);
      var accepted := Accepted(price, Opened(price), calls);
      && (s.Probe? ==> s.tick.price == price && accepted == [])
      && (s.Streaming? ==>
            s == Streaming(TrustedByHistory(accepted), LargestClaim(accepted)) && 1 <= s.trusted <= s.pending <= U64_MAX)
      && (s.Disputed? ==> s.trusted + s.contested <= U64_MAX)
      && TrustedTicks(s) == Earned(price, calls)
  {
    hide After, Accepted, LargestClaim, TrustedByHistory, OnTrial, OpenFor, InDispute, Over, Streamed, HasEnded;
    PipelineInvariant(price, calls);
    PhasesExclude(calls);
  }

  /** Whoever ends a live deal by a split, the seller is paid exactly what its history made trusted, and
      nothing if the deal never streamed or had ended before: the contested tail is never part of it. */
  lemma SplitPaysTrustedOnly(price: nat, calls: seq<Call>)
    requires InRange(calls) && calls != []
    requires LastAnswer(price, Opened(price), calls).Settled?
    requires LastAnswer(price, Opened(price), calls).outcome.AmicableSplit?
    ensures LastAnswer(price, Opened(price), calls).outcome.toSellerTicks == Earned(price, calls[..|calls| - 1])
  {
    hide After, Accepted, Earned;
    StateIsItsHistory(price, calls[..|calls| - 1]);
  }

  /** The invariant error is unreachable. */
  lemma InvariantNeverBreaks(price: nat, calls: seq<Call>)
    requires InRange(calls) && calls != []
    ensures LastAnswer(price, Opened(price), calls) != Rejected(PendingBelowTrusted)
  {
    hide After, Accepted, Earned;
    StateIsItsHistory(price, calls[..|calls| - 1]);
  }

  ghost predicate LiveThroughout(price: nat, s: State, calls: seq<Call>) {
    Live(After(price, s, calls)) && (calls != [] ==> LiveThroughout(price, s, calls[..|calls| - 1]))
  }

  /** Trusted consumption never falls while the deal is live. */
  lemma {:induction false} TrustedNeverFalls(price: nat, calls: seq<Call>, more: seq<Call>)
    requires InRange(calls + more)
    requires LiveThroughout(price, Opened(price), calls + more)
    ensures TrustedTicks(After(price, Opened(price), calls)) <= TrustedTicks(After(price, Opened(price), calls + more))
    decreases |more|
  {
    hide Next, Accepted, Earned, LargestClaim, TrustedByHistory;
    if more == [] {
      assert calls + more == calls;
    } else {
      var earlier, last := calls + more[..|more| - 1], more[|more| - 1];
      assert calls + more == earlier + [last] && (earlier + [last])[..|earlier|] == earlier;
      InRangeBefore(earlier, last);
      TrustedNeverFalls(price, calls, more[..|more| - 1]);
      StateIsItsHistory(price, earlier);
      TrustedStep(price, After(price, Opened(price), earlier), last);
    }
  }

  lemma InRangeBefore(calls: seq<Call>, call: Call)
    requires InRange(calls + [call])
    ensures InRange(calls)
  {
    assert forall i :: 0 <= i < |calls| ==> (calls + [call])[i] == calls[i];
  }

  lemma TrustedStep(price: nat, s: State, call: Call)
    requires s.Streaming? ==> s.trusted <= s.pending
    requires Live(Next(price, s, call).0)
    ensures TrustedTicks(s) <= TrustedTicks(Next(price, s, call).0)
  {
  }

  /** On the trial one tick is at risk and on an ended deal nothing; else at-risk value plus trusted value is
      claimed value, with no saturation, and a dispute moves neither. */
  lemma RiskIsTheContestedTail(price: nat, calls: seq<Call>)
    requires InRange(calls) && price <= U64_MAX
    ensures var s := After(price, Opened(price), calls);
      var d := DisputedFrom(s);
      && (s.Streaming? ==>
            && TrustedTicks(s) * price + MaxBuyerLoss(price, s) == s.pending * price <= U128_MAX
            && TrustedTicks(d) == TrustedTicks(s) && MaxBuyerLoss(price, d) == MaxBuyerLoss(price, s))
      && (s.Disputed? ==>
            && s.trusted + s.contested <= U64_MAX && d == s
            && TrustedTicks(s) * price + MaxBuyerLoss(price, s) == (s.trusted + s.contested) * price <= U128_MAX)
      && (s.Probe? ==> MaxBuyerLoss(price, s) == price) && (Ended(s) ==> MaxBuyerLoss(price, s) == 0)
  {
    hide After, Accepted;
    PipelineInvariant(price, calls);
    var s := After(price, Opened(price), calls);
    if s.Streaming? {
      TailValue(price, s.trusted, s.pending);
    } else if s.Disputed? {
      TailValue(price, s.trusted, s.trusted + s.contested);
    }
  }

  /** A pending claim below the trusted one, which no run leads to, would put nothing at risk. */
  lemma LossSaturates(price: nat, s: State)
    requires s.Streaming? && s.pending <= s.trusted
    ensures MaxBuyerLoss(price, s) == 0 && DisputedFrom(s) == Disputed(s.trusted, 0)
  {
    assert 0 * price == 0;
  }

  lemma TailValue(price: nat, trusted: nat, pending: nat)
    requires trusted <= pending <= U64_MAX && price <= U64_MAX
    ensures trusted * price + (pending - trusted) * price == pending * price
    ensures (pending - trusted) * price <= pending * price <= U128_MAX
  {
    MulMonotone(pending - trusted, pending, price);
    Product64(pending, price);
  }

  lemma Product64(x: nat, y: nat)
    requires x <= U64_MAX && y <= U64_MAX
    ensures x * y <= U128_MAX
  {
    MulMonotone(x, U64_MAX, y);
    MulMonotone(y, U64_MAX, U64_MAX);
  }

  // ----- At most one settlement -----

  function Settlements(price: nat, s: State, calls: seq<Call>): nat {
    if calls == [] then 0
    else Settlements(price, s, calls[..|calls| - 1]) + if LastAnswer(price, s, calls).Settled? then 1 else 0
  }

  /** A caller can check this before the call: three calls have no guard of their own against a deal that
      has already ended. */
  predicate Guarded(s: State, call: Call) {
    Ended(s) ==> !call.Dispute? && !call.NoShow? && !call.DisputeTimeout?
  }

  ghost predicate GuardedRun(price: nat, s: State, calls: seq<Call>) {
    calls != [] ==>
      GuardedRun(price, s, calls[..|calls| - 1]) && Guarded(After(price, s, calls[..|calls| - 1]), calls[|calls| - 1])
  }

  /** On an ended deal, a guarded call settles nothing and leaves the deal ended. */
  lemma EndedStaysEnded(price: nat, s: State, call: Call)
    requires Ended(s)
    ensures Guarded(s, call) <==> !Next(price, s, call).1.Settled? && Ended(Next(price, s, call).0)
    ensures call.BuyerStop? || call.SellerStop? || call.ReleaseDispute? ==> Next(price, s, call) == (s, Refused)
  {
  }

  /** Whatever state it starts in, a guarded run settles at most once, and has then ended. */
  lemma {:induction false} GuardedRunsSettleOnce(price: nat, s: State, calls: seq<Call>)
    requires GuardedRun(price, s, calls)
    ensures Settlements(price, s, calls) <= 1
    ensures Settlements(price, s, calls) == 1 ==> Ended(After(price, s, calls))
    ensures Ended(s) ==> Settlements(price, s, calls) == 0 && Ended(After(price, s, calls))
  {
    if calls != [] {
      var earlier, last := calls[..|calls| - 1], calls[|calls| - 1];
      GuardedRunsSettleOnce(price, s, earlier);
      if Ended(After(price, s, earlier)) {
        EndedStaysEnded(price, After(price, s, earlier), last);
      }
    }
  }

  /** With `settled` settlements behind it, every guarded continuation from `s` stays at one. */
  ghost predicate StaysAtOne(price: nat, s: State, settled: nat) {
    forall more :: GuardedRun(price, s, more) ==> settled + Settlements(price, s, more) <= 1
  }

  /** The guard is exact: once a guarded run has settled, one more call keeps every guarded continuation
      at one settlement if and only if that call is guarded. */
  lemma GuardIsExact(price: nat, s: State, calls: seq<Call>, call: Call)
    requires GuardedRun(price, s, calls) && Settlements(price, s, calls) == 1
    ensures Guarded(After(price, s, calls), call) <==>
      StaysAtOne(price, After(price, s, calls + [call]), Settlements(price, s, calls + [call]))
  {
    GuardedRunsSettleOnce(price, s, calls);
    assert (calls + [call])[..|calls|] == calls && (calls + [call])[|calls|] == call;
    NextIsExact(price, After(price, s, calls), call);
  }

  lemma NextIsExact(price: nat, ended: State, call: Call)
    requires Ended(ended)
    ensures var (after, answer) := Next(price, ended, call);
      Guarded(ended, call) <==> StaysAtOne(price, after, 1 + if answer.Settled? then 1 else 0)
  {
    hide Settlements, GuardedRun;
    EndedStaysEnded(price, ended, call);
    var after := Next(price, ended, call).0;
    if Guarded(ended, call) {
      forall more | GuardedRun(price, after, more) ensures Settlements(price, after, more) == 0 {
        GuardedRunsSettleOnce(price, after, more);
      }
    } else if call.Dispute? {
      OneMoreStop(price, after);
    } else {
      NoMoreCalls(price, after);
    }
  }

  lemma NoMoreCalls(price: nat, s: State)
    ensures GuardedRun(price, s, []) && Settlements(price, s, []) == 0
  {
  }

  lemma OneMoreStop(price: nat, s: State)
    requires s.Disputed?
    ensures GuardedRun(price, s, [BuyerStop]) && Settlements(price, s, [BuyerStop]) == 1
  {
    var stop := [BuyerStop];
    assert stop[..0] == [];
    assert GuardedRun(price, s, []) && Settlements(price, s, []) == 0;
    assert LastAnswer(price, s, stop) == Next(price, s, BuyerStop).1;
  }

  /** Without the guard: a stopped deal that is disputed again settles a second time. */
  lemma UnguardedDisputeSettlesTwice(price: nat)
    ensures Settlements(price, Opened(price), [BuyerStop, Dispute, BuyerStop]) == 2
  {
    var one, two, three := [BuyerStop], [BuyerStop, Dispute], [BuyerStop, Dispute, BuyerStop];
    assert one[..0] == [] && two[..1] == one && three[..2] == two;
    var s := Opened(price);
    assert After(price, s, one) == Stopping && LastAnswer(price, s, one).Settled?;
    assert After(price, s, two) == Disputed(0, 0) && LastAnswer(price, s, two) == Done;
    assert LastAnswer(price, s, three).Settled?;
    assert Settlements(price, s, one) == 1;
    assert Settlements(price, s, two) == 1;
  }

  // ----- The bond -----

  /** A burn accounts for the whole `2P` bond, burned plus refunded, exactly when `2P` fits a `u64`. */
  lemma BondIsAccountedFor(price: nat)
    requires price <= U64_MAX
    ensures var stop := Next(price, Opened(price), BuyerStop).1.outcome.burn;
      stop.seller + stop.sellerRefund == 2 * price && stop.buyer == price <==> price <= U64_MAX / 2
    ensures forall s :: var burn := Next(price, s, DisputeTimeout).1.outcome.burn;
      burn.seller + burn.sellerRefund == 2 * price && burn.buyer == burn.seller <==> price <= U64_MAX / 2
  {
  }

  // ----- One more call -----

  lemma OneMoreCall(price: nat, calls: seq<Call>, call: Call)
    requires InRange(calls) && (call.Claim? ==> call.cumulative <= U64_MAX)
    ensures var open, more := Opened(price), calls + [call];
      var (after, answer) := Next(price, After(price, open, calls), call);
      && InRange(more) && After(price, open, more) == after
      && Settlements(price, open, more) == Settlements(price, open, calls) + (if answer.Settled? then 1 else 0)
      && Accepted(price, open, more) == Extended(Accepted(price, open, calls), call, answer)
  {
    hide Next;
    assert (calls + [call])[..|calls|] == calls;
  }

  lemma OnlySettlement(price: nat, calls: seq<Call>, call: Call)
    requires InRange(calls) && (call.NoShow? || call.DisputeTimeout?)
    requires GuardedRun(price, Opened(price), calls + [call])
    ensures !Over(calls) && Settlements(price, Opened(price), calls) == 0
  {
    hide After, Over, Settlements;
    assert (calls + [call])[..|calls|] == calls;
    PhaseIsHistory(price, calls);
    GuardedRunsSettleOnce(price, Opened(price), calls);
  }

  lemma DisputeFreezes(price: nat, s: State)
    requires s.Streaming? && s.trusted <= s.pending
    ensures MaxBuyerLoss(price, DisputedFrom(s)) == MaxBuyerLoss(price, s)
  {
  }

  lemma TrialBurn(price: nat)
    requires price <= U64_MAX
    ensures var burn := ProbeBurn(price, Bond(price));
      burn.buyer == burn.seller == price && burn.buyerRefund == 0 && burn.seller + burn.sellerRefund == Bond(price)
  {
  }

  // ----- The machine -----

  /** The machine itself. A panic is a call that answers `Refused` and leaves the state alone. The ghost
      fields remember the calls made and how many of them settled. */
  class Machine {
    var state: State
    const price: nat
    const sellerBond: nat
    ghost var history: seq<Call>
    ghost var settled: nat

    ghost predicate Valid()
      reads this
    {
      && price <= U64_MAX && sellerBond == 2 * price && InRange(history)
      && state == After(price, Opened(price), history)
      && settled == Settlements(price, Opened(price), history)
    }

    /** The claims and promotions accepted so far. */
    ghost function Claims(): seq<Call>
      reads this
    {
      Accepted(price, Opened(price), history)
    }

    constructor Open(price: nat)
      requires price <= U64_MAX
      ensures Valid() && state == Opened(price) && this.price == price && history == [] && settled == 0
    {
      state := Probe(Tick(0, price));
      this.price := price;
      sellerBond := 2 * price;
      history, settled := [], 0;
    }

    /** A machine whose calls were guarded settles at most once, and is over when it has: every further stop
        or release is then refused. */
    lemma SettlesOnce()
      requires Valid() && GuardedRun(price, Opened(price), history)
      ensures settled <= 1 && (settled == 1 ==> Over(history))
    {
      hide After, Settlements, GuardedRun, InRange, Over;
      GuardedRunsSettleOnce(price, Opened(price), history);
      PhaseIsHistory(price, history);
    }

    /** The trial is accepted once, and only before anything but refused claims and promotions happened. */
    method OnProbeAccepted() returns (r: Answer)
      requires Valid()
      modifies this
      ensures Valid() && history == old(history) + [ProbeAccepted] && settled == old(settled)
      ensures r == Next(price, old(state), ProbeAccepted).1
      ensures r == (if OnTrial(old(history)) then Done else Rejected(WrongState))
      ensures r == Done ==> state == Streaming(1, 1) && Claims() == []
      ensures r != Done ==> state == old(state)
    {
      hide After, Accepted, Settlements, InRange, OnTrial, OpenFor, InDispute, Over, Earned, GuardedRun, LargestClaim;
      PhaseIsHistory(price, history);
      StateIsItsHistory(price, history);
      OneMoreCall(price, history, ProbeAccepted);
      history := history + [ProbeAccepted];
      match state
      case Probe(_) =>
        state := Streaming(1, 1);
        r := Done;
      case _ => r := Rejected(WrongState);
    }

    /** A claim is accepted exactly while the stream is open and not below the largest one so far, which
        then becomes trusted. */
    method OnClaim(cumulative: nat) returns (r: Answer)
      requires Valid() && cumulative <= U64_MAX
      modifies this
      ensures Valid() && history == old(history) + [Claim(cumulative)] && settled == old(settled)
      ensures r == Next(price, old(state), Claim(cumulative)).1
      ensures var largest := LargestClaim(old(Claims()));
        && r == (if !OpenFor(old(history)) then Rejected(WrongState)
                 else if cumulative < largest then Rejected(ClaimDecreases) else Done)
        && (r == Done ==>
              && state == Streaming(largest, cumulative)
              && Claims() == old(Claims()) + [Claim(cumulative)] && LargestClaim(Claims()) == cumulative)
      ensures r != Done ==> state == old(state) && Claims() == old(Claims())
    {
      hide After, Accepted, Settlements, InRange, OnTrial, OpenFor, InDispute, Over, Earned, GuardedRun, LargestClaim;
      PhaseIsHistory(price, history);
      StateIsItsHistory(price, history);
      OneMoreCall(price, history, Claim(cumulative));
      if cumulative >= LargestClaim(Claims()) {
        ClaimRaises(Claims(), cumulative);
      }
      history := history + [Claim(cumulative)];
      match state
      case Streaming(_, pending) =>
        if cumulative < pending {
          return Rejected(ClaimDecreases);
        }
        state := Streaming(pending, cumulative);
        r := CheckInvariant();
      case _ => r := Rejected(WrongState);
    }

    /** A promotion makes the largest claim trusted. */
    method OnPromote() returns (r: Answer)
      requires Valid()
      modifies this
      ensures Valid() && history == old(history) + [Promote] && settled == old(settled)
      ensures r == Next(price, old(state), Promote).1
      ensures r == (if OpenFor(old(history)) then Done else Rejected(WrongState))
      ensures var largest := LargestClaim(old(Claims()));
        r == Done ==> state == Streaming(largest, largest) && LargestClaim(Claims()) == largest
      ensures r != Done ==> state == old(state) && Claims() == old(Claims())
    {
      hide After, Accepted, Settlements, InRange, OnTrial, OpenFor, InDispute, Over, Earned, GuardedRun, LargestClaim;
      PhaseIsHistory(price, history);
      StateIsItsHistory(price, history);
      OneMoreCall(price, history, Promote);
      PromotionKeeps(Claims());
      history := history + [Promote];
      match state
      case Streaming(_, pending) =>
        state := Streaming(pending, pending);
        r := CheckInvariant();
      case _ => r := Rejected(WrongState);
    }

    /** The buyer walks away: from the trial one tick burns on each side and the rest of the bond goes
        back; later the seller is paid what it earned; a deal that is over is refused. */
    method BuyerStop() returns (r: Answer)
      requires Valid()
      modifies this
      ensures Valid() && history == old(history) + [Call.BuyerStop]
      ensures r == Next(price, old(state), Call.BuyerStop).1
      ensures Over(old(history)) ==> r == Refused && state == old(state) && settled == old(settled)
      ensures !Over(old(history)) ==> r.Settled? && state == Stopping && settled == old(settled) + 1
      ensures OnTrial(old(history)) ==>
        && r.Settled? && r.outcome.BurnBoth?
        && var burn := r.outcome.burn;
        && burn.buyer == burn.seller == price && burn.buyerRefund == 0
        && burn.seller + burn.sellerRefund == Bond(price)
      ensures !Over(old(history)) && !OnTrial(old(history)) ==>
        r == Settled(AmicableSplit(Earned(price, old(history)), 0))
    {
      hide After, Accepted, Settlements, InRange, OnTrial, OpenFor, InDispute, Over, Earned, GuardedRun, LargestClaim;
      PhaseIsHistory(price, history);
      StateIsItsHistory(price, history);
      OneMoreCall(price, history, Call.BuyerStop);
      TrialBurn(price);
      history := history + [Call.BuyerStop];
      match state {
        case Probe(tick) =>
          var bond := if sellerBond <= U64_MAX then sellerBond else U64_MAX;
          r := Settled(BurnBoth(ProbeBurn(tick.price, bond)));
        case Streaming(_, _) => r := Settled(AmicableSplit(TrustedTicks(state), 0));
        case Disputed(_, _) => r := Settled(AmicableSplit(TrustedTicks(state), 0));
        case _ => return Refused;
      }
      state := Stopping;
      settled := settled + 1;
    }

    /** The seller walks away: it is paid what it earned, on the trial nothing. */
    method SellerStop() returns (r: Answer)
      requires Valid()
      modifies this
      ensures Valid() && history == old(history) + [Call.SellerStop]
      ensures r == Next(price, old(state), Call.SellerStop).1
      ensures Over(old(history)) ==> r == Refused && state == old(state) && settled == old(settled)
      ensures !Over(old(history)) ==>
        && r == Settled(AmicableSplit(Earned(price, old(history)), 0))
        && state == Stopping && settled == old(settled) + 1
    {
      hide After, Accepted, Settlements, InRange, OnTrial, OpenFor, InDispute, Over, Earned, GuardedRun, LargestClaim;
      PhaseIsHistory(price, history);
      StateIsItsHistory(price, history);
      OneMoreCall(price, history, Call.SellerStop);
      history := history + [Call.SellerStop];
      match state {
        case Opening | Stopping | Closed => return Refused;
        case _ => r := Settled(AmicableSplit(TrustedTicks(state), 0));
      }
      state := Stopping;
      settled := settled + 1;
    }

    /** Has no guard: it settles in every state, and is the only settlement if calls were guarded. */
    method SellerNoShow() returns (r: Answer)
      requires Valid()
      modifies this
      ensures Valid() && history == old(history) + [NoShow]
      ensures r == Next(price, old(state), NoShow).1
      ensures r == Settled(Outcome.SellerNoShow(0, 2 * price)) && state == Closed && settled == old(settled) + 1
      ensures GuardedRun(price, Opened(price), history) ==> !Over(old(history)) && settled == 1
    {
      hide After, Accepted, Settlements, InRange, OnTrial, OpenFor, InDispute, Over, Earned, GuardedRun, LargestClaim;
      PhaseIsHistory(price, history);
      StateIsItsHistory(price, history);
      OneMoreCall(price, history, NoShow);
      if GuardedRun(price, Opened(price), history + [NoShow]) {
        OnlySettlement(price, history, NoShow);
      }
      history := history + [NoShow];
      r := Settled(Outcome.SellerNoShow(0, sellerBond));
      state := Closed;
      settled := settled + 1;
    }

    /** A dispute freezes what is claimed but not trusted; it earns nobody anything. */
    method BuyerDispute()
      requires Valid()
      modifies this
      ensures Valid() && history == old(history) + [Dispute] && settled == old(settled)
      ensures state.Disputed? && state.trusted == Earned(price, old(history)) == Earned(price, history)
      ensures OpenFor(old(history)) ==>
        && state.trusted + state.contested == LargestClaim(old(Claims()))
        && MaxBuyerLoss(price, state) == MaxBuyerLoss(price, old(state))
      ensures InDispute(old(history)) ==> state == old(state)
      ensures OnTrial(old(history)) || Over(old(history)) ==> state == Disputed(0, 0)
    {
      hide After, Accepted, Settlements, InRange, OnTrial, OpenFor, InDispute, Over, Earned, GuardedRun, LargestClaim;
      PhaseIsHistory(price, history);
      StateIsItsHistory(price, history);
      OneMoreCall(price, history, Dispute);
      StateIsItsHistory(price, history + [Dispute]);
      if state.Streaming? {
        DisputeFreezes(price, state);
      }
      history := history + [Dispute];
      var trusted: nat, pending: nat := 0, 0;
      match state {
        case Streaming(t, p) => trusted, pending := t, p;
        case Disputed(t, c) => trusted, pending := t, (t + c) % TWO_64;
        case _ =>
      }
      state := Disputed(trusted, if pending >= trusted then pending - trusted else 0);
    }

    /** The seller concedes: the contested tail is dropped, what was earned is paid. */
    method ReleaseDispute() returns (r: Answer)
      requires Valid()
      modifies this
      ensures Valid() && history == old(history) + [Call.ReleaseDispute]
      ensures r == Next(price, old(state), Call.ReleaseDispute).1
      ensures Over(old(history)) ==> r == Refused && state == old(state) && settled == old(settled)
      ensures !Over(old(history)) ==>
        && r == Settled(AmicableSplit(Earned(price, old(history)), 0))
        && state == Closed && settled == old(settled) + 1
    {
      hide After, Accepted, Settlements, InRange, OnTrial, OpenFor, InDispute, Over, Earned, GuardedRun, LargestClaim;
      PhaseIsHistory(price, history);
      StateIsItsHistory(price, history);
      OneMoreCall(price, history, Call.ReleaseDispute);
      history := history + [Call.ReleaseDispute];
      match state {
        case Opening | Stopping | Closed => return Refused;
        case _ => r := Settled(AmicableSplit(TrustedTicks(state), 0));
      }
      state := Closed;
      settled := settled + 1;
    }

    /** Has no guard either: the bond burns on both sides alike, whatever the state. */
    method ResolveDisputeTimeout() returns (r: Answer)
      requires Valid()
      modifies this
      ensures Valid() && history == old(history) + [DisputeTimeout]
      ensures r == Next(price, old(state), DisputeTimeout).1
      ensures r == Settled(BurnBoth(ContestedBurn(Bond(price), 0, Bond(price), 0)))
      ensures state == Closed && settled == old(settled) + 1
      ensures GuardedRun(price, Opened(price), history) ==> !Over(old(history)) && settled == 1
    {
      hide After, Accepted, Settlements, InRange, OnTrial, OpenFor, InDispute, Over, Earned, GuardedRun, LargestClaim;
      PhaseIsHistory(price, history);
      StateIsItsHistory(price, history);
      OneMoreCall(price, history, DisputeTimeout);
      if GuardedRun(price, Opened(price), history + [DisputeTimeout]) {
        OnlySettlement(price, history, DisputeTimeout);
      }
      history := history + [DisputeTimeout];
      var bond := if sellerBond <= U64_MAX then sellerBond else U64_MAX;
      r := Settled(BurnBoth(DisputeBurn(bond, bond)));
      state := Closed;
      settled := settled + 1;
    }

    /** Closing settles nothing and ends the deal. */
    method Close()
      requires Valid()
      modifies this
      ensures Valid() && history == old(history) + [Call.Close] && settled == old(settled)
      ensures state == Closed && Over(history) && Earned(price, history) == 0
    {
      hide After, Accepted, Settlements, InRange, OnTrial, OpenFor, InDispute, Over, Earned, GuardedRun, LargestClaim;
      OneMoreCall(price, history, Call.Close);
      PhaseIsHistory(price, history + [Call.Close]);
      StateIsItsHistory(price, history + [Call.Close]);
      history := history + [Call.Close];
      state := Closed;
    }

    /** The check fails exactly on a pending claim below the trusted one, which no run of calls leads to. */
    method CheckInvariant() returns (r: Answer)
      ensures r == Done || r == Rejected(PendingBelowTrusted)
      ensures r == Checked(state)
      ensures r != Done <==> state.Streaming? && state.pending < state.trusted
      ensures Valid() ==> r == Done
    {
      hide After, Accepted, Settlements, InRange, OnTrial, OpenFor, InDispute, Over, Earned, GuardedRun, LargestClaim;
      if Valid() {
        StateIsItsHistory(price, history);
      }
      match state
      case Streaming(trusted, pending) =>
        if pending < trusted {
          return Rejected(PendingBelowTrusted);
        }
        r := Done;
      case _ => r := Done;
    }
  }
}
