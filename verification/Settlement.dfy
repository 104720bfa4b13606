/** Settlement formulas: fee, rebate, net burn and the two burns, in the integer widths of the source. */
module Settlement {
  import opened Numbers

  /** The bps constants, each a `u32`. */
  datatype Rates = Rates(platformFeeBps: nat, rebateMaxBps: nat, rebateSlopeBps: nat)

  const CANONICAL := Rates(250, 200, 4)

  /** `bps * n * value / 10000` before any width is imposed. */
  function Exact(bps: nat, n: nat, value: nat): nat {
    bps * n * value / 10_000
  }

  /** `mul_bps`: the product wraps at 128 bits (unchecked arithmetic), the quotient is cut to 64. */
  function MulBps(bps: nat, n: nat, value: nat): nat {
    bps * n * value % TWO_128 / 10_000 % TWO_64
  }

  function Fee(n: nat, p: nat, c: Rates): nat {
    MulBps(c.platformFeeBps, n, p)
  }

  /** The slope product saturates at 64 bits before the cap is applied. */
  function RebateRate(n: nat, c: Rates): nat {
    var slope := if c.rebateSlopeBps * n <= U64_MAX then c.rebateSlopeBps * n else U64_MAX;
    if slope <= c.rebateMaxBps then slope else c.rebateMaxBps
  }

  function Rebate(n: nat, p: nat, c: Rates): nat {
    MulBps(RebateRate(n, c), n, p)
  }

  /** The saturating difference of the two rates. */
  function NetRate(n: nat, c: Rates): nat {
    if RebateRate(n, c) <= c.platformFeeBps then c.platformFeeBps - RebateRate(n, c) else 0
  }

  function NetBurn(n: nat, p: nat, c: Rates): nat {
    MulBps(NetRate(n, c), n, p)
  }

  ghost predicate FeeFits(n: nat, p: nat, c: Rates) {
    Exact(c.platformFeeBps, n, p) <= U64_MAX
  }

  // ----- Arithmetic -----

  lemma ProductMonotone(r: nat, s: nat, n: nat, p: nat)
    requires r <= s
    ensures r * n * p <= s * n * p
  {
    MulMonotone(r, s, n);
    MulMonotone(r * n, s * n, p);
  }

  /** The widths are invisible exactly when the true quotient fits 64 bits. */
  lemma MulBpsExact(bps: nat, n: nat, value: nat)
    ensures MulBps(bps, n, value) == Exact(bps, n, value) <==> Exact(bps, n, value) <= U64_MAX
  {
    var product := bps * n * value;
    if product / 10_000 <= U64_MAX {
      assert product < 10_000 * TWO_64 < TWO_128;
    }
  }

  lemma FloorSum(x: nat, y: nat)
    ensures x / 10_000 + y / 10_000 <= (x + y) / 10_000 <= x / 10_000 + y / 10_000 + 1
  {
  }

  lemma RateMonotone(a: nat, b: nat, c: Rates)
    requires a <= b
    ensures RebateRate(a, c) <= RebateRate(b, c) && NetRate(b, c) <= NetRate(a, c)
  {
    MulMonotone(a, b, c.rebateSlopeBps);
  }

  lemma RateFits(rate: nat, n: nat, p: nat, c: Rates)
    requires FeeFits(n, p, c) && rate <= c.platformFeeBps
    ensures MulBps(rate, n, p) == Exact(rate, n, p)
  {
    ProductMonotone(rate, c.platformFeeBps, n, p);
    DivMonotone(rate * n * p, c.platformFeeBps * n * p);
    MulBpsExact(rate, n, p);
  }

  lemma DivMonotone(x: nat, y: nat)
    requires x <= y
    ensures x / 10_000 <= y / 10_000
  {
  }

  lemma Distribute(r: nat, s: nat, n: nat, p: nat)
    ensures (r + s) * n * p == r * n * p + s * n * p
  {
    MulDistributes(r, s, n);
    MulDistributes(r * n, s * n, p);
  }

  lemma DistributeTicks(r: nat, a: nat, b: nat, p: nat)
    ensures r * (a + b) * p == r * a * p + r * b * p
  {
    assert r * (a + b) == r * a + r * b;
    MulDistributes(r * a, r * b, p);
  }

  // ----- Laws -----

  /** The rebate rate grows in proportion to the ticks until it meets the cap, and stays there. */
  lemma RateIsProportional(n: nat, c: Rates)
    requires c.rebateMaxBps <= U64_MAX
    ensures c.rebateSlopeBps * n <= c.rebateMaxBps ==> RebateRate(n, c) == n * RebateRate(1, c)
    ensures c.rebateSlopeBps * n >= c.rebateMaxBps ==> RebateRate(n, c) == c.rebateMaxBps
    ensures c.rebateSlopeBps <= c.rebateMaxBps ==> RebateRate(1, c) == c.rebateSlopeBps
  {
    if n > 0 {
      MulMonotone(1, n, c.rebateSlopeBps);
    }
  }

  /** While the fee fits, fee, rebate and net burn are these parts of `n` ticks of price `p`: the rebate is
      quadratic in the ticks up to the cap and linear beyond, and the burn is the rest of the rate. */
  lemma AmountsAre(n: nat, p: nat, c: Rates)
    requires FeeFits(n, p, c) && c.rebateMaxBps <= c.platformFeeBps && c.platformFeeBps <= U64_MAX
    ensures Fee(n, p, c) == c.platformFeeBps * n * p / 10_000
    ensures c.rebateSlopeBps * n <= c.rebateMaxBps ==>
      && Rebate(n, p, c) == c.rebateSlopeBps * n * n * p / 10_000
      && NetBurn(n, p, c) == (c.platformFeeBps - c.rebateSlopeBps * n) * n * p / 10_000
    ensures c.rebateSlopeBps * n >= c.rebateMaxBps ==>
      && Rebate(n, p, c) == c.rebateMaxBps * n * p / 10_000
      && NetBurn(n, p, c) == (c.platformFeeBps - c.rebateMaxBps) * n * p / 10_000
  {
    hide MulBps;
    RateFits(c.platformFeeBps, n, p, c);
    RateFits(RebateRate(n, c), n, p, c);
    RateFits(NetRate(n, c), n, p, c);
  }

  /** A rebate rate that reaches the fee leaves nothing to burn. */
  lemma NoBurnBeyondTheFee(n: nat, p: nat, c: Rates)
    requires c.platformFeeBps <= U64_MAX
    requires c.platformFeeBps <= c.rebateSlopeBps * n && c.platformFeeBps <= c.rebateMaxBps
    ensures NetBurn(n, p, c) == 0
  {
    assert 0 * n * p == 0;
  }

  /** The canonical amounts: 4 bps per tick and tick up to 50 ticks, 200 bps beyond, of a fee of 250. */
  lemma CanonicalAmounts(n: nat, p: nat)
    requires FeeFits(n, p, CANONICAL)
    ensures Fee(n, p, CANONICAL) == 250 * n * p / 10_000
    ensures Rebate(n, p, CANONICAL) == if n <= 50 then 4 * n * n * p / 10_000 else 200 * n * p / 10_000
    ensures NetBurn(n, p, CANONICAL) == if n <= 50 then (250 - 4 * n) * n * p / 10_000 else 50 * n * p / 10_000
  {
    hide Fee, Rebate, NetBurn, FeeFits;
    AmountsAre(n, p, CANONICAL);
  }

  /** The fee is the rebate plus the net burn, up to one unit of rounding. */
  lemma FeeSplits(n: nat, p: nat, c: Rates)
    requires FeeFits(n, p, c) && c.rebateMaxBps <= c.platformFeeBps
    ensures Rebate(n, p, c) + NetBurn(n, p, c) <= Fee(n, p, c) <= Rebate(n, p, c) + NetBurn(n, p, c) + 1
  {
    var r, s := RebateRate(n, c), NetRate(n, c);
    RateFits(r, n, p, c);
    RateFits(s, n, p, c);
    RateFits(c.platformFeeBps, n, p, c);
    Distribute(r, s, n, p);
    FloorSum(r * n * p, s * n * p);
  }

  lemma FeeFitsBelow(a: nat, b: nat, p: nat, c: Rates)
    requires FeeFits(a + b, p, c)
    ensures FeeFits(a, p, c)
  {
    DistributeTicks(c.platformFeeBps, a, b, p);
    DivMonotone(c.platformFeeBps * a * p, c.platformFeeBps * (a + b) * p);
  }

  /** Splitting a deal never earns more rebate ... */
  lemma SplittingEarnsNothing(a: nat, b: nat, p: nat, c: Rates)
    requires FeeFits(a + b, p, c) && c.rebateMaxBps <= c.platformFeeBps
    ensures Rebate(a, p, c) + Rebate(b, p, c) <= Rebate(a + b, p, c)
  {
    var ra, rb, r := RebateRate(a, c), RebateRate(b, c), RebateRate(a + b, c);
    RateMonotone(a, a + b, c);
    RateMonotone(b, a + b, c);
    FeeFitsBelow(a, b, p, c);
    FeeFitsBelow(b, a, p, c);
    RateFits(ra, a, p, c);
    RateFits(rb, b, p, c);
    RateFits(r, a + b, p, c);
    ProductMonotone(ra, r, a, p);
    ProductMonotone(rb, r, b, p);
    DistributeTicks(r, a, b, p);
    FloorSum(ra * a * p, rb * b * p);
    DivMonotone(ra * a * p + rb * b * p, r * (a + b) * p);
  }

  /** ... and never burns less, up to one unit of rounding. */
  lemma SplittingBurnsNoLess(a: nat, b: nat, p: nat, c: Rates)
    requires FeeFits(a + b, p, c)
    ensures NetBurn(a + b, p, c) <= NetBurn(a, p, c) + NetBurn(b, p, c) + 1
  {
    var na, nb, n := NetRate(a, c), NetRate(b, c), NetRate(a + b, c);
    RateMonotone(a, a + b, c);
    RateMonotone(b, a + b, c);
    FeeFitsBelow(a, b, p, c);
    FeeFitsBelow(b, a, p, c);
    RateFits(na, a, p, c);
    RateFits(nb, b, p, c);
    RateFits(n, a + b, p, c);
    ProductMonotone(n, na, a, p);
    ProductMonotone(n, nb, b, p);
    DistributeTicks(n, a, b, p);
    FloorSum(na * a * p, nb * b * p);
    DivMonotone(n * (a + b) * p, na * a * p + nb * b * p);
  }

  /** The canonical net rate is worth at least 246 bps of one tick, and exactly that at one tick. */
  lemma CanonicalNetRate(n: nat)
    requires n >= 1
    ensures NetRate(n, CANONICAL) * n >= 246
    ensures NetRate(1, CANONICAL) == 246
  {
    if n < 50 {
      assert NetRate(n, CANONICAL) == 250 - 4 * n;
      assert (n - 1) * (246 - 4 * n) >= 0;
      assert (250 - 4 * n) * n == 246 + (n - 1) * (246 - 4 * n);
    } else {
      assert NetRate(n, CANONICAL) >= 50;
      MulMonotone(50, NetRate(n, CANONICAL), n);
    }
  }

  /** The documented promise that the net burn is positive for every positive number of ticks holds
      exactly from price 41 up, as long as the fee fits. */
  lemma NetBurnPositiveFromPrice41(p: nat)
    requires p <= U64_MAX
    ensures p >= 41 <==>
      forall n: nat :: 1 <= n <= U64_MAX && FeeFits(n, p, CANONICAL) ==> NetBurn(n, p, CANONICAL) > 0
  {
    if p >= 41 {
      forall n: nat | 1 <= n <= U64_MAX && FeeFits(n, p, CANONICAL) ensures NetBurn(n, p, CANONICAL) > 0 {
        var rate := NetRate(n, CANONICAL);
        CanonicalNetRate(n);
        RateFits(rate, n, p, CANONICAL);
        MulMonotone(246, rate * n, p);
        DivMonotone(10_000, rate * n * p);
      }
    } else {
      CanonicalNetRate(1);
      assert FeeFits(1, p, CANONICAL);
      RateFits(246, 1, p, CANONICAL);
      assert NetBurn(1, p, CANONICAL) == 0;
    }
  }

  /** Beyond 64 bits the promise fails at any price: this burn is a whole multiple of 2^64. */
  lemma NetBurnCanWrapToZero()
    ensures var n, p := 200 * 0x1_0000_0000, 0x1_0000_0000;
      n <= U64_MAX && p <= U64_MAX && NetBurn(n, p, CANONICAL) == 0 && !FeeFits(n, p, CANONICAL)
  {
  }

  // ----- Burns -----

  datatype ContestedBurn = ContestedBurn(buyer: nat, buyerRefund: nat, seller: nat, sellerRefund: nat)

  function Least(a: nat, b: nat): nat {
    if a <= b then a else b
  }

  /** An unresolved dispute. */
  function DisputeBurn(deposit: nat, bond: nat): ContestedBurn {
    ContestedBurn(Least(bond, deposit), 0, bond, 0)
  }

  /** A buyer who walks away from the trial tick. */
  function ProbeBurn(probeTick: nat, bond: nat): ContestedBurn {
    var seller := Least(probeTick, bond);
    ContestedBurn(probeTick, 0, seller, bond - seller)
  }

  /** A dispute destroys the whole bond and as much of the deposit as there is to match it; a trial the
      whole tick and as much of the bond, whose rest comes back. Both sides lose alike exactly when the
      clamped one holds enough. */
  lemma BurnsAreClamped(deposit: nat, tick: nat, bond: nat)
    ensures var d := DisputeBurn(deposit, bond);
      && d.seller == bond && d.sellerRefund == 0 == d.buyerRefund
      && d.buyer <= deposit && d.buyer <= bond
      && (d.buyer == d.seller <==> bond <= deposit) && (deposit < bond ==> d.buyer == deposit)
    ensures var b := ProbeBurn(tick, bond);
      && b.buyer == tick && b.buyerRefund == 0
      && b.seller + b.sellerRefund == bond && b.seller <= tick
      && (b.buyer == b.seller <==> tick <= bond) && (bond < tick ==> b.sellerRefund == 0)
  {
  }
}
