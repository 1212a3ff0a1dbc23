/** Detecting an arbitrage A -> B -> C -> A over three constant-product pairs. */
module PriceMonitor {
  import opened Prelude
  import opened ConstantProduct
  import opened QuoteEngine

  datatype PairReserves = PairReserves(token0: string, token1: string, reserve0: int, reserve1: int)

  datatype Step = Step(pair: string, tokenIn: string, tokenOut: string, amountIn: int, amountOut: int)

  datatype Opportunity = Opportunity(
    startToken: string, amountIn: int, amountOut: int, profit: int, steps: seq<Step>, dex: string)

  /** The reserves in the direction of `tokenIn`; `Err` when the pair does not hold that token. */
  function Direction(tokenIn: string, r: PairReserves): Result<(int, int)> {
    if ToLower(tokenIn) == ToLower(r.token0) then Ok((r.reserve0, r.reserve1))
    else if ToLower(tokenIn) == ToLower(r.token1) then Ok((r.reserve1, r.reserve0))
    else Err
  }

  function SimulateSwap(amountIn: int, tokenIn: string, r: PairReserves): Result<int> {
    var d := Direction(tokenIn, r);
    if d.Err? then Err else
    var (reserveIn, reserveOut) := d.value;
    var amountInWithFee := amountIn * 997;
    var numerator := amountInWithFee * reserveOut;
    var denominator := reserveIn * 1000 + amountInWithFee;
    Ok(if denominator == 0 then 0 else TruncDiv(numerator, denominator))
  }

  function PairKey(a: string, b: string): string {
    ToLower(a) + "-" + ToLower(b)
  }

  /** A fetched pair is `None` when there is no such pair; a failed fetch or swap makes the whole check `None`. */
  function CheckTriangularArb(
    tokenA: string, tokenB: string, tokenC: string, amountIn: int, gasCost: int, dex: string,
    ab: Option<PairReserves>, bc: Option<PairReserves>, ca: Option<PairReserves>): Option<Opportunity>
  {
    if ab.None? || bc.None? || ca.None? then None else
    var outAB := SimulateSwap(amountIn, tokenA, ab.value);
    if outAB.Err? || outAB.value == 0 then None else
    var outBC := SimulateSwap(outAB.value, tokenB, bc.value);
    if outBC.Err? || outBC.value == 0 then None else
    var outCA := SimulateSwap(outBC.value, tokenC, ca.value);
    if outCA.Err? || outCA.value == 0 then None else
    var profit := if outCA.value > amountIn then outCA.value - amountIn else 0;
    if profit <= gasCost then None else
    Some(Opportunity(ToLower(tokenA), amountIn, outCA.value, profit - gasCost,
                     [Step(PairKey(tokenA, tokenB), ToLower(tokenA), ToLower(tokenB), amountIn, outAB.value),
                      Step(PairKey(tokenB, tokenC), ToLower(tokenB), ToLower(tokenC), outAB.value, outBC.value),
                      Step(PairKey(tokenC, tokenA), ToLower(tokenC), ToLower(tokenA), outBC.value, outCA.value)],
                     dex))
  }

  /** The monitor, the quote engine and the backrun simulation price a swap alike: on a pair that holds the token
      the two quotes are the same number, and with positive reserves and amount it is the simulated output. */
  lemma {:induction false} QuotesAgree(chain: Chain, hop: Hop, amountIn: int, r: PairReserves)
    requires hop.pair.Some? && chain(hop.pair.value) == Some(PairData(r.reserve0, r.reserve1, r.token0))
    requires Direction(hop.tokenIn, r).Ok? && QuoteV2Hop(chain, hop, amountIn).Some?
    ensures SimulateSwap(amountIn, hop.tokenIn, r) == Ok(QuoteV2Hop(chain, hop, amountIn).value)
    ensures var (reserveIn, reserveOut) := Direction(hop.tokenIn, r).value;
            amountIn > 0 && reserveIn > 0 && reserveOut > 0 ==>
              QuoteV2Hop(chain, hop, amountIn).value == AmountOut(reserveIn, reserveOut, amountIn)
  {}

  /** The pair answers for the token with the leg's reserves. */
  predicate Reads(tokenIn: string, pair: Option<PairReserves>, leg: Leg) {
    && pair.Some?
    && (if ToLower(tokenIn) == ToLower(pair.value.token0)
        then leg.reserveIn == pair.value.reserve0 && leg.reserveOut == pair.value.reserve1
        else ToLower(tokenIn) == ToLower(pair.value.token1)
             && leg.reserveIn == pair.value.reserve1 && leg.reserveOut == pair.value.reserve0)
  }

  /** Three tokens and the pairs fetched between them. */
  datatype Market = Market(
    tokenA: string, tokenB: string, tokenC: string, dex: string,
    ab: Option<PairReserves>, bc: Option<PairReserves>, ca: Option<PairReserves>)
  {
    function Check(amountIn: int, gasCost: int): Option<Opportunity> {
      CheckTriangularArb(tokenA, tokenB, tokenC, amountIn, gasCost, dex, ab, bc, ca)
    }

    predicate Has(legs: seq<Leg>) {
      |legs| == 3 && Reads(tokenA, ab, legs[0]) && Reads(tokenB, bc, legs[1]) && Reads(tokenC, ca, legs[2])
    }
  }

  lemma SwapLeg(a: nat, x: nat, tokenIn: string, pair: Option<PairReserves>, leg: Leg, pin: nat, pout: nat)
    requires Reads(tokenIn, pair, leg) && x > 0
    requires x * pin <= a * pout
    ensures var y := SimulateSwap(x, tokenIn, pair.value).value;
            && y >= 0 && (y > 0 ==> leg.reserveOut > 0)
            && y * (1000 * leg.reserveIn * pin) <= a * (997 * leg.reserveOut * pout)
            && (y > 0 && pin > 0 ==> y * (1000 * leg.reserveIn * pin) < a * (997 * leg.reserveOut * pout))
  {
    V2OutBounds(x, leg.reserveIn, leg.reserveOut);
    var y := SimulateSwap(x, tokenIn, pair.value).value;
    assert V2Out(x, leg.reserveIn, leg.reserveOut) == Some(y);
    ChainArithmetic(a, x, y, leg.reserveIn, leg.reserveOut, pin, pout);
    if y > 0 && pin > 0 { StrictArithmetic(a, x, y, leg.reserveIn, leg.reserveOut, pin, pout); }
    if y > 0 && leg.reserveOut == 0 { MulPos(y, leg.reserveIn * 1000 + x * 997); }
  }

  /** The fee on what goes in makes the bound strict. */
  lemma StrictArithmetic(a: nat, x: nat, y: nat, rin: nat, rout: nat, pin: nat, pout: nat)
    requires x > 0 && y > 0 && pin > 0
    requires x * pin <= a * pout
    requires y * (rin * 1000 + x * 997) <= x * 997 * rout
    ensures y * (1000 * rin * pin) < a * (997 * rout * pout)
  {
    MulPos(x * 997, y);
    assert y * (rin * 1000 + x * 997) == y * (1000 * rin) + (x * 997) * y;
    MulLt(y * (1000 * rin), x * (997 * rout), pin);
    MulLe(x * pin, a * pout, 997 * rout);
    assert y * (1000 * rin * pin) == y * (1000 * rin) * pin;
    assert x * (997 * rout) * pin == x * pin * (997 * rout);
    assert a * pout * (997 * rout) == a * (997 * rout * pout);
  }

  /** Three swaps in a row that all yield something: within the fees less comes back than went in. */
  lemma {:induction false} ThreeSwaps(m: Market, amountIn: nat, legs: seq<Leg>, x: int, y: int, z: int)
    requires m.Has(legs) && amountIn > 0 && x != 0 && y != 0 && z != 0
    requires SimulateSwap(amountIn, m.tokenA, m.ab.value) == Ok(x)
    requires SimulateSwap(x, m.tokenB, m.bc.value) == Ok(y)
    requires SimulateSwap(y, m.tokenC, m.ca.value) == Ok(z)
    requires ProductOut(legs, 3) <= ProductIn(legs, 3)
    ensures 0 < z < amountIn
  {
    SwapLeg(amountIn, amountIn, m.tokenA, m.ab, legs[0], ProductIn(legs, 0), ProductOut(legs, 0));
    assert x * ProductIn(legs, 1) <= amountIn * ProductOut(legs, 1);
    SwapLeg(amountIn, x, m.tokenB, m.bc, legs[1], ProductIn(legs, 1), ProductOut(legs, 1));
    assert y * ProductIn(legs, 2) <= amountIn * ProductOut(legs, 2);
    SwapLeg(amountIn, y, m.tokenC, m.ca, legs[2], ProductIn(legs, 2), ProductOut(legs, 2));
    OutputsPositive(legs);
    NoGainArithmetic(amountIn, z, ProductIn(legs, 3), ProductOut(legs, 3));
  }

  lemma {:induction false} OutputsPositive(legs: seq<Leg>)
    requires |legs| == 3 && legs[0].reserveOut > 0 && legs[1].reserveOut > 0 && legs[2].reserveOut > 0
    ensures ProductOut(legs, 3) > 0
  {
    MulPos(997 * legs[0].reserveOut, ProductOut(legs, 0));
    MulPos(997 * legs[1].reserveOut, ProductOut(legs, 1));
    MulPos(997 * legs[2].reserveOut, ProductOut(legs, 2));
  }

  lemma NoGainArithmetic(a: nat, y: nat, pin: nat, pout: nat)
    requires 0 < pout <= pin && y * pin < a * pout
    ensures y < a
  {
    MulLe(pout, pin, y);
    if y >= a { MulLe(a, y, pout); }
  }

  /** The arguments for which the check can be relied on: neither negative, or an amount from which nothing comes
      back. */
  predicate Reliable(amountIn: int, gasCost: int) {
    (amountIn >= 0 && gasCost >= 0) || amountIn == 0 || amountIn == 1
  }

  /** No opportunity is reported around three pairs unless the fees are overcome: with 997/1000 taken at each hop, the
      product of the output reserves must exceed the product of the input reserves. */
  lemma {:induction false} NoArbitrageWithinFees(m: Market, amountIn: int, gasCost: int, legs: seq<Leg>)
    requires m.Has(legs) && Reliable(amountIn, gasCost)
    requires ProductOut(legs, 3) <= ProductIn(legs, 3)
    ensures m.Check(amountIn, gasCost) == None
  {
    if amountIn == 0 {
      assert SimulateSwap(0, m.tokenA, m.ab.value).value == 0;
    } else {
      var x := SimulateSwap(amountIn, m.tokenA, m.ab.value);
      if x.Ok? && x.value != 0 {
        var y := SimulateSwap(x.value, m.tokenB, m.bc.value);
        if y.Ok? && y.value != 0 {
          var z := SimulateSwap(y.value, m.tokenC, m.ca.value);
          if z.Ok? && z.value != 0 {
            ThreeSwaps(m, amountIn, legs, x.value, y.value, z.value);
          }
        }
      }
    }
  }

  /** The product of the output reserves does not exceed that of the input reserves. */
  predicate Balanced(legs: seq<Leg>)
    requires |legs| == 3
  {
    legs[0].reserveOut * legs[1].reserveOut * legs[2].reserveOut
    <= legs[0].reserveIn * legs[1].reserveIn * legs[2].reserveIn
  }

  lemma {:induction false} BalancedIsWithinFees(legs: seq<Leg>)
    requires |legs| == 3 && Balanced(legs)
    ensures ProductOut(legs, 3) <= ProductIn(legs, 3)
  {
    UnfoldProducts(legs);
    var outs := legs[0].reserveOut * legs[1].reserveOut * legs[2].reserveOut;
    assert outs >= 0 by { MulLe(0, legs[0].reserveOut * legs[1].reserveOut, legs[2].reserveOut); }
  }

  lemma {:induction false} UnfoldProducts(legs: seq<Leg>)
    requires |legs| == 3
    ensures ProductIn(legs, 3) == 1000 * 1000 * 1000 * (legs[0].reserveIn * legs[1].reserveIn * legs[2].reserveIn)
    ensures ProductOut(legs, 3) == 997 * 997 * 997 * (legs[0].reserveOut * legs[1].reserveOut * legs[2].reserveOut)
  {
    assert ProductIn(legs, 2) == 1000 * legs[1].reserveIn * ProductIn(legs, 1);
    assert ProductIn(legs, 1) == 1000 * legs[0].reserveIn * ProductIn(legs, 0);
    assert ProductOut(legs, 2) == 997 * legs[1].reserveOut * ProductOut(legs, 1);
    assert ProductOut(legs, 1) == 997 * legs[0].reserveOut * ProductOut(legs, 0);
    UnfoldArithmetic(legs[0].reserveIn, legs[1].reserveIn, legs[2].reserveIn, 1000);
    UnfoldArithmetic(legs[0].reserveOut, legs[1].reserveOut, legs[2].reserveOut, 997);
  }

  lemma UnfoldArithmetic(x: int, y: int, z: int, c: int)
    ensures c * z * (c * y * (c * x * 1)) == c * c * c * (x * y * z)
  {
    assert c * y * (c * x) == c * c * (x * y);
    assert c * z * (c * c * (x * y)) == c * c * c * (x * y * z);
  }

  /** In particular there is none around three balanced pairs. */
  lemma {:induction false} NoArbitrageWithoutImbalance(m: Market, amountIn: int, gasCost: int, legs: seq<Leg>)
    requires m.Has(legs) && Reliable(amountIn, gasCost) && Balanced(legs)
    ensures m.Check(amountIn, gasCost) == None
  {
    BalancedIsWithinFees(legs);
    NoArbitrageWithinFees(m, amountIn, gasCost, legs);
  }

  /** Exactly for which arguments balanced pairs are never reported, and likewise pairs that stay within the fees. */
  lemma {:induction false} NoArbitrageExactly(amountIn: int, gasCost: int)
    ensures (forall m: Market, legs | m.Has(legs) && Balanced(legs) :: m.Check(amountIn, gasCost) == None)
       <==> Reliable(amountIn, gasCost)
    ensures (forall m: Market, legs | m.Has(legs) && ProductOut(legs, 3) <= ProductIn(legs, 3) ::
               m.Check(amountIn, gasCost) == None)
       <==> Reliable(amountIn, gasCost)
  {
    if Reliable(amountIn, gasCost) {
      forall m: Market, legs | m.Has(legs) && ProductOut(legs, 3) <= ProductIn(legs, 3)
        ensures m.Check(amountIn, gasCost) == None
      {
        NoArbitrageWithinFees(m, amountIn, gasCost, legs);
      }
      forall m: Market, legs | m.Has(legs) && Balanced(legs) ensures m.Check(amountIn, gasCost) == None {
        NoArbitrageWithoutImbalance(m, amountIn, gasCost, legs);
      }
    } else if amountIn < 0 {
      var m, legs := NegativeAmountLooksProfitable(amountIn, gasCost);
      BalancedIsWithinFees(legs);
    } else {
      var m, legs := NegativeGasLooksProfitable(amountIn, gasCost);
      BalancedIsWithinFees(legs);
    }
  }

  /** Three pairs that each hold just the reserves of their leg. */
  function MarketOf(legs: seq<Leg>): (m: Market)
    requires |legs| == 3
    ensures m.Has(legs)
  {
    assert ToLower("a") == "a" && ToLower("b") == "b" && ToLower("c") == "c";
    Market("a", "b", "c", "uniswap_v2",
           Some(PairReserves("a", "b", legs[0].reserveIn, legs[0].reserveOut)),
           Some(PairReserves("b", "c", legs[1].reserveIn, legs[1].reserveOut)),
           Some(PairReserves("c", "a", legs[2].reserveIn, legs[2].reserveOut)))
  }

  lemma ReportedWhen(legs: seq<Leg>, amountIn: int, gasCost: int, x: int, y: int, z: int)
    requires |legs| == 3 && x != 0 && y != 0 && z != 0
    requires V2Out(amountIn, legs[0].reserveIn, legs[0].reserveOut) == Some(x)
    requires V2Out(x, legs[1].reserveIn, legs[1].reserveOut) == Some(y)
    requires V2Out(y, legs[2].reserveIn, legs[2].reserveOut) == Some(z)
    requires gasCost < 0 || z - amountIn > gasCost
    ensures MarketOf(legs).Check(amountIn, gasCost).Some?
  {
    var m := MarketOf(legs);
    assert m.Has(legs);
    assert SimulateSwap(amountIn, m.tokenA, m.ab.value) == Ok(x);
    assert SimulateSwap(x, m.tokenB, m.bc.value) == Ok(y);
    assert SimulateSwap(y, m.tokenC, m.ca.value) == Ok(z);
  }

  /** A negative amount changes sign on the way through pairs with hardly its own size in reserve, and looks like a gain
      above any gas cost. */
  lemma NegativeAmountLooksProfitable(amountIn: int, gasCost: int) returns (m: Market, legs: seq<Leg>)
    requires amountIn < 0
    ensures m.Has(legs) && Balanced(legs) && m.Check(amountIn, gasCost).Some?
  {
    var n, gain := -amountIn, if gasCost >= 0 then gasCost + 1 else 1;
    legs := [Leg(n, 3000 * gain), Leg(994009 * gain - 1, 1), Leg(gain, 331 * gain)];
    BalancedArithmetic(n, 994009 * gain - 1, gain);
    var z := NegativeAmountOutputs(n, gain);
    ReportedWhen(legs, amountIn, gasCost, -997000 * gain, 994009 * gain, z);
    m := MarketOf(legs);
  }

  lemma BalancedArithmetic(n: int, m: int, gain: int)
    requires n > 0 && gain > 0 && m >= 993000 * gain
    ensures 3000 * gain * 1 * (331 * gain) <= n * m * gain
  {
    SquareArithmetic(gain);
    MulLe(993000 * gain, m, gain);
    MulLe(1, n, m);
    MulLe(1 * m, n * m, gain);
  }

  lemma SquareArithmetic(gain: int)
    ensures 3000 * gain * 1 * (331 * gain) == 993000 * gain * gain
  {}

  lemma NegativeAmountOutputs(n: int, gain: int) returns (z: int)
    requires n > 0 && gain > 0
    ensures V2Out(-n, n, 3000 * gain) == Some(-997000 * gain)
    ensures V2Out(-997000 * gain, 994009 * gain - 1, 1) == Some(994009 * gain)
    ensures V2Out(994009 * gain, gain, 331 * gain) == Some(z) && z >= gain
  {
    var q := 997 * gain;
    assert -n * 997 * (3000 * gain) == -(1000 * q * (3 * n));
    ExactQuotient(-(1000 * q), 3 * n);
    assert -(1000 * q) * (3 * n) == -(1000 * q * (3 * n));
    assert V2Out(-n, n, 3000 * gain) == Some(TruncDiv(-(1000 * q) * (3 * n), 3 * n));
    z := ThirdOutput(gain);
  }

  lemma ExactQuotient(q: int, d: int)
    requires d > 0
    ensures TruncDiv(q * d, d) == q
  {
    if q >= 0 {
      MulLe(0, q, d);
      ExactDivision(q, d);
    } else {
      MulLt(q, 0, d);
      assert -(q * d) == (-q) * d;
      ExactDivision(-q, d);
    }
  }

  lemma ExactDivision(q: int, d: int)
    requires d > 0
    ensures q * d / d == q
  {
    var r := q * d / d;
    EuclideanBounds(q * d, d);
    assert (r + 1) * d == r * d + d;
    if r < q { MulLe(r + 1, q, d); }
    if r > q { MulLt(q, r, d); }
  }

  lemma ThirdOutput(gain: int) returns (z: int)
    requires gain > 0
    ensures V2Out(994009 * gain, gain, 331 * gain) == Some(z) && z >= gain
  {
    var num, d := 994009 * gain * 997 * (331 * gain), gain * 1000 + 994009 * gain * 997;
    z := V2Out(994009 * gain, gain, 331 * gain).value;
    assert gain * d == 991027973 * (gain * gain) && num == 994009 * 997 * 331 * (gain * gain);
    MulLe(0, gain, gain);
    BoundedMeansAtMostQuotient(num, d, gain);
  }

  /** With a negative gas cost even a loss counts as a profit, once anything comes back. */
  lemma NegativeGasLooksProfitable(amountIn: int, gasCost: int) returns (m: Market, legs: seq<Leg>)
    requires amountIn >= 2 && gasCost < 0
    ensures m.Has(legs) && Balanced(legs) && m.Check(amountIn, gasCost).Some?
  {
    var n := amountIn;
    legs := [Leg(10 * n, 10997), Leg(997 * 997, 1001), Leg(997, 1001)];
    assert n * 997 * 10997 == 997 * (10997 * n);
    ExactQuotient(997, 10997 * n);
    assert 10 * n * (997 * 997) * 997 == n * (10 * 997 * 997 * 997);
    MulLe(2, n, 10 * 997 * 997 * 997);
    ReportedWhen(legs, amountIn, gasCost, 997, 1, 1);
    m := MarketOf(legs);
  }

  /** The output of a leg with reserves on both sides, for an amount that is not zero, is what the pair gives. */
  lemma LegGives(tokenIn: string, pair: Option<PairReserves>, leg: Leg, x: int, y: int)
    requires Reads(tokenIn, pair, leg) && leg.reserveIn > 0 && leg.reserveOut > 0 && x > 0
    ensures SimulateSwap(x, tokenIn, pair.value) == Ok(y) <==> Gives(leg.reserveIn, leg.reserveOut, x, y)
    ensures SimulateSwap(x, tokenIn, pair.value).Ok? && SimulateSwap(x, tokenIn, pair.value).value >= 0
  {
    OutputIsGiven(leg.reserveIn, leg.reserveOut, x, y);
    OutputInRange(leg.reserveIn, leg.reserveOut, x);
    assert SimulateSwap(x, tokenIn, pair.value) == Ok(AmountOut(leg.reserveIn, leg.reserveOut, x));
  }

  predicate Liquid(legs: seq<Leg>) {
    forall leg | leg in legs :: leg.reserveIn > 0 && leg.reserveOut > 0
  }

  /** The pairs give `x`, `y` and `z` in turn, none of them zero. */
  predicate GivesAround(legs: seq<Leg>, amountIn: int, x: int, y: int, z: int)
    requires |legs| == 3
  {
    && x > 0 && Gives(legs[0].reserveIn, legs[0].reserveOut, amountIn, x)
    && y > 0 && Gives(legs[1].reserveIn, legs[1].reserveOut, x, y)
    && z > 0 && Gives(legs[2].reserveIn, legs[2].reserveOut, y, z)
  }

  /** The three swaps yield `x`, `y` and `z` in turn, none of them zero. */
  predicate SwapsAround(m: Market, amountIn: int, x: int, y: int, z: int)
    requires m.ab.Some? && m.bc.Some? && m.ca.Some?
  {
    && x != 0 && SimulateSwap(amountIn, m.tokenA, m.ab.value) == Ok(x)
    && y != 0 && SimulateSwap(x, m.tokenB, m.bc.value) == Ok(y)
    && z != 0 && SimulateSwap(y, m.tokenC, m.ca.value) == Ok(z)
  }

  lemma {:induction false} SwapsAreGiven(m: Market, legs: seq<Leg>, amountIn: int, x: int, y: int, z: int)
    requires m.Has(legs) && Liquid(legs) && amountIn > 0
    ensures SwapsAround(m, amountIn, x, y, z) <==> GivesAround(legs, amountIn, x, y, z)
  {
    LegGives(m.tokenA, m.ab, legs[0], amountIn, x);
    if x > 0 {
      LegGives(m.tokenB, m.bc, legs[1], x, y);
      if y > 0 { LegGives(m.tokenC, m.ca, legs[2], y, z); }
    }
  }

  lemma SwapsReported(m: Market, amountIn: int, gasCost: int, x: int, y: int, z: int)
    requires m.ab.Some? && m.bc.Some? && m.ca.Some? && SwapsAround(m, amountIn, x, y, z)
    ensures m.Check(amountIn, gasCost).Some? <==> (if z > amountIn then z - amountIn else 0) > gasCost
  {}

  predicate Holds(pair: PairReserves, token: string) {
    ToLower(token) == ToLower(pair.token0) || ToLower(token) == ToLower(pair.token1)
  }

  /** Nothing is reported unless the three pairs are there and each holds the token that goes in. */
  lemma ReportedNeedsPairs(m: Market, amountIn: int, gasCost: int)
    requires m.Check(amountIn, gasCost).Some?
    ensures m.ab.Some? && m.bc.Some? && m.ca.Some?
    ensures Holds(m.ab.value, m.tokenA) && Holds(m.bc.value, m.tokenB) && Holds(m.ca.value, m.tokenC)
  {}

  lemma ReportedSwaps(m: Market, amountIn: int, gasCost: int)
    requires m.Check(amountIn, gasCost).Some? && gasCost >= 0
    ensures m.ab.Some? && m.bc.Some? && m.ca.Some?
    ensures var o := m.Check(amountIn, gasCost).value;
            && |o.steps| == 3 && o.steps[0].amountIn == o.amountIn == amountIn
            && o.steps[1].amountIn == o.steps[0].amountOut && o.steps[2].amountIn == o.steps[1].amountOut
            && o.amountOut == o.steps[2].amountOut && o.profit == o.amountOut - amountIn - gasCost > 0
            && SwapsAround(m, amountIn, o.steps[0].amountOut, o.steps[1].amountOut, o.steps[2].amountOut)
  {}

  /** Exactly when an opportunity is reported, and what it says: each step takes what the one before gave, and gives
      what its pair gives; the profit is what comes back beyond the input and the gas. */
  lemma {:induction false} ReportedExactly(m: Market, amountIn: int, gasCost: int, legs: seq<Leg>)
    requires m.Has(legs) && Liquid(legs) && amountIn > 0 && gasCost >= 0
    ensures m.Check(amountIn, gasCost).Some? <==>
              exists x, y, z :: GivesAround(legs, amountIn, x, y, z) && z - amountIn > gasCost
    ensures m.Check(amountIn, gasCost).Some? ==>
              var o := m.Check(amountIn, gasCost).value;
              && |o.steps| == 3 && o.steps[0].amountIn == o.amountIn == amountIn
              && o.steps[1].amountIn == o.steps[0].amountOut && o.steps[2].amountIn == o.steps[1].amountOut
              && o.amountOut == o.steps[2].amountOut && o.profit == o.amountOut - amountIn - gasCost > 0
              && GivesAround(legs, amountIn, o.steps[0].amountOut, o.steps[1].amountOut, o.steps[2].amountOut)
  {
    if m.Check(amountIn, gasCost).Some? {
      ReportedSwaps(m, amountIn, gasCost);
      var s := m.Check(amountIn, gasCost).value.steps;
      SwapsAreGiven(m, legs, amountIn, s[0].amountOut, s[1].amountOut, s[2].amountOut);
    }
    if x, y, z :| GivesAround(legs, amountIn, x, y, z) && z - amountIn > gasCost {
      SwapsAreGiven(m, legs, amountIn, x, y, z);
      SwapsReported(m, amountIn, gasCost, x, y, z);
    }
  }

  /** What a reported opportunity says: the three steps chain, and the profit is what comes back beyond the input and
      the gas. */
  lemma ReportedStepsChain(
      tokenA: string, tokenB: string, tokenC: string, amountIn: int, gasCost: int, dex: string,
      ab: Option<PairReserves>, bc: Option<PairReserves>, ca: Option<PairReserves>)
    requires gasCost >= 0
    ensures var r := CheckTriangularArb(tokenA, tokenB, tokenC, amountIn, gasCost, dex, ab, bc, ca);
            r.Some? ==>
              var o := r.value;
              && |o.steps| == 3 && o.steps[0].amountIn == amountIn && o.steps[2].amountOut == o.amountOut
              && (forall i | 0 <= i < 2 :: o.steps[i].amountOut == o.steps[i + 1].amountIn
                                           && o.steps[i].tokenOut == o.steps[i + 1].tokenIn)
              && o.steps[2].tokenOut == o.steps[0].tokenIn == o.startToken
              && 0 < o.profit == o.amountOut - amountIn - gasCost
  {}
}
