/** The constant-product swap with a 0.3% fee, in exact integers, and what it implies for any run of swaps. */
module ConstantProduct {

  /** Division of JavaScript bigints: truncation toward zero. */
  function TruncDiv(a: int, b: int): int
    requires b != 0
  {
    if a >= 0 then
      if b > 0 then a / b else -(a / -b)
    else
      if b > 0 then -(-a / b) else -a / -b
  }

  lemma EuclideanBounds(a: int, b: int)
    requires b > 0
    ensures (a / b) * b <= a < (a / b) * b + b
  {}

  lemma QuotientBounds(a: int, b: int)
    requires a >= 0 && b > 0
    ensures TruncDiv(a, b) >= 0
    ensures TruncDiv(a, b) * b <= a < TruncDiv(a, b) * b + b
  {
    EuclideanBounds(a, b);
    var q := TruncDiv(a, b);
    if q < 0 { MulLe(q, -1, b); }
  }

  datatype SwapResult = SwapResult(amountOut: int, newReserveIn: int, newReserveOut: int)

  function SimulateSwapExactIn(reserveIn: int, reserveOut: int, amountIn: int): SwapResult {
    if amountIn <= 0 || reserveIn <= 0 || reserveOut <= 0 then
      SwapResult(0, reserveIn, reserveOut)
    else
      var amountInWithFee := amountIn * 997;
      var numerator := amountInWithFee * reserveOut;
      var denominator := reserveIn * 1000 + amountInWithFee;
      var amountOut := TruncDiv(numerator, denominator);
      SwapResult(amountOut, reserveIn + amountIn, reserveOut - amountOut)
  }

  function AmountOut(reserveIn: int, reserveOut: int, amountIn: int): int {
    SimulateSwapExactIn(reserveIn, reserveOut, amountIn).amountOut
  }

  /** The test a V2 pair applies to a swap: with 3 thousandths of the input taken out,
      the product of the reserves must not fall. */
  predicate PairAccepts(reserveIn: int, reserveOut: int, amountIn: int, amountOut: int) {
    (1000 * (reserveIn + amountIn) - 3 * amountIn) * (1000 * (reserveOut - amountOut))
    >= reserveIn * reserveOut * 1000000
  }

  lemma MulLe(a: int, b: int, c: int)
    requires a <= b && 0 <= c
    ensures a * c <= b * c
  {}

  lemma MulLt(a: int, b: int, c: int)
    requires a < b && 0 < c
    ensures a * c < b * c
  {}

  lemma MulPos(a: int, b: int)
    requires a > 0 && b > 0
    ensures a * b > 0
  {}

  /** The same test with the division's own terms: the output times the denominator stays within the numerator. */
  lemma AcceptsMeansBounded(reserveIn: int, reserveOut: int, amountIn: int, y: int)
    ensures PairAccepts(reserveIn, reserveOut, amountIn, y)
       <==> y * (reserveIn * 1000 + amountIn * 997) <= amountIn * 997 * reserveOut
  {
    var d := reserveIn * 1000 + amountIn * 997;
    assert d * (1000 * (reserveOut - y)) == 1000 * (d * reserveOut - y * d);
    assert d * reserveOut == 1000 * (reserveIn * reserveOut) + amountIn * 997 * reserveOut;
  }

  lemma BoundedMeansAtMostQuotient(n: int, d: int, y: int)
    requires n >= 0 && d > 0
    ensures y * d <= n <==> y <= TruncDiv(n, d)
  {
    QuotientBounds(n, d);
    var q := TruncDiv(n, d);
    if y <= q { MulLe(y, q, d); } else { MulLe(q + 1, y, d); assert (q + 1) * d == q * d + d; }
  }

  /** The simulated output is exactly the largest one the pair accepts. */
  lemma OutputIsLargestAccepted(reserveIn: int, reserveOut: int, amountIn: int, y: int)
    requires reserveIn > 0 && reserveOut > 0 && amountIn > 0
    ensures PairAccepts(reserveIn, reserveOut, amountIn, y) <==> y <= AmountOut(reserveIn, reserveOut, amountIn)
  {
    AcceptsMeansBounded(reserveIn, reserveOut, amountIn, y);
    MulPos(amountIn * 997, reserveOut);
    BoundedMeansAtMostQuotient(amountIn * 997 * reserveOut, reserveIn * 1000 + amountIn * 997, y);
  }

  /** The pair gives `y` for `amountIn`: it accepts that much and no more. */
  predicate Gives(reserveIn: int, reserveOut: int, amountIn: int, y: int) {
    PairAccepts(reserveIn, reserveOut, amountIn, y) && !PairAccepts(reserveIn, reserveOut, amountIn, y + 1)
  }

  /** The simulated output is what the pair gives. */
  lemma OutputIsGiven(reserveIn: int, reserveOut: int, amountIn: int, y: int)
    requires reserveIn > 0 && reserveOut > 0 && amountIn > 0
    ensures Gives(reserveIn, reserveOut, amountIn, y) <==> y == AmountOut(reserveIn, reserveOut, amountIn)
  {
    OutputIsLargestAccepted(reserveIn, reserveOut, amountIn, y);
    OutputIsLargestAccepted(reserveIn, reserveOut, amountIn, y + 1);
  }

  /** A number is at most the output exactly when it passes the cross-multiplied test. */
  lemma AtMostOutput(reserveIn: int, reserveOut: int, amountIn: int, y: int)
    requires reserveIn > 0 && reserveOut > 0 && amountIn > 0
    ensures y * (reserveIn * 1000 + amountIn * 997) <= amountIn * 997 * reserveOut
       <==> y <= AmountOut(reserveIn, reserveOut, amountIn)
  {
    OutputIsLargestAccepted(reserveIn, reserveOut, amountIn, y);
    AcceptsMeansBounded(reserveIn, reserveOut, amountIn, y);
  }

  lemma OutputInRange(reserveIn: int, reserveOut: int, amountIn: int)
    requires reserveIn > 0 && reserveOut > 0
    ensures 0 <= AmountOut(reserveIn, reserveOut, amountIn) < reserveOut
  {
    if amountIn > 0 {
      MulPos(amountIn * 997, reserveOut);
      MulPos(reserveIn * 1000, reserveOut);
      AtMostOutput(reserveIn, reserveOut, amountIn, 0);
      AtMostOutput(reserveIn, reserveOut, amountIn, reserveOut);
      assert reserveOut * (reserveIn * 1000 + amountIn * 997)
          == reserveIn * 1000 * reserveOut + amountIn * 997 * reserveOut;
    }
  }

  lemma ProductArithmetic(e: int, t: int, v: int, y: int)
    requires v > 0 && y < t && y * (e * 1000 + v * 997) <= v * 997 * t
    ensures (e + v) * (t - y) > e * t
  {
    MulPos(3 * v, t - y);
    assert 1000 * ((e + v) * (t - y)) - 1000 * (e * t)
        == (v * 997 * t - y * (e * 1000 + v * 997)) + 3 * v * (t - y);
  }

  /** Every swap leaves the product of the reserves at least as large, strictly larger when something goes in. */
  lemma ProductGrows(reserveIn: int, reserveOut: int, amountIn: int)
    requires reserveIn > 0 && reserveOut > 0 && amountIn >= 0
    ensures var s := SimulateSwapExactIn(reserveIn, reserveOut, amountIn);
            && s.newReserveIn == reserveIn + amountIn && 0 < s.newReserveOut == reserveOut - s.amountOut <= reserveOut
            && s.newReserveIn * s.newReserveOut >= reserveIn * reserveOut
            && (amountIn > 0 ==> s.newReserveIn * s.newReserveOut > reserveIn * reserveOut)
  {
    OutputInRange(reserveIn, reserveOut, amountIn);
    if amountIn > 0 {
      var y := AmountOut(reserveIn, reserveOut, amountIn);
      AtMostOutput(reserveIn, reserveOut, amountIn, y);
      ProductArithmetic(reserveIn, reserveOut, amountIn, y);
    }
  }

  lemma MonotoneArithmetic(e: int, t: int, small: int, large: int, y: int)
    requires small <= large && y <= t && y * (e * 1000 + small * 997) <= small * 997 * t
    ensures y * (e * 1000 + large * 997) <= large * 997 * t
  {
    var extra := 997 * (large - small);
    MulLe(y, t, extra);
    assert y * (e * 1000 + large * 997) == y * (e * 1000 + small * 997) + y * extra;
    assert large * 997 * t == small * 997 * t + t * extra;
  }

  /** A larger input never buys less. */
  lemma OutputMonotone(reserveIn: int, reserveOut: int, small: int, large: int)
    requires reserveIn > 0 && reserveOut > 0 && small <= large
    ensures AmountOut(reserveIn, reserveOut, small) <= AmountOut(reserveIn, reserveOut, large)
  {
    OutputInRange(reserveIn, reserveOut, small);
    OutputInRange(reserveIn, reserveOut, large);
    if 0 < small {
      var y := AmountOut(reserveIn, reserveOut, small);
      AtMostOutput(reserveIn, reserveOut, small, y);
      MonotoneArithmetic(reserveIn, reserveOut, small, large, y);
      AtMostOutput(reserveIn, reserveOut, large, y);
    }
  }

  lemma SplitArithmetic(e: int, t: int, a: int, b: int, y1: int, y2: int)
    requires a > 0 && b > 0 && y2 >= 0
    requires y1 * (e * 1000 + a * 997) <= a * 997 * t
    requires y2 * ((e + a) * 1000 + b * 997) <= b * 997 * (t - y1)
    ensures (y1 + y2) * (e * 1000 + (a + b) * 997) <= (a + b) * 997 * t
  {
    var d := e * 1000 + (a + b) * 997;
    var beta := b * 997;
    MulLe(0, 3 * a, y2);
    assert y2 * ((e + a) * 1000 + beta) == y2 * d + (3 * a) * y2;
    assert beta * (t - y1) == beta * t - y1 * beta;
    assert (y1 + y2) * d == y1 * (e * 1000 + a * 997) + y1 * beta + y2 * d;
    assert (a + b) * 997 * t == a * 997 * t + beta * t;
  }

  /** Two swaps in a row never buy more than one swap of their sum, rounding included. */
  lemma SplitInTwoNeverPays(reserveIn: int, reserveOut: int, a: int, b: int)
    requires a >= 0 && b >= 0
    ensures var first := SimulateSwapExactIn(reserveIn, reserveOut, a);
            first.amountOut + AmountOut(first.newReserveIn, first.newReserveOut, b)
            <= AmountOut(reserveIn, reserveOut, a + b)
  {
    if reserveIn > 0 && reserveOut > 0 && a > 0 && b > 0 {
      ProductGrows(reserveIn, reserveOut, a);
      var y1 := AmountOut(reserveIn, reserveOut, a);
      var y2 := AmountOut(reserveIn + a, reserveOut - y1, b);
      AtMostOutput(reserveIn, reserveOut, a, y1);
      AtMostOutput(reserveIn + a, reserveOut - y1, b, y2);
      OutputInRange(reserveIn + a, reserveOut - y1, b);
      SplitArithmetic(reserveIn, reserveOut, a, b, y1, y2);
      AtMostOutput(reserveIn, reserveOut, a + b, y1 + y2);
    }
  }

  function Sum(amounts: seq<nat>): nat {
    if amounts == [] then 0 else amounts[0] + Sum(amounts[1..])
  }

  /** What a sequence of swaps in one direction buys, each through the reserves its predecessor left. */
  function TotalOut(reserveIn: int, reserveOut: int, amounts: seq<nat>): int
    decreases |amounts|
  {
    if amounts == [] then 0 else
    var s := SimulateSwapExactIn(reserveIn, reserveOut, amounts[0]);
    s.amountOut + TotalOut(s.newReserveIn, s.newReserveOut, amounts[1..])
  }

  /** Splitting a swap into any number of pieces never pays. */
  lemma {:induction false} SplittingNeverPays(reserveIn: int, reserveOut: int, amounts: seq<nat>)
    ensures TotalOut(reserveIn, reserveOut, amounts) <= AmountOut(reserveIn, reserveOut, Sum(amounts))
    decreases |amounts|
  {
    if amounts != [] {
      var s := SimulateSwapExactIn(reserveIn, reserveOut, amounts[0]);
      SplittingNeverPays(s.newReserveIn, s.newReserveOut, amounts[1..]);
      SplitInTwoNeverPays(reserveIn, reserveOut, amounts[0], Sum(amounts[1..]));
    }
  }

  /** Swapping forward and the output straight back loses part of the input. */
  lemma RoundTripLoses(reserveIn: int, reserveOut: int, x: int)
    requires x > 0
    ensures var there := SimulateSwapExactIn(reserveIn, reserveOut, x);
            AmountOut(there.newReserveOut, there.newReserveIn, there.amountOut) < x
  {
    if reserveIn > 0 && reserveOut > 0 {
      ProductGrows(reserveIn, reserveOut, x);
      var y := AmountOut(reserveIn, reserveOut, x);
      OutputInRange(reserveIn, reserveOut, x);
      if y > 0 {
        var z := AmountOut(reserveOut - y, reserveIn + x, y);
        ProductGrows(reserveOut - y, reserveIn + x, y);
        RoundTripArithmetic(reserveIn, reserveOut, x, y, z);
      }
    }
  }

  lemma RoundTripArithmetic(e: int, t: int, x: int, y: int, z: int)
    requires t > 0 && (e + x) * (t - y) > e * t && (t - y + y) * (e + x - z) > (t - y) * (e + x)
    ensures z < x
  {
    assert t * (e + x - z) > t * e;
    if e + x - z <= e { MulLe(e + x - z, e, t); }
  }

  /** One trade against a pool of WETH and a token, in either direction. */
  datatype Trade = BuyToken(weth: nat) | SellToken(tokens: nat)

  datatype Pool = Pool(weth: int, token: int)

  function Apply(p: Pool, t: Trade): Pool {
    match t
    case BuyToken(v) =>
      var s := SimulateSwapExactIn(p.weth, p.token, v); Pool(s.newReserveIn, s.newReserveOut)
    case SellToken(x) =>
      var s := SimulateSwapExactIn(p.token, p.weth, x); Pool(s.newReserveOut, s.newReserveIn)
  }

  function Run(p: Pool, trades: seq<Trade>): Pool
    decreases |trades|
  {
    if trades == [] then p else Run(Apply(p, trades[0]), trades[1..])
  }

  lemma ApplyGrowsProduct(p: Pool, t: Trade)
    requires p.weth > 0 && p.token > 0
    ensures var q := Apply(p, t);
            q.weth > 0 && q.token > 0 && q.weth * q.token >= p.weth * p.token
  {
    match t {
      case BuyToken(v) => ProductGrows(p.weth, p.token, v);
      case SellToken(x) => ProductGrows(p.token, p.weth, x);
    }
  }

  lemma {:induction false} RunGrowsProduct(p: Pool, trades: seq<Trade>)
    requires p.weth > 0 && p.token > 0
    ensures var q := Run(p, trades);
            q.weth > 0 && q.token > 0 && q.weth * q.token >= p.weth * p.token
    decreases |trades|
  {
    if trades != [] {
      ApplyGrowsProduct(p, trades[0]);
      RunGrowsProduct(Apply(p, trades[0]), trades[1..]);
    }
  }

  lemma SquareMonotone(a: int, b: int)
    requires 0 <= a < b
    ensures a * a < b * b
  {
    MulLe(a, b, a);
    MulLt(a, b, b);
  }

  /** A sum is at least twice any number whose square the product reaches. */
  lemma SumFromProduct(a: int, b: int, c: int)
    requires a >= 0 && b >= 0 && a * b >= c * c
    ensures a + b >= 2 * c
  {
    assert (a + b) * (a + b) == (a - b) * (a - b) + 4 * (a * b);
    assert (2 * c) * (2 * c) == 4 * (c * c);
    if a + b < 2 * c {
      SquareMonotone(a + b, 2 * c);
    }
  }

  lemma ValueArithmetic(e: int, t: int, e2: int, t2: int)
    requires e > 0 && t > 0 && e2 > 0 && t2 > 0 && e2 * t2 >= e * t
    ensures e2 * t + t2 * e >= 2 * (e * t)
  {
    MulPos(e2, t);
    MulPos(t2, e);
    MulPos(e, t);
    MulLe(e * t, e2 * t2, e * t);
    assert (e2 * t) * (t2 * e) == (e2 * t2) * (e * t);
    SumFromProduct(e2 * t, t2 * e, e * t);
  }

  /** Whatever anyone trades, in whichever order, the pool's reserves valued at the price it started
      from are never worth less: the traders together cannot take value out at that price. */
  lemma PoolNeverLosesValue(p: Pool, trades: seq<Trade>)
    requires p.weth > 0 && p.token > 0
    ensures var q := Run(p, trades);
            q.weth * p.token + q.token * p.weth >= 2 * (p.weth * p.token)
  {
    RunGrowsProduct(p, trades);
    var q := Run(p, trades);
    ValueArithmetic(p.weth, p.token, q.weth, q.token);
  }
}
