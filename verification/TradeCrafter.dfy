/** The backrun of a WETH-to-token swap: sell tokens into the reserves the victim leaves behind. */
module TradeCrafter {
  import opened Prelude
  import opened ConstantProduct

  const PRICE_SCALE := 10_000_000_000_000_000_000
  const GRID_STEPS := 64

  function GetMidPriceWethPerToken(reserveWeth: int, reserveToken: int): int {
    if reserveToken == 0 then 0 else TruncDiv(reserveWeth * PRICE_SCALE, reserveToken)
  }

  /** The fair price of `x` tokens, rounded down. */
  function Cost(x: int, price: int): int {
    TruncDiv(x * price, PRICE_SCALE)
  }

  function Profit(tokenReserve: int, wethReserve: int, price: int, x: int): int {
    AmountOut(tokenReserve, wethReserve, x) - Cost(x, price)
  }

  function SellCap(maxSell: int, tokenReserve: int): int {
    var half := TruncDiv(tokenReserve, 2);
    if maxSell < half then maxSell else half
  }

  function GridPoint(cap: int, i: int): int {
    TruncDiv(cap * i, GRID_STEPS)
  }

  function CeilDiv(a: int, b: int): int
    requires b > 0
  {
    (a + b - 1) / b
  }

  /** How far below the true maximum the best grid point can be: the fair price of one grid gap. */
  function GridSlack(cap: int, price: int): int {
    CeilDiv(CeilDiv(cap, GRID_STEPS) * price, PRICE_SCALE)
  }

  lemma CeilBounds(a: int, b: int)
    requires b > 0
    ensures CeilDiv(a, b) * b - b < a <= CeilDiv(a, b) * b
  {
    EuclideanBounds(a + b - 1, b);
  }

  lemma GridPointBounds(cap: int, i: int)
    requires cap >= 0 && 0 <= i <= GRID_STEPS
    ensures 0 <= GridPoint(cap, i) <= cap
    ensures i == GRID_STEPS ==> GridPoint(cap, i) == cap
  {
    MulLe(0, cap, i);
    MulLe(i, GRID_STEPS, cap);
    QuotientBounds(cap * i, GRID_STEPS);
  }

  lemma GridGap(cap: int, i: int)
    requires cap >= 0 && 0 <= i < GRID_STEPS
    ensures GridPoint(cap, i + 1) <= GridPoint(cap, i) + CeilDiv(cap, GRID_STEPS)
  {
    GridPointBounds(cap, i);
    MulLe(0, cap, i);
    MulLe(0, cap, i + 1);
    QuotientBounds(cap * i, GRID_STEPS);
    QuotientBounds(cap * (i + 1), GRID_STEPS);
    CeilBounds(cap, GRID_STEPS);
  }

  /** Every amount up to the cap lies within one grid gap below some grid point. */
  lemma {:induction false} GridPointAbove(cap: int, x: int, i: int) returns (j: int)
    requires 1 <= x && 1 <= i <= GRID_STEPS && x <= GridPoint(cap, i) && cap >= 0
    ensures 1 <= j <= GRID_STEPS && x <= GridPoint(cap, j) <= x + CeilDiv(cap, GRID_STEPS)
    decreases i
  {
    GridGap(cap, i - 1);
    if GridPoint(cap, i - 1) <= x {
      j := i;
    } else {
      j := GridPointAbove(cap, x, i - 1);
    }
  }

  lemma CostGap(x: int, y: int, gap: int, price: int)
    requires 0 <= x <= y <= x + gap && price >= 0
    ensures Cost(y, price) <= Cost(x, price) + CeilDiv(gap * price, PRICE_SCALE)
  {
    MulLe(0, x, price);
    MulLe(0, y, price);
    MulLe(y, x + gap, price);
    QuotientBounds(x * price, PRICE_SCALE);
    QuotientBounds(y * price, PRICE_SCALE);
    CeilBounds(gap * price, PRICE_SCALE);
    assert (x + gap) * price == x * price + gap * price;
  }

  /** No amount up to the cap beats every grid point by more than the slack. */
  lemma GridNearOptimal(cap: int, tokenReserve: int, wethReserve: int, price: int, best: int, x: int)
    requires tokenReserve > 0 && wethReserve > 0 && price >= 0 && 1 <= x <= cap
    requires forall i | 1 <= i <= GRID_STEPS :: Profit(tokenReserve, wethReserve, price, GridPoint(cap, i)) <= best
    ensures Profit(tokenReserve, wethReserve, price, x) <= best + GridSlack(cap, price)
  {
    GridPointBounds(cap, GRID_STEPS);
    var j := GridPointAbove(cap, x, GRID_STEPS);
    var y := GridPoint(cap, j);
    OutputMonotone(tokenReserve, wethReserve, x, y);
    CostGap(x, y, CeilDiv(cap, GRID_STEPS), price);
  }

  datatype Sale = Sale(bestAmountIn: int, expectedWethOut: int, expectedProfitWeth: int)

  const NO_SALE := Sale(0, 0, 0)

  /** `s` is the first of the first `n` grid points whose profit is positive and largest, or no sale at all. */
  ghost predicate IsFirstBest(s: Sale, n: int, cap: int, tokenReserve: int, wethReserve: int, price: int) {
    && (forall j | 1 <= j <= n :: Profit(tokenReserve, wethReserve, price, GridPoint(cap, j)) <= s.expectedProfitWeth)
    && (s == NO_SALE
        || exists i | 1 <= i <= n ::
             && s.bestAmountIn == GridPoint(cap, i) > 0
             && s.expectedWethOut == AmountOut(tokenReserve, wethReserve, s.bestAmountIn)
             && s.expectedProfitWeth == Profit(tokenReserve, wethReserve, price, s.bestAmountIn) > 0
             && forall j | 1 <= j < i ::
                  Profit(tokenReserve, wethReserve, price, GridPoint(cap, j)) < s.expectedProfitWeth)
  }

  method MaximizeProfitTokenSell(maxSell: int, postTokenReserve: int, postEthReserve: int, price: int)
    returns (s: Sale)
    requires price > 0
    ensures maxSell <= 0 || postTokenReserve <= 0 || postEthReserve <= 0 ==> s == NO_SALE
    ensures maxSell > 0 && postTokenReserve > 0 && postEthReserve > 0 ==>
              var cap := SellCap(maxSell, postTokenReserve);
              && IsFirstBest(s, GRID_STEPS, cap, postTokenReserve, postEthReserve, price)
              && (forall x | 1 <= x <= cap ::
                    Profit(postTokenReserve, postEthReserve, price, x) <= s.expectedProfitWeth + GridSlack(cap, price))
    ensures s.bestAmountIn > 0 ==> s.bestAmountIn <= maxSell && 2 * s.bestAmountIn <= postTokenReserve
  {
    if maxSell <= 0 || postTokenReserve <= 0 || postEthReserve <= 0 {
      return NO_SALE;
    }
    var half := TruncDiv(postTokenReserve, 2);
    var cap := if maxSell < half then maxSell else half;
    if cap <= 0 {
      return NO_SALE;
    }
    var bestX, bestProfit, bestWethOut := 0, 0, 0;
    var i := 1;
    while i <= GRID_STEPS
      invariant 1 <= i <= GRID_STEPS + 1
      invariant IsFirstBest(Sale(bestX, bestWethOut, bestProfit), i - 1, cap, postTokenReserve, postEthReserve, price)
      invariant 0 <= bestX <= cap && 0 <= bestProfit
    {
      var x := TruncDiv(cap * i, GRID_STEPS);
      GridPointBounds(cap, i);
      if x > 0 {
        var amountOut := SimulateSwapExactIn(postTokenReserve, postEthReserve, x).amountOut;
        var cost := TruncDiv(x * price, PRICE_SCALE);
        var profit := amountOut - cost;
        if profit > bestProfit {
          bestProfit, bestX, bestWethOut := profit, x, amountOut;
        }
      } else {
        assert Profit(postTokenReserve, postEthReserve, price, x) == 0;
      }
      i := i + 1;
    }
    s := Sale(bestX, bestWethOut, bestProfit);
    forall x | 1 <= x <= cap
      ensures Profit(postTokenReserve, postEthReserve, price, x) <= s.expectedProfitWeth + GridSlack(cap, price)
    {
      GridNearOptimal(cap, postTokenReserve, postEthReserve, price, bestProfit, x);
    }
  }

  lemma ProfitArithmetic(e: int, t: int, x: int, z: int, price: int, cost: int, scale: int)
    requires x >= 0 && t > 0 && scale > 0
    requires cost * scale >= x * price - scale + 1
    requires price * t >= e * scale - t + 1
    ensures (z - cost) * t * scale <= (z * t - x * e) * scale + x * (t - 1) + t * (scale - 1)
  {
    PriceArithmetic(e, t, x, price, scale);
    CostArithmetic(t, x, price, cost, scale);
    LossArithmetic(e, t, x, z, cost, scale);
  }

  lemma LossArithmetic(e: int, t: int, x: int, z: int, cost: int, scale: int)
    ensures (z - cost) * t * scale == z * t * scale - cost * scale * t
    ensures (z * t - x * e) * scale == z * t * scale - x * (e * scale)
  {}

  /** The rounding of the price, on `x` tokens. */
  lemma PriceArithmetic(e: int, t: int, x: int, price: int, scale: int)
    requires x >= 0 && price * t >= e * scale - t + 1
    ensures x * (price * t) >= x * (e * scale) - x * (t - 1)
  {
    MulLe(e * scale - (t - 1), price * t, x);
    assert (e * scale - (t - 1)) * x == x * (e * scale) - x * (t - 1);
  }

  /** The rounding of the cost. */
  lemma CostArithmetic(t: int, x: int, price: int, cost: int, scale: int)
    requires t > 0 && cost * scale >= x * price - scale + 1
    ensures cost * scale * t >= x * (price * t) - t * (scale - 1)
  {
    MulLe(x * price - (scale - 1), cost * scale, t);
    assert (x * price - (scale - 1)) * t == x * price * t - t * (scale - 1);
    assert x * price * t == x * (price * t);
  }

  /** The reported profit exceeds the exact profit at the price before the victim only by the rounding
      of the price (on `x` tokens) and of the cost. */
  lemma ReportedProfit(e: int, t: int, x: int, z: int)
    requires e > 0 && t > 0 && x >= 0
    ensures (z - Cost(x, GetMidPriceWethPerToken(e, t))) * t * PRICE_SCALE
         <= (z * t - x * e) * PRICE_SCALE + x * (t - 1) + t * (PRICE_SCALE - 1)
  {
    var price := GetMidPriceWethPerToken(e, t);
    QuotientBounds(e * PRICE_SCALE, t);
    MulLe(0, x, price);
    QuotientBounds(x * price, PRICE_SCALE);
    ProfitArithmetic(e, t, x, z, price, Cost(x, price), PRICE_SCALE);
  }

  /** And it is never below the exact profit at that price. */
  lemma ReportedAtLeast(e: int, t: int, x: int, z: int)
    requires e > 0 && t > 0 && x >= 0
    ensures z * t - x * e <= (z - Cost(x, GetMidPriceWethPerToken(e, t))) * t
  {
    var price := GetMidPriceWethPerToken(e, t);
    QuotientBounds(e * PRICE_SCALE, t);
    MulLe(0, x, price);
    QuotientBounds(x * price, PRICE_SCALE);
    CostAtMostFair(e, t, x, price, Cost(x, price), PRICE_SCALE);
    assert (z - Cost(x, price)) * t == z * t - Cost(x, price) * t;
  }

  /** Both divisions round down. */
  lemma CostAtMostFair(e: int, t: int, x: int, price: int, cost: int, scale: int)
    requires t > 0 && x >= 0 && scale > 0
    requires cost * scale <= x * price && price * t <= e * scale
    ensures cost * t <= x * e
  {
    MulLe(cost * scale, x * price, t);
    MulLe(price * t, e * scale, x);
    assert cost * scale * t == cost * t * scale;
    assert x * price * t == price * t * x && e * scale * x == x * e * scale;
    if cost * t > x * e { MulLt(x * e, cost * t, scale); }
  }

  lemma GainArithmetic(e: int, t: int, v: int, y: int, x: int, z: int)
    requires (e + v - z) * t + (t - y + x) * e >= 2 * (e * t)
    ensures z * t - x * e <= v * t - y * e
  {
    assert (e + v - z) * t == e * t + v * t - z * t;
    assert (t - y + x) * e == t * e - y * e + x * e;
  }

  /** Selling any amount after the victim gains, at the price before the victim, at most what the victim lost. */
  lemma BackrunBoundedByVictimLoss(e: int, t: int, v: int, x: int)
    requires e > 0 && t > 0 && v >= 0 && x >= 0
    ensures var victim := SimulateSwapExactIn(e, t, v);
            var z := AmountOut(victim.newReserveOut, victim.newReserveIn, x);
            z * t - x * e <= v * t - victim.amountOut * e
  {
    var trades := [BuyToken(v), SellToken(x)];
    var start := Pool(e, t);
    var mid := Apply(start, BuyToken(v));
    var end := Apply(mid, SellToken(x));
    PoolNeverLosesValue(start, trades);
    assert Run(start, trades) == end by {
      assert trades[1..] == [SellToken(x)];
      assert Run(mid, [SellToken(x)]) == Run(end, []);
    }
    var y := AmountOut(e, t, v);
    var z := AmountOut(mid.token, mid.weth, x);
    ProductGrows(e, t, v);
    ProductGrows(mid.token, mid.weth, x);
    assert end == Pool(e + v - z, t - y + x);
    GainArithmetic(e, t, v, y, x, z);
  }

  /** So the reported profit of a backrun is bounded by the victim's loss plus the rounding. */
  lemma BackrunProfitBound(e: int, t: int, v: int, x: int)
    requires e > 0 && t > 0 && v >= 0 && x >= 0
    ensures var victim := SimulateSwapExactIn(e, t, v);
            var profit := Profit(victim.newReserveOut, victim.newReserveIn, GetMidPriceWethPerToken(e, t), x);
            profit * t * PRICE_SCALE
            <= (v * t - victim.amountOut * e) * PRICE_SCALE + x * (t - 1) + t * (PRICE_SCALE - 1)
  {
    var victim := SimulateSwapExactIn(e, t, v);
    var z := AmountOut(victim.newReserveOut, victim.newReserveIn, x);
    BackrunBoundedByVictimLoss(e, t, v, x);
    ReportedProfit(e, t, x, z);
    MulLe(z * t - x * e, v * t - victim.amountOut * e, PRICE_SCALE);
  }

  datatype BackrunPlan = BackrunPlan(amountIn: int, amountOutMin: int, expectedWethOut: int, expectedProfitWeth: int)

  /** The reserves are those of the pair before the victim, in the victim's direction; `gasCost` is `None` when
      it could not be estimated or the gas price is not positive. */
  datatype BackrunInput = BackrunInput(
    reserveWeth: int, reserveToken: int, victimEthIn: Option<int>, walletBalance: int,
    requestedAmount: Option<int>, routerKnown: bool, gasCost: Option<int>)
  {
    function Victim(): SwapResult {
      SimulateSwapExactIn(reserveWeth, reserveToken, if victimEthIn.Some? then victimEthIn.value else 0)
    }

    function Price(): int {
      GetMidPriceWethPerToken(reserveWeth, reserveToken)
    }

    function SaleOut(x: int): int {
      AmountOut(Victim().newReserveOut, Victim().newReserveIn, x)
    }

    function SaleProfit(x: int): int {
      Profit(Victim().newReserveOut, Victim().newReserveIn, Price(), x)
    }

    function GridProfit(i: int): int {
      SaleProfit(GridPoint(SellCap(walletBalance, Victim().newReserveOut), i))
    }

    predicate Requested() {
      requestedAmount.Some? && requestedAmount.value > 0
    }

    /** Everything the strategy needs before it looks for an amount. */
    predicate Tradable() {
      && victimEthIn.Some? && Victim().amountOut > 0 && Price() > 0
      && walletBalance > 0 && routerKnown && gasCost.Some?
    }

    /** The sale of a thousandth of the token reserve that is tried when no grid point is profitable. */
    function FallbackAmount(): int {
      TruncDiv(Victim().newReserveOut, 1000)
    }

    ghost predicate NoGridProfit() {
      forall i | 1 <= i <= GRID_STEPS :: GridProfit(i) <= 0
    }

    /** The plan is what the reserves after the victim pay, covers its gas, and is bounded by the victim's loss. */
    ghost predicate Pays(p: BackrunPlan) {
      var e, t, v := reserveWeth, reserveToken, victimEthIn.GetOr(0);
      && Tradable() && p.amountIn > 0
      && p.expectedWethOut == SaleOut(p.amountIn)
      && 1000 * p.amountOutMin <= 995 * p.expectedWethOut < 1000 * p.amountOutMin + 1000
      && p.expectedProfitWeth == SaleProfit(p.amountIn) >= gasCost.value
      && p.expectedProfitWeth * t * PRICE_SCALE
         <= (v * t - Victim().amountOut * e) * PRICE_SCALE + p.amountIn * (t - 1) + t * (PRICE_SCALE - 1)
    }

    function ClampedRequest(): int
      requires requestedAmount.Some?
    {
      if requestedAmount.value > walletBalance then walletBalance else requestedAmount.value
    }

    /** A requested amount is clamped to the wallet and refused exactly when it does not cover its gas. */
    ghost predicate MeetsRequest(r: Option<BackrunPlan>) {
      Tradable() && Requested() ==>
        && (r.Some? <==> SaleProfit(ClampedRequest()) >= gasCost.value)
        && (r.Some? ==> r.value.amountIn == ClampedRequest())
    }

    /** Without a request, a refusal means that no grid point covers the gas, nor, if none has a profit, the
        fallback. */
    ghost predicate MeetsSearch(r: Option<BackrunPlan>) {
      Tradable() && !Requested() ==>
        && (r.None? <==> (forall i | 1 <= i <= GRID_STEPS :: GridProfit(i) < gasCost.value)
                         && (NoGridProfit() ==> SaleProfit(FallbackAmount()) < gasCost.value))
        && (r.Some? ==>
              || r.value.amountIn == FallbackAmount()
              || exists i | 1 <= i <= GRID_STEPS ::
                   r.value.amountIn == GridPoint(SellCap(walletBalance, Victim().newReserveOut), i))
    }

    /** The amount is within the wallet's balance except in the fallback, which does not look at the balance. */
    ghost predicate WithinBalance(r: Option<BackrunPlan>) {
      r.Some? ==>
        (r.value.amountIn > walletBalance <==>
         !Requested() && NoGridProfit() && FallbackAmount() > walletBalance)
    }

    // The same in terms of what the pair itself accepts and of the reserves before the victim.

    /** The pair gives the victim `y` tokens. */
    predicate VictimTakes(y: int) {
      && victimEthIn.Some? && victimEthIn.value > 0 && reserveWeth > 0 && reserveToken > 0
      && y > 0 && Gives(reserveWeth, reserveToken, victimEthIn.value, y)
    }

    /** After that it gives `z` for `x` tokens. */
    predicate SaleGives(y: int, x: int, z: int)
      requires victimEthIn.Some?
    {
      x > 0 && Gives(reserveToken - y, reserveWeth + victimEthIn.value, x, z)
    }

    /** The token is worth at least the smallest price that can be told, and everything else is there. */
    predicate Ready() {
      reserveWeth * 10_000_000_000_000_000_000 >= reserveToken && walletBalance > 0 && routerKnown && gasCost.Some?
    }

    /** At the price of the reserves before the victim, selling `x` for `z` covers the gas. */
    predicate CoversGas(x: int, z: int)
      requires gasCost.Some?
    {
      z * reserveToken - x * reserveWeth >= gasCost.value * reserveToken
    }

    /** Selling `x` for `z` is no gain at that price, even with everything that the rounding can add. */
    predicate NoGain(x: int, z: int) {
      (z * reserveToken - x * reserveWeth) * 10_000_000_000_000_000_000 + x * (reserveToken - 1) < reserveToken
    }

    /** The `i`-th of 64 equal steps up to the balance or half of the tokens the victim leaves. */
    function GridAmount(y: int, i: int): int {
      var half := (reserveToken - y) / 2;
      (if walletBalance < half then walletBalance else half) * i / 64
    }

    /** The profit of a plan is that of the pair's own output at the price before the victim, up to the roundings. */
    ghost predicate ProfitIsFair(p: BackrunPlan, y: int)
      requires VictimTakes(y) && gasCost.Some?
    {
      var e, t, x, z := reserveWeth, reserveToken, p.amountIn, p.expectedWethOut;
      var scale := 10_000_000_000_000_000_000;
      && SaleGives(y, x, z) && p.expectedProfitWeth >= gasCost.value
      && z * t - x * e <= p.expectedProfitWeth * t
      && p.expectedProfitWeth * t * scale <= (z * t - x * e) * scale + x * (t - 1) + t * (scale - 1)
    }

    /** With a request the amount is the request, or the balance if that is less, and it is planned whenever it covers
        its gas. */
    ghost predicate RequestIsServed(r: Option<BackrunPlan>, y: int)
      requires VictimTakes(y) && gasCost.Some?
    {
      requestedAmount.Some? && requestedAmount.value > 0 ==>
        forall x, z | x == (if requestedAmount.value > walletBalance then walletBalance else requestedAmount.value)
                      && SaleGives(y, x, z) ::
          && (r.Some? ==> r.value.amountIn == x && r.value.expectedWethOut == z)
          && (CoversGas(x, z) ==> r.Some?)
    }

    /** Without one the amount is a grid point or a thousandth of the tokens; and a refusal means that no grid point
        covers its gas, nor, if they are no gain at all, that thousandth. */
    ghost predicate SearchIsServed(r: Option<BackrunPlan>, y: int)
      requires VictimTakes(y) && gasCost.Some?
    {
      requestedAmount.None? || requestedAmount.value <= 0 ==>
        && (r.Some? ==>
              || r.value.amountIn == (reserveToken - y) / 1000
              || exists i | 1 <= i <= 64 :: r.value.amountIn == GridAmount(y, i))
        && (r.None? ==>
              && (forall i, z | 1 <= i <= 64 && SaleGives(y, GridAmount(y, i), z) :: !CoversGas(GridAmount(y, i), z))
              && ((forall i, z | 1 <= i <= 64 && SaleGives(y, GridAmount(y, i), z) :: NoGain(GridAmount(y, i), z)) ==>
                    forall x, z | x == (reserveToken - y) / 1000 && SaleGives(y, x, z) :: !CoversGas(x, z)))
    }

    /** All three, when the pair gives the victim `y` and everything is there; otherwise there is no plan. */
    ghost predicate Served(r: Option<BackrunPlan>) {
      && (r.Some? ==> Ready() && exists y :: VictimTakes(y))
      && (Ready() ==> forall y | VictimTakes(y) ::
            (r.Some? ==> ProfitIsFair(r.value, y)) && RequestIsServed(r, y) && SearchIsServed(r, y))
    }
  }

  method CraftBackrun(input: BackrunInput) returns (r: Option<BackrunPlan>)
    requires input.gasCost.Some? ==> input.gasCost.value > 0
    ensures r.Some? ==> input.Pays(r.value)
    ensures input.MeetsRequest(r) && input.MeetsSearch(r)
    ensures input.WithinBalance(r)
    ensures input.Served(r)
  {
    r := PlanBackrun(input);
    PlanIsServed(input, r);
  }

  method PlanBackrun(input: BackrunInput) returns (r: Option<BackrunPlan>)
    requires input.gasCost.Some? ==> input.gasCost.value > 0
    ensures r.Some? ==> input.Pays(r.value)
    ensures input.MeetsRequest(r) && input.MeetsSearch(r)
    ensures input.WithinBalance(r)
  {
    r := None;
    var reserveWeth, reserveToken := input.reserveWeth, input.reserveToken;
    var victimEthIn := if input.victimEthIn.Some? then input.victimEthIn.value else 0;
    if victimEthIn <= 0 { return; }
    var victim := SimulateSwapExactIn(reserveWeth, reserveToken, victimEthIn);
    var postEth, postToken := victim.newReserveIn, victim.newReserveOut;
    if victim.amountOut <= 0 { return; }
    ProductGrows(reserveWeth, reserveToken, victimEthIn);
    var price := GetMidPriceWethPerToken(reserveWeth, reserveToken);
    if price <= 0 { return; }
    var balance := input.walletBalance;
    if balance <= 0 { return; }
    var sale := ChooseSale(input, postToken, postEth, price);
    var amountIn, wethOut, profit := sale.bestAmountIn, sale.expectedWethOut, sale.expectedProfitWeth;
    if input.Tradable() { Decided(input, sale); }
    if amountIn <= 0 || wethOut <= 0 { return; }
    if !input.routerKnown { return; }
    var amountOutMin := TruncDiv(wethOut * 995, 1000);
    if input.gasCost.None? { return; }
    if profit < input.gasCost.value { return; }
    BackrunProfitBound(reserveWeth, reserveToken, victimEthIn, amountIn);
    r := Some(BackrunPlan(amountIn, amountOutMin, wethOut, profit));
  }

  /** The plan is made exactly when the chosen sale covers its gas. */
  ghost predicate Decision(input: BackrunInput, s: Sale, r: Option<BackrunPlan>)
    requires input.gasCost.Some?
  {
    && (r.Some? <==> s.bestAmountIn > 0 && s.expectedWethOut > 0 && s.expectedProfitWeth >= input.gasCost.value)
    && (r.Some? ==> r.value.amountIn == s.bestAmountIn)
  }

  lemma Decided(input: BackrunInput, s: Sale)
    requires input.Tradable() && input.gasCost.value > 0 && Chosen(input, s)
    ensures forall r: Option<BackrunPlan> | Decision(input, s, r) ::
              input.MeetsRequest(r) && input.MeetsSearch(r) && input.WithinBalance(r)
  {
    forall r: Option<BackrunPlan> | Decision(input, s, r)
      ensures input.MeetsRequest(r) && input.MeetsSearch(r) && input.WithinBalance(r)
    {
      if !input.Requested() {
        if input.NoGridProfit() { DecidedFallback(input, s, r); } else { DecidedGrid(input, s, r); }
      }
    }
  }

  lemma DecidedFallback(input: BackrunInput, s: Sale, r: Option<BackrunPlan>)
    requires input.Tradable() && input.gasCost.value > 0 && Chosen(input, s) && Decision(input, s, r)
    requires !input.Requested() && input.NoGridProfit()
    ensures input.MeetsSearch(r) && input.WithinBalance(r)
  {
    assert forall i | 1 <= i <= GRID_STEPS :: input.GridProfit(i) < input.gasCost.value;
    FallbackDecides(input, s, r, input.FallbackAmount(), input.SaleProfit(input.FallbackAmount()));
  }

  /** With the fallback's amount and profit as plain numbers. */
  lemma FallbackDecides(input: BackrunInput, s: Sale, r: Option<BackrunPlan>, amount: int, profit: int)
    requires input.gasCost.Some? && input.gasCost.value > 0 && Decision(input, s, r)
    requires s.bestAmountIn == if profit > 0 then amount else 0
    requires s.bestAmountIn > 0 ==> s.expectedWethOut >= s.expectedProfitWeth
    requires profit > 0 ==> amount > 0 && s.expectedProfitWeth == profit
    ensures r.None? <==> profit < input.gasCost.value
    ensures r.Some? ==> r.value.amountIn == amount
  {}

  lemma DecidedGrid(input: BackrunInput, s: Sale, r: Option<BackrunPlan>)
    requires input.Tradable() && input.gasCost.value > 0 && Chosen(input, s) && Decision(input, s, r)
    requires !input.Requested() && !input.NoGridProfit()
    ensures input.MeetsSearch(r) && input.WithinBalance(r)
  {
    BestIsPositive(input, s);
  }

  lemma BestIsPositive(input: BackrunInput, s: Sale)
    requires !input.Requested() && !input.NoGridProfit() && Chosen(input, s)
    ensures s.expectedWethOut >= s.expectedProfitWeth > 0
    ensures exists i | 1 <= i <= GRID_STEPS :: input.GridProfit(i) == s.expectedProfitWeth
  {
    var i :| 1 <= i <= GRID_STEPS
             && s.bestAmountIn == GridPoint(SellCap(input.walletBalance, input.Victim().newReserveOut), i);
    assert input.GridProfit(i) == s.expectedProfitWeth;
  }

  /** What is chosen is priced as the reserves say; what is not worth anything is no sale. */
  ghost predicate Chosen(input: BackrunInput, s: Sale) {
    && (s.bestAmountIn > 0 ==>
          && s.expectedWethOut == input.SaleOut(s.bestAmountIn) >= s.expectedProfitWeth
          && s.expectedProfitWeth == input.SaleProfit(s.bestAmountIn))
    && (input.Requested() ==> s.bestAmountIn == input.ClampedRequest())
    && (!input.Requested() && input.NoGridProfit() ==>
          if input.SaleProfit(input.FallbackAmount()) > 0 then s.bestAmountIn == input.FallbackAmount() > 0
          else s.bestAmountIn == 0)
    && (!input.Requested() && !input.NoGridProfit() ==>
          && 0 < s.bestAmountIn <= input.walletBalance
          && (exists i | 1 <= i <= GRID_STEPS ::
                s.bestAmountIn == GridPoint(SellCap(input.walletBalance, input.Victim().newReserveOut), i))
          && (forall i | 1 <= i <= GRID_STEPS :: input.GridProfit(i) <= s.expectedProfitWeth))
  }

  method ChooseSale(input: BackrunInput, postToken: int, postEth: int, price: int) returns (s: Sale)
    requires postToken == input.Victim().newReserveOut > 0 && postEth == input.Victim().newReserveIn > 0
    requires price == input.Price() > 0 && input.walletBalance > 0
    ensures Chosen(input, s)
  {
    if input.Requested() {
      var balance := input.walletBalance;
      var amountIn := if input.requestedAmount.value > balance then balance else input.requestedAmount.value;
      var wethOut := SimulateSwapExactIn(postToken, postEth, amountIn).amountOut;
      var profit := wethOut - TruncDiv(amountIn * price, PRICE_SCALE);
      s := Sale(amountIn, wethOut, profit);
    } else {
      s := SearchSale(input, postToken, postEth, price);
    }
    if s.bestAmountIn > 0 { CostNonNegative(s.bestAmountIn, price); }
  }

  /** The optimizer's sale, or the fallback when it finds none. */
  method SearchSale(input: BackrunInput, postToken: int, postEth: int, price: int) returns (s: Sale)
    requires postToken == input.Victim().newReserveOut > 0 && postEth == input.Victim().newReserveIn > 0
    requires price == input.Price() > 0 && input.walletBalance > 0
    ensures s.bestAmountIn > 0 ==>
              s.expectedWethOut == input.SaleOut(s.bestAmountIn)
              && s.expectedProfitWeth == input.SaleProfit(s.bestAmountIn) > 0
    ensures !input.NoGridProfit() ==>
              && 0 < s.bestAmountIn <= input.walletBalance
              && (exists i | 1 <= i <= GRID_STEPS ::
                    s.bestAmountIn == GridPoint(SellCap(input.walletBalance, postToken), i))
              && (forall i | 1 <= i <= GRID_STEPS :: input.GridProfit(i) <= s.expectedProfitWeth)
    ensures input.NoGridProfit() ==>
              if input.SaleProfit(input.FallbackAmount()) > 0 then s.bestAmountIn == input.FallbackAmount() > 0
              else s.bestAmountIn == 0
  {
    var cap := SellCap(input.walletBalance, postToken);
    s := MaximizeProfitTokenSell(input.walletBalance, postToken, postEth, price);
    assert forall i | 1 <= i <= GRID_STEPS ::
             input.GridProfit(i) == Profit(postToken, postEth, price, GridPoint(cap, i));
    assert s == NO_SALE <==> input.NoGridProfit();
    if s.bestAmountIn <= 0 {
      var candidate := TruncDiv(postToken, 1000);
      if candidate > 0 {
        var amountOut := SimulateSwapExactIn(postToken, postEth, candidate).amountOut;
        var candidateProfit := amountOut - TruncDiv(candidate * price, PRICE_SCALE);
        if candidateProfit > 0 {
          s := Sale(candidate, amountOut, candidateProfit);
        }
      }
    }
  }

  /** In terms of the reserves: the simulated outputs are those of the pair, and the price is that before the victim. */
  lemma PlanIsServed(input: BackrunInput, r: Option<BackrunPlan>)
    requires (r.Some? ==> input.Pays(r.value)) && input.MeetsRequest(r) && input.MeetsSearch(r)
    ensures input.Served(r)
  {
    if r.Some? { TradableMeansReady(input); }
    forall y | input.VictimTakes(y) && input.Ready()
      ensures (r.Some? ==> input.ProfitIsFair(r.value, y)) && input.RequestIsServed(r, y)
              && input.SearchIsServed(r, y)
    {
      VictimKnown(input, y);
      PlanIsFair(input, r, y);
      ServesRequest(input, r, y);
      ServesSearch(input, r, y);
    }
  }

  lemma TradableMeansReady(input: BackrunInput)
    requires input.Tradable()
    ensures input.Ready() && input.VictimTakes(input.Victim().amountOut)
  {
    PriceKnown(input.reserveWeth, input.reserveToken);
    OutputIsGiven(input.reserveWeth, input.reserveToken, input.victimEthIn.value, input.Victim().amountOut);
  }

  lemma VictimKnown(input: BackrunInput, y: int)
    requires input.VictimTakes(y) && input.Ready()
    ensures y == input.Victim().amountOut && input.Tradable()
  {
    PriceKnown(input.reserveWeth, input.reserveToken);
    OutputIsGiven(input.reserveWeth, input.reserveToken, input.victimEthIn.value, y);
  }

  lemma PriceKnown(e: int, t: int)
    requires e > 0 && t > 0
    ensures GetMidPriceWethPerToken(e, t) > 0 <==> e * PRICE_SCALE >= t
  {
    BoundedMeansAtMostQuotient(e * PRICE_SCALE, t, 1);
  }

  /** A sale in the reserves after the victim: what the pair gives is the simulated output, and the profit is fair. */
  lemma SaleIsFair(input: BackrunInput, y: int, x: int)
    requires input.VictimTakes(y) && y == input.Victim().amountOut && x > 0
    ensures forall z :: input.SaleGives(y, x, z) <==> z == input.SaleOut(x)
    ensures input.SaleOut(x) * input.reserveToken - x * input.reserveWeth <= input.SaleProfit(x) * input.reserveToken
    ensures input.SaleProfit(x) * input.reserveToken * PRICE_SCALE
         <= (input.SaleOut(x) * input.reserveToken - x * input.reserveWeth) * PRICE_SCALE
            + x * (input.reserveToken - 1) + input.reserveToken * (PRICE_SCALE - 1)
  {
    var e, t, v := input.reserveWeth, input.reserveToken, input.victimEthIn.value;
    ProductGrows(e, t, v);
    forall z ensures input.SaleGives(y, x, z) <==> z == input.SaleOut(x) { OutputIsGiven(t - y, e + v, x, z); }
    ReportedAtLeast(e, t, x, input.SaleOut(x));
    ReportedProfit(e, t, x, input.SaleOut(x));
  }

  lemma PlanIsFair(input: BackrunInput, r: Option<BackrunPlan>, y: int)
    requires input.VictimTakes(y) && y == input.Victim().amountOut && input.gasCost.Some?
    requires r.Some? ==> input.Pays(r.value)
    ensures r.Some? ==> input.ProfitIsFair(r.value, y)
  {
    if r.Some? { SaleIsFair(input, y, r.value.amountIn); }
  }

  /** What covers the gas exactly covers it as reported. */
  lemma CoversAsReported(input: BackrunInput, y: int, x: int, z: int)
    requires input.VictimTakes(y) && y == input.Victim().amountOut && input.gasCost.Some?
    requires x > 0 && input.SaleGives(y, x, z) && input.CoversGas(x, z)
    ensures input.SaleProfit(x) >= input.gasCost.value
  {
    SaleIsFair(input, y, x);
    if input.SaleProfit(x) < input.gasCost.value {
      MulLt(input.SaleProfit(x), input.gasCost.value, input.reserveToken);
    }
  }

  lemma ServesRequest(input: BackrunInput, r: Option<BackrunPlan>, y: int)
    requires input.VictimTakes(y) && y == input.Victim().amountOut && input.Tradable()
    requires (r.Some? ==> input.Pays(r.value)) && input.MeetsRequest(r)
    ensures input.RequestIsServed(r, y)
  {
    if input.Requested() {
      var x := input.ClampedRequest();
      SaleIsFair(input, y, x);
      forall z | input.SaleGives(y, x, z) && input.CoversGas(x, z) ensures r.Some? {
        CoversAsReported(input, y, x, z);
      }
    }
  }

  lemma ServesSearch(input: BackrunInput, r: Option<BackrunPlan>, y: int)
    requires input.VictimTakes(y) && y == input.Victim().amountOut && input.Tradable()
    requires input.MeetsSearch(r)
    ensures input.SearchIsServed(r, y)
  {
    if !input.Requested() {
      forall i | 1 <= i <= 64
        ensures GridPoint(SellCap(input.walletBalance, input.Victim().newReserveOut), i) == input.GridAmount(y, i)
      {
        GridIsGrid(input, y, i);
      }
      ProductGrows(input.reserveWeth, input.reserveToken, input.victimEthIn.value);
      if r.None? {
        GridRefused(input, y);
        FallbackRefused(input, y);
      }
    }
  }

  lemma GridIsGrid(input: BackrunInput, y: int, i: int)
    requires input.VictimTakes(y) && y == input.Victim().amountOut && input.walletBalance > 0 && 1 <= i <= 64
    ensures GridPoint(SellCap(input.walletBalance, input.Victim().newReserveOut), i) == input.GridAmount(y, i) >= 0
  {
    ProductGrows(input.reserveWeth, input.reserveToken, input.victimEthIn.value);
    MulLe(0, SellCap(input.walletBalance, input.reserveToken - y), i);
  }

  lemma GridRefused(input: BackrunInput, y: int)
    requires input.VictimTakes(y) && y == input.Victim().amountOut && input.Tradable()
    requires forall i | 1 <= i <= GRID_STEPS :: input.GridProfit(i) < input.gasCost.value
    ensures forall i, z | 1 <= i <= 64 && input.SaleGives(y, input.GridAmount(y, i), z) ::
              !input.CoversGas(input.GridAmount(y, i), z)
  {
    forall i, z | 1 <= i <= 64 && input.SaleGives(y, input.GridAmount(y, i), z)
      ensures !input.CoversGas(input.GridAmount(y, i), z)
    {
      GridIsGrid(input, y, i);
      assert input.GridProfit(i) < input.gasCost.value;
      if input.CoversGas(input.GridAmount(y, i), z) { CoversAsReported(input, y, input.GridAmount(y, i), z); }
    }
  }

  lemma FallbackRefused(input: BackrunInput, y: int)
    requires input.VictimTakes(y) && y == input.Victim().amountOut && input.Tradable()
    requires input.NoGridProfit() ==> input.SaleProfit(input.FallbackAmount()) < input.gasCost.value
    ensures (forall i, z | 1 <= i <= 64 && input.SaleGives(y, input.GridAmount(y, i), z) ::
               input.NoGain(input.GridAmount(y, i), z)) ==>
              forall x, z | x == (input.reserveToken - y) / 1000 && input.SaleGives(y, x, z) :: !input.CoversGas(x, z)
  {
    if forall i, z | 1 <= i <= 64 && input.SaleGives(y, input.GridAmount(y, i), z) ::
         input.NoGain(input.GridAmount(y, i), z) {
      forall i | 1 <= i <= GRID_STEPS ensures input.GridProfit(i) <= 0 {
        GridIsGrid(input, y, i);
        NoGainAsReported(input, y, i);
      }
      ProductGrows(input.reserveWeth, input.reserveToken, input.victimEthIn.value);
      forall x, z | x == (input.reserveToken - y) / 1000 && input.SaleGives(y, x, z)
        ensures !input.CoversGas(x, z)
      {
        if input.CoversGas(x, z) { CoversAsReported(input, y, x, z); }
      }
    }
  }

  lemma NoGainAsReported(input: BackrunInput, y: int, i: int)
    requires input.VictimTakes(y) && y == input.Victim().amountOut && 1 <= i <= GRID_STEPS
    requires input.GridAmount(y, i) == GridPoint(SellCap(input.walletBalance, input.Victim().newReserveOut), i) >= 0
    requires forall z | input.SaleGives(y, input.GridAmount(y, i), z) :: input.NoGain(input.GridAmount(y, i), z)
    ensures input.GridProfit(i) <= 0
  {
    var x, t := input.GridAmount(y, i), input.reserveToken;
    if x > 0 {
      SaleIsFair(input, y, x);
      assert input.NoGain(x, input.SaleOut(x));
      NothingPositive(input.SaleProfit(x), t, PRICE_SCALE);
    }
  }

  lemma NothingPositive(profit: int, t: int, scale: int)
    requires t > 0 && scale > 0 && profit * t * scale < t + t * (scale - 1)
    ensures profit <= 0
  {
    assert t + t * (scale - 1) == t * scale;
    if profit >= 1 {
      MulLe(1, profit, t);
      MulLe(1 * t, profit * t, scale);
    }
  }

  lemma CostNonNegative(x: int, price: int)
    requires x >= 0 && price >= 0
    ensures Cost(x, price) >= 0
  {
    MulLe(0, x, price);
    QuotientBounds(x * price, PRICE_SCALE);
  }

  /** The fallback does go past the balance: with one token unit in the wallet it plans to sell 909338. */
  lemma FallbackCanExceedBalance() returns (input: BackrunInput)
    ensures input.Tradable() && !input.Requested() && input.NoGridProfit()
    ensures input.FallbackAmount() > input.walletBalance
    ensures input.SaleProfit(input.FallbackAmount()) >= input.gasCost.value > 0
  {
    input := BackrunInput(1_000_000, 1_000_000_000, Some(100_000), 1, None, true, Some(100));
    assert input.Victim() == SwapResult(90_661_089, 1_100_000, 909_338_911);
    assert input.Price() == 10_000_000_000_000_000;
    forall i | 1 <= i <= GRID_STEPS ensures input.GridProfit(i) <= 0 {
      GridPointBounds(1, i);
      assert GridPoint(1, i) == 0 || GridPoint(1, i) == 1;
    }
    assert input.SaleOut(909_338) == 1095;
  }
}
