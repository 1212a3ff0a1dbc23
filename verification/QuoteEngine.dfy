/** Quoting routes over V2 pairs: hop by hop, or from one flat batch of pair reads. */
module QuoteEngine {
  import opened Prelude
  import opened ConstantProduct

  const HOP_GAS := 80000
  const LAST_HOP_GAS := 100000

  datatype PairData = PairData(reserve0: int, reserve1: int, token0: string)

  /** What a call to a pair address answers; `None` when there is no such pair contract. */
  type Chain = string -> Option<PairData>

  /** `pair` is the pool the hop names or the factory finds; `None` when there is none. */
  datatype Hop = Hop(tokenIn: string, pair: Option<string>)

  datatype Candidate = Candidate(amountIn: int, hops: seq<Hop>)

  datatype QuoteResult = QuoteResult(amountOut: int, perHopAmounts: seq<int>, gasEstimate: int)

  /** The reserves in the direction of the hop: (in, out). */
  function Oriented(hop: Hop, d: PairData): (int, int) {
    if ToLower(d.token0) == ToLower(hop.tokenIn) then (d.reserve0, d.reserve1) else (d.reserve1, d.reserve0)
  }

  /** `None` is the division by zero. */
  function V2Out(amountIn: int, reserveIn: int, reserveOut: int): Option<int> {
    var amountInWithFee := amountIn * 997;
    var denominator := reserveIn * 1000 + amountInWithFee;
    if denominator == 0 then None else Some(TruncDiv(amountInWithFee * reserveOut, denominator))
  }

  function QuoteV2Hop(chain: Chain, hop: Hop, amountIn: int): Option<int> {
    if hop.pair.None? || chain(hop.pair.value).None? then None else
    var (reserveIn, reserveOut) := Oriented(hop, chain(hop.pair.value).value);
    V2Out(amountIn, reserveIn, reserveOut)
  }

  function HopGas(c: Candidate, i: int): int {
    if i == |c.hops| - 1 then LAST_HOP_GAS else HOP_GAS
  }

  /** The quote after the first `n` hops of a route. */
  function QuoteUpTo(chain: Chain, c: Candidate, n: nat): Option<QuoteResult>
    requires n <= |c.hops|
    decreases n
  {
    if n == 0 then Some(QuoteResult(c.amountIn, [], 0)) else
    var q := QuoteUpTo(chain, c, n - 1);
    if q.None? then None else
    var out := QuoteV2Hop(chain, c.hops[n - 1], q.value.amountOut);
    if out.None? then None else
    Some(QuoteResult(out.value, q.value.perHopAmounts + [out.value], q.value.gasEstimate + HopGas(c, n - 1)))
  }

  lemma {:induction false} FailureLasts(chain: Chain, c: Candidate, m: nat, n: nat)
    requires m <= n <= |c.hops| && QuoteUpTo(chain, c, m).None?
    ensures QuoteUpTo(chain, c, n).None?
    decreases n
  {
    if m < n { FailureLasts(chain, c, m, n - 1); }
  }

  function Whole(chain: Chain, c: Candidate): Option<QuoteResult> {
    QuoteUpTo(chain, c, |c.hops|)
  }

  /** A quote lists each hop's output of the output before it, ends with the last, and prices the last hop higher. */
  lemma {:induction false} QuoteShape(chain: Chain, c: Candidate, n: nat, i: nat)
    requires i < n <= |c.hops| && QuoteUpTo(chain, c, n).Some?
    ensures var q := QuoteUpTo(chain, c, n).value;
            && |q.perHopAmounts| == n && q.amountOut == q.perHopAmounts[n - 1]
            && QuoteV2Hop(chain, c.hops[i], if i == 0 then c.amountIn else q.perHopAmounts[i - 1])
               == Some(q.perHopAmounts[i])
            && q.gasEstimate == if n == |c.hops| then 80000 * n + 20000 else 80000 * n
    decreases n
  {
    if n > 1 { QuoteShape(chain, c, n - 1, if i == n - 1 then 0 else i); }
  }

  function RouteQuote(chain: Chain, c: Candidate): Result<QuoteResult> {
    var q := Whole(chain, c);
    if c.hops == [] || q.None? then Err else Ok(q.value)
  }

  method QuoteRoute(chain: Chain, c: Candidate) returns (r: Result<QuoteResult>)
    ensures r == RouteQuote(chain, c)
  {
    if |c.hops| == 0 { return Err; }
    var perHopAmounts: seq<int> := [];
    var current, gas := c.amountIn, 0;
    for i := 0 to |c.hops|
      invariant QuoteUpTo(chain, c, i) == Some(QuoteResult(current, perHopAmounts, gas))
    {
      var isLastHop := i == |c.hops| - 1;
      var out := QuoteV2Hop(chain, c.hops[i], current);
      if out.None? {
        FailureLasts(chain, c, i + 1, |c.hops|);
        return Err;
      }
      perHopAmounts := perHopAmounts + [out.value];
      current := out.value;
      gas := gas + if isLastHop then LAST_HOP_GAS else HOP_GAS;
    }
    r := Ok(QuoteResult(current, perHopAmounts, gas));
  }

  // ---- the batch ----

  datatype Call = GetReserves(target: string) | Token0(target: string) | Token1(target: string)

  datatype Reply = Failed | Reserves(reserve0: int, reserve1: int) | Address(token: string)

  function CallsOf(hop: Hop): seq<Call> {
    if hop.pair.None? then []
    else [GetReserves(hop.pair.value), Token0(hop.pair.value), Token1(hop.pair.value)]
  }

  function FlatCalls(hops: seq<Hop>): seq<Call> {
    if hops == [] then [] else CallsOf(hops[0]) + FlatCalls(hops[1..])
  }

  function FlatHops(candidates: seq<Candidate>): seq<Hop> {
    if candidates == [] then [] else candidates[0].hops + FlatHops(candidates[1..])
  }

  /** The replies come from the same chain state: each is a failure or the chain's own answer. */
  predicate Agrees(chain: Chain, call: Call, reply: Reply) {
    var d := chain(call.target);
    || reply == Failed
    || (d.Some? && match call
                   case GetReserves(_) => reply == Reserves(d.value.reserve0, d.value.reserve1)
                   case Token0(_) => reply == Address(d.value.token0)
                   case Token1(_) => reply.Address?)
  }

  predicate AllAgree(chain: Chain, calls: seq<Call>, replies: seq<Reply>) {
    |replies| == |calls| && forall k | 0 <= k < |calls| :: Agrees(chain, calls[k], replies[k])
  }

  predicate AllPaired(hops: seq<Hop>) {
    forall h | h in hops :: h.pair.Some?
  }

  /** The hop has its three calls at its place in the list. */
  predicate CallsAt(calls: seq<Call>, hop: Hop, h: nat) {
    && 3 * h + 3 <= |calls| && hop.pair.Some? && calls[3 * h] == GetReserves(hop.pair.value)
    && calls[3 * h + 1] == Token0(hop.pair.value) && calls[3 * h + 2] == Token1(hop.pair.value)
  }

  lemma {:induction false} FlatCallsShape(hops: seq<Hop>)
    ensures |FlatCalls(hops)| <= 3 * |hops|
    ensures |FlatCalls(hops)| == 3 * |hops| <==> AllPaired(hops)
    ensures AllPaired(hops) ==> forall h | 0 <= h < |hops| :: CallsAt(FlatCalls(hops), hops[h], h)
  {
    if hops != [] {
      FlatCallsShape(hops[1..]);
      PairedTail(hops);
      if AllPaired(hops) {
        forall h | 0 <= h < |hops| ensures CallsAt(FlatCalls(hops), hops[h], h) { CallsPlaced(hops, h); }
      }
    }
  }

  lemma {:induction false} PairedTail(hops: seq<Hop>)
    requires hops != []
    ensures AllPaired(hops) <==> hops[0].pair.Some? && AllPaired(hops[1..])
  {
    assert hops == [hops[0]] + hops[1..];
  }

  lemma {:induction false} CallsPlaced(hops: seq<Hop>, h: nat)
    requires h < |hops| && hops[0].pair.Some?
    requires h > 0 ==> CallsAt(FlatCalls(hops[1..]), hops[h], h - 1)
    ensures CallsAt(FlatCalls(hops), hops[h], h)
  {
    if h > 0 { CallsShift(CallsOf(hops[0]), FlatCalls(hops[1..]), hops[h], h - 1); }
  }

  lemma CallsShift(first: seq<Call>, rest: seq<Call>, hop: Hop, h: nat)
    requires |first| == 3 && CallsAt(rest, hop, h)
    ensures CallsAt(first + rest, hop, h + 1)
  {
    var all := first + rest;
    assert all[3 * (h + 1)] == rest[3 * h] && all[3 * (h + 1) + 1] == rest[3 * h + 1];
    assert all[3 * (h + 1) + 2] == rest[3 * h + 2];
  }

  lemma {:induction false} FlatHopsSplit(candidates: seq<Candidate>, i: nat)
    requires i < |candidates|
    ensures FlatHops(candidates[..i + 1]) == FlatHops(candidates[..i]) + candidates[i].hops
    ensures |FlatHops(candidates[..i + 1])| <= |FlatHops(candidates)|
    ensures FlatHops(candidates[..i + 1]) == FlatHops(candidates)[..|FlatHops(candidates[..i + 1])|]
  {
    var one := [candidates[i]];
    FlatHopsConcat(candidates[..i], one);
    FlatHopsConcat(candidates[..i + 1], candidates[i + 1..]);
    assert candidates[..i + 1] == candidates[..i] + one && candidates == candidates[..i + 1] + candidates[i + 1..];
    assert one[1..] == [] && FlatHops(one) == candidates[i].hops;
  }

  lemma {:induction false} FlatHopsConcat(a: seq<Candidate>, b: seq<Candidate>)
    ensures FlatHops(a + b) == FlatHops(a) + FlatHops(b)
  {
    if a == [] {
      assert a + b == b;
    } else {
      FlatHopsConcat(a[1..], b);
      assert (a + b)[1..] == a[1..] + b;
      Regroup(a[0].hops, FlatHops(a[1..]), FlatHops(b));
    }
  }

  lemma Regroup(x: seq<Hop>, y: seq<Hop>, z: seq<Hop>)
    ensures x + (y + z) == (x + y) + z
  {}

  /** What one hop's three replies give. */
  function ReadHop(hop: Hop, reserves: Reply, token0: Reply, token1: Reply, amountIn: int): Option<int> {
    if reserves.Reserves? && token0.Address? && token1.Address? then
      var (reserveIn, reserveOut) := Oriented(hop, PairData(reserves.reserve0, reserves.reserve1, token0.token));
      V2Out(amountIn, reserveIn, reserveOut)
    else None
  }

  predicate NoFailure(replies: seq<Reply>) {
    forall k | 0 <= k < |replies| :: replies[k] != Failed
  }

  /** The batch can be answered from the multicall alone. */
  ghost predicate Answered(chain: Chain, candidates: seq<Candidate>, replies: seq<Reply>) {
    && AllPaired(FlatHops(candidates))
    && NoFailure(replies)
    && forall i | 0 <= i < |candidates| :: Whole(chain, candidates[i]).Some?
  }

  function ReadHopAt(hop: Hop, replies: seq<Reply>, at: nat, amountIn: int): Option<int> {
    if at + 3 > |replies| then None else ReadHop(hop, replies[at], replies[at + 1], replies[at + 2], amountIn)
  }

  /** The quote after `n` hops when the hops' replies are read three by three from `start` on; `None` stands for any
      exception on the way, among them running past the last reply. */
  function ReadUpTo(c: Candidate, replies: seq<Reply>, start: nat, n: nat): Option<QuoteResult>
    requires n <= |c.hops|
    decreases n
  {
    if n == 0 then Some(QuoteResult(c.amountIn, [], 0)) else
    var q := ReadUpTo(c, replies, start, n - 1);
    if q.None? then None else
    var out := ReadHopAt(c.hops[n - 1], replies, start + 3 * (n - 1), q.value.amountOut);
    if out.None? then None else
    Some(QuoteResult(out.value, q.value.perHopAmounts + [out.value], q.value.gasEstimate + HopGas(c, n - 1)))
  }

  lemma {:induction false} ReadFailureLasts(c: Candidate, replies: seq<Reply>, start: nat, m: nat, n: nat)
    requires m <= n <= |c.hops| && ReadUpTo(c, replies, start, m).None?
    ensures ReadUpTo(c, replies, start, n).None?
    decreases n
  {
    if m < n { ReadFailureLasts(c, replies, start, m, n - 1); }
  }

  predicate NoFailureIn(replies: seq<Reply>, lo: nat, hi: nat) {
    hi <= |replies| && forall k | lo <= k < hi :: replies[k] != Failed
  }

  /** `c` sits at position `done` of the flat list whose calls the replies answer. */
  predicate PlacedAt(chain: Chain, c: Candidate, replies: seq<Reply>, flat: seq<Hop>, done: nat) {
    && AllAgree(chain, FlatCalls(flat), replies)
    && done + |c.hops| <= |flat| && c.hops == flat[done..done + |c.hops|]
  }

  /** None of the replies of the `i`-th hop from `start` on is missing or failed. */
  predicate HopAnswered(replies: seq<Reply>, start: nat, i: nat) {
    var at := start + 3 * i;
    at + 3 <= |replies| && replies[at] != Failed && replies[at + 1] != Failed && replies[at + 2] != Failed
  }

  predicate AnsweredUpTo(replies: seq<Reply>, start: nat, n: nat) {
    n == 0 || (AnsweredUpTo(replies, start, n - 1) && HopAnswered(replies, start, n - 1))
  }

  lemma {:induction false} AnsweredMeansNoFailure(replies: seq<Reply>, start: nat, n: nat)
    requires start <= |replies|
    ensures AnsweredUpTo(replies, start, n) <==> NoFailureIn(replies, start, start + 3 * n)
  {
    if n > 0 {
      AnsweredMeansNoFailure(replies, start, n - 1);
      var at := start + 3 * (n - 1);
    }
  }

  /** One hop read at its place: its quote if its replies are there, nothing otherwise. */
  ghost predicate StepMatches(chain: Chain, c: Candidate, replies: seq<Reply>, start: nat, paired: bool, i: nat, x: int)
    requires i < |c.hops|
  {
    var out := ReadHopAt(c.hops[i], replies, start + 3 * i, x);
    && (out.Some? ==> HopAnswered(replies, start, i))
    && (paired ==> out == if HopAnswered(replies, start, i) then QuoteV2Hop(chain, c.hops[i], x) else None)
  }

  lemma {:induction false} StepsMatch(
      chain: Chain, c: Candidate, replies: seq<Reply>, flat: seq<Hop>, done: nat, i: nat, x: int)
    requires PlacedAt(chain, c, replies, flat, done) && i < |c.hops|
    ensures StepMatches(chain, c, replies, 3 * done, AllPaired(flat), i, x)
  {
    assert c.hops[i] == flat[done + i];
    if 3 * (done + i) + 3 <= |replies| {
      ReadHopMatches(chain, flat, replies, done + i, x);
    }
  }

  /** Reading a route whose hops all match gives its quote, unless one of its replies failed. */
  lemma {:induction false} ReadIsQuote(
      chain: Chain, c: Candidate, replies: seq<Reply>, start: nat, paired: bool, n: nat)
    requires n <= |c.hops|
    requires forall i: nat, x | i < |c.hops| :: StepMatches(chain, c, replies, start, paired, i, x)
    ensures ReadUpTo(c, replies, start, n).Some? ==> AnsweredUpTo(replies, start, n)
    ensures paired ==> ReadUpTo(c, replies, start, n)
                       == if AnsweredUpTo(replies, start, n) then QuoteUpTo(chain, c, n) else None
    decreases n
  {
    if n > 0 {
      ReadIsQuote(chain, c, replies, start, paired, n - 1);
      var q := ReadUpTo(c, replies, start, n - 1);
      if q.Some? { ReadNext(chain, c, replies, start, paired, n - 1, q.value); }
    }
  }

  lemma {:induction false} ReadNext(
      chain: Chain, c: Candidate, replies: seq<Reply>, start: nat, paired: bool, i: nat, q: QuoteResult)
    requires i < |c.hops| && StepMatches(chain, c, replies, start, paired, i, q.amountOut)
    requires ReadUpTo(c, replies, start, i) == Some(q) && AnsweredUpTo(replies, start, i)
    requires paired ==> QuoteUpTo(chain, c, i) == Some(q)
    ensures ReadUpTo(c, replies, start, i + 1).Some? ==> AnsweredUpTo(replies, start, i + 1)
    ensures paired ==> ReadUpTo(c, replies, start, i + 1)
                       == if AnsweredUpTo(replies, start, i + 1) then QuoteUpTo(chain, c, i + 1) else None
  {}

  method ReadRoute(c: Candidate, replies: seq<Reply>, start: nat) returns (q: Option<QuoteResult>)
    ensures q == ReadUpTo(c, replies, start, |c.hops|)
  {
    var callIndex := start;
    var current, gas := c.amountIn, 0;
    var perHopAmounts: seq<int> := [];
    for j := 0 to |c.hops|
      invariant callIndex == start + 3 * j && |perHopAmounts| == j
      invariant ReadUpTo(c, replies, start, j) == Some(QuoteResult(current, perHopAmounts, gas))
    {
      var isLastHop := |perHopAmounts| == |c.hops| - 1;
      if callIndex + 3 > |replies| {
        ReadFailureLasts(c, replies, start, j + 1, |c.hops|);
        return None;
      }
      var out := ReadHop(c.hops[j], replies[callIndex], replies[callIndex + 1], replies[callIndex + 2], current);
      if out.None? {
        ReadFailureLasts(c, replies, start, j + 1, |c.hops|);
        return None;
      }
      callIndex := callIndex + 3;
      perHopAmounts := perHopAmounts + [out.value];
      current := out.value;
      gas := gas + if isLastHop then LAST_HOP_GAS else HOP_GAS;
    }
    q := Some(QuoteResult(current, perHopAmounts, gas));
  }

  /** The same for the `i`-th candidate, in terms of what the whole batch needs: `q` is what reading it from `start` on
      gives. */
  ghost predicate CandidateReads(
    chain: Chain, candidates: seq<Candidate>, replies: seq<Reply>, i: nat, start: nat, q: Option<QuoteResult>)
    requires i < |candidates|
  {
    var next := start + 3 * |candidates[i].hops|;
    && 3 * |FlatHops(candidates[..i + 1])| == next
    && (q.Some? ==> NoFailureIn(replies, start, next))
    && (q.Some? && AllPaired(FlatHops(candidates)) ==> q == Whole(chain, candidates[i]))
    && (q.None? ==> !Answered(chain, candidates, replies))
  }

  lemma {:induction false} CandidateRead(
      chain: Chain, candidates: seq<Candidate>, replies: seq<Reply>, i: nat, start: nat)
    requires AllAgree(chain, FlatCalls(FlatHops(candidates)), replies)
    requires i < |candidates| && start == 3 * |FlatHops(candidates[..i])| <= |replies|
    ensures var c := candidates[i];
            CandidateReads(chain, candidates, replies, i, start, ReadUpTo(c, replies, start, |c.hops|))
  {
    PlaceInFlat(candidates, i);
    var flat, done, c := FlatHops(candidates), |FlatHops(candidates[..i])|, candidates[i];
    RouteRead(chain, c, replies, flat, done);
    var q := ReadUpTo(c, replies, start, |c.hops|);
    if q.None? && Answered(chain, candidates, replies) {
      assert Whole(chain, c).Some?;
      AnsweredEverywhere(flat, replies, start, start + 3 * |c.hops|);
    }
  }

  lemma {:induction false} RouteRead(
      chain: Chain, c: Candidate, replies: seq<Reply>, flat: seq<Hop>, done: nat)
    requires PlacedAt(chain, c, replies, flat, done) && 3 * done <= |replies|
    ensures var start, next := 3 * done, 3 * done + 3 * |c.hops|;
            var q := ReadUpTo(c, replies, start, |c.hops|);
            && (q.Some? ==> NoFailureIn(replies, start, next))
            && (AllPaired(flat) ==> q == if NoFailureIn(replies, start, next) then Whole(chain, c) else None)
  {
    forall i: nat, x | i < |c.hops| ensures StepMatches(chain, c, replies, 3 * done, AllPaired(flat), i, x) {
      StepsMatch(chain, c, replies, flat, done, i, x);
    }
    ReadIsQuote(chain, c, replies, 3 * done, AllPaired(flat), |c.hops|);
    AnsweredMeansNoFailure(replies, 3 * done, |c.hops|);
  }

  lemma {:induction false} AnsweredEverywhere(flat: seq<Hop>, replies: seq<Reply>, lo: nat, hi: nat)
    requires AllPaired(flat) && |replies| == |FlatCalls(flat)| && NoFailure(replies) && hi <= 3 * |flat|
    ensures NoFailureIn(replies, lo, hi)
  {
    FlatCallsShape(flat);
  }

  /** The first candidates are read, with nothing failed up to `callIndex`. */
  ghost predicate ReadSoFar(
    chain: Chain, candidates: seq<Candidate>, replies: seq<Reply>, results: seq<QuoteResult>, callIndex: nat)
  {
    && |results| <= |candidates|
    && callIndex == 3 * |FlatHops(candidates[..|results|])| && NoFailureIn(replies, 0, callIndex)
    && (AllPaired(FlatHops(candidates)) ==>
          forall k | 0 <= k < |results| :: Whole(chain, candidates[k]) == Some(results[k]))
  }

  lemma {:induction false} ReadOneMore(
      chain: Chain, candidates: seq<Candidate>, replies: seq<Reply>, results: seq<QuoteResult>, callIndex: nat,
      q: QuoteResult)
    requires |results| < |candidates| && ReadSoFar(chain, candidates, replies, results, callIndex)
    requires CandidateReads(chain, candidates, replies, |results|, callIndex, Some(q))
    ensures ReadSoFar(chain, candidates, replies, results + [q], callIndex + 3 * |candidates[|results|].hops|)
  {
    NoFailureExtends(replies, callIndex, callIndex + 3 * |candidates[|results|].hops|);
  }

  lemma NoFailureExtends(replies: seq<Reply>, mid: nat, hi: nat)
    requires mid <= hi && NoFailureIn(replies, 0, mid) && NoFailureIn(replies, mid, hi)
    ensures NoFailureIn(replies, 0, hi)
  {}

  lemma {:induction false} ReadAll(
      chain: Chain, candidates: seq<Candidate>, replies: seq<Reply>, results: seq<QuoteResult>, callIndex: nat)
    requires AllAgree(chain, FlatCalls(FlatHops(candidates)), replies) && |results| == |candidates|
    requires ReadSoFar(chain, candidates, replies, results, callIndex)
    ensures Answered(chain, candidates, replies)
    ensures forall k | 0 <= k < |results| :: Whole(chain, candidates[k]) == Some(results[k])
  {
    assert candidates[..|candidates|] == candidates;
    FlatCallsShape(FlatHops(candidates));
  }

  method ReadReplies(chain: Chain, candidates: seq<Candidate>, replies: seq<Reply>)
    returns (r: Option<seq<QuoteResult>>)
    requires AllAgree(chain, FlatCalls(FlatHops(candidates)), replies)
    ensures r.Some? <==> Answered(chain, candidates, replies)
    ensures r.Some? ==> |r.value| == |candidates| && forall i | 0 <= i < |candidates| ::
              Whole(chain, candidates[i]) == Some(r.value[i])
  {
    var callIndex: nat := 0;
    var results: seq<QuoteResult> := [];
    for i := 0 to |candidates|
      invariant |results| == i && ReadSoFar(chain, candidates, replies, results, callIndex)
    {
      CandidateRead(chain, candidates, replies, i, callIndex);
      var q := ReadRoute(candidates[i], replies, callIndex);
      if q.None? { return None; }
      ReadOneMore(chain, candidates, replies, results, callIndex, q.value);
      callIndex := callIndex + 3 * |candidates[i].hops|;
      results := results + [q.value];
    }
    ReadAll(chain, candidates, replies, results, callIndex);
    r := Some(results);
  }

  lemma PlaceInFlat(candidates: seq<Candidate>, i: nat)
    requires i < |candidates|
    ensures var done, n := |FlatHops(candidates[..i])|, |candidates[i].hops|;
            && |FlatHops(candidates[..i + 1])| == done + n <= |FlatHops(candidates)|
            && candidates[i].hops == FlatHops(candidates)[done..done + n]
  {
    FlatHopsSplit(candidates, i);
    var done, n := |FlatHops(candidates[..i])|, |candidates[i].hops|;
    assert candidates[i].hops == FlatHops(candidates[..i + 1])[done..];
    assert FlatHops(candidates)[..done + n][done..] == FlatHops(candidates)[done..done + n];
  }

  lemma {:induction false} ReadHopMatches(chain: Chain, hops: seq<Hop>, replies: seq<Reply>, h: nat, amountIn: int)
    requires AllAgree(chain, FlatCalls(hops), replies)
    requires h < |hops| && 3 * h + 3 <= |replies|
    ensures AllPaired(hops) ==>
              var failed := replies[3 * h] == Failed || replies[3 * h + 1] == Failed || replies[3 * h + 2] == Failed;
              ReadHop(hops[h], replies[3 * h], replies[3 * h + 1], replies[3 * h + 2], amountIn)
              == if failed then None else QuoteV2Hop(chain, hops[h], amountIn)
    ensures ReadHop(hops[h], replies[3 * h], replies[3 * h + 1], replies[3 * h + 2], amountIn).Some? ==>
              replies[3 * h] != Failed && replies[3 * h + 1] != Failed && replies[3 * h + 2] != Failed
  {
    FlatCallsShape(hops);
    assert Agrees(chain, FlatCalls(hops)[3 * h], replies[3 * h]);
    assert Agrees(chain, FlatCalls(hops)[3 * h + 1], replies[3 * h + 1]);
    assert Agrees(chain, FlatCalls(hops)[3 * h + 2], replies[3 * h + 2]);
  }

  /** All candidates quoted one by one; any failure fails the whole. */
  function SequentialAll(chain: Chain, candidates: seq<Candidate>): (r: Result<seq<QuoteResult>>)
    ensures r.Ok? <==> forall i | 0 <= i < |candidates| :: RouteQuote(chain, candidates[i]).Ok?
    ensures r.Ok? ==> |r.value| == |candidates|
                      && forall i | 0 <= i < |candidates| :: RouteQuote(chain, candidates[i]) == Ok(r.value[i])
  {
    if candidates == [] then Ok([]) else
    var first := RouteQuote(chain, candidates[0]);
    var rest := SequentialAll(chain, candidates[1..]);
    if first.Err? || rest.Err? then Err else Ok([first.value] + rest.value)
  }

  /** The batch gives exactly what quoting one by one gives, whether the multicall works, fails, fails in part or
      lacks a pair, if and only if every route has a hop or the multicall does not answer: a route without hops
      is an error one by one, but the batch answers it with its own input. */
  method BatchQuoteV2Routes(chain: Chain, candidates: seq<Candidate>, multicall: seq<Call> -> Option<seq<Reply>>)
    returns (r: Result<seq<QuoteResult>>)
    requires forall calls :: multicall(calls).Some? ==> AllAgree(chain, calls, multicall(calls).value)
    ensures var replies := multicall(FlatCalls(FlatHops(candidates)));
            r == SequentialAll(chain, candidates) <==>
            || (forall c | c in candidates :: c.hops != [])
            || replies.None?
            || !Answered(chain, candidates, replies.value)
    ensures forall i | 0 <= i < |candidates| && candidates[i].hops != [] && r.Ok? ::
              i < |r.value| && RouteQuote(chain, candidates[i]) == Ok(r.value[i])
  {
    var calls := BuildCalls(candidates);
    var returnData := multicall(calls);
    if returnData.Some? {
      var results := ReadReplies(chain, candidates, returnData.value);
      if results.Some? {
        AnsweredVersusSequential(chain, candidates, returnData.value, results.value);
        return Ok(results.value);
      }
    }
    r := QuoteOneByOne(chain, candidates);
  }

  lemma {:induction false} AnsweredVersusSequential(
      chain: Chain, candidates: seq<Candidate>, replies: seq<Reply>, results: seq<QuoteResult>)
    requires Answered(chain, candidates, replies) && |results| == |candidates|
    requires forall i | 0 <= i < |candidates| ::
      Whole(chain, candidates[i]) == Some(results[i])
    ensures Ok(results) == SequentialAll(chain, candidates) <==> forall c | c in candidates :: c.hops != []
  {
    if forall c | c in candidates :: c.hops != [] {
      forall i | 0 <= i < |candidates| ensures RouteQuote(chain, candidates[i]) == Ok(results[i]) {
        assert candidates[i] in candidates;
      }
      assert results == SequentialAll(chain, candidates).value;
    } else {
      var i :| 0 <= i < |candidates| && candidates[i].hops == [];
      assert RouteQuote(chain, candidates[i]).Err?;
    }
  }

  /** Such an input: one route without hops. */
  lemma {:induction false} EmptyRouteIsAnsweredOnlyInBatch(chain: Chain, amountIn: int)
    ensures var candidates := [Candidate(amountIn, [])];
            && FlatCalls(FlatHops(candidates)) == [] && Answered(chain, candidates, [])
            && SequentialAll(chain, candidates).Err?
  {
    var candidates := [Candidate(amountIn, [])];
    assert candidates[1..] == [];
    assert RouteQuote(chain, candidates[0]).Err?;
  }

  method BuildCalls(candidates: seq<Candidate>) returns (calls: seq<Call>)
    ensures calls == FlatCalls(FlatHops(candidates))
  {
    calls := [];
    ghost var hops: seq<Hop> := [];
    for i := 0 to |candidates|
      invariant hops == FlatHops(candidates[..i]) && calls == FlatCalls(hops)
    {
      calls := PushCalls(calls, candidates[i].hops, hops);
      FlatHopsSplit(candidates, i);
      hops := hops + candidates[i].hops;
    }
    assert candidates[..|candidates|] == candidates;
  }

  method PushCalls(before: seq<Call>, hops: seq<Hop>, ghost earlier: seq<Hop>) returns (calls: seq<Call>)
    requires before == FlatCalls(earlier)
    ensures calls == FlatCalls(earlier + hops)
  {
    calls := before;
    assert earlier + hops[..0] == earlier;
    for j := 0 to |hops|
      invariant calls == FlatCalls(earlier + hops[..j])
    {
      calls := calls + CallsOf(hops[j]);
      FlatCallsPush(earlier, hops, j);
    }
    assert hops[..|hops|] == hops;
  }

  lemma FlatCallsPush(earlier: seq<Hop>, hops: seq<Hop>, j: nat)
    requires j < |hops|
    ensures FlatCalls(earlier + hops[..j + 1]) == FlatCalls(earlier + hops[..j]) + CallsOf(hops[j])
  {
    FlatCallsAppend(earlier + hops[..j], hops[j]);
    assert earlier + hops[..j] + [hops[j]] == earlier + hops[..j + 1];
  }

  method QuoteOneByOne(chain: Chain, candidates: seq<Candidate>) returns (r: Result<seq<QuoteResult>>)
    ensures r == SequentialAll(chain, candidates)
  {
    var quotes: seq<QuoteResult> := [];
    for i := 0 to |candidates|
      invariant |quotes| == i
      invariant forall k | 0 <= k < i :: RouteQuote(chain, candidates[k]) == Ok(quotes[k])
    {
      var q := QuoteRoute(chain, candidates[i]);
      if q.Err? { return Err; }
      quotes := quotes + [q.value];
    }
    r := Ok(quotes);
    assert quotes == SequentialAll(chain, candidates).value;
  }

  lemma {:induction false} FlatCallsAppend(hops: seq<Hop>, hop: Hop)
    ensures FlatCalls(hops + [hop]) == FlatCalls(hops) + CallsOf(hop)
  {
    if hops == [] {
      assert [hop][1..] == [];
    } else {
      FlatCallsAppend(hops[1..], hop);
      assert (hops + [hop])[1..] == hops[1..] + [hop];
    }
  }

  // ---- what a route can yield ----

  /** The reserves of each hop of a route, in its direction. */
  datatype Leg = Leg(reserveIn: nat, reserveOut: nat)

  ghost predicate RouteReads(chain: Chain, hops: seq<Hop>, legs: seq<Leg>) {
    |legs| == |hops| && forall i | 0 <= i < |hops| ::
      && hops[i].pair.Some? && chain(hops[i].pair.value).Some?
      && var d := chain(hops[i].pair.value).value;
         if ToLower(d.token0) == ToLower(hops[i].tokenIn)
         then legs[i].reserveIn == d.reserve0 && legs[i].reserveOut == d.reserve1
         else legs[i].reserveIn == d.reserve1 && legs[i].reserveOut == d.reserve0
  }

  /** The product of 1000 * reserveIn over the first `n` legs. */
  function ProductIn(legs: seq<Leg>, n: nat): nat
    requires n <= |legs|
  {
    if n == 0 then 1 else 1000 * legs[n - 1].reserveIn * ProductIn(legs, n - 1)
  }

  /** The product of 997 * reserveOut over the first `n` legs. */
  function ProductOut(legs: seq<Leg>, n: nat): nat
    requires n <= |legs|
  {
    if n == 0 then 1 else 997 * legs[n - 1].reserveOut * ProductOut(legs, n - 1)
  }

  lemma V2OutBounds(a: nat, reserveIn: nat, reserveOut: nat)
    ensures var out := V2Out(a, reserveIn, reserveOut);
            out.Some? ==> out.value >= 0 && out.value * (reserveIn * 1000 + a * 997) <= a * 997 * reserveOut
                          < (out.value + 1) * (reserveIn * 1000 + a * 997)
  {
    var d := reserveIn * 1000 + a * 997;
    if d != 0 {
      MulLe(0, reserveOut, a * 997);
      QuotientBounds(a * 997 * reserveOut, d);
      var q := V2Out(a, reserveIn, reserveOut).value;
      assert (q + 1) * d == q * d + d;
    }
  }

  lemma V2OutMonotone(a: nat, b: nat, reserveIn: nat, reserveOut: nat)
    requires a <= b && V2Out(a, reserveIn, reserveOut).Some?
    ensures V2Out(b, reserveIn, reserveOut).Some?
    ensures V2Out(a, reserveIn, reserveOut).value <= V2Out(b, reserveIn, reserveOut).value
  {
    V2OutBounds(a, reserveIn, reserveOut);
    V2OutBounds(b, reserveIn, reserveOut);
    var y := V2Out(a, reserveIn, reserveOut).value;
    if y > reserveOut {
      OverReserve(reserveIn, reserveOut, a, y);
    }
    MonotoneArithmetic(reserveIn, reserveOut, a, b, y);
    MulLe(0, reserveOut, b * 997);
    BoundedMeansAtMostQuotient(b * 997 * reserveOut, reserveIn * 1000 + b * 997, y);
  }

  lemma OverReserve(e: nat, t: nat, a: nat, y: int)
    requires e * 1000 + a * 997 > 0 && y > t
    ensures y * (e * 1000 + a * 997) > a * 997 * t
  {
    var d := e * 1000 + a * 997;
    MulLt(t, y, d);
    MulLe(0, e * 1000, t);
    assert t * d == e * 1000 * t + a * 997 * t;
  }

  /** Over a route of any length, a larger input never yields less. */
  lemma {:induction false} RouteMonotone(chain: Chain, c: Candidate, legs: seq<Leg>, larger: int, n: nat)
    requires RouteReads(chain, c.hops, legs) && 0 <= c.amountIn <= larger && n <= |c.hops|
    requires QuoteUpTo(chain, c, n).Some?
    ensures QuoteUpTo(chain, c.(amountIn := larger), n).Some?
    ensures 0 <= QuoteUpTo(chain, c, n).value.amountOut
              <= QuoteUpTo(chain, c.(amountIn := larger), n).value.amountOut
    decreases n
  {
    if n > 0 {
      RouteMonotone(chain, c, legs, larger, n - 1);
      var a := QuoteUpTo(chain, c, n - 1).value.amountOut;
      var b := QuoteUpTo(chain, c.(amountIn := larger), n - 1).value.amountOut;
      V2OutBounds(a, legs[n - 1].reserveIn, legs[n - 1].reserveOut);
      V2OutMonotone(a, b, legs[n - 1].reserveIn, legs[n - 1].reserveOut);
    }
  }

  lemma ChainArithmetic(a: nat, x: nat, y: nat, rin: nat, rout: nat, pin: nat, pout: nat)
    requires x * pin <= a * pout
    requires y * (rin * 1000 + x * 997) <= x * 997 * rout
    ensures y * (1000 * rin * pin) <= a * (997 * rout * pout)
  {
    MulLe(0, x * 997, y);
    assert y * (rin * 1000 + x * 997) == y * (1000 * rin) + (x * 997) * y;
    MulLe(y * (1000 * rin), x * (997 * rout), pin);
    MulLe(x * pin, a * pout, 997 * rout);
    assert y * (1000 * rin * pin) == y * (1000 * rin) * pin;
    assert x * (997 * rout) * pin == x * pin * (997 * rout);
    assert a * pout * (997 * rout) == a * (997 * rout * pout);
  }

  /** Over a route of any length, the output times the product of 1000 * reserveIn is at most the input times the
      product of 997 * reserveOut. */
  lemma {:induction false} RouteBound(chain: Chain, c: Candidate, legs: seq<Leg>, n: nat)
    requires RouteReads(chain, c.hops, legs) && c.amountIn >= 0 && n <= |c.hops|
    requires QuoteUpTo(chain, c, n).Some?
    ensures var out := QuoteUpTo(chain, c, n).value.amountOut;
            out >= 0 && out * ProductIn(legs, n) <= c.amountIn * ProductOut(legs, n)
    decreases n
  {
    if n > 0 {
      RouteBound(chain, c, legs, n - 1);
      var x := QuoteUpTo(chain, c, n - 1).value.amountOut;
      var y := QuoteUpTo(chain, c, n).value.amountOut;
      var leg := legs[n - 1];
      V2OutBounds(x, leg.reserveIn, leg.reserveOut);
      ChainArithmetic(c.amountIn, x, y, leg.reserveIn, leg.reserveOut, ProductIn(legs, n - 1), ProductOut(legs, n - 1));
    }
  }

  /** One hop through a pair with reserves on both sides: what the pair gives, or nothing for nothing. */
  lemma HopGives(chain: Chain, c: Candidate, legs: seq<Leg>, i: nat, x: nat)
    requires RouteReads(chain, c.hops, legs) && i < |c.hops| && legs[i].reserveIn > 0 && legs[i].reserveOut > 0
    ensures var q := QuoteV2Hop(chain, c.hops[i], x);
            && q.Some? && q.value >= 0
            && (if x == 0 then q.value == 0 else Gives(legs[i].reserveIn, legs[i].reserveOut, x, q.value))
  {
    if x > 0 {
      OutputInRange(legs[i].reserveIn, legs[i].reserveOut, x);
      assert QuoteV2Hop(chain, c.hops[i], x) == Some(AmountOut(legs[i].reserveIn, legs[i].reserveOut, x));
      OutputIsGiven(legs[i].reserveIn, legs[i].reserveOut, x, AmountOut(legs[i].reserveIn, legs[i].reserveOut, x));
    }
  }

  /** Nothing for nothing; otherwise what the pair gives. */
  predicate HopAmount(leg: Leg, x: int, y: int) {
    y >= 0 && if x == 0 then y == 0 else Gives(leg.reserveIn, leg.reserveOut, x, y)
  }

  /** Each amount is the leg's for the amount before it, the first for the input. */
  predicate RouteAmounts(legs: seq<Leg>, amountIn: int, amounts: seq<int>) {
    |amounts| <= |legs| && forall i | 0 <= i < |amounts| :: HopAmount(legs[i], ([amountIn] + amounts)[i], amounts[i])
  }

  lemma RouteAmountsGrow(legs: seq<Leg>, amountIn: int, amounts: seq<int>, y: int)
    requires RouteAmounts(legs, amountIn, amounts) && |amounts| < |legs|
    requires HopAmount(legs[|amounts|], ([amountIn] + amounts)[|amounts|], y)
    ensures RouteAmounts(legs, amountIn, amounts + [y])
  {
    var more := amounts + [y];
    assert forall i | 0 <= i <= |amounts| :: ([amountIn] + more)[i] == ([amountIn] + amounts)[i];
    assert forall i | 0 <= i < |amounts| :: more[i] == amounts[i];
  }

  /** A route is always quoted when its hops all have pairs with reserves on both sides, and each amount is what the
      pair gives for the amount before it. */
  lemma {:induction false} RouteIsQuoted(chain: Chain, c: Candidate, legs: seq<Leg>, n: nat)
    requires RouteReads(chain, c.hops, legs) && c.amountIn >= 0 && n <= |c.hops|
    requires forall leg | leg in legs :: leg.reserveIn > 0 && leg.reserveOut > 0
    ensures QuoteUpTo(chain, c, n).Some?
    ensures var q := QuoteUpTo(chain, c, n).value;
            && |q.perHopAmounts| == n && RouteAmounts(legs, c.amountIn, q.perHopAmounts)
            && q.amountOut == ([c.amountIn] + q.perHopAmounts)[n] >= 0
    decreases n
  {
    if n > 0 {
      RouteIsQuoted(chain, c, legs, n - 1);
      var q := QuoteUpTo(chain, c, n - 1).value;
      assert legs[n - 1] in legs;
      HopGives(chain, c, legs, n - 1, q.amountOut);
      var y := QuoteV2Hop(chain, c.hops[n - 1], q.amountOut).value;
      RouteAmountsGrow(legs, c.amountIn, q.perHopAmounts, y);
      QuoteGrows(chain, c, n, q, y);
    }
  }

  lemma {:induction false} QuoteGrows(chain: Chain, c: Candidate, n: nat, q: QuoteResult, y: int)
    requires 0 < n <= |c.hops| && QuoteUpTo(chain, c, n - 1) == Some(q)
    requires QuoteV2Hop(chain, c.hops[n - 1], q.amountOut) == Some(y)
    ensures var r := QuoteUpTo(chain, c, n);
            r.Some? && r.value.amountOut == y && r.value.perHopAmounts == q.perHopAmounts + [y]
  {}

  /** There is no quote without every hop's pair being there. */
  lemma {:induction false} QuoteNeedsPairs(chain: Chain, c: Candidate, n: nat)
    requires n <= |c.hops| && QuoteUpTo(chain, c, n).Some?
    ensures forall i | 0 <= i < n :: c.hops[i].pair.Some? && chain(c.hops[i].pair.value).Some?
    decreases n
  {
    if n > 0 { QuoteNeedsPairs(chain, c, n - 1); }
  }
}
