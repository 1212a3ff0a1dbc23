/** Choosing trades for a bundle: highest profit first, each taken if it still fits under the gas limit. */
module BatchingEngine {

  /** A field of a candidate as it is read: missing, text that is no integer, or an integer. Empty text counts as
      missing for the two simulation fields and as `Parsed(0)` for `gasUsed`. */
  datatype Field = Absent | Unparsable | Parsed(n: int)

  datatype Candidate = Candidate(id: string, netProfitWei: Field, gasUsed: Field, gasCostWei: Field)

  function GetNetProfitWei(c: Candidate): int {
    if c.netProfitWei.Parsed? then c.netProfitWei.n else 0
  }

  function EstimateGasUsed(c: Candidate): int {
    if c.gasUsed.Parsed? then c.gasUsed.n
    else if c.gasCostWei.Parsed? then c.gasCostWei.n
    else 21000
  }

  datatype Normalized = Normalized(trade: Candidate, gasUsed: int, profit: int)

  function Normalize(c: Candidate): Normalized {
    Normalized(c, EstimateGasUsed(c), GetNetProfitWei(c))
  }

  // ---- the built-in stable sort, by descending profit ----

  function Insert(x: Normalized, s: seq<Normalized>): (r: seq<Normalized>)
    ensures multiset(r) == multiset(s) + multiset{x}
  {
    if s == [] then [x]
    else if s[0].profit > x.profit then
      assert s == [s[0]] + s[1..];
      [s[0]] + Insert(x, s[1..])
    else [x] + s
  }

  function SortByProfit(s: seq<Normalized>): (r: seq<Normalized>)
    ensures multiset(r) == multiset(s)
  {
    if s == [] then [] else
    assert s == [s[0]] + s[1..];
    Insert(s[0], SortByProfit(s[1..]))
  }

  ghost predicate Descending(s: seq<Normalized>) {
    forall i, j | 0 <= i < j < |s| :: s[i].profit >= s[j].profit
  }

  lemma {:induction false} InsertKeepsDescending(x: Normalized, s: seq<Normalized>)
    requires Descending(s)
    ensures Descending(Insert(x, s))
  {
    if s != [] && s[0].profit > x.profit {
      InsertKeepsDescending(x, s[1..]);
      var rest := Insert(x, s[1..]);
      forall j | 0 <= j < |rest| ensures s[0].profit >= rest[j].profit {
        assert rest[j] in multiset(rest);
      }
    }
  }

  lemma {:induction false} SortDescends(s: seq<Normalized>)
    ensures Descending(SortByProfit(s))
  {
    if s != [] {
      SortDescends(s[1..]);
      InsertKeepsDescending(s[0], SortByProfit(s[1..]));
    }
  }

  /** The trades with one given profit, in order. */
  function WithProfit(s: seq<Normalized>, profit: int): seq<Normalized> {
    if s == [] then [] else IfProfit(s[0], profit) + WithProfit(s[1..], profit)
  }

  function IfProfit(x: Normalized, profit: int): seq<Normalized> {
    if x.profit == profit then [x] else []
  }

  lemma {:induction false} WithProfitCons(x: Normalized, s: seq<Normalized>, profit: int)
    ensures WithProfit([x] + s, profit) == IfProfit(x, profit) + WithProfit(s, profit)
  {
    assert ([x] + s)[1..] == s;
  }

  lemma {:induction false} InsertStable(x: Normalized, s: seq<Normalized>, profit: int)
    ensures WithProfit(Insert(x, s), profit) == IfProfit(x, profit) + WithProfit(s, profit)
  {
    if s == [] {
      assert [x] + s == [x];
      WithProfitCons(x, s, profit);
    } else if s[0].profit > x.profit {
      InsertStable(x, s[1..], profit);
      WithProfitCons(s[0], Insert(x, s[1..]), profit);
      Exchange(IfProfit(s[0], profit), IfProfit(x, profit), WithProfit(s[1..], profit));
    } else {
      WithProfitCons(x, s, profit);
    }
  }

  lemma Exchange<T>(a: seq<T>, b: seq<T>, s: seq<T>)
    requires a == [] || b == []
    ensures a + (b + s) == b + (a + s)
  {}

  /** Trades of equal profit keep their order. */
  lemma {:induction false} SortStable(s: seq<Normalized>, profit: int)
    ensures WithProfit(SortByProfit(s), profit) == WithProfit(s, profit)
  {
    if s != [] {
      SortStable(s[1..], profit);
      InsertStable(s[0], SortByProfit(s[1..]), profit);
    }
  }

  // ---- choosing ----

  /** A choice among the sorted trades: one mark per trade. */
  type Choice = seq<bool>

  function Gas(s: seq<Normalized>, c: Choice): int
    requires |s| == |c|
  {
    if s == [] then 0 else (if c[0] then s[0].gasUsed else 0) + Gas(s[1..], c[1..])
  }

  function Profit(s: seq<Normalized>, c: Choice): int
    requires |s| == |c|
  {
    if s == [] then 0 else (if c[0] then s[0].profit else 0) + Profit(s[1..], c[1..])
  }

  /** A choice of profitable trades that together stay within `room`. */
  ghost predicate Feasible(s: seq<Normalized>, c: Choice, room: int) {
    && |c| == |s|
    && (forall i | 0 <= i < |s| && c[i] :: s[i].profit > 0)
    && (Gas(s, c) <= room || forall i | 0 <= i < |s| :: !c[i])
  }

  datatype Verdict = Take | NonPositiveProfit | ExceedsMaxGasAlone | BundleGasLimit

  /** What becomes of a trade when `used` gas has been taken. */
  function Judge(n: Normalized, used: int, limit: int): Verdict {
    if n.profit <= 0 then NonPositiveProfit
    else if n.gasUsed > limit then ExceedsMaxGasAlone
    else if used + n.gasUsed > limit then BundleGasLimit
    else Take
  }

  /** What the greedy pass marks when `used` gas has been taken. */
  function Greedy(s: seq<Normalized>, used: int, limit: int): (c: Choice)
    ensures |c| == |s|
  {
    if s == [] then []
    else if Judge(s[0], used, limit) == Take then [true] + Greedy(s[1..], used + s[0].gasUsed, limit)
    else [false] + Greedy(s[1..], used, limit)
  }

  /** The greedy choice is within the limit, whatever the gas. */
  lemma {:induction false} GreedyFeasible(s: seq<Normalized>, used: int, limit: int)
    ensures Feasible(s, Greedy(s, used, limit), limit - used)
  {
    if s != [] {
      var takes := Judge(s[0], used, limit) == Take;
      var rest := if takes then used + s[0].gasUsed else used;
      GreedyFeasible(s[1..], rest, limit);
      var tail := Greedy(s[1..], rest, limit);
      PrependFeasible(s, takes, tail, rest - used, limit - used);
      assert Greedy(s, used, limit) == [takes] + tail;
    }
  }

  lemma {:induction false} GasOfNothing(s: seq<Normalized>, c: Choice)
    requires |c| == |s| && forall i | 0 <= i < |s| :: !c[i]
    ensures Gas(s, c) == 0 && Profit(s, c) == 0
  {
    if s != [] { GasOfNothing(s[1..], c[1..]); }
  }

  /** A head that is profitable and fits, in front of a feasible choice for the rest. */
  lemma PrependFeasible(s: seq<Normalized>, head: bool, tail: Choice, gas: int, room: int)
    requires s != [] && Feasible(s[1..], tail, room - gas)
    requires gas == (if head then s[0].gasUsed else 0) && (head ==> s[0].profit > 0 && s[0].gasUsed <= room)
    ensures Feasible(s, [head] + tail, room)
  {
    var c := [head] + tail;
    assert c[1..] == tail;
    forall i | 0 <= i < |s| && c[i] ensures s[i].profit > 0 {
      if i > 0 { assert tail[i - 1] && s[1..][i - 1] == s[i]; }
    }
    if forall i | 0 <= i < |tail| :: !tail[i] { GasOfNothing(s[1..], tail); }
  }

  // ---- the lexicographic order ----

  /** `c` and the greedy choice first differ at trade `i`. */
  ghost predicate FirstDiffers(s: seq<Normalized>, c: Choice, used: int, limit: int, i: nat)
    requires |c| == |s|
  {
    i < |s| && c[i] != Greedy(s, used, limit)[i] && c[..i] == Greedy(s, used, limit)[..i]
  }

  /** Of any other feasible choice, the first trade on which the two differ is in the greedy choice. */
  ghost predicate LexBest(s: seq<Normalized>, used: int, limit: int) {
    forall c, i: nat | Feasible(s, c, limit - used) && FirstDiffers(s, c, used, limit, i) :: Greedy(s, used, limit)[i]
  }

  /** The gas that the profitable trades can give back. */
  function Refund(s: seq<Normalized>): (r: int)
    ensures r <= 0
  {
    if s == [] then 0 else (if Refunds(s[0]) then s[0].gasUsed else 0) + Refund(s[1..])
  }

  predicate Refunds(n: Normalized) {
    n.profit > 0 && n.gasUsed < 0
  }

  /** No profitable trade that is passed over would have fitted with the gas that later ones give back. */
  predicate NoneFitsLater(s: seq<Normalized>, used: int, limit: int) {
    s == [] ||
    var v := Judge(s[0], used, limit);
    && (v in {ExceedsMaxGasAlone, BundleGasLimit} ==> used + s[0].gasUsed + Refund(s[1..]) > limit)
    && NoneFitsLater(s[1..], if v == Take then used + s[0].gasUsed else used, limit)
  }

  lemma {:induction false} AtLeastRefund(s: seq<Normalized>, c: Choice)
    requires |c| == |s| && forall i | 0 <= i < |s| && c[i] :: s[i].profit > 0
    ensures Gas(s, c) >= Refund(s)
  {
    if s != [] {
      forall i | 0 <= i < |s[1..]| && c[1..][i] ensures s[1..][i].profit > 0 { assert c[i + 1]; }
      AtLeastRefund(s[1..], c[1..]);
    }
  }

  lemma {:induction false} RefundReached(s: seq<Normalized>) returns (c: Choice)
    ensures |c| == |s| && Gas(s, c) == Refund(s) && forall i | 0 <= i < |s| && c[i] :: s[i].profit > 0
    ensures Profit(s, c) >= 0 && (Refund(s) < 0 ==> Profit(s, c) > 0)
  {
    c := [];
    if s != [] {
      var tail := RefundReached(s[1..]);
      c := [Refunds(s[0])] + tail;
      assert c[1..] == tail;
      forall i | 0 < i < |s| && c[i] ensures s[i].profit > 0 { assert tail[i - 1]; }
    }
  }

  /** Some feasible choice takes a head that was passed over exactly when it would have fitted later. */
  lemma {:induction false} HeadFitsLater(s: seq<Normalized>, used: int, limit: int)
    requires s != [] && Judge(s[0], used, limit) in {ExceedsMaxGasAlone, BundleGasLimit}
    ensures (exists c :: Feasible(s, c, limit - used) && c[0]) <==> used + s[0].gasUsed + Refund(s[1..]) <= limit
  {
    forall c | Feasible(s, c, limit - used) && c[0] ensures used + s[0].gasUsed + Refund(s[1..]) <= limit {
      forall i | 0 <= i < |s[1..]| && c[1..][i] ensures s[1..][i].profit > 0 { assert c[i + 1]; }
      AtLeastRefund(s[1..], c[1..]);
    }
    if used + s[0].gasUsed + Refund(s[1..]) <= limit {
      var tail := RefundReached(s[1..]);
      var c := [true] + tail;
      assert c[1..] == tail;
      forall i | 0 <= i < |s| && c[i] ensures s[i].profit > 0 {
        if i > 0 { assert tail[i - 1] && s[1..][i - 1] == s[i]; }
      }
      assert Feasible(s, c, limit - used) && c[0];
    }
  }

  lemma TailFeasible(s: seq<Normalized>, c: Choice, room: int)
    requires s != [] && Feasible(s, c, room)
    ensures Feasible(s[1..], c[1..], room - if c[0] then s[0].gasUsed else 0)
  {
    forall i | 0 <= i < |s[1..]| && c[1..][i] ensures s[1..][i].profit > 0 { assert c[i + 1]; }
    if !c[0] && forall i | 0 <= i < |s| :: !c[i] { assert forall i | 0 <= i < |s[1..]| :: !c[1..][i]; }
  }

  /** Past a head that both treat alike, the question is the same one about the rest. */
  lemma {:induction false} TailDiffers(s: seq<Normalized>, used: int, limit: int, c: Choice, i: nat)
    requires s != [] && |c| == |s| && c[0] == Greedy(s, used, limit)[0]
    ensures var rest := if c[0] then used + s[0].gasUsed else used;
            && Greedy(s, used, limit) == [c[0]] + Greedy(s[1..], rest, limit)
            && (FirstDiffers(s, c, used, limit, i + 1) <==> FirstDiffers(s[1..], c[1..], rest, limit, i))
  {
    GreedyTail(s, used, limit);
    var g, tail := Greedy(s, used, limit), Greedy(s, used, limit)[1..];
    assert g == [c[0]] + tail && c == [c[0]] + c[1..];
    if i < |tail| {
      assert c[..i + 1] == [c[0]] + c[1..][..i] && g[..i + 1] == [c[0]] + tail[..i];
      assert c[..i + 1] == g[..i + 1] <==> c[1..][..i] == tail[..i] by {
        assert c[..i + 1][1..] == c[1..][..i] && g[..i + 1][1..] == tail[..i];
      }
    }
  }

  /** Exactly when the greedy choice is lexicographically best under a limit. */
  lemma {:induction false} LexBestExactly(s: seq<Normalized>, used: int, limit: int)
    ensures LexBest(s, used, limit) <==> NoneFitsLater(s, used, limit)
  {
    if s != [] {
      var rest := if Judge(s[0], used, limit) == Take then used + s[0].gasUsed else used;
      LexBestExactly(s[1..], rest, limit);
      if NoneFitsLater(s, used, limit) {
        forall c, i: nat | Feasible(s, c, limit - used) && FirstDiffers(s, c, used, limit, i)
          ensures Greedy(s, used, limit)[i]
        {
          StillBest(s, c, used, limit, i);
        }
      } else if NoneFitsLater(s[1..], rest, limit) {
        HeadBeaten(s, used, limit);
      } else {
        TailBeaten(s, used, rest, limit);
      }
    }
  }

  lemma {:induction false} HeadBeaten(s: seq<Normalized>, used: int, limit: int)
    requires s != [] && Judge(s[0], used, limit) in {ExceedsMaxGasAlone, BundleGasLimit}
    requires used + s[0].gasUsed + Refund(s[1..]) <= limit
    ensures !LexBest(s, used, limit)
  {
    HeadFitsLater(s, used, limit);
    GreedyTail(s, used, limit);
    var c :| Feasible(s, c, limit - used) && c[0];
    assert FirstDiffers(s, c, used, limit, 0);
  }

  lemma {:induction false} TailBeaten(s: seq<Normalized>, used: int, rest: int, limit: int)
    requires s != [] && rest == if Judge(s[0], used, limit) == Take then used + s[0].gasUsed else used
    requires !LexBest(s[1..], rest, limit)
    ensures !LexBest(s, used, limit)
  {
    var takes := Judge(s[0], used, limit) == Take;
    var tail, i: nat :| Feasible(s[1..], tail, limit - rest) && FirstDiffers(s[1..], tail, rest, limit, i)
                        && !Greedy(s[1..], rest, limit)[i];
    PrependFeasible(s, takes, tail, rest - used, limit - used);
    var c := [takes] + tail;
    assert c[0] == takes && c[1..] == tail;
    GreedyTail(s, used, limit);
    TailDiffers(s, used, limit, c, i);
    assert FirstDiffers(s, c, used, limit, i + 1) && !Greedy(s, used, limit)[i + 1];
  }

  lemma {:induction false} StillBest(s: seq<Normalized>, c: Choice, used: int, limit: int, i: nat)
    requires s != [] && NoneFitsLater(s, used, limit)
    requires LexBest(s[1..], if Judge(s[0], used, limit) == Take then used + s[0].gasUsed else used, limit)
    requires Feasible(s, c, limit - used) && FirstDiffers(s, c, used, limit, i)
    ensures Greedy(s, used, limit)[i]
  {
    GreedyTail(s, used, limit);
    if i == 0 {
      if c[0] { HeadFitsLater(s, used, limit); }
    } else {
      assert c[0] == c[..i][0] == Greedy(s, used, limit)[..i][0];
      TailFeasible(s, c, limit - used);
      TailDiffers(s, used, limit, c, i - 1);
    }
  }

  /** Of two profitable trades neither gives gas back. */
  predicate GasSafe(s: seq<Normalized>) {
    forall i, j | 0 <= i < j < |s| && s[i].profit > 0 && s[j].profit > 0 :: s[i].gasUsed >= 0 && s[j].gasUsed >= 0
  }

  lemma {:induction false} NoRefund(s: seq<Normalized>)
    requires forall i | 0 <= i < |s| :: !Refunds(s[i])
    ensures Refund(s) == 0
  {
    if s != [] { NoRefund(s[1..]); }
  }

  lemma {:induction false} RefundIn(s: seq<Normalized>, j: nat)
    requires j < |s| && Refunds(s[j])
    ensures Refund(s) < 0
  {
    if j > 0 { RefundIn(s[1..], j - 1); }
  }

  /** Unless a trade gives gas back beside another profitable one, the greedy choice is lexicographically best. */
  lemma {:induction false} GreedyIsLexicographicallyBest(s: seq<Normalized>, limit: int)
    requires GasSafe(s)
    ensures LexBest(s, 0, limit)
  {
    SafeFits(s, 0, limit);
    LexBestExactly(s, 0, limit);
  }

  lemma {:induction false} SafeFits(s: seq<Normalized>, used: int, limit: int)
    requires GasSafe(s) && used >= 0
    requires used == 0 || forall i | 0 <= i < |s| :: !Refunds(s[i])
    ensures NoneFitsLater(s, used, limit)
  {
    if s != [] {
      if s[0].profit > 0 {
        NoRefund(s[1..]);
      }
      var v := Judge(s[0], used, limit);
      if v == Take && s[0].gasUsed < 0 {
        NothingProfitable(s[1..], used + s[0].gasUsed, limit);
      } else {
        SafeFits(s[1..], if v == Take then used + s[0].gasUsed else used, limit);
      }
    }
  }

  lemma {:induction false} NothingProfitable(s: seq<Normalized>, used: int, limit: int)
    requires forall i | 0 <= i < |s| :: s[i].profit <= 0
    ensures NoneFitsLater(s, used, limit)
  {
    if s != [] { NothingProfitable(s[1..], used, limit); }
  }

  /** Exactly for which trades this holds whatever the limit: a trade that gives gas back can make room for another one,
      so there must not be one beside another profitable trade. */
  lemma {:induction false} LexBestForEveryLimit(s: seq<Normalized>)
    ensures (forall limit :: LexBest(s, 0, limit)) <==> GasSafe(s)
  {
    if GasSafe(s) {
      forall limit ensures LexBest(s, 0, limit) { GreedyIsLexicographicallyBest(s, limit); }
    } else {
      var limit := LimitThatFails(s);
      LexBestExactly(s, 0, limit);
    }
  }

  lemma {:induction false} LimitThatFails(s: seq<Normalized>) returns (limit: int)
    requires !GasSafe(s)
    ensures !NoneFitsLater(s, 0, limit)
  {
    var i, j :| 0 <= i < j < |s| && s[i].profit > 0 && s[j].profit > 0 && (s[i].gasUsed < 0 || s[j].gasUsed < 0);
    if s[0].profit <= 0 {
      assert s[1..][i - 1] == s[i] && s[1..][j - 1] == s[j];
      limit := LimitThatFails(s[1..]);
    } else if k :| 0 < k < |s| && Refunds(s[k]) {
      RefundIn(s[1..], k - 1);
      limit := s[0].gasUsed + Refund(s[1..]);
    } else {
      assert s[1..][j - 1] == s[j];
      var gas := NextGas(s[1..], j - 1, s[0].gasUsed);
      limit := s[0].gasUsed + gas;
    }
  }

  /** After a trade that gives gas back, the next profitable one does not fit alone. */
  lemma {:induction false} NextGas(s: seq<Normalized>, j: nat, used: int) returns (gas: int)
    requires used < 0 && j < |s| && s[j].profit > 0 && forall i | 0 <= i < |s| :: !Refunds(s[i])
    ensures gas >= 0 && !NoneFitsLater(s, used, used + gas)
  {
    if s[0].profit > 0 {
      gas := s[0].gasUsed;
    } else {
      gas := NextGas(s[1..], j - 1, used);
    }
  }

  /** For instance, a trade that gives gas back makes room for a more profitable one. */
  lemma NegativeGasBreaksTheOrder(a: Candidate, b: Candidate)
    ensures var s := [Normalized(a, 12, 3), Normalized(b, -5, 2)];
            && Descending(s) && Feasible(s, [true, true], 10)
            && Greedy(s, 0, 10) == [false, true]
  {
    var s := [Normalized(a, 12, 3), Normalized(b, -5, 2)];
    assert s[1..] == [Normalized(b, -5, 2)] && s[1..][1..] == [];
    assert [true, true][1..] == [true];
    assert Gas(s[1..], [true]) == -5;
  }

  // ---- equal gas ----

  ghost predicate EqualGas(s: seq<Normalized>, gas: int) {
    forall i | 0 <= i < |s| :: s[i].gasUsed == gas
  }

  /** Giving up one chosen trade frees its gas and costs at most the highest profit. */
  lemma {:induction false} DropOne(s: seq<Normalized>, c: Choice, gas: int, top: int) returns (d: Choice)
    requires |c| == |s| && EqualGas(s, gas) && (exists i | 0 <= i < |s| :: c[i])
    requires forall i | 0 <= i < |s| :: s[i].profit <= top
    ensures |d| == |s| && (forall i | 0 <= i < |s| && d[i] :: c[i])
    ensures Gas(s, d) == Gas(s, c) - gas && Profit(s, c) <= Profit(s, d) + top
  {
    if c[0] {
      d := [false] + c[1..];
      assert d[1..] == c[1..];
    } else {
      var i :| 0 <= i < |s| && c[i];
      assert c[1..][i - 1];
      var tail := DropOne(s[1..], c[1..], gas, top);
      d := [false] + tail;
      assert d[1..] == tail;
      forall j | 0 <= j < |s| && d[j] ensures c[j] { assert tail[j - 1] && c[1..][j - 1]; }
    }
  }

  lemma {:induction false} SomeGas(s: seq<Normalized>, c: Choice, gas: int)
    requires |c| == |s| && EqualGas(s, gas) && gas >= 0
    ensures Gas(s, c) >= if exists i | 0 <= i < |s| :: c[i] then gas else 0
  {
    if s != [] {
      SomeGas(s[1..], c[1..], gas);
      if i :| 0 < i < |s| && c[i] { assert c[1..][i - 1]; }
    }
  }

  /** Choosing anything takes the gas of one trade, less what others give back. */
  lemma GasOfSome(s: seq<Normalized>, c: Choice, room: int, gas: int)
    requires Descending(s) && EqualGas(s, gas) && Feasible(s, c, room) && exists i | 0 <= i < |s| :: c[i]
    ensures s[0].profit > 0 && Gas(s, c) >= gas + Refund(s[1..])
  {
    var i :| 0 <= i < |s| && c[i];
    assert s[0].profit >= s[i].profit;
    if gas < 0 {
      AtLeastRefund(s, c);
    } else {
      SomeGas(s, c, gas);
      NoRefund(s[1..]);
    }
  }

  lemma {:induction false} GreedyNeverLoses(s: seq<Normalized>, used: int, limit: int)
    ensures Profit(s, Greedy(s, used, limit)) >= 0
  {
    if s != [] {
      GreedyNeverLoses(s[1..], if Judge(s[0], used, limit) == Take then used + s[0].gasUsed else used, limit);
      GreedyTail(s, used, limit);
    }
  }

  lemma {:induction false} GreedyTail(s: seq<Normalized>, used: int, limit: int)
    requires s != []
    ensures var takes := Judge(s[0], used, limit) == Take;
            Greedy(s, used, limit)[0] == takes
            && Greedy(s, used, limit)[1..] == Greedy(s[1..], if takes then used + s[0].gasUsed else used, limit)
  {}

  /** No feasible choice has a higher total profit than the greedy one. */
  ghost predicate Optimal(s: seq<Normalized>, used: int, limit: int) {
    forall c | Feasible(s, c, limit - used) :: Profit(s, c) <= Profit(s, Greedy(s, used, limit))
  }

  /** When all trades use the same gas, the greedy choice earns the most exactly when it is lexicographically best,
      which it always is when that gas is not negative. */
  lemma {:induction false} EqualGasGreedyIsOptimal(s: seq<Normalized>, limit: int, gas: int)
    requires Descending(s) && EqualGas(s, gas)
    ensures Optimal(s, 0, limit) <==> NoneFitsLater(s, 0, limit)
    ensures gas >= 0 ==> Optimal(s, 0, limit)
  {
    if gas >= 0 { SafeFits(s, 0, limit); }
    if NoneFitsLater(s, 0, limit) {
      forall c | Feasible(s, c, limit) ensures Profit(s, c) <= Profit(s, Greedy(s, 0, limit)) {
        GreedyEarnsMost(s, c, 0, limit, gas);
      }
    } else {
      RejectedMeansLimitBelow(s, 0, limit, gas);
      AllRejected(s, limit, gas);
      GasOfNothing(s, Greedy(s, 0, limit));
      var c := RefundReached(s);
      assert Feasible(s, c, limit);
    }
  }

  lemma {:induction false} GreedyEarnsMost(s: seq<Normalized>, c: Choice, used: int, limit: int, gas: int)
    requires Descending(s) && EqualGas(s, gas) && NoneFitsLater(s, used, limit) && Feasible(s, c, limit - used)
    ensures Profit(s, c) <= Profit(s, Greedy(s, used, limit))
  {
    if forall i | 0 <= i < |s| :: !c[i] {
      GasOfNothing(s, c);
      GreedyNeverLoses(s, used, limit);
    } else {
      // Something chosen fits and earns, so the head, which earns at least as much, is taken.
      GasOfSome(s, c, limit - used, gas);
      assert Judge(s[0], used, limit) == Take;
      GreedyTail(s, used, limit);
      var tail := WithHead(s, c, limit - used, gas);
      EqualTail(s, gas);
      GreedyEarnsMost(s[1..], tail, used + gas, limit, gas);
    }
  }

  lemma EqualTail(s: seq<Normalized>, gas: int)
    requires s != [] && Descending(s) && EqualGas(s, gas)
    ensures s[0].gasUsed == gas && Descending(s[1..]) && EqualGas(s[1..], gas)
  {}

  /** With equal gas a profitable trade can fit later only if nothing fits under the limit alone. */
  lemma {:induction false} RejectedMeansLimitBelow(s: seq<Normalized>, used: int, limit: int, gas: int)
    requires EqualGas(s, gas) && (if gas >= 0 then used >= 0 else used <= 0) && !NoneFitsLater(s, used, limit)
    ensures limit < gas < 0 && Refund(s) <= limit - used
  {
    var v := Judge(s[0], used, limit);
    var rest := if v == Take then used + gas else used;
    if NoneFitsLater(s[1..], rest, limit) {
      if gas >= 0 { NoRefund(s[1..]); }
    } else {
      RejectedMeansLimitBelow(s[1..], rest, limit, gas);
    }
  }

  lemma {:induction false} AllRejected(s: seq<Normalized>, limit: int, gas: int)
    requires EqualGas(s, gas) && limit < gas
    ensures forall i | 0 <= i < |s| :: !Greedy(s, 0, limit)[i]
  {
    if s != [] {
      GreedyTail(s, 0, limit);
      AllRejected(s[1..], limit, gas);
      forall i | 0 <= i < |s| ensures !Greedy(s, 0, limit)[i] {
        if i > 0 { assert Greedy(s, 0, limit)[1..][i - 1] == Greedy(s, 0, limit)[i]; }
      }
    }
  }

  /** With the head taken instead of some other choice, the rest still fits and nothing is lost. */
  lemma {:induction false} WithHead(s: seq<Normalized>, c: Choice, room: int, gas: int) returns (tail: Choice)
    requires Descending(s) && EqualGas(s, gas) && Feasible(s, c, room) && exists i | 0 <= i < |s| :: c[i]
    ensures Feasible(s[1..], tail, room - gas) && Profit(s, c) <= s[0].profit + Profit(s[1..], tail)
  {
    tail := c[1..];
    if !c[0] {
      var i :| 0 <= i < |s| && c[i];
      assert tail[i - 1];
      tail := DropOne(s[1..], tail, gas, s[0].profit);
    }
  }

  // ---- the bundler ----

  function Picked(s: seq<Normalized>, c: Choice): seq<Candidate>
    requires |s| == |c|
  {
    if s == [] then [] else (if c[0] then [s[0].trade] else []) + Picked(s[1..], c[1..])
  }

  datatype Exclusion = Exclusion(reason: Verdict, trade: Candidate)

  /** The trades left out, each with the reason that holds at its turn. */
  function LeftOut(s: seq<Normalized>, used: int, limit: int): seq<Exclusion> {
    if s == [] then [] else
    var v := Judge(s[0], used, limit);
    if v == Take then LeftOut(s[1..], used + s[0].gasUsed, limit)
    else [Exclusion(v, s[0].trade)] + LeftOut(s[1..], used, limit)
  }

  function Trades(s: seq<Normalized>): seq<Candidate> {
    if s == [] then [] else [s[0].trade] + Trades(s[1..])
  }

  function Excluded(s: seq<Exclusion>): seq<Candidate> {
    if s == [] then [] else [s[0].trade] + Excluded(s[1..])
  }

  function NormalizeAll(trades: seq<Candidate>): (r: seq<Normalized>)
    ensures Trades(r) == trades
  {
    if trades == [] then [] else [Normalize(trades[0])] + NormalizeAll(trades[1..])
  }

  datatype Bundle = Bundle(trades: seq<Candidate>, totalGas: int, totalNetProfitWei: int, excluded: seq<Exclusion>)

  /** The rest of the pass, from what has been gathered so far. */
  function Pass(s: seq<Normalized>, limit: int, b: Bundle): Bundle
    decreases |s|
  {
    if s == [] then b else
    var v := Judge(s[0], b.totalGas, limit);
    if v == Take then
      Pass(s[1..], limit, Bundle(b.trades + [s[0].trade], b.totalGas + s[0].gasUsed,
                                 b.totalNetProfitWei + s[0].profit, b.excluded))
    else
      Pass(s[1..], limit, b.(excluded := b.excluded + [Exclusion(v, s[0].trade)]))
  }

  /** What has been gathered, with what the rest of the pass adds. */
  function Gathered(s: seq<Normalized>, limit: int, b: Bundle): Bundle {
    var c := Greedy(s, b.totalGas, limit);
    Bundle(b.trades + Picked(s, c), b.totalGas + Gas(s, c), b.totalNetProfitWei + Profit(s, c),
           b.excluded + LeftOut(s, b.totalGas, limit))
  }

  lemma {:induction false} PassGathers(s: seq<Normalized>, limit: int, b: Bundle)
    ensures Pass(s, limit, b) == Gathered(s, limit, b)
    decreases |s|
  {
    if s == [] {
      assert b.trades + [] == b.trades && b.excluded + [] == b.excluded;
    } else if Judge(s[0], b.totalGas, limit) == Take {
      PassGathers(s[1..], limit, Bundle(b.trades + [s[0].trade], b.totalGas + s[0].gasUsed,
                                        b.totalNetProfitWei + s[0].profit, b.excluded));
      GatherTaken(s, limit, b);
    } else {
      PassGathers(s[1..], limit, b.(excluded := b.excluded + [Exclusion(Judge(s[0], b.totalGas, limit), s[0].trade)]));
      GatherLeft(s, limit, b);
    }
  }

  lemma {:induction false} GatherTaken(s: seq<Normalized>, limit: int, b: Bundle)
    requires s != [] && Judge(s[0], b.totalGas, limit) == Take
    ensures var b' := Bundle(b.trades + [s[0].trade], b.totalGas + s[0].gasUsed, b.totalNetProfitWei + s[0].profit,
                             b.excluded);
            Gathered(s[1..], limit, b') == Gathered(s, limit, b)
  {
    GreedyTail(s, b.totalGas, limit);
    var tail := Picked(s[1..], Greedy(s, b.totalGas, limit)[1..]);
    assert b.trades + [s[0].trade] + tail == b.trades + ([s[0].trade] + tail);
  }

  lemma {:induction false} GatherLeft(s: seq<Normalized>, limit: int, b: Bundle)
    requires s != [] && Judge(s[0], b.totalGas, limit) != Take
    ensures var x := Exclusion(Judge(s[0], b.totalGas, limit), s[0].trade);
            Gathered(s[1..], limit, b.(excluded := b.excluded + [x])) == Gathered(s, limit, b)
  {
    GreedyTail(s, b.totalGas, limit);
    var x, tail := Exclusion(Judge(s[0], b.totalGas, limit), s[0].trade), LeftOut(s[1..], b.totalGas, limit);
    assert b.excluded + [x] + tail == b.excluded + ([x] + tail);
  }

  lemma {:induction false} PassWithinLimit(s: seq<Normalized>, limit: int, b: Bundle)
    requires b.totalNetProfitWei >= 0 && (b.trades != [] ==> b.totalGas <= limit && b.totalNetProfitWei > 0)
    ensures var r := Pass(s, limit, b);
            r.trades != [] ==> r.totalGas <= limit && r.totalNetProfitWei > 0
    decreases |s|
  {
    if s != [] {
      var v := Judge(s[0], b.totalGas, limit);
      if v == Take {
        PassWithinLimit(s[1..], limit, Bundle(b.trades + [s[0].trade], b.totalGas + s[0].gasUsed,
                                              b.totalNetProfitWei + s[0].profit, b.excluded));
      } else {
        PassWithinLimit(s[1..], limit, b.(excluded := b.excluded + [Exclusion(v, s[0].trade)]));
      }
    }
  }

  lemma {:induction false} PassFromNothing(s: seq<Normalized>, limit: int)
    ensures var c := Greedy(s, 0, limit);
            Pass(s, limit, Bundle([], 0, 0, [])) == Bundle(Picked(s, c), Gas(s, c), Profit(s, c), LeftOut(s, 0, limit))
  {
    PassGathers(s, limit, Bundle([], 0, 0, []));
    NothingBefore(Picked(s, Greedy(s, 0, limit)));
    NothingBefore(LeftOut(s, 0, limit));
  }

  lemma NothingBefore<T>(s: seq<T>)
    ensures [] + s == s
  {}

  /** Every trade is either picked or left out. */
  lemma {:induction false} Partition(s: seq<Normalized>, used: int, limit: int)
    ensures multiset(Picked(s, Greedy(s, used, limit))) + multiset(Excluded(LeftOut(s, used, limit)))
         == multiset(Trades(s))
  {
    if s != [] {
      var v := Judge(s[0], used, limit);
      var rest := if v == Take then used + s[0].gasUsed else used;
      GreedyTail(s, used, limit);
      Partition(s[1..], rest, limit);
      if v != Take {
        ExcludedCons(Exclusion(v, s[0].trade), LeftOut(s[1..], rest, limit));
      }
    }
  }

  lemma {:induction false} ExcludedCons(e: Exclusion, s: seq<Exclusion>)
    ensures Excluded([e] + s) == [e.trade] + Excluded(s)
  {
    assert ([e] + s)[1..] == s;
  }

  lemma {:induction false} TradesCons(x: Normalized, s: seq<Normalized>)
    ensures Trades([x] + s) == [x.trade] + Trades(s)
  {
    assert ([x] + s)[1..] == s;
  }

  lemma {:induction false} TradesOfInserted(x: Normalized, s: seq<Normalized>)
    ensures multiset(Trades(Insert(x, s))) == multiset(Trades(s)) + multiset{x.trade}
  {
    if s != [] && s[0].profit > x.profit {
      TradesOfInserted(x, s[1..]);
      TradesCons(s[0], Insert(x, s[1..]));
    } else {
      TradesCons(x, s);
      if s == [] { assert [x] + s == [x]; }
    }
  }

  lemma {:induction false} TradesOfSorted(s: seq<Normalized>)
    ensures multiset(Trades(SortByProfit(s))) == multiset(Trades(s))
  {
    if s != [] {
      TradesOfSorted(s[1..]);
      TradesOfInserted(s[0], SortByProfit(s[1..]));
    }
  }

  // ---- in terms of the candidates ----

  predicate Profitable(c: Candidate) {
    c.netProfitWei.Parsed? && c.netProfitWei.n > 0
  }

  function ProfitOf(c: Candidate): int {
    match c.netProfitWei
    case Parsed(n) => n
    case _ => 0
  }

  /** The gas a candidate says it used, or else its gas cost at one wei, or else that of a plain transfer. */
  function GasOf(c: Candidate): int {
    match (c.gasUsed, c.gasCostWei)
    case (Parsed(n), _) => n
    case (_, Parsed(n)) => n
    case (_, _) => 21000
  }

  function SumProfit(trades: seq<Candidate>): int {
    if trades == [] then 0 else ProfitOf(trades[0]) + SumProfit(trades[1..])
  }

  function SumGas(trades: seq<Candidate>): int {
    if trades == [] then 0 else GasOf(trades[0]) + SumGas(trades[1..])
  }

  /** The marked candidates, in the order they came. */
  function Marked(trades: seq<Candidate>, c: Choice): seq<Candidate>
    requires |c| == |trades|
  {
    if trades == [] then [] else (if c[0] then [trades[0]] else []) + Marked(trades[1..], c[1..])
  }

  /** A choice of profitable candidates that together stay within the limit. */
  ghost predicate Admissible(trades: seq<Candidate>, c: Choice, limit: int) {
    && |c| == |trades|
    && (forall i | 0 <= i < |trades| && c[i] :: Profitable(trades[i]))
    && (SumGas(Marked(trades, c)) <= limit || forall i | 0 <= i < |trades| :: !c[i])
  }

  /** More profit goes first, and the earlier of two with the same profit. */
  predicate Precedes(trades: seq<Candidate>, i: nat, j: nat)
    requires i < |trades| && j < |trades|
  {
    ProfitOf(trades[i]) > ProfitOf(trades[j]) || (ProfitOf(trades[i]) == ProfitOf(trades[j]) && i < j)
  }

  /** The first candidate on which the two choices differ is in the first one. */
  ghost predicate Beats(trades: seq<Candidate>, c: Choice, d: Choice)
    requires |c| == |d| == |trades|
  {
    exists i: nat :: i < |trades| && c[i] && !d[i]
      && forall j: nat | j < |trades| && c[j] != d[j] && j != i :: Precedes(trades, i, j)
  }

  /** No profitable candidate with negative gas stands beside another profitable one. */
  predicate NoRefundBeside(trades: seq<Candidate>) {
    forall i, j | 0 <= i < j < |trades| && Profitable(trades[i]) && Profitable(trades[j]) ::
      GasOf(trades[i]) >= 0 && GasOf(trades[j]) >= 0
  }

  predicate SameGas(trades: seq<Candidate>, gas: int) {
    forall i | 0 <= i < |trades| :: GasOf(trades[i]) == gas
  }

  /** The reason is true of the trade: for one that no longer fits, with the part of the bundle that goes before it. */
  ghost predicate ReasonHolds(e: Exclusion, bundle: seq<Candidate>, limit: int) {
    match e.reason
    case NonPositiveProfit => !Profitable(e.trade)
    case ExceedsMaxGasAlone => Profitable(e.trade) && GasOf(e.trade) > limit
    case BundleGasLimit =>
      && Profitable(e.trade) && GasOf(e.trade) <= limit
      && exists k :: 0 <= k <= |bundle| && FullAt(e.trade, bundle, k, limit)
    case Take => false
  }

  /** After the first `k` of the bundle, which earn no less than the trade, it does not fit; the others earn no more. */
  ghost predicate FullAt(trade: Candidate, bundle: seq<Candidate>, k: nat, limit: int)
    requires k <= |bundle|
  {
    && SumGas(bundle[..k]) + GasOf(trade) > limit
    && (forall m | 0 <= m < k :: ProfitOf(bundle[m]) >= ProfitOf(trade))
    && (forall m | k <= m < |bundle| :: ProfitOf(bundle[m]) <= ProfitOf(trade))
  }

  ghost predicate Descends(bundle: seq<Candidate>) {
    forall i, j | 0 <= i < j < |bundle| :: ProfitOf(bundle[i]) >= ProfitOf(bundle[j])
  }

  method BundleSorted(trades: seq<Candidate>, maxGasLimit: int) returns (b: Bundle)
    ensures var s := SortByProfit(NormalizeAll(trades));
            var c := Greedy(s, 0, maxGasLimit);
            && b.trades == Picked(s, c) && b.totalGas == Gas(s, c) && b.totalNetProfitWei == Profit(s, c)
            && b.excluded == LeftOut(s, 0, maxGasLimit)
    ensures multiset(b.trades) + multiset(Excluded(b.excluded)) == multiset(trades)
    ensures b.trades != [] ==> b.totalGas <= maxGasLimit && b.totalNetProfitWei > 0
  {
    var normalized := SortByProfit(NormalizeAll(trades));
    var selected: seq<Candidate>, excluded: seq<Exclusion> := [], [];
    var gasAccum, profitAccum := 0, 0;
    for i := 0 to |normalized|
      invariant Pass(normalized[i..], maxGasLimit, Bundle(selected, gasAccum, profitAccum, excluded))
             == Pass(normalized, maxGasLimit, Bundle([], 0, 0, []))
    {
      var n := normalized[i];
      assert normalized[i..][1..] == normalized[i + 1..];
      if n.profit <= 0 {
        excluded := excluded + [Exclusion(NonPositiveProfit, n.trade)];
      } else if n.gasUsed > maxGasLimit {
        excluded := excluded + [Exclusion(ExceedsMaxGasAlone, n.trade)];
      } else if gasAccum + n.gasUsed > maxGasLimit {
        excluded := excluded + [Exclusion(BundleGasLimit, n.trade)];
      } else {
        selected := selected + [n.trade];
        gasAccum := gasAccum + n.gasUsed;
        profitAccum := profitAccum + n.profit;
      }
    }
    b := Bundle(selected, gasAccum, profitAccum, excluded);
    PassFromNothing(normalized, maxGasLimit);
    PassWithinLimit(normalized, maxGasLimit, Bundle([], 0, 0, []));
    Partition(normalized, 0, maxGasLimit);
    TradesOfSorted(NormalizeAll(trades));
  }


  /** `chosen` marks the bundled candidates. Everything is said of the candidates' own fields. */
  method CreateGreedyBundle(trades: seq<Candidate>, maxGasLimit: int) returns (b: Bundle, ghost chosen: Choice)
    ensures |chosen| == |trades| && multiset(b.trades) == multiset(Marked(trades, chosen))
    ensures multiset(b.trades) + multiset(Excluded(b.excluded)) == multiset(trades)
    ensures Admissible(trades, chosen, maxGasLimit)
    ensures Descends(b.trades) && forall c | c in b.trades :: Profitable(c)
    ensures b.totalNetProfitWei == SumProfit(b.trades) && b.totalGas == SumGas(b.trades)
    ensures b.trades != [] ==> b.totalGas <= maxGasLimit && b.totalNetProfitWei > 0
    ensures forall e | e in b.excluded :: ReasonHolds(e, b.trades, maxGasLimit)
    ensures NoRefundBeside(trades) ==>
              forall other | Admissible(trades, other, maxGasLimit) && other != chosen :: Beats(trades, chosen, other)
    ensures forall gas, other | gas >= 0 && SameGas(trades, gas) && Admissible(trades, other, maxGasLimit) ::
              SumProfit(Marked(trades, other)) <= b.totalNetProfitWei
  {
    b := BundleSorted(trades, maxGasLimit);
    chosen := BundledMarks(trades, maxGasLimit);
    BundleOfFields(trades, maxGasLimit);
    BundleIsAdmissible(trades, maxGasLimit);
    if NoRefundBeside(trades) {
      forall other | Admissible(trades, other, maxGasLimit) && other != chosen ensures Beats(trades, chosen, other) {
        BundleBeatsOthers(trades, maxGasLimit, other);
      }
    }
    forall gas, other | gas >= 0 && SameGas(trades, gas) && Admissible(trades, other, maxGasLimit)
      ensures SumProfit(Marked(trades, other)) <= b.totalNetProfitWei
    {
      BundleEarnsMost(trades, maxGasLimit, gas, other);
    }
  }

  // ---- the order in which the sort puts the positions ----

  function Put<T>(s: seq<T>, p: nat, x: T): (r: seq<T>)
    requires p <= |s|
    ensures |r| == |s| + 1
  {
    if p == 0 then [x] + s else [s[0]] + Put(s[1..], p - 1, x)
  }

  function Cut<T>(s: seq<T>, p: nat): (r: seq<T>)
    requires p < |s|
    ensures |r| == |s| - 1
  {
    if p == 0 then s[1..] else [s[0]] + Cut(s[1..], p - 1)
  }

  lemma {:induction false} PutAt<T>(s: seq<T>, p: nat, x: T, k: nat)
    requires p <= |s| && k <= |s|
    ensures Put(s, p, x)[k] == if k < p then s[k] else if k == p then x else s[k - 1]
  {
    if p > 0 && k > 0 { PutAt(s[1..], p - 1, x, k - 1); }
  }

  lemma {:induction false} PutCons<T>(first: T, s: seq<T>, p: nat, x: T)
    requires 0 < p <= |s| + 1
    ensures Put([first] + s, p, x) == [first] + Put(s, p - 1, x)
  {
    assert ([first] + s)[1..] == s;
  }

  lemma {:induction false} PutBack<T>(s: seq<T>, p: nat)
    requires p < |s|
    ensures Put(Cut(s, p), p, s[p]) == s
  {
    assert s == [s[0]] + s[1..];
    if p > 0 {
      PutBack(s[1..], p - 1);
      PutCons(s[0], Cut(s[1..], p - 1), p, s[p]);
    }
  }

  /** Where `Insert` puts it. */
  function InsertPlace(x: Normalized, s: seq<Normalized>): (p: nat)
    ensures p <= |s|
  {
    if s == [] || s[0].profit <= x.profit then 0 else 1 + InsertPlace(x, s[1..])
  }

  lemma {:induction false} InsertIsPut(x: Normalized, s: seq<Normalized>)
    ensures Insert(x, s) == Put(s, InsertPlace(x, s), x)
  {
    if s != [] && s[0].profit > x.profit { InsertIsPut(x, s[1..]); }
    if s == [] { assert [x] + s == [x]; }
  }

  lemma {:induction false} PlaceIsAfterMore(x: Normalized, s: seq<Normalized>, k: nat)
    requires k < InsertPlace(x, s)
    ensures s[k].profit > x.profit
  {
    if k > 0 { PlaceIsAfterMore(x, s[1..], k - 1); }
  }

  lemma SortSize(s: seq<Normalized>)
    ensures |SortByProfit(s)| == |s|
  {
    assert |SortByProfit(s)| == |multiset(SortByProfit(s))|;
  }

  /** Where the first of a list comes to stand among the others. */
  function PlaceOfFirst(s: seq<Normalized>): (p: nat)
    requires s != []
    ensures p <= |s| - 1
  {
    SortSize(s[1..]);
    InsertPlace(s[0], SortByProfit(s[1..]))
  }

  lemma SortIsPut(s: seq<Normalized>)
    requires s != []
    ensures |SortByProfit(s[1..])| == |s| - 1
    ensures SortByProfit(s) == Put(SortByProfit(s[1..]), PlaceOfFirst(s), s[0])
  {
    SortSize(s[1..]);
    InsertIsPut(s[0], SortByProfit(s[1..]));
  }

  /** `k`-th comes the one at position `Order(s)[k]`. */
  function Order(s: seq<Normalized>): (o: seq<nat>)
    ensures |o| == |s|
  {
    if s == [] then [] else Put(Later(Order(s[1..])), PlaceOfFirst(s), 0)
  }

  function Later(o: seq<nat>): (r: seq<nat>)
    ensures |r| == |o|
  {
    seq(|o|, k requires 0 <= k < |o| => o[k] + 1)
  }

  /** The marks of the positions, put in the order of the sorted list. */
  function Sorted(s: seq<Normalized>, d: Choice): (c: Choice)
    requires |d| == |s|
    ensures |c| == |s|
  {
    if s == [] then [] else Put(Sorted(s[1..], d[1..]), PlaceOfFirst(s), d[0])
  }

  /** And the other way. */
  function Unsorted(s: seq<Normalized>, c: Choice): (d: Choice)
    requires |c| == |s|
    ensures |d| == |s|
  {
    if s == [] then [] else [c[PlaceOfFirst(s)]] + Unsorted(s[1..], Cut(c, PlaceOfFirst(s)))
  }

  lemma {:induction false} UnsortedBack(s: seq<Normalized>, c: Choice)
    requires |c| == |s|
    ensures Sorted(s, Unsorted(s, c)) == c
  {
    if s != [] {
      var p := PlaceOfFirst(s);
      var rest := Unsorted(s[1..], Cut(c, p));
      UnsortedBack(s[1..], Cut(c, p));
      assert ([c[p]] + rest)[1..] == rest;
      PutBack(c, p);
    }
  }

  lemma {:induction false} OrderStep(s: seq<Normalized>, k: nat)
    requires k < |s|
    ensures var p := PlaceOfFirst(s);
            Order(s)[k] == if k == p then 0 else 1 + Order(s[1..])[if k < p then k else k - 1]
  {
    PutAt(Later(Order(s[1..])), PlaceOfFirst(s), 0, k);
  }

  /** The `k`-th of the sorted list is the one at position `Order(s)[k]`. */
  lemma {:induction false} OrderOfSorted(s: seq<Normalized>, k: nat)
    requires k < |s|
    ensures |SortByProfit(s)| == |s| && Order(s)[k] < |s| && SortByProfit(s)[k] == s[Order(s)[k]]
  {
    var p := PlaceOfFirst(s);
    SortSize(s);
    SortIsPut(s);
    PutAt(SortByProfit(s[1..]), p, s[0], k);
    OrderStep(s, k);
    if k != p { OrderOfSorted(s[1..], if k < p then k else k - 1); }
  }

  /** And its mark is the mark of that position. */
  lemma {:induction false} OrderOfMarks(s: seq<Normalized>, d: Choice, k: nat)
    requires |d| == |s| && k < |s|
    ensures Order(s)[k] < |s| && Sorted(s, d)[k] == d[Order(s)[k]]
  {
    var p := PlaceOfFirst(s);
    PutAt(Sorted(s[1..], d[1..]), p, d[0], k);
    OrderStep(s, k);
    if k != p { OrderOfMarks(s[1..], d[1..], if k < p then k else k - 1); }
  }

  lemma {:induction false} OrderAt(s: seq<Normalized>, d: Choice, k: nat)
    requires |d| == |s| && k < |s|
    ensures |SortByProfit(s)| == |s| && Order(s)[k] < |s|
    ensures SortByProfit(s)[k] == s[Order(s)[k]] && Sorted(s, d)[k] == d[Order(s)[k]]
  {
    OrderOfSorted(s, k);
    OrderOfMarks(s, d, k);
  }

  /** Of two with the same profit the earlier position comes first. */
  lemma {:induction false} OrderIsStable(s: seq<Normalized>, k: nat, l: nat)
    requires k < l < |s|
    ensures |SortByProfit(s)| == |s|
    ensures SortByProfit(s)[k].profit > SortByProfit(s)[l].profit || Order(s)[k] < Order(s)[l]
  {
    var p, tail := PlaceOfFirst(s), SortByProfit(s[1..]);
    SortSize(s);
    SortIsPut(s);
    PutAt(tail, p, s[0], k);
    PutAt(tail, p, s[0], l);
    OrderStep(s, k);
    OrderStep(s, l);
    if l == p {
      PlaceIsAfterMore(s[0], tail, k);
    } else if k != p {
      OrderIsStable(s[1..], if k < p then k else k - 1, if l < p then l else l - 1);
    }
  }

  lemma {:induction false} OrderOfLater(s: seq<Normalized>, m: nat) returns (k: nat)
    requires m + 1 < |s|
    ensures k < |s| && Order(s)[k] == 1 + Order(s[1..])[m]
  {
    k := if m < PlaceOfFirst(s) then m else m + 1;
    OrderStep(s, k);
  }

  lemma {:induction false} OrderReaches(s: seq<Normalized>, i: nat) returns (k: nat)
    requires i < |s|
    ensures k < |s| && Order(s)[k] == i
  {
    if i == 0 {
      k := PlaceOfFirst(s);
      OrderStep(s, k);
    } else {
      var m := OrderReaches(s[1..], i - 1);
      k := OrderOfLater(s, m);
    }
  }

  // ---- sums over the marked candidates ----

  /** The same candidates in another order, with the same sums. */
  ghost predicate Reordered(a: seq<Candidate>, b: seq<Candidate>) {
    multiset(a) == multiset(b) && SumGas(a) == SumGas(b) && SumProfit(a) == SumProfit(b)
  }

  lemma {:induction false} SumsCons(x: Candidate, a: seq<Candidate>)
    ensures SumGas([x] + a) == GasOf(x) + SumGas(a) && SumProfit([x] + a) == ProfitOf(x) + SumProfit(a)
  {
    assert ([x] + a)[1..] == a;
  }

  lemma {:induction false} SameFront(x: seq<Candidate>, a: seq<Candidate>, b: seq<Candidate>)
    requires |x| <= 1 && Reordered(a, b)
    ensures Reordered(x + a, x + b)
  {
    if x == [] {
      assert x + a == a && x + b == b;
    } else {
      assert x == [x[0]];
      SumsCons(x[0], a);
      SumsCons(x[0], b);
    }
  }

  lemma {:induction false} SwapFront(x: seq<Candidate>, y: seq<Candidate>, a: seq<Candidate>)
    requires |x| <= 1 && |y| <= 1
    ensures Reordered(x + (y + a), y + (x + a))
  {
    if x == [] {
      assert x + (y + a) == y + a && x + a == a;
    } else if y == [] {
      assert y + (x + a) == x + a && y + a == a;
    } else {
      assert x == [x[0]] && y == [y[0]];
      SwapTwo(x[0], y[0], a);
    }
  }

  lemma {:induction false} SwapTwo(x: Candidate, y: Candidate, a: seq<Candidate>)
    ensures Reordered([x] + ([y] + a), [y] + ([x] + a))
  {
    SumsCons(x, [y] + a);
    SumsCons(y, a);
    SumsCons(y, [x] + a);
    SumsCons(x, a);
    assert multiset([x] + ([y] + a)) == multiset{x} + multiset{y} + multiset(a);
  }

  function IfMarked(n: Normalized, marked: bool): seq<Candidate> {
    if marked then [n.trade] else []
  }

  lemma {:induction false} PickedPut(t: seq<Normalized>, c: Choice, p: nat, x: Normalized, m: bool)
    requires |c| == |t| && p <= |t|
    ensures Reordered(Picked(Put(t, p, x), Put(c, p, m)), IfMarked(x, m) + Picked(t, c))
  {
    if p == 0 {
      assert ([x] + t)[1..] == t && ([m] + c)[1..] == c;
    } else {
      var t', c' := Put(t[1..], p - 1, x), Put(c[1..], p - 1, m);
      assert ([t[0]] + t')[1..] == t' && ([c[0]] + c')[1..] == c';
      PickedPut(t[1..], c[1..], p - 1, x, m);
      SameFront(IfMarked(t[0], c[0]), Picked(t', c'), IfMarked(x, m) + Picked(t[1..], c[1..]));
      SwapFront(IfMarked(t[0], c[0]), IfMarked(x, m), Picked(t[1..], c[1..]));
    }
  }

  lemma {:induction false} SortedPicks(s: seq<Normalized>, d: Choice)
    requires |d| == |s|
    ensures |SortByProfit(s)| == |s| && Reordered(Picked(SortByProfit(s), Sorted(s, d)), Picked(s, d))
  {
    SortSize(s);
    if s != [] {
      SortedPicks(s[1..], d[1..]);
      SortIsPut(s);
      PickedPut(SortByProfit(s[1..]), Sorted(s[1..], d[1..]), PlaceOfFirst(s), s[0], d[0]);
      SameFront(IfMarked(s[0], d[0]), Picked(SortByProfit(s[1..]), Sorted(s[1..], d[1..])), Picked(s[1..], d[1..]));
    }
  }

  /** The entries say of their candidates what the candidates say themselves. */
  ghost predicate TrueEntries(s: seq<Normalized>) {
    forall n | n in s :: n.gasUsed == GasOf(n.trade) && n.profit == ProfitOf(n.trade)
  }

  lemma {:induction false} NormalizedAreTrue(trades: seq<Candidate>)
    ensures var s := NormalizeAll(trades);
            && |s| == |trades| && TrueEntries(s) && forall i | 0 <= i < |trades| :: s[i].trade == trades[i]
  {
    if trades != [] { NormalizedAreTrue(trades[1..]); }
  }

  lemma SortedAreTrue(s: seq<Normalized>)
    requires TrueEntries(s)
    ensures TrueEntries(SortByProfit(s))
  {
    forall n | n in SortByProfit(s) ensures n in s { assert n in multiset(s); }
  }

  lemma {:induction false} MarkedArePicked(trades: seq<Candidate>, d: Choice)
    requires |d| == |trades|
    ensures |NormalizeAll(trades)| == |trades| && Marked(trades, d) == Picked(NormalizeAll(trades), d)
  {
    NormalizedAreTrue(trades);
    if trades != [] {
      MarkedArePicked(trades[1..], d[1..]);
      assert NormalizeAll(trades)[1..] == NormalizeAll(trades[1..]);
    }
  }

  lemma {:induction false} SumsOfPicked(s: seq<Normalized>, c: Choice)
    requires |c| == |s| && TrueEntries(s)
    ensures Gas(s, c) == SumGas(Picked(s, c)) && Profit(s, c) == SumProfit(Picked(s, c))
  {
    if s != [] {
      SumsOfPicked(s[1..], c[1..]);
      var rest := Picked(s[1..], c[1..]);
      if c[0] { SumsCons(s[0].trade, rest); } else { assert [] + rest == rest; }
    }
  }

  // ---- the bundle in terms of the candidates ----

  /** The greedy marks, position by position. */
  function BundledMarks(trades: seq<Candidate>, limit: int): (chosen: Choice)
    ensures |chosen| == |trades|
  {
    var s := NormalizeAll(trades);
    NormalizedAreTrue(trades);
    SortSize(s);
    Unsorted(s, Greedy(SortByProfit(s), 0, limit))
  }

  lemma {:induction false} MarksAreGreedy(trades: seq<Candidate>, limit: int)
    ensures var s := NormalizeAll(trades);
            && |s| == |trades| == |SortByProfit(s)|
            && Sorted(s, BundledMarks(trades, limit)) == Greedy(SortByProfit(s), 0, limit)
  {
    var s := NormalizeAll(trades);
    NormalizedAreTrue(trades);
    SortSize(s);
    UnsortedBack(s, Greedy(SortByProfit(s), 0, limit));
  }

  /** The sums over a choice are those over its marks in the sorted list. */
  lemma {:induction false} SumsOfChoice(trades: seq<Candidate>, d: Choice)
    requires |d| == |trades|
    ensures var s := NormalizeAll(trades);
            && |s| == |trades| == |SortByProfit(s)|
            && Reordered(Picked(SortByProfit(s), Sorted(s, d)), Marked(trades, d))
            && Gas(SortByProfit(s), Sorted(s, d)) == SumGas(Marked(trades, d))
            && Profit(SortByProfit(s), Sorted(s, d)) == SumProfit(Marked(trades, d))
  {
    var s := NormalizeAll(trades);
    NormalizedAreTrue(trades);
    MarkedArePicked(trades, d);
    SortedPicks(s, d);
    SortedAreTrue(s);
    SumsOfPicked(SortByProfit(s), Sorted(s, d));
  }

  lemma {:induction false} EntryAt(trades: seq<Candidate>, d: Choice, k: nat)
    requires |d| == |trades| && k < |trades|
    ensures var s := NormalizeAll(trades);
            && |s| == |trades| == |SortByProfit(s)| && Order(s)[k] < |s|
            && Sorted(s, d)[k] == d[Order(s)[k]]
            && SortByProfit(s)[k].trade == trades[Order(s)[k]]
            && SortByProfit(s)[k].profit == ProfitOf(trades[Order(s)[k]])
            && SortByProfit(s)[k].gasUsed == GasOf(trades[Order(s)[k]])
  {
    var s := NormalizeAll(trades);
    NormalizedAreTrue(trades);
    OrderAt(s, d, k);
    assert s[Order(s)[k]] in s;
  }

  ghost predicate NoneMarked(c: Choice) {
    forall i | 0 <= i < |c| :: !c[i]
  }

  lemma {:induction false} NoneSorted(s: seq<Normalized>, d: Choice)
    requires |d| == |s|
    ensures NoneMarked(Sorted(s, d)) <==> NoneMarked(d)
  {
    if NoneMarked(d) {
      forall k | 0 <= k < |s| ensures !Sorted(s, d)[k] { OrderAt(s, d, k); }
    }
    if NoneMarked(Sorted(s, d)) {
      forall i | 0 <= i < |s| ensures !d[i] {
        var k := OrderReaches(s, i);
        OrderAt(s, d, k);
      }
    }
  }

  ghost predicate AllProfitable(s: seq<Normalized>, c: Choice)
    requires |c| == |s|
  {
    forall i | 0 <= i < |s| && c[i] :: s[i].profit > 0
  }

  lemma {:induction false} ProfitableSorted(s: seq<Normalized>, d: Choice)
    requires |d| == |s|
    ensures |SortByProfit(s)| == |s| && (AllProfitable(SortByProfit(s), Sorted(s, d)) <==> AllProfitable(s, d))
  {
    SortSize(s);
    if AllProfitable(s, d) {
      forall k | 0 <= k < |s| && Sorted(s, d)[k] ensures SortByProfit(s)[k].profit > 0 { OrderAt(s, d, k); }
    }
    if AllProfitable(SortByProfit(s), Sorted(s, d)) {
      forall i | 0 <= i < |s| && d[i] ensures s[i].profit > 0 {
        var k := OrderReaches(s, i);
        OrderAt(s, d, k);
      }
    }
  }

  lemma {:induction false} ProfitableFields(trades: seq<Candidate>, d: Choice)
    requires |d| == |trades|
    ensures var s := NormalizeAll(trades);
            |s| == |trades|
            && (AllProfitable(s, d) <==> forall i | 0 <= i < |trades| && d[i] :: Profitable(trades[i]))
  {
    var s := NormalizeAll(trades);
    NormalizedAreTrue(trades);
    forall i | 0 <= i < |trades| ensures s[i].profit > 0 <==> Profitable(trades[i]) { assert s[i] in s; }
  }

  lemma FeasibleMeans(s: seq<Normalized>, c: Choice, room: int)
    requires |c| == |s|
    ensures Feasible(s, c, room) <==> AllProfitable(s, c) && (Gas(s, c) <= room || NoneMarked(c))
  {}

  lemma AdmissibleMeans(trades: seq<Candidate>, d: Choice, limit: int)
    requires |d| == |trades|
    ensures Admissible(trades, d, limit) <==>
              && (forall i | 0 <= i < |trades| && d[i] :: Profitable(trades[i]))
              && (SumGas(Marked(trades, d)) <= limit || NoneMarked(d))
  {}

  /** Admissible choices are the feasible ones. */
  lemma {:induction false} AdmissibleIsFeasible(trades: seq<Candidate>, d: Choice, limit: int)
    requires |d| == |trades|
    ensures var s := NormalizeAll(trades);
            |s| == |trades| && (Admissible(trades, d, limit) <==> Feasible(SortByProfit(s), Sorted(s, d), limit))
  {
    var s := NormalizeAll(trades);
    SumsOfChoice(trades, d);
    ProfitableFields(trades, d);
    ProfitableSorted(s, d);
    NoneSorted(s, d);
    FeasibleMeans(SortByProfit(s), Sorted(s, d), limit);
    AdmissibleMeans(trades, d, limit);
  }

  lemma {:induction false} BundleIsAdmissible(trades: seq<Candidate>, limit: int)
    ensures Admissible(trades, BundledMarks(trades, limit), limit)
  {
    var s := NormalizeAll(trades);
    MarksAreGreedy(trades, limit);
    GreedyFeasible(SortByProfit(s), 0, limit);
    AdmissibleIsFeasible(trades, BundledMarks(trades, limit), limit);
  }

  // ---- lexicographically best, position by position ----

  lemma {:induction false} SafeWhenNoRefund(trades: seq<Candidate>)
    requires NoRefundBeside(trades)
    ensures GasSafe(SortByProfit(NormalizeAll(trades)))
  {
    var s, none := NormalizeAll(trades), seq(|trades|, i => false);
    var t := SortByProfit(s);
    NormalizedAreTrue(trades);
    SortSize(s);
    forall k, l | 0 <= k < l < |t| && t[k].profit > 0 && t[l].profit > 0
      ensures t[k].gasUsed >= 0 && t[l].gasUsed >= 0
    {
      EntryAt(trades, none, k);
      EntryAt(trades, none, l);
      OrderDiffers(s, k, l);
      var i, j := Order(s)[k], Order(s)[l];
      assert Profitable(trades[i]) && Profitable(trades[j]);
    }
  }

  lemma {:induction false} OrderDiffers(s: seq<Normalized>, k: nat, l: nat)
    requires k < l < |s|
    ensures Order(s)[k] != Order(s)[l]
  {
    OrderStep(s, k);
    OrderStep(s, l);
    var p := PlaceOfFirst(s);
    if k != p && l != p { OrderDiffers(s[1..], if k < p then k else k - 1, if l < p then l else l - 1); }
  }

  /** Where two lists of marks first differ. */
  lemma {:induction false} FirstDifference(c: Choice, d: Choice) returns (i: nat)
    requires |c| == |d| && c != d
    ensures i < |c| && c[i] != d[i] && c[..i] == d[..i]
  {
    if c[0] != d[0] {
      i := 0;
    } else {
      assert c == [c[0]] + c[1..] && d == [d[0]] + d[1..];
      var m := FirstDifference(c[1..], d[1..]);
      i := m + 1;
      assert c[..i] == [c[0]] + c[1..][..m] && d[..i] == [d[0]] + d[1..][..m];
    }
  }

  lemma {:induction false} SortedDiffers(s: seq<Normalized>, d: Choice, e: Choice)
    requires |d| == |e| == |s| && d != e
    ensures Sorted(s, d) != Sorted(s, e)
  {
    var i :| 0 <= i < |s| && d[i] != e[i];
    var k := OrderReaches(s, i);
    OrderAt(s, d, k);
    OrderAt(s, e, k);
  }

  lemma {:induction false} BundleBeatsOthers(trades: seq<Candidate>, limit: int, other: Choice)
    requires NoRefundBeside(trades) && Admissible(trades, other, limit) && other != BundledMarks(trades, limit)
    ensures Beats(trades, BundledMarks(trades, limit), other)
  {
    var s, chosen := NormalizeAll(trades), BundledMarks(trades, limit);
    MarksAreGreedy(trades, limit);
    AdmissibleIsFeasible(trades, other, limit);
    SafeWhenNoRefund(trades);
    GreedyIsLexicographicallyBest(SortByProfit(s), limit);
    SortedDiffers(s, chosen, other);
    var k := FirstDifference(Sorted(s, other), Sorted(s, chosen));
    assert FirstDiffers(SortByProfit(s), Sorted(s, other), 0, limit, k);
    FirstBeats(trades, chosen, other, k);
  }

  /** The first difference in sorted order comes before all others. */
  lemma {:induction false} FirstBeats(trades: seq<Candidate>, c: Choice, d: Choice, k: nat)
    requires |c| == |d| == |trades| && k < |trades| && |NormalizeAll(trades)| == |trades|
    requires var s := NormalizeAll(trades);
             Sorted(s, c)[k] && !Sorted(s, d)[k] && Sorted(s, c)[..k] == Sorted(s, d)[..k]
    ensures Beats(trades, c, d)
  {
    var s := NormalizeAll(trades);
    EntryAt(trades, c, k);
    EntryAt(trades, d, k);
    var i := Order(s)[k];
    forall j: nat | j < |trades| && c[j] != d[j] && j != i ensures Precedes(trades, i, j) {
      LaterDifference(trades, c, d, k, j);
    }
  }

  lemma SamePrefix(c: Choice, d: Choice, k: nat, l: nat)
    requires |c| == |d| && l < k <= |c| && c[..k] == d[..k]
    ensures c[l] == d[l]
  {
    assert c[l] == c[..k][l] && d[l] == d[..k][l];
  }

  lemma {:induction false} LaterDifference(trades: seq<Candidate>, c: Choice, d: Choice, k: nat, j: nat)
    requires |c| == |d| == |trades| && k < |trades| && |NormalizeAll(trades)| == |trades| && j < |trades|
    requires var s := NormalizeAll(trades);
             && Sorted(s, c)[..k] == Sorted(s, d)[..k] && Order(s)[k] < |s| && j != Order(s)[k]
    requires c[j] != d[j]
    ensures Precedes(trades, Order(NormalizeAll(trades))[k], j)
  {
    var s := NormalizeAll(trades);
    var l := OrderReaches(s, j);
    EntryAt(trades, c, l);
    EntryAt(trades, d, l);
    if l < k { SamePrefix(Sorted(s, c), Sorted(s, d), k, l); }
    EntryAt(trades, c, k);
    SortDescends(s);
    OrderIsStable(s, k, l);
  }

  lemma {:induction false} BundleEarnsMost(trades: seq<Candidate>, limit: int, gas: int, other: Choice)
    requires gas >= 0 && SameGas(trades, gas) && Admissible(trades, other, limit)
    ensures SumProfit(Marked(trades, other)) <= SumProfit(Marked(trades, BundledMarks(trades, limit)))
  {
    var s, chosen := NormalizeAll(trades), BundledMarks(trades, limit);
    MarksAreGreedy(trades, limit);
    SumsOfChoice(trades, chosen);
    SumsOfChoice(trades, other);
    AdmissibleIsFeasible(trades, other, limit);
    SortDescends(s);
    forall k | 0 <= k < |s| ensures SortByProfit(s)[k].gasUsed == gas { EntryAt(trades, chosen, k); }
    EqualGasGreedyIsOptimal(SortByProfit(s), limit, gas);
  }

  // ---- the bundle's own list ----

  lemma {:induction false} PickedFrom(s: seq<Normalized>, c: Choice, x: Candidate)
    requires |c| == |s| && x in Picked(s, c)
    ensures exists k :: 0 <= k < |s| && c[k] && s[k].trade == x
  {
    if c[0] && s[0].trade == x {
    } else {
      PickedFrom(s[1..], c[1..], x);
      var k :| 0 <= k < |s| - 1 && c[1..][k] && s[1..][k].trade == x;
      assert c[k + 1] && s[k + 1].trade == x;
    }
  }

  /** Picked from a descending list, the bundle descends. */
  lemma {:induction false} PickedDescends(s: seq<Normalized>, c: Choice)
    requires |c| == |s| && Descending(s) && TrueEntries(s)
    ensures Descends(Picked(s, c))
  {
    if s != [] {
      PickedDescends(s[1..], c[1..]);
      var rest := Picked(s[1..], c[1..]);
      forall m | 0 <= m < |rest| ensures ProfitOf(rest[m]) <= s[0].profit {
        PickedFrom(s[1..], c[1..], rest[m]);
        var k :| 0 <= k < |s| - 1 && c[1..][k] && s[1..][k].trade == rest[m];
        assert s[k + 1] in s;
      }
      assert s[0] in s;
    }
  }

  // ---- the reasons ----

  /** Everything in `before` earns at least as much as anything in `s`. */
  ghost predicate Above(before: seq<Candidate>, s: seq<Normalized>) {
    forall m, k | 0 <= m < |before| && 0 <= k < |s| :: ProfitOf(before[m]) >= s[k].profit
  }

  lemma EntriesOfTail(s: seq<Normalized>)
    requires s != [] && TrueEntries(s) && Descending(s)
    ensures TrueEntries(s[1..]) && Descending(s[1..])
    ensures s[0].gasUsed == GasOf(s[0].trade) && s[0].profit == ProfitOf(s[0].trade)
  {
    assert s[0] in s;
  }

  lemma AboveTail(before: seq<Candidate>, s: seq<Normalized>)
    requires s != [] && TrueEntries(s) && Descending(s) && Above(before, s)
    ensures Above(before, s[1..]) && Above(before + [s[0].trade], s[1..])
  {
    assert s[0] in s;
  }

  lemma {:induction false} LeftOutReasons(
      s: seq<Normalized>, before: seq<Candidate>, used: int, limit: int, e: Exclusion)
    requires TrueEntries(s) && Descending(s) && Above(before, s) && used == SumGas(before)
    requires e in LeftOut(s, used, limit)
    ensures ReasonHolds(e, before + Picked(s, Greedy(s, used, limit)), limit)
  {
    var v := Judge(s[0], used, limit);
    EntriesOfTail(s);
    AboveTail(before, s);
    GreedyTail(s, used, limit);
    if v == Take {
      SumGasSnoc(before, s[0].trade);
      LeftOutReasons(s[1..], before + [s[0].trade], used + s[0].gasUsed, limit, e);
      Regroup(before, s[0].trade, Picked(s[1..], Greedy(s, used, limit)[1..]));
    } else {
      Regroup(before, s[0].trade, Picked(s[1..], Greedy(s, used, limit)[1..]));
      if e in LeftOut(s[1..], used, limit) {
        LeftOutReasons(s[1..], before, used, limit, e);
      } else {
        HeadReason(s, before, used, limit);
      }
    }
  }

  lemma Regroup(a: seq<Candidate>, x: Candidate, b: seq<Candidate>)
    ensures a + [x] + b == a + ([x] + b) && a + ([] + b) == a + b
  {
    assert [] + b == b;
  }

  lemma {:induction false} SumGasSnoc(a: seq<Candidate>, x: Candidate)
    ensures SumGas(a + [x]) == SumGas(a) + GasOf(x)
  {
    if a == [] {
      assert [] + [x] == [x] && [x][1..] == [];
    } else {
      SumGasSnoc(a[1..], x);
      assert (a + [x])[1..] == a[1..] + [x];
    }
  }

  lemma {:induction false} HeadReason(s: seq<Normalized>, before: seq<Candidate>, used: int, limit: int)
    requires s != [] && TrueEntries(s) && Descending(s) && Above(before, s) && used == SumGas(before)
    requires Judge(s[0], used, limit) != Take
    ensures ReasonHolds(Exclusion(Judge(s[0], used, limit), s[0].trade),
                        before + Picked(s[1..], Greedy(s[1..], used, limit)), limit)
  {
    assert s[0] in s;
    var c := Greedy(s[1..], used, limit);
    var rest := Picked(s[1..], c);
    var bundle := before + rest;
    assert bundle[..|before|] == before;
    forall m | |before| <= m < |bundle| ensures ProfitOf(bundle[m]) <= s[0].profit {
      assert bundle[m] == rest[m - |before|];
      PickedFrom(s[1..], c, bundle[m]);
      var k :| 0 <= k < |s| - 1 && c[k] && s[1..][k].trade == bundle[m];
      assert s[k + 1] in s;
    }
    assert Judge(s[0], used, limit) == BundleGasLimit ==> FullAt(s[0].trade, bundle, |before|, limit);
  }

  /** What the bundler returns, in terms of the candidates. */
  lemma {:induction false} BundleOfFields(trades: seq<Candidate>, limit: int)
    ensures var s := SortByProfit(NormalizeAll(trades));
            var c := Greedy(s, 0, limit);
            var bundle := Picked(s, c);
            && multiset(bundle) == multiset(Marked(trades, BundledMarks(trades, limit)))
            && Descends(bundle) && (forall x | x in bundle :: Profitable(x))
            && Gas(s, c) == SumGas(bundle) && Profit(s, c) == SumProfit(bundle)
            && SumProfit(bundle) == SumProfit(Marked(trades, BundledMarks(trades, limit)))
            && forall e | e in LeftOut(s, 0, limit) :: ReasonHolds(e, bundle, limit)
  {
    var n := NormalizeAll(trades);
    var s := SortByProfit(n);
    var c := Greedy(s, 0, limit);
    NormalizedAreTrue(trades);
    SortedAreTrue(n);
    SortDescends(n);
    MarksAreGreedy(trades, limit);
    SumsOfChoice(trades, BundledMarks(trades, limit));
    SumsOfPicked(s, c);
    PickedDescends(s, c);
    GreedyFeasible(s, 0, limit);
    forall x | x in Picked(s, c) ensures Profitable(x) { PickedAreProfitable(s, c, x); }
    forall e | e in LeftOut(s, 0, limit) ensures ReasonHolds(e, Picked(s, c), limit) {
      LeftOutReasons(s, [], 0, limit, e);
      assert [] + Picked(s, c) == Picked(s, c);
    }
  }

  lemma {:induction false} PickedAreProfitable(s: seq<Normalized>, c: Choice, x: Candidate)
    requires |c| == |s| && AllProfitable(s, c) && TrueEntries(s) && x in Picked(s, c)
    ensures Profitable(x)
  {
    PickedFrom(s, c, x);
    var k :| 0 <= k < |s| && c[k] && s[k].trade == x;
    assert s[k] in s;
  }
}
