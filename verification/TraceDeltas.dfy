/** Token deltas of one account, gathered while walking the call tree of a simulated transaction. */
module TraceDeltas {
  import opened Prelude

  const WETH := "0xc02aaa39b223fe8d0a0e5c4f27ead9083c756cc2"
  const DEPOSIT := "0xd0e30db0"
  const WITHDRAW := "0x2e1a7d4d"
  const TRANSFER := "0xa9059cbb"
  const TRANSFER_FROM := "0x23b872dd"

  /** A value field: missing (or empty), text that is no integer, or an integer. */
  datatype Field = Absent | Unparsable | Parsed(n: int)

  datatype Action = Action(from: Option<string>, to: Option<string>, input: string, value: Field)

  /** A frame keeps its call in `action` or in its own fields; a missing frame is skipped. */
  datatype Frame = NoFrame | Frame(own: Action, action: Option<Action>, calls: seq<Frame>)

  function ActionOf(f: Frame): Action
    requires f.Frame?
  {
    if f.action.Some? then f.action.value else f.own
  }

  function HexDigitValue(c: char): Option<int> {
    if '0' <= c <= '9' then Some(c as int - '0' as int)
    else if 'a' <= c <= 'f' then Some(c as int - 'a' as int + 10)
    else if 'A' <= c <= 'F' then Some(c as int - 'A' as int + 10)
    else None
  }

  /** `None` is the exception on text that is not hexadecimal. */
  function HexValue(s: string): Option<int> {
    if s == "" then Some(0) else
    var high := HexValue(s[..|s| - 1]);
    var low := HexDigitValue(s[|s| - 1]);
    if high.None? || low.None? then None else Some(16 * high.value + low.value)
  }

  function LowerOption(s: Option<string>): Option<string> {
    if s.None? then None else Some(ToLower(s.value))
  }

  lemma LowerTwice(s: string)
    ensures ToLower(ToLower(s)) == ToLower(s)
  {}

  /** The `i`-th 32-byte word after the selector. */
  function Word(input: string, i: nat): string
    requires |input| >= 10 + 64 * (i + 1)
  {
    input[10 + 64 * i..10 + 64 * (i + 1)]
  }

  function AddressIn(word: string): string
    requires |word| == 64
  {
    ToLower("0x" + word[24..])
  }

  /** What a call means for token balances, whichever account is looked at. */
  datatype Effect =
    | Nothing
    | Broken                                                   // reading it throws for every account
    | Deposit(who: Option<string>, amount: int)
    | Withdrawal(who: Option<string>, taken: Option<int>)       // `None`: reading it throws for the account itself
    | Transfer(token: string, src: Option<string>, dst: string, amount: int)

  function InputOf(a: Action): string {
    if a.input == "" then "0x" else a.input
  }

  function Selector(a: Action): string {
    if |InputOf(a)| < 10 then InputOf(a) else InputOf(a)[..10]
  }

  /** A deposit into WETH or a withdrawal from it. */
  predicate CallsWeth(a: Action) {
    LowerOption(a.to) == Some(WETH) && (Selector(a) == DEPOSIT || Selector(a) == WITHDRAW)
  }

  function EffectOf(a: Action): Effect {
    var to, from, input := LowerOption(a.to), LowerOption(a.from), InputOf(a);
    if a.value.Unparsable? then Broken
    else if CallsWeth(a) then
      if Selector(a) == DEPOSIT then
        if a.value.Parsed? && a.value.n > 0 then Deposit(from, a.value.n) else Nothing
      else
        if |input| >= 74 then Withdrawal(from, HexValue(Word(input, 0))) else Nothing
    else if Selector(a) == TRANSFER && |input| >= 138 && to.Some? && to.value != "" then
      var amount := HexValue(Word(input, 1));
      if amount.None? then Broken else Transfer(to.value, from, AddressIn(Word(input, 0)), amount.value)
    else if Selector(a) == TRANSFER_FROM && |input| >= 202 && to.Some? && to.value != "" then
      var amount := HexValue(Word(input, 2));
      if amount.None? then Broken
      else Transfer(to.value, Some(AddressIn(Word(input, 0))), AddressIn(Word(input, 1)), amount.value)
    else Nothing
  }

  lemma SelectorsDiffer()
    ensures DEPOSIT != WITHDRAW && DEPOSIT != TRANSFER && DEPOSIT != TRANSFER_FROM
    ensures WITHDRAW != TRANSFER && WITHDRAW != TRANSFER_FROM && TRANSFER != TRANSFER_FROM
  {
    assert DEPOSIT[2] == 'd' && WITHDRAW[2] == TRANSFER_FROM[2] == '2' && TRANSFER[2] == 'a';
    assert WITHDRAW[3] == 'e' && TRANSFER_FROM[3] == '3';
  }

  predicate ThrowsFor(a: Action, account: string) {
    var e := EffectOf(a);
    e.Broken? || (e.Withdrawal? && e.taken.None? && e.who == Some(account))
  }

  /** What a call adds to an account's balance of a token. */
  function Contribution(a: Action, account: string, token: string): int {
    match EffectOf(a)
    case Deposit(who, amount) => if token == WETH && who == Some(account) then amount else 0
    case Withdrawal(who, taken) => if token == WETH && who == Some(account) && taken.Some? then -taken.value else 0
    case Transfer(t, src, dst, amount) =>
      if token != t then 0
      else (if dst == account then amount else 0) - if src == Some(account) then amount else 0
    case _ => 0
  }

  // ---- sums over a call tree ----

  /** The sum of `g` over all calls of a tree. */
  function Total(f: Frame, g: Action -> int): int
    decreases f, 1
  {
    if f.NoFrame? then 0 else g(ActionOf(f)) + TotalOf(f.calls, g)
  }

  function TotalOf(calls: seq<Frame>, g: Action -> int): int
    decreases calls, 0
  {
    if calls == [] then 0 else TotalOf(calls[..|calls| - 1], g) + Total(calls[|calls| - 1], g)
  }

  ghost predicate All(f: Frame, p: Action -> bool)
    decreases f, 1
  {
    f.NoFrame? || (p(ActionOf(f)) && AllOf(f.calls, p))
  }

  ghost predicate AllOf(calls: seq<Frame>, p: Action -> bool)
    decreases calls, 0
  {
    calls == [] || (AllOf(calls[..|calls| - 1], p) && All(calls[|calls| - 1], p))
  }

  /** Where two summands agree on every call of the tree, so do their sums. */
  lemma {:induction false} TotalCongruent(f: Frame, g: Action -> int, h: Action -> int, p: Action -> bool)
    requires All(f, p) && forall a | p(a) :: g(a) == h(a)
    ensures Total(f, g) == Total(f, h)
    decreases f, 1
  {
    if f.Frame? { TotalOfCongruent(f.calls, g, h, p); }
  }

  lemma {:induction false} TotalOfCongruent(calls: seq<Frame>, g: Action -> int, h: Action -> int, p: Action -> bool)
    requires AllOf(calls, p) && forall a | p(a) :: g(a) == h(a)
    ensures TotalOf(calls, g) == TotalOf(calls, h)
    decreases calls, 0
  {
    if calls != [] {
      TotalOfCongruent(calls[..|calls| - 1], g, h, p);
      TotalCongruent(calls[|calls| - 1], g, h, p);
    }
  }

  lemma {:induction false} TotalAdds(f: Frame, g: Action -> int, h: Action -> int, both: Action -> int)
    requires forall a :: both(a) == g(a) + h(a)
    ensures Total(f, both) == Total(f, g) + Total(f, h)
    decreases f, 1
  {
    if f.Frame? { TotalOfAdds(f.calls, g, h, both); }
  }

  lemma {:induction false} TotalOfAdds(calls: seq<Frame>, g: Action -> int, h: Action -> int, both: Action -> int)
    requires forall a :: both(a) == g(a) + h(a)
    ensures TotalOf(calls, both) == TotalOf(calls, g) + TotalOf(calls, h)
    decreases calls, 0
  {
    if calls != [] {
      TotalOfAdds(calls[..|calls| - 1], g, h, both);
      TotalAdds(calls[|calls| - 1], g, h, both);
    }
  }

  /** An account's delta of a token over the whole tree. */
  function Delta(f: Frame, account: string, token: string): int {
    Total(f, a => Contribution(a, account, token))
  }

  // ---- the walk ----

  function Get(deltas: map<string, int>, token: string): int {
    if token in deltas then deltas[token] else 0
  }

  /** The deltas after a walk that started from `before`. */
  ghost predicate Gathered(before: map<string, int>, after: map<string, int>, added: string -> int) {
    forall t :: Get(after, t) == Get(before, t) + added(t)
  }

  /** The same tokens are added to the deltas' keys and to the set of tokens to look up. */
  ghost predicate Grown(keys0: set<string>, tokens0: set<string>, keys: set<string>, tokens: set<string>) {
    && keys0 <= keys && tokens0 <= tokens && tokens - tokens0 <= keys && keys - keys0 <= tokens
  }

  class TraceAccumulator {
    const account: string
    var tokenDeltas: map<string, int>
    var tokenSet: set<string>

    constructor (account: string, monitored: set<string>)
      ensures this.account == account && tokenDeltas == map[] && tokenSet == monitored
    {
      this.account := account;
      tokenDeltas, tokenSet := map[], monitored;
    }

    method RecordDelta(token: string, delta: int)
      modifies this
      ensures Gathered(old(tokenDeltas), tokenDeltas, t => if t == ToLower(token) then delta else 0)
      ensures tokenDeltas.Keys == old(tokenDeltas.Keys) + {ToLower(token)}
      ensures tokenSet == old(tokenSet) + {ToLower(token)}
    {
      var key := ToLower(token);
      tokenSet := tokenSet + {key};
      tokenDeltas := tokenDeltas[key := (if key in tokenDeltas then tokenDeltas[key] else 0) + delta];
    }

    /** A transfer seen from the account: what it sends out, then what it receives. */
    method RecordMove(token: string, sends: bool, receives: bool, amount: int)
      requires token == ToLower(token)
      modifies this
      ensures Gathered(old(tokenDeltas), tokenDeltas,
                t => if t != token then 0 else (if receives then amount else 0) - if sends then amount else 0)
      ensures var touched := if sends || receives then {token} else {};
              tokenDeltas.Keys == old(tokenDeltas.Keys) + touched && tokenSet == old(tokenSet) + touched
    {
      if sends { RecordDelta(token, -amount); }
      if receives { RecordDelta(token, amount); }
    }

    /** One call of the tree; `ok` is false when reading it throws. */
    method Visit(a: Action) returns (ok: bool)
      modifies this
      ensures ok <==> !ThrowsFor(a, account)
      ensures ok ==> Gathered(old(tokenDeltas), tokenDeltas, t => Contribution(a, account, t))
      ensures Grown(old(tokenDeltas.Keys), old(tokenSet), tokenDeltas.Keys, tokenSet)
    {
      if a.value.Unparsable? { return false; }
      ok := VisitWeth(a);
      if !ok { return; }
      ok := VisitTransfer(a);
    }

    /** The first two of the four kinds of call. */
    method VisitWeth(a: Action) returns (ok: bool)
      requires !a.value.Unparsable?
      modifies this
      ensures CallsWeth(a) ==> (ok <==> !ThrowsFor(a, account))
      ensures CallsWeth(a) && ok ==> Gathered(old(tokenDeltas), tokenDeltas, t => Contribution(a, account, t))
      ensures !CallsWeth(a) ==> ok && tokenDeltas == old(tokenDeltas) && tokenSet == old(tokenSet)
      ensures Grown(old(tokenDeltas.Keys), old(tokenSet), tokenDeltas.Keys, tokenSet)
    {
      SelectorsDiffer();
      var to, from, input, selector := LowerOption(a.to), LowerOption(a.from), InputOf(a), Selector(a);
      if a.to.Some? { LowerTwice(a.to.value); }
      var value := if a.value.Parsed? then a.value.n else 0;
      if to == Some(WETH) && selector == DEPOSIT && value > 0 && from == Some(account) {
        RecordDelta(WETH, value);
      }
      if to == Some(WETH) && selector == WITHDRAW && |input| >= 10 + 64 && from == Some(account) {
        var amount := HexValue(Word(input, 0));
        if amount.None? { return false; }
        RecordDelta(WETH, -amount.value);
      }
      return true;
    }

    /** The other two. */
    method VisitTransfer(a: Action) returns (ok: bool)
      requires !a.value.Unparsable?
      modifies this
      ensures !CallsWeth(a) ==> (ok <==> !ThrowsFor(a, account))
      ensures !CallsWeth(a) && ok ==> Gathered(old(tokenDeltas), tokenDeltas, t => Contribution(a, account, t))
      ensures CallsWeth(a) ==> ok && tokenDeltas == old(tokenDeltas) && tokenSet == old(tokenSet)
      ensures Grown(old(tokenDeltas.Keys), old(tokenSet), tokenDeltas.Keys, tokenSet)
    {
      SelectorsDiffer();
      var to, from, input, selector := LowerOption(a.to), LowerOption(a.from), InputOf(a), Selector(a);
      if a.to.Some? { LowerTwice(a.to.value); }
      if selector == TRANSFER && |input| >= 10 + 64 + 64 && to.Some? && to.value != "" {
        var amount := HexValue(Word(input, 1));
        if amount.None? { return false; }
        RecordMove(to.value, from == Some(account), AddressIn(Word(input, 0)) == account, amount.value);
      }
      if selector == TRANSFER_FROM && |input| >= 10 + 64 * 3 && to.Some? && to.value != "" {
        var amount := HexValue(Word(input, 2));
        if amount.None? { return false; }
        RecordMove(to.value, AddressIn(Word(input, 0)) == account, AddressIn(Word(input, 1)) == account, amount.value);
      }
      return true;
    }

    /** The recursive walk. When nothing throws, every token's delta has grown by exactly the account's
        contributions over the whole tree. */
    method Traverse(f: Frame) returns (ok: bool)
      modifies this
      ensures ok <==> All(f, a => !ThrowsFor(a, account))
      ensures ok ==> Gathered(old(tokenDeltas), tokenDeltas, t => Delta(f, account, t))
      ensures Grown(old(tokenDeltas.Keys), old(tokenSet), tokenDeltas.Keys, tokenSet)
      decreases f
    {
      if f.NoFrame? { return true; }
      ok := Visit(ActionOf(f));
      if !ok { return; }
      ghost var fine := (a: Action) => !ThrowsFor(a, account);
      for i := 0 to |f.calls|
        invariant AllOf(f.calls[..i], fine)
        invariant Grown(old(tokenDeltas.Keys), old(tokenSet), tokenDeltas.Keys, tokenSet)
        invariant Gathered(old(tokenDeltas), tokenDeltas,
                    t => Contribution(ActionOf(f), account, t)
                         + TotalOf(f.calls[..i], a => Contribution(a, account, t)))
      {
        assert f.calls[..i + 1][..i] == f.calls[..i];
        ok := Traverse(f.calls[i]);
        if !ok {
          if AllOf(f.calls, fine) { AllOfPrefix(f.calls, i + 1, fine); }
          return;
        }
      }
      assert f.calls[..|f.calls|] == f.calls;
      return true;
    }

    /** The walk over a whole trace. On a tree of encoded calls it never throws, and what it adds to each token is what
        those calls move, in the terms of the calls themselves. */
    method TraverseTrace(f: Frame) returns (ok: bool)
      modifies this
      ensures ok <==> All(f, a => !ThrowsFor(a, account))
      ensures ok ==> Gathered(old(tokenDeltas), tokenDeltas, t => Delta(f, account, t))
      ensures forall tree | Carries(f, tree) ::
                ok && forall t :: Get(tokenDeltas, t) == Get(old(tokenDeltas), t) + MovedIn(tree, account, t)
    {
      ok := Traverse(f);
      forall tree | Carries(f, tree)
        ensures ok && forall t :: Get(tokenDeltas, t) == Get(old(tokenDeltas), t) + MovedIn(tree, account, t)
      {
        NothingThrows(f, tree, account);
        forall t ensures Get(tokenDeltas, t) == Get(old(tokenDeltas), t) + MovedIn(tree, account, t) {
          DeltaIsMoved(f, tree, account, t);
        }
      }
    }
  }

  lemma {:induction false} AllOfPrefix(calls: seq<Frame>, n: nat, p: Action -> bool)
    requires n <= |calls| && AllOf(calls, p)
    ensures AllOf(calls[..n], p)
    decreases |calls|
  {
    if n < |calls| {
      AllOfPrefix(calls[..|calls| - 1], n, p);
      assert calls[..|calls| - 1][..n] == calls[..n];
    } else {
      assert calls[..n] == calls;
    }
  }

  // ---- conservation ----

  /** The sum of the deltas of several accounts, each analysed on its own. */
  function AccountsTotal(f: Frame, accounts: seq<string>, token: string): int {
    if accounts == [] then 0 else Delta(f, accounts[0], token) + AccountsTotal(f, accounts[1..], token)
  }

  function AccountsShare(a: Action, accounts: seq<string>, token: string): int {
    if accounts == [] then 0 else Contribution(a, accounts[0], token) + AccountsShare(a, accounts[1..], token)
  }

  ghost predicate Distinct(accounts: seq<string>) {
    forall i, j | 0 <= i < j < |accounts| :: accounts[i] != accounts[j]
  }

  /** All accounts a call moves tokens from or to are among these. */
  predicate Covered(a: Action, accounts: seq<string>) {
    match EffectOf(a)
    case Deposit(who, _) => who.None? || who.value in accounts
    case Withdrawal(who, _) => who.None? || who.value in accounts
    case Transfer(_, src, dst, _) => (src.None? || src.value in accounts) && dst in accounts
    case _ => true
  }

  function DepositAmount(a: Action): int {
    var e := EffectOf(a);
    if e.Deposit? && e.who.Some? then e.amount else 0
  }

  function WithdrawalAmount(a: Action): int {
    var e := EffectOf(a);
    if e.Withdrawal? && e.who.Some? && e.taken.Some? then e.taken.value else 0
  }

  /** What a transfer without a sender brings out of nowhere. */
  function OrphanAmount(a: Action, token: string): int {
    var e := EffectOf(a);
    if e.Transfer? && e.token == token && e.src.None? then e.amount else 0
  }

  function Net(a: Action, token: string): int {
    (if token == WETH then DepositAmount(a) - WithdrawalAmount(a) else 0) + OrphanAmount(a, token)
  }

  /** An amount given to one account of a list without repetition is counted once. */
  function PointSum(accounts: seq<string>, who: Option<string>, amount: int): int {
    if accounts == [] then 0 else
    (if who == Some(accounts[0]) then amount else 0) + PointSum(accounts[1..], who, amount)
  }

  lemma {:induction false} PointSumOnce(accounts: seq<string>, who: Option<string>, amount: int)
    requires Distinct(accounts)
    ensures PointSum(accounts, who, amount) == if who.Some? && who.value in accounts then amount else 0
  {
    if accounts != [] {
      PointSumOnce(accounts[1..], who, amount);
      assert accounts == [accounts[0]] + accounts[1..];
      assert accounts[0] !in accounts[1..];
    }
  }

  lemma {:induction false} ShareAsPoints(a: Action, accounts: seq<string>, token: string)
    ensures var e := EffectOf(a);
            AccountsShare(a, accounts, token)
            == match e
               case Deposit(who, amount) => if token == WETH then PointSum(accounts, who, amount) else 0
               case Withdrawal(who, taken) =>
                 if token == WETH && taken.Some? then PointSum(accounts, who, -taken.value) else 0
               case Transfer(t, src, dst, amount) =>
                 if t == token then PointSum(accounts, Some(dst), amount) + PointSum(accounts, src, -amount) else 0
               case _ => 0
  {
    if accounts != [] { ShareAsPoints(a, accounts[1..], token); }
  }

  /** One call moves tokens between the accounts: what one loses another gains, but for deposits, withdrawals and
      transfers without a sender. */
  lemma {:induction false} ShareIsNet(a: Action, accounts: seq<string>, token: string)
    requires Distinct(accounts) && Covered(a, accounts)
    ensures AccountsShare(a, accounts, token) == Net(a, token)
  {
    ShareAsPoints(a, accounts, token);
    match EffectOf(a) {
      case Deposit(who, amount) => PointSumOnce(accounts, who, amount);
      case Withdrawal(who, taken) => if taken.Some? { PointSumOnce(accounts, who, -taken.value); }
      case Transfer(_, src, dst, amount) =>
        PointSumOnce(accounts, Some(dst), amount);
        PointSumOnce(accounts, src, -amount);
      case _ =>
    }
  }

  lemma {:induction false} TotalZero(f: Frame, zero: Action -> int)
    requires forall a :: zero(a) == 0
    ensures Total(f, zero) == 0
    decreases f, 1
  {
    if f.Frame? { TotalOfZero(f.calls, zero); }
  }

  lemma {:induction false} TotalOfZero(calls: seq<Frame>, zero: Action -> int)
    requires forall a :: zero(a) == 0
    ensures TotalOf(calls, zero) == 0
    decreases calls, 0
  {
    if calls != [] {
      TotalOfZero(calls[..|calls| - 1], zero);
      TotalZero(calls[|calls| - 1], zero);
    }
  }

  /** Summing account by account or call by call is the same. */
  lemma {:induction false} SumsSwap(f: Frame, accounts: seq<string>, token: string)
    ensures AccountsTotal(f, accounts, token) == Total(f, a => AccountsShare(a, accounts, token))
  {
    var all := (a: Action) => AccountsShare(a, accounts, token);
    if accounts == [] {
      TotalZero(f, all);
    } else {
      SumsSwap(f, accounts[1..], token);
      TotalAdds(f, a => Contribution(a, accounts[0], token), a => AccountsShare(a, accounts[1..], token), all);
    }
  }

  function Deposits(f: Frame): int {
    Total(f, DepositAmount)
  }

  function Withdrawals(f: Frame): int {
    Total(f, WithdrawalAmount)
  }

  function Orphaned(f: Frame, token: string): int {
    Total(f, a => OrphanAmount(a, token))
  }

  lemma {:induction false} TotalNet(f: Frame, token: string)
    ensures Total(f, a => Net(a, token))
         == (if token == WETH then Deposits(f) - Withdrawals(f) else 0) + Orphaned(f, token)
  {
    var weth := (a: Action) => if token == WETH then DepositAmount(a) - WithdrawalAmount(a) else 0;
    TotalAdds(f, weth, a => OrphanAmount(a, token), a => Net(a, token));
    if token == WETH {
      TotalAdds(f, weth, WithdrawalAmount, DepositAmount);
    } else {
      TotalZero(f, weth);
    }
  }

  /** Over all accounts of a trace the deltas of a token add up to nothing, except that WETH's add up to the deposits
      minus the withdrawals, and that a transfer without a sender adds what it brings. */
  lemma {:induction false} DeltasAreConserved(f: Frame, accounts: seq<string>, token: string)
    requires Distinct(accounts) && All(f, a => Covered(a, accounts))
    ensures AccountsTotal(f, accounts, token)
         == (if token == WETH then Deposits(f) - Withdrawals(f) else 0) + Orphaned(f, token)
  {
    SumsSwap(f, accounts, token);
    var covered := (a: Action) => Covered(a, accounts);
    forall a | covered(a) ensures AccountsShare(a, accounts, token) == Net(a, token) { ShareIsNet(a, accounts, token); }
    TotalCongruent(f, a => AccountsShare(a, accounts, token), a => Net(a, token), covered);
    TotalNet(f, token);
  }

  /** So with a sender on every transfer the sum is exactly zero, or WETH's deposits minus withdrawals. */
  lemma {:induction false} DeltasBalance(f: Frame, accounts: seq<string>, token: string)
    requires Distinct(accounts) && All(f, a => Covered(a, accounts))
    requires All(f, a => EffectOf(a).Transfer? ==> EffectOf(a).src.Some?)
    ensures AccountsTotal(f, accounts, token) == if token == WETH then Deposits(f) - Withdrawals(f) else 0
  {
    DeltasAreConserved(f, accounts, token);
    TotalCongruent(f, a => OrphanAmount(a, token), a => 0, a => EffectOf(a).Transfer? ==> EffectOf(a).src.Some?);
    TotalZero(f, a => 0);
  }

  // ---- encoded calls ----

  function HexChar(d: nat): char
    requires d < 16
  {
    if d < 10 then (48 + d) as char else (87 + d) as char
  }

  function Power16(width: nat): nat {
    if width == 0 then 1 else 16 * Power16(width - 1)
  }

  /** A number in so many hexadecimal digits, the last one least. */
  function NumberDigits(n: nat, width: nat): (s: string)
    requires n < Power16(width)
    ensures |s| == width
  {
    if width == 0 then "" else NumberDigits(n / 16, width - 1) + [HexChar(n % 16)]
  }

  /** An unsigned 256-bit number as a 32-byte word. */
  function NumberWord(n: nat): (s: string)
    requires n < Power16(64)
    ensures |s| == 64
  {
    NumberDigits(n, 64)
  }

  /** An address, given by its 40 digits, as a 32-byte word: 24 zeros before it. */
  function AddressWord(digits: string): (s: string)
    requires |digits| == 40
    ensures |s| == 64
  {
    "000000000000000000000000" + digits
  }

  /** What a contract is asked to do, the caller first; addresses are given by their 40 digits. */
  datatype Call =
    | DepositCall(caller: string, amount: nat)
    | WithdrawCall(caller: string, amount: nat)
    | TransferCall(caller: string, token: string, dst: string, amount: nat)
    | TransferFromCall(caller: string, token: string, src: string, dst: string, amount: nat)

  predicate Encodable(c: Call) {
    && |c.caller| == 40 && c.amount < Power16(64)
    && (c.TransferCall? ==> |c.token| == |c.dst| == 40)
    && (c.TransferFromCall? ==> |c.token| == |c.src| == |c.dst| == 40)
  }

  /** The call as a frame shows it: a selector followed by the arguments' words, to WETH or to the token. */
  function Encode(c: Call): Action
    requires Encodable(c)
  {
    var from := Some("0x" + c.caller);
    match c
    case DepositCall(_, n) =>
      Action(from, Some("0xc02aaa39b223fe8d0a0e5c4f27ead9083c756cc2"), "0xd0e30db0", Parsed(n))
    case WithdrawCall(_, n) =>
      Action(from, Some("0xc02aaa39b223fe8d0a0e5c4f27ead9083c756cc2"), "0x2e1a7d4d" + NumberWord(n), Absent)
    case TransferCall(_, token, dst, n) =>
      Action(from, Some("0x" + token), "0xa9059cbb" + AddressWord(dst) + NumberWord(n), Absent)
    case TransferFromCall(_, token, src, dst, n) =>
      Action(from, Some("0x" + token), "0x23b872dd" + AddressWord(src) + AddressWord(dst) + NumberWord(n), Absent)
  }

  predicate IsAddress(digits: string, lower: string) {
    ToLower("0x" + digits) == lower
  }

  /** What a call moves for an account, in a token: a depositor gets WETH and one who withdraws gives it up; the source
      of a transfer pays and its destination receives. */
  function Moved(c: Call, account: string, token: string): int {
    match c
    case DepositCall(caller, n) =>
      if token == "0xc02aaa39b223fe8d0a0e5c4f27ead9083c756cc2" && IsAddress(caller, account) then n else 0
    case WithdrawCall(caller, n) =>
      if token == "0xc02aaa39b223fe8d0a0e5c4f27ead9083c756cc2" && IsAddress(caller, account)
      then Payment(true, false, n) else 0
    case TransferCall(caller, t, dst, n) =>
      if IsAddress(t, token) then Payment(IsAddress(caller, account), IsAddress(dst, account), n) else 0
    case TransferFromCall(_, t, src, dst, n) =>
      if IsAddress(t, token) then Payment(IsAddress(src, account), IsAddress(dst, account), n) else 0
  }

  function Payment(pays: bool, receives: bool, n: nat): int {
    (if receives then n else 0) - (if pays then n else 0)
  }

  datatype CallTree = CallTree(call: Call, inner: seq<CallTree>)

  /** The frame shows the tree of calls, in either of the two trace formats. */
  ghost predicate Carries(f: Frame, tree: CallTree)
    decreases tree
  {
    && f.Frame? && Encodable(tree.call)
    && (f.action == Some(Encode(tree.call)) || (f.action.None? && f.own == Encode(tree.call)))
    && |f.calls| == |tree.inner| && forall i | 0 <= i < |f.calls| :: Carries(f.calls[i], tree.inner[i])
  }

  function MovedIn(tree: CallTree, account: string, token: string): int
    decreases tree, 1
  {
    Moved(tree.call, account, token) + MovedInAll(tree.inner, account, token)
  }

  function MovedInAll(trees: seq<CallTree>, account: string, token: string): int
    decreases trees, 0
  {
    if trees == [] then 0
    else MovedInAll(trees[..|trees| - 1], account, token) + MovedIn(trees[|trees| - 1], account, token)
  }

  lemma HexCharBack(d: nat)
    requires d < 16
    ensures HexDigitValue(HexChar(d)) == Some(d)
  {}

  lemma {:induction false} NumberBack(n: nat, width: nat)
    requires n < Power16(width)
    ensures HexValue(NumberDigits(n, width)) == Some(n)
  {
    if width > 0 {
      var high := NumberDigits(n / 16, width - 1);
      NumberBack(n / 16, width - 1);
      HexCharBack(n % 16);
      assert (high + [HexChar(n % 16)])[..width - 1] == high;
    }
  }

  lemma AddressBack(digits: string)
    requires |digits| == 40
    ensures AddressIn(AddressWord(digits)) == ToLower("0x" + digits)
  {
    assert AddressWord(digits)[24..] == digits;
  }

  /** The input of a call with one, two or three words: its selector and its words are read as they were written. */
  lemma OneWord(a: Action, selector: string, x: string)
    requires |selector| == 10 && |x| == 64 && a.input == selector + x
    ensures |InputOf(a)| == 74 && Selector(a) == selector && Word(InputOf(a), 0) == x
  {
    assert (selector + x)[..10] == selector;
  }

  lemma TwoWords(a: Action, selector: string, x: string, y: string)
    requires |selector| == 10 && |x| == |y| == 64 && a.input == selector + x + y
    ensures |InputOf(a)| == 138 && Selector(a) == selector
    ensures Word(InputOf(a), 0) == x && Word(InputOf(a), 1) == y
  {
    assert (selector + x + y)[..10] == selector;
  }

  lemma ThreeWords(a: Action, selector: string, x: string, y: string, z: string)
    requires |selector| == 10 && |x| == |y| == |z| == 64 && a.input == selector + x + y + z
    ensures |InputOf(a)| == 202 && Selector(a) == selector
    ensures Word(InputOf(a), 0) == x && Word(InputOf(a), 1) == y && Word(InputOf(a), 2) == z
  {
    assert (selector + x + y + z)[..10] == selector;
  }

  predicate NoCapital(s: string) {
    forall i | 0 <= i < |s| :: !('A' <= s[i] <= 'Z')
  }

  lemma NoCapitalSame(s: string)
    requires NoCapital(s)
    ensures ToLower(s) == s
  {}

  lemma NoCapitalAppend(s: string, t: string)
    requires NoCapital(s) && NoCapital(t)
    ensures NoCapital(s + t)
  {}

  lemma WethStart()
    ensures NoCapital("0xc02aaa39b223fe8d")
  {
    NoCapitalAppend("0xc02aaa", "39b223fe8d");
    assert "0xc02aaa" + "39b223fe8d" == "0xc02aaa39b223fe8d";
  }

  lemma WethEnd()
    ensures NoCapital("0a0e5c4f27ead9083c756cc2")
  {
    NoCapitalAppend("0a0e5c4f", "27ead908");
    NoCapitalAppend("0a0e5c4f" + "27ead908", "3c756cc2");
    assert "0a0e5c4f" + "27ead908" + "3c756cc2" == "0a0e5c4f27ead9083c756cc2";
  }

  lemma WethIsLower()
    ensures ToLower(WETH) == WETH
  {
    WethStart();
    WethEnd();
    NoCapitalAppend("0xc02aaa39b223fe8d", "0a0e5c4f27ead9083c756cc2");
    assert "0xc02aaa39b223fe8d" + "0a0e5c4f27ead9083c756cc2" == WETH;
    NoCapitalSame(WETH);
  }

  lemma {:induction false} DepositBack(c: Call, account: string, token: string)
    requires Encodable(c) && c.DepositCall?
    ensures !ThrowsFor(Encode(c), account) && Contribution(Encode(c), account, token) == Moved(c, account, token)
  {
    WethIsLower();
    assert Selector(Encode(c)) == DEPOSIT;
  }

  lemma {:induction false} WithdrawBack(c: Call, account: string, token: string)
    requires Encodable(c) && c.WithdrawCall?
    ensures !ThrowsFor(Encode(c), account) && Contribution(Encode(c), account, token) == Moved(c, account, token)
  {
    WethIsLower();
    OneWord(Encode(c), WITHDRAW, NumberWord(c.amount));
    NumberBack(c.amount, 64);
    WithdrawEffect(Encode(c), c.amount);
  }

  lemma WithdrawEffect(a: Action, n: nat)
    requires a.value == Absent && LowerOption(a.to) == Some(WETH) && Selector(a) == WITHDRAW
    requires |InputOf(a)| == 74 && HexValue(Word(InputOf(a), 0)) == Some(n)
    ensures EffectOf(a) == Withdrawal(LowerOption(a.from), Some(n))
  {
    SelectorsDiffer();
  }

  lemma {:induction false} TransferBack(c: Call, account: string, token: string)
    requires Encodable(c) && c.TransferCall?
    ensures !ThrowsFor(Encode(c), account) && Contribution(Encode(c), account, token) == Moved(c, account, token)
  {
    TwoWords(Encode(c), TRANSFER, AddressWord(c.dst), NumberWord(c.amount));
    NumberBack(c.amount, 64);
    AddressBack(c.dst);
    TransferEffect(Encode(c), ToLower("0x" + c.token), ToLower("0x" + c.dst), c.amount);
  }

  lemma TransferEffect(a: Action, token: string, dst: string, n: nat)
    requires a.value == Absent && LowerOption(a.to) == Some(token) && token != "" && Selector(a) == TRANSFER
    requires |InputOf(a)| == 138 && AddressIn(Word(InputOf(a), 0)) == dst && HexValue(Word(InputOf(a), 1)) == Some(n)
    ensures EffectOf(a) == Transfer(token, LowerOption(a.from), dst, n)
  {
    SelectorsDiffer();
  }

  lemma {:induction false} TransferFromBack(c: Call, account: string, token: string)
    requires Encodable(c) && c.TransferFromCall?
    ensures !ThrowsFor(Encode(c), account) && Contribution(Encode(c), account, token) == Moved(c, account, token)
  {
    ThreeWords(Encode(c), TRANSFER_FROM, AddressWord(c.src), AddressWord(c.dst), NumberWord(c.amount));
    NumberBack(c.amount, 64);
    AddressBack(c.src);
    AddressBack(c.dst);
    TransferFromEffect(Encode(c), ToLower("0x" + c.token), ToLower("0x" + c.src), ToLower("0x" + c.dst), c.amount);
  }

  lemma TransferFromEffect(a: Action, token: string, src: string, dst: string, n: nat)
    requires a.value == Absent && LowerOption(a.to) == Some(token) && token != "" && Selector(a) == TRANSFER_FROM
    requires |InputOf(a)| == 202 && HexValue(Word(InputOf(a), 2)) == Some(n)
    requires AddressIn(Word(InputOf(a), 0)) == src && AddressIn(Word(InputOf(a), 1)) == dst
    ensures EffectOf(a) == Transfer(token, Some(src), dst, n)
  {
    SelectorsDiffer();
  }

  /** An encoded call is read for what it moves. */
  lemma {:induction false} EncodedCallMoves(c: Call, account: string, token: string)
    requires Encodable(c)
    ensures !ThrowsFor(Encode(c), account) && Contribution(Encode(c), account, token) == Moved(c, account, token)
  {
    match c {
      case DepositCall(_, _) => DepositBack(c, account, token);
      case WithdrawCall(_, _) => WithdrawBack(c, account, token);
      case TransferCall(_, _, _, _) => TransferBack(c, account, token);
      case TransferFromCall(_, _, _, _, _) => TransferFromBack(c, account, token);
    }
  }

  ghost predicate AllCarry(calls: seq<Frame>, trees: seq<CallTree>) {
    |calls| == |trees| && forall i | 0 <= i < |calls| :: Carries(calls[i], trees[i])
  }

  lemma {:induction false} NothingThrows(f: Frame, tree: CallTree, account: string)
    requires Carries(f, tree)
    ensures All(f, a => !ThrowsFor(a, account))
    decreases f, 1
  {
    EncodedCallMoves(tree.call, account, "");
    NothingThrowsIn(f.calls, tree.inner, account);
  }

  lemma {:induction false} NothingThrowsIn(calls: seq<Frame>, trees: seq<CallTree>, account: string)
    requires AllCarry(calls, trees)
    ensures AllOf(calls, a => !ThrowsFor(a, account))
    decreases calls, 0
  {
    if calls != [] {
      NothingThrowsIn(calls[..|calls| - 1], trees[..|trees| - 1], account);
      NothingThrows(calls[|calls| - 1], trees[|trees| - 1], account);
    }
  }

  /** Over a tree of encoded calls the delta is what they move. */
  lemma {:induction false} DeltaIsMoved(f: Frame, tree: CallTree, account: string, token: string)
    requires Carries(f, tree)
    ensures Delta(f, account, token) == MovedIn(tree, account, token)
    decreases f, 1
  {
    EncodedCallMoves(tree.call, account, token);
    DeltaIsMovedIn(f.calls, tree.inner, account, token);
  }

  lemma {:induction false} DeltaIsMovedIn(calls: seq<Frame>, trees: seq<CallTree>, account: string, token: string)
    requires AllCarry(calls, trees)
    ensures TotalOf(calls, a => Contribution(a, account, token)) == MovedInAll(trees, account, token)
    decreases calls, 0
  {
    if calls != [] {
      DeltaIsMovedIn(calls[..|calls| - 1], trees[..|trees| - 1], account, token);
      DeltaIsMoved(calls[|calls| - 1], trees[|trees| - 1], account, token);
    }
  }
}
