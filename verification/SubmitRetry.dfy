/** Sending a signed transaction to the public mempool: at most six turns, each followed by what the error calls for. */
module SubmitRetry {
  import opened Prelude

  const GWEI := 1_000_000_000
  const MAX_RETRIES := 5

  /** A parsed transaction. */
  datatype Tx = Tx(
    from: Option<string>, to: Option<string>, nonce: nat, gasLimit: int,
    maxFeePerGas: int, maxPriorityFeePerGas: int, value: int, data: string)

  /** A signed transaction text: what parsing it gives, or that parsing throws. */
  datatype Signed = Signed(tx: Tx) | Garbled

  // ---- fees ----

  datatype Fees = Fees(maxFee: int, maxPrio: int)

  /** `baseFee` is `None` when the block cannot be read; a missing or zero base fee counts as one gwei. */
  function GetInitialFees(baseFee: Option<nat>): Fees {
    if baseFee.None? then Fees(3 * GWEI, GWEI)
    else Fees((if baseFee.value == 0 then GWEI else baseFee.value) * 2 + GWEI, GWEI)
  }

  function Bump(v: int): int
    requires v >= 0
  {
    v * 1125 / 1000 + 1
  }

  function BumpFees(f: Fees): Fees
    requires f.maxFee >= 0 && f.maxPrio >= 0
  {
    var fee, prio := Bump(f.maxFee), Bump(f.maxPrio);
    Fees(if fee < prio then prio else fee, prio)
  }

  function RequiredCostWei(gasLimit: int, maxFeePerGas: int, value: int): int {
    gasLimit * maxFeePerGas + value
  }

  /** A bump is the least whole fee above 112.5%, and the priority fee never exceeds the fee. */
  lemma BumpRaisesByAnEighth(f: Fees)
    requires f.maxFee >= 0 && f.maxPrio >= 0
    ensures var b := BumpFees(f);
            && b.maxFee >= b.maxPrio
            && 8 * b.maxFee > 9 * f.maxFee && 8 * b.maxPrio > 9 * f.maxPrio
            && 8 * (b.maxPrio - 1) <= 9 * f.maxPrio
            && (f.maxFee >= f.maxPrio ==> 8 * (b.maxFee - 1) <= 9 * f.maxFee)
  {}

  // ---- classification ----

  datatype Action =
    AcceptSuccess | BumpFeeRetry | RefreshNonceReschedule | HardFail | FallbackToType2 | BackoffRetry

  datatype Classification = Classification(action: Action, retryable: bool, maxRetries: int)

  /** The error's message, "" when there is none, and its code. */
  datatype RpcError = RpcError(message: string, code: Option<int>)

  predicate Contains(s: string, part: string) {
    part <= s || (s != "" && Contains(s[1..], part))
  }

  function ClassifyError(e: RpcError): Classification {
    var msg := ToLower(e.message);
    if Contains(msg, "already known") then Classification(AcceptSuccess, false, 0)
    else if Contains(msg, "replacement transaction underpriced") || Contains(msg, "transaction underpriced") then
      Classification(BumpFeeRetry, true, 3)
    else if Contains(msg, "nonce too low") || (e.code == Some(-32000) && Contains(msg, "nonce")) then
      Classification(RefreshNonceReschedule, true, 2)
    else if Contains(msg, "insufficient funds") || Contains(msg, "not enough funds") then
      Classification(HardFail, false, 0)
    else if Contains(msg, "transaction type not supported") || Contains(msg, "rlp: expected input list")
            || Contains(msg, "invalid-raw-tx") then
      Classification(FallbackToType2, true, 1)
    else if Contains(msg, "timeout") || Contains(msg, "network") || e.code == Some(-32005) then
      Classification(BackoffRetry, true, 3)
    else Classification(BackoffRetry, true, 1)
  }

  // ---- one turn ----

  datatype Reply = Accepted(hash: string) | Error(error: RpcError)

  /** What the outside answers during one turn. */
  datatype Turn = Turn(reply: Reply, baseFee: Option<nat>, refreshes: bool, nextNonce: Option<nat>, signs: bool)

  /** `wallet` is the address of the submitting key, if one is configured; `hashOf` the hash a transaction has. */
  datatype Env = Env(wallet: Option<string>, balance: Option<int>, turns: nat -> Turn, hashOf: Tx -> string)

  /** What handling an error leads to; `reserved` lists the nonces taken from the nonce manager on the way. */
  datatype Handled =
    | Known(hash: string)
    | Resigned(signed: Signed, reserved: seq<nat>)
    | Waited
    | Threw(reserved: seq<nat>)

  function Resign(t: Turn, tx: Tx, reserved: seq<nat>): Handled {
    if t.signs then Resigned(Signed(tx), reserved) else Threw(reserved)
  }

  function HandleBumpFee(env: Env, t: Turn, s: Signed): Handled {
    if env.wallet.None? || s.Garbled? then Threw([]) else
    var from := env.wallet.value;
    var fees := BumpFees(GetInitialFees(t.baseFee));
    Resign(t, s.tx.(from := Some(from), to := Some(s.tx.to.GetOr(from)),
                    maxFeePerGas := fees.maxFee, maxPriorityFeePerGas := fees.maxPrio), [])
  }

  function HandleRefreshNonce(env: Env, t: Turn, s: Signed): Handled {
    if env.wallet.None? || !t.refreshes || s.Garbled? then Threw([]) else
    var from := env.wallet.value;
    var fees := GetInitialFees(t.baseFee);
    Resign(t, s.tx.(from := Some(from), to := Some(s.tx.to.GetOr(from)),
                    maxFeePerGas := fees.maxFee, maxPriorityFeePerGas := fees.maxPrio), [])
  }

  function HandleFallback(env: Env, t: Turn, s: Signed): Handled {
    if env.wallet.None? then Threw([]) else
    var from := env.wallet.value;
    if s.Garbled? && t.nextNonce.None? then Threw([]) else
    var nonce := if s.Signed? then s.tx.nonce else t.nextNonce.value;
    var fees := GetInitialFees(t.baseFee);
    Resign(t, Tx(Some(from), Some(from), nonce, 21000, fees.maxFee, fees.maxPrio, 0, "0x"),
           if s.Signed? then [] else [nonce])
  }

  function ExecuteAction(env: Env, t: Turn, c: Classification, s: Signed, retryCount: int): Handled {
    match c.action
    case AcceptSuccess => if s.Signed? && env.hashOf(s.tx) != "" then Known(env.hashOf(s.tx)) else Threw([])
    case BumpFeeRetry => HandleBumpFee(env, t, s)
    case RefreshNonceReschedule => HandleRefreshNonce(env, t, s)
    case HardFail => Threw([])
    case BackoffRetry => if retryCount < c.maxRetries then Waited else Threw([])
    case FallbackToType2 => HandleFallback(env, t, s)
  }

  // ---- the loop ----

  /** The transactions sent in order, the nonces newly reserved, and whether a fallback has replaced the call. */
  datatype Log = Log(sent: seq<Signed>, reserved: seq<nat>, fellBack: bool)

  datatype Outcome = Outcome(result: Result<string>, log: Log)

  const NOTHING := Log([], [], false)
  const INVALID_RAW := RpcError("invalid-raw-tx", None)

  predicate FundsChecked(env: Env, s: Signed) {
    s.Garbled? || s.tx.from.None?
    || (env.balance.Some? && env.balance.value >= RequiredCostWei(s.tx.gasLimit, s.tx.maxFeePerGas, s.tx.value))
  }

  /** One turn: what is sent in it, which nonces are reserved, and whether the loop ends with a hash ("" for none)
      or goes on with a transaction. */
  datatype Step =
    | Stop(hash: string, sent: seq<Signed>, reserved: seq<nat>)
    | GoOn(next: Signed, sent: seq<Signed>, reserved: seq<nat>, fallsBack: bool)

  /** The error of a turn and what it is classified as. */
  function TurnError(t: Turn, raw: bool): Option<RpcError> {
    if !raw then Some(INVALID_RAW) else if t.reply.Error? then Some(t.reply.error) else None
  }

  function TakeTurn(env: Env, raw: bool, s: Signed, k: nat): Step {
    var t := env.turns(k);
    var error := TurnError(t, raw);
    if error.None? then Stop(t.reply.hash, [s], [])
    else AfterError(env, t, ClassifyError(error.value), if raw then [s] else [], s, k)
  }

  function AfterError(env: Env, t: Turn, c: Classification, sent: seq<Signed>, s: Signed, k: nat): Step {
    match ExecuteAction(env, t, c, s, k)
    case Known(hash) => Stop(hash, sent, [])
    case Threw(reserved) =>
      if c.retryable && k < c.maxRetries then GoOn(s, sent, reserved, false) else Stop("", sent, reserved)
    case Waited => GoOn(s, sent, [], false)
    case Resigned(s', reserved) => GoOn(s', sent, reserved, c.action == FallbackToType2)
  }

  /** How a transaction fares in the `k`-th turn. */
  type Turns = (Signed, nat) -> Step

  function Finished(hash: string, log: Log): Outcome {
    Outcome(if hash == "" then Err else Ok(hash), log)
  }

  function Noted(log: Log, step: Step): Log {
    Log(log.sent + step.sent, log.reserved + step.reserved, log.fellBack || (step.GoOn? && step.fallsBack))
  }

  /** The turns from the `k`-th on, with `s` to be sent. */
  function Run(turns: Turns, s: Signed, k: nat, log: Log): Outcome
    decreases MAX_RETRIES + 1 - k
  {
    if k > MAX_RETRIES then Finished("", log) else
    var step := turns(s, k);
    if step.Stop? then Finished(step.hash, Noted(log, step)) else Run(turns, step.next, k + 1, Noted(log, step))
  }

  function Submission(env: Env, raw: bool): Turns {
    (s: Signed, k: nat) => TakeTurn(env, raw, s, k)
  }

  method SubmitPublicTransaction(env: Env, original: Signed, looksLikeRaw: bool) returns (o: Outcome)
    ensures o == if FundsChecked(env, original) then Run(Submission(env, looksLikeRaw), original, 0, NOTHING)
                 else Outcome(Err, NOTHING)
    // A sender whose balance is unknown, or does not cover all the gas at the full fee and the value, sends nothing.
    ensures original.Signed? && original.tx.from.Some?
            && (env.balance.None?
                || env.balance.value < original.tx.gasLimit * original.tx.maxFeePerGas + original.tx.value) ==>
              o.result == Err && o.log.sent == []
  {
    if original.Signed? && original.tx.from.Some? {
      var required := RequiredCostWei(original.tx.gasLimit, original.tx.maxFeePerGas, original.tx.value);
      if env.balance.None? || env.balance.value < required {
        return Outcome(Err, NOTHING);
      }
    }
    o := SendLoop(env, original, looksLikeRaw);
  }

  method SendLoop(env: Env, original: Signed, looksLikeRaw: bool) returns (o: Outcome)
    ensures o == Run(Submission(env, looksLikeRaw), original, 0, NOTHING)
  {
    var signed, retryCount := original, 0;
    var txHash := "";
    var log := NOTHING;
    ghost var turns := Submission(env, looksLikeRaw);
    while retryCount <= MAX_RETRIES
      invariant 0 <= retryCount <= MAX_RETRIES + 1 && txHash == ""
      invariant Run(turns, signed, retryCount, log) == Run(turns, original, 0, NOTHING)
      decreases MAX_RETRIES + 1 - retryCount
    {
      var step := OneTurn(env, looksLikeRaw, signed, retryCount);
      log := Noted(log, step);
      if step.Stop? {
        txHash := step.hash;
        break;
      }
      signed := step.next;
      retryCount := retryCount + 1;
    }
    o := Finished(txHash, log);
  }

  /** One pass through the loop's body: the send, and on an error its classification and handling. */
  method OneTurn(env: Env, looksLikeRaw: bool, signed: Signed, retryCount: nat) returns (step: Step)
    ensures step == Submission(env, looksLikeRaw)(signed, retryCount)
  {
    var t := env.turns(retryCount);
    var sent: seq<Signed> := [];
    var error := INVALID_RAW;
    if looksLikeRaw {
      sent := [signed];
      if t.reply.Accepted? {
        return Stop(t.reply.hash, sent, []);
      }
      error := t.reply.error;
    }
    var c := ClassifyError(error);
    var h := ExecuteAction(env, t, c, signed, retryCount);
    if h.Known? {
      return Stop(h.hash, sent, []);
    }
    if h.Threw? {
      if c.retryable && retryCount < c.maxRetries {
        return GoOn(signed, sent, h.reserved, false);
      }
      return Stop("", sent, h.reserved);
    }
    if h.Resigned? {
      return GoOn(h.signed, sent, h.reserved, c.action == FallbackToType2);
    }
    return GoOn(signed, sent, [], false);
  }

  // ---- what holds of every run ----

  /** A run that sends at most one transaction a turn sends at most six. */
  lemma {:induction false} AtMostSixSends(turns: Turns, s: Signed, k: nat, log: Log)
    requires forall x: Signed, i: nat :: |turns(x, i).sent| <= 1
    requires |log.sent| <= k <= MAX_RETRIES + 1
    ensures |Run(turns, s, k, log).log.sent| <= 6
    decreases MAX_RETRIES + 1 - k
  {
    if k <= MAX_RETRIES {
      var step := turns(s, k);
      if step.GoOn? { AtMostSixSends(turns, step.next, k + 1, Noted(log, step)); }
    }
  }

  /** What every sent transaction keeps of the original: its nonce; and unless a fallback came in between, its gas
      limit, value and data, and its recipient if it has one. A re-signed transaction without one goes to the wallet
      itself. */
  predicate Keeps(wallet: Option<string>, original: Tx, fellBack: bool, s: Signed) {
    s == Signed(original)
    || (s.Signed? && wallet.Some? && s.tx.from == wallet
        && s.tx.nonce == original.nonce
        && s.tx.maxFeePerGas >= s.tx.maxPriorityFeePerGas >= GWEI
        && s.tx.to.Some?
        && (!fellBack ==>
              && s.tx.gasLimit == original.gasLimit && s.tx.value == original.value && s.tx.data == original.data
              && s.tx.to == Some(original.to.GetOr(wallet.value))))
  }

  /** Each turn sends at most what it was given, reserves nothing, and keeps the transaction. */
  ghost predicate TurnsKeep(turns: Turns, wallet: Option<string>, original: Tx) {
    forall s: Signed, k: nat, fellBack: bool | Keeps(wallet, original, fellBack, s) ::
      TurnKeeps(turns(s, k), wallet, original, fellBack, s)
  }

  predicate TurnKeeps(step: Step, wallet: Option<string>, original: Tx, fellBack: bool, s: Signed) {
    && (step.sent == [] || step.sent == [s])
    && step.reserved == []
    && (step.GoOn? ==> Keeps(wallet, original, fellBack || step.fallsBack, step.next))
  }

  lemma {:induction false} RunKeepsTransaction(
      turns: Turns, wallet: Option<string>, original: Tx, s: Signed, k: nat, log: Log)
    requires TurnsKeep(turns, wallet, original)
    requires Keeps(wallet, original, log.fellBack, s) && log.reserved == []
    requires forall x | x in log.sent :: Keeps(wallet, original, log.fellBack, x)
    ensures var end := Run(turns, s, k, log).log;
            end.reserved == [] && forall x | x in end.sent :: Keeps(wallet, original, end.fellBack, x)
    decreases MAX_RETRIES + 1 - k
  {
    if k <= MAX_RETRIES {
      var step := turns(s, k);
      assert TurnKeeps(step, wallet, original, log.fellBack, s);
      var log1 := Noted(log, step);
      assert forall x | x in log1.sent :: x in log.sent || x == s;
      if step.GoOn? { RunKeepsTransaction(turns, wallet, original, step.next, k + 1, log1); }
    }
  }

  /** A bump starts from the network's fees, not from those of the transaction it replaces: it raises the fee
      exactly when the rejected one was below that, and a second bump at the same base fee signs the same
      transaction again. */
  lemma BumpIgnoresRejectedFees(env: Env, t: Turn, s: Signed)
    requires HandleBumpFee(env, t, s).Resigned?
    ensures var bumped := HandleBumpFee(env, t, s).signed;
            && HandleBumpFee(env, t, bumped) == Resigned(bumped, [])
            && (bumped.tx.maxFeePerGas > s.tx.maxFeePerGas <==>
                8 * s.tx.maxFeePerGas <= 9 * GetInitialFees(t.baseFee).maxFee)
  {
    BumpRaisesByAnEighth(GetInitialFees(t.baseFee));
  }

  lemma HandlersKeep(env: Env, t: Turn, c: Classification, original: Tx, fellBack: bool, s: Signed, k: nat)
    requires Keeps(env.wallet, original, fellBack, s)
    ensures var h := ExecuteAction(env, t, c, s, k);
            && (h.Resigned? ==>
                  h.reserved == [] && Keeps(env.wallet, original, fellBack || c.action == FallbackToType2, h.signed))
            && (h.Threw? ==> h.reserved == [])
  {
    if t.baseFee.Some? { BumpRaisesByAnEighth(GetInitialFees(t.baseFee)); }
  }

  lemma TakeTurnKeeps(env: Env, raw: bool, original: Tx, fellBack: bool, s: Signed, k: nat)
    requires Keeps(env.wallet, original, fellBack, s)
    ensures TurnKeeps(TakeTurn(env, raw, s, k), env.wallet, original, fellBack, s)
  {
    var t := env.turns(k);
    var error := TurnError(t, raw);
    if error.Some? {
      AfterErrorKeeps(env, t, ClassifyError(error.value), original, fellBack, if raw then [s] else [], s, k);
    }
  }

  lemma AfterErrorKeeps(env: Env, t: Turn, c: Classification, original: Tx, fellBack: bool, sent: seq<Signed>,
      s: Signed, k: nat)
    requires Keeps(env.wallet, original, fellBack, s) && (sent == [] || sent == [s])
    ensures TurnKeeps(AfterError(env, t, c, sent, s, k), env.wallet, original, fellBack, s)
  {
    HandlersKeep(env, t, c, original, fellBack, s, k);
  }

  /** The whole submission of a parsable transaction: at most six sends, all with its nonce, none reserved; every
      re-signed one has ordered fees, and without a fallback the same call. */
  lemma {:induction false} SubmissionKeepsTransaction(env: Env, raw: bool, original: Tx)
    ensures var end := Run(Submission(env, raw), Signed(original), 0, NOTHING).log;
            && |end.sent| <= 6 && end.reserved == []
            && forall x | x in end.sent :: Keeps(env.wallet, original, end.fellBack, x)
  {
    var turns := Submission(env, raw);
    AtMostSixSends(turns, Signed(original), 0, NOTHING);
    forall s: Signed, k: nat, fellBack: bool | Keeps(env.wallet, original, fellBack, s)
      ensures TurnKeeps(turns(s, k), env.wallet, original, fellBack, s)
    {
      TakeTurnKeeps(env, raw, original, fellBack, s, k);
    }
    RunKeepsTransaction(turns, env.wallet, original, Signed(original), 0, NOTHING);
  }

  /** Whatever the text, at most six sends; and at most two nonces are reserved, both for a text that cannot be
      parsed. */
  lemma {:induction false} SubmissionIsBounded(env: Env, raw: bool, s: Signed)
    ensures var end := Run(Submission(env, raw), s, 0, NOTHING).log;
            && |end.sent| <= 6 && |end.reserved| <= 2
            && (s.Signed? ==> end.reserved == [])
  {
    AtMostSixSends(Submission(env, raw), s, 0, NOTHING);
    AtMostTwoReserved(env, raw, s);
    if s.Signed? { SubmissionKeepsTransaction(env, raw, s.tx); }
  }

  lemma {:induction false} AtMostTwoReserved(env: Env, raw: bool, s: Signed)
    ensures |Run(Submission(env, raw), s, 0, NOTHING).log.reserved| <= 2
  {
    if s.Signed? {
      SubmissionKeepsTransaction(env, raw, s.tx);
    } else {
      forall x: Signed, k: nat ensures ReservesRarely(TakeTurn(env, raw, x, k), x, k) {
        TurnReservesRarely(env, raw, x, k);
      }
      FewReserved(Submission(env, raw), s, 0, NOTHING);
    }
  }

  /** A turn reserves a nonce only for what cannot be parsed; then it goes on with something parsable, or this is
      the first turn, or it stops. */
  predicate ReservesRarely(step: Step, s: Signed, k: nat) {
    && |step.reserved| <= (if s.Garbled? then 1 else 0)
    && (step.GoOn? && step.reserved != [] ==> step.next.Signed? || k == 0)
    && (step.GoOn? && s.Signed? ==> step.next.Signed?)
  }

  lemma TurnReservesRarely(env: Env, raw: bool, s: Signed, k: nat)
    ensures ReservesRarely(TakeTurn(env, raw, s, k), s, k)
  {
    var t := env.turns(k);
    var error := TurnError(t, raw);
    if error.Some? {
      FallbackRetriesOnce(error.value);
      HandlersReserveRarely(env, t, ClassifyError(error.value), if raw then [s] else [], s, k);
    }
  }

  lemma HandlersReserveRarely(env: Env, t: Turn, c: Classification, sent: seq<Signed>, s: Signed, k: nat)
    requires c.action == FallbackToType2 ==> c.maxRetries == 1
    ensures ReservesRarely(AfterError(env, t, c, sent, s, k), s, k)
  {}

  lemma FallbackRetriesOnce(e: RpcError)
    ensures ClassifyError(e).action == FallbackToType2 ==> ClassifyError(e).maxRetries == 1
  {}

  lemma {:induction false} FewReserved(turns: Turns, s: Signed, k: nat, log: Log)
    requires forall x: Signed, i: nat :: ReservesRarely(turns(x, i), x, i)
    requires |log.reserved| <= (if s.Signed? then 2 else if k == 0 then 0 else 1)
    ensures |Run(turns, s, k, log).log.reserved| <= 2
    decreases MAX_RETRIES + 1 - k
  {
    if k <= MAX_RETRIES {
      var step := turns(s, k);
      assert ReservesRarely(step, s, k);
      if step.GoOn? { FewReserved(turns, step.next, k + 1, Noted(log, step)); }
    }
  }

  predicate FallsBack(step: Step) {
    step.GoOn? && step.fallsBack
  }

  /** A fallback is taken only in a turn that calls for it. */
  lemma {:induction false} FallbackHasCause(turns: Turns, s: Signed, k: nat, log: Log)
    requires k <= MAX_RETRIES + 1 && !log.fellBack && Run(turns, s, k, log).log.fellBack
    ensures exists i: nat, x: Signed :: k <= i <= MAX_RETRIES && FallsBack(turns(x, i))
    decreases MAX_RETRIES + 1 - k
  {
    if k <= MAX_RETRIES {
      var step := turns(s, k);
      if !FallsBack(step) { FallbackHasCause(turns, step.next, k + 1, Noted(log, step)); }
    }
  }

  /** Without the error that calls for a fallback, every transaction sent is the same call as the original. */
  lemma {:induction false} SameCallWithoutFallbackError(env: Env, original: Tx)
    requires forall i: nat | i <= MAX_RETRIES && env.turns(i).reply.Error? ::
               ClassifyError(env.turns(i).reply.error).action != FallbackToType2
    ensures forall x | x in Run(Submission(env, true), Signed(original), 0, NOTHING).log.sent ::
              Keeps(env.wallet, original, false, x)
  {
    SubmissionKeepsTransaction(env, true, original);
    var end := Run(Submission(env, true), Signed(original), 0, NOTHING).log;
    if end.fellBack {
      FallbackHasCause(Submission(env, true), Signed(original), 0, NOTHING);
      var i: nat, x: Signed :| i <= MAX_RETRIES && FallsBack(Submission(env, true)(x, i));
      FallbackNeedsItsError(env, x, i);
    }
  }

  lemma FallbackNeedsItsError(env: Env, s: Signed, k: nat)
    requires FallsBack(TakeTurn(env, true, s, k))
    ensures env.turns(k).reply.Error? && ClassifyError(env.turns(k).reply.error).action == FallbackToType2
  {}

  lemma {:induction false} InvalidRawIsNotKnown()
    ensures ClassifyError(INVALID_RAW).action != AcceptSuccess
  {
    NoLetterE();
    LowerAddsNoLetter(INVALID_RAW.message);
    assert "already known"[3] == 'e';
    ForeignLetter(ToLower(INVALID_RAW.message), "already known", 'e');
    if ClassifyError(INVALID_RAW).action == AcceptSuccess { KnownSaysSo(INVALID_RAW); }
  }

  lemma KnownSaysSo(e: RpcError)
    requires ClassifyError(e).action == AcceptSuccess
    ensures Contains(ToLower(e.message), "already known")
  {}

  lemma NoLetterE()
    ensures 'e' !in "invalid-raw-tx" && 'E' !in "invalid-raw-tx"
  {
    assert "invalid-raw-tx" == "inva" + "lid-" + "raw-" + "tx";
    assert 'e' !in "inva" && 'e' !in "lid-" && 'e' !in "raw-" && 'e' !in "tx";
    assert 'E' !in "inva" && 'E' !in "lid-" && 'E' !in "raw-" && 'E' !in "tx";
  }

  lemma LowerAddsNoLetter(s: string)
    requires 'e' !in s && 'E' !in s
    ensures 'e' !in ToLower(s)
  {
    forall i | 0 <= i < |s| ensures ToLower(s)[i] != 'e' { assert s[i] in s; }
  }

  /** A text is not contained in one that lacks a letter of it. */
  lemma {:induction false} ForeignLetter(s: string, part: string, c: char)
    requires c in part && c !in s
    ensures !Contains(s, part)
  {
    if s != "" { ForeignLetter(s[1..], part, c); }
  }

  /** A text that does not look like a raw transaction is never sent, whatever is signed in its place: the look is taken
      once, before the loop. */
  lemma {:induction false} NotRawIsNeverSent(env: Env, s: Signed)
    ensures var o := Run(Submission(env, false), s, 0, NOTHING);
            o.log.sent == [] && o.result == Err
  {
    InvalidRawIsNotKnown();
    forall x: Signed, k: nat ensures SendsNothing(TakeTurn(env, false, x, k)) {
      UnknownSendsNothing(env, env.turns(k), ClassifyError(INVALID_RAW), x, k);
    }
    NothingSent(Submission(env, false), s, 0, NOTHING);
  }

  lemma UnknownSendsNothing(env: Env, t: Turn, c: Classification, s: Signed, k: nat)
    requires c.action != AcceptSuccess
    ensures SendsNothing(AfterError(env, t, c, [], s, k))
  {}

  predicate SendsNothing(step: Step) {
    step.sent == [] && (step.Stop? ==> step.hash == "")
  }

  lemma {:induction false} NothingSent(turns: Turns, s: Signed, k: nat, log: Log)
    requires forall x: Signed, i: nat :: SendsNothing(turns(x, i))
    ensures var o := Run(turns, s, k, log); o.log.sent == log.sent && o.result == Err
    decreases MAX_RETRIES + 1 - k
  {
    if k <= MAX_RETRIES {
      var step := turns(s, k);
      assert SendsNothing(step);
      if step.GoOn? { NothingSent(turns, step.next, k + 1, Noted(log, step)); }
    }
  }

  predicate EndsWith(env: Env, reply: Reply, last: Signed, hash: string) {
    || reply == Accepted(hash)
    || (reply.Error? && ClassifyError(reply.error).action == AcceptSuccess
        && last.Signed? && hash == env.hashOf(last.tx))
  }

  /** A turn that ends with a hash sends its transaction. */
  predicate HashMeansSent(step: Step, s: Signed) {
    step.Stop? && step.hash != "" ==> step.sent == [s]
  }

  /** A hash is returned only for the last transaction sent: it was accepted under that hash, or is already known and
      has it. */
  lemma {:induction false} HashIsOfLastSent(env: Env, s: Signed) returns (i: nat)
    requires Run(Submission(env, true), s, 0, NOTHING).result.Ok?
    ensures var o := Run(Submission(env, true), s, 0, NOTHING);
            |o.log.sent| > 0 && i <= MAX_RETRIES
            && EndsWith(env, env.turns(i).reply, o.log.sent[|o.log.sent| - 1], o.result.value)
  {
    forall x: Signed, k: nat ensures HashMeansSent(TakeTurn(env, true, x, k), x) {
      KnownMeansSent(env, x, k);
    }
    i := LastSentStops(Submission(env, true), s, 0, NOTHING);
    var sent := Run(Submission(env, true), s, 0, NOTHING).log.sent;
    KnownMeansSent(env, sent[|sent| - 1], i);
  }

  lemma KnownMeansSent(env: Env, s: Signed, k: nat)
    ensures HashMeansSent(TakeTurn(env, true, s, k), s)
    ensures var step := TakeTurn(env, true, s, k);
            step.Stop? && step.hash != "" ==> EndsWith(env, env.turns(k).reply, s, step.hash)
  {
    var t := env.turns(k);
    if t.reply.Error? { KnownAfterError(env, t, ClassifyError(t.reply.error), [s], s, k); }
  }

  lemma KnownAfterError(env: Env, t: Turn, c: Classification, sent: seq<Signed>, s: Signed, k: nat)
    ensures var step := AfterError(env, t, c, sent, s, k);
            && step.sent == sent
            && (step.Stop? && step.hash != "" ==>
                  c.action == AcceptSuccess && s.Signed? && step.hash == env.hashOf(s.tx))
  {}

  lemma {:induction false} LastSentStops(turns: Turns, s: Signed, k: nat, log: Log) returns (i: nat)
    requires k <= MAX_RETRIES + 1 && Run(turns, s, k, log).result.Ok?
    requires forall x: Signed, i: nat :: HashMeansSent(turns(x, i), x)
    ensures var o := Run(turns, s, k, log);
            |o.log.sent| > 0 && i <= MAX_RETRIES
            && var step := turns(o.log.sent[|o.log.sent| - 1], i);
               step.Stop? && step.hash == o.result.value != ""
    decreases MAX_RETRIES + 1 - k
  {
    var step := turns(s, k);
    if step.GoOn? {
      i := LastSentStops(turns, step.next, k + 1, Noted(log, step));
    } else {
      i := k;
      assert HashMeansSent(step, s);
      var sent := Run(turns, s, k, log).log.sent;
      assert sent[|sent| - 1] == s;
    }
  }
}
