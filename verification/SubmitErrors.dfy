/** What each kind of error leads to in a submission, in terms of the error's text and of the transactions sent. */
module SubmitErrors {
  import opened Prelude
  import opened SubmitRetry

  /** The text occurs in the error's message, in whatever case. */
  predicate Mentions(e: RpcError, text: string) {
    Contains(ToLower(e.message), text)
  }

  predicate SaysUnderpriced(e: RpcError) {
    Mentions(e, "replacement transaction underpriced") || Mentions(e, "transaction underpriced")
  }

  predicate SaysNonceTooLow(e: RpcError) {
    Mentions(e, "nonce too low") || (e.code == Some(-32000) && Mentions(e, "nonce"))
  }

  predicate SaysNoFunds(e: RpcError) {
    Mentions(e, "insufficient funds") || Mentions(e, "not enough funds")
  }

  predicate SaysUnsupported(e: RpcError) {
    || Mentions(e, "transaction type not supported") || Mentions(e, "rlp: expected input list")
    || Mentions(e, "invalid-raw-tx")
  }

  predicate SaysBusy(e: RpcError) {
    Mentions(e, "timeout") || Mentions(e, "network") || e.code == Some(-32005)
  }

  /** The base fee of a turn; a missing or zero one counts as one gwei. */
  function BaseFee(t: Turn): int {
    if t.baseFee.None? || t.baseFee.value == 0 then 1_000_000_000 else t.baseFee.value
  }

  /** Twice the base fee and a tip of one gwei. */
  function NetworkFee(t: Turn): int {
    2 * BaseFee(t) + 1_000_000_000
  }

  /** The submission of a text that looks raw. */
  function TextSubmitted(env: Env, s: Signed): Outcome {
    Run(Submission(env, true), s, 0, NOTHING)
  }

  /** That of one that parses as `original`. */
  function Submitted(env: Env, original: Tx): Outcome {
    TextSubmitted(env, Signed(original))
  }

  function Sent(env: Env, original: Tx): seq<Signed> {
    Submitted(env, original).log.sent
  }

  /** The `i`-th send is answered with the error. */
  predicate Fails(env: Env, original: Tx, i: nat, e: RpcError) {
    i < |Sent(env, original)| && env.turns(i).reply == Error(e)
  }

  /** Nothing more is sent, and the submission fails. */
  predicate GivesUp(env: Env, original: Tx, i: nat) {
    |Sent(env, original)| == i + 1 && Submitted(env, original).result == Err
  }

  /** The same transaction is sent again, if this is one of the first so many sends; otherwise nothing more is. */
  predicate SentAgain(env: Env, original: Tx, i: nat, times: nat) {
    if i < times then |Sent(env, original)| > i + 1 && Sent(env, original)[i + 1] == Sent(env, original)[i]
    else GivesUp(env, original, i)
  }

  /** Another transaction is sent next, or, after the sixth send, nothing. */
  predicate SendsNext(env: Env, original: Tx, i: nat, next: Signed) {
    if i < 5 then |Sent(env, original)| > i + 1 && Sent(env, original)[i + 1] == next else GivesUp(env, original, i)
  }

  // ---- texts ----

  /** A text is contained exactly when it starts somewhere. */
  lemma {:induction false} ContainsMeans(s: string, text: string)
    ensures Contains(s, text) <==> exists i :: 0 <= i <= |s| && text <= s[i..]
  {
    assert s[0..] == s;
    if s != [] {
      ContainsMeans(s[1..], text);
      assert forall i | 0 < i <= |s| :: s[i..] == s[1..][i - 1..];
      if i :| 0 <= i <= |s[1..]| && text <= s[1..][i..] { assert s[i + 1..] == s[1..][i..]; }
    }
  }

  /** The classification in terms of what the message says. */
  lemma Classified(e: RpcError)
    ensures ClassifyError(e) ==
              if Mentions(e, "already known") then Classification(AcceptSuccess, false, 0)
              else if SaysUnderpriced(e) then Classification(BumpFeeRetry, true, 3)
              else if SaysNonceTooLow(e) then Classification(RefreshNonceReschedule, true, 2)
              else if SaysNoFunds(e) then Classification(HardFail, false, 0)
              else if SaysUnsupported(e) then Classification(FallbackToType2, true, 1)
              else if SaysBusy(e) then Classification(BackoffRetry, true, 3)
              else Classification(BackoffRetry, true, 1)
  {}

  // ---- the run, send by send ----

  /** What is sent after the `i`-th send, whose turn gives the step, and how the run ends if nothing is. */
  predicate GoesOn(o: Outcome, i: nat, step: Step) {
    if step.Stop? then |o.log.sent| == i + 1 && o.result == (if step.hash == "" then Err else Ok(step.hash))
    else if i == 5 then |o.log.sent| == 6 && o.result == Err
    else |o.log.sent| > i + 1 && o.log.sent[i + 1] == step.next
  }

  predicate Follows(env: Env, o: Outcome, i: nat)
    requires i < |o.log.sent|
  {
    GoesOn(o, i, TakeTurn(env, true, o.log.sent[i], i))
  }

  lemma SendsItsOwn(env: Env, s: Signed, k: nat)
    ensures TakeTurn(env, true, s, k).sent == [s]
  {}

  /** The outcome's sends start with these. */
  predicate StartsWith(o: Outcome, sent: seq<Signed>) {
    |sent| <= |o.log.sent| <= 6 && o.log.sent[..|sent|] == sent
  }

  lemma StartsWithLess(o: Outcome, sent: seq<Signed>, s: Signed)
    requires StartsWith(o, sent + [s])
    ensures StartsWith(o, sent) && |sent| < |o.log.sent| && o.log.sent[|sent|] == s
  {
    var n, all := |sent|, o.log.sent;
    assert all[..n] == all[..n + 1][..n] && all[n] == all[..n + 1][n];
  }

  lemma RunUnfolds(env: Env, s: Signed, k: nat, log: Log)
    requires k < 6
    ensures var step := TakeTurn(env, true, s, k);
            && Noted(log, step).sent == log.sent + [s]
            && Run(Submission(env, true), s, k, log)
               == if step.Stop? then Finished(step.hash, Noted(log, step))
                  else Run(Submission(env, true), step.next, k + 1, Noted(log, step))
  {
    SendsItsOwn(env, s, k);
  }

  /** A run keeps what was sent before, and goes on with `s`. */
  lemma {:induction false} RunKeepsSent(env: Env, s: Signed, k: nat, log: Log)
    requires |log.sent| == k < 6
    ensures StartsWith(Run(Submission(env, true), s, k, log), log.sent + [s])
    decreases 6 - k
  {
    var step := TakeTurn(env, true, s, k);
    var noted := Noted(log, step);
    RunUnfolds(env, s, k, log);
    if step.Stop? {
      assert noted.sent[..k + 1] == noted.sent;
    } else if k + 1 < 6 {
      RunKeepsSent(env, step.next, k + 1, noted);
      StartsWithLess(Run(Submission(env, true), step.next, k + 1, noted), noted.sent, step.next);
    } else {
      assert Run(Submission(env, true), step.next, 6, noted) == Outcome(Err, noted);
      assert noted.sent[..k + 1] == noted.sent;
    }
  }

  lemma {:induction false} RunStarts(env: Env, s: Signed, k: nat, log: Log)
    requires |log.sent| == k <= 6
    ensures var sent := Run(Submission(env, true), s, k, log).log.sent;
            && k <= |sent| <= 6 && (k < 6 ==> k < |sent| && sent[k] == s)
    ensures k == 6 ==> Run(Submission(env, true), s, k, log) == Outcome(Err, log)
  {
    if k < 6 {
      RunKeepsSent(env, s, k, log);
      StartsWithLess(Run(Submission(env, true), s, k, log), log.sent, s);
    }
  }

  lemma {:induction false} FollowsNow(env: Env, s: Signed, k: nat, log: Log)
    requires |log.sent| == k < 6
    ensures var o := Run(Submission(env, true), s, k, log);
            k < |o.log.sent| && Follows(env, o, k)
  {
    RunStarts(env, s, k, log);
    SendsItsOwn(env, s, k);
    var step := TakeTurn(env, true, s, k);
    if step.GoOn? { RunStarts(env, step.next, k + 1, Noted(log, step)); }
  }

  lemma {:induction false} RunFollows(env: Env, s: Signed, k: nat, log: Log, i: nat)
    requires |log.sent| == k <= i < |Run(Submission(env, true), s, k, log).log.sent| && k < 6
    ensures Follows(env, Run(Submission(env, true), s, k, log), i)
    decreases 6 - k
  {
    if i == k {
      FollowsNow(env, s, k, log);
    } else {
      LaterRun(env, s, k, log, i);
      var step := TakeTurn(env, true, s, k);
      RunFollows(env, step.next, k + 1, Noted(log, step), i);
    }
  }

  /** A run with a later send goes on after this turn, and is the run from there. */
  lemma {:induction false} LaterRun(env: Env, s: Signed, k: nat, log: Log, i: nat)
    requires |log.sent| == k < i < |Run(Submission(env, true), s, k, log).log.sent| && k < 6
    ensures var step := TakeTurn(env, true, s, k);
            && step.GoOn? && |Noted(log, step).sent| == k + 1 < 6
            && Run(Submission(env, true), s, k, log) == Run(Submission(env, true), step.next, k + 1, Noted(log, step))
  {
    var step := TakeTurn(env, true, s, k);
    SendsItsOwn(env, s, k);
    if step.GoOn? { RunStarts(env, step.next, k + 1, Noted(log, step)); }
  }

  /** The `i`-th send of a submission, and what its turn makes of it. */
  lemma {:induction false} SendFollows(env: Env, original: Tx, i: nat)
    requires i < |Sent(env, original)|
    ensures i <= 5 && Follows(env, Submitted(env, original), i)
    ensures Sent(env, original)[i].Signed? && Sent(env, original)[i].tx.nonce == original.nonce
  {
    RunStarts(env, Signed(original), 0, NOTHING);
    RunFollows(env, Signed(original), 0, NOTHING, i);
    SubmissionKeepsTransaction(env, true, original);
    assert Sent(env, original)[i] in Sent(env, original);
  }

  /** The first send is the transaction itself. */
  lemma {:induction false} FirstSend(env: Env, original: Tx)
    ensures |Sent(env, original)| >= 1 && Sent(env, original)[0] == Signed(original)
  {
    RunStarts(env, Signed(original), 0, NOTHING);
  }

  // ---- what each error leads to ----

  /** The next turn after a failed send, given what the error is classified as. */
  lemma AfterFailure(env: Env, original: Tx, i: nat, e: RpcError, c: Classification)
    requires Fails(env, original, i, e) && ClassifyError(e) == c
    ensures i <= 5 && Sent(env, original)[i].Signed? && Sent(env, original)[i].tx.nonce == original.nonce
    ensures var s := Sent(env, original)[i];
            GoesOn(Submitted(env, original), i, AfterError(env, env.turns(i), c, [s], s, i))
  {
    SendFollows(env, original, i);
    FailedTurn(env, Sent(env, original)[i], i, e);
  }

  lemma FailedTurn(env: Env, s: Signed, i: nat, e: RpcError)
    requires env.turns(i).reply == Error(e)
    ensures TakeTurn(env, true, s, i) == AfterError(env, env.turns(i), ClassifyError(e), [s], s, i)
  {}

  lemma AcceptedTurn(env: Env, s: Signed, i: nat)
    requires env.turns(i).reply.Accepted?
    ensures TakeTurn(env, true, s, i) == Stop(env.turns(i).reply.hash, [s], [])
  {}

  /** An accepted transaction is the last one sent. */
  lemma AfterAcceptance(env: Env, original: Tx, i: nat)
    requires i < |Sent(env, original)| && env.turns(i).reply.Accepted?
    ensures |Sent(env, original)| == i + 1
    ensures var hash := env.turns(i).reply.hash;
            Submitted(env, original).result == if hash == "" then Err else Ok(hash)
  {
    SendFollows(env, original, i);
    AcceptedTurn(env, Sent(env, original)[i], i);
  }

  /** "already known": the transaction counts as sent, under its own hash. */
  lemma AfterKnown(env: Env, original: Tx, i: nat, e: RpcError)
    requires Fails(env, original, i, e) && Mentions(e, "already known")
    ensures |Sent(env, original)| == i + 1 && Sent(env, original)[i].Signed?
    ensures var hash := env.hashOf(Sent(env, original)[i].tx);
            Submitted(env, original).result == if hash == "" then Err else Ok(hash)
  {
    Classified(e);
    AfterFailure(env, original, i, e, Classification(AcceptSuccess, false, 0));
  }

  /** A bumped fee: the least whole one above 112.5% of the network's, for the same call and nonce. */
  predicate BumpedFrom(env: Env, t: Turn, was: Tx, next: Tx) {
    && 8 * next.maxFeePerGas > 9 * NetworkFee(t) >= 8 * (next.maxFeePerGas - 1)
    && 8 * next.maxPriorityFeePerGas > 9_000_000_000 >= 8 * (next.maxPriorityFeePerGas - 1)
    && SameCall(env, was, next)
  }

  /** Exactly the network's fees, for the same call and nonce. */
  predicate RepricedFrom(env: Env, t: Turn, was: Tx, next: Tx) {
    next.maxFeePerGas == NetworkFee(t) && next.maxPriorityFeePerGas == 1_000_000_000 && SameCall(env, was, next)
  }

  /** Signed by the wallet, with the same nonce, gas, value and data, for the same recipient or else the wallet. */
  predicate SameCall(env: Env, was: Tx, next: Tx) {
    && env.wallet.Some? && next.from == env.wallet && next.nonce == was.nonce && next.gasLimit == was.gasLimit
    && next.value == was.value && next.data == was.data
    && next.to == Some(if was.to.Some? then was.to.value else env.wallet.value)
  }

  /** An empty payment to the wallet itself, under the same nonce. */
  predicate StandsIn(env: Env, t: Turn, was: Tx, next: Tx) {
    && env.wallet.Some? && next.from == next.to == env.wallet && next.nonce == was.nonce
    && next.gasLimit == 21_000 && next.value == 0 && next.data == "0x"
    && next.maxFeePerGas == NetworkFee(t) && next.maxPriorityFeePerGas == 1_000_000_000
  }

  lemma Repeats(env: Env, t: Turn, c: Classification, s: Signed, i: nat)
    requires c.retryable
    requires || (c.action == BackoffRetry)
             || (c.action in {BumpFeeRetry, RefreshNonceReschedule, FallbackToType2} && s.Signed?
                 && (env.wallet.None? || !t.signs || (c.action == RefreshNonceReschedule && !t.refreshes)))
    ensures AfterError(env, t, c, [s], s, i)
         == if i < c.maxRetries then GoOn(s, [s], [], false) else Stop("", [s], [])
  {}

  lemma FeesOfNetwork(t: Turn)
    ensures GetInitialFees(t.baseFee) == Fees(NetworkFee(t), 1_000_000_000)
  {}

  lemma Bumps(env: Env, t: Turn, c: Classification, s: Signed, i: nat) returns (next: Tx)
    requires c.action == BumpFeeRetry && env.wallet.Some? && t.signs && s.Signed?
    ensures AfterError(env, t, c, [s], s, i) == GoOn(Signed(next), [s], [], false)
    ensures BumpedFrom(env, t, s.tx, next)
  {
    FeesOfNetwork(t);
    BumpRaisesByAnEighth(GetInitialFees(t.baseFee));
    next := HandleBumpFee(env, t, s).signed.tx;
  }

  lemma Reprices(env: Env, t: Turn, c: Classification, s: Signed, i: nat) returns (next: Tx)
    requires c.action == RefreshNonceReschedule && env.wallet.Some? && t.signs && t.refreshes && s.Signed?
    ensures AfterError(env, t, c, [s], s, i) == GoOn(Signed(next), [s], [], false)
    ensures RepricedFrom(env, t, s.tx, next)
  {
    FeesOfNetwork(t);
    next := HandleRefreshNonce(env, t, s).signed.tx;
  }

  lemma Replaces(env: Env, t: Turn, c: Classification, s: Signed, i: nat) returns (next: Tx)
    requires c.action == FallbackToType2 && env.wallet.Some? && t.signs && s.Signed?
    ensures AfterError(env, t, c, [s], s, i) == GoOn(Signed(next), [s], [], true)
    ensures StandsIn(env, t, s.tx, next)
  {
    FeesOfNetwork(t);
    next := HandleFallback(env, t, s).signed.tx;
  }

  /** "underpriced": sent next with bumped fees; without a wallet or signature again as it is, after the first three
      sends. */
  lemma AfterUnderpriced(env: Env, original: Tx, i: nat, e: RpcError) returns (next: Tx)
    requires Fails(env, original, i, e) && SaysUnderpriced(e) && !Mentions(e, "already known")
    ensures Sent(env, original)[i].Signed? && Sent(env, original)[i].tx.nonce == original.nonce
    ensures env.wallet.Some? && env.turns(i).signs ==>
              && SendsNext(env, original, i, Signed(next))
              && BumpedFrom(env, env.turns(i), Sent(env, original)[i].tx, next)
    ensures !(env.wallet.Some? && env.turns(i).signs) ==> SentAgain(env, original, i, 3)
  {
    var c := Classification(BumpFeeRetry, true, 3);
    Classified(e);
    AfterFailure(env, original, i, e, c);
    var t, s := env.turns(i), Sent(env, original)[i];
    if env.wallet.Some? && t.signs {
      next := Bumps(env, t, c, s, i);
    } else {
      next := s.tx;
      Repeats(env, t, c, s, i);
    }
  }

  /** "nonce too low" alone: sent next at exactly the network's fees, if the refresh succeeded; otherwise again as
      it is, after the first two sends. */
  lemma AfterNonceTooLow(env: Env, original: Tx, i: nat, e: RpcError) returns (next: Tx)
    requires Fails(env, original, i, e) && SaysNonceTooLow(e) && !Mentions(e, "already known") && !SaysUnderpriced(e)
    ensures Sent(env, original)[i].Signed? && Sent(env, original)[i].tx.nonce == original.nonce
    ensures env.wallet.Some? && env.turns(i).refreshes && env.turns(i).signs ==>
              && SendsNext(env, original, i, Signed(next))
              && RepricedFrom(env, env.turns(i), Sent(env, original)[i].tx, next)
    ensures !(env.wallet.Some? && env.turns(i).refreshes && env.turns(i).signs) ==> SentAgain(env, original, i, 2)
  {
    var c := Classification(RefreshNonceReschedule, true, 2);
    Classified(e);
    AfterFailure(env, original, i, e, c);
    var t, s := env.turns(i), Sent(env, original)[i];
    if env.wallet.Some? && t.refreshes && t.signs {
      next := Reprices(env, t, c, s, i);
    } else {
      next := s.tx;
      Repeats(env, t, c, s, i);
    }
  }

  /** "insufficient funds" alone: nothing more is sent, and the submission fails. */
  lemma AfterNoFunds(env: Env, original: Tx, i: nat, e: RpcError)
    requires Fails(env, original, i, e) && SaysNoFunds(e)
    requires !Mentions(e, "already known") && !SaysUnderpriced(e) && !SaysNonceTooLow(e)
    ensures GivesUp(env, original, i)
  {
    Classified(e);
    AfterFailure(env, original, i, e, Classification(HardFail, false, 0));
  }

  /** "transaction type not supported" alone: an empty payment of the wallet to itself takes its place. */
  lemma AfterUnsupported(env: Env, original: Tx, i: nat, e: RpcError) returns (next: Tx)
    requires Fails(env, original, i, e) && SaysUnsupported(e)
    requires !Mentions(e, "already known") && !SaysUnderpriced(e) && !SaysNonceTooLow(e) && !SaysNoFunds(e)
    ensures Sent(env, original)[i].Signed? && Sent(env, original)[i].tx.nonce == original.nonce
    ensures env.wallet.Some? && env.turns(i).signs ==>
              SendsNext(env, original, i, Signed(next)) && StandsIn(env, env.turns(i), Sent(env, original)[i].tx, next)
    ensures !(env.wallet.Some? && env.turns(i).signs) ==> SentAgain(env, original, i, 1)
  {
    var c := Classification(FallbackToType2, true, 1);
    Classified(e);
    AfterFailure(env, original, i, e, c);
    var t, s := env.turns(i), Sent(env, original)[i];
    if env.wallet.Some? && t.signs {
      next := Replaces(env, t, c, s, i);
    } else {
      next := s.tx;
      Repeats(env, t, c, s, i);
    }
  }

  /** "timeout" or "network" alone, after the first three sends, and anything else after the first: the same transaction
      is sent again. */
  lemma AfterOther(env: Env, original: Tx, i: nat, e: RpcError)
    requires Fails(env, original, i, e) && !Mentions(e, "already known") && !SaysUnderpriced(e)
    requires !SaysNonceTooLow(e) && !SaysNoFunds(e) && !SaysUnsupported(e)
    ensures SentAgain(env, original, i, if SaysBusy(e) then 3 else 1)
  {
    var c := Classification(BackoffRetry, true, if SaysBusy(e) then 3 else 1);
    Classified(e);
    AfterFailure(env, original, i, e, c);
    Repeats(env, env.turns(i), c, Sent(env, original)[i], i);
  }

  // ---- a text that cannot be parsed ----

  /** "transaction type not supported" for a text that cannot be parsed: an empty payment of the wallet to itself takes
      its place, under a nonce reserved for it. */
  lemma GarbledIsReplaced(env: Env, i: nat, e: RpcError) returns (next: Tx)
    requires var sent := TextSubmitted(env, Garbled).log.sent; i < |sent| && sent[i] == Garbled
    requires env.turns(i).reply == Error(e) && SaysUnsupported(e)
    requires !Mentions(e, "already known") && !SaysUnderpriced(e) && !SaysNonceTooLow(e) && !SaysNoFunds(e)
    requires env.wallet.Some? && env.turns(i).signs && env.turns(i).nextNonce.Some?
    ensures GoesOn(TextSubmitted(env, Garbled), i,
                   GoOn(Signed(next), [Garbled], [env.turns(i).nextNonce.value], true))
    ensures next.nonce == env.turns(i).nextNonce.value && StandsIn(env, env.turns(i), next, next)
  {
    var c := Classification(FallbackToType2, true, 1);
    RunStarts(env, Garbled, 0, NOTHING);
    RunFollows(env, Garbled, 0, NOTHING, i);
    Classified(e);
    FailedTurn(env, Garbled, i, e);
    next := StandInForGarbled(env, env.turns(i), c, i);
  }

  lemma StandInForGarbled(env: Env, t: Turn, c: Classification, i: nat) returns (next: Tx)
    requires c.action == FallbackToType2 && env.wallet.Some? && t.signs && t.nextNonce.Some?
    ensures AfterError(env, t, c, [Garbled], Garbled, i)
         == GoOn(Signed(next), [Garbled], [t.nextNonce.value], true)
    ensures next.nonce == t.nextNonce.value && StandsIn(env, t, next, next)
  {
    FeesOfNetwork(t);
    next := HandleFallback(env, t, Garbled).signed.tx;
  }
}
