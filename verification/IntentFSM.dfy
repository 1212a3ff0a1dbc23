/** The ladder of an intent's states and the calls that move an intent along it. */
module IntentFSM {
  import opened Prelude
  import opened IntentStore

  /** The table of single steps. */
  function Allowed(s: IntentState): set<IntentState> {
    match s
    case RECEIVED => {SCREENED}
    case SCREENED => {VALIDATED, REJECTED}
    case VALIDATED => {ENRICHED, REJECTED}
    case ENRICHED => {QUEUED, REJECTED}
    case QUEUED => {SUBMITTED}
    case SUBMITTED => {INCLUDED, DROPPED}
    case INCLUDED => {}
    case DROPPED => {}
    case REJECTED => {}
  }

  /** A call up to its suspension: it is over, or it waits to move on to the target. */
  datatype Begun = Over(state: IntentState, ok: bool) | Waiting(target: IntentState)

  function Begin(s: IntentState, target: IntentState): Begun {
    if s == target then Over(s, true)
    else if target !in Allowed(s) then Over(REJECTED, false)
    else Waiting(target)
  }

  /** The rest of a waiting call, whatever the state is by then. */
  function Finish(target: IntentState, advanced: bool): IntentState {
    if advanced then target else REJECTED
  }

  /** A call nothing else runs into: its target and whether the advance it waits for succeeds. */
  datatype Call = Call(target: IntentState, advanced: bool)

  function Next(s: IntentState, c: Call): IntentState {
    match Begin(s, c.target)
    case Over(state, _) => state
    case Waiting(target) => Finish(target, c.advanced)
  }

  class IntentFSM {
    const store: IntentStore

    constructor (store: IntentStore)
      ensures this.store == store
    {
      this.store := store;
    }

    /** `Err` when there is no such intent; otherwise whether the call reports success. */
    method Transition(id: string, target: IntentState, reasonCode: Option<string>, advanced: bool)
      returns (r: Result<bool>)
      modifies store, if id in store.byId then {store.byId[id]} else {}
      ensures id !in old(store.byId) ==> r == Err && store.View() == old(store.View())
      ensures id in old(store.byId) ==>
                var row := old(store.byId)[id];
                var s := old(row.state);
                && row.state == Next(s, Call(target, advanced))
                && r == Ok(s == target || (target in Allowed(s) && advanced))
                && row.reasonCode ==
                   (if s == target then old(row.reasonCode)
                    else if r != Ok(true) then "INTERNAL_ERROR"
                    else if reasonCode.Some? then reasonCode.value
                    else if target == SUBMITTED then "SUBMIT_NOT_ATTEMPTED"
                    else old(row.reasonCode))
                && store.View() == (if s == target then old(store.View()) else WithRow(old(store.View()), row.View()))
    {
      if id !in store.byId { return Err; }
      var row := store.byId[id];
      if row.state == target { return Ok(true); }
      if target !in Allowed(row.state) {
        Write(row, REJECTED, "INTERNAL_ERROR");
        return Ok(false);
      }
      var code := reasonCode;
      if row.state == QUEUED && target == SUBMITTED && code.None? {
        code := Some("SUBMIT_NOT_ATTEMPTED");
      }
      if advanced {
        Write(row, target, if code.Some? then code.value else row.reasonCode);
        return Ok(true);
      }
      Write(row, REJECTED, "INTERNAL_ERROR");
      return Ok(false);
    }

    method Write(row: IntentRow, state: IntentState, reasonCode: string)
      modifies store, row
      ensures row.state == state && row.reasonCode == reasonCode
      ensures store.View() == WithRow(old(store.View()), row.View())
    {
      row.state, row.reasonCode := state, reasonCode;
      store.Put(row);
    }
  }

  // ---- runs ----

  /** How high a state stands; REJECTED is off the ladder. */
  function Rung(s: IntentState): int {
    match s
    case RECEIVED => 0
    case SCREENED => 1
    case VALIDATED => 2
    case ENRICHED => 3
    case QUEUED => 4
    case SUBMITTED => 5
    case INCLUDED => 6
    case DROPPED => 6
    case REJECTED => 7
  }

  /** An intent starts as RECEIVED. */
  function StateAfter(calls: seq<Call>): IntentState {
    if calls == [] then RECEIVED else Next(StateAfter(calls[..|calls| - 1]), calls[|calls| - 1])
  }

  function Changes(calls: seq<Call>): nat {
    if calls == [] then 0 else
    var before := calls[..|calls| - 1];
    Changes(before) + if StateAfter(calls) != StateAfter(before) then 1 else 0
  }

  /** Each call leaves the state, climbs exactly one rung, or falls to REJECTED, where it stays. */
  lemma StepOnLadder(s: IntentState, c: Call)
    ensures var t := Next(s, c);
            && (t == s || t == REJECTED || (s != REJECTED && Rung(t) == Rung(s) + 1))
            && (s == REJECTED ==> t == REJECTED)
            && (t != s && t != REJECTED ==> t == c.target)
            && (t == REJECTED && s != REJECTED ==> c.target == REJECTED || c.target !in Allowed(s) || !c.advanced)
  {}

  /** The table is the ladder: exactly the next rung can be reached, and rejection from the three states in which an
      intent is still being checked. */
  lemma AllowedIsNextRung(s: IntentState, target: IntentState)
    ensures target in Allowed(s) <==>
              || (s != REJECTED && target != REJECTED && Rung(target) == Rung(s) + 1)
              || (target == REJECTED && s in {SCREENED, VALIDATED, ENRICHED})
  {}

  /** What a call makes of a state, exactly. */
  lemma CallOnLadder(s: IntentState, c: Call)
    ensures Next(s, c) ==
              if c.target == s then s
              else if c.advanced && s != REJECTED && c.target != REJECTED && Rung(c.target) == Rung(s) + 1 then c.target
              else REJECTED
  {}

  /** The calls that take an intent up the ladder, one rung each. */
  function Climb(end: IntentState): seq<Call> {
    [Call(SCREENED, true), Call(VALIDATED, true), Call(ENRICHED, true), Call(QUEUED, true), Call(SUBMITTED, true),
     Call(end, true)]
  }

  /** The ladder can be climbed to either end: after `n` of these calls the intent stands on the `n`-th rung. */
  lemma {:induction false} LadderIsClimbed(end: IntentState, n: nat)
    requires end == INCLUDED || end == DROPPED
    requires n <= 6
    ensures StateAfter(Climb(end)[..n]) == if n == 0 then RECEIVED else Climb(end)[n - 1].target
    ensures StateAfter(Climb(end)[..n]) != REJECTED && Rung(StateAfter(Climb(end)[..n])) == n
  {
    if n > 0 {
      LadderIsClimbed(end, n - 1);
      var calls := Climb(end)[..n];
      assert calls[..n - 1] == Climb(end)[..n - 1] && calls[n - 1] == Climb(end)[n - 1];
      CallOnLadder(StateAfter(calls[..n - 1]), calls[n - 1]);
    }
  }

  /** The state changes at most seven times, and an intent that is not rejected has changed once per rung. */
  lemma {:induction false} ChangesCountRungs(calls: seq<Call>)
    ensures Changes(calls) <= Rung(StateAfter(calls)) <= 7
    ensures StateAfter(calls) != REJECTED ==> Changes(calls) == Rung(StateAfter(calls))
  {
    if calls != [] {
      ChangesCountRungs(calls[..|calls| - 1]);
    }
  }

  /** An intent on any rung has been on every lower one, in order. */
  lemma {:induction false} PassedEveryLowerRung(calls: seq<Call>, k: int)
    requires StateAfter(calls) != REJECTED && 0 <= k <= Rung(StateAfter(calls))
    ensures exists n | 0 <= n <= |calls| :: Rung(StateAfter(calls[..n])) == k
  {
    assert calls[..|calls|] == calls;
    if k < Rung(StateAfter(calls)) {
      var before := calls[..|calls| - 1];
      PassedEveryLowerRung(before, k);
      var n :| 0 <= n <= |before| && Rung(StateAfter(before[..n])) == k;
      assert before[..n] == calls[..n];
    }
  }

  /** Once rejected, rejected for the rest of the run. */
  lemma {:induction false} RejectedIsFinal(calls: seq<Call>, n: nat)
    requires n <= |calls| && StateAfter(calls[..n]) == REJECTED
    ensures StateAfter(calls) == REJECTED
  {
    if n == |calls| {
      assert calls[..n] == calls;
    } else {
      var before := calls[..|calls| - 1];
      assert before[..n] == calls[..n];
      RejectedIsFinal(before, n);
    }
  }

  /** The ladder needs calls that do not overlap: a call that waits while another one rejects the intent brings it
      back. */
  lemma OverlapLeavesRejected()
    ensures Begin(SCREENED, VALIDATED) == Waiting(VALIDATED)
    ensures Next(SCREENED, Call(INCLUDED, true)) == REJECTED
    ensures Finish(VALIDATED, true) == VALIDATED
  {}

  /** A waiting call that ends in state `now` makes a step of the ladder exactly when the advance failed, or the
      target is still the state or one rung above it. */
  lemma FinishOnLadder(s: IntentState, now: IntentState, target: IntentState, advanced: bool)
    requires Begin(s, target) == Waiting(target)
    ensures var t := Finish(target, advanced);
            (t == now || t == REJECTED || (now != REJECTED && Rung(t) == Rung(now) + 1))
            <==> !advanced || target == REJECTED || target == now || (now != REJECTED && Rung(now) == Rung(target) - 1)
  {}
}
