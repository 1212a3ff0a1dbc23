/** The nonces of one address: callers queue for a lock, the head of the queue reserves a nonce, and the provider may be
    waited for in between. Every section of code between two waits is one event. */
module NonceProtocol {
  import opened Prelude

  type Caller = nat

  datatype Lease = Lease(nonce: int, txHash: Option<string>)

  /** `next` is the cached next nonce; `woken` are the callers whose lock promise is resolved and who have not gone
      on yet; `waiting` those who hold the lock and wait for the provider. */
  datatype Account = Account(
    next: Option<int>, queue: seq<Caller>, woken: set<Caller>, waiting: set<Caller>, leases: seq<Lease>)

  const FRESH := Account(None, [], {}, {}, [])

  datatype Event =
    | Acquire(caller: Caller)
    | Proceed(caller: Caller)                 // the woken caller goes on
    | Seeded(caller: Caller, count: int)      // the provider answers a waiting caller
    | SeedFails(caller: Caller)
    | Refresh(count: int)                     // the provider has answered a refresh
    | Broadcast(nonce: int, txHash: string)
    | Settle(nonce: int)                      // included or dropped

  predicate Enabled(a: Account, e: Event) {
    match e
    case Acquire(c) => c !in a.queue
    case Proceed(c) => c in a.woken
    case Seeded(c, _) => c in a.waiting
    case SeedFails(c) => c in a.waiting
    case _ => true
  }

  /** Removes the current holder and wakes the next in line. */
  function Released(a: Account): Account {
    if a.queue == [] then a else
    var rest := a.queue[1..];
    a.(queue := rest, woken := if rest == [] then a.woken else a.woken + {rest[0]})
  }

  function Issue(a: Account, nonce: int): Account {
    a.(leases := a.leases + [Lease(nonce, None)], next := Some(nonce + 1))
  }

  function FindLease(leases: seq<Lease>, nonce: int): (i: int)
    ensures -1 <= i < |leases|
    ensures i >= 0 ==> leases[i].nonce == nonce && forall j | 0 <= j < i :: leases[j].nonce != nonce
    ensures i < 0 ==> forall j | 0 <= j < |leases| :: leases[j].nonce != nonce
  {
    if leases == [] then -1
    else if leases[0].nonce == nonce then 0
    else var i := FindLease(leases[1..], nonce); if i < 0 then -1 else i + 1
  }

  function WithoutLease(leases: seq<Lease>, nonce: int): seq<Lease> {
    var i := FindLease(leases, nonce);
    if i < 0 then leases else leases[..i] + leases[i + 1..]
  }

  function Marked(leases: seq<Lease>, nonce: int, txHash: string): seq<Lease> {
    var i := FindLease(leases, nonce);
    if i < 0 then leases else leases[i := leases[i].(txHash := Some(txHash))]
  }

  function Step(a: Account, e: Event): Account
    requires Enabled(a, e)
  {
    match e
    case Acquire(c) =>
      a.(queue := a.queue + [c], woken := if a.queue == [] then a.woken + {c} else a.woken)
    case Proceed(c) =>
      var b := a.(woken := a.woken - {c});
      if a.next.Some? then Released(Issue(b, a.next.value)) else b.(waiting := b.waiting + {c})
    case Seeded(c, count) => Released(Issue(a.(waiting := a.waiting - {c}), count))
    case SeedFails(c) => Released(a.(waiting := a.waiting - {c}))
    case Refresh(count) => a.(next := Some(count))
    case Broadcast(nonce, txHash) => a.(leases := Marked(a.leases, nonce, txHash))
    case Settle(nonce) => a.(leases := WithoutLease(a.leases, nonce))
  }

  /** The nonce an event hands to its caller. */
  function Reserved(a: Account, e: Event): Option<int> {
    match e
    case Proceed(_) => a.next
    case Seeded(_, count) => Some(count)
    case _ => None
  }

  predicate Leaves(a: Account, e: Event) {
    Reserved(a, e).Some? || e.SeedFails?
  }

  // ---- runs ----

  /** An account with what has happened to it: the callers in order of arrival, those that have left in order of
      leaving, the nonces handed out in order, and those of them whose lease has been settled. */
  datatype World = World(account: Account, arrived: seq<Caller>, left: seq<Caller>, issued: seq<int>, settled: set<int>)

  const START := World(FRESH, [], [], [], {})

  function Next(w: World, e: Event): World
    requires Enabled(w.account, e)
  {
    var a := w.account;
    World(Step(a, e),
          if e.Acquire? then w.arrived + [e.caller] else w.arrived,
          if Leaves(a, e) then w.left + [e.caller] else w.left,
          if Reserved(a, e).Some? then w.issued + [Reserved(a, e).value] else w.issued,
          if e.Settle? && FindLease(a.leases, e.nonce) >= 0 then w.settled + {e.nonce} else w.settled)
  }

  /** The worlds of a run: each event is enabled where it happens, and each call is a new caller. */
  ghost predicate IsRun(worlds: seq<World>, events: seq<Event>) {
    && |worlds| == |events| + 1 && worlds[0] == START
    && forall i | 0 <= i < |events| ::
         && Enabled(worlds[i].account, events[i])
         && (events[i].Acquire? ==> events[i].caller !in worlds[i].arrived)
         && worlds[i + 1] == Next(worlds[i], events[i])
  }

  /** Exactly the head of the queue is in the critical section: woken, or waiting for the provider, and not both. */
  ghost predicate OneInside(a: Account) {
    && a.woken + a.waiting == (if a.queue == [] then {} else {a.queue[0]})
    && a.woken !! a.waiting
  }

  ghost predicate LockInv(w: World) {
    && OneInside(w.account)
    && w.left + w.account.queue == w.arrived
    && (forall i, j | 0 <= i < j < |w.arrived| :: w.arrived[i] != w.arrived[j])
  }

  lemma LockStep(w: World, e: Event)
    requires LockInv(w) && Enabled(w.account, e) && (e.Acquire? ==> e.caller !in w.arrived)
    ensures LockInv(Next(w, e))
    ensures Leaves(w.account, e) ==> w.account.queue != [] && e.caller == w.account.queue[0]
  {
    var a := w.account;
    if e.Acquire? {
      assert w.left + (a.queue + [e.caller]) == w.arrived + [e.caller];
    } else if Leaves(a, e) {
      LeaveStep(w, e);
    }
  }

  lemma LeaveStep(w: World, e: Event)
    requires LockInv(w) && Enabled(w.account, e) && Leaves(w.account, e)
    ensures LockInv(Next(w, e)) && w.account.queue != [] && e.caller == w.account.queue[0]
  {
    var a, q := w.account, w.account.queue;
    assert e.caller in a.woken + a.waiting;
    assert q == [q[0]] + q[1..];
    assert w.left + [q[0]] + q[1..] == w.arrived;
    if |q| > 1 {
      assert w.arrived[|w.left|] == q[0] && w.arrived[|w.left| + 1] == q[1];
    }
  }

  /** In every interleaving at most one caller is in the critical section, it is the longest-waiting one, callers
      leave in the order they arrived, and the head of the queue is always awake: no wake-up is lost. */
  lemma {:induction false} LockHolds(worlds: seq<World>, events: seq<Event>, n: nat)
    requires IsRun(worlds, events) && n <= |events|
    ensures LockInv(worlds[n])
  {
    if n > 0 {
      LockHolds(worlds, events, n - 1);
      LockStep(worlds[n - 1], events[n - 1]);
    }
  }

  /** Whoever heads the queue can go on, and leaves by its next step, or by the one after the provider's answer or
      failure. */
  lemma HeadCanLeave(w: World, count: int)
    requires LockInv(w) && w.account.queue != []
    ensures var a, c := w.account, w.account.queue[0];
            if c in a.waiting then
              && Enabled(a, Seeded(c, count)) && Next(w, Seeded(c, count)).left == w.left + [c]
              && Enabled(a, SeedFails(c)) && Next(w, SeedFails(c)).left == w.left + [c]
            else
              && Enabled(a, Proceed(c))
              && (Next(w, Proceed(c)).left == w.left + [c] || c in Next(w, Proceed(c)).account.waiting)
  {
    assert w.account.queue[0] in w.account.woken + w.account.waiting;
  }

  // ---- the nonces ----

  function Nonces(leases: seq<Lease>): seq<int> {
    seq(|leases|, i requires 0 <= i < |leases| => leases[i].nonce)
  }

  ghost predicate Increasing(s: seq<int>) {
    forall i, j | 0 <= i < j < |s| :: s[i] < s[j]
  }

  /** Nothing is cached, or a caller still waits for its seed, only while nothing has been handed out. */
  ghost predicate SeedInv(w: World) {
    && (w.account.next.None? || w.account.waiting != {} ==> w.issued == [])
    && (w.issued == [] ==> w.account.leases == [])
  }

  /** The leases are those of the nonces handed out and not settled, each once and in order. */
  ghost predicate NonceInv(w: World) {
    && SeedInv(w)
    && Increasing(w.issued)
    && Increasing(Nonces(w.account.leases))
    && (forall n :: n in Nonces(w.account.leases) <==> n in w.issued && n !in w.settled)
    && (forall n | n in w.settled :: n in w.issued)
  }

  /** Above the nonce handed out last, if there is one. */
  predicate Above(w: World, nonce: int) {
    w.issued == [] || nonce > w.issued[|w.issued| - 1]
  }

  /** The nonce that an event hands out, if it does, is above those before. */
  predicate HandsOutAbove(w: World, e: Event) {
    Reserved(w.account, e).Some? ==> Above(w, Reserved(w.account, e).value)
  }

  lemma {:induction false} WithoutLeaseSorted(leases: seq<Lease>, nonce: int)
    requires Increasing(Nonces(leases))
    ensures Increasing(Nonces(WithoutLease(leases, nonce)))
    ensures forall n :: n in Nonces(WithoutLease(leases, nonce)) <==> n in Nonces(leases) && n != nonce
  {
    var i := FindLease(leases, nonce);
    var s, t := Nonces(leases), Nonces(WithoutLease(leases, nonce));
    if i >= 0 {
      assert forall j | 0 <= j < |t| :: t[j] == s[if j < i then j else j + 1];
      forall n | n in s && n != nonce ensures n in t {
        var j :| 0 <= j < |s| && s[j] == n;
        assert t[if j < i then j else j - 1] == n;
      }
      forall n | n in t ensures n in s && n != nonce {
        var j :| 0 <= j < |t| && t[j] == n;
        assert s[i] == nonce;
      }
    } else {
      assert forall j | 0 <= j < |s| :: s[j] == leases[j].nonce;
    }
  }

  lemma MarkedNonces(leases: seq<Lease>, nonce: int, txHash: string)
    ensures Nonces(Marked(leases, nonce, txHash)) == Nonces(leases)
  {}

  lemma IssueKeeps(w: World, e: Event, nonce: int)
    requires LockInv(w) && NonceInv(w) && Enabled(w.account, e) && Reserved(w.account, e) == Some(nonce)
    requires Above(w, nonce)
    ensures NonceInv(Next(w, e))
  {
    var w' := Next(w, e);
    var s, t := Nonces(w.account.leases), Nonces(w'.account.leases);
    assert t == s + [nonce];
    assert w'.issued == w.issued + [nonce];
    forall i | 0 <= i < |w.issued| ensures w.issued[i] < nonce {
      if i < |w.issued| - 1 { assert w.issued[i] < w.issued[|w.issued| - 1]; }
    }
    forall i | 0 <= i < |s| ensures s[i] < nonce { assert s[i] in w.issued; }
    assert e.caller in w.account.woken + w.account.waiting;
    assert w'.account.waiting == {};
  }

  lemma NonceStep(w: World, e: Event)
    requires LockInv(w) && NonceInv(w) && Enabled(w.account, e) && HandsOutAbove(w, e)
    ensures NonceInv(Next(w, e))
  {
    match e {
      case Proceed(c) =>
        if w.account.next.Some? { IssueKeeps(w, e, w.account.next.value); }
      case Seeded(c, count) => IssueKeeps(w, e, count);
      case Broadcast(nonce, txHash) => MarkedNonces(w.account.leases, nonce, txHash);
      case Settle(nonce) =>
        WithoutLeaseSorted(w.account.leases, nonce);
        var i := FindLease(w.account.leases, nonce);
        if i >= 0 { assert Nonces(w.account.leases)[i] == nonce; }
        else { assert nonce !in Nonces(w.account.leases); }
      case _ =>
    }
  }

  /** The event sets the cached nonce. */
  predicate Sets(a: Account, e: Event) {
    e.Refresh? || Reserved(a, e).Some?
  }

  /** What the event leaves in the cache. */
  function Cached(a: Account, e: Event): int
    requires Sets(a, e)
  {
    if e.Refresh? then e.count else Reserved(a, e).value + 1
  }

  /** The last event before `n` that set the cached nonce; -1 when none did. */
  function LastSet(worlds: seq<World>, events: seq<Event>, n: nat): (r: int)
    requires |worlds| == |events| + 1 && n <= |events|
    ensures -1 <= r < n && (r >= 0 ==> Sets(worlds[r].account, events[r]))
    ensures forall i | r < i < n :: !Sets(worlds[i].account, events[i])
  {
    if n == 0 then -1
    else if Sets(worlds[n - 1].account, events[n - 1]) then n - 1
    else LastSet(worlds, events, n - 1)
  }

  lemma {:induction false} CacheIsLastSet(worlds: seq<World>, events: seq<Event>, n: nat)
    requires IsRun(worlds, events) && n <= |events|
    ensures var r := LastSet(worlds, events, n);
            if r < 0 then worlds[n].account.next.None? && worlds[n].issued == []
            else
              && worlds[n].account.next == Some(Cached(worlds[r].account, events[r]))
              && worlds[n].issued == worlds[r + 1].issued
  {
    if n > 0 {
      CacheIsLastSet(worlds, events, n - 1);
      CacheStep(worlds[n - 1], events[n - 1]);
    }
  }

  lemma CacheStep(w: World, e: Event)
    requires Enabled(w.account, e)
    ensures Next(w, e).account.next == if Sets(w.account, e) then Some(Cached(w.account, e)) else w.account.next
    ensures Reserved(w.account, e).None? ==> Next(w, e).issued == w.issued
  {}

  lemma {:induction false} SeedHolds(worlds: seq<World>, events: seq<Event>, n: nat)
    requires IsRun(worlds, events) && n <= |events|
    ensures SeedInv(worlds[n])
  {
    if n > 0 {
      SeedHolds(worlds, events, n - 1);
      LockHolds(worlds, events, n - 1);
      SeedStep(worlds[n - 1], events[n - 1]);
    }
  }

  lemma SeedStep(w: World, e: Event)
    requires LockInv(w) && SeedInv(w) && Enabled(w.account, e)
    ensures SeedInv(Next(w, e))
  {
    if e.Proceed? || e.Seeded? || e.SeedFails? {
      assert e.caller in w.account.woken + w.account.waiting;
    }
  }

  /** The refresh at `r` fills the cache from which the caller at `i` takes its nonce. */
  predicate UsedBy(worlds: seq<World>, events: seq<Event>, r: nat, i: nat)
    requires |worlds| == |events| + 1
  {
    r < i < |events| && events[r].Refresh? && events[i].Proceed? && r == LastSet(worlds, events, i)
  }

  /** The refresh used at `i`, if there is one, sets a count above the nonces handed out by then. */
  ghost predicate UsedAbove(worlds: seq<World>, events: seq<Event>, i: nat)
    requires |worlds| == |events| + 1
  {
    forall r: nat | UsedBy(worlds, events, r, i) :: Above(worlds[r], events[r].count)
  }

  /** Every refresh that is used before `n` does so. */
  ghost predicate UsedRefreshesAbove(worlds: seq<World>, events: seq<Event>, n: nat)
    requires |worlds| == |events| + 1
  {
    forall i: nat | i < n :: UsedAbove(worlds, events, i)
  }

  /** A nonce taken from the cache after a refresh is above those before exactly when the refreshed count was; any other
      nonce is above them anyway. */
  lemma {:induction false} AboveExactly(worlds: seq<World>, events: seq<Event>, i: nat)
    requires IsRun(worlds, events) && i < |events|
    ensures HandsOutAbove(worlds[i], events[i]) <==> UsedAbove(worlds, events, i)
  {
    var r := LastSet(worlds, events, i);
    CacheIsLastSet(worlds, events, i);
    SeedHolds(worlds, events, i);
    if events[i].Proceed? && r >= 0 && events[r].Refresh? {
      assert worlds[i].issued == worlds[r].issued;
      assert UsedBy(worlds, events, r, i);
    }
  }

  /** Exactly when the nonces handed out by a run increase, with refreshes anywhere, even while a seed is waited
      for: when every refresh from which a nonce is taken was above those handed out. Then each of them has a lease
      until it is settled, and the leases are sorted. */
  lemma {:induction false} NoncesIncrease(worlds: seq<World>, events: seq<Event>, n: nat)
    requires IsRun(worlds, events) && n <= |events|
    ensures Increasing(worlds[n].issued) <==> UsedRefreshesAbove(worlds, events, n)
    ensures Increasing(worlds[n].issued) ==> NonceInv(worlds[n])
  {
    IncreasingExactly(worlds, events, n);
    if Increasing(worlds[n].issued) { LeasesFollow(worlds, events, n); }
  }

  lemma {:induction false} IncreasingExactly(worlds: seq<World>, events: seq<Event>, n: nat)
    requires IsRun(worlds, events) && n <= |events|
    ensures Increasing(worlds[n].issued) <==> UsedRefreshesAbove(worlds, events, n)
  {
    if n > 0 {
      IncreasingExactly(worlds, events, n - 1);
      IncreasingOn(worlds, events, n - 1);
    }
  }

  lemma {:induction false} IncreasingOn(worlds: seq<World>, events: seq<Event>, i: nat)
    requires IsRun(worlds, events) && i < |events|
    requires Increasing(worlds[i].issued) <==> UsedRefreshesAbove(worlds, events, i)
    ensures Increasing(worlds[i + 1].issued) <==> UsedRefreshesAbove(worlds, events, i + 1)
  {
    AboveExactly(worlds, events, i);
    IncreaseStep(worlds[i], events[i]);
    UsedByLast(worlds, events, i);
  }

  lemma UsedByLast(worlds: seq<World>, events: seq<Event>, i: nat)
    requires |worlds| == |events| + 1
    ensures UsedRefreshesAbove(worlds, events, i + 1) <==>
            UsedRefreshesAbove(worlds, events, i) && UsedAbove(worlds, events, i)
  {}

  lemma {:induction false} LeasesFollow(worlds: seq<World>, events: seq<Event>, n: nat)
    requires IsRun(worlds, events) && n <= |events| && Increasing(worlds[n].issued)
    ensures NonceInv(worlds[n])
  {
    if n > 0 {
      IncreaseStep(worlds[n - 1], events[n - 1]);
      LeasesFollow(worlds, events, n - 1);
      LockHolds(worlds, events, n - 1);
      NonceStep(worlds[n - 1], events[n - 1]);
    }
  }

  lemma IncreaseStep(w: World, e: Event)
    requires Enabled(w.account, e)
    ensures Increasing(Next(w, e).issued) <==> Increasing(w.issued) && HandsOutAbove(w, e)
  {
    CacheStep(w, e);
    if Reserved(w.account, e).Some? { IncreasingAppend(w.issued, Reserved(w.account, e).value); }
  }

  lemma IncreasingAppend(s: seq<int>, x: int)
    ensures Increasing(s + [x]) <==> Increasing(s) && (s == [] || x > s[|s| - 1])
  {
    var t := s + [x];
    if Increasing(t) {
      assert forall i | 0 <= i < |s| :: t[i] == s[i];
      if s != [] { assert t[|s| - 1] < t[|s|]; }
    }
    if Increasing(s) && s != [] && x > s[|s| - 1] {
      forall i | 0 <= i < |s| ensures s[i] < x {
        if i < |s| - 1 { assert s[i] < s[|s| - 1]; }
      }
    }
  }

  ghost predicate CacheAhead(w: World) {
    w.account.next.Some? ==> Above(w, w.account.next.value)
  }

  lemma CacheAheadStep(w: World, e: Event)
    requires LockInv(w) && NonceInv(w) && CacheAhead(w) && Enabled(w.account, e)
    requires e.Refresh? && w.account.next.Some? ==> e.count >= w.account.next.value
    ensures NonceInv(Next(w, e)) && CacheAhead(Next(w, e))
  {
    NonceStep(w, e);
    CacheStep(w, e);
  }

  /** It is enough that no refresh goes below the cached nonce. */
  lemma {:induction false} RefreshesNotBelowCache(worlds: seq<World>, events: seq<Event>, n: nat)
    requires IsRun(worlds, events) && n <= |events|
    requires forall i | 0 <= i < n && events[i].Refresh? && worlds[i].account.next.Some? ::
               events[i].count >= worlds[i].account.next.value
    ensures NonceInv(worlds[n]) && CacheAhead(worlds[n])
  {
    if n > 0 {
      RefreshesNotBelowCache(worlds, events, n - 1);
      LockHolds(worlds, events, n - 1);
      CacheAheadStep(worlds[n - 1], events[n - 1]);
    }
  }

  function PeekLease(a: Account): Option<Lease> {
    if a.leases == [] then None else Some(a.leases[|a.leases| - 1])
  }

  /** A broadcast puts the hash on the lease of its nonce, and on no other. */
  lemma {:induction false} BroadcastMarksLease(w: World, nonce: int, txHash: string)
    requires NonceInv(w)
    ensures var before, after := w.account.leases, Next(w, Broadcast(nonce, txHash)).account.leases;
            && |after| == |before|
            && forall j | 0 <= j < |before| ::
                 after[j] == if before[j].nonce == nonce then Lease(nonce, Some(txHash)) else before[j]
  {
    var before, i := w.account.leases, FindLease(w.account.leases, nonce);
    if i >= 0 {
      forall j | 0 <= j < |before| && j != i ensures before[j].nonce != nonce {
        assert Nonces(before)[i] == nonce && Nonces(before)[j] == before[j].nonce;
      }
    }
  }

  /** Settling takes away the lease of its nonce, and leaves the others with their hashes. */
  lemma {:induction false} SettleKeepsOthers(w: World, nonce: int)
    requires NonceInv(w)
    ensures forall l :: l in Next(w, Settle(nonce)).account.leases <==> l in w.account.leases && l.nonce != nonce
  {
    var before, i := w.account.leases, FindLease(w.account.leases, nonce);
    var after := WithoutLease(before, nonce);
    if i >= 0 {
      forall j | 0 <= j < |before| && j != i ensures before[j].nonce != nonce {
        assert Nonces(before)[i] == nonce && Nonces(before)[j] == before[j].nonce;
      }
      assert before == before[..i] + [before[i]] + before[i + 1..];
    }
  }

  /** The peeked lease is the largest nonce handed out and not settled; there is none only when all are settled. */
  lemma PeekIsLargestOutstanding(w: World)
    requires NonceInv(w)
    ensures var p := PeekLease(w.account);
            && (p.None? <==> forall n | n in w.issued :: n in w.settled)
            && (p.Some? ==>
                  && p.value.nonce in w.issued && p.value.nonce !in w.settled
                  && forall n | n in w.issued && n !in w.settled :: n <= p.value.nonce)
  {
    var s := Nonces(w.account.leases);
    if s != [] {
      assert s[|s| - 1] in s;
      forall n | n in s ensures n <= s[|s| - 1] {
        var i :| 0 <= i < |s| && s[i] == n;
        if i < |s| - 1 { assert s[i] < s[|s| - 1]; }
      }
    }
    assert s == [] <==> w.account.leases == [];
  }

  /** An account with an empty queue, and a caller that acquires and goes on at once. */
  lemma AcquireAndProceed(w: World, c: Caller)
    requires w.account.queue == [] && w.account.woken == {} && w.account.next.Some?
    ensures var w' := Next(w, Acquire(c));
            && Enabled(w'.account, Proceed(c))
            && Next(w', Proceed(c)).issued == w.issued + [w.account.next.value]
            && Next(w', Proceed(c)).account.leases == w.account.leases + [Lease(w.account.next.value, None)]
  {}

  /** A refresh to the count handed out last hands it out twice, with two leases at once. */
  lemma RefreshCanRepeatANonce(w: World, c: Caller)
    requires w.account.queue == [] && w.account.woken == {} && w.issued != []
    requires w.account.leases == [Lease(w.issued[|w.issued| - 1], None)]
    ensures var last := w.issued[|w.issued| - 1];
            var w' := Next(Next(w, Refresh(last)), Acquire(c));
            && Enabled(w'.account, Proceed(c))
            && Next(w', Proceed(c)).issued == w.issued + [last]
            && Next(w', Proceed(c)).account.leases == [Lease(last, None), Lease(last, None)]
  {
    AcquireAndProceed(Next(w, Refresh(w.issued[|w.issued| - 1])), c);
  }

  /** Such a world is reached by the first caller. */
  lemma FirstNonce(count: int)
    ensures var w := Next(Next(Next(START, Acquire(0)), Proceed(0)), Seeded(0, count));
            w.account == Account(Some(count + 1), [], {}, {}, [Lease(count, None)]) && w.issued == [count]
  {
    var w1 := Next(START, Acquire(0));
    assert w1.account == Account(None, [0], {0}, {}, []) && w1.issued == [];
    var w2 := Next(w1, Proceed(0));
    assert w2.account == Account(None, [0], {}, {0}, []) && w2.issued == [];
  }

  // ---- without refreshes ----

  ghost predicate Consecutive(w: World) {
    && (forall i | 0 <= i < |w.issued| :: w.issued[i] == w.issued[0] + i)
    && (w.issued != [] ==> w.account.next == Some(w.issued[0] + |w.issued|))
    && (w.issued == [] ==> w.account.next.None?)
    && (w.account.waiting != {} ==> w.issued == [])
  }

  /** Without refreshes the nonces handed out are the seed and its successors, without gap or repeat, however many
      provider calls fail on the way. */
  lemma {:induction false} NoncesAreConsecutive(worlds: seq<World>, events: seq<Event>, n: nat)
    requires IsRun(worlds, events) && n <= |events|
    requires forall i | 0 <= i < |events| :: !events[i].Refresh?
    ensures Consecutive(worlds[n])
  {
    if n > 0 {
      NoncesAreConsecutive(worlds, events, n - 1);
      LockHolds(worlds, events, n - 1);
      var w, e := worlds[n - 1], events[n - 1];
      ConsecutiveStep(w, e);
    }
  }

  lemma ConsecutiveStep(w: World, e: Event)
    requires LockInv(w) && Consecutive(w) && Enabled(w.account, e) && !e.Refresh?
    ensures Consecutive(Next(w, e))
  {
    CacheStep(w, e);
    if e.Proceed? || e.Seeded? || e.SeedFails? {
      assert e.caller in w.account.woken + w.account.waiting;
    }
  }
}
