/** The nonce manager's maps and lists, updated in place, for all addresses at once. Each method is one section of code
    between two waits, and is proved to make exactly one step of the protocol of its address and none of any other. */
module NonceManager {
  import opened Prelude
  import opened NonceProtocol

  /** What the maps hold. `calls` are the calls in progress with their keys; of these, `resolved` have their lock
      promise resolved and not gone on yet, and `suspended` wait for the provider. */
  datatype Maps = Maps(
    nextNonce: map<string, int>, queues: map<string, seq<Caller>>, leased: map<string, seq<Lease>>,
    calls: map<Caller, string>, resolved: set<Caller>, suspended: set<Caller>)

  /** The part of the maps that concerns one key. */
  function AccountOf(m: Maps, key: string): Account {
    Account(if key in m.nextNonce then Some(m.nextNonce[key]) else None,
            if key in m.queues then m.queues[key] else [],
            CallersOf(m.resolved, m.calls, key), CallersOf(m.suspended, m.calls, key),
            if key in m.leased then m.leased[key] else [])
  }

  function CallersOf(s: set<Caller>, calls: map<Caller, string>, key: string): set<Caller> {
    set c | c in s && c in calls && calls[c] == key
  }

  ghost predicate NoRepeats(q: seq<Caller>) {
    forall i, j | 0 <= i < j < |q| :: q[i] != q[j]
  }

  /** A queue is deleted when it is empty, and holds calls in progress under its own key. */
  ghost predicate QueuesShaped(queues: map<string, seq<Caller>>, calls: map<Caller, string>) {
    && (forall k | k in queues :: queues[k] != [] && NoRepeats(queues[k]))
    && (forall k, c | k in queues && c in queues[k] :: c in calls && calls[c] == k)
  }

  /** Nothing is leased before a nonce is cached, nor while a call waits for its seed. */
  ghost predicate LeasesShaped(m: Maps)
    requires m.suspended <= m.calls.Keys
  {
    && (forall k | k in m.leased && k !in m.nextNonce :: m.leased[k] == [])
    && (forall c | c in m.suspended && m.calls[c] in m.leased :: m.leased[m.calls[c]] == [])
  }

  /** Everything but the lock's own invariant. */
  ghost predicate Shaped(m: Maps) {
    m.resolved <= m.calls.Keys && m.suspended <= m.calls.Keys && QueuesShaped(m.queues, m.calls) && LeasesShaped(m)
  }

  ghost predicate ValidMaps(m: Maps) {
    Shaped(m) && forall k :: OneInside(AccountOf(m, k))
  }

  // ---- the operations on the maps ----

  function Acquired(m: Maps, key: string, c: Caller): Maps {
    var queue := (if key in m.queues then m.queues[key] else []) + [c];
    m.(queues := m.queues[key := queue], calls := m.calls[c := key],
       resolved := if |queue| == 1 then m.resolved + {c} else m.resolved)
  }

  /** The holder `c` leaves and the next caller is woken. */
  function ReleasedBy(m: Maps, key: string, c: Caller): Maps {
    if key !in m.queues || m.queues[key] == [] then m.(calls := m.calls - {c}) else
    var queue := m.queues[key][1..];
    if |queue| == 0 then m.(queues := m.queues - {key}, calls := m.calls - {c})
    else m.(queues := m.queues[key := queue], resolved := m.resolved + {queue[0]}, calls := m.calls - {c})
  }

  function IssuedTo(m: Maps, key: string, nonce: int): Maps {
    m.(leased := m.leased[key := (if key in m.leased then m.leased[key] else []) + [Lease(nonce, None)]],
       nextNonce := m.nextNonce[key := nonce + 1])
  }

  function WithList(m: Maps, key: string): Maps {
    if key in m.leased then m else m.(leased := m.leased[key := []])
  }

  function Proceeded(m: Maps, c: Caller): Maps
    requires c in m.calls
  {
    var key := m.calls[c];
    var m1 := WithList(m.(resolved := m.resolved - {c}), key);
    if key in m.nextNonce then ReleasedBy(IssuedTo(m1, key, m.nextNonce[key]), key, c)
    else m1.(suspended := m1.suspended + {c})
  }

  function SeededWith(m: Maps, c: Caller, count: int): Maps
    requires c in m.calls
  {
    var key := m.calls[c];
    ReleasedBy(IssuedTo(m.(suspended := m.suspended - {c}), key, count), key, c)
  }

  function SeedFailed(m: Maps, c: Caller): Maps
    requires c in m.calls
  {
    ReleasedBy(m.(suspended := m.suspended - {c}), m.calls[c], c)
  }

  function SettledIn(m: Maps, key: string, nonce: int): Maps {
    if key !in m.leased || FindLease(m.leased[key], nonce) < 0 then m else
    var rest := WithoutLease(m.leased[key], nonce);
    m.(leased := if rest == [] then m.leased - {key} else m.leased[key := rest])
  }

  function BroadcastIn(m: Maps, key: string, nonce: int, txHash: string): Maps {
    if key in m.leased then m.(leased := m.leased[key := Marked(m.leased[key], nonce, txHash)]) else m
  }

  /** The operation as a step of its key's protocol that leaves every other key alone. */
  ghost predicate StepsOnly(m: Maps, m': Maps, key: string, e: Event) {
    && Enabled(AccountOf(m, key), e)
    && AccountOf(m', key) == Step(AccountOf(m, key), e)
    && forall k | k != key :: AccountOf(m', k) == AccountOf(m, k)
  }

  lemma OneInsideStep(a: Account, e: Event)
    requires OneInside(a) && Enabled(a, e)
    ensures OneInside(Step(a, e))
  {
    if e.Proceed? || e.Seeded? || e.SeedFails? {
      assert e.caller in a.woken + a.waiting;
    }
  }

  lemma OneInsideAll(m: Maps, m': Maps, key: string, e: Event)
    requires ValidMaps(m) && StepsOnly(m, m', key, e)
    ensures forall k :: OneInside(AccountOf(m', k))
  {
    forall k ensures OneInside(AccountOf(m', k)) {
      assert OneInside(AccountOf(m, k));
      if k == key { OneInsideStep(AccountOf(m, key), e); }
    }
  }

  lemma HeadOf(m: Maps, c: Caller)
    requires ValidMaps(m) && (c in m.resolved || c in m.suspended)
    ensures var key := m.calls[c];
            && key in m.queues && m.queues[key][0] == c
            && AccountOf(m, key).woken + AccountOf(m, key).waiting == {c}
            && !(c in m.resolved && c in m.suspended)
  {
    var a := AccountOf(m, m.calls[c]);
    assert OneInside(a);
    assert c in a.woken + a.waiting;
  }

  /** Two states of the maps that differ, for the keys other than one, in nothing an account shows. */
  ghost predicate OthersSame(m: Maps, m': Maps, key: string) {
    forall k | k != key :: AccountOf(m', k) == AccountOf(m, k)
  }

  lemma CallersPlus(s: set<Caller>, calls: map<Caller, string>, c: Caller)
    requires c in calls
    ensures CallersOf(s + {c}, calls, calls[c]) == CallersOf(s, calls, calls[c]) + {c}
    ensures forall k | k != calls[c] :: CallersOf(s + {c}, calls, k) == CallersOf(s, calls, k)
  {}

  lemma CallersMinus(s: set<Caller>, calls: map<Caller, string>, c: Caller)
    requires c in calls
    ensures CallersOf(s - {c}, calls, calls[c]) == CallersOf(s, calls, calls[c]) - {c}
    ensures forall k | k != calls[c] :: CallersOf(s - {c}, calls, k) == CallersOf(s, calls, k)
  {}

  /** A call that is not in the set may begin or end. */
  lemma CallersOfOthers(s: set<Caller>, calls: map<Caller, string>, calls': map<Caller, string>, c: Caller)
    requires c !in s && calls - {c} == calls' - {c}
    ensures forall k :: CallersOf(s, calls', k) == CallersOf(s, calls, k)
  {
    forall k ensures CallersOf(s, calls', k) == CallersOf(s, calls, k) {
      forall d | d in s ensures (d in calls' && calls'[d] == k) <==> (d in calls && calls[d] == k) {
        assert d in calls' - {c} <==> d in calls - {c};
        if d in calls { assert (calls - {c})[d] == (calls' - {c})[d]; }
      }
    }
  }

  lemma AcquireShape(m: Maps, key: string, c: Caller)
    requires Shaped(m) && c !in m.calls
    ensures Shaped(Acquired(m, key, c))
  {
    AcquireQueues(m.queues, m.calls, key, c);
  }

  lemma AcquireQueues(queues: map<string, seq<Caller>>, calls: map<Caller, string>, key: string, c: Caller)
    requires QueuesShaped(queues, calls) && c !in calls
    ensures var q := if key in queues then queues[key] else [];
            QueuesShaped(queues[key := q + [c]], calls[c := key])
  {
    var q := if key in queues then queues[key] else [];
    NewInQueue(q, c);
    assert forall d | d in q + [c] :: d in q || d == c;
  }

  lemma NewInQueue(q: seq<Caller>, c: Caller)
    requires NoRepeats(q) && c !in q
    ensures NoRepeats(q + [c])
  {
    assert forall i | 0 <= i < |q| :: q[i] in q;
  }

  lemma AcquireSteps(m: Maps, key: string, c: Caller)
    requires ValidMaps(m) && c !in m.calls
    ensures StepsOnly(m, Acquired(m, key, c), key, NonceProtocol.Acquire(c)) && ValidMaps(Acquired(m, key, c))
  {
    AcquireShape(m, key, c);
    AcquireAccounts(m, key, c);
    OneInsideAll(m, Acquired(m, key, c), key, NonceProtocol.Acquire(c));
  }

  lemma AcquireAccounts(m: Maps, key: string, c: Caller)
    requires Shaped(m) && c !in m.calls
    ensures StepsOnly(m, Acquired(m, key, c), key, NonceProtocol.Acquire(c))
  {
    var calls := m.calls[c := key];
    assert calls - {c} == m.calls - {c};
    CallersOfOthers(m.resolved, m.calls, calls, c);
    CallersOfOthers(m.suspended, m.calls, calls, c);
    CallersPlus(m.resolved, calls, c);
  }

  /** `c` holds the lock of `key` and is on its way out. */
  ghost predicate Leaving(m: Maps, key: string, c: Caller) {
    key in m.queues && m.queues[key] != [] && m.queues[key][0] == c && c !in m.resolved && c !in m.suspended
  }

  lemma ReleaseShape(m: Maps, key: string, c: Caller)
    requires Shaped(m) && Leaving(m, key, c)
    ensures Shaped(ReleasedBy(m, key, c))
  {
    var q := m.queues[key];
    assert c in q && m.calls[c] == key;
    ReleaseQueues(m.queues, m.calls, key);
    assert |q| > 1 ==> q[1] in q && q[1] != q[0];
  }

  lemma ReleaseQueues(queues: map<string, seq<Caller>>, calls: map<Caller, string>, key: string)
    requires QueuesShaped(queues, calls) && key in queues
    ensures var rest := queues[key][1..];
            QueuesShaped(if rest == [] then queues - {key} else queues[key := rest], calls - {queues[key][0]})
  {
    var q, rest := queues[key], queues[key][1..];
    var queues' := if rest == [] then queues - {key} else queues[key := rest];
    var calls' := calls - {q[0]};
    assert NoRepeats(q) && q[0] in q && forall i | 0 <= i < |rest| :: rest[i] == q[i + 1] != q[0];
    assert NoRepeats(rest);
    forall k | k in queues' ensures queues'[k] != [] && NoRepeats(queues'[k]) {
      assert k != key ==> NoRepeats(queues[k]);
    }
    forall k, d | k in queues' && d in queues'[k] ensures d in calls' && calls'[d] == k {
      assert d in queues[k] && calls[q[0]] == key;
    }
    assert QueuesShaped(queues', calls');
  }

  lemma ReleaseSteps(m: Maps, key: string, c: Caller)
    requires Shaped(m) && Leaving(m, key, c)
    ensures var m' := ReleasedBy(m, key, c);
            Shaped(m') && AccountOf(m', key) == Released(AccountOf(m, key)) && OthersSame(m, m', key)
  {
    ReleaseShape(m, key, c);
    ReleaseAccounts(m, key, c);
  }

  lemma ReleaseAccounts(m: Maps, key: string, c: Caller)
    requires Shaped(m) && Leaving(m, key, c)
    ensures var m' := ReleasedBy(m, key, c);
            AccountOf(m', key) == Released(AccountOf(m, key)) && OthersSame(m, m', key)
  {
    var q, calls := m.queues[key], m.calls - {c};
    assert calls - {c} == m.calls - {c};
    CallersOfOthers(m.resolved, m.calls, calls, c);
    CallersOfOthers(m.suspended, m.calls, calls, c);
    if |q| > 1 {
      assert q[1] in q && q[1] != q[0];
      CallersPlus(m.resolved, calls, q[1]);
    }
  }

  lemma IssueSteps(m: Maps, key: string, nonce: int)
    requires Shaped(m) && forall c | c in m.suspended :: m.calls[c] != key
    ensures var m' := IssuedTo(m, key, nonce);
            Shaped(m') && AccountOf(m', key) == Issue(AccountOf(m, key), nonce) && OthersSame(m, m', key)
  {}

  /** The answer is cached first, and again, increased, when the nonce is issued. */
  lemma CacheThenIssue(m: Maps, key: string, count: int)
    ensures IssuedTo(m.(nextNonce := m.nextNonce[key := count]), key, count) == IssuedTo(m, key, count)
  {
    assert m.nextNonce[key := count][key := count + 1] == m.nextNonce[key := count + 1];
  }

  lemma WithListSteps(m: Maps, key: string)
    requires Shaped(m)
    ensures Shaped(WithList(m, key)) && AccountOf(WithList(m, key), key) == AccountOf(m, key)
    ensures OthersSame(m, WithList(m, key), key)
  {}

  lemma UnresolveSteps(m: Maps, c: Caller)
    requires Shaped(m) && c in m.resolved
    ensures var m', key := m.(resolved := m.resolved - {c}), m.calls[c];
            && Shaped(m') && OthersSame(m, m', key)
            && AccountOf(m', key) == AccountOf(m, key).(woken := AccountOf(m, key).woken - {c})
  {
    CallersMinus(m.resolved, m.calls, c);
  }

  lemma SuspendSteps(m: Maps, c: Caller, key: string)
    requires Shaped(m) && c in m.calls && m.calls[c] == key
    requires key in m.leased ==> m.leased[key] == []
    ensures var m' := m.(suspended := m.suspended + {c});
            && Shaped(m') && OthersSame(m, m', key)
            && AccountOf(m', key) == AccountOf(m, key).(waiting := AccountOf(m, key).waiting + {c})
  {
    CallersPlus(m.suspended, m.calls, c);
  }

  lemma UnsuspendSteps(m: Maps, c: Caller)
    requires Shaped(m) && c in m.suspended
    ensures var m', key := m.(suspended := m.suspended - {c}), m.calls[c];
            && Shaped(m') && OthersSame(m, m', key)
            && AccountOf(m', key) == AccountOf(m, key).(waiting := AccountOf(m, key).waiting - {c})
  {
    CallersMinus(m.suspended, m.calls, c);
  }

  /** Nobody waits for the provider under this key when the lock's holder is awake or has just stopped waiting. */
  lemma NobodyElseWaits(m: Maps, c: Caller)
    requires ValidMaps(m) && (c in m.resolved || c in m.suspended)
    ensures forall d | d in m.suspended - {c} :: m.calls[d] != m.calls[c]
  {
    HeadOf(m, c);
    var a := AccountOf(m, m.calls[c]);
    assert forall d | d in m.suspended && m.calls[d] == m.calls[c] :: d in a.waiting;
  }

  lemma ProceedSteps(m: Maps, c: Caller)
    requires ValidMaps(m) && c in m.resolved
    ensures StepsOnly(m, Proceeded(m, c), m.calls[c], Proceed(c)) && ValidMaps(Proceeded(m, c))
  {
    var key := m.calls[c];
    HeadOf(m, c);
    NobodyElseWaits(m, c);
    assert c in AccountOf(m, key).woken;
    var m0 := m.(resolved := m.resolved - {c});
    UnresolveSteps(m, c);
    var m1 := WithList(m0, key);
    WithListSteps(m0, key);
    if key in m.nextNonce {
      IssueSteps(m1, key, m.nextNonce[key]);
      ReleaseSteps(IssuedTo(m1, key, m.nextNonce[key]), key, c);
    } else {
      SuspendSteps(m1, c, key);
    }
    assert StepsOnly(m, Proceeded(m, c), key, Proceed(c));
    OneInsideAll(m, Proceeded(m, c), key, Proceed(c));
  }

  lemma SeededSteps(m: Maps, c: Caller, count: int)
    requires ValidMaps(m) && c in m.suspended
    ensures StepsOnly(m, SeededWith(m, c, count), m.calls[c], Seeded(c, count)) && ValidMaps(SeededWith(m, c, count))
  {
    var key := m.calls[c];
    HeadOf(m, c);
    NobodyElseWaits(m, c);
    assert c in AccountOf(m, key).waiting;
    var m0 := m.(suspended := m.suspended - {c});
    UnsuspendSteps(m, c);
    IssueSteps(m0, key, count);
    ReleaseSteps(IssuedTo(m0, key, count), key, c);
    assert StepsOnly(m, SeededWith(m, c, count), key, Seeded(c, count));
    OneInsideAll(m, SeededWith(m, c, count), key, Seeded(c, count));
  }

  lemma SeedFailedSteps(m: Maps, c: Caller)
    requires ValidMaps(m) && c in m.suspended
    ensures StepsOnly(m, SeedFailed(m, c), m.calls[c], SeedFails(c)) && ValidMaps(SeedFailed(m, c))
  {
    var key := m.calls[c];
    HeadOf(m, c);
    assert c in AccountOf(m, key).waiting;
    var m0 := m.(suspended := m.suspended - {c});
    UnsuspendSteps(m, c);
    ReleaseSteps(m0, key, c);
    assert StepsOnly(m, SeedFailed(m, c), key, SeedFails(c));
    OneInsideAll(m, SeedFailed(m, c), key, SeedFails(c));
  }

  lemma SettleShape(m: Maps, key: string, nonce: int)
    requires Shaped(m)
    ensures Shaped(SettledIn(m, key, nonce))
  {
    if key in m.leased && m.leased[key] == [] { assert FindLease(m.leased[key], nonce) < 0; }
  }

  lemma WithLeases(m: Maps, key: string, leased: map<string, seq<Lease>>, rest: seq<Lease>)
    requires leased == if rest == [] then m.leased - {key} else m.leased[key := rest]
    ensures AccountOf(m.(leased := leased), key) == AccountOf(m, key).(leases := rest)
    ensures OthersSame(m, m.(leased := leased), key)
  {}

  lemma SettleAccounts(m: Maps, key: string, nonce: int)
    ensures StepsOnly(m, SettledIn(m, key, nonce), key, Settle(nonce))
  {
    var leases := if key in m.leased then m.leased[key] else [];
    if FindLease(leases, nonce) >= 0 {
      WithLeases(m, key, SettledIn(m, key, nonce).leased, WithoutLease(leases, nonce));
    } else {
      assert WithoutLease(leases, nonce) == leases;
    }
  }

  lemma SettleSteps(m: Maps, key: string, nonce: int)
    requires ValidMaps(m)
    ensures StepsOnly(m, SettledIn(m, key, nonce), key, Settle(nonce)) && ValidMaps(SettledIn(m, key, nonce))
  {
    SettleShape(m, key, nonce);
    SettleAccounts(m, key, nonce);
    OneInsideAll(m, SettledIn(m, key, nonce), key, Settle(nonce));
  }

  lemma BroadcastSteps(m: Maps, key: string, nonce: int, txHash: string)
    requires ValidMaps(m)
    ensures var m' := BroadcastIn(m, key, nonce, txHash);
            StepsOnly(m, m', key, Broadcast(nonce, txHash)) && ValidMaps(m')
  {
    var m' := BroadcastIn(m, key, nonce, txHash);
    assert StepsOnly(m, m', key, Broadcast(nonce, txHash));
    OneInsideAll(m, m', key, Broadcast(nonce, txHash));
  }

  lemma RefreshSteps(m: Maps, key: string, count: int)
    requires ValidMaps(m)
    ensures var m' := m.(nextNonce := m.nextNonce[key := count]);
            StepsOnly(m, m', key, Refresh(count)) && ValidMaps(m')
  {
    var m' := m.(nextNonce := m.nextNonce[key := count]);
    assert StepsOnly(m, m', key, Refresh(count));
    OneInsideAll(m, m', key, Refresh(count));
  }

  // ---- runs ----

  const EMPTY := Maps(map[], map[], map[], map[], {}, {})

  /** A section of code and the key it is about. */
  datatype Section = Section(key: string, event: Event)

  /** The maps as sections for any addresses follow one another; each call is a new caller. */
  ghost predicate IsManagerRun(states: seq<Maps>, sections: seq<Section>) {
    && |states| == |sections| + 1 && states[0] == EMPTY
    && (forall i | 0 <= i < |sections| ::
          StepsOnly(states[i], states[i + 1], sections[i].key, sections[i].event))
    && (forall i, j | 0 <= i < j < |sections| && sections[i].event.Acquire? && sections[j].event.Acquire? ::
          sections[i].event.caller != sections[j].event.caller)
  }

  /** The events of one key among the first `n` sections. */
  function EventsOf(sections: seq<Section>, key: string, n: nat): seq<Event>
    requires n <= |sections|
  {
    if n == 0 then []
    else EventsOf(sections, key, n - 1) + if sections[n - 1].key == key then [sections[n - 1].event] else []
  }

  lemma RunGrows(worlds: seq<World>, events: seq<Event>, e: Event, w: World)
    requires IsRun(worlds, events) && Enabled(worlds[|events|].account, e)
    requires e.Acquire? ==> e.caller !in worlds[|events|].arrived
    requires w == Next(worlds[|events|], e)
    ensures IsRun(worlds + [w], events + [e])
  {
    var all := worlds + [w];
    assert forall i | 0 <= i <= |events| :: all[i] == worlds[i];
  }

  /** Whoever arrived in the world has acquired in one of the first `n` sections. */
  ghost predicate AcquiredBefore(w: World, sections: seq<Section>, n: nat)
    requires n <= |sections|
  {
    forall c | c in w.arrived :: exists i | 0 <= i < n :: sections[i].event == NonceProtocol.Acquire(c)
  }

  lemma NewCaller(w: World, states: seq<Maps>, sections: seq<Section>, n: nat)
    requires IsManagerRun(states, sections) && n < |sections| && AcquiredBefore(w, sections, n)
    ensures sections[n].event.Acquire? ==> sections[n].event.caller !in w.arrived
  {}

  lemma ArrivedGrows(w: World, sections: seq<Section>, n: nat)
    requires n < |sections| && AcquiredBefore(w, sections, n)
    ensures AcquiredBefore(w, sections, n + 1)
    ensures Enabled(w.account, sections[n].event) ==> AcquiredBefore(Next(w, sections[n].event), sections, n + 1)
  {}

  /** `worlds` is a run of the key's protocol over its events, and ends in that key's part of the maps. */
  ghost predicate Projects(worlds: seq<World>, states: seq<Maps>, sections: seq<Section>, key: string, n: nat)
    requires n <= |sections| && |states| == |sections| + 1
  {
    var events := EventsOf(sections, key, n);
    && IsRun(worlds, events) && worlds[|events|].account == AccountOf(states[n], key)
    && AcquiredBefore(worlds[|events|], sections, n)
  }

  /** What one key sees of the manager's run is a run of its protocol. */
  lemma {:induction false} ProjectsToRun(states: seq<Maps>, sections: seq<Section>, key: string, n: nat)
    returns (worlds: seq<World>)
    requires IsManagerRun(states, sections) && n <= |sections|
    ensures Projects(worlds, states, sections, key, n)
  {
    if n == 0 {
      worlds := [START];
      assert AccountOf(EMPTY, key) == FRESH;
    } else {
      worlds := ProjectsToRun(states, sections, key, n - 1);
      worlds := ProjectOn(worlds, states, sections, key, n - 1);
    }
  }

  lemma ProjectOn(worlds: seq<World>, states: seq<Maps>, sections: seq<Section>, key: string, n: nat)
    returns (more: seq<World>)
    requires IsManagerRun(states, sections) && n < |sections| && Projects(worlds, states, sections, key, n)
    ensures Projects(more, states, sections, key, n + 1)
  {
    var events, e := EventsOf(sections, key, n), sections[n].event;
    var w := worlds[|events|];
    assert StepsOnly(states[n], states[n + 1], sections[n].key, e);
    ArrivedGrows(w, sections, n);
    if sections[n].key == key {
      NewCaller(w, states, sections, n);
      RunGrows(worlds, events, e, Next(w, e));
      more := worlds + [Next(w, e)];
      assert EventsOf(sections, key, n + 1) == events + [e];
    } else {
      more := worlds;
      assert EventsOf(sections, key, n + 1) == events;
    }
  }

  /** So in every interleaving of calls for any addresses, each address has its lock, its order and its nonces. */
  lemma {:induction false} EveryAddressFollowsProtocol(states: seq<Maps>, sections: seq<Section>, key: string)
    returns (worlds: seq<World>)
    requires IsManagerRun(states, sections)
    ensures var events := EventsOf(sections, key, |sections|);
            && IsRun(worlds, events) && worlds[|events|].account == AccountOf(states[|sections|], key)
            && LockInv(worlds[|events|])
            && (Increasing(worlds[|events|].issued) <==> UsedRefreshesAbove(worlds, events, |events|))
            && (Increasing(worlds[|events|].issued) ==> NonceInv(worlds[|events|]))
            && ((forall i | 0 <= i < |events| :: !events[i].Refresh?) ==> Consecutive(worlds[|events|]))
  {
    var events := EventsOf(sections, key, |sections|);
    worlds := ProjectsToRun(states, sections, key, |sections|);
    LockHolds(worlds, events, |events|);
    NoncesIncrease(worlds, events, |events|);
    if forall i | 0 <= i < |events| :: !events[i].Refresh? { NoncesAreConsecutive(worlds, events, |events|); }
  }

  // ---- the class ----

  /** The list of leases of one key: an object, so that a suspended call can hold on to it. */
  class LeaseList {
    var items: seq<Lease>

    constructor ()
      ensures items == []
    {
      items := [];
    }
  }

  class NonceManager {
    var nextNonce: map<string, int>
    var queues: map<string, seq<Caller>>
    var leased: map<string, LeaseList>

    /** The calls in progress, those whose lock promise is resolved, and those that wait for the provider, each with the
        list of leases it looked up before. */
    var calls: map<Caller, string>
    var resolved: set<Caller>
    var suspended: map<Caller, LeaseList>

    ghost function Items(): map<string, seq<Lease>>
      reads this, leased.Values
    {
      map k | k in leased :: leased[k].items
    }

    ghost function State(): Maps
      reads this, leased.Values
    {
      Maps(nextNonce, queues, Items(), calls, resolved, suspended.Keys)
    }

    ghost function View(address: string): Account
      reads this, leased.Values
    {
      AccountOf(State(), ToLower(address))
    }

    /** The case of an address does not matter. */
    lemma SameAddress(a: string, b: string)
      requires |a| == |b| && forall i | 0 <= i < |a| :: SameLetter(a[i], b[i])
      ensures View(a) == View(b)
    {
      LowerFoldsCase(a, b);
    }

    /** No two keys share a list, and the list a suspended call holds on to is still the one in the map. */
    ghost predicate Linked()
      reads this
    {
      && (forall k, l | k in leased && l in leased && k != l :: leased[k] != leased[l])
      && (forall c | c in suspended :: c in calls && calls[c] in leased && leased[calls[c]] == suspended[c])
    }

    ghost predicate Valid()
      reads this, leased.Values
    {
      ValidMaps(State()) && Linked()
    }

    constructor ()
      ensures Valid() && State() == EMPTY && forall address :: View(address) == FRESH
    {
      nextNonce, queues, leased := map[], map[], map[];
      calls, resolved, suspended := map[], {}, map[];
    }

    method Acquire(address: string, c: Caller)
      requires Valid() && c !in calls
      modifies this
      ensures Valid() && leased == old(leased)
      ensures StepsOnly(old(State()), State(), ToLower(address), NonceProtocol.Acquire(c))
    {
      Enqueue(ToLower(address), c);
      AcquireSteps(old(State()), ToLower(address), c);
    }

    method Enqueue(key: string, c: Caller)
      requires Linked() && c !in calls
      modifies this
      ensures State() == Acquired(old(State()), key, c)
      ensures Linked() && leased == old(leased)
    {
      var queue := if key in queues then queues[key] else [];
      queue := queue + [c];
      queues := queues[key := queue];
      calls := calls[c := key];
      if |queue| == 1 { resolved := resolved + {c}; }
      assert Items() == old(Items());
    }

    method Release(key: string, c: Caller)
      requires Linked() && c !in suspended
      modifies this
      ensures Items() == old(Items()) && State() == ReleasedBy(old(State()), key, c)
      ensures Linked() && leased == old(leased) && suspended == old(suspended)
    {
      calls := calls - {c};
      if key !in queues || |queues[key]| == 0 { return; }
      var queue := queues[key][1..];
      if |queue| == 0 {
        queues := queues - {key};
      } else {
        queues := queues[key := queue];
        resolved := resolved + {queue[0]};
      }
    }

    method IssueNonce(key: string, leases: LeaseList, nonce: int)
      requires Linked() && key in leased && leased[key] == leases
      modifies this, leases
      ensures State() == IssuedTo(old(State()), key, nonce)
      ensures Linked() && leased == old(leased) && suspended == old(suspended) && calls == old(calls)
    {
      leases.items := leases.items + [Lease(nonce, None)];
      nextNonce := nextNonce[key := nonce + 1];
      assert Items() == old(Items())[key := leases.items];
    }

    method ListOf(key: string) returns (leases: LeaseList)
      requires Linked()
      modifies this
      ensures State() == WithList(old(State()), key)
      ensures Linked() && key in leased && leased[key] == leases && fresh(leased.Values - old(leased.Values))
      ensures suspended == old(suspended) && calls == old(calls) && nextNonce == old(nextNonce)
    {
      if key !in leased {
        var list := new LeaseList();
        leased := leased[key := list];
        assert Items() == old(Items())[key := []];
      }
      leases := leased[key];
    }

    /** The woken call goes on: it gets the cached nonce, or has to wait for the provider. */
    method ReserveFromCache(c: Caller) returns (nonce: Option<int>)
      requires Valid() && c in resolved
      modifies this, leased.Values
      ensures Valid() && fresh(leased.Values - old(leased.Values))
      ensures var key := old(calls)[c];
              && StepsOnly(old(State()), State(), key, Proceed(c))
              && nonce == Reserved(AccountOf(old(State()), key), Proceed(c))
    {
      HeadOf(State(), c);
      nonce := GoOn(c);
      ProceedSteps(old(State()), c);
    }

    method GoOn(c: Caller) returns (nonce: Option<int>)
      requires Linked() && c in calls && c !in suspended
      modifies this, leased.Values
      ensures State() == Proceeded(old(State()), c)
      ensures Linked() && fresh(leased.Values - old(leased.Values))
      ensures nonce == AccountOf(old(State()), old(calls)[c]).next
    {
      var key := calls[c];
      resolved := resolved - {c};
      assert Items() == old(Items());
      var leases := ListOf(key);
      if key in nextNonce {
        var current := nextNonce[key];
        IssueNonce(key, leases, current);
        Release(key, c);
        nonce := Some(current);
      } else {
        Suspend(c, leases);
        nonce := None;
      }
    }

    method Suspend(c: Caller, leases: LeaseList)
      requires Linked() && c in calls && calls[c] in leased && leased[calls[c]] == leases
      modifies this
      ensures State() == old(State()).(suspended := old(suspended.Keys) + {c})
      ensures Linked() && leased == old(leased)
    {
      suspended := suspended[c := leases];
      assert Items() == old(Items());
    }

    /** The provider answers: the nonce goes onto the list that was looked up before the wait. */
    method ReserveSeeded(c: Caller, count: int) returns (nonce: int)
      requires Valid() && c in suspended
      modifies this, leased.Values
      ensures Valid() && leased == old(leased) && nonce == count
      ensures StepsOnly(old(State()), State(), old(calls)[c], Seeded(c, count))
    {
      Seed(c, count);
      SeededSteps(old(State()), c, count);
      return count;
    }

    method Unsuspend(c: Caller)
      requires Linked() && c in suspended
      modifies this
      ensures State() == old(State()).(suspended := old(suspended.Keys) - {c})
      ensures Linked() && leased == old(leased) && calls == old(calls) && c !in suspended
    {
      suspended := suspended - {c};
      assert Items() == old(Items());
    }

    method Seed(c: Caller, count: int)
      requires Linked() && c in suspended
      modifies this, leased.Values
      ensures State() == SeededWith(old(State()), c, count)
      ensures Linked() && leased == old(leased)
    {
      var key, leases := calls[c], suspended[c];
      Unsuspend(c);
      CacheThenIssue(State(), key, count);
      CacheNext(key, count);
      IssueNonce(key, leases, count);
      Release(key, c);
    }

    method CacheNext(key: string, count: int)
      requires Linked()
      modifies this
      ensures State() == old(State()).(nextNonce := old(nextNonce)[key := count])
      ensures Linked() && leased == old(leased) && calls == old(calls) && suspended == old(suspended)
    {
      nextNonce := nextNonce[key := count];
      assert Items() == old(Items());
    }

    /** The provider fails: the caller leaves with the error and the lock is released. */
    method ReserveFails(c: Caller)
      requires Valid() && c in suspended
      modifies this
      ensures Valid() && leased == old(leased)
      ensures StepsOnly(old(State()), State(), old(calls)[c], SeedFails(c))
    {
      Fail(c);
      SeedFailedSteps(old(State()), c);
    }

    method Fail(c: Caller)
      requires Linked() && c in suspended
      modifies this
      ensures State() == SeedFailed(old(State()), c)
      ensures Linked() && leased == old(leased)
    {
      var key := calls[c];
      Unsuspend(c);
      Release(key, c);
    }

    method MarkBroadcast(address: string, nonce: int, txHash: string)
      requires Valid()
      modifies leased.Values
      ensures Valid()
      ensures StepsOnly(old(State()), State(), ToLower(address), Broadcast(nonce, txHash))
    {
      Mark(ToLower(address), nonce, txHash);
      BroadcastSteps(old(State()), ToLower(address), nonce, txHash);
    }

    method Mark(key: string, nonce: int, txHash: string)
      requires Linked()
      modifies leased.Values
      ensures State() == BroadcastIn(old(State()), key, nonce, txHash)
    {
      if key !in leased { return; }
      var leases := leased[key];
      var i := FindLease(leases.items, nonce);
      if i >= 0 {
        leases.items := leases.items[i := leases.items[i].(txHash := Some(txHash))];
      }
    }

    method MarkIncludedOrDropped(address: string, nonce: int)
      requires Valid()
      modifies this, leased.Values
      ensures Valid() && leased.Values <= old(leased.Values)
      ensures StepsOnly(old(State()), State(), ToLower(address), Settle(nonce))
    {
      forall c | c in suspended ensures suspended[c].items == [] {
        assert c in State().suspended && State().calls[c] in State().leased;
        assert State().leased[calls[c]] == suspended[c].items;
      }
      DropLease(ToLower(address), nonce);
      SettleSteps(old(State()), ToLower(address), nonce);
    }

    method DropLease(key: string, nonce: int)
      requires Linked() && forall c | c in suspended :: suspended[c].items == []
      modifies this, leased.Values
      ensures State() == SettledIn(old(State()), key, nonce)
      ensures Linked() && leased.Values <= old(leased.Values)
    {
      if key !in leased { return; }
      var leases := leased[key];
      var i := FindLease(leases.items, nonce);
      if i >= 0 {
        SetItems(key, leases, leases.items[..i] + leases.items[i + 1..]);
        if |leases.items| == 0 { DeleteList(key); }
      }
    }

    method SetItems(key: string, leases: LeaseList, items: seq<Lease>)
      requires Linked() && key in leased && leased[key] == leases
      modifies leases
      ensures Items() == old(Items())[key := items] && leases.items == items
    {
      leases.items := items;
    }

    method DeleteList(key: string)
      requires Linked() && key in leased && forall c | c in suspended :: calls[c] != key
      modifies this
      ensures State() == old(State()).(leased := old(Items()) - {key})
      ensures Linked() && leased == old(leased) - {key}
    {
      leased := leased - {key};
      assert Items() == old(Items()) - {key};
    }

    /** The provider has answered a refresh, whatever happened since it was asked. */
    method RefreshFromChain(address: string, count: int)
      requires Valid()
      modifies this
      ensures Valid() && leased == old(leased)
      ensures StepsOnly(old(State()), State(), ToLower(address), Refresh(count))
    {
      CacheNext(ToLower(address), count);
      RefreshSteps(old(State()), ToLower(address), count);
    }

    method Peek(address: string) returns (lease: Option<Lease>)
      ensures lease == PeekLease(View(address))
    {
      var key := ToLower(address);
      if key !in leased || |leased[key].items| == 0 { return None; }
      return Some(leased[key].items[|leased[key].items| - 1]);
    }
  }
}
