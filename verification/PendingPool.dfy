/** The pool of validated trades: a list, an index of the hashes in it, and revalidations that are suspended at every
    simulator call while other calls go on. */
module PendingPool {
  import opened Prelude

  datatype Trade = Trade(id: string, rawTransaction: string, txHash: string, receivedAt: int)

  function Hash(t: Trade): string {
    ToLower(t.txHash)
  }

  datatype Pool = Pool(trades: seq<Trade>, seenHashes: set<string>)

  function HashesOf(trades: seq<Trade>): set<string> {
    set t | t in trades :: Hash(t)
  }

  ghost predicate DistinctHashes(trades: seq<Trade>) {
    forall i, j | 0 <= i < j < |trades| :: Hash(trades[i]) != Hash(trades[j])
  }

  ghost predicate Valid(p: Pool) {
    && p.seenHashes == HashesOf(p.trades)
    && DistinctHashes(p.trades)
    && (forall t | t in p.trades :: t.txHash != "")
  }

  function Add(p: Pool, t: Trade): Pool {
    if t.txHash == "" || Hash(t) in p.seenHashes then p
    else Pool(p.trades + [t], p.seenHashes + {Hash(t)})
  }

  /** The trades whose hash is not in `target`. */
  function Without(trades: seq<Trade>, target: set<string>): (r: seq<Trade>)
    ensures forall t :: t in r <==> t in trades && Hash(t) !in target
  {
    if trades == [] then [] else
    var last := trades[|trades| - 1];
    var front := Without(trades[..|trades| - 1], target);
    if Hash(last) in target then front else front + [last]
  }

  function Lowered(hashes: seq<string>): set<string> {
    set h | h in hashes :: ToLower(h)
  }

  function Remove(p: Pool, hashes: seq<string>): Pool {
    if hashes == [] || p.trades == [] then p else
    var kept := Without(p.trades, Lowered(hashes));
    Pool(kept, HashesOf(kept))
  }

  const EMPTY := Pool([], {})

  predicate IsStale(t: Trade, now: int, staleAfterMs: int) {
    now - t.receivedAt > staleAfterMs
  }

  function Stale(trades: seq<Trade>, now: int, staleAfterMs: int): (r: seq<Trade>)
    ensures forall t :: t in r <==> t in trades && IsStale(t, now, staleAfterMs)
  {
    if trades == [] then [] else
    var last := trades[|trades| - 1];
    var front := Stale(trades[..|trades| - 1], now, staleAfterMs);
    if IsStale(last, now, staleAfterMs) then front + [last] else front
  }

  /** The hashes of the stale trades that were not accepted: rejected, or failed in the simulator. */
  function NotAccepted(stale: seq<Trade>, accepted: seq<bool>): (r: seq<string>)
    requires |accepted| <= |stale|
    ensures forall h :: h in r <==> exists i | 0 <= i < |accepted| :: !accepted[i] && stale[i].txHash == h
  {
    if accepted == [] then [] else
    var i := |accepted| - 1;
    var before := NotAccepted(stale, accepted[..i]);
    if accepted[i] then before else before + [stale[i].txHash]
  }

  class PendingPool {
    var trades: seq<Trade>
    var seenHashes: set<string>

    constructor ()
      ensures View() == EMPTY
    {
      trades, seenHashes := [], {};
    }

    function View(): Pool
      reads this
    {
      Pool(trades, seenHashes)
    }

    method AddTrade(t: Trade)
      modifies this
      ensures View() == Add(old(View()), t)
    {
      if t.txHash == "" { return; }
      var h := ToLower(t.txHash);
      if h in seenHashes { return; }
      trades := trades + [t];
      seenHashes := seenHashes + {h};
    }

    method Clear()
      modifies this
      ensures View() == EMPTY
    {
      trades := [];
      seenHashes := {};
    }

    method RemoveTrades(hashes: seq<string>) returns (removed: int)
      modifies this
      ensures View() == Remove(old(View()), hashes)
      ensures removed == |old(trades)| - |trades|
    {
      if |hashes| == 0 { return 0; }
      var before := |trades|;
      if before == 0 { return 0; }
      trades := Without(trades, Lowered(hashes));
      seenHashes := HashesOf(trades);
      removed := before - |trades|;
    }

    /** A revalidation that nothing interrupts takes out exactly the stale trades that are not accepted. */
    method RevalidateStale(accepts: Trade -> bool, now: int, staleAfterMs: int) returns (checked: int, removed: int)
      requires Valid(View())
      modifies this
      ensures Valid(View())
      ensures forall t :: t in trades <==> t in old(trades) && (now - t.receivedAt > staleAfterMs ==> accepts(t))
      ensures checked == |Stale(old(trades), now, staleAfterMs)| && removed == |old(trades)| - |trades|
    {
      var stale := BeginRevalidation(now, staleAfterMs);
      if |stale| == 0 { return 0, 0; }
      var accepted := seq(|stale|, i requires 0 <= i < |stale| => accepts(stale[i]));
      UninterruptedRemoval(View(), stale, accepted);
      checked, removed := EndRevalidation(stale, accepted);
    }

    /** A revalidation up to its first simulator call. */
    method BeginRevalidation(now: int, staleAfterMs: int) returns (stale: seq<Trade>)
      ensures stale == Stale(trades, now, staleAfterMs)
    {
      stale := Stale(trades, now, staleAfterMs);
    }

    /** The end of a revalidation, when every simulator call has been answered. */
    method EndRevalidation(stale: seq<Trade>, accepted: seq<bool>) returns (checked: int, removed: int)
      requires |accepted| == |stale|
      modifies this
      ensures View() == Remove(old(View()), NotAccepted(stale, accepted))
      ensures checked == |stale| && removed == |old(trades)| - |trades|
    {
      var toRemove: seq<string> := [];
      for i := 0 to |stale|
        invariant toRemove == NotAccepted(stale, accepted[..i])
      {
        assert accepted[..i + 1][..i] == accepted[..i];
        if !accepted[i] { toRemove := toRemove + [stale[i].txHash]; }
      }
      assert accepted[..|stale|] == accepted;
      removed := RemoveTrades(toRemove);
      checked := |stale|;
    }
  }

  // ---- single operations ----

  lemma HashesOfMore(trades: seq<Trade>, t: Trade)
    ensures HashesOf(trades + [t]) == HashesOf(trades) + {Hash(t)}
  {}

  lemma AddKeepsValid(p: Pool, t: Trade)
    requires Valid(p)
    ensures Valid(Add(p, t))
  {
    HashesOfMore(p.trades, t);
    forall i | 0 <= i < |p.trades| ensures Hash(p.trades[i]) in p.seenHashes {
      assert p.trades[i] in p.trades;
    }
  }

  lemma {:induction false} WithoutKeepsDistinct(trades: seq<Trade>, target: set<string>)
    requires DistinctHashes(trades)
    ensures DistinctHashes(Without(trades, target))
  {
    if trades != [] {
      var front, last := trades[..|trades| - 1], trades[|trades| - 1];
      assert forall i | 0 <= i < |front| :: front[i] == trades[i];
      WithoutKeepsDistinct(front, target);
      var r := Without(front, target);
      forall i | 0 <= i < |r| ensures Hash(r[i]) != Hash(last) {
        assert r[i] in front;
        var k :| 0 <= k < |front| && front[k] == r[i];
        assert Hash(trades[k]) != Hash(trades[|trades| - 1]);
      }
      AppendKeepsDistinct(r, last);
    }
  }

  lemma AppendKeepsDistinct(r: seq<Trade>, t: Trade)
    requires DistinctHashes(r) && forall i | 0 <= i < |r| :: Hash(r[i]) != Hash(t)
    ensures DistinctHashes(r + [t])
  {}

  lemma RemoveKeepsValid(p: Pool, hashes: seq<string>)
    requires Valid(p)
    ensures Valid(Remove(p, hashes))
  {
    WithoutKeepsDistinct(p.trades, Lowered(hashes));
    var kept := Without(p.trades, Lowered(hashes));
    assert forall t :: t in kept ==> t in p.trades;
  }

  /** With distinct hashes only the trades themselves go that are not accepted. */
  lemma UninterruptedRemoval(p: Pool, stale: seq<Trade>, accepted: seq<bool>)
    requires Valid(p) && |accepted| == |stale| && forall i | 0 <= i < |stale| :: stale[i] in p.trades
    ensures Valid(Remove(p, NotAccepted(stale, accepted)))
    ensures forall t | t in p.trades ::
              t in Remove(p, NotAccepted(stale, accepted)).trades
              <==> forall i | 0 <= i < |stale| && stale[i] == t :: accepted[i]
    ensures forall t | t in Remove(p, NotAccepted(stale, accepted)).trades :: t in p.trades
  {
    RemoveKeepsValid(p, NotAccepted(stale, accepted));
    forall t | t in p.trades ensures t in Remove(p, NotAccepted(stale, accepted)).trades
                                     <==> forall i | 0 <= i < |stale| && stale[i] == t :: accepted[i] {
      LoweredNotAccepted(stale, accepted, Hash(t));
      forall i | 0 <= i < |stale| && Hash(stale[i]) == Hash(t) ensures stale[i] == t {
        SameHashSameTrade(p.trades, stale[i], t);
      }
    }
  }

  lemma SameHashSameTrade(trades: seq<Trade>, s: Trade, t: Trade)
    requires DistinctHashes(trades) && s in trades && t in trades && Hash(s) == Hash(t)
    ensures s == t
  {}

  // ---- keeping the order of arrival ----

  /** `s` is what is left of `log` after some of its entries are left out. */
  predicate Subsequence(s: seq<Trade>, log: seq<Trade>) {
    if s == [] then true
    else if log == [] then false
    else if s[|s| - 1] == log[|log| - 1] then Subsequence(s[..|s| - 1], log[..|log| - 1])
    else Subsequence(s, log[..|log| - 1])
  }

  lemma {:induction false} SubsequenceFront(s: seq<Trade>, log: seq<Trade>)
    requires Subsequence(s, log) && s != []
    ensures Subsequence(s[..|s| - 1], log)
    decreases |log|
  {
    var front, shorter := s[..|s| - 1], log[..|log| - 1];
    if s[|s| - 1] == log[|log| - 1] {
      if front != [] && front[|front| - 1] == log[|log| - 1] { SubsequenceFront(front, shorter); }
    } else {
      SubsequenceFront(s, shorter);
      if front != [] && front[|front| - 1] == log[|log| - 1] { SubsequenceFront(front, shorter); }
    }
  }

  lemma SubsequenceLonger(s: seq<Trade>, log: seq<Trade>, t: Trade)
    requires Subsequence(s, log)
    ensures Subsequence(s, log + [t]) && Subsequence(s + [t], log + [t])
  {
    assert (log + [t])[..|log|] == log && (s + [t])[..|s|] == s;
    if s != [] && s[|s| - 1] == t { SubsequenceFront(s, log); }
  }

  lemma {:induction false} SubsequenceWithout(s: seq<Trade>, log: seq<Trade>, target: set<string>)
    requires Subsequence(s, log)
    ensures Subsequence(Without(s, target), log)
    decreases |log|
  {
    if s != [] {
      var front, shorter := s[..|s| - 1], log[..|log| - 1];
      assert log == shorter + [log[|log| - 1]];
      if s[|s| - 1] == log[|log| - 1] {
        SubsequenceWithout(front, shorter, target);
        SubsequenceLonger(Without(front, target), shorter, log[|log| - 1]);
      } else {
        SubsequenceWithout(s, shorter, target);
        SubsequenceLonger(Without(s, target), shorter, log[|log| - 1]);
      }
    }
  }

  // ---- interleavings ----

  /** A suspended revalidation: the stale trades it took note of, and the answers so far. */
  datatype Revalidation = Revalidation(now: int, staleAfterMs: int, stale: seq<Trade>, accepted: seq<bool>)

  /** `log` lists every trade that was taken in, in order of arrival. */
  datatype World = World(pool: Pool, suspended: map<nat, Revalidation>, log: seq<Trade>)

  /** What can happen between two suspensions; `Answer` is the simulator's answer to revalidation `id`, false standing
      for a rejection and for an error alike. */
  datatype Event =
    | AddTrade(trade: Trade)
    | RemoveTrades(hashes: seq<string>)
    | Clear
    | Begin(id: nat, now: int, staleAfterMs: int)
    | Answer(id: nat, accepts: bool)

  predicate Enabled(w: World, e: Event) {
    match e
    case Begin(id, _, _) => id !in w.suspended
    case Answer(id, _) => id in w.suspended && |w.suspended[id].accepted| < |w.suspended[id].stale|
    case _ => true
  }

  function Step(w: World, e: Event): World
    requires Enabled(w, e)
  {
    match e
    case AddTrade(t) =>
      var p := Add(w.pool, t);
      w.(pool := p, log := if p == w.pool then w.log else w.log + [t])
    case RemoveTrades(hashes) => w.(pool := Remove(w.pool, hashes))
    case Clear => w.(pool := EMPTY)
    case Begin(id, now, staleAfterMs) =>
      var stale := Stale(w.pool.trades, now, staleAfterMs);
      if stale == [] then w
      else w.(suspended := w.suspended[id := Revalidation(now, staleAfterMs, stale, [])])
    case Answer(id, accepts) =>
      var r := w.suspended[id];
      var r' := r.(accepted := r.accepted + [accepts]);
      if |r'.accepted| < |r'.stale| then w.(suspended := w.suspended[id := r'])
      else w.(pool := Remove(w.pool, NotAccepted(r'.stale, r'.accepted)), suspended := w.suspended - {id})
  }

  ghost predicate Inv(w: World) {
    && Valid(w.pool)
    && Subsequence(w.pool.trades, w.log)
    && forall id | id in w.suspended ::
         var r := w.suspended[id];
         && |r.accepted| < |r.stale|
         && forall t | t in r.stale :: IsStale(t, r.now, r.staleAfterMs) && t in w.log
  }

  lemma {:induction false} SubsequenceIn(s: seq<Trade>, log: seq<Trade>, t: Trade)
    requires Subsequence(s, log) && t in s
    ensures t in log
    decreases |log|
  {
    var shorter := log[..|log| - 1];
    assert log == shorter + [log[|log| - 1]];
    if s[|s| - 1] == log[|log| - 1] {
      if t != s[|s| - 1] { SubsequenceIn(s[..|s| - 1], shorter, t); }
    } else {
      SubsequenceIn(s, shorter, t);
    }
  }

  lemma RemoveKeepsInv(w: World, hashes: seq<string>)
    requires Inv(w)
    ensures Inv(w.(pool := Remove(w.pool, hashes)))
  {
    RemoveKeepsValid(w.pool, hashes);
    SubsequenceWithout(w.pool.trades, w.log, Lowered(hashes));
  }

  lemma {:induction false} StepKeepsInv(w: World, e: Event)
    requires Inv(w) && Enabled(w, e)
    ensures Inv(Step(w, e))
  {
    match e {
      case AddTrade(t) =>
        AddKeepsValid(w.pool, t);
        SubsequenceLonger(w.pool.trades, w.log, t);
      case RemoveTrades(hashes) => RemoveKeepsInv(w, hashes);
      case Clear =>
      case Begin(id, now, staleAfterMs) => BeginKeepsInv(w, id, now, staleAfterMs);
      case Answer(id, accepts) =>
        RemoveKeepsInv(w, NotAccepted(w.suspended[id].stale, w.suspended[id].accepted + [accepts]));
        AnswerKeepsInv(w, id, accepts);
    }
  }

  lemma BeginKeepsInv(w: World, id: nat, now: int, staleAfterMs: int)
    requires Inv(w) && id !in w.suspended
    ensures Inv(Step(w, Begin(id, now, staleAfterMs)))
  {
    forall t | t in w.pool.trades ensures t in w.log { SubsequenceIn(w.pool.trades, w.log, t); }
  }

  lemma AnswerKeepsInv(w: World, id: nat, accepts: bool)
    requires Inv(w) && Enabled(w, Answer(id, accepts))
    requires Inv(w.(pool := Remove(w.pool, NotAccepted(w.suspended[id].stale, w.suspended[id].accepted + [accepts]))))
    ensures Inv(Step(w, Answer(id, accepts)))
  {}

  /** The worlds after each event of a run. */
  ghost predicate IsRun(worlds: seq<World>, events: seq<Event>) {
    && |worlds| == |events| + 1 && worlds[0] == World(EMPTY, map[], [])
    && forall i | 0 <= i < |events| :: Enabled(worlds[i], events[i]) && worlds[i + 1] == Step(worlds[i], events[i])
  }

  /** In every interleaving the index holds exactly the lower-cased hashes of the list, no hash is listed twice, and the
      list keeps the order of arrival. */
  lemma {:induction false} EveryRunKeepsPool(worlds: seq<World>, events: seq<Event>, n: nat)
    requires IsRun(worlds, events) && n <= |events|
    ensures Inv(worlds[n])
  {
    if n > 0 {
      EveryRunKeepsPool(worlds, events, n - 1);
      StepKeepsInv(worlds[n - 1], events[n - 1]);
    }
  }

  /** The trades after an event, exactly. A trade is taken in if it has a hash that no trade in the pool has; a
      trade goes only when its hash is removed, when the pool is cleared, or when the last answer of a revalidation
      leaves its hash unaccepted. */
  lemma {:induction false} StepTrades(w: World, e: Event)
    requires Inv(w) && Enabled(w, e)
    ensures var before, after := w.pool.trades, Step(w, e).pool.trades;
            match e
            case AddTrade(t) =>
              after == if t.txHash != "" && forall u | u in before :: Hash(u) != Hash(t) then before + [t] else before
            case Clear => after == []
            case RemoveTrades(hashes) =>
              forall t :: t in after <==> t in before && forall h | h in hashes :: ToLower(h) != Hash(t)
            case Begin(_, _, _) => after == before
            case Answer(id, accepts) =>
              var r := w.suspended[id];
              if |r.accepted| + 1 < |r.stale| then after == before
              else forall t :: t in after <==>
                     t in before && !UnacceptedHash(r.stale, r.accepted + [accepts], Hash(t))
  {
    match e {
      case AddTrade(t) =>
        assert Hash(t) in w.pool.seenHashes <==> exists u :: u in w.pool.trades && Hash(u) == Hash(t);
      case RemoveTrades(hashes) =>
        assert forall h :: h in Lowered(hashes) <==> exists x :: x in hashes && ToLower(x) == h;
      case Answer(id, accepts) =>
        var r := w.suspended[id];
        if |r.accepted| + 1 == |r.stale| { AnswerTrades(w, id, accepts); }
      case _ =>
    }
  }

  /** One of the stale trades that were not accepted has the hash. */
  ghost predicate UnacceptedHash(stale: seq<Trade>, accepted: seq<bool>, h: string)
    requires |accepted| == |stale|
  {
    exists i :: 0 <= i < |stale| && !accepted[i] && Hash(stale[i]) == h
  }

  lemma {:induction false} AnswerTrades(w: World, id: nat, accepts: bool)
    requires Inv(w) && Enabled(w, Answer(id, accepts)) && |w.suspended[id].accepted| + 1 == |w.suspended[id].stale|
    ensures var r := w.suspended[id];
            forall t :: t in Step(w, Answer(id, accepts)).pool.trades <==>
              t in w.pool.trades && !UnacceptedHash(r.stale, r.accepted + [accepts], Hash(t))
  {
    var r := w.suspended[id];
    forall t { LoweredNotAccepted(r.stale, r.accepted + [accepts], Hash(t)); }
  }

  /** The last answer of a revalidation takes out of the pool exactly the trades whose hash is that of a trade which was
      stale when the revalidation began and was not accepted; the others stay, in order. */
  lemma RevalidationRemovesOnlyUnaccepted(w: World, id: nat, accepts: bool, t: Trade)
    requires Inv(w) && Enabled(w, Answer(id, accepts))
    requires |w.suspended[id].accepted| + 1 == |w.suspended[id].stale|
    ensures var r := w.suspended[id];
            var accepted := r.accepted + [accepts];
            var w' := Step(w, Answer(id, accepts));
            && (t in w.pool.trades && t !in w'.pool.trades <==>
                t in w.pool.trades && exists i | 0 <= i < |r.stale| :: !accepted[i] && Hash(r.stale[i]) == Hash(t))
            && (t in w'.pool.trades ==> t in w.pool.trades)
            && (forall i | 0 <= i < |r.stale| :: r.now - r.stale[i].receivedAt > r.staleAfterMs)
            && id !in w'.suspended
  {
    var r := w.suspended[id];
    LoweredNotAccepted(r.stale, r.accepted + [accepts], Hash(t));
    forall i | 0 <= i < |r.stale| ensures r.now - r.stale[i].receivedAt > r.staleAfterMs {
      assert r.stale[i] in r.stale;
    }
  }

  lemma LoweredNotAccepted(stale: seq<Trade>, accepted: seq<bool>, h: string)
    requires |accepted| == |stale|
    ensures h in Lowered(NotAccepted(stale, accepted)) <==>
            exists i | 0 <= i < |stale| :: !accepted[i] && Hash(stale[i]) == h
  {
    var hashes := NotAccepted(stale, accepted);
    if h in Lowered(hashes) {
      var x :| x in hashes && ToLower(x) == h;
    }
    if i :| 0 <= i < |stale| && !accepted[i] && Hash(stale[i]) == h {
      assert stale[i].txHash in hashes;
    }
  }

  /** It can hit a trade that was never stale: one taken in again under the same hash while the simulator was busy. */
  lemma FreshTradeCanBeRemoved(first: Trade, again: Trade)
    requires first.txHash != "" && Hash(first) == Hash(again) && again.txHash != ""
    requires first.receivedAt == 0 && again.receivedAt == 101
    ensures var w0 := World(EMPTY, map[], []);
            var w1 := Step(w0, AddTrade(first));
            var w2 := Step(w1, Begin(0, 101, 100));
            var w3 := Step(w2, RemoveTrades([first.txHash]));
            var w4 := Step(w3, AddTrade(again));
            && 0 in w2.suspended && w4.pool.trades == [again] && !IsStale(again, 101, 100)
            && Enabled(w4, Answer(0, false)) && Step(w4, Answer(0, false)).pool.trades == []
  {
    TakenInAndStale(first, 101, 100);
    TakenOutAndInAgain(first, again, 101, 100);
    var w2 := Revalidating(first, 101, 100);
    LastAnswerRemoves(Step(Step(w2, RemoveTrades([first.txHash])), AddTrade(again)), first, again, 101, 100);
  }

  /** The world after one trade has come in and a revalidation of it has begun. */
  function Revalidating(t: Trade, now: int, staleAfterMs: int): World {
    World(Pool([t], {Hash(t)}), map[0 := Revalidation(now, staleAfterMs, [t], [])], [t])
  }

  lemma TakenInAndStale(t: Trade, now: int, staleAfterMs: int)
    requires t.txHash != "" && IsStale(t, now, staleAfterMs)
    ensures Step(Step(World(EMPTY, map[], []), AddTrade(t)), Begin(0, now, staleAfterMs))
         == Revalidating(t, now, staleAfterMs)
  {
    var w := World(Pool([t], {Hash(t)}), map[], [t]);
    assert Step(World(EMPTY, map[], []), AddTrade(t)) == w;
    OneStale(t, now, staleAfterMs);
    assert Step(w, Begin(0, now, staleAfterMs)).suspended == map[0 := Revalidation(now, staleAfterMs, [t], [])];
  }

  lemma OneStale(t: Trade, now: int, staleAfterMs: int)
    requires IsStale(t, now, staleAfterMs)
    ensures Stale([t], now, staleAfterMs) == [t]
  {
    assert [t][..0] == [];
  }

  /** One trade and its hash: nothing is left. */
  lemma NothingLeft(t: Trade, hash: string)
    requires Hash(t) == ToLower(hash)
    ensures Remove(Pool([t], {Hash(t)}), [hash]) == EMPTY
  {
    assert ToLower(hash) in Lowered([hash]);
    assert [t][..0] == [];
    assert Without([t], Lowered([hash])) == [];
    assert Valid(EMPTY);
  }

  lemma TakenOutAndInAgain(first: Trade, again: Trade, now: int, staleAfterMs: int)
    requires again.txHash != "" && Hash(first) == Hash(again)
    ensures var w := Step(Step(Revalidating(first, now, staleAfterMs), RemoveTrades([first.txHash])), AddTrade(again));
            w.pool == Pool([again], {Hash(again)}) && w.suspended == Revalidating(first, now, staleAfterMs).suspended
  {
    NothingLeft(first, first.txHash);
  }

  lemma LastAnswerRemoves(w: World, first: Trade, again: Trade, now: int, staleAfterMs: int)
    requires Hash(first) == Hash(again) && w.pool == Pool([again], {Hash(again)})
    requires w.suspended == Revalidating(first, now, staleAfterMs).suspended
    ensures Enabled(w, Answer(0, false)) && Step(w, Answer(0, false)).pool.trades == []
  {
    assert [false][..0] == [] && w.suspended[0].accepted + [false] == [false];
    assert NotAccepted([first], [false]) == [first.txHash];
    NothingLeft(again, first.txHash);
    assert Step(w, Answer(0, false)).pool == Remove(w.pool, NotAccepted([first], [false]));
  }
}
