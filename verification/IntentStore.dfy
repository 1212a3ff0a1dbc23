/** The in-memory store of intents and the idempotent `POST /v1/submit-intent` on top of it. */
module IntentStore {
  import opened Prelude
  import opened CanonicalJson

  const IDEMPOTENCY_WINDOW_MS := 60 * 1000

  datatype IntentState =
    RECEIVED | SCREENED | VALIDATED | ENRICHED | QUEUED | SUBMITTED | INCLUDED | DROPPED | REJECTED

  /** A stored intent. Only its state and reason change after it is stored. */
  class IntentRow {
    const intentId: string
    const requestHash: string
    const correlationId: string
    const receivedAt: int
    const payload: Json
    var state: IntentState
    var reasonCode: string

    constructor (intentId: string, requestHash: string, correlationId: string, receivedAt: int, payload: Json)
      ensures View() == Row(intentId, requestHash, correlationId, receivedAt, payload)
      ensures state == RECEIVED && reasonCode == "ok"
    {
      this.intentId, this.requestHash, this.correlationId := intentId, requestHash, correlationId;
      this.receivedAt, this.payload := receivedAt, payload;
      state, reasonCode := RECEIVED, "ok";
    }

    function View(): Row {
      Row(intentId, requestHash, correlationId, receivedAt, payload)
    }
  }

  /** The part of a row that never changes. */
  datatype Row = Row(intentId: string, requestHash: string, correlationId: string, receivedAt: int, payload: Json)

  datatype KeyEntry = KeyEntry(row: Row, ts: int)

  /** What the store's three maps hold. */
  datatype Store = Store(byId: map<string, Row>, byHash: map<string, Row>, byKey: map<string, KeyEntry>)

  const EMPTY := Store(map[], map[], map[])

  function RowByHashWithin(s: Store, hash: string, windowMs: int, now: int): Option<Row> {
    if hash in s.byHash && now - s.byHash[hash].receivedAt <= windowMs then Some(s.byHash[hash]) else None
  }

  function RowByKeyWithin(s: Store, key: string, windowMs: int, now: int): Option<Row> {
    if key in s.byKey && now - s.byKey[key].ts <= windowMs then Some(s.byKey[key].row) else None
  }

  /** An expired key entry is dropped when it is looked at. */
  function DropExpired(s: Store, key: string, windowMs: int, now: int): Store {
    if key in s.byKey && now - s.byKey[key].ts > windowMs then s.(byKey := s.byKey - {key}) else s
  }

  function WithRow(s: Store, row: Row): Store {
    s.(byId := s.byId[row.intentId := row], byHash := s.byHash[row.requestHash := row])
  }

  function WithKey(s: Store, key: string, row: Row, now: int): Store {
    s.(byKey := s.byKey[key := KeyEntry(row, now)])
  }

  function Rows(rows: map<string, IntentRow>): map<string, Row> {
    map k | k in rows :: rows[k].View()
  }

  lemma RowsWith(rows: map<string, IntentRow>, key: string, row: IntentRow)
    ensures Rows(rows[key := row]) == Rows(rows)[key := row.View()]
  {}

  datatype KeyRef = KeyRef(row: IntentRow, ts: int)

  class IntentStore {
    var byId: map<string, IntentRow>
    var byHash: map<string, IntentRow>
    var idempotencyMap: map<string, KeyRef>
    const sha256: Text -> string

    constructor (sha256: Text -> string)
      ensures View() == EMPTY && this.sha256 == sha256
    {
      byId, byHash, idempotencyMap := map[], map[], map[];
      this.sha256 := sha256;
    }

    ghost function View(): Store
      reads this
    {
      Store(Rows(byId), Rows(byHash),
            map k | k in idempotencyMap :: KeyEntry(idempotencyMap[k].row.View(), idempotencyMap[k].ts))
    }

    function ComputeHash(body: Json): string {
      sha256(Canonicalize(body))
    }

    method GetByHashWithin(hash: string, windowMs: int, now: int) returns (r: Option<IntentRow>)
      ensures r.Some? <==> RowByHashWithin(View(), hash, windowMs, now).Some?
      ensures r.Some? ==> Some(r.value.View()) == RowByHashWithin(View(), hash, windowMs, now)
      ensures r == if hash in byHash && now - byHash[hash].receivedAt <= windowMs then Some(byHash[hash]) else None
    {
      if hash !in byHash { return None; }
      var row := byHash[hash];
      if now - row.receivedAt <= windowMs { return Some(row); }
      return None;
    }

    method GetByIdempotencyKeyWithin(key: string, windowMs: int, now: int) returns (r: Option<IntentRow>)
      modifies this
      ensures r.Some? <==> RowByKeyWithin(old(View()), key, windowMs, now).Some?
      ensures r.Some? ==> Some(r.value.View()) == RowByKeyWithin(old(View()), key, windowMs, now)
      ensures View() == DropExpired(old(View()), key, windowMs, now)
      ensures byId == old(byId) && byHash == old(byHash)
      ensures var before := old(idempotencyMap);
              if key !in before then r == None && idempotencyMap == before
              else if now - before[key].ts <= windowMs then r == Some(before[key].row) && idempotencyMap == before
              else r == None && idempotencyMap == before - {key}
    {
      if key !in idempotencyMap { return None; }
      var entry := idempotencyMap[key];
      if now - entry.ts <= windowMs { return Some(entry.row); }
      idempotencyMap := idempotencyMap - {key};
      return None;
    }

    method Put(row: IntentRow)
      modifies this
      ensures View() == WithRow(old(View()), row.View())
      ensures byId == old(byId)[row.intentId := row] && byHash == old(byHash)[row.requestHash := row]
      ensures idempotencyMap == old(idempotencyMap)
    {
      RowsWith(byId, row.intentId, row);
      RowsWith(byHash, row.requestHash, row);
      byId := byId[row.intentId := row];
      byHash := byHash[row.requestHash := row];
    }

    method SetIdempotencyKey(key: string, row: IntentRow, now: int)
      modifies this
      ensures View() == WithKey(old(View()), key, row.View(), now)
      ensures idempotencyMap == old(idempotencyMap)[key := KeyRef(row, now)]
      ensures byId == old(byId) && byHash == old(byHash)
    {
      idempotencyMap := idempotencyMap[key := KeyRef(row, now)];
    }

    /** The handler's synchronous course from the header check to the answer. */
    method SubmitIntent(r: Request) returns (response: Response)
      modifies this
      ensures Outcome(View(), response) == Handle(sha256, old(View()), r)
    {
      if !r.headersPresent { return Refused; }
      if !r.schemaValid { return Refused; }
      var requestHash := ComputeHash(r.body);
      if r.idempotencyKey != "" {
        var existingByKey := GetByIdempotencyKeyWithin(r.idempotencyKey, IDEMPOTENCY_WINDOW_MS, r.keyCheckedAt);
        if existingByKey.Some? { return ByKey(existingByKey.value.View()); }
      }
      var existing := GetByHashWithin(requestHash, IDEMPOTENCY_WINDOW_MS, r.hashCheckedAt);
      if existing.Some? { return ByHash(existing.value.View()); }
      if !r.authentic { return Refused; }
      var row := new IntentRow(r.intentId, requestHash, r.correlationId, r.storedAt, r.body);
      Put(row);
      if r.idempotencyKey != "" {
        SetIdempotencyKey(r.idempotencyKey, row, r.keySetAt);
      }
      return Stored(row.View());
    }
  }

  /** One request: what the header, schema and signature checks make of it, its body with the intent id in it, a missing
      Idempotency-Key as "", the fresh correlation id, and the readings of the clock in the order they are taken. */
  datatype Request = Request(
    headersPresent: bool, schemaValid: bool, authentic: bool, idempotencyKey: string, body: Json, intentId: string,
    correlationId: string, keyCheckedAt: int, hashCheckedAt: int, storedAt: int, keySetAt: int)

  /** `Refused` stands for every error envelope. */
  datatype Response = Refused | ByKey(row: Row) | ByHash(row: Row) | Stored(row: Row)

  datatype Outcome = Outcome(store: Store, response: Response)

  function RequestHash(sha: Text -> string, r: Request): string {
    sha(Canonicalize(r.body))
  }

  function Handle(sha: Text -> string, s: Store, r: Request): Outcome {
    if !r.headersPresent || !r.schemaValid then Outcome(s, Refused) else
    var byKey := if r.idempotencyKey == "" then None
                 else RowByKeyWithin(s, r.idempotencyKey, IDEMPOTENCY_WINDOW_MS, r.keyCheckedAt);
    if byKey.Some? then Outcome(s, ByKey(byKey.value)) else
    var s1 := if r.idempotencyKey == "" then s
              else DropExpired(s, r.idempotencyKey, IDEMPOTENCY_WINDOW_MS, r.keyCheckedAt);
    var byHash := RowByHashWithin(s1, RequestHash(sha, r), IDEMPOTENCY_WINDOW_MS, r.hashCheckedAt);
    if byHash.Some? then Outcome(s1, ByHash(byHash.value)) else
    if !r.authentic then Outcome(s1, Refused) else
    var row := Row(r.intentId, RequestHash(sha, r), r.correlationId, r.storedAt, r.body);
    var s2 := WithRow(s1, row);
    Outcome(if r.idempotencyKey == "" then s2 else WithKey(s2, r.idempotencyKey, row, r.keySetAt), Stored(row))
  }

  // ---- runs ----

  /** The store after the first `n` requests. */
  function StateAt(sha: Text -> string, run: seq<Request>, n: nat): Store
    requires n <= |run|
  {
    if n == 0 then EMPTY else Handle(sha, StateAt(sha, run, n - 1), run[n - 1]).store
  }

  function ResponseAt(sha: Text -> string, run: seq<Request>, i: nat): Response
    requires i < |run|
  {
    Handle(sha, StateAt(sha, run, i), run[i]).response
  }

  /** The clock never goes back, within a request or from one to the next. */
  predicate Clocked(run: seq<Request>) {
    && (forall i | 0 <= i < |run| ::
          run[i].keyCheckedAt <= run[i].hashCheckedAt <= run[i].storedAt <= run[i].keySetAt)
    && forall i, j | 0 <= i < j < |run| :: run[i].keySetAt <= run[j].keyCheckedAt
  }

  /** Whoever stored first, the hash keeps a row that is no older. */
  lemma {:induction false} HashStaysTaken(sha: Text -> string, run: seq<Request>, i: nat, k: nat)
    requires Clocked(run) && i < k <= |run| && ResponseAt(sha, run, i).Stored?
    ensures var row := ResponseAt(sha, run, i).row;
            && row.requestHash in StateAt(sha, run, k).byHash
            && StateAt(sha, run, k).byHash[row.requestHash].receivedAt >= row.receivedAt
    decreases k
  {
    if i + 1 < k {
      HashStaysTaken(sha, run, i, k - 1);
      assert run[i].keySetAt <= run[k - 1].keyCheckedAt;
    }
  }

  /** Two rows stored for the same body are received more than the window apart. */
  lemma {:induction false} RowsOfOneBodyAreSpaced(sha: Text -> string, run: seq<Request>, i: nat, j: nat)
    requires Clocked(run) && i < j < |run|
    requires ResponseAt(sha, run, i).Stored? && ResponseAt(sha, run, j).Stored?
    requires Canonicalize(run[i].body) == Canonicalize(run[j].body)
    ensures ResponseAt(sha, run, j).row.receivedAt - ResponseAt(sha, run, i).row.receivedAt > 60_000
  {
    HashStaysTaken(sha, run, i, j);
  }

  /** Inside the window the hash keeps the very row that was stored. */
  lemma {:induction false} RowHoldsInWindow(sha: Text -> string, run: seq<Request>, i: nat, k: nat, j: nat)
    requires Clocked(run) && i < k <= j < |run| && ResponseAt(sha, run, i).Stored?
    requires run[j].hashCheckedAt - ResponseAt(sha, run, i).row.receivedAt <= 60_000
    ensures var row := ResponseAt(sha, run, i).row;
            row.requestHash in StateAt(sha, run, k).byHash && StateAt(sha, run, k).byHash[row.requestHash] == row
    decreases k
  {
    if i + 1 < k {
      RowHoldsInWindow(sha, run, i, k - 1, j);
      assert run[k - 1].keySetAt <= run[j].keyCheckedAt;
    }
  }

  /** A valid repeat inside the window that is not answered by its Idempotency-Key gets the first row, and with it the
      first correlation id; it changes neither index, so the window keeps running from the first row. */
  lemma {:induction false} RepeatGetsFirstRow(sha: Text -> string, run: seq<Request>, i: nat, j: nat)
    requires Clocked(run) && i < j < |run| && ResponseAt(sha, run, i).Stored?
    requires Canonicalize(run[i].body) == Canonicalize(run[j].body)
    requires run[j].headersPresent && run[j].schemaValid && !ResponseAt(sha, run, j).ByKey?
    requires run[j].hashCheckedAt - ResponseAt(sha, run, i).row.receivedAt <= 60_000
    ensures ResponseAt(sha, run, j) == ByHash(ResponseAt(sha, run, i).row)
    ensures ResponseAt(sha, run, j).row.correlationId == run[i].correlationId
    ensures StateAt(sha, run, j + 1).byId == StateAt(sha, run, j).byId
    ensures StateAt(sha, run, j + 1).byHash == StateAt(sha, run, j).byHash
  {
    RowHoldsInWindow(sha, run, i, j, j);
  }

  /** One of the three maps leads to the row. */
  ghost predicate Holds(s: Store, row: Row) {
    row in s.byHash.Values || row in s.byId.Values || exists k :: k in s.byKey && s.byKey[k].row == row
  }

  lemma {:induction false} HandleHolds(sha: Text -> string, s: Store, r: Request, row: Row)
    requires Holds(Handle(sha, s, r).store, row) && Handle(sha, s, r).response != Stored(row)
    ensures Holds(s, row)
  {}

  /** Every row in any of the maps was stored by an earlier request. */
  lemma {:induction false} RowsComeFromRequests(sha: Text -> string, run: seq<Request>, n: nat, row: Row)
    requires n <= |run| && Holds(StateAt(sha, run, n), row)
    ensures exists i | 0 <= i < n :: ResponseAt(sha, run, i) == Stored(row)
    decreases n
  {
    if n > 0 && ResponseAt(sha, run, n - 1) != Stored(row) {
      HandleHolds(sha, StateAt(sha, run, n - 1), run[n - 1], row);
      RowsComeFromRequests(sha, run, n - 1, row);
    }
  }

  lemma {:induction false} HashIndexKeyed(sha: Text -> string, run: seq<Request>, n: nat, h: string)
    requires n <= |run| && h in StateAt(sha, run, n).byHash
    ensures StateAt(sha, run, n).byHash[h].requestHash == h
    decreases n
  {
    if n > 0 && h in StateAt(sha, run, n - 1).byHash {
      HashIndexKeyed(sha, run, n - 1, h);
    }
  }

  /** With a hash free of collisions, a request is answered by hash only from a row whose body is the same JSON value
      with the order of keys ignored, stored by an earlier request at most the window ago. */
  lemma {:induction false} AnsweredOnlyFromSameBody(sha: Text -> string, run: seq<Request>, j: nat)
    requires j < |run| && ResponseAt(sha, run, j).ByHash?
    requires forall x, y :: sha(x) == sha(y) ==> x == y
    requires forall i | 0 <= i < |run| :: WellFormed(run[i].body)
    ensures exists i | 0 <= i < j ::
              && ResponseAt(sha, run, i) == Stored(ResponseAt(sha, run, j).row)
              && SameValue(run[i].body, run[j].body)
              && run[j].hashCheckedAt - run[i].storedAt <= 60_000
  {
    var row := ResponseAt(sha, run, j).row;
    var h := RequestHash(sha, run[j]);
    HashIndexKeyed(sha, run, j, h);
    RowsComeFromRequests(sha, run, j, row);
    var i :| 0 <= i < j && ResponseAt(sha, run, i) == Stored(row);
    assert sha(Canonicalize(run[i].body)) == sha(Canonicalize(run[j].body));
    CanonicalTextDecidesSameValue(run[i].body, run[j].body);
  }

  /** Exactly when a request stores a row: it is valid and authentic, its key does not answer it, and the row of its
      hash, if there is one, is older than the window. */
  lemma {:induction false} StoresExactlyWhenNew(sha: Text -> string, s: Store, r: Request)
    ensures Handle(sha, s, r).response.Stored? <==>
            && r.headersPresent && r.schemaValid && r.authentic
            && !(r.idempotencyKey != "" && r.idempotencyKey in s.byKey
                 && r.keyCheckedAt <= s.byKey[r.idempotencyKey].ts + 60_000)
            && !(RequestHash(sha, r) in s.byHash
                 && r.hashCheckedAt <= s.byHash[RequestHash(sha, r)].receivedAt + 60_000)
    ensures !Handle(sha, s, r).response.Stored? ==>
              Handle(sha, s, r).store.byId == s.byId && Handle(sha, s, r).store.byHash == s.byHash
  {}

  // ---- every answer ----

  predicate Acceptable(r: Request) {
    r.headersPresent && r.schemaValid
  }

  /** The row that a request is stored as. */
  function RowOf(sha: Text -> string, r: Request): Row {
    Row(r.intentId, sha(Canonicalize(r.body)), r.correlationId, r.storedAt, r.body)
  }

  lemma {:induction false} StoredAsGiven(sha: Text -> string, run: seq<Request>, i: nat)
    requires i < |run| && ResponseAt(sha, run, i).Stored?
    ensures ResponseAt(sha, run, i) == Stored(RowOf(sha, run[i])) && Acceptable(run[i]) && run[i].authentic
  {}

  /** A stored intent is found under its id, as it was given, until another is stored under the same id. */
  lemma {:induction false} StoredRowIsKept(sha: Text -> string, run: seq<Request>, i: nat, n: nat)
    requires i < n <= |run| && ResponseAt(sha, run, i).Stored?
    requires forall k: nat | i < k < n && ResponseAt(sha, run, k).Stored? :: run[k].intentId != run[i].intentId
    ensures var byId := StateAt(sha, run, n).byId;
            run[i].intentId in byId && byId[run[i].intentId] == RowOf(sha, run[i])
    decreases n
  {
    StoredAsGiven(sha, run, i);
    if i + 1 < n {
      StoredRowIsKept(sha, run, i, n - 1);
      IdIndexStays(sha, StateAt(sha, run, n - 1), run[n - 1], run[i].intentId);
    }
  }

  lemma {:induction false} IdIndexStays(sha: Text -> string, s: Store, r: Request, id: string)
    requires id in s.byId && (Handle(sha, s, r).response.Stored? ==> r.intentId != id)
    ensures var byId := Handle(sha, s, r).store.byId; id in byId && byId[id] == s.byId[id]
  {}

  /** An earlier request was stored for the same hash, and the later one looks within the window. */
  ghost predicate RepeatOf(sha: Text -> string, run: seq<Request>, i: nat, j: nat)
    requires i < j < |run|
  {
    && ResponseAt(sha, run, i).Stored?
    && sha(Canonicalize(run[i].body)) == sha(Canonicalize(run[j].body))
    && run[j].hashCheckedAt - run[i].storedAt <= 60_000
  }

  lemma {:induction false} RepeatIsAnswered(sha: Text -> string, run: seq<Request>, i: nat, j: nat)
    requires Clocked(run) && i < j < |run| && RepeatOf(sha, run, i, j)
    requires Acceptable(run[j]) && !ResponseAt(sha, run, j).ByKey?
    ensures ResponseAt(sha, run, j) == ByHash(RowOf(sha, run[i]))
  {
    StoredAsGiven(sha, run, i);
    RowHoldsInWindow(sha, run, i, j, j);
  }

  lemma {:induction false} AnsweredIsRepeat(sha: Text -> string, run: seq<Request>, j: nat) returns (i: nat)
    requires Clocked(run) && j < |run| && ResponseAt(sha, run, j).ByHash?
    ensures i < j && RepeatOf(sha, run, i, j) && ResponseAt(sha, run, j) == ByHash(RowOf(sha, run[i]))
  {
    var row := ResponseAt(sha, run, j).row;
    HashIndexKeyed(sha, run, j, RequestHash(sha, run[j]));
    RowsComeFromRequests(sha, run, j, row);
    i :| 0 <= i < j && ResponseAt(sha, run, i) == Stored(row);
    StoredAsGiven(sha, run, i);
  }

  /** What each request is answered, in terms of the requests before it: by its key; or else, exactly for a repeat
      within the window, with the row that was stored then; or else it is stored exactly when it is authentic. */
  lemma {:induction false} AnswersExactly(sha: Text -> string, run: seq<Request>, j: nat)
    requires Clocked(run) && j < |run| && !ResponseAt(sha, run, j).ByKey?
    ensures var response := ResponseAt(sha, run, j);
            var repeats := exists i: nat :: i < j && RepeatOf(sha, run, i, j);
            && (response.ByHash? <==> Acceptable(run[j]) && repeats)
            && (response.ByHash? ==>
                  exists i: nat :: i < j && RepeatOf(sha, run, i, j) && response.row == RowOf(sha, run[i]))
            && (response.Stored? <==> Acceptable(run[j]) && run[j].authentic && !repeats)
            && (response.Stored? ==> response.row == RowOf(sha, run[j]))
            && (response.Refused? <==> !Acceptable(run[j]) || (!run[j].authentic && !repeats))
  {
    var response := ResponseAt(sha, run, j);
    if response.ByHash? { var i := AnsweredIsRepeat(sha, run, j); }
    if i: nat :| i < j && RepeatOf(sha, run, i, j) {
      if Acceptable(run[j]) { RepeatIsAnswered(sha, run, i, j); }
    }
  }

  // ---- the Idempotency-Key ----

  predicate StoredUnder(sha: Text -> string, run: seq<Request>, key: string, i: nat)
    requires i < |run|
  {
    run[i].idempotencyKey == key && ResponseAt(sha, run, i).Stored?
  }

  /** The last of the first `n` requests that was stored under the key; -1 when there is none. */
  function LastUnder(sha: Text -> string, run: seq<Request>, key: string, n: nat): (i: int)
    requires n <= |run|
    ensures -1 <= i < n
  {
    if n == 0 then -1 else if StoredUnder(sha, run, key, n - 1) then n - 1 else LastUnder(sha, run, key, n - 1)
  }

  lemma {:induction false} LastUnderIsLast(sha: Text -> string, run: seq<Request>, key: string, n: nat)
    requires n <= |run|
    ensures var l := LastUnder(sha, run, key, n);
            && (l >= 0 ==> StoredUnder(sha, run, key, l))
            && forall i: nat | l < i < n :: !StoredUnder(sha, run, key, i)
  {
    if n > 0 { LastUnderIsLast(sha, run, key, n - 1); }
  }

  /** An entry is that of the last request stored under its key. */
  lemma {:induction false} EntryIsLast(sha: Text -> string, run: seq<Request>, key: string, n: nat)
    requires n <= |run| && key != "" && key in StateAt(sha, run, n).byKey
    ensures var l := LastUnder(sha, run, key, n);
            && l >= 0 && StoredUnder(sha, run, key, l)
            && StateAt(sha, run, n).byKey[key] == KeyEntry(ResponseAt(sha, run, l).row, run[l].keySetAt)
  {
    if n > 0 && !StoredUnder(sha, run, key, n - 1) { EntryIsLast(sha, run, key, n - 1); }
  }

  /** And it is there until a look at it after the window. */
  lemma {:induction false} EntryHolds(sha: Text -> string, run: seq<Request>, key: string, i: nat, n: nat, j: nat)
    requires Clocked(run) && i < n <= j < |run| && key != "" && StoredUnder(sha, run, key, i)
    requires run[j].keyCheckedAt - run[i].keySetAt <= 60_000
    ensures key in StateAt(sha, run, n).byKey && StateAt(sha, run, n).byKey[key].ts >= run[i].keySetAt
    decreases n
  {
    if i + 1 < n {
      EntryHolds(sha, run, key, i, n - 1, j);
      var m := n - 1;
      assert run[i].keySetAt <= run[m].keyCheckedAt <= run[m].keySetAt <= run[j].keyCheckedAt;
    }
  }

  /** Exactly when a request is answered by its key: when it is valid and some request stored under the key lies within
      the window. The answer is the row of the last such request. */
  lemma {:induction false} KeyAnswersExactly(sha: Text -> string, run: seq<Request>, j: nat)
    requires Clocked(run) && j < |run|
    ensures var key, response := run[j].idempotencyKey, ResponseAt(sha, run, j);
            var l := LastUnder(sha, run, key, j);
            && (response.ByKey? <==>
                  && run[j].headersPresent && run[j].schemaValid && key != ""
                  && exists i | 0 <= i < j ::
                       StoredUnder(sha, run, key, i) && run[j].keyCheckedAt - run[i].keySetAt <= 60_000)
            && (response.ByKey? ==>
                  && l >= 0 && StoredUnder(sha, run, key, l)
                  && (forall i: nat | l < i < j :: !StoredUnder(sha, run, key, i))
                  && response.row == ResponseAt(sha, run, l).row && response.row.payload == run[l].body
                  && run[j].keyCheckedAt - run[l].keySetAt <= 60_000)
  {
    var key := run[j].idempotencyKey;
    LastUnderIsLast(sha, run, key, j);
    if key != "" {
      if key in StateAt(sha, run, j).byKey { EntryIsLast(sha, run, key, j); }
      if i :| 0 <= i < j && StoredUnder(sha, run, key, i)
              && run[j].keyCheckedAt - run[i].keySetAt <= 60_000 {
        EntryHolds(sha, run, key, i, j, j);
      }
    }
  }

  /** The answer by key belongs to another body exactly when the last request stored under the key, still within the
      window, had another body: the body at hand plays no part. */
  lemma {:induction false} KeyAnswersAnotherBody(sha: Text -> string, run: seq<Request>, j: nat)
    requires Clocked(run) && j < |run| && run[j].headersPresent && run[j].schemaValid && run[j].idempotencyKey != ""
    ensures var response, l := ResponseAt(sha, run, j), LastUnder(sha, run, run[j].idempotencyKey, j);
            response.ByKey? && !SameValue(response.row.payload, run[j].body) <==>
            && l >= 0 && run[j].keyCheckedAt - run[l].keySetAt <= 60_000
            && !SameValue(run[l].body, run[j].body)
  {
    KeyAnswersExactly(sha, run, j);
    LastUnderIsLast(sha, run, run[j].idempotencyKey, j);
  }

  /** For instance, the second of two requests under one key. */
  lemma {:induction false} KeyAnswersAnotherBodyExample(sha: Text -> string)
    ensures var first := Request(true, true, true, "k", Bool(true), "a", "corr_1", 0, 0, 0, 0);
            var second := Request(true, true, true, "k", Bool(false), "b", "corr_2", 1, 1, 1, 1);
            && ResponseAt(sha, [first, second], 0).Stored?
            && ResponseAt(sha, [first, second], 1) == ByKey(ResponseAt(sha, [first, second], 0).row)
            && !SameValue(first.body, second.body)
  {
    var first := Request(true, true, true, "k", Bool(true), "a", "corr_1", 0, 0, 0, 0);
    var second := Request(true, true, true, "k", Bool(false), "b", "corr_2", 1, 1, 1, 1);
    assert StateAt(sha, [first, second], 1) == Handle(sha, EMPTY, first).store;
  }
}
