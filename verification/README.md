# Kestrel: verified models of the trading arithmetic, the nonce lock, the intent store and the release order

This project models seven parts of the Kestrel MEV server and its trading SDK, and proves what they promise for all
inputs, all runs and all interleavings. `dafny verify dfyconfig.toml` checks everything (Dafny 4.11).

- **Constant-product arithmetic** (`ConstantProduct`, `TradeCrafter`, `PriceMonitor`, `QuoteEngine`). Swaps are exact
  bigint arithmetic with a 0.3% fee and floor division. A swap's output is characterised as the largest one that a V2
  pair accepts; from that follow product growth, monotonicity, "splitting never pays", "a round trip loses", and that no
  sequence of trades takes value out of a pool at the price it started from. The backrun bound, the near-optimality of the
  64-point grid, the bound over routes of any length and the absence of triangular arbitrage within the fees build on it.
  The batch quoter, with its flat three-calls-per-hop indexing, is compared with quoting route by route.
- **Installation order of the release check** (`InstallOrder`): Kahn's algorithm as loops over the maps and the queue, with
  the graph proof that the order is complete exactly when the names are distinct and no dependency cycle exists.
- **Nonce manager** (`NonceProtocol`, `NonceManager`): a per-address FIFO lock whose holder may wait for a provider that can
  fail. `NonceProtocol` has one event per section of code between two waits and theorems over every interleaving;
  `NonceManager` is the class with its maps and mutable lease lists, each method proved to make one step of one address's
  protocol. The lease list looked up before a wait is an object, and the proof shows that it is still the live one after it.
- **Canonical JSON and idempotent submission** (`CanonicalJson`, `JsonReader`, `IntentStore`): the printer is injective up
  to key order, a reader written from RFC 8259 undoes it, and the replay window holds over whole runs of
  `POST /v1/submit-intent`.
- **Greedy bundler and pending pool** (`BatchingEngine`, `PendingPool`): what is bundled and why the rest is not, on the
  candidates' own fields; the pool under every interleaving.
- **Trace deltas** (`TraceDeltas`): an accumulator filled by a recursive walk, what it makes of encoded calls, and its
  conservation law.
- **Public submission and intent ladder** (`SubmitRetry`, `SubmitErrors`, `IntentFSM`): what every run keeps, and what each
  kind of error leads to, in terms of its text and of the transactions sent.

## Conventions

- Bigints are `int`; division truncates toward zero (`ConstantProduct.TruncDiv`). Strings are lower-cased on the ASCII
  letters, which is what addresses and hashes consist of. A thrown exception or rejected promise is `Err`, `None` or a
  `false` flag, as each datatype says.
- Provider answers, clock readings, fresh identifiers, hashes and signatures are parameters. Each clock reading of a request
  is a parameter of its own. Where SHA-256 must not collide, the lemma says so (`AnsweredOnlyFromSameBody`).
- JSON strings are sequences of UTF-16 code units, including unpaired surrogates, and are escaped as section 7 of RFC 8259
  and well-formed `JSON.stringify` require. A JSON number is represented by the text it prints as.
- An `await` ends a section of code; whatever is written between two of them is one atomic step.
- `{:induction false}` marks lemmas whose induction is written out.

## What turned out differently from the documentation or the expectation

- The price is scaled by 10^19, although its comment says 1e18, and the sale amount is found by a grid, although a comment
  speaks of a binary search (`packages/aerie/src/TradeCrafter.ts:140`, `:272`, `:294`). The model follows the code.
- The fallback sale of a thousandth of the reserve ignores the wallet's balance. `CraftBackrun` states exactly when the
  planned amount exceeds it, and `FallbackCanExceedBalance` gives an input.
- The triangular check can report a gain around balanced pairs for every negative input amount (`NegativeAmountLooksProfitable`),
  and for a negative gas cost. `NoArbitrageExactly` states exactly for which arguments it never does.
- A route without hops is an error one by one, but is answered by the batch. `BatchQuoteV2Routes` states the equivalence
  with quoting one by one exactly; a hop without a pair does not break it.
- A refresh to a count at or below a nonce already handed out can repeat nonces (`RefreshCanRepeatANonce`). It does no harm
  when another refresh or a seed overrides it before a nonce is taken: over a whole run the nonces increase if and only if
  every refresh that is used sets a count above those handed out (`NoncesIncrease`).
- An Idempotency-Key answers whatever body comes with it. `KeyAnswersExactly` states when it answers and with which row,
  `KeyAnswersAnotherBody` exactly when that row belongs to another body.
- A trade whose gas is negative can make room for a more profitable one that was passed over (`NegativeGasBreaksTheOrder`).
  `LexBestExactly` states under which limits the greedy bundle is lexicographically best, `LexBestForEveryLimit` for which
  trades it is under every limit, and `EqualGasGreedyIsOptimal` that with equal gas it then also earns the most.
- A revalidation can remove a fresh trade that came in under the same hash while the simulator was busy
  (`FreshTradeCanBeRemoved`); what it removes is stated exactly.
- A transfer without a sender in a trace adds to the sum of deltas; `DeltasAreConserved` has the exact law.
- A fee bump starts from the network's current fees, not from the rejected transaction's, so it raises the fee only in the
  case `BumpIgnoresRejectedFees` states, and a second bump at the same base fee signs the same transaction.
- A text that does not look like a raw transaction is re-signed up to six times but never sent (`NotRawIsNeverSent`).
- A re-signed contract creation becomes a transfer to the wallet itself (`SubmitRetry.Keeps`).
- A suspended transition can bring a rejected intent back when calls overlap (`OverlapLeavesRejected`, `FinishOnLadder`).

## Model

| member | source | states |
|---|---|---|
| ConstantProduct.OutputIsLargestAccepted | packages/aerie/src/TradeCrafter.ts:276-291 | the simulated output is exactly the largest amount that passes the V2 pair's fee-adjusted product test |
| ConstantProduct.OutputIsGiven | packages/aerie/src/TradeCrafter.ts:276-291 | the simulated output is accepted by the pair and one more is not |
| ConstantProduct.ProductGrows | packages/aerie/src/TradeCrafter.ts:284-290 | new reserves stay positive and their product never falls, and rises strictly when something goes in |
| ConstantProduct.OutputMonotone | packages/aerie/src/TradeCrafter.ts:276-291 | a larger input never buys less |
| ConstantProduct.SplitInTwoNeverPays | packages/aerie/src/TradeCrafter.ts:276-291 | two swaps through the updated reserves yield at most the output of one swap of the sum, floors included |
| ConstantProduct.SplittingNeverPays | packages/aerie/src/TradeCrafter.ts:276-291 | the same for any number of pieces |
| ConstantProduct.RoundTripLoses | packages/aerie/src/TradeCrafter.ts:276-291 | swapping forward and the output straight back returns strictly less |
| ConstantProduct.PoolNeverLosesValue | packages/aerie/src/TradeCrafter.ts:276-291 | after any sequence of trades in either direction the reserves, valued at the starting price, are worth no less |
| Prelude.LowerFoldsCase | packages/protocol-server/src/services/NonceManager.ts:42 | two addresses or hashes are the same key exactly when they differ only in the case of letters |
| TradeCrafter.BackrunBoundedByVictimLoss | packages/aerie/src/TradeCrafter.ts:129-153 | z*T - x*E <= v*T - y*E for any sale of x tokens after a victim that put in v and took y |
| TradeCrafter.BackrunProfitBound | packages/aerie/src/TradeCrafter.ts:129-166 | the reported profit is bounded by the victim's loss plus the rounding of the price and of the cost |
| TradeCrafter.GridNearOptimal | packages/aerie/src/TradeCrafter.ts:305-324 | no amount up to the cap beats every grid point by more than the fair price of one grid gap |
| TradeCrafter.MaximizeProfitTokenSell | packages/aerie/src/TradeCrafter.ts:295-327 | returns the first best profitable grid point or no sale, near-optimal over all amounts, within the balance and half the reserve |
| TradeCrafter.CraftBackrun | packages/aerie/src/TradeCrafter.ts:129-231 | a plan is what the pair gives after the victim, with the profit at the price before the victim up to the roundings and bounded by the victim's loss; a request, and without one any of the 64 grid points, is never refused when the pair's own output covers its gas at that price; exactly when the amount exceeds the balance |
| TradeCrafter.FallbackCanExceedBalance | packages/aerie/src/TradeCrafter.ts:168-181 | an input for which the fallback plans to sell more than the wallet holds |
| QuoteEngine.QuoteRoute | packages/aerie/src/QuoteEngine.ts:97-131 | the loop computes the route's quote or the error of an empty route, a missing pair or a zero denominator |
| QuoteEngine.QuoteShape | packages/aerie/src/QuoteEngine.ts:102-130 | each per-hop amount is the hop's output of the one before, the last is the result, and the gas counts the last hop higher |
| QuoteEngine.FlatCallsShape | packages/aerie/src/QuoteEngine.ts:276-298 | the flat list has three calls per hop at index 3h exactly when every hop has a pair |
| QuoteEngine.ReadIsQuote | packages/aerie/src/QuoteEngine.ts:312-342 | reading three replies per hop gives the sequential quote, unless a reply is missing or failed |
| QuoteEngine.ReadReplies | packages/aerie/src/QuoteEngine.ts:303-351 | the batch answers exactly when every hop has a pair, no call failed and every route quotes, and then with the sequential quotes |
| QuoteEngine.BatchQuoteV2Routes | packages/aerie/src/QuoteEngine.ts:271-357 | equals quoting one by one, also through the fallback, if and only if every route has a hop or the multicall does not answer |
| QuoteEngine.EmptyRouteIsAnsweredOnlyInBatch | packages/aerie/src/QuoteEngine.ts:98-100 | a route without hops is answered in the batch and an error one by one |
| QuoteEngine.RouteMonotone | packages/aerie/src/QuoteEngine.ts:102-131 | over a route of any length a larger input never yields less |
| QuoteEngine.RouteBound | packages/aerie/src/QuoteEngine.ts:102-131 | out * prod(1000*reserveIn) <= in * prod(997*reserveOut) over a route of any length |
| QuoteEngine.RouteIsQuoted | packages/aerie/src/QuoteEngine.ts:102-170 | a route whose hops all have pairs with reserves on both sides is always quoted, each amount being what the pair gives in the hop's direction |
| QuoteEngine.QuoteNeedsPairs | packages/aerie/src/QuoteEngine.ts:107-131 | there is no quote when a hop's pair is missing |
| PriceMonitor.QuotesAgree | packages/aerie/src/PriceMonitor.ts:66-85 | the monitor's, the engine's and the backrun's swap formulas give the same number in the same direction |
| PriceMonitor.NoArbitrageWithinFees | packages/aerie/src/PriceMonitor.ts:96-119 | no opportunity unless the output reserves, reduced by three fees, outweigh the input reserves; for all amounts and gas costs but those the next rows show to fail |
| PriceMonitor.NoArbitrageWithoutImbalance | packages/aerie/src/PriceMonitor.ts:96-119 | in particular none when the product of the output reserves does not exceed that of the input reserves |
| PriceMonitor.NoArbitrageExactly | packages/aerie/src/PriceMonitor.ts:96-119 | no balanced pairs are ever reported if and only if amount and gas cost are not negative or the amount is 0 or 1; the same for pairs within the fees |
| PriceMonitor.NegativeAmountLooksProfitable | packages/aerie/src/PriceMonitor.ts:118-119 | for every negative amount and every gas cost there are balanced pairs that are reported as a gain |
| PriceMonitor.NegativeGasLooksProfitable | packages/aerie/src/PriceMonitor.ts:118-119 | so there are for every negative gas cost and every amount above one |
| PriceMonitor.ReportedExactly | packages/aerie/src/PriceMonitor.ts:96-150 | an opportunity is reported if and only if what the three pairs give in turn exceeds input and gas; each step takes what the one before gave and gives what its pair gives |
| PriceMonitor.ReportedNeedsPairs | packages/aerie/src/PriceMonitor.ts:70-79 | nothing is reported unless the pairs are there and hold the tokens that go in |
| InstallOrder.BuildGraph | tools/release/verify.ts:73-84 | the maps count and list exactly the internal dependencies between listed packages |
| InstallOrder.VisitDependents | tools/release/verify.ts:93-97 | after each pop every in-degree counts the dependencies not yet popped, and exactly the names at zero are queued, once |
| InstallOrder.PopAll | tools/release/verify.ts:89-98 | the loop ends with that invariant, an empty queue and dependencies listed first |
| InstallOrder.CycleAmongLeft | tools/release/verify.ts:90-98 | names left out all need one another, so they contain a cycle |
| InstallOrder.OrderedHasNoCycle | tools/release/verify.ts:90-98 | names listed dependencies first admit no cycle |
| InstallOrder.InstallationOrder | tools/release/verify.ts:72-99 | always a permutation of the names; complete if and only if names are distinct and there is no cycle; dependencies first, and first what is ready first; otherwise a cycle among the unprinted |
| NonceProtocol.LockHolds | packages/protocol-server/src/services/NonceManager.ts:41-73 | in every interleaving at most one caller is inside, it is the head of the queue and awake, and callers leave in order of arrival |
| NonceProtocol.HeadCanLeave | packages/protocol-server/src/services/NonceManager.ts:60-73 | the head can always go on, and its step or the provider's answer or failure releases the lock |
| NonceProtocol.NoncesAreConsecutive | packages/protocol-server/src/services/NonceManager.ts:80-114 | without refreshes the nonces are the seed and its successors, without gap or repeat, despite failing provider calls |
| NonceProtocol.NoncesIncrease | packages/protocol-server/src/services/NonceManager.ts:80-146 | with refreshes anywhere, the nonces of a run increase strictly if and only if every refresh from which a nonce is taken was above those handed out; then each is leased until settled and leases are sorted |
| NonceProtocol.RefreshesNotBelowCache | packages/protocol-server/src/services/NonceManager.ts:80-146 | in every run whose refreshes do not go below the cached next nonce the nonces increase, each leased until settled, leases sorted |
| NonceProtocol.AboveExactly | packages/protocol-server/src/services/NonceManager.ts:86-113 | a nonce handed out is above those before if and only if the refresh that filled the cache, if it was one, was |
| NonceProtocol.RefreshCanRepeatANonce | packages/protocol-server/src/services/NonceManager.ts:138-146 | from any world whose only lease is the last nonce, a refresh to it makes it be handed out and leased twice |
| NonceProtocol.PeekIsLargestOutstanding | packages/protocol-server/src/services/NonceManager.ts:149-153 | the peeked lease is the largest nonce handed out and not settled; none only when all are settled |
| NonceProtocol.BroadcastMarksLease | packages/protocol-server/src/services/NonceManager.ts:117-123 | the lease of the nonce gets the hash and no other lease changes |
| NonceProtocol.SettleKeepsOthers | packages/protocol-server/src/services/NonceManager.ts:126-135 | exactly the lease of the nonce goes, the others keep their hashes |
| NonceManager.ProjectsToRun | packages/protocol-server/src/services/NonceManager.ts:41-146 | what one key sees of any interleaving of sections for all keys is a run of its protocol that ends in its part of the maps |
| NonceManager.EveryAddressFollowsProtocol | packages/protocol-server/src/services/NonceManager.ts:41-146 | so for every address the lock, the order and the exact condition for increasing or consecutive nonces hold of the manager itself |
| NonceManager.NonceManager.Acquire | packages/protocol-server/src/services/NonceManager.ts:41-57 | exactly the protocol's step for this address, none for any other |
| NonceManager.ReleaseSteps | packages/protocol-server/src/services/NonceManager.ts:60-73 | releasing removes the holder and wakes the next of its own queue only |
| NonceManager.ProceedSteps | packages/protocol-server/src/services/NonceManager.ts:86-114 | going on with the lock is the protocol's step of the caller's key and keeps the maps consistent |
| NonceManager.SeededSteps | packages/protocol-server/src/services/NonceManager.ts:95-114 | so is the provider's answer |
| NonceManager.SeedFailedSteps | packages/protocol-server/src/services/NonceManager.ts:95-113 | so is the provider's failure |
| NonceManager.SettleSteps | packages/protocol-server/src/services/NonceManager.ts:126-135 | so is settling a nonce, including the deletion of an emptied list |
| NonceManager.NonceManager.ReserveFromCache | packages/protocol-server/src/services/NonceManager.ts:86-113 | the woken call gets the cached nonce or is suspended holding its list; one step of its key |
| NonceManager.NonceManager.ReserveSeeded | packages/protocol-server/src/services/NonceManager.ts:95-114 | the answer's nonce lands on the live list although the list was looked up before the wait |
| NonceManager.NonceManager.ReserveFails | packages/protocol-server/src/services/NonceManager.ts:95-113 | a failing provider call releases the lock and changes nothing else |
| NonceManager.NonceManager.MarkBroadcast | packages/protocol-server/src/services/NonceManager.ts:117-123 | the first lease of the nonce gets the hash, nothing else changes |
| NonceManager.NonceManager.MarkIncludedOrDropped | packages/protocol-server/src/services/NonceManager.ts:126-135 | the first lease of the nonce goes; a list held by a suspended call is never deleted |
| NonceManager.NonceManager.RefreshFromChain | packages/protocol-server/src/services/NonceManager.ts:138-146 | only the cached nonce of the address changes |
| NonceManager.NonceManager.Peek | packages/protocol-server/src/services/NonceManager.ts:149-153 | the last lease of the address |
| CanonicalJson.CanonicalTextDecidesSameValue | packages/protocol-server/src/services/IntentStore.ts:69-75 | equal text if and only if equal values with the order of object keys ignored, for all nested values |
| CanonicalJson.TextUnique | packages/protocol-server/src/services/IntentStore.ts:69-75 | texts are self-delimiting before any legal continuation |
| CanonicalJson.QuoteUnique | packages/protocol-server/src/services/IntentStore.ts:71-74 | a quoted string determines the string and the rest of the text, surrogates and escapes included |
| CanonicalJson.SortSorts | packages/protocol-server/src/services/IntentStore.ts:73 | distinct keys come out strictly ascending in code-unit order |
| CanonicalJson.LessMeans | packages/protocol-server/src/services/IntentStore.ts:73 | that order: the lesser unit at the first difference, a prefix before what it is a prefix of |
| JsonReader.ReaderUndoesPrinter | packages/protocol-server/src/services/IntentStore.ts:69-75 | a reader written from RFC 8259 reads from the text of any value, before any legal continuation, the same value with the order of keys ignored, and stops there |
| JsonReader.CharsBack | packages/protocol-server/src/services/IntentStore.ts:71-74 | it reads a printed string back unit by unit, through the escape table of section 7 |
| JsonReader.ShortestSpelling | packages/protocol-server/src/services/IntentStore.ts:71-74 | no other text that the reader takes for the same string is shorter |
| JsonReader.PrintedIsWellPaired | packages/protocol-server/src/services/IntentStore.ts:71-74 | a printed string has no surrogate on its own |
| IntentStore.IntentStore.GetByHashWithin | packages/protocol-server/src/services/IntentStore.ts:37-42 | the row of the hash exactly when it is at most the window old |
| IntentStore.IntentStore.GetByIdempotencyKeyWithin | packages/protocol-server/src/services/IntentStore.ts:44-51 | the row of the key within the window; an expired entry is dropped and nothing else |
| IntentStore.IntentStore.Put | packages/protocol-server/src/services/IntentStore.ts:53-56 | both indexes take the row, the key index stays |
| IntentStore.IntentStore.SetIdempotencyKey | packages/protocol-server/src/services/IntentStore.ts:58-60 | the key index takes the row with the time, the others stay |
| IntentStore.IntentStore.SubmitIntent | packages/protocol-server/src/index.ts:342-482 | the handler's new store and answer are those of the specification |
| IntentStore.RowsOfOneBodyAreSpaced | packages/protocol-server/src/index.ts:381-460 | two rows stored for one body are received more than 60 s apart, in every run with a clock that does not go back |
| IntentStore.RepeatGetsFirstRow | packages/protocol-server/src/index.ts:394-403 | a repeat in the window not answered by its key gets the first row and correlation id, and stores nothing |
| IntentStore.AnsweredOnlyFromSameBody | packages/protocol-server/src/index.ts:378-403 | with a collision-free hash, an answer by hash comes from an earlier request with the same JSON value within the window |
| IntentStore.RowsComeFromRequests | packages/protocol-server/src/index.ts:448-460 | every row in any index was stored by an earlier request |
| IntentStore.StoredRowIsKept | packages/protocol-server/src/index.ts:440-460 | a stored intent is found under its id as it was given until another is stored under that id |
| IntentStore.AnswersExactly | packages/protocol-server/src/index.ts:342-460 | what a request not answered by its key gets: the row stored for the same hash at most 60 s ago, or else its own if it is authentic, or else a refusal |
| IntentStore.KeyAnswersExactly | packages/protocol-server/src/index.ts:381-391 | a request is answered by its key if and only if it is valid and some request was stored under the key at most the window ago, and then with the row and body of the last such request |
| IntentStore.KeyAnswersAnotherBody | packages/protocol-server/src/index.ts:381-391 | the row answered belongs to another body if and only if that last request's body differs |
| BatchingEngine.SortDescends | packages/protocol-server/src/services/BatchingEngine.ts:31 | the sort orders by descending profit |
| BatchingEngine.SortStable | packages/protocol-server/src/services/BatchingEngine.ts:31 | trades of equal profit keep their order |
| BatchingEngine.GreedyFeasible | packages/protocol-server/src/services/BatchingEngine.ts:38-54 | whatever the gas, the greedy choice is profitable trade by trade and within the limit |
| BatchingEngine.GreedyIsLexicographicallyBest | packages/protocol-server/src/services/BatchingEngine.ts:30-54 | against any other feasible choice the first trade on which they differ is in the greedy bundle, unless a trade gives gas back beside another profitable one |
| BatchingEngine.LexBestExactly | packages/protocol-server/src/services/BatchingEngine.ts:38-54 | under a given limit that holds if and only if no profitable trade that is passed over would fit with the gas later ones give back |
| BatchingEngine.LexBestForEveryLimit | packages/protocol-server/src/services/BatchingEngine.ts:38-54 | it holds under every limit if and only if no profitable trade with negative gas stands beside another profitable one |
| BatchingEngine.EqualGasGreedyIsOptimal | packages/protocol-server/src/services/BatchingEngine.ts:30-56 | with equal gas no feasible choice has a higher total profit, if and only if the greedy choice is lexicographically best, as it is when that gas is not negative |
| BatchingEngine.BundleBeatsOthers | packages/protocol-server/src/services/BatchingEngine.ts:22-57 | the first candidate, by profit and then by arrival, on which the bundle and another admissible choice differ is in the bundle |
| BatchingEngine.LeftOutReasons | packages/protocol-server/src/services/BatchingEngine.ts:39-50 | a trade is left out as unprofitable, as too large alone, or because it does not fit after the bundled trades that earn no less |
| BatchingEngine.BundleSorted | packages/protocol-server/src/services/BatchingEngine.ts:22-57 | the loop over the sorted list gives the greedy choice with its totals, and the reason for each trade left out |
| BatchingEngine.CreateGreedyBundle | packages/protocol-server/src/services/BatchingEngine.ts:22-81 | on the candidates' own fields: bundled and excluded are together the input; the bundled are profitable, descend in profit, and the totals are their sums; each exclusion's reason is true; no other admissible choice is lexicographically better or, with equal gas, earns more |
| PendingPool.PendingPool.AddTrade | packages/protocol-server/src/services/PendingPool.ts:25-48 | a new hash is appended and indexed; an empty or known one changes nothing |
| PendingPool.PendingPool.RemoveTrades | packages/protocol-server/src/services/PendingPool.ts:63-83 | exactly the trades under the given hashes go, the index is rebuilt, the count is returned |
| PendingPool.PendingPool.Clear | packages/protocol-server/src/services/PendingPool.ts:56-60 | list and index are emptied |
| PendingPool.PendingPool.RevalidateStale | packages/protocol-server/src/services/PendingPool.ts:92-115 | a revalidation that nothing interrupts removes exactly the stale trades that are not accepted |
| PendingPool.PendingPool.EndRevalidation | packages/protocol-server/src/services/PendingPool.ts:99-114 | the unaccepted stale trades' hashes are removed and counted |
| PendingPool.EveryRunKeepsPool | packages/protocol-server/src/services/PendingPool.ts:25-115 | in every interleaving the index is the list's lower-cased hashes, these are distinct, and arrival order is kept |
| PendingPool.StepTrades | packages/protocol-server/src/services/PendingPool.ts:25-115 | the trades after each event, exactly: who is taken in, who stays and who goes |
| PendingPool.RevalidationRemovesOnlyUnaccepted | packages/protocol-server/src/services/PendingPool.ts:97-113 | the end of a revalidation removes exactly the trades whose hash is that of a stale, unaccepted one |
| PendingPool.FreshTradeCanBeRemoved | packages/protocol-server/src/services/PendingPool.ts:97-113 | a run in which a trade that was never stale is removed |
| TraceDeltas.TraceAccumulator.RecordDelta | packages/protocol-server/src/services/TransactionSimulator.ts:211-215 | one token's delta grows, the token joins the set, nothing else changes |
| TraceDeltas.TraceAccumulator.Visit | packages/protocol-server/src/services/TransactionSimulator.ts:219-255 | one frame adds exactly its contribution, or throws exactly when its data cannot be read for the account |
| TraceDeltas.TraceAccumulator.Traverse | packages/protocol-server/src/services/TransactionSimulator.ts:218-263 | every token's delta grows by the sum of the contributions over the whole call tree |
| TraceDeltas.TraceAccumulator.TraverseTrace | packages/protocol-server/src/services/TransactionSimulator.ts:211-263 | on any tree of encoded calls the walk never throws, and each token's delta grows by what those calls move for the account |
| TraceDeltas.EncodedCallMoves | packages/protocol-server/src/services/TransactionSimulator.ts:227-255 | a transfer or transferFrom takes from its source and gives to its destination, a deposit gives WETH and a withdrawal takes it, as read from the selector and the 32-byte words |
| TraceDeltas.ShareIsNet | packages/protocol-server/src/services/TransactionSimulator.ts:228-255 | within one frame what one account loses another gains |
| TraceDeltas.DeltasAreConserved | packages/protocol-server/src/services/TransactionSimulator.ts:211-263 | over all accounts a token's deltas add up to zero, to deposits minus withdrawals for WETH, plus transfers without a sender |
| TraceDeltas.DeltasBalance | packages/protocol-server/src/services/TransactionSimulator.ts:211-263 | with a sender on every transfer the sum is exactly that |
| SubmitRetry.BumpRaisesByAnEighth | packages/protocol-server/src/services/TxBuilder.ts:34-40 | bumped fees are the least above 112.5%, and the priority fee never exceeds the fee |
| SubmitRetry.SubmitPublicTransaction | packages/protocol-server/src/services/BundleSubmitter.ts:433-557 | after the funds check the loop's result, sends and reservations are those of the run |
| SubmitRetry.OneTurn | packages/protocol-server/src/services/BundleSubmitter.ts:484-552 | one pass sends, classifies and handles as specified |
| SubmitRetry.SubmissionKeepsTransaction | packages/protocol-server/src/services/BundleSubmitter.ts:483-553 | at most six sends, all with the original nonce, none reserved; re-signed fees ordered; the same call without a fallback |
| SubmitRetry.HandlersKeep | packages/protocol-server/src/services/ErrorClassifier.ts:128-298 | each handler keeps the nonce and the call, and orders the fees |
| SubmitRetry.SameCallWithoutFallbackError | packages/protocol-server/src/services/ErrorClassifier.ts:82-91 | without an unsupported-type error every transaction sent is the same call |
| SubmitRetry.SubmissionIsBounded | packages/protocol-server/src/services/BundleSubmitter.ts:483-553 | whatever the text, at most six sends and two reserved nonces, none for a parsable one |
| SubmitRetry.NotRawIsNeverSent | packages/protocol-server/src/services/BundleSubmitter.ts:433-485 | a text that does not look raw is never sent and the submission fails |
| SubmitRetry.HashIsOfLastSent | packages/protocol-server/src/services/BundleSubmitter.ts:486-511 | a hash is returned only for the last transaction sent, accepted or already known under it |
| SubmitRetry.BumpIgnoresRejectedFees | packages/protocol-server/src/services/ErrorClassifier.ts:185-224 | exactly when a bump raises the fee; a second bump changes nothing |
| SubmitErrors.ContainsMeans | packages/protocol-server/src/services/ErrorClassifier.ts:43-94 | a text is found in a message exactly when it starts somewhere in it |
| SubmitErrors.SendFollows | packages/protocol-server/src/services/BundleSubmitter.ts:483-553 | every send after the first is what the turn before it left, up to six, all with the original nonce |
| SubmitErrors.AfterUnderpriced | packages/protocol-server/src/services/ErrorClassifier.ts:53-60 | the next send is the same call and nonce at the least fees above 112.5% of the network's; without wallet or signature the same transaction, after the first three sends |
| SubmitErrors.AfterNonceTooLow | packages/protocol-server/src/services/ErrorClassifier.ts:63-70 | the next send is the same call and nonce at exactly the network's fees, if the refresh succeeded; otherwise the same transaction, after the first two |
| SubmitErrors.AfterNoFunds | packages/protocol-server/src/services/ErrorClassifier.ts:73-80 | nothing more is sent and the submission fails |
| SubmitErrors.AfterUnsupported | packages/protocol-server/src/services/ErrorClassifier.ts:83-91 | the next send is an empty payment of the wallet to itself under the same nonce |
| SubmitErrors.GarbledIsReplaced | packages/protocol-server/src/services/ErrorClassifier.ts:262-298 | for a text that cannot be parsed it goes under a newly reserved nonce |
| SubmitErrors.AfterOther | packages/protocol-server/src/services/ErrorClassifier.ts:94-122 | the same transaction is sent again, after the first three sends for a timeout or the network, after the first otherwise |
| SubmitErrors.AfterKnown | packages/protocol-server/src/services/ErrorClassifier.ts:43-50 | nothing more is sent and the result is the transaction's own hash |
| SubmitErrors.AfterAcceptance | packages/protocol-server/src/services/BundleSubmitter.ts:486-487 | nothing more is sent and the result is the hash answered |
| IntentFSM.IntentFSM.Transition | packages/protocol-server/src/services/IntentFSM.ts:33-81 | the row's new state and reason, the result and the store after one call |
| IntentFSM.StepOnLadder | packages/protocol-server/src/services/IntentFSM.ts:21-76 | each call stays, climbs one rung or falls to REJECTED, which is absorbing |
| IntentFSM.CallOnLadder | packages/protocol-server/src/services/IntentFSM.ts:21-76 | a call reaches its target exactly when that is the next rung and the advance succeeds; otherwise it stays or rejects |
| IntentFSM.AllowedIsNextRung | packages/protocol-server/src/services/IntentFSM.ts:21-31 | the table lists exactly the next rung, and rejection from the three states of checking |
| IntentFSM.LadderIsClimbed | packages/protocol-server/src/services/IntentFSM.ts:21-31 | RECEIVED reaches INCLUDED and DROPPED rung by rung |
| IntentFSM.PassedEveryLowerRung | packages/protocol-server/src/services/IntentFSM.ts:21-76 | an intent on a rung has been on every lower one |
| IntentFSM.ChangesCountRungs | packages/protocol-server/src/services/IntentFSM.ts:21-76 | at most seven changes, one per rung unless rejected |
| IntentFSM.RejectedIsFinal | packages/protocol-server/src/services/IntentFSM.ts:30-51 | once rejected, rejected for the rest of the run |
| IntentFSM.OverlapLeavesRejected | packages/protocol-server/src/services/IntentFSM.ts:61-66 | overlapping calls can bring a rejected intent back |

## Left out

- Express wiring, logging, metrics, audits, database, file and shell calls, relay and RPC clients: input and output.
- ABI and RLP encoding, signing and the shape of a library's results: a pair read is one value with both reserves and the
  first token; a signed transaction is what parsing it gives.
- V3 quotes, mixed routes and `quoteRoutesBatch`: the V3 fallback does not compute what it states, and the batch regroups
  its results by DEX type.
- `BumpPolicy.bumpFees`: not on the retry path; its bump factor is an integer division equal to 1.
- Floating-point scoring and probabilities, jitter, profit gate, fee split, reason registry, validators, stage guards.
- The balance maps and positive-delta list that `analyze` fills after the walk: copies of the deltas.
- `POST /intent` and the admin routes that also write the intent store: the replay theorems are about runs of
  `/v1/submit-intent`.
- NonceManager: more than one provider, and address text beyond ASCII letters.
- JsonReader.ReaderUndoesPrinter: a number is read as its text; which texts are numbers is not checked further than their
  units.
- CanonicalJson.CanonicalTextDecidesSameValue: numbers are given by the text they print as, so it does not tell -0 from 0
  and leaves out values that a JSON body cannot hold, such as undefined.
- BatchingEngine.SortStable: the built-in sort is a function on values, not an update in place.
- QuoteEngine.RouteBound: reserves and amounts are not negative, as on chain.
- QuoteEngine.RouteMonotone: reserves and amounts are not negative, as on chain.
- PriceMonitor.NoArbitrageExactly: speaks of pairs whose reserves are not negative, as on chain.
- PendingPool.PendingPool.EndRevalidation: the simulator's answers are taken together at the end, since they only fill a
  local list; the interleavings are in `PendingPool.Step`.
- SubmitRetry.SubmitPublicTransaction: backoff delays, logging, the chain id and access list of a transaction, and the
  marking of the broadcast lease after success.
- IntentFSM.PassedEveryLowerRung: calls on one intent do not overlap; `OverlapLeavesRejected` shows why.
