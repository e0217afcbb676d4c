# httpcatch: model and proofs

httpcatch captures HTTP requests and the response and outbound events correlated with them,
redacts them, keeps them in a memory ring and in SQLite, and answers searches over both.
This project models the parts where a mistake is hard to see and proves what they are for.

**Search language.** `Tokenizer`, `Parser` and `Printer` follow the quote-aware tokenizer, the
term parser and the chip printer. `RoundTrip` shows that the text a search is shown as always
parses back to the same terms. `CompilePredicate` is the in-memory backend. `CompileSql` emits SQL
as an expression with placeholders plus an argument list; `Sql` gives both a three-valued
meaning, and `Like` is SQLite's case-sensitive LIKE. `Arguments`, `RootsQuery` and `RootsRows`
show that every placeholder of the complete statement receives its own argument and what rows
the statement returns. `BackendAgreement` compares the two backends term by term, `ListingAgreement`
the two listings of the same records, and `FreeformUnion` shows that the index-friendly
`IN (... UNION ...)` form is the plain disjunction it stands for.

**Storage and readers.** `Memory` is the ring with its correlation index, tied to the full
history of writes. `MemoryReader`, `Rows`, `CursorCodec`, `Base64` and `Pagination` are the listing
and its cursors; `SqlListing` is the same for the rows SQLite returns; `Accounting` says where each record shows up; `Histogram` has both the row-by-row and
the grouped tally; `Merge` is the union of the memory and SQLite pages.

**Limiter.** `AuthLimit` is the token-bucket limiter, with statements over whole runs.
`AuthHandlers` runs any number of handlers and the sweeper concurrently on it and bounds their
failures; `AuthWorstCase` shows that the bound is reached.

**Pipeline.** `BoundedQueue` is the drop-on-full queue and a batch handler running alone.
`Pipeline` is the queue, single and batch handlers with their counters and the worker pool as a
state machine whose steps interleave freely; `Batches` says what becomes of a batch in it.

**Redaction.** `Cookies`, `CookieIndependence`, `CookieCommute` and `CookieShapes` are the cookie
rules, `Redaction` all rules as functions on a request. `Slices`, `RedactInPlace` and `RedactRecord`
are the same rules as the code applies them, overwriting slices that may share backing arrays.
`RedactEvents` does the same for response and outbound events. `RedactionLimits` says where two
redacted requests can still be told apart.

Text and bytes are both `string`; case mapping is ASCII. Timestamps are integer nanoseconds.
Limiter levels are integers: one unit refills per nanosecond, so a client's token is
6,000,000,000 units (5 tokens per 30 s) and a global token 50,000,000 units (20 per second).
Clocks are parameters and never run backwards. Regex and JSON-path rewriting are arbitrary functions.

Where the code does not do what one would expect of it, an input and the exact condition are proved:

- `-status:...` keeps an outbound orphan in SQL and drops it in memory (`OutboundOrphansAgreeIff`,
  `OutboundListingsAgreeIff`, `NegatedStatusSplitsOutbound`).
- A `header.<name>` term also finds correlated events in SQL (`HeaderBackendsAgreeIff`,
  `HeaderOnlyInEvent`). The package documentation promises identical backends.
- `status:` and `has_events:` terms are ignored by the in-memory matcher, so the ring lists requests
  the SQL listing does not (`RequestListingsAgreeIff`, `StatusOnlyInSql`). The list page does not show
  these three differences: gatherRoots sends every search with terms to SQLite
  (internal/admin/inspect.go:53). They show in the histogram of a setup without SQLite
  (internal/admin/inspect.go:120-128).
- A request without a response status matches neither `status:` nor `-status:` in SQL
  (`StatusNegationSplitsIff`, `StatusNegationMissesRow`).
- The merged listing can return no cursor although rows remain (`MergedPageExact`,
  `MergedPageHidesRow`).
- A full memory page is answered without asking SQLite. It then misses newer rows that only SQLite
  still has, which no later page shows either, and with exactly `limit` rows it has no cursor
  (`FullMemoryPageExact`, `FullMemoryPageSkipsNewer`).
- A failure that finds an empty bucket is not charged, so c concurrent handlers of a client get c
  failures per refilled token, not one (`ConcurrentRateBound`, `ConcurrentRateReached`). The rate
  bound itself holds exactly for runs whose failures each find a whole token (`RateBoundExact`);
  handlers one after the other always do (`SerialRunGated`).
- The accepted items of a batch keep their order (`BatchInOrder`) but need not be its first ones
  (`BatchNeedNotBePrefix`). They are exactly when every offer after the batch's first drop meets a
  full queue again (`BatchPrefixIff`), for instance when no worker takes a record after it
  (`PrefixWithoutTake`).
- With a nil header map the parsed cookies are not redacted (`NilHeadersAlikeIff`,
  `NilHeadersShowCookie`). The capture server always builds a header map, so this concerns direct
  callers of the rule set. A blanked cookie header still shows whether the cookie rules deleted it
  (`BlankedHeaderAlikeIff`, `StrippedHeaderShowsPresence`).

## Model

| member | source | states |
|---|---|---|
| Tokenizer.Tokenize | internal/searchql/searchql.go:198-242 | the scanning loop returns the token list or the unterminated-quote error that `Tokens` defines |
| Tokenizer.ScanToken | internal/searchql/searchql.go:209-235 | the inner loop stops at the first unquoted white space, and reports whether a quote is still open |
| Tokenizer.TokensAreWhole | internal/searchql/searchql.go:198-242 | every token is non-empty, has no unquoted white space and leaves no quote open |
| Tokenizer.TokensOfJoin | internal/searchql/searchql.go:198-242 | such tokens joined with single spaces are tokenized back into themselves |
| Parser.ParseSearch | internal/searchql/searchql.go:173-191 | the parse loop returns all terms, or the error of tokenizing or of the first bad token |
| Parser.ParseAll | internal/searchql/searchql.go:180-189 | the term loop over a token list |
| Parser.ParseTokensInverts | internal/searchql/searchql.go:173-191 | an accepted search has exactly one term per token, in order |
| Parser.StatusWellFormed | internal/searchql/searchql.go:443-455 | an accepted status is a code from 100 to 599 or one of the classes 1xx to 5xx |
| Parser.TokenWellFormed | internal/searchql/searchql.go:254-384 | an accepted token yields a well-formed term: a status filter exactly on status terms and a flag exactly on has_events terms, no wildcard on fields that take none |
| Parser.ParseWellFormed | internal/searchql/searchql.go:173-191 | all terms of an accepted search are well formed, which is what both compilers rely on |
| Printer.ChipTokens | internal/admin/ui_views.go:97-128 | the chip loop prints one token per term, in order |
| Printer.ChipToken | internal/admin/ui_views.go:97-152 | the token text of one term: negation sign, key and re-quoted value |
| RoundTrip.UnescapeEscape | internal/searchql/searchql.go:392-425 | reading an escaped value gives the value back, whatever quotes and backslashes it holds |
| RoundTrip.ShowParsesBack | internal/admin/ui_views.go:134-152 | a displayed value parses to the same text, wildcard and quoting |
| RoundTrip.ShowKeepsWhole | internal/admin/ui_views.go:134-152 | a displayed value never opens a quote or a new token; a tokenized quoted value cannot end in a backslash |
| RoundTrip.TokenReadsBack | internal/searchql/searchql.go:254-425 | the printed form of a parsed token is one token and parses to the same term |
| RoundTrip.ParsePrintRoundTrip | internal/admin/ui_views.go:97-152 | for every accepted search: print, join with spaces and parse again succeeds with the same terms (status terms up to the spelling of the code) |
| Like.EscapedHead | internal/searchql/compile_sql.go:85-97 | escaped text at the head of a pattern consumes exactly that text |
| Like.PrefixLikeExact | internal/searchql/compile_sql.go:198-207 | LIKE escape(v)+"%" holds exactly for the texts that start with v |
| Like.SubstringLikeExact | internal/searchql/compile_sql.go:85-97 | LIKE "%"+escape(v)+"%" holds exactly for the texts that contain v |
| CompilePredicate.Compile | internal/searchql/compile_predicate.go:21-40 | the returned closure accepts exactly the requests that satisfy every term |
| Sql.JsonHeaderPathInjective | internal/searchql/compile_sql.go:186-190 | different header names never share a JSON path |
| CompileSql.Compile | internal/searchql/compile_sql.go:12-29 | the shared loop emits the clauses and arguments of each term that has one, in order; it is the loop of the WHERE, HAVING and orphan compilers |
| Arguments.FreeformBinds | internal/searchql/compile_sql.go:103-139 | the freeform fragment binds left to right to its intended six-armed union, using up its arguments |
| Arguments.FreeformOrphanBinds | internal/searchql/compile_sql.go:332-349 | the same for the orphan fragment |
| Arguments.HeaderBinds | internal/searchql/compile_sql.go:166-179 | the header fragment binds each path and needle to its own placeholder |
| Arguments.TermBinds | internal/searchql/compile_sql.go:31-72 | for each of the three compilers a term's fragment has as many placeholders as arguments and binds to its meaning, negated or not |
| RootsQuery.ClausesBind | internal/searchql/compile_sql.go:213-324 | all clauses of a search together use up all its arguments, each its own |
| RootsQuery.TimeClauses | internal/sinks/sqlite_reader.go:244-322 | the cursor, since and until conditions line up with their arguments |
| RootsQuery.BuildRootsUnion | internal/sinks/sqlite_reader.go:244-322 | the request, HAVING and orphan arms bound left to right are the intended union, with no argument left over |
| RootsQuery.PageStatement | internal/sinks/sqlite_reader.go:73-148 | the page statement binds limit+1 last |
| RootsQuery.BucketStatement | internal/sinks/sqlite_reader.go:158-238 | the histogram statement binds since and width first, and ignores the cursor |
| RootsRows.EveryTermOnce | internal/searchql/compile_sql.go:12-29 | each term is compiled for WHERE or for HAVING and never for both, and the two clause lists together are as long as the search |
| RootsRows.RequestArmExact | internal/sinks/sqlite_reader.go:244-322 | a request row is returned exactly when it is stored, after the cursor, inside the window and every term holds for it |
| RootsRows.OrphanArmExact | internal/sinks/sqlite_reader.go:244-322 | an event row is returned exactly when no request shares its correlation id, the search has no request-only term, and cursor, window and terms hold |
| RootsRows.StatusNegationSplitsIff | internal/searchql/compile_sql.go:213-247 | a status term and its negation split the request rows exactly where a response status exists |
| RootsRows.StatusNegationMissesRow | internal/searchql/compile_sql.go:213-247 | `status:200` and `-status:200` both miss a request without a response |
| RootsRows.StatusTermExact | internal/searchql/compile_sql.go:213-247 | a status term holds for a request row exactly when the greatest correlated status exists and matches, or exists and does not match when negated |
| RootsRows.MaxStatusExact | internal/sinks/sqlite_reader.go:21-61 | the aggregated status is the greatest status of the correlated responses, attained by one of them, and NULL exactly when there is none |
| BackendAgreement.IndexedAgrees | internal/searchql/compile_sql.go:198-207 | on an indexed column the SQL condition equals the in-memory string match for every wildcard |
| BackendAgreement.ScannedAgrees | internal/searchql/compile_sql.go:74-97 | on a scanned column the SQL condition equals the case-folding substring search |
| BackendAgreement.HeaderAgrees | internal/searchql/compile_predicate.go:186-198 | the JSON header lookup with LIKE equals the in-memory header search, and is False on NULL |
| BackendAgreement.HeaderTermExact | internal/searchql/compile_sql.go:166-179 | a header condition is true exactly when the request's own header or one of a correlated event matches |
| BackendAgreement.BackendsAgree | internal/searchql/compile_predicate.go:21-80 | for every search without freeform and `headers:` terms, and header terms only on rows without correlated events, the emitted clause with its emitted arguments is true on the stored row exactly when the closure accepts the request |
| BackendAgreement.HeaderBackendsAgreeIff | internal/searchql/compile_sql.go:166-179 | a header term gives the same answer in both backends exactly unless only a correlated event matches |
| BackendAgreement.HeaderOnlyInEvent | internal/searchql/compile_sql.go:166-179 | a request without headers whose response carries the header: SQL finds it, memory does not |
| ListingAgreement.TopStatusExact | internal/sinks/sqlite_reader.go:21-61 | the greatest response status of a correlation id among the records |
| ListingAgreement.RequestArmAgainstRing | internal/sinks/memory_reader.go:43-80 | for the same records, the SQL request arm returns exactly the requests the ring lists whose events satisfy the status and has_events terms |
| ListingAgreement.RequestListingsAgreeIff | internal/searchql/compile_predicate.go:42-54 | the two listings differ on a request exactly when the ring lists it and one of those terms fails |
| ListingAgreement.StatusOnlyInSql | internal/searchql/compile_predicate.go:42-54 | `status:200` and a request without a response: listed by the ring, not returned by SQL |
| ListingAgreement.ResponseListingsAgree | internal/sinks/memory_reader.go:79-97 | for stores with requests of the same correlation ids, a response orphan is returned by SQL exactly when the ring lists it |
| ListingAgreement.OutboundListingsAgreeIff | internal/sinks/memory_reader.go:98-116 | on an outbound orphan the listings differ exactly when it is eligible, its other terms match and the search has status terms, all negated |
| BackendAgreement.ResponseOrphansAgree | internal/sinks/memory_reader.go:413-427 | on a response orphan both backends give the same answer, negated status terms included |
| BackendAgreement.OutboundSqlExact | internal/searchql/compile_sql.go:254-324 | SQL returns an outbound orphan exactly when its other terms match and every status term is negated |
| BackendAgreement.OutboundOrphansAgreeIff | internal/sinks/memory_reader.go:432-449 | the backends differ on an outbound orphan exactly when there are status terms, all negated, and the other terms match |
| BackendAgreement.NegatedStatusSplitsOutbound | internal/sinks/memory_reader.go:429-436 | `-status:200` is such a search |
| FreeformUnion.FreeformIsDisjunction | internal/searchql/compile_sql.go:103-139 | with unique ids the UNION over whole tables equals the per-row disjunction over the row and its correlated events, and is never Unknown, so negation is its complement |
| FreeformUnion.FreeformOrphanIsDisjunction | internal/searchql/compile_sql.go:332-349 | the same for an orphan event row |
| AuthLimit.AuthLimiter.constructor | internal/admin/authlimit.go:60-67 | a new limiter has a full global bucket and no client buckets |
| AuthLimit.AuthLimiter.Allowed | internal/admin/authlimit.go:97-116 | answers whether both buckets hold a whole token after refill; stores nothing but a full bucket for an unseen client |
| AuthLimit.AuthLimiter.RegisterFailure | internal/admin/authlimit.go:120-145 | refills and spends one token of the client and one global token |
| AuthLimit.AuthLimiter.RetryDelay | internal/admin/authlimit.go:150-176 | the announced delay, without changing the state |
| AuthLimit.AuthLimiter.Sweep | internal/admin/authlimit.go:225-235 | removes exactly the client buckets idle for more than ten minutes |
| AuthLimit.RunValid | internal/admin/authlimit.go:81-145 | in every reachable state each bucket is above minus one token and at most full |
| AuthLimit.RetryAfterBounds | internal/admin/authlimit.go:150-176 | the delay is a whole number of seconds from 1 to 12, covers the longer of the two waits, and is less than a second more than it |
| AuthLimit.RetryAfterExact | internal/admin/authlimit.go:150-176 | without failures in between, waiting the delay is enough, and for a blocked client one second less is not |
| AuthLimit.SweepsUnobservable | internal/admin/authlimit.go:225-235 | from equivalent states (a missing bucket is a full one) every run answers the same with and without its sweeps |
| AuthLimit.SweepsUnobservableFromStart | internal/admin/authlimit.go:225-235 | from a new limiter, sweeps anywhere in a run change no answer |
| AuthLimit.WindowSpends | internal/admin/authlimit.go:81-145 | what a window of a gated run spends comes out of a full bucket plus the window's refill |
| AuthLimit.RateBoundExact | internal/admin/authlimit.go:81-145 | a run keeps the rate in every window exactly when each failure found a whole token |
| AuthHandlers.SerialRunGated | internal/admin/middleware.go:44-60 | with at most one handler of a client between check and failure, sweeps anywhere, every failure finds a whole token; the same over all clients |
| AuthHandlers.PotentialPays | internal/admin/authlimit.go:120-145 | the failures still possible shrink by one with every failure, charged or not |
| AuthHandlers.WindowPays | internal/admin/authlimit.go:81-145 | failures in a window plus those still possible are bounded by a full bucket, the handlers in flight and c times the window |
| AuthHandlers.ConcurrentRateBound | internal/admin/middleware.go:44-60 | with at most c handlers in flight and sweeps anywhere, any window W has at most 5 + (c - 1) + c * W/(6 s) failures of a client, and likewise 20 + (c - 1) + c * W/(50 ms) in all |
| AuthHandlers.SerialRateBound | internal/admin/middleware.go:44-60 | one handler at a time: at most 5 + W/(6 s) failures of a client and 20 + W/(50 ms) in all |
| AuthWorstCase.ConcurrentRateReached | internal/admin/middleware.go:44-60 | for every c and every window of whole refill times some run has exactly that many failures of a client |
| AuthLimit.InterleavedHandlersExceedRate | internal/admin/middleware.go:44-60 | more than five concurrent handlers of one client can all pass the check and then exceed the rate |
| Memory.BufAfterWrite | internal/sinks/memory.go:53-74 | overwriting the head slot leaves the ring holding the new record followed by the newest others |
| Memory.EvictedHit | internal/sinks/memory.go:53-74 | eviction removes an id from the index exactly when its newest record is the one overwritten |
| Memory.IndexAfterWrite | internal/sinks/memory.go:53-74 | after a write the index again maps each id to the slot of its newest live record, and nothing else |
| Memory.MemorySink.constructor | internal/sinks/memory.go:32-41 | an empty ring with an empty history; a capacity below one becomes one |
| Memory.MemorySink.Write | internal/sinks/memory.go:53-74 | appends to the history and keeps ring and index in step with it, across wrap-around and eviction |
| Memory.MemorySink.Recent | internal/sinks/memory.go:78-94 | the last min(n, capacity) writes, newest first, and nothing for n below one |
| Memory.MemorySink.ByCorrelationID | internal/sinks/memory.go:99-107 | the first hit of a newest-first scan of the live records, or nil when there is none |
| Rows.SortRows | internal/sinks/memory_reader.go:118-128 | the rows in listing order, newest first with ties by descending id |
| Rows.CutPage | internal/sinks/memory_reader.go:118-154 | cursor filter, cut and next cursor: the first `limit` rows after the cursor, and a cursor exactly when more follow |
| Rows.DescendingUnique | internal/sinks/memory_reader.go:118-128 | the strict listing order determines the list |
| Rows.AfterIsDrop | internal/sinks/memory_reader.go:130-154 | the rows after the k-th row's cursor are exactly the rest of the list |
| MemoryReader.RequestCorrelations | internal/sinks/memory_reader.go:29-42 | the set of correlation ids that have a request in the ring |
| MemoryReader.CountEvents | internal/sinks/memory_reader.go:29-42 | the number of events per correlation id |
| MemoryReader.EmitRows | internal/sinks/memory_reader.go:43-116 | the emit loop produces the row of each listed record, in order |
| MemoryReader.ReadRoots | internal/sinks/memory_reader.go:26-155 | the page and the cursor cut from the sorted matching rows |
| MemoryReader.EmittedMembers | internal/sinks/memory_reader.go:43-116 | a row is emitted exactly when it is the row of a listed record |
| MemoryReader.EmittedDistinct | internal/sinks/memory_reader.go:43-116 | no id is emitted twice |
| MemoryReader.MatchingIsListing | internal/sinks/memory_reader.go:118-128 | the listing is strictly descending and holds exactly the emitted rows |
| Accounting.EventCountIsCardinality | internal/sinks/memory_reader.go:29-42 | the event counter of an id is the number of event records with it |
| Accounting.EveryRecordAccountedFor | internal/sinks/memory_reader.go:29-116 | without a filter a request has a request row, an orphan an orphan row of its kind, and a correlated event no row but a place in the count of the request rows of its id |
| Accounting.RequestRowsCountEvents | internal/sinks/memory_reader.go:64-80 | each request row's event count is the number of events of its correlation id |
| Accounting.OrphanCounts | internal/sinks/memory.go:113-133 | the two counts are the numbers of orphan rows the unfiltered listing emits |
| Base64.DecodeEncode | internal/inspect/cursor.go:19-48 | decoding inverts encoding on every byte string (section 4 of RFC 4648) |
| CursorCodec.DecodeEncode | internal/inspect/cursor.go:19-48 | a cursor survives the wire, colons in its id included, exactly when its id is not empty; otherwise decoding reports the empty id |
| Pagination.ChunksCover | internal/sinks/memory_reader.go:130-154 | the chunks of a list put together are the list |
| Pagination.ChunksCount | internal/sinks/memory_reader.go:130-154 | there are max(1, ceil(n/limit)) chunks |
| Pagination.CollectsChunks | internal/sinks/memory_reader.go:130-154 | following encoded and decoded cursors from any point collects exactly the chunks of what remains |
| Pagination.PaginationComplete | internal/sinks/memory_reader.go:118-154 | on a snapshot exactly one sequence of pages can be collected; it lists every matching row once in strictly descending order, in max(1, ceil(n/limit)) pages |
| SqlListing.CursorOnRequest | internal/sinks/sqlite_reader.go:248-252 | the cursor condition lets a request row through exactly when the statement without it does and the row is after the cursor |
| SqlListing.CursorOnOrphan | internal/sinks/sqlite_reader.go:293-297 | the same for an orphan row |
| SqlListing.AfterOfSorted | internal/sinks/sqlite_reader.go:73-79 | filtering by a cursor and sorting commute |
| SqlListing.SqlCursorIsAfter | internal/sinks/sqlite_reader.go:244-322 | the statement with a cursor returns exactly the rows after it of the statement without one, in the same order |
| SqlListing.SqlPageExact | internal/sinks/sqlite_reader.go:73-148 | fetching limit+1 rows is enough: page and cursor are those of everything the search matches after the cursor |
| SqlListing.SqlPaginationComplete | internal/sinks/sqlite_reader.go:73-148 | on a fixed database exactly one sequence of pages can be collected: every returned request and orphan once, strictly descending, in max(1, ceil(n/limit)) pages |
| Histogram.TallyRow | internal/sinks/memory_reader.go:205-304 | the tally closure adds one row to its clamped bucket and status class |
| Histogram.AggregateRoots | internal/sinks/memory_reader.go:205-304 | the total is the number of rows pagination enumerates, and the buckets tally exactly those rows |
| Histogram.TallyConserves | internal/sinks/memory_reader.go:205-304 | the class counts of all buckets add up to the number of rows |
| Histogram.BucketContainsRow | internal/sinks/memory_reader.go:205-304 | a bucket starts no later than its rows, and the next bucket starts after them |
| Histogram.AggregationPlacesRows | internal/sinks/memory_reader.go:205-304 | both facts for every row of a bucketed aggregation |
| Histogram.GroupsCount | internal/sinks/sqlite_reader.go:158-238 | the groups that fall into a bucket and class account for exactly its rows |
| Histogram.GroupedTally | internal/sinks/sqlite_reader.go:158-238 | the grouped tally gives the same total and buckets as the row-by-row tally |
| Merge.GatherRoots | internal/admin/inspect.go:43-115 | which store answers in each case with which page and cursor; on two stores that agree on shared ids, what that page and cursor are worth against everything both match after the cursor |
| Merge.GatheredExact | internal/admin/inspect.go:64-114 | both cases of the fall-through in one statement |
| Merge.PagePrecedesRest | internal/admin/inspect.go:64-114 | the first `limit` merged rows precede every SQLite row beyond its page |
| Merge.MergeBeyondPage | internal/admin/inspect.go:64-114 | merging with one SQLite page or with all of SQLite gives the same first `limit` rows |
| Merge.MergedPageExact | internal/admin/inspect.go:64-114 | with a short memory page the result is exactly the first `limit` rows of the deduplicated union, a returned cursor has all other rows behind it, and a missing cursor hides rows exactly when SQLite had more and memory had no id outside the SQLite page |
| Merge.AfterStores | internal/admin/inspect.go:64-114 | the rows after a cursor again satisfy what the merge needs, so the result holds on every page |
| Merge.FullMemoryPageExact | internal/admin/inspect.go:64-71 | a full memory page is the first page of the union, and its cursor has all other rows behind it, exactly when every row only SQLite has sorts behind it; without a cursor rows are hidden exactly when memory has `limit` rows and SQLite another id |
| Merge.FullMemoryPageSkipsNewer | internal/admin/inspect.go:64-71 | a ring of two rows and a newer row only SQLite has: a page of one row comes with a cursor the newer row is not behind, a page of two rows comes without a cursor |
| Merge.MergedPageHidesRow | internal/admin/inspect.go:73-114 | an empty ring and two stored rows: a page of one row comes without a cursor |
| BoundedQueue.Queue.constructor | internal/capture/queue.go:11-16 | an empty queue of the given capacity |
| BoundedQueue.Queue.Enqueue | internal/capture/queue.go:18-26 | accepts exactly when there is room, and otherwise changes nothing but the drop count |
| BoundedQueue.Queue.Receive | internal/capture/queue.go:28 | removes and returns the oldest record |
| BoundedQueue.PostBatch | internal/admin/events.go:417-467 | with nobody else at the queue: an empty, oversized or partly invalid batch enqueues nothing and names its first bad item; otherwise accepted plus dropped is the batch size and a prefix of the batch was queued in order |
| Batches.RefusedBatchOffersNothing | internal/admin/events.go:424-444 | in every interleaving, an empty, oversized or partly invalid batch never calls Enqueue and owns no accepted record |
| Batches.BatchCounts | internal/admin/events.go:445-454 | in every interleaving and at every moment, accepted is the number of the batch's records in the pipeline, accepted plus dropped the items offered so far, and all items when it answers |
| Batches.BatchInOrder | internal/admin/events.go:445-454 | the accepted items of a batch pass through the queue in batch order |
| Batches.BatchPrefixIff | internal/admin/events.go:445-454 | in every interleaving, no accepted item of a batch comes after a dropped one exactly when each offer after its first drop again meets a full queue |
| Batches.DropsLastIsPrefix | internal/admin/events.go:445-454 | then, and only then, the accepted items are the first `accepted` items of the batch |
| Batches.PrefixWithoutTake | internal/admin/events.go:445-454 | if no worker takes a record after the batch's first drop, its accepted items are its first ones |
| Batches.BatchNeedNotBePrefix | internal/admin/events.go:445-454 | a worker that makes room between two offers lets a batch lose its second item and keep its third |
| Pipeline.StepInv | internal/pipeline/worker.go:65-102 | every atomic step of a handler or worker keeps the invariant |
| Pipeline.RunInv | internal/pipeline/worker.go:65-102 | every state of every interleaving satisfies it |
| Pipeline.Conservation | internal/capture/server.go:43-55 | in every reachable state the queue is within capacity, offered = accepted + dropped, accepted = queued + held + finished, and the captured counters never exceed what they count |
| Pipeline.QuietCounters | internal/capture/server.go:43-55 | when no capture handler is between enqueue and return, the three counters are exact |
| Pipeline.ExactlyOneWorker | internal/pipeline/worker.go:65-102 | an accepted record is queued, held or finished, exactly one of these, taken at most once, and held by the worker that took it and by no other |
| Pipeline.WorkerNeverChanges | internal/pipeline/worker.go:65-102 | a record that one worker holds at some time is never held by another |
| Pipeline.FirstInFirstOut | internal/capture/queue.go:18-28 | records are taken in the order in which they were accepted |
| Cookies.FilterHeader | internal/redact/ruleset.go:430-462 | the in-place token filter computes the rewritten header value |
| Cookies.RedactCookieSlice | internal/redact/ruleset.go:549-576 | the in-place rule loop computes the rewritten cookie list |
| Cookies.Compact | internal/redact/ruleset.go:552-574 | one rule moves the kept cookies to the front of the array, in order |
| CookieIndependence.PairName | internal/redact/ruleset.go:498-509 | the name of a `name=value` token does not depend on its value or attributes |
| CookieIndependence.PairReplaced | internal/redact/ruleset.go:511-530 | only the value between the first '=' and the next ';' is replaced |
| CookieIndependence.SplitFiltered | internal/redact/ruleset.go:430-462 | splitting a rewritten header gives the filtered tokens, so the next rule sees exactly them |
| CookieIndependence.CookieValuesIndependent | internal/redact/ruleset.go:369-406 | Cookie headers that differ only in values of covered cookies are rewritten, or deleted, alike by any list of rules |
| CookieIndependence.SetCookieValuesIndependent | internal/redact/ruleset.go:464-496 | the same for Set-Cookie entries, with their attributes kept |
| CookieIndependence.CookieSliceIndependent | internal/redact/ruleset.go:549-576 | the same for the parsed cookies |
| CookieCommute.TokenCommutes | internal/redact/ruleset.go:498-530 | a rule treats a `name=value` token as it treats the cookie read from it |
| CookieCommute.HeaderCommutes | internal/redact/ruleset.go:430-462 | for one rule and one header value: filter then read is read then filter |
| CookieCommute.HeaderAndSliceCommute | internal/redact/ruleset.go:369-406 | for any rules and any Cookie values made of `name=value` pairs (section 4.2.1 of RFC 6265), the pairs of the rewritten header are redactCookieSlice of the original pairs |
| CookieCommute.HeaderDeletedIff | internal/redact/ruleset.go:378-387 | the header is deleted exactly when the rules leave none of its cookies |
| CookieShapes.ShapeReplaced | internal/redact/ruleset.go:498-530 | replacing a value changes neither the name of a token nor whether it is blank, whatever the token looks like |
| CookieShapes.CookieHeaderDeletedIff | internal/redact/ruleset.go:369-387 | for any values and rules, the Cookie header is deleted exactly when of every value no token, or only a blank one, has a name no rule drops |
| CookieShapes.SetCookieHeaderKeeps | internal/redact/ruleset.go:388-404 | as many Set-Cookie entries stay as have a name no rule drops, and the header goes with the last |
| Redaction.BlankKeysErases | internal/redact/ruleset.go:342-360 | blanking makes maps equal that differ only under named keys |
| Redaction.CookieHeadersAgree | internal/redact/ruleset.go:369-406 | after the cookie rules, header maps that differ only in covered values differ at most under keys a header rule blanks |
| Redaction.RedactionIndependence | internal/redact/ruleset.go:166-174 | requests that differ only in values of covered headers, query keys and cookies redact to equal records, for every rule set; what may differ is told from the requests and the rules alone |
| RedactInPlace.FindHeaderKey | internal/redact/ruleset.go:418-428 | the canonical key when present, else some spelling of it, else none |
| RedactInPlace.RewriteValues | internal/redact/ruleset.go:378-387 | one rule overwrites every Cookie value in its slice |
| RedactInPlace.FilterValues | internal/redact/ruleset.go:388-404 | one rule moves the kept Set-Cookie entries to the front of the same array |
| RedactInPlace.RulesByHeader | internal/redact/ruleset.go:369-406 | rule by rule over the map is header by header through all rules |
| RedactInPlace.CookieRulesToHeaders | internal/redact/ruleset.go:369-406 | the in-place rule loop leaves each cookie header as the whole rule list makes it, deleted once empty, and every other header alone |
| RedactInPlace.BlankNamedKeys | internal/redact/ruleset.go:342-360 | every value under a named key, and no other, is overwritten with the marker |
| RedactInPlace.ReplaceInAll | internal/redact/ruleset.go:214-230 | one regex overwrites every value of a map |
| Slices.CopyMap | internal/redact/ruleset.go:621-632 | the copy has the same texts and a new array of its own under every key |
| RedactRecord.CopyRequest | internal/redact/ruleset.go:578-587 | the copy has the value of the original and shares no backing array with it or between its keys |
| RedactRecord.RequestObject.ApplyCookieRules | internal/redact/ruleset.go:408-416 | headers and parsed cookies are rewritten together, or neither when the header map is nil |
| RedactRecord.RequestObject.ApplyHeaderAndQueryRules | internal/redact/ruleset.go:342-360 | covered headers and query keys are blanked, nothing else changes |
| RedactRecord.RequestObject.ApplyBodyRules | internal/redact/ruleset.go:214-230 | JSON-path rewriting, then every regex over body, headers and query; an empty body stays untouched |
| RedactRecord.Redact | internal/redact/ruleset.go:150-174 | for a captured request: a new object with new arrays holds the redacted request; neither the argument nor any array it reaches is written to, although the rules overwrite slices in place; without rules the argument itself is returned |
| RedactEvents.RegexesByPlace | internal/redact/ruleset.go:214-253 | rule by rule over body, headers and query gives the same as each place through all rules, the order events use |
| RedactEvents.RedactMessage | internal/redact/ruleset.go:176-184 | one message redacted in place has the value of the request rules on it |
| RedactEvents.RedactResponse | internal/redact/ruleset.go:176-184 | a response event: a redacted copy with arrays of its own, the argument and its arrays untouched |
| RedactEvents.RedactOutbound | internal/redact/ruleset.go:186-203 | an outbound event: both halves, the second only when present, redacted in copies with arrays of their own |
| RedactEvents.EventIndependence | internal/redact/ruleset.go:176-203 | messages that differ only in values of covered headers redact to equal messages |
| RedactionLimits.NilHeadersKeepCookies | internal/redact/ruleset.go:408-411 | with a nil header map no rule changes the parsed cookies |
| RedactionLimits.NilHeadersAlikeIff | internal/redact/ruleset.go:408-411 | two nil-header requests that differ only in covered query values and cookies redact alike exactly when their cookies are equal |
| RedactionLimits.NilHeadersShowCookie | internal/redact/ruleset.go:408-411 | a redact rule on a cookie and two nil-header requests whose redactions differ in its value |
| RedactionLimits.BlankedHeaderAlikeIff | internal/redact/ruleset.go:352-406 | two requests that differ in one cookie header under a header rule redact alike exactly when, by the names in it, the cookie rules delete both or leave as many values |
| RedactionLimits.StrippedHeaderShowsPresence | internal/redact/ruleset.go:378-387 | with a strip rule and a header rule on Cookie, requests with `a=1` and `b=2` redact to different records |

## Left out

- Case mapping beyond ASCII, and text with NUL bytes: Go and SQLite lowercase them differently.
- BackendAgreement.BackendsAgree: says nothing of freeform and `headers:` terms, because SQL searches the JSON text and the correlated events while the predicate searches names and values of the request.
- ListingAgreement.RequestListingsAgreeIff: has the same exception, and is about records that both stores hold.
- BackendAgreement.ResponseOrphansAgree: leaves out freeform and `headers:` terms, for the same reason and because negated `headers:` meets NULL columns.
- FreeformUnion.FreeformIsDisjunction: assumes that text and JSON columns never hold integers, which the schema's writers guarantee.
- AuthLimit.AuthLimiter.RegisterFailure: levels are exact integers; the rounding of the float64 fields is not modelled.
- Pagination.PaginationComplete: is about one snapshot and about ids that are non-empty byte strings with 64-bit timestamps, as the writers produce; writes between two pages are not modelled.
- Redaction.RedactionIndependence: assumes at most one spelling of each cookie header, because findHeaderKey rewrites only one; tokens without '=' count as uncovered.
- CookieCommute.HeaderAndSliceCommute: reads a value as everything after the first '='; the trimming and unquoting of the HTTP library's cookie reader are not part of this model.
- RedactRecord.Redact: is the captured-request branch of the switch; RedactEvents has the other two. The body is a value: the code replaces it and never writes into it.
- The redaction error counter, and the loading of rule sets from configuration.
- JSON encoding of headers, gjson and sjson, regular expressions, MIME parsing: functions or typed columns here.
- BoundedQueue.PostBatch: describes a handler with nobody else at the queue; the interleaved case is in Batches.
- SqlListing.SqlPaginationComplete: is about one database state, and takes the evaluation of UNION ALL, ORDER BY and LIMIT as SQLite documents them.
- Pipeline.RunInv: stops at Close; an enqueue racing with shutdown, sink write errors and timeouts are not modelled. What a worker does with a record is one step. The ingested and rejected counters of the events endpoint are left out.
- The detail view (mergeDetailSiblings, ReadDetail), service statistics, IsUnindexedScan and the narrowing requirement: case distinctions without a harder property.
- SQLite storage, pragmas and the retention sweeper; HTTP handlers and routing, templates, the browser code with its own parser, sessions, CSRF, metrics and configuration.
