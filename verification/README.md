# ValuePilot: a verified model of its limiter, lineage tables, exact decimals and page layout

The project models four parts of ValuePilot and proves what they promise.

* **Rate Guard egress** (`prelude`, `bucket`, `upstreams`, `caching`, `metrics`, `gateway`,
  `egress_protocol`, `identity`). The token bucket, the metrics, the cache and the gateway are classes; one fetch is a
  method with the retry loop. `egress_protocol` interleaves any number of fetches, one locked section, clock reading or
  request per step. `identity` interleaves first boots that race to create the identity file.
* **SEC lineage tables** (`history_paging`, `review_log`, `issuer_identities`, `parse_runs`). Tables are
  append-only sequences or maps; each insert guard is a method proved against an admission predicate, and the invariants
  hold for every history or every interleaving of transactions.
* **Exact decimals** (`digits`, `decimals`, `readings`, `exact_money`, `dcf`). Texts are strings, values
  are rationals over powers of ten, and the discounted cash flow is over the reals with the overflow of a double.
* **Page layout** (`layout`, `page_columns`, `page_modules`). Words to columns, lines, blocks and cells; a column's lines
  to modules, with the table that pulls its rows together.

Where the code does not keep what it or its documentation says, the project proves exactly when it does and gives an
input that shows the failure:

* `rate-guard/README.md:28-29` puts the worst-case aggregate of both limiters at 9 requests a second. With sends on time
  every half-open second holds at most 9. In general a closed window of length w holds at most 9 for all traffic exactly
  when w plus the lateness of the sends is under a second (`NineInClosedIff`), a half-open one exactly when it is at most
  a second (`NineInHalfOpenIff`); beyond that both burst tokens count and the true maximum is
  floor(1 + 8*(w+late)) + floor(1 + (w+late)), 11 for a closed second (`AggregateWindow`, `AggregateIsAttained`).
* A comment in `rate-guard/app/gateway.py:129-131` says every retry waits a pause out. A pause is waited out in full in
  every run if and only if it lasts at most 120 seconds (`PauseSafeIffShort`), counting the pauses recorded before the
  attempt's own pause check, which comes before the wait for a token. Counting every pause recorded before the send
  itself, that holds if and only if pauses have length zero (`StrictPauseSafeIffNone`, `PauseAfterCheckIsMissed`).
* `rate-guard/app/identity.py:25` speaks of atomic creation. A boot that reads while the file is being written is refused
  unless all 36 characters are there (`PrefixValidation`, `BootCanBeRefused`). Boots agree in every run if and only if no
  write can fail once its 36 characters are visible (`AgreementIffFailuresAreEarly`).
* A cache key is ambiguous for requests with a NUL in the url or body (`KeyIsAmbiguousIffNul`); among NUL-free urls it
  names the request (`KeyNamesRequest`).
* The issuer guard admits rows dated before an existing supersession; `BackdatedInsert` says exactly when that breaks the
  point-in-time reading. The method-gate trigger takes no lock; `UnseenInsert` says exactly when two inserts that do not
  see each other break it, and `UnseenInsertExample` gives such a pair.
* Paging takes every entry of a list at most once if and only if at most one cursor starts that list
  (`EntriesTakenOnceIffOneRoot`); a reachable database has two (`TwoRoots`). A reference is attempted at most once if and
  only if, besides, the entries taken repeat none (`OneListAttemptedOnceIff`, `AttemptedOnceIff` for several lists);
  nothing keeps a list from holding one twice (`RepeatedReference`).
* A difference is displayed exactly if its text has at most 256 characters (`DifferenceDisplay`). Inputs with up to w
  integer digits and f decimals are always displayed if and only if the widest difference of that size fits
  (`AlwaysShownIffFits`).
* Growth and terminal stages at equal rates compose exactly when the fractional years do not add up to a year, or the
  base is zero (`StagesCompose`, `HalfYearsDoNotCompose`). Within the input bounds the growth stage can still overflow, exactly when its closed
  form does (`GrowthClosedForm`, `GrowthCanOverflow`).
* A page's left column keeps each line exactly once if and only if it has no unit tag, or its first unit tag starts the
  only financial table and that table holds nothing but rows and unit tags (`EachLineOnceIff`); otherwise a line is lost
  (`NoteIsLost`) or repeated (`RowIsRepeated`).

## Model

| member | source | states |
|---|---|---|
| TokenBuckets.TokenBucket.constructor | rate-guard/app/bucket.py:22-27 | a new bucket is full, with the rate raised to 0.001 and the capacity to 1 |
| TokenBuckets.TokenBucket.Acquire | rate-guard/app/bucket.py:29-41 | the release instant is the least one allowed by the caller's arrival and by the refills that it and every earlier caller need: max(a_i, max a_k + (i-k+1-capacity)/rate) |
| TokenBuckets.ReleaseSpacing | rate-guard/app/bucket.py:15-19 | releases never decrease, and callers i and j are at least (j-i+1-capacity)/rate apart |
| TokenBuckets.SendsInWindow | rate-guard/app/bucket.py:29-41 | with wakes at most `late` late, a closed window of length w holds at most capacity + rate*(w+late) sends, in any order |
| TokenBuckets.ReleasesInWindow | rate-guard/app/bucket.py:29-41 | a closed window of length w holds at most capacity + rate*w releases |
| TokenBuckets.BoundIsAttained | rate-guard/app/bucket.py:29-41 | callers that arrive together fill the window up to that bound |
| TokenBuckets.ScheduleIsWithinRate | rate-guard/app/bucket.py:29-41 | the bucket's schedule keeps arrival order and the window bound |
| TokenBuckets.EarliestSchedule | rate-guard/app/bucket.py:15-19 | no first-come schedule within the window bound releases any caller earlier |
| TokenBuckets.ScheduleIsUnique | rate-guard/app/bucket.py:29-41 | arrivals determine every release instant |
| TokenBuckets.AggregateWindow | rate-guard/README.md:25-29 | in a closed window of length w central limiter and fallback together send at most floor(1 + 8*(w+late)) + floor(1 + (w+late)) |
| TokenBuckets.AggregateIsAttained | rate-guard/README.md:25-29 | for every w and lateness some traffic sends exactly that many |
| TokenBuckets.NineInClosedIff | rate-guard/README.md:28-29 | at most nine requests leave in every closed window of length w, for all traffic, exactly when w plus the lateness is under a second |
| TokenBuckets.NineInHalfOpenIff | rate-guard/README.md:28-29 | at most nine leave in every half-open window exactly when w plus the lateness is at most a second, or the window is empty |
| Metrics.UpstreamMetrics.Record | rate-guard/app/metrics.py:26-33 | after every request the total equals the number of recorded requests and the sum of the status counts, each count is exact, and the deque holds the last 5000 |
| Metrics.UpstreamMetrics.Pause | rate-guard/app/metrics.py:43-47 | the deadline never decreases and covers the pause asked for |
| Metrics.RecentCountIsExact | rate-guard/app/metrics.py:54-65 | with a clock that does not go back the recent count is the true one up to the capacity of the deque |
| Metrics.UpstreamMetrics.RecentRequestCount | rate-guard/app/metrics.py:54-65 | the counting loop counts the kept events since the cutoff, whatever their order; for an ordered log that is the true number up to the capacity |
| Caching.KeyIsInjective | rate-guard/app/cache.py:22-29 | for NUL-free urls the key determines upstream, upper-case method, url and body |
| Caching.KeyIsAmbiguousIffNul | rate-guard/app/cache.py:22-29 | a request shares its key with another exactly when its url or body holds a NUL |
| Caching.ResponseCache.Get | rate-guard/app/cache.py:34-44 | a hit is the entry under the key, at most ttl old; ttl 0 never hits |
| Caching.KeyNamesRequest | rate-guard/app/cache.py:22-29 | two NUL-free requests that one upstream may cache have one key exactly when they are the same request |
| Caching.FoundBySameRequest | rate-guard/app/cache.py:34-66 | what is stored for a request is found by the same request until the ttl runs out, and changes nothing for any other |
| Caching.CachingRules | rate-guard/app/gateway.py:82-100 | the long ttl holds for paths under a long prefix and the short one elsewhere, never beyond the override; only GET and POST with a positive configured ttl are cached |
| Gateways.Gateway.RespectPause | rate-guard/app/gateway.py:190-195 | a pause of at most 120 seconds is waited out, unless the clock passes the deadline between the two readings; then the negative sleep raises |
| Gateways.Gateway.SendOnce | rate-guard/app/gateway.py:132-137 | one call costs one token, leaves no earlier than its release, and not before a pause read by its check when pauses last at most 120 seconds; if the pause check raises nothing is sent and no token is taken |
| Gateways.Gateway.RequestWithRetry | rate-guard/app/gateway.py:123-166 | makes 1 to max_retries+1 calls: every call but the last met a transport error, a 429 or a status of 500 and more, and so did the last if it used up the retries; 403 is an error, any other status is returned as it is, 404 included; consecutive calls are apart by the next entry of the backoff table; or stops short in a pause check that raises; as many tokens as calls; records exactly the answered statuses, with a pause for each 429 and 503 |
| Gateways.Gateway.Fetch | rate-guard/app/gateway.py:61-121 | refusals touch nothing, and nothing leaves except over https to an allowed host with an override of at most an hour; a hit makes no call and returns the cache entry, at most min(ttl, override) old, that answered an earlier cacheable call for the same key with 200 and was stored after that call left; a miss makes one retry run, ends as its last answer says, and stores exactly a cacheable 200 |
| Gateways.UnrefusedIff | rate-guard/app/gateway.py:69-98 | a request is let through exactly if it is for this upstream, over https, to an allowed host, with an override between 0 and 3600 seconds; the first test to fail names the error |
| EgressProtocol.EgressIsAccounted | rate-guard/app/gateway.py:123-166 | in every interleaving tokens taken = sends + tokens in hand, and sends = recorded requests + transport errors + calls in flight, each send on its own token after its release |
| EgressProtocol.CallsPerFetch | rate-guard/app/gateway.py:158-164 | in every interleaving one fetch makes at most max_retries+1 calls |
| EgressProtocol.BackoffIsKept | rate-guard/app/gateway.py:158-166 | in every interleaving the next attempt of a fetch leaves no earlier than the one before plus its entry of the backoff table, whose last entry repeats |
| EgressProtocol.EgressRate | rate-guard/app/bucket.py:1-6 | in every interleaving the requests that leave obey capacity + rate*(w+late) in a window of length w |
| EgressProtocol.PauseSafeIffShort | rate-guard/app/gateway.py:190-195 | no attempt in any run leaves before a deadline recorded before its pause check, exactly when the pause lasts at most 120 seconds |
| EgressProtocol.PauseAfterCheckIsMissed | rate-guard/app/gateway.py:129-133 | for every positive pause, a run in which a caller that already checked sends during a pause recorded meanwhile |
| EgressProtocol.StrictPauseSafeIffNone | rate-guard/app/gateway.py:129-133 | no attempt in any run leaves before a deadline recorded before the send itself, exactly when pauses have length zero |
| EgressProtocol.HitsAreRepeats | rate-guard/app/gateway.py:85-115 | in every interleaving, with NUL-free urls, a hit returns the latest response stored before it for the same upstream, upper-case method, url and body; that store is at most min(configured ttl, override) old and is an upstream 200 received by then; an override of 0 never hits |
| EgressProtocol.HitsIffFresh | rate-guard/app/gateway.py:96-107 | in every reachable state a fetch hits exactly when it may be cached and the latest store for its key is at most min(configured ttl, override) old, which is positive |
| Identity.ValidatedIffCanonical | rate-guard/app/identity.py:12-21 | a text passes exactly when, stripped, it is the canonical form of a UUID |
| Identity.PrefixValidation | rate-guard/app/identity.py:12-21 | of the written text exactly the prefixes with all 36 characters pass |
| Identity.UuidPattern | backend/alembic/versions/20260831120000-sec-parser-v2-units.py:408 | a fresh identity and a cursor id match the pattern of a version 4 UUID |
| Identity.IdentityAgreement | rate-guard/app/identity.py:24-63 | in every interleaving whose writes fail, if at all, before 36 characters are visible, all boots that return agree, and the settled file holds their identity |
| Identity.AgreementIffFailuresAreEarly | rate-guard/app/identity.py:51-63 | agreement holds in every run exactly when no write can fail once 36 characters are visible |
| Identity.BootCanBeRefused | rate-guard/app/identity.py:24-30 | a run in which a second boot is refused because it read too early |
| Identity.LateFailureBreaksAgreement | rate-guard/app/identity.py:57-62 | a run with one late failure in which two boots return different identities |
| HistoryPaging.HistoryStore.InsertClaim | backend/alembic/versions/20260831120000-sec-parser-v2-units.py:324-373 | admits exactly the claims that start where their parent ends, span 1 to 20 references and have a durable outcome for each, and keeps the invariant |
| HistoryPaging.HistoryStore.InsertCursor | backend/alembic/versions/20260831120000-sec-parser-v2-units.py:389-471 | admits exactly the cursors that advance their parent's fixed list by the operation's own claim, and keeps the invariant |
| HistoryPaging.ExactlyOnce | backend/alembic/versions/20260831120000-sec-parser-v2-units.py:449-466 | along a chain the claims attempt exactly the references before the cursor's index, once and in order; the chain is no longer than that index and no shorter than a twentieth of it |
| HistoryPaging.TracePagesExactlyOnce | backend/alembic/versions/20260831120000-sec-parser-v2-units.py:323-486 | that holds in every reachable state, where every cursor has at most one successor |
| HistoryPaging.ConsumedIsObserved | backend/alembic/versions/20260831120000-sec-parser-v2-units.py:352-371 | every reference before a cursor's index was attempted by the operation of a cursor in its chain, an operation of the same issuer; it names a file of the issuer's CIK, and the claim records what became of it: retained_and_parsed with the document retained by that operation, or the code of a failure the operation had with it |
| HistoryPaging.PagingGoesOn | backend/alembic/versions/20260831120000-sec-parser-v2-units.py:323-486 | from a cursor without a successor, an operation of its issuer with evidence about the next 1 to 20 references has its claim admitted, and then the cursor after them |
| HistoryPaging.PagingStarts | backend/alembic/versions/20260831120000-sec-parser-v2-units.py:323-486 | with evidence about the first 1 to 20 references of a list, the first claim and the root cursor are admitted |
| HistoryPaging.ChainHasOneAuthority | backend/alembic/versions/20260831120000-sec-parser-v2-units.py:342-468 | all cursors and claims of a chain agree on issuer, snapshot, manifest, list, cut-off and target; only the first claim's cut-off and target are its own |
| HistoryPaging.ReferenceSpelling | backend/alembic/versions/20260831120000-sec-parser-v2-units.py:423-430 | a reference is CIK, the issuer's number, -submissions-, digits, .json |
| HistoryPaging.ChainsNest | backend/alembic/versions/20260831120000-sec-parser-v2-units.py:215 | cursors of one root form a single line |
| HistoryPaging.RangesAreDisjoint | backend/alembic/versions/20260831120000-sec-parser-v2-units.py:342-349 | different cursors of one root took disjoint ranges |
| HistoryPaging.EntriesTakenOnceIffOneRoot | backend/alembic/versions/20260831120000-sec-parser-v2-units.py:342-349 | a parent-closed set of cursors takes every entry (position) of a list at most once exactly when at most one of them starts that list |
| HistoryPaging.AttemptedOnceIff | backend/alembic/versions/20260831120000-sec-parser-v2-units.py:323-486 | such a set attempts no reference twice, by value, exactly when no prefix taken repeats one and prefixes under different roots share none |
| HistoryPaging.OneListAttemptedOnceIff | backend/alembic/versions/20260831120000-sec-parser-v2-units.py:323-486 | over one list: exactly when there is at most one root and no prefix taken repeats a reference |
| HistoryPaging.RepeatedReference | backend/alembic/versions/20260831120000-sec-parser-v2-units.py:423-430 | a reachable database with one root over a list that holds a reference twice, both of which are attempted |
| HistoryPaging.SecondRootIsAdmitted | backend/alembic/versions/20260831120000-sec-parser-v2-units.py:446-459 | a root that is admitted can be followed by another root over the same claim |
| HistoryPaging.TwoRoots | backend/alembic/versions/20260831120000-sec-parser-v2-units.py:323-486 | a reachable database in which two roots took the same entry |
| ReviewLog.ReviewTable.Insert | backend/alembic/versions/20260901140000-sec-method-gate.py:38-52 | admits exactly a row without conflict that supersedes nothing, or one that supersedes its only and earlier-known conflict |
| ReviewLog.AdmittedExactly | backend/alembic/versions/20260901140000-sec-method-gate.py:18-52 | a row of the vocabulary with unique keys is admitted exactly if it supersedes nothing and no review of its subject stands on a date of it, or supersedes the one that does, known before it |
| ReviewLog.AnswerIsSingleValued | backend/alembic/versions/20260901140000-sec-method-gate.py:44-51 | for every subject, date and cutoff at most one review is known and not superseded |
| ReviewLog.AnswerIsStable | backend/alembic/versions/20260901140000-sec-method-gate.py:38-39 | rows stamped after a cutoff never change the answer at that cutoff |
| ReviewLog.AdmittedReviewGoverns | backend/alembic/versions/20260901140000-sec-method-gate.py:44-47 | an admitted review is the answer as of its stamp for every date it covers |
| ReviewLog.RiskKeyIsImplied | backend/alembic/versions/20260901140000-sec-method-gate.py:29 | the risk table's unique key rejects nothing that the guard admits |
| ReviewLog.UnseenInsert | backend/alembic/versions/20260901140000-sec-method-gate.py:36-52 | two inserts that see only the rows before both keep answers single-valued exactly when they do not overlap on one subject |
| ReviewLog.UnseenInsertExample | backend/alembic/versions/20260901140000-sec-method-gate.py:36-52 | two classifications of one stock, each admitted into the empty table, with two answers on a common date |
| IssuerIdentities.IdentityTable.Insert | backend/alembic/versions/20260827120000-sec-financial-lineage.py:79-131 | admits exactly the rows that the guard and the constraints let pass |
| IssuerIdentities.StandingRowsAreRespected | backend/alembic/versions/20260827120000-sec-financial-lineage.py:108-128 | in every history a reviewed row that shares a stock or CIK and a date with an earlier reviewed or retired row finds that row superseded, or supersedes it |
| IssuerIdentities.AdmittedExactly | backend/alembic/versions/20260827120000-sec-financial-lineage.py:30-131 | a well-shaped row with unique keys is admitted exactly if it supersedes only an unsuperseded row of its stock known before it, retires only such a row, and, if reviewed, shares no date with a standing reviewed or retired row of its stock or CIK |
| IssuerIdentities.ReviewedRowsAreDisjoint | backend/alembic/versions/20260827120000-sec-financial-lineage.py:108-128 | no two reviewed rows in force that share a stock or a CIK overlap |
| IssuerIdentities.ChainAscends | backend/alembic/versions/20260827120000-sec-financial-lineage.py:93-106 | supersession chains stay on one stock and strictly increase in known_at |
| IssuerIdentities.ChainIsLinear | backend/alembic/versions/20260827120000-sec-financial-lineage.py:66-69 | supersession chains never fork |
| IssuerIdentities.MonotoneIsAlwaysDisjoint | backend/alembic/versions/20260827120000-sec-financial-lineage.py:108-128 | with non-decreasing known_at the disjointness holds as of every cutoff |
| IssuerIdentities.BackdatedInsert | backend/alembic/versions/20260827120000-sec-financial-lineage.py:93-128 | an admitted row keeps it for every cutoff exactly when it is not a reviewed row dated before the supersession of a clashing one |
| IssuerIdentities.BackdatedExample | backend/alembic/versions/20260827120000-sec-financial-lineage.py:93-128 | three admitted rows after which two identities are in force at one cutoff |
| IssuerIdentities.FilingTable.Insert | backend/alembic/versions/20260827120000-sec-financial-lineage.py:185-231 | admits exactly the filings with an identity in force on their date and a proper amendment link, and keeps the table a history of such filings |
| IssuerIdentities.FilingAdmittedExactly | backend/alembic/versions/20260827120000-sec-financial-lineage.py:160-231 | a filing of a known form with new keys is admitted exactly if a reviewed, unsuperseded identity known by then covers its date, and, if it amends, its form is that of an earlier-accepted filing of the same report date, stock and CIK with /A after it |
| IssuerIdentities.FilingNamesTheIdentityInForce | backend/alembic/versions/20260827120000-sec-financial-lineage.py:192-208 | if identities are disjoint as of the filing's known_at (as with non-decreasing known_at) and later identity rows are known after it, the filing's identity is the only one in force for its stock and CIK on its date as of its known_at, and stays so |
| IssuerIdentities.AmendmentsAreFlat | backend/alembic/versions/20260827120000-sec-financial-lineage.py:209-227 | amendments are one level deep: the one filing an amendment names is an earlier original of the same issuer, report date and form family that amends nothing |
| ParseRuns.Database.InsertParseRunArtifact | backend/alembic/versions/20260827120000-sec-financial-lineage.py:370-400 | admits exactly links of retained artifacts of the run's filing known by the run's time, in the run's transaction |
| ParseRuns.Database.InsertRawFact | backend/alembic/versions/20260827120000-sec-financial-lineage.py:454-482 | admits exactly linked facts of a succeeded run in its own transaction, up to its declared number |
| ParseRuns.Database.CommitTransaction | backend/alembic/versions/20260827120000-sec-financial-lineage.py:493-517 | commits exactly when the counts match, else aborts |
| ParseRuns.RunIsAdmittedIff | backend/alembic/versions/20260827120000-sec-financial-lineage.py:302-321 | a run is admitted exactly under a new key, with an error exactly if it failed and facts exactly if it succeeded, for an input that no other run parses with that version |
| ParseRuns.LinkIsAdmittedIff | backend/alembic/versions/20260827120000-sec-financial-lineage.py:370-400 | a link is admitted exactly once, in its run's transaction and with its run's time, to a retained artifact of the run's filing known by then |
| ParseRuns.FactIsAdmittedIff | backend/alembic/versions/20260827120000-sec-financial-lineage.py:454-482 | a fact is admitted exactly from a linked artifact, at a new ordinal, by the transaction of its succeeded run, while the run lacks facts |
| ParseRuns.CommitsIff | backend/alembic/versions/20260827120000-sec-financial-lineage.py:493-517 | a transaction commits exactly when each of its runs has the number of facts it declares |
| ParseRuns.RunCanBeCompleted | backend/alembic/versions/20260827120000-sec-financial-lineage.py:454-482 | a succeeded run with a linked artifact can always be given all the facts it declares, and nothing else changes on the way |
| ParseRuns.CommittedRunsAreSealed | backend/alembic/versions/20260827120000-sec-financial-lineage.py:301-346 | in every interleaving a committed succeeded run has exactly its declared facts, all grounded in its own transaction and linked artifacts, and a failed run has none |
| ParseRuns.SealedForEver | backend/alembic/versions/20260827120000-sec-financial-lineage.py:463-536 | no later step changes the facts or links of a committed run |
| ParseRuns.OneRunPerInput | backend/alembic/versions/20260827120000-sec-financial-lineage.py:318-321 | in every interleaving no two committed runs parse one input with one parser version |
| Decimals.DecimalParts | frontend/lib/financialHistory.js:14-19 | accepts exactly the texts of at most 256 characters that the pattern spells, and returns their only reading |
| Decimals.AcceptedPattern | frontend/lib/financialHistory.js:14-19 | the accepted texts are exactly those of at most 256 characters with an optional minus sign, digits, and optionally a dot and digits |
| Decimals.CanonicalIffSame | frontend/lib/financialHistory.js:80-93 | two accepted texts have equal canonical forms exactly when they denote the same rational, which is how evidence values are compared |
| Decimals.CanonicalIsIdempotent | frontend/lib/financialHistory.js:80-86 | the canonical form is accepted, is its own canonical form and denotes the same number |
| Decimals.ExactIsCanonical | frontend/lib/businessEconomics.js:65-70 | what is printed for n/10^scale is its canonical text: no negative zero, no trailing fractional zero |
| Decimals.PrintThenParse | frontend/lib/businessEconomics.js:65-70 | the printed text reads back as the same rational exactly when it has at most 256 characters |
| Decimals.ParseThenPrint | frontend/lib/financialTrends.js:8-12 | printing what was read gives the canonical form |
| Decimals.DifferenceIsExact | frontend/lib/businessEconomics.js:84-87 | the exact text of a difference denotes a - b whatever scales the inputs had |
| Readings.RoundDivIsHalfUp | frontend/lib/financialTrends.js:76 | adding floor(b/2) before dividing is half-up rounding of the exact quotient, also for odd b |
| Readings.RoundDependsOnQuotient | frontend/lib/financialTrends.js:13-17 | the rounding does not change when numerator and denominator are rescaled |
| Readings.ChangeIsHalfUp | frontend/lib/financialTrends.js:73-81 | the year-on-year text is the half-up rounding to tenths of a percent, with sign and direction of the exact comparison |
| Readings.ZeroChangeMeansEqual | frontend/lib/financialTrends.js:78-79 | a change prints as zero exactly when the values are equal |
| Readings.ChangeDependsOnRatio | frontend/lib/financialTrends.js:71-81 | rescaling both years together changes nothing |
| Readings.ChangeIgnoresSpelling | frontend/lib/financialTrends.js:67-81 | other spellings of the same rationals give the same reading |
| Readings.ChangeOfAmounts | frontend/lib/financialTrends.js:67-81 | on the two amounts themselves: no meaning exactly for a previous value of at most zero or a negative current one; otherwise sign, direction and the tenths of a percent follow the exact quotient of their distance by the previous value |
| Readings.PercentIsHalfUp | frontend/lib/businessEconomics.js:71-76 | a margin is the half-up rounding of the exact ratio by magnitude, never a signed or false zero |
| Readings.PercentIgnoresSpelling | frontend/lib/businessEconomics.js:60-76 | other spellings of the same inputs give the same margin |
| Readings.MarginOfAmounts | frontend/lib/businessEconomics.js:71-84 | on the two amounts themselves: no margin exactly for revenue of at most zero; otherwise the exact quotient rounded half up to hundredths of a percent, by magnitude |
| Readings.AmountIgnoresSpelling | frontend/lib/financialTrends.js:24-28 | an amount's text depends on the rational only |
| Readings.AmountIsHalfUp | frontend/lib/financialTrends.js:24-28 | without its commas an amount's text is the half-up rounding to hundredths of a million or billion, never a signed or false zero |
| Readings.DifferenceDisplay | frontend/lib/businessEconomics.js:84-89 | a displayed difference is the rounded exact a - b exactly when its exact text has at most 256 characters |
| Readings.AlwaysShownIffFits | frontend/lib/financialTrends.js:9 | differences of accepted inputs with at most w integer digits and f decimals are all displayed exactly when sign, w+1 digits, dot and f decimals fit 256 characters |
| Readings.WidestDifference | frontend/lib/financialTrends.js:9 | two accepted inputs of any size beyond that whose difference is too long |
| Digits.CommasCanBeDropped | frontend/lib/dcfCurrency.js:66 | grouping adds nothing but commas |
| Digits.CommaEveryThird | frontend/lib/dcfCurrency.js:66 | a comma stands before every third digit from the right, and nowhere else |
| ExactMoney.Increment | frontend/lib/dcfCurrency.js:57-63 | the carry loop adds one to the number its digit array spells |
| ExactMoney.RoundByThirdDecimal | frontend/lib/dcfCurrency.js:51-54 | looking at the third decimal only rounds the whole tail half up |
| ExactMoney.FormatDcfExactMoney | frontend/lib/dcfCurrency.js:40-70 | prints floor(100*abs(v) + 1/2) as whole and cents, with a minus sign exactly for a negative value whose rounded amount is not zero |
| ExactMoney.MoneyPattern | frontend/lib/dcfCurrency.js:48-49 | the accepted texts have an optional sign, digits, and optionally a dot with digits or none after it |
| ExactMoney.MoneyIsHalfUp | frontend/lib/dcfCurrency.js:40-70 | commas aside, what follows the currency is the amount rounded half up to hundredths with both decimals, with a minus sign exactly for a negative value that does not round to zero |
| Dcf.ComputeGrowthValue | frontend/lib/dcfMath.js:22-51 | sums base*ratio^k for k = 1..floor(years), and is not a number exactly when out of bounds or when that sum overflows |
| Dcf.ComputeTerminalValue | frontend/lib/dcfMath.js:53-104 | sums the terminal series on the grown base, and is not a number exactly when out of bounds or when the grown base or the sum overflows |
| Dcf.GrowthClosedForm | frontend/lib/dcfMath.js:22-51 | for every input the growth value is base*n if q = (1+g)/(1+r) is 1 and base*q*(q^n - 1)/(q - 1) otherwise, and is missing exactly outside the bounds or when a double cannot hold that |
| Dcf.GrowthCanOverflow | frontend/lib/dcfMath.js:42-49 | an in-bounds input whose growth stage overflows |
| Dcf.StagesCompose | frontend/lib/dcfMath.js:22-104 | below the discount no stage overflows, and at equal rates growth(y1) + terminal(y1,y2) = growth(y1+y2) exactly when the whole years add up, or the base is zero |
| Dcf.HalfYearsDoNotCompose | frontend/lib/dcfMath.js:37-40 | two half years give zero in each stage, the whole year does not |
| Dcf.TerminalClosedForm | frontend/lib/dcfMath.js:53-104 | for every input the terminal value is the perpetuity base*((1+g1)/(1+r))^n1*(1+g2)/(r-g2) less its share beyond the last year, so it never exceeds the perpetuity; it is missing exactly outside the bounds or on overflow |
| Dcf.RatioIsDiscountedGrowth | frontend/lib/dcfMath.js:39-40 | a year's growth factor paid back at the discount is the growth |
| Dcf.SameRates | frontend/lib/dcfMath.js:39-40 | the year's factor is 1 exactly at equal rates |
| Layout.GroupWordsIntoLines | backend/scripts/fields_extracting.py:529-561 | lines are the runs of the sorted words under the running-centre test, each then sorted by x0 |
| Layout.LinesReadLeftToRight | backend/scripts/fields_extracting.py:559-561 | line i holds the words of run i, with x0 never decreasing |
| Layout.RunsFollowTheCentre | backend/scripts/fields_extracting.py:529-557 | the runs hold the page's words from top to bottom, and at one top from left to right; a word stays in the line exactly if its top is within y_tol of the running centre |
| Layout.SortedIsStable | backend/scripts/fields_extracting.py:536 | sorting keeps the order of what ranks alike, as sorted() does |
| Layout.RunsAreUnique | backend/scripts/fields_extracting.py:542-557 | there is only one way to cut a sequence into such runs |
| Layout.LinesAreTight | backend/scripts/fields_extracting.py:542-557 | in every line the code forms neighbouring tops differ by at most y_tol, tops k words apart by at most y_tol*(1 + 0.2*(k-1)), and the running centre lags the last top by at most 0.8*y_tol |
| Layout.GroupLinesIntoBlocks | backend/scripts/fields_extracting.py:564-582 | blocks are the runs of the lines sorted by top under the gap test |
| Layout.BlocksAreSpaced | backend/scripts/fields_extracting.py:564-582 | the blocks hold the lines in the order in which they start, and end exactly where every word of the next line begins at least gap_tol below every word of the last |
| Layout.CutsAreGaps | backend/scripts/fields_extracting.py:573-580 | a cut of a sequence is such a run exactly when groups are separated by gaps that reach the tolerance and hold none inside |
| Layout.SplitByXGaps | backend/scripts/fields_extracting.py:173-186 | the cells hold the words with x0 never decreasing, and are cut exactly where next.x0 - prev.x1 reaches the gap |
| PageColumns.TwoClusters | backend/scripts/fields_extracting.py:589-625 | the search is a sequence of thresholds midway between the means of both sides |
| PageColumns.TwoMeansSeparate | backend/scripts/fields_extracting.py:589-625 | the centres found are the means of the points up to some threshold and of those beyond it, one on each side, so the final swap never happens |
| PageColumns.CentersAreFound | backend/scripts/fields_extracting.py:589-625 | nothing for fewer than 50 points or points closer than a millionth; else the search starts at the points of ranks n/4 and 3n/4 and takes means of both sides of the midpoint until neither moves by 0.05, a side is empty, or 12 rounds are over |
| PageColumns.SplitWordsIntoColumns | backend/scripts/fields_extracting.py:628-666 | a split happens exactly when the centres are far enough apart and both sides get enough words; the columns then partition the words by x-centre in order, otherwise everything stays left |
| PageColumns.SplitIff | backend/scripts/fields_extracting.py:639-666 | the page is split exactly if the centres are at least 22 percent of its width apart and each side of the midpoint has at least 40 words and 15 percent of them; a word goes left exactly if its x-centre does not pass the midpoint |
| PageColumns.KeepKeepsOrder | backend/scripts/fields_extracting.py:652-660 | both columns keep the words in their order |
| PageModules.CutIntoModules | backend/scripts/fields_extracting.py:1323-1372 | cutting at headings and unit tags gives the modules of the line-by-line definition |
| PageModules.CutInStretches | backend/scripts/fields_extracting.py:1323-1372 | the sections hold all lines in order, and a section starts at every heading and unit tag below the top region and nowhere else; it is a table if that line is a unit tag or named like the table |
| PageModules.FormModules | backend/scripts/fields_extracting.py:1323-1415 | after cutting, every table becomes the rows between the first unit tag and the next heading other than BUSINESS, and every other module gives them up |
| PageModules.ModulesExactly | backend/scripts/fields_extracting.py:1374-1415 | with a unit tag every table holds exactly the pulled lines and every other section exactly its lines that are not pulled, in order; without one sections stay as cut |
| PageModules.PulledExactly | backend/scripts/fields_extracting.py:1374-1400 | a row or unit tag is pulled exactly if a first unit tag stands at or before it with no heading but BUSINESS in between |
| PageModules.EachLineOnceIff | backend/scripts/fields_extracting.py:1374-1415 | every line ends up in exactly one module exactly when there is no unit tag, or the first one starts the only table and that table holds nothing but rows and unit tags |
| PageModules.PlacedCounts | backend/scripts/fields_extracting.py:1374-1415 | how often each line ends up in a module, for every column |
| PageModules.NoteIsLost | backend/scripts/fields_extracting.py:1386-1400 | a footnote below a unit tag ends up in no module |
| PageModules.RowIsRepeated | backend/scripts/fields_extracting.py:1396-1399 | with two unit tags a row ends up twice |
| PageModules.LayOutPage | backend/scripts/fields_extracting.py:1747-1771 | the page's words come out, each once, if the left column is undisturbed in that sense, and only then if no two words are the same |
| Layout.BlocksConserveWords | backend/scripts/fields_extracting.py:529-582 | grouping words into lines and lines into blocks keeps the multiset of words, for all tolerances |
| Layout.RunsOf | backend/scripts/fields_extracting.py:542-557 | every sequence has such a cut, so the lines and blocks are determined by the sorted input |

## Left out

- Several upstreams at once: each has its own bucket and metrics, and their cache keys differ by name, so one upstream is modelled.
- Identity.IdentityAgreement: a process killed while it writes is not modelled; the partial file it leaves refuses every later boot.
- PageModules.LayOutPage: the text tests that tell headings, unit tags and rows apart are inputs.
- Floating-point rounding in the bucket, the layout and `dcfMath.js`; all of them are over the reals, `dcfMath.js` with overflow at 2^1024.
- HTTP, authentication, logging, url parsing and file-system errors other than a failed identity write; base64, UTF-8 and SHA-256 are taken as one to one.
- The identity checks that decide whether two observations are comparable, and the charts and readings built on them (`financialTrends.js:30-66`, `83-151`): case lists over row fields.
- `sec_valid_qname`, `sec_valid_typed_node`, continuation failures, operation results and the policy tables of the method gate: shape checks without a property across rows.
- Guards of other migrations; of the tables they protect only the columns that the modelled guards read appear.
- Heading and block classification, table merging and the field guesses of `fields_extracting.py`: heuristics without a stated property.
- `computeTotalValue`, `resolveSafeMarginState`, `pageRows`, `formatExactDecimal` and the remaining view helpers: easy members.
