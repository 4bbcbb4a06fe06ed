# A verified model of the Observable URL Shortener

The project models the parts of the service whose correctness is not visible from reading one
function, and proves what they promise for every input, every run and every interleaving.

**The rate limiter.** `TokenBucket` states the Lua script as a function of one bucket's stored
hash and proves what it decides over whole runs: a closed form for the level, the exact
condition under which each check is admitted, the rate envelope for clocks that may go backwards,
and that no policy within the envelope admits more. `RealScript` is the script line by line over
real token counts and shows that counting in 1/60000 of a token loses nothing. `RetryAfter` is
about the quoted wait and about exactly when rejections leave no trace, `BucketExpiry` about
buckets that are dropped, by their TTL or otherwise: when that is invisible, and what it can cost
when it is not. `FailOpen` is about callers that were cut off, and `SplitScript` about what
goes wrong when the script is not atomic. `RedisStore` and `RateLimiting` are the imperative
counterpart: a Redis server that runs one command at a time, the limiter that calls it, and the
429 at the HTTP edge. `SharedRedis` puts all clients, both route classes and the cache on one
Redis and proves that a bucket cannot tell.

**The link store.** `LinkStore` is a transition system: redirects, creates, click recording and
stats requests are tasks that advance by single steps (one Redis call, one database statement,
one clock reading) and interleave freely with each other, with the passing of time on two clocks,
and with Redis raising errors, expiring keys or losing them. `LinkInvariants` proves what every
step keeps, `LinkTheorems`, `LinkClicks` and `LinkStats` what every run promises, and
`LinkHandlers` writes the redirect and create handlers statement by statement and proves that each
of their executions is such a run, so that the theorems about runs are postconditions of the
handlers. `UrlCaching` is the cache-aside accessor. `SystemLimits` closes the loop: the Redis of
the link store is the shared Redis of the limiter's theorems, so the rate envelope holds in the
whole system.

**The codes.** `Base62` is the printing and the parsing loop, proved inverse, with exact length
and order. `ShortCodes` is the random generator with its bounded retry, the custom-code
validator and the short-URL printer.

`dafny verify dfyconfig.toml` checks everything.

## What is assumed

- Token amounts are integers in units of 1/60000 token; timestamps are integers in milliseconds.
  Capacity and refill rate are positive, as `app/config.py` validates, so the script's branch for
  a zero rate cannot be taken. `requested` is 1, the only value the application passes.
- The application's clock and Redis's clock are separate, and in the link store either may be set
  forward or back at any step, so clocks of several workers need not agree. A theorem that needs clocks in order says so: `Nondecreasing` for
  the timestamps of checks or reads, `Steady` for the clock of the link store over a stretch of a
  run, `ClocksAgree` or `DriftTolerated` for the drift between the two clocks.
- Redis runs one command at a time. A key is readable up to and including its deadline. A Redis
  call may raise before it took effect or after (`Fault`). A key may be lost at any time (`Lose`).
- The database shows committed rows only. An insert of a code that an uncommitted transaction
  has inserted waits for that transaction; an insert of a committed code fails. Rows are never
  deleted and their mapping never changes, because no code does either; the model proves the
  latter from its steps. The tables start empty. A 201 is acknowledged after the commit.
- Any sequence of steps is a run, since a step that is impossible in a state leaves it unchanged.
  A create may carry any list of candidate codes and any number of days, which covers the
  application's five random candidates, or its one custom code, and 1 to 3650 days.

## Where the code and its documentation disagree

- The module text of `app/core/rate_limiter.py` (lines 27-30) gives the TTL as the fill time; the
  code adds 1000 ms. The model follows the code. That second, and the millisecond for which a key
  is still readable at its deadline, is exactly the clock drift between consecutive checks that
  expiry tolerates: 1001 ms, and no more (`BucketExpiry.ToleratedIff`).
- Lines 111-112 say that expiry "loses no state". That is false when the application's clock falls
  behind Redis's: `BucketExpiry.StoppedClockForgetsDebt` is such a run and
  `BucketExpiry.ExpiryLosesNoStateIff` the exact condition.
- A rejected check with an older timestamp than the check before it may help later ones, because
  line 109 stores the older timestamp: `RetryAfter.LateRejectionIsObservable` is such a run, and
  `RetryAfter.DeletionInvisibleIff` says, for any run and any set of rejected checks, exactly when
  they are invisible.

## Model

| member | source | states |
|---|---|---|
| TokenBucket.LevelIsTightestWindow | app/core/rate_limiter.py:76-98 | The lazily refilled, clamped level is the minimum, over all windows ending at this check, of the window's budget less what was admitted in it; for arbitrary decisions and any clock. |
| TokenBucket.RemainingClosedForm | app/core/rate_limiter.py:86-116 | The remaining tokens the script reports are that minimum for its own decisions, the current check included: a lower bound of every window's balance, attained by one. |
| TokenBucket.DecisionExact | app/core/rate_limiter.py:94-107 | A check is allowed if and only if admitting it overdraws no window that ends with it. |
| TokenBucket.TokensInRange | app/core/rate_limiter.py:86-109 | The stored count stays between zero and capacity, also when clocks go backwards. |
| TokenBucket.Envelope | app/core/rate_limiter.py:86-109 | For every sequence of timestamps and every window, admissions are at most a full bucket plus the refill over the total forward motion of the stored clock. |
| TokenBucket.EnvelopeWithRegressions | app/core/rate_limiter.py:86-109 | If the clock goes back by at most d each time, each regression in a window costs at most d ms of extra refill. |
| TokenBucket.SampledThenEvaluated | app/core/rate_limiter.py:204-212 | Requests that sample their time and reach Redis at most `delay` ms later: the envelope over real evaluation instants, with `delay` ms more per overtaking and once for the window. |
| TokenBucket.MonotoneEnvelope | app/core/rate_limiter.py:86-109 | The textbook bound capacity + rate * (t_k - t_i) on every window, for timestamps in order. |
| TokenBucket.DecisionsConform | app/core/rate_limiter.py:86-109 | The script's decisions keep every window within budget at every admission. |
| TokenBucket.Maximal | app/core/rate_limiter.py:86-109 | No decisions that keep every window within budget admit more checks up to any point than the script does: it never rejects more than the limit requires. |
| TokenBucket.ConformanceIffAdmittedInFull | app/core/rate_limiter.py:76-109 | From a cold bucket a run is admitted in full if and only if every window could hold all of its checks; for any clock. |
| TokenBucket.MonotoneConformance | app/core/rate_limiter.py:76-109 | The same with windows measured on the timestamps themselves, when they are in order. |
| TokenBucket.FrozenClockAdmitsCapacity | app/core/rate_limiter.py:3-17 | With the clock standing still, n atomic checks on a cold bucket admit exactly min(n, capacity). |
| RealScript.TokenBucketLua | app/core/rate_limiter.py:66-117 | The script over real token counts writes, answers, quotes and expires exactly what the unit arithmetic says, on an absent bucket and on every bucket it can have written. |
| RetryAfter.RetryAfterExact | app/core/rate_limiter.py:99-107 | After a rejection that quotes a wait, later checks in order are rejected before now + wait and the first at or after it is allowed; the wait is at least 1 ms and at most the TTL. |
| RetryAfter.NeverLate | app/core/rate_limiter.py:99-107 | Even when clocks go backwards in between, a check at or after now + wait is allowed, provided nothing was admitted meanwhile. |
| RetryAfter.HeaderLeastSeconds | app/api/dependencies.py:116-129 | The Retry-After header is the least positive whole number of seconds after which the client is let through. |
| RetryAfter.DeletionInvisibleIff | app/core/rate_limiter.py:86-109 | For any clock, any run and any set of rejected checks: deleting them changes no other check's decision, wait or remaining tokens if and only if, before every kept check, the clock moved forward in all no more than net since the last kept one, or the bucket was full by then. |
| RetryAfter.RejectedUnobservable | app/core/rate_limiter.py:86-109 | Corollary: with timestamps in order, deleting any set of rejected checks changes no other reply. |
| RetryAfter.LateRejectionIsObservable | app/core/rate_limiter.py:86-109 | Counterexample without order: a late rejected check winds the stored clock back and so admits the next check. |
| RetryAfter.RejectionInvisibleIff | app/core/rate_limiter.py:86-109 | Corollary for one rejected check: the next reply is the same without it if and only if the three timestamps are in order, in either direction, or the bucket is full by then. |
| BucketExpiry.DroppingLevelIsTightestWindow | app/core/rate_limiter.py:80-98 | The level of a bucket that is dropped now and then, by its TTL or otherwise, is the minimum over all windows of budget plus forgiven debt less admissions; for any clocks. |
| BucketExpiry.DroppingEnvelope | app/core/rate_limiter.py:80-114 | Without any premise on clocks or losses, no window admits more than a full bucket, its refill, and the debt that drops forgave in it, at most one full bucket per drop. |
| BucketExpiry.ExpiryLosesNoStateIff | app/core/rate_limiter.py:80-84 | Dropping buckets changes no reply of a run if and only if every bucket dropped would have been full again by the application's clock. |
| BucketExpiry.ExpiryLosesNoState | app/core/rate_limiter.py:111-114 | Expiry changes no reply whenever, between consecutive checks, the application's clock advances at least as far as Redis's less 1001 ms. |
| BucketExpiry.ToleratedIff | app/core/rate_limiter.py:111-114 | 1001 ms is the exact bound: a drift of at most d per gap is harmless for all limits and all runs if and only if d <= 1001. |
| BucketExpiry.StoppedClockForgetsDebt | app/core/rate_limiter.py:111-114 | Counterexample: with a stopped application clock a drained bucket expires and admits a second burst at the same instant. |
| BucketExpiry.TtlIsFillTime | app/core/rate_limiter.py:111-114 | The TTL less one second is the least time that fills an empty bucket. |
| FailOpen.LedgerCounts | app/core/rate_limiter.py:235-249 | The ledger's two columns are numbers of results: those that let a request through, and those that carry the marker. |
| FailOpen.MarkedIffRaised | app/core/rate_limiter.py:231-249 | The NaN marker appears on exactly the results of checks that raised, which are let through; every other result tells the script's decision and the count the script left. |
| FailOpen.Ledger | app/core/rate_limiter.py:208-249 | For every window of attempts: whatever raises, before or after taking effect, and whatever is dropped, admissions are at most the envelope of the checks that took effect there, plus the debt forgiven, plus one per fallback. |
| SplitScript.SerialIsAtomic | app/core/rate_limiter.py:206-212 | Read and write-back as separate steps, run one request at a time, are the atomic script. |
| SplitScript.SplitOverAdmits | app/core/rate_limiter.py:3-17 | With the two steps interleaved there is a run that admits all of any number n of requests at one instant; serially the same n get min(n, capacity). |
| RedisStore.Redis.Eval | app/core/rate_limiter.py:66-117 | The script as a command on the store: the new keys, the new deadline and the reply, including the error on a key of the wrong type; no other key changes. |
| RedisStore.Redis.GetEx | app/core/cache.py:57-62 | GETEX: the reply, and the deadline pushed back only when a string was there. |
| RateLimiting.RateLimiter.CallScript | app/core/rate_limiter.py:206-216 | The call as the client sees it when it may raise before or after the script ran. |
| RateLimiting.ResultTellsReply | app/core/rate_limiter.py:235-249 | A result determines and is determined by the reply: decision, remaining tokens and, on a refusal, the wait in seconds; no reply is an admission with the marker. |
| RateLimiting.RateLimiter.Check | app/core/rate_limiter.py:169-249 | "redirect" consumes within the redirect limits, "create" within the create limits, every other class is an error without effect; the result tells the reply, and a raised call is admitted, marked and counted as a fallback. |
| RateLimiting.Gate.Enforce | app/api/dependencies.py:98-129 | Under the limits of the route's own class: a 429 exactly when the script answered and refused, with the header in whole seconds, counted once under its class and no other. |
| RateLimiting.RateKeyInjective | app/core/rate_limiter.py:183-185 | Different clients or classes have different keys, for client ids with any characters, colons included. |
| RateLimiting.CacheKeyInjective | app/core/cache.py:46-49 | Different codes have different cache keys. |
| RateLimiting.KeysDisjoint | app/core/cache.py:46-49 | No cache key is a rate-limit key. |
| SharedRedis.Projection | app/core/rate_limiter.py:138-145 | What one key holds and answers in a run of all clients and the cache is what it holds and answers when only its own commands run. |
| SharedRedis.MineIsFilter | app/core/rate_limiter.py:138-145 | Its own commands are those on the key and no others, each in its place. |
| SharedRedis.AnsweredAlone | app/core/rate_limiter.py:138-145 | Command by command: each is answered as if only commands on its key had come before. |
| SharedRedis.AttemptsAreChecks | app/core/rate_limiter.py:187-213 | A client's attempts are its checks, each in its place, with the answer Redis gave there. |
| SharedRedis.SharedRedisRefinesBucket | app/core/rate_limiter.py:183-185 | In any run over one shared Redis, with any failures, losses and clocks, the key of a (client, class) pair holds what its own checks and losses alone would leave, and the client hears what a bucket of its own would answer. |
| SharedRedis.SharedRedisLosesNoState | app/core/rate_limiter.py:19-30 | If only the TTL drops the bucket and clocks drift by at most 1001 ms per gap, the client hears what a private bucket that is never dropped would answer. |
| SharedRedis.FailOpenLedger | app/core/rate_limiter.py:208-249 | Hence the ledger holds of each client in every window of every such run, with losses counted as drops. |
| SharedRedis.LinkStaysCached | app/core/cache.py:51-117 | In any run over the shared Redis, a link that was set, and since then neither set again nor evicted, answers a read at time t if and only if no gap between its reads, up to t, exceeded the TTL. |
| SystemLimits.RedisIsShared | app/api/dependencies.py:32-53 | In every run of the link store its Redis is the shared Redis after the commands issued so far. |
| SystemLimits.EntersIffAllowed | app/api/routes.py:160-164 | A redirect enters its handler if and only if its check in the shared Redis lets it pass. |
| SystemLimits.CreateEntersIffAllowed | app/api/routes.py:50-56 | A create likewise. |
| SystemLimits.SystemObeysLimits | app/core/rate_limiter.py:169-181 | In every window of every run of the whole system, without exception, one client's redirects are within the envelope of the redirect limits and its creates within that of the create limits, plus the debt forgiven by drops, plus once per fallback. |
| SystemLimits.FrozenSystemAdmitsCapacity | app/core/rate_limiter.py:3-17 | With the application's clock standing still, no loss other than by the TTL and at most 1001 ms of drift per gap, n answered checks of one client pass exactly min(n, capacity of the class), whatever everyone else does. |
| SystemLimits.SystemForgivesNothing | app/core/rate_limiter.py:111-114 | Corollary: no forgiven debt if only the TTL drops the bucket and clocks drift by at most 1001 ms per gap. |
| UrlCaching.UrlCache.GetCachedUrl | app/core/cache.py:51-87 | A hit returns the live text and refreshes it, everything else is a miss; each call counts once, as hit, miss or fallback. |
| UrlCaching.UrlCache.SetCachedUrl | app/core/cache.py:89-120 | The entry and its deadline, with the default or the given TTL; an error is swallowed and counted. |
| UrlCaching.UrlCache.InvalidateCachedUrl | app/core/cache.py:122-139 | Exactly the one key goes, unless the call raised first; an error is swallowed and counted. |
| UrlCaching.SlidingTtl | app/core/cache.py:9-12 | A cached link is present at time t if and only if every gap between its consecutive accesses since the SET, up to t, is within the TTL. |
| Base62.ValueIsIndex | app/core/shortener.py:23-27 | The value table inverts the alphabet and knows exactly its characters. |
| Base62.EncodeBase62 | app/core/shortener.py:38-63 | The loop prints the code of the number; a negative number is refused. |
| Base62.DecodeBase62 | app/core/shortener.py:66-87 | The loop computes the positional value, and is refused exactly on an empty string or a foreign character. |
| Base62.DecodeEncode | app/core/shortener.py:38-87 | Decoding undoes encoding on every natural number. |
| Base62.EncodeDecode | app/core/shortener.py:38-87 | Encoding undoes decoding up to leading zeros, so exactly on canonical strings and no others. |
| Base62.EncodeLength | app/core/shortener.py:55-63 | The printed length is the least L >= 1 with n < 62^L. |
| Base62.PadThenValue | app/core/shortener.py:66-87 | Every number below 62^L is the value of a string of length L. |
| Base62.ValueThenPad | app/core/shortener.py:66-87 | Every string of length L has a value below 62^L that determines it: decoding is a bijection at each length. |
| Base62.EncodeOrder | app/core/shortener.py:23-27 | n < m if and only if the code of n comes before that of m, shorter first, then in ASCII order. |
| ShortCodes.GenerateShortCode | app/core/shortener.py:90-107 | Symbol i is the one that draw i picks from the alphabet, up to the requested length; a length that is not positive is refused. |
| ShortCodes.EveryCodeIsDrawn | app/core/shortener.py:90-107 | Every Base62 string of every length is drawn by some choices. |
| ShortCodes.GenerateUniqueShortCode | app/core/shortener.py:110-144 | The first candidate found free; failure only after every one of `max_retries` candidates was found taken; no further candidate is asked about. |
| ShortCodes.AcceptedAreCodes | app/schemas.py:41-61 | The validator accepts exactly the Base62 strings of 4 to 10 symbols, and names exactly the foreign characters. |
| ShortCodes.GeneratedAreAccepted | app/schemas.py:17-23 | Generated codes of every configurable length are valid custom codes. |
| ShortCodes.RStripRemovesSlashes | app/schemas.py:88 | Stripping removes exactly the trailing slashes: a prefix is left that does not end in one, and the rest is slashes. |
| ShortCodes.ShortUrlIs | app/schemas.py:86-91 | The short URL is the base URL up to its trailing slashes, one slash, and the code. |
| ShortCodes.ShortUrlDetermines | app/schemas.py:72-91 | Short URLs are equal if and only if their codes are and their base URLs are up to trailing slashes. |
| LinkInvariants.Surroundings | app/core/cache.py:62-76 | Clocks move by what they are told and a loss takes its one key from Redis; nothing else changes. |
| LinkInvariants.StepExtends | app/db/repository.py:41-67 | No step removes a row or changes a row's code or link, or what any code resolves to. |
| LinkInvariants.CacheStep | app/core/cache.py:51-117 | Every step keeps: each cache entry is a committed row's link without expiry, and each bucket key holds a hash. |
| LinkInvariants.RedirectsStep | app/api/routes.py:182-217 | Every step keeps: what a redirect in flight carries, pending SETs included, is true of the committed rows. |
| LinkInvariants.CreatesStep | app/api/routes.py:66-112 | Every step keeps: codes are unique over rows and uncommitted inserts, each row has one creator, and a refused create was refused because of a row. |
| LinkInvariants.ClicksStep | app/db/repository.py:85-119 | Every step keeps: counters equal events, and every recorded or queued click is on a code that has a row. |
| LinkInvariants.AlwaysSound | app/api/routes.py:57-217 | All four invariants hold in every reachable state of every run. |
| LinkTheorems.CacheRefinesDatabase | app/api/routes.py:174-206 | In every interleaving with any Redis failures, a redirect's outcome is what a lookup that never touches the cache says at some instant between its start and its answer. |
| LinkTheorems.JudgedByLink | app/db/repository.py:80-82 | A redirect that starts after its code is bound judges that link and no other, on the clock of an instant between its start and answer. |
| LinkTheorems.AcknowledgedLinkIsServed | app/api/routes.py:182-206 | After a create is acknowledged, every later redirect on its code is judged on the clock of one instant between its start and answer: "expired" if that has reached the expiry, else its destination, and never "not found"; for clocks that may be set back. |
| LinkTheorems.ExpiryIsCounted | app/api/routes.py:92-94 | A link's expiry is its days counted from an instant at which its create was in its handler; none if none were asked for. |
| LinkTheorems.LinkLivesItsDays | app/api/routes.py:92-94 | End to end, for clocks that may be set back: there is an instant of the create's handler and one of the redirect such that the answer is "expired" if the days asked for, counted from the one, are over at the other, and the destination if not. |
| LinkTheorems.SteadyLinkLivesItsDays | app/api/routes.py:92-94 | With a clock that is not set back: served while the days counted from the submission are not over, "expired" once those counted from the acknowledgement are. |
| LinkTheorems.FirstWriterWins | app/db/models.py:29 | In every interleaving of creates: unique committed codes, immutable rows, exactly one successful create per row, and a 409 or 503 only when the codes tried belong to committed rows. |
| LinkClicks.ClickConservation | app/api/routes.py:208-215 | In every reachable state, for every code and for every referrer on it, the redirects served are the clicks recorded plus those queued plus those lost; what is queued or lost under a redirect is its own visit, and not both. |
| LinkClicks.CountersAreEvents | app/db/repository.py:99-116 | In every reachable state each counter is the number of its events, every event has a row, and the counters add up to the events. |
| LinkClicks.RecordCounts | app/db/repository.py:99-116 | In every run, a queued task that records writes one event with its code and referrer and adds one to the counter of the row of that code; it leaves the queue, and nothing else changes. |
| LinkClicks.DropLoses | app/db/repository.py:99-119 | A task that fails loses exactly its own visit. |
| LinkClicks.AllClicksCounted | app/api/routes.py:208-215 | Once all tasks have run and none has failed, each counter is the number of redirects served on its code. |
| LinkStats.TopCoversIff | app/db/repository.py:139-158 | The top referrers account for all clicks if and only if at most `limit` referrers occur; otherwise they fall short. |
| LinkStats.RecentCount | app/db/repository.py:122-136 | The recent list has as many clicks as there are, up to the limit. |
| LinkStats.NewestFirst | app/db/repository.py:127-132 | The recent list holds clicks on the code from the history, newest first, and no click left out is newer than one listed. |
| LinkStats.MostFrequentFirst | app/db/repository.py:148-154 | Counts are exact and descending, and no referrer left out has more clicks than one listed. |
| LinkStats.CountsAreClicks | app/db/repository.py:146-154 | A count is the number of such clicks in the history. |
| LinkStats.FirstRead | app/api/routes.py:132-138 | "Not found" if and only if no committed row carries the code, else that row's counter, which is the number of clicks recorded so far. |
| LinkStats.StatsFoundIff | app/api/routes.py:132-138 | The same in every reachable state: 404 for codes without a row and for no others. |
| LinkStats.StatsAnswerFromRow | app/api/routes.py:132-145 | In every run, a stats request answers from the rows of the state in which it began, by that rule. |
| LinkStats.RecentRead | app/api/routes.py:140 | The second read goes through exactly on a list the query may give. |
| LinkStats.LastRead | app/api/routes.py:141 | The third likewise. |
| LinkStats.StatsCanFinish | app/api/routes.py:140-157 | A request that has found its row can always be answered. |
| LinkStats.StatsConsistent | app/api/routes.py:127-157 | With clicks committing between the three reads: min(click_count, 20) <= recent clicks <= 20, and with at most ten referrers the referrer counts add up to at least click_count and at most the clicks there are. |
| LinkStats.QuietStatsAgree | app/api/routes.py:127-157 | When no click commits in between, the three parts agree exactly, and the referrer counts add up to click_count precisely when at most ten referrers occur. |
| LinkStats.RecentExists | app/db/repository.py:122-136 | The specification of the recent-clicks query can always be met. |
| LinkStats.TopExists | app/db/repository.py:139-158 | The specification of the top-referrers query can always be met. |
| LinkHandlers.Server.Await | app/api/routes.py:165-173 | Whatever other requests do while this one awaits, its own task and the run so far stay as they were. |
| LinkHandlers.Server.CachedUrl | app/api/routes.py:182 | The cache read moves the redirect to answering on a hit, to the database on a miss. |
| LinkHandlers.Server.ReadAndJudge | app/api/routes.py:185-196 | The row read at one instant is judged on the clock of a later one, with other tasks running in between. |
| LinkHandlers.Server.ResolveMiss | app/api/routes.py:184-206 | Not found, expired or to be served, by the row read at one instant and the clock of a later one; the cache is filled if and only if the link is served and never expires. |
| LinkHandlers.Server.RedirectHandler | app/api/routes.py:160-217 | The whole handler under arbitrary interference: 429 exactly when the redirect limits refuse, else an answer that a cacheless lookup gives at some instant between arrival and answer; its click is queued if and only if it was served. |
| LinkHandlers.Server.ChooseCode | app/api/routes.py:66-94 | The custom code, or the first candidate that no row carried when asked, with a link that expires its days after a later clock reading; else a 409 for a custom code or a 503. |
| LinkHandlers.Server.InsertRow | app/api/routes.py:96-112 | The insert succeeds, conflicts with a committed row, or is still waiting for another transaction that holds the code. |
| LinkHandlers.Server.EndSession | app/db/database.py:57-70 | Commit appends exactly this row; rollback leaves the rows as they were. |
| LinkHandlers.Server.CreateHandler | app/api/routes.py:50-119 | The whole handler under arbitrary interference: 429 exactly when the create limits refuse; 500 only if the session fails; a 201 only if it does not, with a row that was not there when the request came, one of its codes, which no other row carries, its destination and its expiry; 409 and 503 are justified by committed rows, a 409 for a generated code by one that was free during the request; waiting means that another create holds the code. |
| LinkHandlers.AnsweredWithin | app/api/routes.py:182-217 | A redirect that arrived after a point of the run and is done was answered by a lookup after that point. |

## Left out

- TokenBucket: Lua's double rounding, the `tostring` form of the count and `_as_str` are not modelled; amounts are exact, and NaN is a constructor of its own.
- RateLimiting.RateLimiter.Check: the conversion of seconds to and from a float is exact here.
- LinkHandlers.Server.CreateHandler: a blocked insert is looked at again a given number of times (`patience`) and may then report that it is still waiting; the database waits without bound.
- LinkStore: tasks are values in maps rather than objects updated in place; `LinkHandlers` writes the redirect and create handlers imperatively and ties them to it.
- LinkStats.StatsConsistent: the stats handler is its three reads as steps; the copying of the rows into the response lists is not written as a method. Ties in ORDER BY are broken arbitrarily and `clicked_at` is arbitrary.
- Columns that decide nothing: `user_agent`, `client_ip_hash`, `client_id`, `created_at`, and column widths.
- The background task of a click fails as a whole or not at all; a commit whose outcome the application does not learn is not modelled.
- Failing database reads: a task whose read fails is one that never advances again.
- Hashing of addresses, X-Forwarded-For, request ids, logging, histograms, and the not-found and expired counters.
- Routing: `health`, `ready` and `metrics` are answered by another router, so the theorems about redirects speak of requests that reach the redirect handler.
- Randomness: the generator's choices are an arbitrary stream; nothing is said about how likely a collision is.
- `HttpUrl` parsing and the other request validation: a destination is an opaque string.
- Settings loading, connection pools, the Redis and PostgreSQL internals, Prometheus, Grafana, Docker and Alembic.
