# TrueFlow gateway: verified core

This project models the parts of the TrueFlow gateway whose correctness does not
show from reading one function, and proves what they promise:

- **The spend ledger** (`SpendLedger`, `SpendRuns`, `KeyLives`, `SpendLaws`). One
  call of `check_and_increment_spend` command by command, and a step system in which
  any number of calls interleave and time passes between any two commands.
- **The caps it enforces** (`CapsStore`, `CapsCache`). The rows and their
  one-minute cached copy; loaders in many processes against upserts and deletes.
- **Rate limiters and the two-tier cache** (`RateLimit`, `TieredCache`,
  `CacheRuns`). What the pruned, expiring remnant in Redis still says about the
  calls that were made, and how long a cached value outlives its TTL.
- **Wildcards** (`Glob`, `ModelAccess`). Three matchers (a greedy segment scan, a
  recursion with a depth cut-off, an iteration with a stack and a limit) against
  one meaning.
- **MCP tools** (`ToolNames`, `Registry`, `ToolPolicy`). Sanitised server names,
  published tool names and their parser, the name index, and the way of a tool call
  from the offer back to the server.
- **JSON transforms and redaction** (`JsonPath`, `RedactFields`, `Luhn`, `Sse`).
- **Key rotation** (`Rotation`). Any number of schedulers and readers.
- **Anomaly statistics** (`Anomaly`) and **plan and apply** (`Plan`).

`Options`, `Text`, `Json`, `Names`, `Selection` and `FiniteSets` are the shared vocabulary.

Objects that the gateway updates in place are classes whose methods are proved
against functions; loops are loops with invariants. Protocols are step systems:
an action is one Redis command, SQL statement or lock operation, a run is any
sequence of actions, and the theorems hold for every run. Ghost fields and the
provenance kept in some states (who stored an entry, when it was read) serve the
statements only.

## Where the code and its documentation differ

Each of these is a lemma with a concrete run or input, beside the lemma that says
exactly when the documented behaviour holds.

- A lifetime cap is described as never resetting. Its key expires after ten years
  without spend (`SpendLaws.IdleDecadeResetsLifetime`), and only then: a capped
  counter is lost exactly when two neighbouring charges are a TTL or more apart
  (`SpendLaws.CappedLapse`; `SpendRuns.LapseExactly` for any caps).
- Daily keys are kept 25 hours. A script that runs more than one hour after its
  request read the time can find its day's key gone, and admits the day's cap again
  (`SpendLaws.LateChargeRestartsTheDay`); the same condition decides, and within the
  hour it never arises (`SpendRuns.NothingLapses`).
- A negative cap is neither enforced nor recorded, so a cost it applies to is missing
  from that counter (`SpendLaws.NegativeCapLosesSpend`). By how much the counters
  then differ is `SpendLaws.LedgerLaw`. The HTTP handler, the only caller that sets
  caps, rejects those of zero and less; the script itself handles them.
- Dropping the cached caps after the database write is said to rule out stale
  reads. A loader caught between its read and its store brings the old caps back
  (`CapsCache.UpsertMissed`); `CapsCache.UpsertSeen` says this is the only way.
- The fixed window is said to allow twice the limit. In a half-open interval as long
  as the window it is twice the limit less one (`RateLimit.FixedBound`), and
  that is reached (`RateLimit.FixedBoundReached`).
- `invalidate` is said to make all instances see an update. Other processes keep
  their own copies until these expire (`CacheRuns.InvalidationMissesOther`); who can
  still answer is `CacheRuns.AnswersExactly`.
- A local copy is meant to live as long as the Redis entry. The TTL is asked after the
  value, so a value can be served past its deadline by the longest TTL in use, or a
  minute if that is longer, plus the time between the two commands
  (`CacheRuns.ServedWithinBound`, reached for every TTL and delay by
  `CacheRuns.BoundReached`); `CacheRuns.FillOutlives` says when a copy outlives its
  value.
- The cut-off of `glob_match` refuses matching texts: the lone star refuses all of
  256 characters or more (`Glob.LoneStarCutOff`, `Glob.GlobMatchExact`). The policy
  engine's matcher lets the pattern `/*` match everything
  (`Glob.SlashStarMatchesEverything`, `Glob.EngineGlobExact`). Its iteration limit is
  called generous enough for ten kilobytes with many wildcards; one star, 318
  characters of pattern and 633 of text reach it (`Glob.LimitRefusesShortText`,
  exactly when in `Glob.SlowExactly`).
- An allow list is documented by the example `mcp__server__*`. It offers the server's
  tools and then denies every call, except of tools that begin with an underscore
  (`ToolPolicy.ServerPatternDeniesCalls`), because calls are also tested under a name
  with a single underscore; a list with a tool's published name does the same
  (`ToolPolicy.ExactAllowListDeniesItsTool`). `ToolPolicy.CallPermittedExactly` says
  which calls are permitted.
- Unregistering a server, or registering a second one under its name, hides every
  other server of that name (`Registry.UnregisterEffect`, `Registry.RegisterEffect`),
  and nothing else does (`Registry.ReachableExactly`).
- The velocity of the anomaly check counts distinct seconds, not requests
  (`Anomaly.TwoRequestsOneSecond`, exactly when in `Anomaly.SecondsAreRequests`). Its
  window includes both ends, so one request every window is an anomaly
  (`Anomaly.SteadyTrafficAlerts`); otherwise an alert needs eleven buckets
  (`Anomaly.AlertNeedsElevenBuckets`).
- A path segment in brackets is a key to the writer and an index to the reader
  (`JsonPath.BracketExample`); which paths read back what was set is
  `JsonPath.ReadBackExactly`.

One more difference needs no lemma: rotating or deleting a credential
clears the cache key `credential:{id}` (gateway/src/rotation.rs:202-213,
gateway/src/api/handlers/credentials.rs:239-242), said to keep stale copies out.
Nothing ever stores under that key; the secret of a rotated credential is read from
its row each time (gateway/src/vault/builtin.rs:145-168). `Rotation` therefore has
readers that select and later decrypt a row, and no cache.

## Model

| member | source | states |
|---|---|---|
| `SpendLedger.ScriptAllOrNothing` | gateway/src/middleware/spend.rs:399-475 | an admitted request adds its cost and a fresh TTL to exactly the enforced counters; a refused one changes nothing, and the highest cap exceeded (lifetime, monthly, daily) is named |
| `SpendLedger.DecidesExactly` | gateway/src/middleware/spend.rs:421-473 | a request is admitted exactly when, for each cap that is not negative, what its own counter reads plus the cost is at most that cap; otherwise the highest cap this breaks is named |
| `SpendLedger.Redis.Script` | gateway/src/middleware/spend.rs:399-475 | read, test, then charge all or none, as one atomic command; admitted exactly when the cost fits every cap |
| `SpendLedger.Redis.CheckAndIncrementSpend` | gateway/src/middleware/spend.rs:366-585 | a call on its own: no effect for costs of zero or less, the script, then two commands for each uncapped counter, only if admitted |
| `SpendLedger.Redis.TrackUncapped` | gateway/src/middleware/spend.rs:535-566 | an uncapped counter is incremented and given its TTL |
| `SpendRuns.UndisturbedCall` | gateway/src/middleware/spend.rs:366-585 | the step system run without interference is the sequential method |
| `SpendRuns.FollowUpOwes` | gateway/src/middleware/spend.rs:535-566 | the commands after the script charge each uncapped counter once and no capped one |
| `SpendRuns.CountersAgree` | gateway/src/middleware/spend.rs:399-566 | in every interleaving, with any caps, each counter plus what is on its way equals the admitted costs of its period whose cap is not negative, exactly as long as it has not lapsed, and is less from then on |
| `SpendRuns.LapseExactly` | gateway/src/middleware/spend.rs:399-566 | a counter lapses exactly when its key is charged a TTL or more after a renewal that no other followed in time, the times read off the run |
| `SpendRuns.CountersExact` | gateway/src/middleware/spend.rs:399-566 | so it agrees with the admitted costs exactly when the run left no such gap |
| `KeyLives.LapseExact` | gateway/src/middleware/spend.rs:445-566 | for any sequence of INCRBYFLOAT and EXPIRE times: the key expires under a charge exactly when there is such a gap |
| `KeyLives.GapOfCharges` | gateway/src/middleware/spend.rs:445-566 | where every charge renews, that is two neighbouring charges a TTL or more apart |
| `SpendLaws.LedgerLaw` | gateway/src/middleware/spend.rs:366-566 | at rest, for any caps: the month exceeds the sum of its days by the costs a negative daily cap hid, less those a negative monthly cap hid; likewise lifetime and months |
| `SpendLaws.LedgerConserved` | gateway/src/middleware/spend.rs:366-566 | at rest, the daily counters of a month sum to the month's and the monthly ones to the lifetime counter, for every interleaving and changing non-negative caps |
| `SpendLaws.PunctualIsSteady` | gateway/src/middleware/spend.rs:499-501 | its condition on the run holds when commands are at most an hour late, for ten years |
| `SpendLaws.CapSafety` | gateway/src/middleware/spend.rs:399-475 | under caps that change from call to call, after every step each counter is within the cap it was last charged under, and equals the costs admitted in its period exactly when no two neighbouring charges are a TTL apart |
| `SpendLaws.FixedCapSafety` | gateway/src/middleware/spend.rs:399-475 | with one fixed cap no counter ever exceeds it, and neither do the admitted costs of a period unless it lapsed |
| `SpendLaws.CappedLapse` | gateway/src/middleware/spend.rs:399-475 | under a cap a counter lapses exactly when two neighbouring charges are a TTL or more apart |
| `SpendLaws.BudgetAdmits` | gateway/src/middleware/spend.rs:421-460 | in every run a request whose cost fits what the admitted ones have left of each of its caps is admitted, whatever else happens |
| `SpendLaws.BudgetExactly` | gateway/src/middleware/spend.rs:421-460 | with caps on every request and counters in use, it is admitted exactly then |
| `SpendRuns.OnTime` | gateway/src/middleware/spend.rs:499-501 | a command at most an hour late finds its day's or month's key alive |
| `SpendRuns.Renewed` | gateway/src/middleware/spend.rs:499-501 | the 25-hour and 32-day TTLs outlast any day or month of the request by an hour |
| `SpendRuns.NothingLapses` | gateway/src/middleware/spend.rs:499-501 | before ten years, with commands at most an hour late, no counter ever lapses, since all commands on a key come within its TTL |
| `SpendRuns.ReadableInItsPeriod` | gateway/src/middleware/spend.rs:499-501 | whatever the run, the key of the current day or month can be read |
| `SpendLaws.LateChargeRestartsTheDay` | gateway/src/middleware/spend.rs:499-501 | one second beyond the hour, a daily cap of 10 admits 20; at the hour it does not |
| `SpendLaws.IdleDecadeResetsLifetime` | gateway/src/middleware/spend.rs:41-42 | ten idle years, and a lifetime cap of 10 admits 20; a second less, and it does not |
| `SpendLaws.MonthKeptThirtyTwoDays` | gateway/src/middleware/spend.rs:499-501 | a month's key outlives its last charge by 32 days, to the second |
| `SpendLaws.SecondAdmitted` | gateway/src/middleware/spend.rs:399-475 | of two charges under one cap the second is admitted beyond it exactly when the first one's TTL has passed |
| `SpendLaws.NegativeCapLosesSpend` | gateway/src/middleware/spend.rs:414-460 | a run after which a month's counter holds 10 and its day's nothing |
| `CapsStore.Store.LoadSpendCaps` | gateway/src/middleware/spend.rs:599-620 | the daily, monthly and lifetime caps are the limits of the rows named so; rows of other names are skipped |
| `CapsStore.Store.LoadSpendCapsCached` | gateway/src/middleware/spend.rs:629-669 | the live cached copy, or the rows, which are then cached for 60 seconds |
| `CapsStore.Store.UpsertSpendCap` | gateway/src/middleware/spend.rs:738-779 | sets the cap that the period names and no other, and drops the cached copy |
| `CapsStore.Store.DeleteSpendCap` | gateway/src/middleware/spend.rs:782-807 | clears the cap that the period names and no other, and drops the cached copy |
| `CapsStore.CapFromRow` | gateway/src/middleware/spend.rs:608-617 | the cap of a period is the limit of its row, or absent |
| `CapsStore.CapsByName` | gateway/src/middleware/spend.rs:608-617 | by the literal names: each cap is the limit of the row of its name, and absent without one |
| `CapsStore.UpsertedCaps` | gateway/src/middleware/spend.rs:747-762 | an upserted row changes its own cap and no other |
| `CapsStore.DeletedCaps` | gateway/src/middleware/spend.rs:788-793 | a deleted row clears its own cap and no other |
| `CapsCache.LoadsNeverOverlap` | gateway/src/middleware/spend.rs:644-658 | within a process two loaders are never both past the in-flight lock |
| `CapsCache.BoundedStaleness` | gateway/src/middleware/spend.rs:629-669 | every value returned was in the database at most 60 seconds before, plus the read-to-store time of the loader that cached it |
| `CapsCache.WaiterUsesCache` | gateway/src/middleware/spend.rs:644-658 | a loader that waited for the lock answers with what has been cached meanwhile, reads nothing and passes the lock on |
| `CapsCache.UpsertSeen` | gateway/src/middleware/spend.rs:764-767 | after the drop, all later answers are current, in all continuations, exactly when no loader holds an older revision it has yet to store |
| `CapsCache.UpsertMissed` | gateway/src/middleware/spend.rs:764-767 | a run in which a call that begins after a complete upsert is told the old caps |
| `RateLimit.SlidingWindow.Increment` | gateway/src/cache.rs:168-218 | the count returned is that of the members in (now - window, now] of the whole call history, though the set is pruned and the key expires |
| `RateLimit.CountIsCalls` | gateway/src/cache.rs:180-183 | the count is the number of calls exactly when no two calls of the window share a member |
| `RateLimit.SlidingBound` | gateway/src/cache.rs:158-162 | in every window of time at most `max` calls are told a count of at most `max` |
| `RateLimit.FixedWindow.Increment` | gateway/src/cache.rs:138-156 | the counter restarts when its key has expired and keeps the expiry of its first call |
| `RateLimit.FixedBound` | gateway/src/cache.rs:135-137 | in every half-open interval as long as the window at most 2 max - 1 calls are told a count of at most `max`, at whatever times calls come |
| `RateLimit.FixedBoundReached` | gateway/src/cache.rs:135-137 | for every limit some run reaches that bound |
| `RateLimit.OpenersApart` | gateway/src/cache.rs:142-147 | windows open at least a window apart and do not overlap |
| `TieredCache.Cache.Get` | gateway/src/cache.rs:47-82 | local hit, else Redis with its TTL kept locally, else nothing; expired local entries go |
| `TieredCache.Cache.Set` | gateway/src/cache.rs:84-102 | both tiers hold the value for the TTL |
| `TieredCache.Cache.InvalidateLocal` | gateway/src/cache.rs:104-106 | the local entry goes |
| `TieredCache.Cache.Invalidate` | gateway/src/cache.rs:110-119 | this process answers nothing for the key from now on; other keys are unaffected |
| `TieredCache.Cache.EvictExpired` | gateway/src/cache.rs:123-128 | removes expired entries only, and no answer changes now or later |
| `TieredCache.CopyOutlives` | gateway/src/cache.rs:66-79 | a copy outlives the Redis entry by more than half a second exactly when less than half a second was left, and never by more than a minute |
| `CacheRuns.ServedWithinBound` | gateway/src/cache.rs:47-102 | in every interleaving of processes every value is served before its deadline plus the reader's GET-to-TTL delay plus the longest TTL (at least a minute) |
| `CacheRuns.BoundReached` | gateway/src/cache.rs:66-79 | for every longest TTL and every delay some run serves a value up to the last instant of that bound |
| `CacheRuns.FillOutlives` | gateway/src/cache.rs:66-79 | exactly when a copy filled by a read outlives its value, whether the value is still stored, replaced or gone |
| `CacheRuns.AnswersExactly` | gateway/src/cache.rs:108-119 | in any state, without a new set, a process can still answer exactly when it holds an unexpired copy, Redis has the key, a set is on its way, or one of its own reads is |
| `CacheRuns.StaysSilent` | gateway/src/cache.rs:108-119 | a process that cannot answer stays so until some process sets the key |
| `CacheRuns.InvalidationMissesOther` | gateway/src/cache.rs:108-119 | a run in which one process invalidates in both tiers and another answers with the old value |
| `Glob.ModelMatches` | gateway/src/middleware/model_access.rs:88-144 | true exactly when the text can be cut as p0 w1 p1 ... wn pn at the pattern's stars |
| `Glob.ScanSegments` | gateway/src/middleware/model_access.rs:115-143 | the left-to-right scan decides the general case |
| `Glob.GreedyStep` | gateway/src/middleware/model_access.rs:127-135 | taking the leftmost occurrence of a middle segment loses no match |
| `Glob.LastStep` | gateway/src/middleware/model_access.rs:137-141 | the last segment fits exactly as a suffix |
| `Glob.MatchHelperExact` | gateway/src/utils.rs:20-44 | the recursion succeeds exactly when the pattern fits and depth plus text length plus number of stars is at most 256 |
| `Glob.FitsExactly` | gateway/src/utils.rs:20-44 | what a fit is: the text cut into one piece per pattern character, any piece for a star, one character for a question mark, the character itself otherwise |
| `Glob.GlobMatchExact` | gateway/src/utils.rs:11-47 | true always implies a fit; the answer is right exactly unless the pattern fits and the text is too long for the cut-off |
| `Glob.LoneStarCutOff` | gateway/src/utils.rs:18-25 | the lone star matches exactly the texts shorter than 256 characters |
| `Glob.MatchersAgree` | gateway/src/utils.rs:11-47 | on `?`-free patterns the recursion and the scan mean the same, and answer the same exactly within the cut-off |
| `Glob.FitsAsTail` | gateway/src/middleware/model_access.rs:102-143 | for `?`-free patterns the segment reading is the general meaning |
| `Glob.SearchMeans` | gateway/src/middleware/engine/operators.rs:102-144 | retrying only the last star finds every match: the search answers by the meaning unless it hits the limit |
| `Glob.SearchEnds` | gateway/src/middleware/engine/operators.rs:98-112 | pattern length + 1 times text length + 1 iterations suffice |
| `Glob.SlowExactly` | gateway/src/middleware/engine/operators.rs:82-112 | for a family of one-star patterns and texts they fit, the exact number of iterations, and so exactly which are refused |
| `Glob.LimitRefusesShortText` | gateway/src/middleware/engine/operators.rs:82-85 | 318 characters of pattern and 633 of text that fit and are refused |
| `Glob.EngineGlobExact` | gateway/src/middleware/engine/operators.rs:89-145 | the engine's matcher answers by the meaning unless it warns, but for slash-star; within the product bound it never warns |
| `Glob.GlobMatchIterative` | gateway/src/middleware/engine/operators.rs:89-145 | the loop with its stack computes that answer |
| `Glob.SlashStarMatchesEverything` | gateway/src/middleware/engine/operators.rs:90-92 | the pattern slash-star matches texts it does not fit |
| `Glob.SelfFits` | gateway/src/middleware/mcp.rs:67-67 | a pattern fits itself, so testing equality first changes nothing |
| `ModelAccess.CheckModelAccess` | gateway/src/middleware/model_access.rs:34-78 | allowed exactly when no model is asked, neither source has a pattern, or a pattern of the token's list or of its groups fits; else the patterns are reported |
| `ModelAccess.PatternsExactly` | gateway/src/middleware/model_access.rs:45-58 | the patterns are the strings of the token's list, then those of its groups, and no others |
| `ModelAccess.EnforcementsAgree` | gateway/src/middleware/policy_scope.rs:225-232 | the two places that restrict models agree on `?`-free lists within the cut-off |
| `ToolNames.SanitizeServerName` | gateway/src/mcp/registry.rs:643-673 | map, collapse with a flag, trim |
| `ToolNames.SanitizedIsNeat` | gateway/src/mcp/registry.rs:635-642 | no underscore, no capital, no double or edge hyphen, whatever the name |
| `ToolNames.SanitizedExactly` | gateway/src/mcp/registry.rs:643-673 | the result is the runs of letters and digits of the name, in lower case, in order, with one hyphen between neighbours |
| `ToolNames.SanitizedFixes` | gateway/src/mcp/registry.rs:643-673 | exactly the neat names are fixed points |
| `ToolNames.SanitizeIdempotent` | gateway/src/mcp/registry.rs:643-673 | sanitising twice is sanitising once |
| `ToolNames.SanitizedIsReadable` | gateway/src/mcp/registry.rs:640-641 | a sanitised name that is not empty can be read back from a published name |
| `ToolNames.RoundTrip` | gateway/src/mcp/types.rs:171-199 | a published name parses to its own server and tool exactly when the server has no double underscore, does not end in one and neither is empty |
| `ToolNames.ParsePrints` | gateway/src/mcp/types.rs:192-199 | what parses is the published name of what it parses to |
| `ToolNames.NamesAreInjective` | gateway/src/mcp/types.rs:166-172 | different pairs of readable server and named tool never share a published name |
| `Registry.McpRegistry.RegisterServer` | gateway/src/mcp/registry.rs:349-407 | server and index entry on success, nothing on a failed handshake |
| `Registry.McpRegistry.RegisterFromPersisted` | gateway/src/mcp/registry.rs:553-612 | a disconnected server with the stored tools |
| `Registry.McpRegistry.UnregisterServer` | gateway/src/mcp/registry.rs:410-421 | removes the server and the index entry of its name |
| `Registry.McpRegistry.RefreshServer` | gateway/src/mcp/registry.rs:424-447 | new tools and connected, or a fault |
| `Registry.McpRegistry.GetOpenAiTools` | gateway/src/mcp/registry.rs:450-466 | the published names of all tools of the connected servers asked for, in order |
| `Registry.McpRegistry.GetOpenAiToolsByName` | gateway/src/mcp/registry.rs:469-476 | the same for the names the index knows |
| `Registry.ResolvedExactly` | gateway/src/mcp/registry.rs:469-476 | every requested name that the index knows is resolved, and no other, in the order of the request |
| `Registry.OfferedInOrder` | gateway/src/mcp/registry.rs:450-466 | the offer of several servers is that of each in turn |
| `Registry.OfferedOfOne` | gateway/src/mcp/registry.rs:450-466 | a connected server offers `mcp__server__tool` for all its tools in order, any other nothing |
| `Registry.McpRegistry.ExecuteTool` | gateway/src/mcp/registry.rs:483-522 | the server whose client is called, or the error |
| `Registry.RegisterKeepsIndex` | gateway/src/mcp/registry.rs:397-404 | each index entry still points to a live server of its name exactly when the registration does not rename a reachable server |
| `Registry.UnregisterEffect` | gateway/src/mcp/registry.rs:410-421 | the index stays sound, and exactly the other servers of the same name become unreachable |
| `Registry.RegisterEffect` | gateway/src/mcp/registry.rs:397-404 | the new server is reachable, and exactly the other servers of its name are not any more |
| `Registry.RegisteredIsServed` | gateway/src/mcp/registry.rs:397-407 | a registered server is stored as given and, when connected, called under its name for its project; the others stay |
| `Registry.RefreshEffect` | gateway/src/mcp/registry.rs:424-447 | a refresh replaces the tools and connects; a failed one keeps them, withdraws the offer and refuses calls; nothing else changes |
| `Registry.IndexOfHistory` | gateway/src/mcp/registry.rs:397-421 | after any history with fresh ids the index is sound; with fresh names it reaches every live server |
| `Registry.ReachableExactly` | gateway/src/mcp/registry.rs:397-421 | a live server is reachable exactly when no operation since its registration registered its name or unregistered a server of its name |
| `Registry.AllOffered` | gateway/src/mcp/registry.rs:450-466 | every tool of every connected server asked for is offered |
| `Registry.OfferRoutesBack` | gateway/src/mcp/registry.rs:450-522 | every offered name belongs to a live server of a requested name, parses back to it when readable, and is routed to that server for its project |
| `Registry.RouteExact` | gateway/src/mcp/registry.rs:489-522 | a call is routed to a server exactly when the index reaches it under the name and it is of the project and connected |
| `Registry.RouteErrors` | gateway/src/mcp/registry.rs:489-522 | a call is refused as not connected exactly when the right server is there and not connected |
| `ToolPolicy.IsToolPermitted` | gateway/src/middleware/mcp.rs:59-84 | denied by any block pattern, else allowed without a list or by some pattern of it |
| `ToolPolicy.MatchesMeaning` | gateway/src/middleware/mcp.rs:66-82 | for names of ordinary length a pattern matches exactly what it fits, but for slash-star |
| `ToolPolicy.PermittedExactly` | gateway/src/middleware/mcp.rs:59-84 | a name is permitted exactly when no block pattern admits it and, given an allow list, some pattern of it does |
| `ToolPolicy.FilterOpenAiTools` | gateway/src/middleware/mcp.rs:88-107 | the loop computes the kept tools |
| `ToolPolicy.OfferedExactly` | gateway/src/middleware/mcp.rs:88-107 | exactly the names that are no MCP names, or that no block pattern and, given a list, some allow pattern admits, are offered, in their order; the rest are withheld |
| `ToolPolicy.BlockedIsWithheld` | gateway/src/middleware/mcp.rs:94-105 | a blocked tool is in no offer, whatever the allow list |
| `ToolPolicy.FilterMcpToolCalls` | gateway/src/middleware/mcp.rs:113-135 | permitted and denied calls, each in order |
| `ToolPolicy.SelectPartitions` | gateway/src/middleware/mcp.rs:118-134 | no call is lost or doubled |
| `ToolPolicy.SelectExactly` | gateway/src/middleware/mcp.rs:118-134 | each side has exactly its calls, in their order |
| `ToolPolicy.ExtractMcpToolCalls` | gateway/src/middleware/mcp.rs:218-268 | the two loops compute the calls of the response |
| `ToolPolicy.ExtractedExactly` | gateway/src/middleware/mcp.rs:218-268 | exactly the tool calls of all choices whose function name parses are found, in order, each with its id, server, tool and parsed arguments |
| `ToolPolicy.ToolCallsInOrder` | gateway/src/middleware/mcp.rs:221-238 | the tool calls of a response are those of its choices one after the other |
| `ToolPolicy.PermittedCallWasOfferable` | gateway/src/middleware/mcp.rs:113-135 | every permitted call of a response carries a published name, and no offer that had the name would have lost it |
| `ToolPolicy.CallPermittedExactly` | gateway/src/middleware/mcp.rs:113-135 | a call is permitted exactly when no block pattern fits either of its names and, given a list, some pattern fits the published name and some pattern the short one (with the slash-star case) |
| `ToolPolicy.ServerPatternDeniesCalls` | gateway/src/middleware/mcp.rs:58-58 | the documented list for a server keeps its tools in every offer and permits exactly the calls of tools that begin with an underscore |
| `ToolPolicy.LiteralListExactly` | gateway/src/middleware/mcp.rs:122-128 | a list without wildcards permits a call exactly when it has both of its names |
| `ToolPolicy.ExactAllowListDeniesItsTool` | gateway/src/middleware/mcp.rs:122-128 | a list with one published name offers the tool and denies its calls |
| `ToolPolicy.OfferedCallReachesItsServer` | gateway/src/middleware/mcp.rs:249-262 | a call, in any choice of a response, of an offered name is among the extracted calls with the offering server and tool and is routed to that server |
| `JsonPath.SetIsSetAt` | gateway/src/middleware/redact.rs:655-671 | setting by path is setting along the keys of the split path |
| `JsonPath.RemoveIsRemoveAt` | gateway/src/middleware/redact.rs:674-685 | removing by path is removing along the keys of the split path |
| `JsonPath.ReadIsGetAt` | gateway/src/middleware/fields.rs:183-227 | reading a path without indices is looking up its keys |
| `JsonPath.BracketFreeIsPlain` | gateway/src/middleware/fields.rs:230-236 | a path without an opening or without a closing bracket has no index |
| `JsonPath.IndexReads` | gateway/src/middleware/fields.rs:219-223 | `field[i]`, with i in decimal, reads on in element i counted from the start, and nothing beyond the end or in what is no array |
| `JsonPath.StarReads` | gateway/src/middleware/fields.rs:207-217 | `field[*]` collects what each element reads, in order, and nothing when none does |
| `JsonPath.ReadAfterSet` | gateway/src/middleware/redact.rs:655-671 | what was set is read back exactly when every node present above the leaf is an object |
| `JsonPath.SetLaws` | gateway/src/middleware/redact.rs:655-671 | setting what is there changes nothing; the last of two sets wins |
| `JsonPath.ReadAfterRemove` | gateway/src/middleware/redact.rs:674-685 | a removed path reads nothing |
| `JsonPath.RemoveUndoesSet` | gateway/src/middleware/redact.rs:655-685 | removing undoes setting exactly when the set was blocked or filled a vacant leaf of an existing object |
| `JsonPath.ReadsElsewhere` | gateway/src/middleware/redact.rs:655-685 | setting or removing leaves every read unchanged, indices and wildcards included, that does not go by way of the leaf |
| `JsonPath.IncomparableUndisturbed` | gateway/src/middleware/fields.rs:183-227 | for plain keys that is every path of which neither is a prefix of the other |
| `JsonPath.BracketsDoNotReadBack` | gateway/src/middleware/fields.rs:230-236 | setting any path with an indexed segment changes nothing that this path reads |
| `JsonPath.ReadBackExactly` | gateway/src/middleware/redact.rs:655-671 | for every path the reader accepts: the value set is read back exactly when every node above the leaf is an object, or, with indices, when it could be read before |
| `JsonPath.BracketExample` | gateway/src/middleware/fields.rs:230-236 | `a[0]`, set in an empty object, reads nothing |
| `RedactFields.Redact` | gateway/src/middleware/redact.rs:301-321 | the tree is the redacted tree; tags are appended without repetition, one for each listed key met |
| `RedactFields.BlankKeys` | gateway/src/middleware/redact.rs:303-311 | the listed keys of one object are blanked and tagged |
| `RedactFields.ClearPlaces` | gateway/src/middleware/redact.rs:301-321 | places not under a listed key are the same places with the same values but for what is redacted below |
| `RedactFields.ListedPlaces` | gateway/src/middleware/redact.rs:301-321 | what is left under a listed key is the placeholder, at every depth |
| `RedactFields.RedactedIdempotent` | gateway/src/middleware/redact.rs:301-321 | redacting twice is redacting once |
| `RedactFields.MetExactly` | gateway/src/middleware/redact.rs:303-310 | a key is tagged exactly when it is listed and occurs at a place not below a listed key |
| `RedactFields.TagsExactly` | gateway/src/middleware/redact.rs:303-310 | the tags are `field:` and the key for exactly those keys, none twice |
| `Luhn.LuhnCheck` | gateway/src/middleware/redact.rs:39-59 | accepts exactly the texts with 13 to 19 digits whose checksum is a multiple of ten |
| `Luhn.ChecksumFromTheRight` | gateway/src/middleware/redact.rs:45-58 | the checksum taken from the right: the last digit once, the one before it double, and so on |
| `Luhn.WeightExactly` | gateway/src/middleware/redact.rs:49-54 | a doubled digit counts with the sum of its own digits |
| `Luhn.DigitsInOrder` | gateway/src/middleware/redact.rs:40-40 | digits are read where they stand and everything else is skipped |
| `Luhn.SingleDigitError` | gateway/src/middleware/redact.rs:39-59 | changing one digit of an accepted number makes it rejected |
| `Luhn.AdjacentTransposition` | gateway/src/middleware/redact.rs:39-59 | swapping two different neighbours leaves it accepted exactly when they are 0 and 9 |
| `Luhn.CheckDigit` | gateway/src/middleware/redact.rs:45-58 | 12 to 18 digits have exactly one check digit |
| `Luhn.MistypedCharacter` | gateway/src/middleware/redact.rs:39-40 | the same for a mistyped digit character anywhere among separators |
| `Sse.RedactSseChunk` | gateway/src/middleware/sanitize.rs:89-139 | the lines redacted one by one and joined; the flag tells whether some line was |
| `Sse.LineExactly` | gateway/src/middleware/sanitize.rs:101-134 | which sanitiser rewrites which line: JSON first, plain text when that finds nothing, and only data lines other than the end marker |
| `Sse.FramingKept` | gateway/src/middleware/sanitize.rs:94-99 | the lines of the output are the lines of the input, each redacted for itself |
| `Sse.LinesKeepTheirKind` | gateway/src/middleware/sanitize.rs:101-107 | as many lines; data lines stay data lines, all others and the end marker are unchanged |
| `Sse.NothingToRedact` | gateway/src/middleware/sanitize.rs:134-138 | without a redacted line the output is the input |
| `Sse.CutAtLineBreak` | gateway/src/middleware/sanitize.rs:89-139 | cutting a stream at a line break does not change what is redacted |
| `Rotation.Scheduler.RotateCredential` | gateway/src/rotation.rs:182-258 | on success the row holds the next version and the secret encrypted anew under this call's randomness; otherwise nothing changes; success is exactly a readable envelope and a matching version |
| `Rotation.Scheduler.RunRotationCycle` | gateway/src/rotation.rs:88-128 | each candidate in turn; failures are logged and the successes counted |
| `Rotation.UndisturbedCycle` | gateway/src/rotation.rs:88-128 | a cycle over distinct current candidates encrypts each anew under the randomness of its turn, logs all of them and keeps every secret |
| `Rotation.UndisturbedRotation` | gateway/src/rotation.rs:182-258 | the steps of a job without interference are the sequential method |
| `Rotation.SecretsSurvive` | gateway/src/rotation.rs:182-242 | in every interleaving each stored or selected envelope decrypts to the original secret |
| `Rotation.ReadersGetTheSecret` | gateway/src/vault/builtin.rs:145-168 | a request that selected a row before, during or after rotations and decrypts it later obtains the original secret |
| `Rotation.VersionsCountCommits` | gateway/src/rotation.rs:215-235 | the version is the start version plus the number of committed updates |
| `Rotation.UpdatesReencrypt` | gateway/src/rotation.rs:192-231 | in every run each committed update stored an encryption of what its job had read, under that job's own randomness, and the table holds the last one |
| `Rotation.EnvelopesNeverReused` | gateway/src/rotation.rs:192-231 | with encryption injective in its randomness and fresh randomness, no two commits store the same envelope |
| `Rotation.FirstEnvelopeReplaced` | gateway/src/rotation.rs:192-231 | nor does any commit store the envelope a credential started with |
| `Rotation.EachVersionReplacedOnce` | gateway/src/rotation.rs:215-255 | each version passed was replaced by one job, with one success row (n, n + 1), and there are no other success rows |
| `Anomaly.BucketVelocities` | gateway/src/middleware/anomaly.rs:130-149 | the non-zero buckets, in order, with the number of timestamps of each |
| `Anomaly.BucketExactly` | gateway/src/middleware/anomaly.rs:139-145 | bucket b takes the ages from b windows up to, not including, b + 1 |
| `Anomaly.BucketsCountTheBaseline` | gateway/src/middleware/anomaly.rs:139-148 | the buckets together count exactly the timestamps younger than the whole buckets of the baseline |
| `Anomaly.DeviationBound` | gateway/src/middleware/anomaly.rs:155-168 | n (v - mean)^2 <= (n - 1)^2 variance for every value of every sample of two or more |
| `Anomaly.ExceedsIsThreshold` | gateway/src/middleware/anomaly.rs:104-106 | the squared test is the comparison with mean + sigma * stddev |
| `Anomaly.SmallBaselineNeverExceeded` | gateway/src/middleware/anomaly.rs:104-106 | no bucket of a baseline of at most ten exceeds mean + 3 stddev |
| `Anomaly.SpikeExceeds` | gateway/src/middleware/anomaly.rs:25-33 | a spike exceeds it from eleven buckets on, for every such size |
| `Anomaly.VelocityMonitor.RecordAndCheck` | gateway/src/middleware/anomaly.rs:61-127 | velocity and buckets are those of the distinct seconds of the whole history; the velocity is a bucket of its own baseline unless a request sits on the window's far edge |
| `Anomaly.SecondsAreRequests` | gateway/src/middleware/anomaly.rs:66-84 | the velocity is at most the number of requests of the window, and equal exactly when no two share a second |
| `Anomaly.TwoRequestsOneSecond` | gateway/src/middleware/anomaly.rs:66-69 | two requests of one second, and a velocity of one |
| `Anomaly.AlertNeedsElevenBuckets` | gateway/src/middleware/anomaly.rs:25-33 | whatever the minimum configured, an alert needs eleven buckets or a request exactly one window before |
| `Anomaly.SteadyTrafficAlerts` | gateway/src/middleware/anomaly.rs:82-106 | one request every window: buckets of one, a velocity of two, and an alert from the minimum of buckets on |
| `Anomaly.SteadyHourAlerts` | gateway/src/middleware/anomaly.rs:25-33 | with the defaults, a request every five minutes for an hour raises an alert |
| `Plan.DiffPolicy` | gateway/src/iac/diff.rs:220-235 | lists exactly the fields that differ |
| `Plan.DiffToken` | gateway/src/iac/diff.rs:237-260 | lists exactly the fields that differ, policies compared as bags |
| `Names.SortComparesBags` | gateway/src/iac/diff.rs:245-251 | sorted lists are equal exactly when the lists are equal as bags |
| `Plan.DiffSpendCaps` | gateway/src/iac/diff.rs:262-287 | appends exactly a creation for each cap the live side lacks and an update for each more than 0.001 above or below it |
| `Plan.ComputePlan` | gateway/src/iac/diff.rs:115-216 | policies, their drift, tokens with caps, their drift, in order |
| `Plan.EmptyPlanMeansInSync` | gateway/src/iac/diff.rs:37-41 | nothing to do exactly when every local policy and token has its equal among the live, and every cap a live limit within 0.001 either way |
| `Plan.EmptyByCounts` | gateway/src/iac/diff.rs:43-65 | empty is no creates and no updates; the three counts add up to all changes |
| `Plan.DriftExact` | gateway/src/iac/diff.rs:144-156 | drift names exactly the live policies and tokens absent locally |
| `Plan.PlanExactly` | gateway/src/iac/diff.rs:115-287 | a creation or update is in the plan exactly when its local policy, token or cap has no live counterpart or a different one |
| `Plan.FindUniquePolicy` | gateway/src/iac/diff.rs:119-123 | with distinct names, finding a policy's equal is its being live |
| `Plan.ApplySpendCaps` | gateway/src/main.rs:1270-1308 | sends a cap when it is missing or out of tolerance; fails exactly when a token with caps does not exist |
| `Plan.ApplyConverges` | gateway/src/main.rs:1249-1308 | after a faithful import and the apply loop the new plan has nothing to do |
| `Plan.AppliedCapsWithinTolerance` | gateway/src/main.rs:1270-1308 | and then each live limit lies between its local one less and plus 0.001 |
| `Plan.WithinToleranceUntouched` | gateway/src/main.rs:1283-1289 | a cap within tolerance keeps its live value |

## Left out

- Redis, Postgres and HTTP faults, and the fail-open switch: every command succeeds.
- Floating point: amounts, limits and statistics are exact numbers, and the standard deviation appears as the root of the variance.
- SpendLedger.Calendar: days and months are numbers; which day belongs to which month is a parameter, of which only the length of months is assumed.
- `check_spend_cap`, the pre-flight check, bounds nothing by itself; `track_spend` is not called; `reconcile_spend_from_audit_logs` reads and writes in separate steps and can raise a counter above its cap; none of them is part of this model.
- The usage columns that a spawned task updates in the database after a charge.
- Clock skew: each module has one monotone clock shared by the gateways, the script and Redis.
- CapsCache.Step: the concurrent loaders are a step system rather than methods, since their interleaving is the point; `CapsStore` has the methods.
- Lower-casing of patterns and texts, and Unicode case rules: text is taken as already lowered. What is alphanumeric beyond ASCII is a parameter.
- Glob.EngineGlobExact: the product bound tells beforehand when the iteration limit is not reached; which inputs beyond it reach the limit is characterised for one-star patterns of the form of `Glob.Slow` only.
- Regular expressions: the SSE sanitisers are parameters assumed not to introduce line breaks.
- A TTL of zero, which SETEX refuses: the cache model stores it as gone at once.
- In-place update of JSON trees: the Rust code owns the tree it changes, so the model returns the changed tree. Key order of objects, and so the order of redaction tags, is not modelled.
- Numbers in JSON are integers; numeric index overflow does not arise because an index beyond the array reads nothing either way.
- `JsonPath.ReadsElsewhere` excludes paths with a closing bracket before the opening one, on which the extractor panics.
- The cache key that a rotation clears: nothing fills it, so clearing it has no effect on what the model shows. External vaults, whose secrets are cached under other keys, are not part of this model.
- Encryption itself, and 32-bit overflow of credential versions: encryption is a parameter that decryption undoes, versions are integers.
- Which credentials are due for rotation, and the limit of 50 per cycle: any snapshot may be rotated at any time.
- The MCP handshake, OAuth, and descriptions and schemas of tools: a server is its project, name, tools and status. Interleaving inside one registry operation is not modelled.
- The server side of the configuration import: `Plan.Imported` states what it has to achieve, whatever caps it leaves behind. Detail texts of plan entries are not modelled.
- Anomaly webhooks, policies' other actions, guardrail presets, OIDC, scopes, exporters, the dashboard and the HTTP routes.
