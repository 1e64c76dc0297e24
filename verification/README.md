# Verification model of the music gateway's bookkeeping

The gateway keeps many small books: who called how often, what a user owes, what an order has come to,
which upstream credential is healthy. Most of them are compressed or scattered forms of something simple:
a counter stands for a log, a balance for a ledger, a lease map for a set of past events. This project
models those books in Dafny and proves that each agrees with what it stands for, over every run and, where
calls interleave, in every interleaving.

| module | what it models | main results |
|---|---|---|
| `RpmLimiter` | the per-minute limiter: a trimmed, expiring sorted set | it decides as the full log of admissions would; no 60-second window holds more than the limit, given distinct member names (needed from a limit of two up); retry-after is the first moment of admission |
| `DailyLimiter` | the daily limiter: INCR, then DECR on overflow, as separate steps | in every interleaving at most the limit is admitted, and a call is turned away only once exactly that many have been |
| `Quota`, `QuotaExpiry` | the day and month counters, their two atomic scripts, and the keys' expiry | every run keeps both within their limits and the month within the sum of its days; a hard limit changes nothing; expiry never shows in the windows in use |
| `UsageRing`, `RingRace` | the ring of sixty one-second buckets, and records that race with its advance | it answers as the unbounded log would; exactly when the figures differ from the true log, and when a racing record is lost or misfiled |
| `Wallet` | balances and ledgers | every run reconciles; pages concatenate to the ledger |
| `Overage`, `OverageService`, `Overshoot` | pay-as-you-go charging across wallet, charges and events | a bound on cap overshoot that a run from the start attains, conservation in every interleaving, rounding bounds |
| `Orders`, `Creation`, `Callback` | the order state machine, racing creations, and payment callbacks | one order for each idempotency key; at most one credit for each order over every run, and exactly when |
| `Overlap`, `Notices` | sweeps, transitions and notices whose reads and writes are apart | at most one credit with serialised notices; which stale writes keep credits and history; exactly which notices are credited |
| `Topup` | a top-up from the request through the payment gateway to the credit | the wallet grows by exactly the cents asked for iff the settled amount is a whole number of cents; otherwise not at all |
| `Pool`, `PoolService`, `PoolRefresh`, `AcquireOverlap` | weighted pick, health rules, the three-phase refresh, and acquisitions whose list and update are apart | exact shares of the draw; mutual exclusion; a failed refresh leaves no trace; which stale updates keep exclusion and bans |
| `Leases`, `LeaseHealth`, `Music` | lease registry, its releases applied to the pool, and the retry loop that uses leases | one release for each lease, none forgotten; five expired leases cool their credential down |
| `Signing`, `Readings`, `Ecb` | canonical signing strings; PKCS#7 (RFC 5652, section 6.3) with ECB (NIST SP 800-38A, section 6.1) | the string is a function of the map alone; which maps share theirs with another; decryption undoes encryption |
| `Currency` | conversion through a base currency | path independence, round-trip error, snapshots that reproduce the amount |
| `Users` | the user store's two indexes and its ids | the indexes stay paired; ids are distinct |

`Common` holds what the modules share.

## How it is built

What the code updates in place is a class here: the Redis keys, the ring, the repositories, the services.
Each method is proved against a value-level function of the old state (`View() == Next(old(View()), ...)`), or
directly against a ghost log, and the theorems are lemmas about those functions over whole runs. Where the code
is not atomic (`CheckDaily`, `CheckAndCharge`, `CreateOrder`, `Transition`,
`SweepExpired`, `processCallback`, `Acquire`, `RefreshCredential`, the lease registry), each call is a sequence of
steps of a state machine and a theorem speaks of every sequence of steps of any number of calls.

Clocks, random draws, upstream answers and store failures are parameters, so the results hold whatever
they are.

## Where the code does not keep the plain promise

Each of these is a lemma with a concrete run, and beside it stands the exact condition under which the promise holds.

- The per-minute limiter names a sorted-set member by second and random suffix. When a suffix repeats within a second
  ZADD adds nothing: names aside, a limit bounds its window iff it is one (`RpmLimiter.WindowBoundIff`). It counts distinct
  names exactly (`RpmLimiter.DistinctBound`), and with one suffix throughout it counts busy seconds, so it refuses
  something iff the limit is at most sixty (`RpmLimiter.UniformRefusesIff`).
- The ring's `bucketIdx` starts at 0 while `lastTick` starts at now, so what is recorded before the first advance lands in
  bucket 0. `UsageRing.RingIsTrueIff`, `QpsIsTrueIff`, `AverageIsTrueIff` and `MinimumIsTrueIff` say when that shows in
  each figure. A latency of 0 is also the mark of an unset minimum and erases the minimum of its second
  (`UsageRing.MinLatencyIsTrueIff`).
- A day's counter may exceed its month's once the day is past, after a refund (`Quota.PastDayMayExceedItsMonth`); when it
  does is `Quota.PastDayWithinMonthIff`, and when a refund keeps every month the sum of its days is
  `Quota.RefundKeepsExactIff`.
- The overage cap can be overshot by calls that all read before any records. The excess is at most k - 1 times the lesser
  of the highest price and the cap (`Overage.OvershootBound`), and a run from the start attains that
  (`Overshoot.OvershootIsAttained`).
- `FulfillTopup` is described as idempotent by a unique order id in the ledger
  (gateway/internal/gateway/balance_handler.go:285). The in-memory ledger has no such check: calling it twice changes
  nothing iff the order is worth less than a cent (`Callback.FulfilTwiceIff`). What makes the credit unique is the order's
  status, so an order id created again is paid again (`Callback.ReusedIdPaysTwice`); creation is safe iff the id has had
  no credit (`Callback.CreateKeepsIff`).
- `Transition` and `SweepExpired` write back a copy read earlier. A write-back keeps the credits in order iff it does not
  restart the payment of a credited order (`Overlap.WriteKeepsIff`, `Overlap.StaleStartPaysTwice`). A due sweep,
  a cancellation or a failure may also undo a completed payment (`Overlap.StaleWriteUndoesPayment`), though never so that it is paid again;
  for each event, when its write-back keeps the order's history is `Overlap.WriteEvolvesIff`.
- The handling of a notice is three such transitions and a credit. It is credited iff it found the order as it had left it
  itself (`Notices.CreditedIffFoundItsOwn`): a stale write in between can take the money without a credit
  (`Notices.StaleWriteLosesCredit`). Handled one after the other, the notices of an order give at most one credit
  (`Notices.AtMostOneCredit`); the same notice delivered twice at once can be credited twice
  (`Notices.DoubleDeliveryPaysTwice`).
- The gateway is asked for a top-up's settled amount to two decimals, and a notice of any other amount than the stored one
  is refused. So the user is credited iff the settled amount is a whole number of cents (`Topup.CreditedIffWholeCents`),
  always without conversion (`Topup.UnconvertedIsCredited`). At a rate of three, one yuan is paid and lost
  (`Topup.ThirdOfAUnitIsLost`).
- The two quota windows take a clock reading each, so a check at the turn of a month may count on the old day and the new
  month (`Quota.TurnOfMonthSplits`). It keeps months the sums of their days iff both are of one month
  (`Quota.CheckKeepsExactIff`), and over every run a month exceeds its days by such checks and refunds at most
  (`Quota.MonthWithinDaysAndDrift`).
- While an advance of the ring is under way a record goes to a second gone by; exactly when it is lost is
  `RingRace.RecordDuringAdvance`.
- Two racing calls of `CreateOrder` with one key leave one order, but the second may be refused
  (`Creation.RaceIsRefused`, `Creation.RefusedIff`).
- `Acquire` updates a copy listed earlier. It keeps the exclusion of refreshes iff the credential is not under refresh
  (`AcquireOverlap.MarkKeepsIff`, `AcquireOverlap.StaleMarkBreaksExclusion`), and the status, a ban included, iff that is
  still the one read (`AcquireOverlap.MarkKeepsStatusIff`, `AcquireOverlap.StaleMarkLiftsBan`).
- Phase 3 of a refresh overwrites any status written during phase 2: a reactivation lets a second refresh begin
  (`PoolRefresh.ReactivationBreaksExclusion`), and a ban is lost (`PoolRefresh.BanDuringRefreshIsLost`). A status write
  keeps the exclusion iff nobody is in phase 2 (`PoolRefresh.StatusWriteKeepsIff`). A ban survives a finishing refresh iff
  that one failed and had begun on a banned credential (`PoolRefresh.BanSurvivesFinishIff`), and with nobody in phase 2 any
  step but a status setting or a new refresh (`PoolRefresh.BanSurvivesStepIff`).
- A lease id issued again after it left the registry releases again (`Leases.ReusedLeaseReleasesTwice`); issuing is safe
  iff the id has not left it (`Leases.PutKeepsIff`).
- An update that changes a user's email, or a creation under an id in use, unpairs the indexes
  (`Users.UpdateKeepsPairedIff`, `Users.CreateKeepsPairedIff`); ids of negative numbers would all collide
  (`Users.IdsCollideIff`).
- A signing string can be that of several parameter maps: every map that signs two or more fields shares its own with one
  that signs fewer (`Readings.TwoFieldsMerge`). Among maps with clean names, exactly the strings of at least two fields, or of
  one whose value can be cut into a value and a later pair, are shared (`Readings.SharedIff`). Two maps both without
  ampersands in values share one iff the same fields of theirs are signed (`Signing.SameStringIff`).
- Unpadding does not look at the padding bytes, so encrypting a decryption gives the ciphertext back only when it was
  properly padded (`Ecb.EncryptUndoesDecryptIff`).

## Model

| member | source | states |
|---|---|---|
| `RpmLimiter.RpmKey.SlidingWindow` | gateway/internal/auth/ratelimit.go:36-58 | The script on the trimmed, expiring set admits exactly when fewer than `limit` of all admissions ever made are in the window, appends exactly that admission, and on refusal names the moment the oldest live one leaves. |
| `RpmLimiter.RpmKey.CheckRPM` | gateway/internal/auth/ratelimit.go:61-77 | The reply (allowed, remaining, limit, retry-after) as a question about the whole log; a log governed by one limit stays governed by it; no limit means no change. |
| `RpmLimiter.StoredIsLive` | gateway/internal/auth/ratelimit.go:43-48 | Neither trimming nor key expiry ever removes a member that is still in the window. |
| `RpmLimiter.WindowBound` | gateway/internal/auth/ratelimit.go:36-58 | For every run with a nondecreasing clock, a fixed limit and distinct member names (or a limit of one), any half-open window of 60 seconds holds at most rpm admissions. |
| `RpmLimiter.DistinctBound` | gateway/internal/auth/ratelimit.go:43-50 | Whatever the random suffixes, no window holds more than rpm distinct members: admissions less repeated names stay within the limit. |
| `RpmLimiter.WindowCount` | gateway/internal/auth/ratelimit.go:47 | The admissions of a window are its distinct members plus the repeats that ZADD ignored. |
| `RpmLimiter.LimitOneIsDistinct` | gateway/internal/auth/ratelimit.go:46-48 | Under a limit of one no member name can repeat. |
| `RpmLimiter.RepeatedNameDefeatsLimit` | gateway/internal/auth/ratelimit.go:47 | For every limit of two or more and every n, n calls drawing one suffix in one second are all admitted. |
| `RpmLimiter.WindowBoundIff` | gateway/internal/auth/ratelimit.go:46-50 | For a positive limit: every governed log keeps every window within it, whatever the names, iff the limit is one. |
| `RpmLimiter.UniformAdmitsIff` | gateway/internal/auth/ratelimit.go:43-50 | With one suffix throughout a request is admitted iff fewer than rpm of the last sixty seconds saw an admission. |
| `RpmLimiter.UniformRefusesIff` | gateway/internal/auth/ratelimit.go:43-50 | Then some governed run is refused a request iff the limit is at most sixty. |
| `RpmLimiter.GovernedIsFull` | gateway/internal/auth/ratelimit.go:43-46 | A governed log never has more than rpm members alive. |
| `RpmLimiter.RetryAfterIff` | gateway/internal/auth/ratelimit.go:52-57 | For any log: all requests before the promised moment are refused, and the one at it is admitted iff fewer than rpm members are younger than the oldest. |
| `RpmLimiter.RetryAfterExact` | gateway/internal/auth/ratelimit.go:52-57 | Under a fixed limit the retry-after is exactly the first moment a request would be admitted if nothing is admitted in between. |
| `DailyLimiter.EveryInterleaving` | gateway/internal/auth/ratelimit.go:86-108 | In every interleaving of INCR and DECR steps, some DECRs delayed or never run: counter = admissions + overflows not yet undone, at most `daily` admissions, a call turned away only when exactly `daily` were admitted, the k-th told daily - k remain, the expiry set once. |
| `DailyLimiter.StepKeeps` | gateway/internal/auth/ratelimit.go:86-102 | Every step of every call keeps that invariant. |
| `DailyLimiter.AdmittedIffRoomLeft` | gateway/internal/auth/ratelimit.go:86-94 | At any moment of any interleaving the next INCR is admitted iff fewer than `daily` have been. |
| `DailyLimiter.DayKey.CheckDaily` | gateway/internal/auth/ratelimit.go:80-109 | One uninterrupted call: admitted iff the count was below the limit, a refusal leaves the counter as it was and waits until the next midnight, which is also the key's expiry. |
| `Quota.EveryRun` | gateway/internal/quota/quota.go:120-165 | Over every run of checks and refunds with fixed limits, current windows and dates that never go back: 0 <= day <= its limit, 0 <= month <= its limit and the sum of the month's day counters, today <= this month, later days untouched. |
| `Quota.EveryRunWithinLimits` | gateway/internal/quota/quota.go:84-165 | Over every run on any windows, given by the caller or current, in any order: no counter is negative or passes its limit. |
| `Quota.StepKeeps` | gateway/internal/quota/quota.go:120-165 | Each check or refund, on the same or a later day or month, keeps that invariant. |
| `Quota.WithKeeps` | gateway/internal/quota/quota.go:130-139 | Which new values of one day and its month keep the invariant. |
| `Quota.CheckKeepsExact` | gateway/internal/quota/quota.go:130-148 | A check keeps every month exactly the sum of its days. |
| `Quota.CheckKeepsExactIff` | gateway/internal/quota/quota.go:84-141 | On any windows, an admitted check keeps every month the sum of its days iff its month is its day's. |
| `Quota.MonthWithinDaysAndDrift` | gateway/internal/quota/quota.go:84-165 | Over every run on any windows in any order, a month exceeds the sum of its days at most by the checks and refunds counted on it with another month's day or the reverse; with current windows by nothing. |
| `Quota.TurnOfMonthSplits` | gateway/internal/quota/quota.go:84-99 | A check whose clock readings straddle the end of a month counts on a month none of whose days it counts on: a concrete run. |
| `Quota.RefundKeepsExactIff` | gateway/internal/quota/quota.go:153-165 | A refund keeps every month exactly the sum of its days iff its day still holds its weight, or the whole of its month. |
| `Quota.PastDayWithinMonthIff` | gateway/internal/quota/quota.go:158-163 | After a refund another day of that month lies within the month iff the month had that much to spare. |
| `Quota.PastDayMayExceedItsMonth` | gateway/internal/quota/quota.go:158-163 | "Day within month" fails for a past day: a concrete run. |
| `Quota.HardLimitChangesNothing` | gateway/internal/quota/quota.go:137-141 | Over a limit iff the two counters concerned come out as they were, and then every other counter does too; for any windows. |
| `Quota.CountsNothingIff` | gateway/internal/quota/quota.go:130-141 | A check counts nothing iff it would take the counter of a positive limit past it; one that just fills it counts. |
| `Quota.CheckAdds` | gateway/internal/quota/quota.go:130-141 | An admitted check adds its weight, at least one, to one day and one month and to no other. |
| `Quota.RefundTakes` | gateway/internal/quota/quota.go:158-164 | A refund takes the weight, at least one, off each counter, or all there is, and touches no other. |
| `Quota.LimitIsReached` | gateway/internal/quota/quota.go:137 | Checks of a unit each fill a positive day limit exactly. |
| `Quota.RefundUndoesCheck` | gateway/internal/quota/quota.go:153-165 | A refund in the same windows undoes an admitted check of the same weight. |
| `Quota.Service.CheckScript` | gateway/internal/quota/quota.go:120-149 | INCRBY and rollback leave exactly the counters of the specification; hard iff the weight would take the counter of a positive limit past it; soft iff the month is past the soft percentage. |
| `Quota.Service.CheckAndConsume` | gateway/internal/quota/quota.go:170-216 | For any windows: hard iff the weight, at least one, would take the counter of a positive limit past it; usage and wait, with the exact soft back-off between 5 and 30 seconds and a hard limit until the next UTC midnight; an empty user changes nothing. |
| `Quota.Service.Refund` | gateway/internal/quota/quota.go:219-241 | For any windows: every counter afterwards, never below zero, and the two reported. |
| `Quota.SoftBackoff` | gateway/internal/quota/quota.go:207-213 | The back-off computed from the use ratio lies within 5 to 30 seconds. |
| `QuotaExpiry.ExpiryIsInvisible` | gateway/internal/quota/quota.go:130-134 | Over every run of checks and refunds by a forward clock and a regular calendar, at any later moment the keys still alive for the current day and month read as the counters that never expire; two days and thirty-five outlive any day and month. |
| `QuotaExpiry.StepRefines` | gateway/internal/quota/quota.go:130-165 | Each check, which puts off the expiry even when rolled back, and each refund, which does not, keeps that. |
| `QuotaExpiry.IncrementAgrees` | gateway/internal/quota/quota.go:130-134 | INCRBY and EXPIRE on a key whose time to live outlasts its window. |
| `QuotaExpiry.DecrementAgrees` | gateway/internal/quota/quota.go:158-163 | The bounded DECRBY, which leaves the expiry alone. |
| `QuotaExpiry.CalendarsAreRegular` | gateway/internal/quota/quota.go:84-100 | A calendar that counts days and months of any lengths up to 31 days from second 0 on, as UTC does, is regular, its dates are valid, and they never go back. |
| `QuotaExpiry.CalendarExists` | gateway/internal/quota/quota.go:84-100 | There is such a calendar for any such months. |
| `QuotaExpiry.LiveKeysWithinLimits` | gateway/internal/quota/quota.go:120-165 | Over every run by a forward clock and such a calendar, at any later moment: 0 <= live day key <= live month key, each within its limit. |
| `UsageRing.UsageHandler.constructor` | gateway/internal/gateway/usage_handler.go:85-96 | A new ring summarises the empty log. |
| `UsageRing.UsageHandler.Advance` | gateway/internal/gateway/usage_handler.go:162-184 | For any gap the ring moves to `now` and each bucket summarises the one second of the last minute it stands for. |
| `UsageRing.UsageHandler.Clear` | gateway/internal/gateway/usage_handler.go:173-181 | The clearing loop moves a ring at second `last` to second `last + gap`, emptying exactly the seconds that are new. |
| `UsageRing.UsageHandler.RecordRequest` | gateway/internal/gateway/usage_handler.go:107-128 | The log grows by one request with this latency, and the ring summarises the new log. |
| `UsageRing.UsageHandler.RecordError` | gateway/internal/gateway/usage_handler.go:194-198 | The log grows by one failure, and the ring summarises it. |
| `UsageRing.UsageHandler.ComputeStats` | gateway/internal/gateway/usage_handler.go:209-249 | qpm, errors, latency average and maximum are those of the log over the last minute; qps is the previous second's count; the minimum is that of the live requests. |
| `UsageRing.UsageHandler.Collect` | gateway/internal/gateway/usage_handler.go:211-248 | The summing loop over the sixty buckets computes those figures. |
| `UsageRing.PeelBucket` | gateway/internal/gateway/usage_handler.go:217-226 | A total over buckets 0 to r is the total over 0 to r - 1 plus that of the second bucket r stands for. |
| `UsageRing.SecondOfIs` | gateway/internal/gateway/usage_handler.go:173-175 | Bucket j stands for the one second of the minute that is j modulo 60. |
| `UsageRing.RingIsTrueIff` | gateway/internal/gateway/usage_handler.go:93-109 | Each of request count, errors, latency sum and maximum equals that of the true log by clock iff bucket 0 has not come round since the birth, or the birth second has left the minute, or what was recorded before the first advance leaves no trace in that figure. |
| `UsageRing.QpsIsTrueIff` | gateway/internal/gateway/usage_handler.go:213-232 | The previous second's count is the true one iff that is not the birth second, or the birth was on a whole minute, or nothing was recorded then. |
| `UsageRing.AverageIsTrueIff` | gateway/internal/gateway/usage_handler.go:237-240 | The average is the true one iff bucket 0 has not come round, or the birth second has left the minute, or its calls have the average of the later ones, or there are none later and they took no time. |
| `UsageRing.MinimumIsTrueIff` | gateway/internal/gateway/usage_handler.go:226-236 | The minimum is the true one, zeros erasing it alike, iff bucket 0 has not come round, or the birth second has left the minute, or no request live in it is below what is reported. |
| `UsageRing.RingIsTrueLog` | gateway/internal/gateway/usage_handler.go:107-249 | With nothing recorded before the first advance (or a birth on a whole minute) every figure, the minimum included, is the true log's, for any gaps. |
| `UsageRing.MaxLatencyIsLargest` | gateway/internal/gateway/usage_handler.go:113-118 | The running maximum is an upper bound that is attained, or 0. |
| `UsageRing.MinMarkBelowLive` | gateway/internal/gateway/usage_handler.go:120-128 | A bucket's minimum mark is positive and no greater than any latency not followed by a zero in its second. |
| `UsageRing.MinMarkIsAttained` | gateway/internal/gateway/usage_handler.go:120-128 | A positive mark is the latency of such a request. |
| `UsageRing.LeastOverSeconds` | gateway/internal/gateway/usage_handler.go:226-236 | The least mark over the buckets is the least live latency of the minute, 0 when there is none. |
| `UsageRing.MinLatencyIsTrueIff` | gateway/internal/gateway/usage_handler.go:119-128 | The reported minimum is the least positive latency iff some request with it was not followed by a zero latency in its second. |
| `RingRace.LostIff` | gateway/internal/gateway/usage_handler.go:168-183 | A record on whatever index, while an advance is under way, is missing when it is over iff its bucket was still to be cleared. |
| `RingRace.FinishedCounts` | gateway/internal/gateway/usage_handler.go:173-183 | When the advance is over a bucket holds what it held, or nothing if it was still to be cleared. |
| `RingRace.RecordDuringAdvance` | gateway/internal/gateway/usage_handler.go:107-111 | A record made then counts for a second gone by; it is in the new second's bucket iff the clock is whole minutes past that one, and lost iff the clock is a minute or more past it and its bucket's turn still to come. |
| `RingRace.LateIsLostIff` | gateway/internal/gateway/usage_handler.go:107-111 | The same for a record on an index loaded earlier, for any second of the last minute. |
| `RingRace.AdvanceAtOnce` | gateway/internal/gateway/usage_handler.go:162-184 | With nothing in between an advance leaves each bucket its count iff its second is still in the minute. |
| `Wallet.EveryRunReconciles` | gateway/internal/gateway/balance_repo.go:349-452 | After any sequence of credits, debits and overrides over any users: each balance is nonnegative and its ledger's sum, each balance-after a prefix sum, the version the ledger length, ids growing within and distinct across ledgers. |
| `Wallet.NextKeeps` | gateway/internal/gateway/balance_repo.go:349-452 | Each operation keeps all of that for all users. |
| `Wallet.PrefixSumAt` | gateway/internal/gateway/balance_repo.go:363-375 | Entry k's balance-after is the sum of the first k + 1 entries. |
| `Wallet.IdsGrow` | gateway/internal/gateway/balance_repo.go:366-368 | Ids strictly grow along a ledger. |
| `Wallet.MemBalanceRepo.Credit` | gateway/internal/gateway/balance_repo.go:349-382 | The book after it and the account and entry returned, or the error and no change. |
| `Wallet.MemBalanceRepo.Debit` | gateway/internal/gateway/balance_repo.go:384-416 | The same for debits; refused iff the amount or kind is bad or the balance too small. |
| `Wallet.MemBalanceRepo.SetBalance` | gateway/internal/gateway/balance_repo.go:418-452 | The override posts the difference as an adjustment and the balance is the one asked for. |
| `Wallet.MemBalanceRepo.ListTransactions` | gateway/internal/gateway/balance_repo.go:454-471 | Returns the page of the newest-first ledger at the defaulted limit and offset, and the total. |
| `Wallet.ReadBack` | gateway/internal/gateway/balance_repo.go:465-469 | The backward loop collects exactly that page. |
| `Wallet.PageIs` | gateway/internal/gateway/balance_repo.go:465-469 | Entry k of a page is the one offset + k from the newest; a page is as long as the limit or what is left. |
| `Wallet.PagesAreAPrefix` | gateway/internal/gateway/balance_repo.go:454-471 | The first n pages, of any size, concatenate to a prefix of the reversed ledger. |
| `Wallet.PagesCoverTheLedger` | gateway/internal/gateway/balance_repo.go:454-471 | Once they reach the end they concatenate to the whole reversed ledger. |
| `Overage.OvershootBound` | gateway/internal/gateway/extra_usage_handler.go:300-349 | In every interleaving with at most k calls in flight, each priced at most maxPrice, under a fixed positive cap, the month's charge stays from 0 to cap + (k - 1) * min(maxPrice, cap); with k of 1 it never exceeds the cap. |
| `Overage.CapInvariantHolds` | gateway/internal/gateway/extra_usage_handler.go:300-349 | The invariant behind it: recorded plus pending prices stay within that bound, each at most min(maxPrice, cap). |
| `Overage.BeginsIff` | gateway/internal/gateway/extra_usage_handler.go:286-313 | A priced call of an enabled user begins iff charge and price stay within a positive cap; a cap of zero or less is none. |
| `Overage.PricedIs` | gateway/internal/gateway/extra_usage_handler.go:279-296 | A call weighs its weight, at least one, and costs the exact price rounded up to a cent. |
| `Overage.RecordingChanges` | gateway/internal/gateway/extra_usage_repo.go:254-274 | A recorded call adds one to the count and its weight and price to the sums of its user's month, sets its plan if it names one, and changes no other month. |
| `Overage.EntriesOfCall` | gateway/internal/gateway/extra_usage_handler.go:318-347 | The wallet entries of a call: the price out as overage for its source, and back as refund. |
| `Overage.CapMove` | gateway/internal/gateway/extra_usage_handler.go:315-359 | Any step after the cap check only moves a price from pending to recorded or drops it. |
| `Overshoot.OvershootIsAttained` | gateway/internal/gateway/extra_usage_handler.go:293-349 | For every k, cap and highest price there is a run from the start, within that price, cap and number in flight and at one rate for all its calls, that ends exactly at the bound. |
| `Overshoot.InFlightByStarts` | gateway/internal/gateway/extra_usage_handler.go:300-349 | Only a call that begins raises the number in flight. |
| `Overshoot.TogetherRuns` | gateway/internal/gateway/extra_usage_handler.go:300-349 | k calls that all read before any records add all their prices, from any state with room for one. |
| `Overage.EveryInterleavingConserves` | gateway/internal/gateway/extra_usage_handler.go:315-359 | In every interleaving, with AddCharge and RecordEvent failing at will, for every user: overage debits less refunds = recorded charges + prices between debit and record; recorded charges = event prices + prices not logged. |
| `Overage.ConservedStep` | gateway/internal/gateway/extra_usage_handler.go:315-359 | Each step of each call, and any wallet traffic of other kinds, keeps both equations. |
| `Overage.PriceIsPositive` | gateway/internal/gateway/extra_usage_handler.go:293-296 | The price in cents is at least one and at most 999 thousandths above the exact one. |
| `Overage.ChargesAreRounded` | gateway/internal/gateway/extra_usage_repo.go:254-274 | At a constant price p, every run keeps p * WeightSum <= 1000 * AmountCents <= p * WeightSum + 999 * Count. |
| `Overage.SeparateBillingCost` | gateway/internal/gateway/extra_usage_handler.go:293-296 | Billing n requests one by one costs no less than billing their total weight, and at most n - 1 cents more. |
| `OverageService.UninterruptedIs` | gateway/internal/gateway/extra_usage_handler.go:293-359 | A call run alone is one pass through the interleaved machine: what it leaves, by whether it is rejected, the balance suffices and the record succeeds. |
| `OverageService.SettledEffect` | gateway/internal/gateway/extra_usage_handler.go:315-350 | Wallet and month's charge move together by the price, or not at all. |
| `OverageService.ExtraUsageService.Quote` | gateway/internal/gateway/extra_usage_handler.go:279-313 | Disabled iff not enabled (or never set); unpriced iff then the rate is not positive; over the cap iff then the cap is positive and charge and price pass it; else a pass, with the charge read, the rounded-up price and the cap. |
| `OverageService.ExtraUsageService.Settle` | gateway/internal/gateway/extra_usage_handler.go:315-367 | Debit, record, event or compensation: the three stores afterwards and the decision. |
| `OverageService.ExtraUsageService.CheckAndCharge` | gateway/internal/gateway/extra_usage_handler.go:273-368 | The three stores after an uninterrupted call and exactly which reason or error it answers with; wallet and charge move together by the price or not at all; within the cap when allowed; compensated when the record fails. |
| `OverageService.MemExtraUsageRepo.UpsertSettings` | gateway/internal/gateway/extra_usage_repo.go:233-240 | One user's settings change and no other's. |
| `OverageService.MemExtraUsageRepo.GetCharge` | gateway/internal/gateway/extra_usage_repo.go:242-252 | The stored charge of user and month, or an empty one. |
| `OverageService.MemExtraUsageRepo.AddCharge` | gateway/internal/gateway/extra_usage_repo.go:254-274 | Adds one call to one user's month and leaves every other charge. |
| `OverageService.MemExtraUsageRepo.RecordEvent` | gateway/internal/gateway/extra_usage_repo.go:276-287 | Appends one event under the next id to its user's list. |
| `Orders.TransitionsClimb` | gateway/internal/billing/order.go:90-138 | The table has no cycle: every allowed transition climbs a rank; which event leads from where to each status, and that no other is allowed. |
| `Orders.Service.Create` | gateway/internal/billing/service.go:139-150 | A used idempotency key is refused with nothing changed; otherwise the order is stored and indexed. |
| `Orders.Service.CreateOrder` | gateway/internal/billing/service.go:49-59 | With nothing in between: a repeated key returns the order first created under it, as it now is, and creates nothing; otherwise the order is stored and its key, no other, indexed. |
| `Orders.Service.Update` | gateway/internal/billing/service.go:178-187 | Replaces a stored order, or reports it missing and changes nothing. |
| `Orders.Service.Transition` | gateway/internal/billing/service.go:70-87 | Moves exactly one order along the table, setting PaidAt iff it becomes paid, or reports which error and changes nothing. |
| `Orders.Service.ListExpired` | gateway/internal/billing/service.go:190-201 | Lists each order whose expiry is set and past, once, and no other. |
| `Orders.Service.ExpireAll` | gateway/internal/billing/service.go:98-113 | The loop expires exactly the due orders and counts them. |
| `Orders.Service.SweepExpired` | gateway/internal/billing/service.go:92-114 | After an uninterrupted sweep exactly the orders past their time and still unpaid are expired; the count is theirs. |
| `Orders.Service.CreateRefund` | gateway/internal/billing/service.go:204-213 | Marks one order refunded, whatever its status. |
| `Creation.EveryRun` | gateway/internal/billing/service.go:49-59 | In every interleaving of lookups and creations with fresh order ids, index and store point at each other, and a call answered with an order was answered with the one its key leads to. |
| `Creation.OneOrderPerKey` | gateway/internal/billing/service.go:49-59 | No two orders are ever stored under one nonempty key, and all calls with it that got an order got the same one. |
| `Creation.LookAnswersIff` | gateway/internal/billing/service.go:49-54 | A look answers iff its key is taken, with the order as it now is. |
| `Creation.RefusedIff` | gateway/internal/billing/service.go:139-150 | A call is refused as a duplicate iff its key, free when it looked, is taken when it creates. |
| `Creation.RaceIsRefused` | gateway/internal/billing/service.go:49-59 | Two calls that both look before either creates: the second is refused. |
| `Creation.AtOnceIsNotRefused` | gateway/internal/billing/service.go:49-59 | With nothing in between a call is never refused. |
| `Callback.AtMostOneCredit` | gateway/internal/gateway/payment_callback_handler.go:177-251 | Over every run of notices, status events, sweeps, refunds and other wallet traffic, each repeated at will, with orders created under ids not in use, an order puts at most one credit into all ledgers together. |
| `Callback.EveryRunCreditsOnce` | gateway/internal/gateway/payment_callback_handler.go:177-251 | A credited order is that user's settled top-up and the credit is its worth in cents. |
| `Callback.StepKeeps` | gateway/internal/gateway/payment_callback_handler.go:177-251 | Each step keeps that for every order and user. |
| `Callback.CreditedExactlyWhenPaid` | gateway/internal/gateway/payment_callback_handler.go:189-230 | A step credits an order iff it is an accepted notice of a top-up worth a cent; the order was unpaid before and is completed after. |
| `Callback.StatusClimbs` | gateway/internal/billing/service.go:70-87 | Over every run of uninterrupted steps an order's status never goes down its rank, identity and amounts never change, and a payment time once set stays. |
| `Callback.StatusHasItsCause` | gateway/internal/billing/order.go:90-104 | Over every run an order is failed only after a failure, canceled only after a cancellation, expired only after a timeout or sweep, and so for each status. |
| `Callback.AcceptedRun` | gateway/internal/gateway/payment_callback_handler.go:202-219 | The up to three transitions of an accepted notice end in completed with the payment time, from pending and from paying alike. |
| `Callback.RepeatedNoticeIsIgnored` | gateway/internal/gateway/payment_callback_handler.go:189-192 | A notice delivered again at any later time, with nothing in between, changes nothing, accepted or not. |
| `Callback.RepeatedNoticeIsIgnoredLater` | gateway/internal/gateway/payment_callback_handler.go:189-192 | An accepted notice delivered again after any run of other steps changes nothing. |
| `Callback.FulfilTwiceIff` | gateway/internal/gateway/balance_handler.go:285-310 | Fulfilling an order a second time changes nothing iff it is worth less than a cent. |
| `Callback.CreateKeepsIff` | gateway/internal/billing/service.go:139-150 | Creating a pending order, under a new id or one in use, keeps its credits in order iff the id has had none. |
| `Callback.EachCreationPays` | gateway/internal/gateway/payment_callback_handler.go:189-230 | Whatever went before, an order created and paid adds one credit of its id. |
| `Callback.ReusedIdPaysTwice` | gateway/internal/gateway/balance_handler.go:285-310 | So an id created again after it was paid is paid twice: a concrete run. |
| `Callback.PaymentCallbackHandler.FulfillTopup` | gateway/internal/gateway/balance_handler.go:286-311 | Credits the original amount (else the settled one) in whole cents, truncated; refused iff below one cent. |
| `Callback.CentsIs` | gateway/internal/gateway/balance_handler.go:290-299 | An order is worth the whole cents of its original amount, or of its own when it was not converted. |
| `Callback.TruncateIs` | gateway/internal/gateway/balance_handler.go:299 | Truncation gives the nearest whole number no further from zero. |
| `Callback.PaymentCallbackHandler.Complete` | gateway/internal/gateway/payment_callback_handler.go:205-219 | Paying to paid to completed, with the payment time. |
| `Callback.PaymentCallbackHandler.Settle` | gateway/internal/gateway/payment_callback_handler.go:201-233 | An unpaid order ends completed, and credited iff it is a top-up worth a cent. |
| `Callback.PaymentCallbackHandler.ProcessCallback` | gateway/internal/gateway/payment_callback_handler.go:177-251 | Order store and wallet afterwards, and which reply, for every notice: a failure fails a paying order and nothing else, an accepted success completes it with the payment time, any other notice changes no order. |
| `Overlap.AtMostOneCredit` | gateway/internal/billing/service.go:70-114 | With transitions and sweeps that read and write back apart from each other, between whole notices, an order puts at most one credit into all ledgers together, provided ids are not created again and no payment is started on a copy whose order has meanwhile been paid or closed. |
| `Overlap.EveryRunPaysOnce` | gateway/internal/billing/service.go:70-114 | A credited order then awaits no payment, and the credit is its worth. |
| `Overlap.WriteKeepsIff` | gateway/internal/billing/service.go:75-86 | A copy written back, however stale, keeps that iff its event is not pay_start or the order has had no credit. |
| `Overlap.StaleStartPaysTwice` | gateway/internal/billing/service.go:71-83 | A pay_start that read the order before its callback lets the same notice pay again, from any state. |
| `Overlap.WriteEvolvesIff` | gateway/internal/billing/service.go:70-114 | For every event and however stale the copy, a write-back is a step of the order's history iff the event's guard on status and payment time holds. |
| `Overlap.StaleWriteUndoesPayment` | gateway/internal/billing/service.go:70-114 | A cancellation or failure that read an order before its payment, or a sweep that listed it as due, leaves it credited, closed and without a payment time, from any state. |
| `Overlap.HarmlessWritesEvolve` | gateway/internal/billing/service.go:70-114 | While each write-back meets its guard, stale or not, every order's history is what it would be without overlap. |
| `Overlap.AtOnceIsTransition` | gateway/internal/billing/service.go:70-87 | Read and written at once, a copy makes the transition, and a due one the sweep's change. |
| `Notices.AtMostOneCredit` | gateway/internal/gateway/payment_callback_handler.go:177-251 | With a notice's own reads and writes apart too and anything in between, an order puts at most one credit into all ledgers together, provided its notices come one after the other, ids are not created again, and nobody else starts a payment on a copy whose order has meanwhile been paid or closed. |
| `Notices.EveryRunIsGuarded` | gateway/internal/gateway/payment_callback_handler.go:201-233 | Behind it: at most one notice under way, none credited before it, and an order paid or credited awaits no payment. |
| `Notices.CreditedIffFoundItsOwn` | gateway/internal/gateway/payment_callback_handler.go:205-233 | In every run, overlapping notices included: a notice handled to the end was credited iff it was for a top-up worth a cent and its reads found the order paying and then paid. |
| `Notices.EachCreditIsANotice` | gateway/internal/gateway/payment_callback_handler.go:227-233 | In every run an order's credits in its user's ledger are as many as its credited notices, and other ledgers hold none. |
| `Notices.StaleWriteLosesCredit` | gateway/internal/gateway/payment_callback_handler.go:205-216 | A cancellation or failure that read the order before its payment, or a sweep that listed it as due, written between callback_ok and fulfill, ends the notice uncredited and the order closed, from any state. |
| `Notices.TwoNoticesPayTwice` | gateway/internal/gateway/payment_callback_handler.go:205-233 | Two notices of one order that both read it for callback_ok before either writes are both credited. |
| `Notices.DoubleDeliveryPaysTwice` | gateway/internal/gateway/payment_callback_handler.go:185-233 | So one notice delivered twice at once for a top-up being paid can be credited twice, from any state. |
| `Notices.AtOnceIsProcessed` | gateway/internal/gateway/payment_callback_handler.go:177-251 | Handled with nothing in between, a notice is the one step of module Callback. |
| `Topup.WorthWhatWasAsked` | gateway/internal/gateway/balance_handler.go:142-169 | However a top-up was converted, and however roughly, its order is worth the cents asked for. |
| `Topup.PaidAsAsked` | gateway/internal/gateway/balance_handler.go:142-169 | A notice for exactly the settled amount, whatever the state, adds the cents asked for to the user's balance and completes the order. |
| `Topup.CreditedIffWholeCents` | gateway/internal/billing/payment/ldc.go:73-81 | Asked of the gateway to two decimals and notified so, a top-up of any cents adds exactly those to the balance iff its settled amount is a whole, nonzero number of cents; otherwise wallet and order are as before the notice. |
| `Topup.UnconvertedIsCredited` | gateway/internal/gateway/balance_handler.go:164-192 | Without conversion it always does. |
| `Topup.ThirdOfAUnitIsLost` | gateway/internal/gateway/payment_callback_handler.go:194-199 | At a rate of three, one yuan settles at a third of a unit and its notice is refused, for every division within 0.0001. |
| `Topup.Fixed2KeepsIff` | gateway/internal/billing/payment/ldc.go:81 | Rounding to two decimals keeps an amount iff it is a whole number of cents. |
| `Topup.Fixed2Is` | gateway/internal/billing/payment/ldc.go:81 | Rounding gives the nearest whole number of cents, half a cent going away from zero. |
| `Pool.WeightIs` | gateway/internal/pool/pool.go:121-126 | A weight times the failures and one is the health, or a hundredth when there is none. |
| `Pool.DrawsAreFair` | gateway/internal/pool/pool.go:121-146 | The draws that fall to any two credentials of positive health are as their healths over their failures and one. |
| `Pool.PickWeighted` | gateway/internal/pool/pool.go:133-146 | For every nonempty pool and draw in [0, 1) the loop returns the credential on whose interval of cumulative weights the scaled draw falls. |
| `Pool.FallsToOne` | gateway/internal/pool/pool.go:137-146 | The intervals do not overlap: a draw falls to one credential only. |
| `Pool.ShareOfDraws` | gateway/internal/pool/pool.go:132-146 | Credential k is chosen exactly on an interval of draws whose length is its positive share of the total weight. |
| `Pool.ReleaseChanges` | gateway/internal/pool/pool.go:188-207 | Which fields each result changes, how, and that it changes no other. |
| `Pool.FailCountCounts` | gateway/internal/pool/pool.go:189-207 | Without an OK, reactivation or refresh in between, the fail count is the errors seen modulo five. |
| `Pool.CooldownExactlyOnFifth` | gateway/internal/pool/pool.go:200-206 | A network error starts the one-minute cooldown iff it brings the count to a multiple of five. |
| `Pool.FiveErrorsCoolDown` | gateway/internal/pool/pool.go:200-206 | Any five network errors, less those already counted, without an OK, reactivation or refresh in between set a cooldown on the way, whatever the count began with. |
| `PoolService.MemRepo.Add` | gateway/internal/pool/memrepo.go:23-31 | Adds under a new id, refuses a used one. |
| `PoolService.MemRepo.Update` | gateway/internal/pool/memrepo.go:53-61 | Replaces a stored credential, refuses an unknown one. |
| `PoolService.MemRepo.List` | gateway/internal/pool/memrepo.go:66-82 | Lists exactly the credentials of the provider (any for an empty name) and capability (any for none asked or none named), each once. |
| `PoolService.Service.Weigh` | gateway/internal/pool/pool.go:113-127 | The filter loop keeps exactly the active credentials out of cooldown, each once, at a weight that times its failures and one is its health, or a hundredth. |
| `PoolService.Service.Acquire` | gateway/internal/pool/pool.go:102-163 | Hands out an active credential out of cooldown, of the provider and capable, the one the draw falls to, iff there is one; the draws that fall to two credentials are as their healths over their failures and one; only its LastUsedAt changes. |
| `PoolService.Service.Release` | gateway/internal/pool/pool.go:180-209 | Applies the health rule of the result to one credential; an unknown id changes nothing. |
| `PoolService.Service.SetCredentialStatus` | gateway/internal/pool/pool.go:243-262 | Accepts active and disabled only; activation also clears cooldown and failures. |
| `PoolService.Service.DisableCredential` | gateway/internal/pool/pool.go:271-283 | Disables one credential and keeps its history. |
| `PoolService.Service.BeginRefresh` | gateway/internal/pool/pool.go:378-392 | Phase 1 is the Begin step: refuses a credential under refresh, else marks it and remembers its status. |
| `PoolService.Service.FinishRefresh` | gateway/internal/pool/pool.go:397-415 | Phase 3 is the Finish step: restores the remembered status on failure, starts afresh on success; a credential removed meanwhile stays removed. |
| `AcquireOverlap.MarkKeepsIff` | gateway/internal/pool/pool.go:149-152 | A copy marked as used, however stale, keeps the exclusion of refreshes iff its credential is not under refresh. |
| `AcquireOverlap.MarkKeepsStatusIff` | gateway/internal/pool/pool.go:149-152 | It keeps the status, a ban included, iff that is still the one it read. |
| `AcquireOverlap.MarkForgets` | gateway/internal/pool/pool.go:102-152 | Everything that happened to the credential between its pick and its mark is lost. |
| `AcquireOverlap.ExclusiveInEveryRun` | gateway/internal/pool/pool.go:102-152 | With picks and marks apart, refreshes still exclude one another in every run without another status writer or a mark during a refresh. |
| `AcquireOverlap.StaleMarkBreaksExclusion` | gateway/internal/pool/pool.go:102-152 | A credential picked before a refresh and marked during it lets a second refresh begin, from any state. |
| `AcquireOverlap.StaleMarkLiftsBan` | gateway/internal/pool/pool.go:102-152 | One picked before a ban and marked after it is active again, from any state. |
| `AcquireOverlap.AtOnceIsAcquire` | gateway/internal/pool/pool.go:102-152 | Picked and marked at once, a copy is the acquisition of one step. |
| `PoolRefresh.ExclusiveInEveryRun` | gateway/internal/pool/pool.go:375-415 | In every interleaving without another writer of that credential's status, the status is refreshing exactly while one caller is in phase 2. |
| `PoolRefresh.SettingChanges` | gateway/internal/pool/pool.go:253-257 | A setting puts the status; activation also clears cooldown and failures, disabling keeps them; nothing else moves. |
| `PoolRefresh.RefreshIsExclusive` | gateway/internal/pool/pool.go:375-415 | Meanwhile no other caller is in phase 2, none can begin, and no Acquire gets the credential. |
| `PoolRefresh.StatusWriteKeepsIff` | gateway/internal/pool/pool.go:198-262 | A status written by anyone else, an accepted setting or an AuthFailed release, keeps this iff nobody is in phase 2 at that moment. |
| `PoolRefresh.ReactivationBreaksExclusion` | gateway/internal/pool/pool.go:254-257 | Reactivating during a refresh lets a second one begin: a concrete run. |
| `PoolRefresh.OnlyReleasesDuring` | gateway/internal/pool/pool.go:394-400 | During phase 2 only releases change the credential. |
| `PoolRefresh.FailedRefreshLeavesNoTrace` | gateway/internal/pool/pool.go:401-405 | A failed refresh leaves the credential as if only the releases in between had happened, to its original status. |
| `PoolRefresh.SucceededRefreshStartsAfresh` | gateway/internal/pool/pool.go:406-411 | A successful one wins over them: new payload, active, full health, no failures, no cooldown. |
| `PoolRefresh.BanDuringRefreshIsLost` | gateway/internal/pool/pool.go:198-199 | A ban earned during phase 2 is overwritten either way. |
| `PoolRefresh.BanSurvivesFinishIff` | gateway/internal/pool/pool.go:397-411 | A finishing refresh leaves a ban in place iff it failed and had begun on a banned credential. |
| `PoolRefresh.BanSurvivesStepIff` | gateway/internal/pool/pool.go:180-283 | With nobody in phase 2 a step leaves a ban in place iff it is neither a setting of that status nor the begin of a refresh of it. |
| `PoolRefresh.BanLasts` | gateway/internal/pool/pool.go:198-199 | So a ban lasts through every run without such steps. |
| `Leases.EveryRun` | gateway/internal/gateway/lease_registry.go:61-111 | Over every interleaving of puts, takes, sweeps and delayed releases in which no id is issued again after leaving the registry: the issued leases split into live, taken and expired, with one release owed or applied for each that left, for its credential, a network error if it expired. |
| `Leases.SweepKeepsIff` | gateway/internal/gateway/lease_registry.go:97-101 | A lease outlives a sweep iff its time is not past at it. |
| `Leases.SweepOwes` | gateway/internal/gateway/lease_registry.go:99-107 | A lease swept owes its credential a network error. |
| `Leases.OnlyLateLeasesExpire` | gateway/internal/gateway/lease_registry.go:94-102 | Over every run each expired lease was put with a time that a later sweep, before any other put of it, found past. |
| `Leases.AtMostOneRelease` | gateway/internal/gateway/lease_registry.go:70-111 | Each lease changes credential health at most once, and not at all while it is live. |
| `Leases.NoneIsForgotten` | gateway/internal/gateway/lease_registry.go:70-111 | Each lease that left is owed a release or has had it. |
| `Leases.ExactlyOneWhenSettled` | gateway/internal/gateway/lease_registry.go:70-111 | Once nothing is owed, each lease that left has released exactly once. |
| `Leases.PutKeepsIff` | gateway/internal/gateway/lease_registry.go:61-67 | Issuing a lease keeps all of that iff its id is not one that has left the registry; a live one may be issued anew. |
| `Leases.EachIssueReleases` | gateway/internal/gateway/lease_registry.go:61-111 | In any state, a lease issued, taken and released adds one release of its id. |
| `Leases.ReusedLeaseReleasesTwice` | gateway/internal/gateway/lease_registry.go:64 | So an id issued again after it was returned releases twice: a concrete run. |
| `Leases.MemLeaseRegistry.Put` | gateway/internal/gateway/lease_registry.go:61-67 | The registry after the put is the state machine's. |
| `Leases.MemLeaseRegistry.Take` | gateway/internal/gateway/lease_registry.go:70-82 | Finds and removes in one step, returning the credential iff the lease was live. |
| `Leases.MemLeaseRegistry.Sweep` | gateway/internal/gateway/lease_registry.go:94-107 | Keeps exactly the leases whose time is not past and lists one release for each of the others. |
| `LeaseHealth.CredentialIsItsHistory` | gateway/internal/gateway/lease_registry.go:70-111 | In every interleaving of the registry and the releases it owes, a pool credential is what it was at the start changed by its own releases and acquisitions. |
| `LeaseHealth.RegistryIsLeases` | gateway/internal/gateway/lease_registry.go:61-111 | The registry's part of such a run is a run of module Leases. |
| `LeaseHealth.ExpiredLeasesCount` | gateway/internal/gateway/lease_registry.go:94-107 | With no id issued again, once nothing is owed each expired lease has counted against its credential as a network error. |
| `LeaseHealth.FiveExpiredLeasesCoolDown` | gateway/internal/pool/pool.go:200-206 | Five expired leases of a credential, less the errors counted before, with no OK in between, have set its cooldown on the way. |
| `Music.Service.TryOnce` | gateway/internal/music/service.go:58-73 | One turn: an eligible credential is taken and released once, or nothing changes because none was eligible. |
| `Music.Service.CallWithLease` | gateway/internal/music/service.go:51-84 | Every lease is released once, before the next is taken; it stops at the first success or data error, when the pool is exhausted, or after maxTry tries; the outcome answers to what the provider said. |
| `Music.ReplayIsPerCredential` | gateway/internal/music/service.go:57-79 | Each stored credential sees exactly its own uses. |
| `Music.FailedCallCountsFailures` | gateway/internal/music/service.go:72-83 | A call that failed on all tries leaves each credential's fail count raised by the tries it served, modulo five. |
| `Signing.CanonicalIsUnique` | gateway/internal/billing/payment/sign.go:20-39 | The canonical string is determined by the map alone, whatever order its keys are visited in. |
| `Signing.SameStringIff` | gateway/internal/billing/payment/sign.go:30-39 | Where names hold no separator and values no ampersand, two maps have one string iff the same fields of theirs are signed. |
| `Signing.AmpersandInValueCollides` | gateway/internal/billing/payment/sign.go:35-37 | One field whose value goes on as a second pair would has the string of the two fields. |
| `Readings.TwoFieldsMerge` | gateway/internal/billing/payment/sign.go:30-38 | Every map that signs two or more fields, whatever they hold, shares its string with a map that signs fewer. |
| `Readings.SharedIff` | gateway/internal/billing/payment/sign.go:30-38 | A map with clean names shares its string with another such map iff it signs two fields or more, or the value of its one field can be cut into a value and a later pair. |
| `Signing.AscendingIsUnique` | gateway/internal/billing/payment/sign.go:28 | A set of keys has only one ascending listing. |
| `Signing.LessIsByteOrder` | gateway/internal/billing/payment/sign.go:28 | The order is that of the bytes: one name is before another iff where they first differ it has the smaller byte, or ends. |
| `Signing.CanonicalOfTwo` | gateway/internal/billing/payment/sign.go:30-38 | Two one-letter fields, whatever their order in the map, give a=1&b=2 and the suffix. |
| `Signing.NamesSpell` | gateway/internal/billing/payment/sign.go:23-57 | The excluded names and the separators are the bytes of sign, sign_type, hash, = and &. |
| `Signing.SuffixSpells` | gateway/internal/billing/payment/sign.go:73 | The suffix of hupijiao is the bytes of &appsecret=. |
| `Signing.RelevantUnchangedIff` | gateway/internal/billing/payment/sign.go:22-25 | Setting a field leaves the signed fields alone iff it is excluded, or empty before and after, or unchanged. |
| `Signing.CanonicalIgnores` | gateway/internal/billing/payment/sign.go:22-25 | Adding excluded or empty fields does not change the string. |
| `Signing.SortStrings` | gateway/internal/billing/payment/sign.go:28 | The ascending permutation of distinct keys: of any two, the earlier has the smaller byte where they first differ, or ends there. |
| `Signing.CollectKeys` | gateway/internal/billing/payment/sign.go:21-27 | Exactly the names of the fields to sign, each once, for any visiting order. |
| `Signing.JoinPairs` | gateway/internal/billing/payment/sign.go:30-38 | k=v pairs joined by & in the given order. |
| `Signing.Canonical` | gateway/internal/billing/payment/sign.go:20-39 | The three steps together produce the canonical string of the map. |
| `Signing.SignMD5Yipay` | gateway/internal/billing/payment/sign.go:20-43 | The digest of the string without sign and sign_type, key appended. |
| `Signing.SignMD5Hupijiao` | gateway/internal/billing/payment/sign.go:54-78 | The digest of the string without hash, ending in &appsecret= and the key. |
| `Signing.LdcCanonical` | gateway/internal/billing/payment/sign_ed25519.go:25-46 | The string without sign, secret appended; sign_type stays. |
| `Signing.VerifyMD5` | gateway/internal/billing/payment/sign.go:81-99 | True iff the two have one length and at each place the same byte or one ASCII letter in its two cases. |
| `Signing.VerifyYipay` | gateway/internal/billing/payment/yipay.go:92-99 | Passes iff a nonempty sign is present and equals, up to case, the signature of the received fields. |
| `Signing.SignatureIsUnique` | gateway/internal/billing/payment/sign.go:20-43 | A map and a key have one signature. |
| `Signing.SignedFieldsVerify` | gateway/internal/billing/payment/yipay.go:66-97 | Any fields signed as in CreatePayment verify after sign and sign_type are inserted. |
| `Ecb.Pad` | gateway/internal/provider/netease/crypto.go:44-47 | Padding is never empty and adds at most a block. |
| `Ecb.PadFillsBlocks` | gateway/internal/provider/netease/crypto.go:44-47 | Padded data fills the next whole number of blocks, of any size. |
| `Ecb.UnpadUndoesPadIff` | gateway/internal/provider/netease/crypto.go:44-58 | unpad(pad(x)) = x iff the padding fits an AES block, so always for block sizes up to 16. |
| `Ecb.UnpadDrops` | gateway/internal/provider/netease/crypto.go:49-58 | Unpadding drops as many bytes as the last one says when that is at most sixteen and at most all, else none. |
| `Ecb.PadUndoesUnpadIff` | gateway/internal/provider/netease/crypto.go:44-58 | pad(unpad(x)) = x iff x is properly padded whole blocks. |
| `Ecb.EachBlockUndone` | gateway/internal/provider/netease/crypto.go:79-96 | Block by block, a map's inverse undoes it. |
| `Ecb.DecryptUndoesEncrypt` | gateway/internal/provider/netease/crypto.go:72-98 | For any block permutation and its inverse, decryption undoes encryption of plaintexts of every length. |
| `Ecb.EncryptUndoesDecryptIff` | gateway/internal/provider/netease/crypto.go:72-98 | Encrypting a decryption gives the ciphertext back iff it was properly padded. |
| `Ecb.CryptBlocks` | gateway/internal/provider/netease/crypto.go:78-81 | The loop writes each block's image into its own place of a fresh buffer. |
| `Ecb.AesEncryptECB` | gateway/internal/provider/netease/crypto.go:72-83 | The ciphertext, or an error iff the key length is not 16, 24 or 32. |
| `Ecb.AesDecryptECB` | gateway/internal/provider/netease/crypto.go:85-98 | The plaintext, or which error. |
| `Currency.NormalizeIsIdempotent` | gateway/internal/billing/currency.go:54-60 | A normalised code is three capital letters and its own normal form. |
| `Currency.NormalizesTo` | gateway/internal/billing/currency.go:54-60 | Any three letters, in any case and with any blanks around, are the code of their capitals. |
| `Currency.NormalizedFrom` | gateway/internal/billing/currency.go:54-60 | And nothing else is a code. |
| `Currency.FaultIs` | gateway/internal/billing/currency.go:73-89 | Which fault a row has: no code, the base's, taken before, or no positive rate, the first that applies. |
| `Currency.Validate` | gateway/internal/billing/currency.go:63-93 | Accepts exactly the inputs with no faulty row, storing every row's rate, and otherwise reports the first fault in the order checked. |
| `Currency.ValidateRows` | gateway/internal/billing/currency.go:72-92 | The same of its loop. |
| `Currency.CheckRow` | gateway/internal/billing/currency.go:73-89 | Which fault one row has, given the rows before it. |
| `Currency.ConvertSucceedsIff` | gateway/internal/billing/currency.go:100-143 | Succeeds iff both are the same valid code, with the amount as it was, or both are known; an invalid code is the error iff one is. |
| `Currency.ConvertWithin` | gateway/internal/billing/currency.go:118-142 | With each division within e of the true quotient, every known conversion is within e of amount * rateFrom / rateTo. |
| `Currency.PathIndependent` | gateway/internal/billing/currency.go:118-142 | In exact arithmetic a conversion by way of any known currency gives the direct one. |
| `Currency.RouteIndependent` | gateway/internal/billing/currency.go:118-142 | So does any route of known currencies, of any length. |
| `Currency.RoundTripWithin` | gateway/internal/billing/currency.go:118-142 | A to B to A differs from the start by at most e * (rateB / rateA + 1). |
| `Currency.ApplyCurrency` | gateway/internal/billing/currency.go:252-281 | The five money fields afterwards, as a function of those before; on error amount and currency are untouched and the snapshot cleared; on success the snapshot reproduces the amount within abs(original) * e, for amount zero too when the configuration is sound. |
| `Currency.SnapshotReproduces` | gateway/internal/billing/currency.go:275-279 | The stored rate times the original amount is within abs(original) * e of the amount. |
| `Currency.AppliedReproduces` | gateway/internal/billing/currency.go:252-281 | For every input the snapshot of a successful conversion reproduces the amount. |
| `Users.Int64FitsTheBuffer` | gateway/internal/auth/service.go:1732-1738 | Thirteen base-36 digits hold every positive int64, so the 16-byte buffer suffices. |
| `Users.Base36Injective` | gateway/internal/auth/service.go:1734-1738 | Different numbers have different digits. |
| `Users.Base36RoundTrip` | gateway/internal/auth/service.go:1734-1738 | The digits of a number, read back as base 36, are it; they are of the table and do not begin with 0. |
| `Users.DigitIs` | gateway/internal/auth/service.go:1728 | Digit d is entry d of the table. |
| `Users.IdsCollideIff` | gateway/internal/auth/service.go:1726-1740 | Two numbers share an id iff they are equal or both negative. |
| `Users.FormatID` | gateway/internal/auth/service.go:1726-1740 | For every int64 the loop yields that id and stays within its buffer. |
| `Users.CreateKeepsPairedIff` | gateway/internal/auth/service.go:1599-1613 | A creation keeps the indexes paired iff the email is taken or the id is free. |
| `Users.UpdateKeepsPairedIff` | gateway/internal/auth/service.go:1616-1626 | An update keeps them paired iff the id is unknown or the email is the stored one. |
| `Users.EveryRunIsPaired` | gateway/internal/auth/service.go:1599-1626 | Over every run of creations with empty id and updates that keep the email, the two indexes hold the same records one to one. |
| `Users.IdsAreDistinct` | gateway/internal/auth/service.go:1599-1613 | In such a run no two emails share an id. |
| `Users.MemUserRepo.Create` | gateway/internal/auth/service.go:1599-1613 | Both indexes and the counter afterwards; a taken email changes nothing. |
| `Users.MemUserRepo.Update` | gateway/internal/auth/service.go:1616-1626 | Both indexes afterwards; an unknown id changes nothing. |

## Left out

- PostgreSQL repositories, Redis clients and connection errors, HTTP and gRPC handlers, configuration, OAuth, sessions, TOTP, the provider clients and the web front end: I/O and plumbing around the core modelled here.
- MD5, AES and Ed25519 themselves: a digest is any function, a cipher any block permutation with its inverse.
- Float rounding: health scores, weights, ratios and averages are exact reals. With floats the pick's loop could in principle pass every credential.
- int64 overflow of balances, sums, counts and ids, and of nextID in the user store; decimals are exact except for division.
- Timestamps of records, the currency label of a balance, and the parts of descriptions that format amounts and rates.
- Aliasing of records: repositories store values here. The original keeps the caller's order pointer on creation, shares one user record between both indexes, and `pkcs7Pad` may append into its caller's slice.
- The atomics of the ring: in UsageRing each call to the handler is one step; RingRace takes an advance apart, one at a time, for one counter. A latency of 2^63 - 1 counts as no minimum.
- Handlers without a wallet (nil balance): the wallet is always present.
- The subscription branch of a paid order, which moves API keys to the new plan.
- The signature and parsing of a notice precede the model. Callback and Overlap take a notice as one step; Notices takes it apart.
- Callback.StatusClimbs: takes each sweep and transition as one step; with reads and writes apart it holds as far as Overlap.HarmlessWritesEvolve says.
- Overlap.AtMostOneCredit: takes a notice as one step; Notices takes it apart.
- Overlap.EveryRunPaysOnce: takes a notice as one step; Notices takes it apart.
- Orders.Service.SweepExpired: states what a sweep does with nothing in between; Overlap takes it apart.
- Order repository and billing service are one class.
- Orders.Service.CreateOrder: takes lookup and creation as one step and so never refuses; Creation takes them apart.
- createTopup's bounds on the amount and its idempotency key, and all of the payment request but its amount. The expiry time the PostgreSQL repository fills in: an order expires here only if created with a time.
- Acquire is one step in PoolService and PoolRefresh; AcquireOverlap takes its unlocked list and update apart. No step of theirs removes or adds a credential.
- Lookups of users, and removal of a credential.
- PoolService.Service.Acquire: requires what Weigh does.
- PoolService.Service.Weigh: requires every stored credential under its own id with a nonnegative fail count, which every method modelled here keeps; Add itself takes any credential.
- Listing and summary operations that only filter: AddCredential's defaults, ListCredentials, HealthSummary, GetUsage, ListEvents, ListCharges, ListByUser, ListUsers.
- Quota.EveryRun: takes both windows from one clock reading; Quota.MonthWithinDaysAndDrift takes any.
- The strings of the window keys. QuotaExpiry takes current windows and seconds from 0 on only, and a calendar by its month lengths, of at most 31 days.
- Failure of the compensating credit: once AddCharge has failed the refund may come late or never, but its credit does not fail.
- A lease registry without an expiry callback, and the Redis registry.
- Signing.SortStrings: the library sort is an insertion sort here; the three signing functions share one filter, sort and join.
- Currency.Validate: rates arrive parsed or marked unparsable; trimming and upper-casing know ASCII only.
- Users.MemUserRepo.Create: requires fewer than 2^63 - 1 users created, because the counter's overflow is not modelled.
- Music.Service.CallWithLease: registry lookup is membership in a set of names, and nobody else uses the pool during the call.
