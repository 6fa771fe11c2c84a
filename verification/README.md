# Verification model of the revenue platform

This project models the stateful core of the revenue-distribution backend and proves what its operations
promise, over all inputs, all runs and all patterns of failure.  `dafny verify dfyconfig.toml` checks it.

| Part | Modules | Models |
|---|---|---|
| Money path | `Money`, `Proration`, `RoundingExtremes`, `Distribution`, `DistributionOutcomes`, `DistributionService`, `Balances`, `Reports`, `Reconciliation`, `EndToEnd`, `BalancedWindows` | proration and rounding of revenue, the persistence loop with its retries, the balances that feed it, the reports that trigger it, and the reconciliation that checks it afterwards |
| Refresh tokens | `Sessions`, `SessionRuns`, `SessionSteps`, `SessionService` | token rotation, reuse detection and recursive revocation over the sessions table |
| In-process stores | `RateLimit`, `Idempotency`, `IdempotencyService`, `ExpiringSessions`, `SessionHistory`, `SessionStoreService` | the fixed-window limiter, idempotency keys, sessions with a time to live |
| Milestones | `Milestones`, `MilestoneRuns`, `MilestoneOverlap`, `MilestoneVaults`, `MilestoneAnswers`, `MilestoneService` | the validation handler as interleaved steps that may fail at any await |
| Tokens | `Base64Url`, `Jwt` | base64url without padding, and signing and verifying compact JWTs |

`Wrappers` holds the option, result, fault and number types the others share, and `Filters` what filtering does to lists.

## How the model is built

- **Two layers.** Code that changes state is a class whose methods have the source's fields, loops and branches; each
  method's postcondition equates its result and the whole new state with a function.  Whole runs are sequences of those functions, and the
  theorems about runs are lemmas about them.
- **Answers told from the outside.** What each of these functions answers is also stated without it, as a condition on the
  arguments and the history that is spelled out in the statement, in both directions.
- **Money.** Decimal amounts are exact rationals and two-decimal strings are whole cents.  `Math.round` is
  floor(x + 1/2) (section 21.3.2.28 of ECMA-262) and `toFixed(2)` is the nearest value, the larger magnitude on a tie
  (section 21.1.3.3).
- **Failures.** Every call that leaves the process is numbered, and a schedule says whether it works, fails without effect,
  or takes effect and fails all the same.  Theorems quantify over all schedules.
- **Time.** The clock is a parameter of each call, in milliseconds.
- **What comes from outside** is a parameter: random ids (fresh by assumption), HMAC, JSON, the verification of a token, the
  list of balances, whether an offering exists and who owns it.

## What the code does, where that differs from what is said of it

- **The rounding adjustment is not "up to 0.01 units"** (docs/distribution-engine-retry-strategy.md:38).  For n holders that is
  so for all balances and revenues exactly if n <= 3 (`Proration.DocumentedAdjustment`).  The bounds that hold are in
  `Proration.RoundingFairness`, and `RoundingExtremes` proves them exact.  The absorber can even be paid a negative amount.  For n >= 4
  holders a largest share of (n-2)/2 cents is exactly what rules that out for any revenue, one above (n-3)/2 cents for revenue in whole cents, and
  (n-1)*floor((n-2)/2) cents of revenue do so whatever the balances.
- **Payouts match the revenue exactly, as the same line says, only for whole cents** (`Proration.Conservation`).
- **The insert for an explicit id drops the parent.**  `RefreshTokenRepository` promises a session linked to its parent
  (src/auth/refresh/types.ts:17-28).  `SessionRepository.createSession` links it in one branch, and does not in the branch for an explicit
  id (src/db/repositories/sessionRepository.ts:33-47), which is the one `refresh` takes.  The model has both (`links`): all guarantees of rotation are for
  the linked one, and "accepted at most once" holds exactly for it (`SessionRuns.AcceptedOnceExactlyWhenLinked`).
- **Logout of a session takes its descendants along** and makes its parent refreshable again: `parent_id` is declared
  `ON DELETE CASCADE` (src/db/migrations/011_update_sessions_for_rotation.sql:4).  A token works a second time only after such a logout
  (`SessionRuns.AcceptedTwiceNeedsLogout`, `SessionRuns.ReopenedExactlyByChildLogout`).
- **Reports are kept apart by a strict test and selected by a closed one**, so a window also selects the reports that merely touch
  its ends: at most two (`Reports.WindowSelectsAtMostTwoMore`).  Runs are dated at the end of the period, so a report that begins before or at the
  end of the window and goes on after it counts as reported and not as paid: among back-to-back periods every window but the last is
  off by the report that follows it, in whole cents by exactly its amount (`BalancedWindows.EveryWindowIsOff`).
- **The allocation check can never fire**: a positive amount divided by any number of investors, zero included, is not at most zero
  (`Reconciliation.AllocationCheckNeverFires`).
- **"Milestone already validated" does not stop overlapping requests**: the handler awaits between the test and the mark.  Any two requests that
  pass every check for one milestone can announce it twice, and a caller who lets no two such requests through prevents it
  (`MilestoneOverlap.AnnouncedOnceExactlyWhenNotShared`).
- **Milestone keys join two ids with a colon.**  Two vaults can share a key exactly if one id begins with the other and a colon
  (`Milestones.KeysCollideExactly`).  The handler asks for an assignment to the vault in the request and marks the milestone with the joined key, so
  then, and only then, a verifier of one vault can validate another vault's milestone (`MilestoneVaults.OwnVerifiersOnlyExactlyWhenApart`).
- **A signed body whose `exp` is missing, not a number or infinite never expires**: the comparison is false (`Jwt.AcceptedForeverExactly`).

## Model

| member | source | states |
|---|---|---|
| `Proration.Conservation` | src/services/distributionEngine.ts:94-132 | for every balance list with a positive total and every revenue the payouts add up exactly to the run's stored total, which is the revenue itself exactly if that is a whole number of cents |
| `Proration.RoundingFairness` | src/services/distributionEngine.ts:100-122 | every payout but one is within half a cent of the exact share; the exception is the first index of the largest share, which ends less than n/2 cents below and, for two holders and more, less than n/2 above; for whole-cent revenue at most (n-1)/2 below and, for two holders and more, less above |
| `Proration.RawSharesSum` | src/services/distributionEngine.ts:100-104 | the exact shares add up to the revenue |
| `Proration.DriftOfOthers` | src/services/distributionEngine.ts:106-113 | with one share set aside, rounding the other n-1 moves their sum by at most (n-1)/2 cents |
| `Proration.NonNegativeAboveThreshold` | src/services/distributionEngine.ts:115-122 | with non-negative balances no payout is negative if the largest share is at least (n-2)/2 cents, nor, for whole-cent revenue, if it is above (n-3)/2 cents |
| `Proration.NonNegativeForRevenue` | src/services/distributionEngine.ts:100-122 | nor if the rounded revenue reaches (n-1)*floor((n-2)/2) cents, whatever the balances, and whether or not the revenue is whole cents |
| `Proration.PayoutsMonotone` | src/services/distributionEngine.ts:101-110 | among holders other than the absorber, a larger balance never receives less |
| `Proration.PayoutsExactly` | src/services/distributionEngine.ts:94-122 | the payouts are the only amounts that add up to the rounded revenue and are, but for the first holder of a largest balance, each the part of the revenue that the balance is of the total, to the nearest cent, the larger on a tie |
| `RoundingExtremes.ExtremeOutcome` | src/services/distributionEngine.ts:112-122 | for every n, every c and every fraction of a cent below one half, a distribution whose absorber ends (n-1)/2 cents and that fraction short, paid c + 1 - floor(n/2) cents; for even n and no fraction its holders are equal |
| `RoundingExtremes.WholeCentsBoundExact` | src/services/distributionEngine.ts:112-122 | for every number of holders, a bound on the absorber's deviation holds for all whole-cent revenue exactly if it is at least (n-1)/2 cents |
| `RoundingExtremes.AnyRevenueBoundExact` | src/services/distributionEngine.ts:112-122 | and for all revenue exactly if it is at least n/2 cents |
| `RoundingExtremes.ExtremeIsNegative` | src/services/distributionEngine.ts:112-122 | for every n >= 4 and every largest share from (n-3)/2 up to (n-2)/2 cents, a distribution one cent short of safe revenue that pays -1 cent |
| `RoundingExtremes.WholeCentsShareThresholdExact` | src/services/distributionEngine.ts:112-122 | for n >= 4 and whole-cent revenue, a largest share above a bound rules out negative payouts for all inputs exactly if the bound is at least (n-3)/2 cents |
| `RoundingExtremes.AnyRevenueShareThresholdExact` | src/services/distributionEngine.ts:112-122 | for n >= 4 and any revenue, a largest share of at least a bound does so exactly if the bound is at least (n-2)/2 cents |
| `RoundingExtremes.RevenueThresholdExact` | src/services/distributionEngine.ts:112-122 | for every n and any revenue, a least rounded revenue rules out negative payouts for all inputs exactly if it is at least (n-1)*floor((n-2)/2) cents |
| `Proration.DocumentedAdjustment` | docs/distribution-engine-retry-strategy.md:38 | the documented bound of 0.01 on the adjustment holds for n holders exactly if n <= 3 |
| `Distribution.RetryInserts` | src/services/distributionEngine.ts:182-202 | a retried insert leaves at most one row for each call and at least one on success; exactly one on success and none on failure exactly if none of its calls took effect and failed nevertheless |
| `Distribution.PersistShape` | src/services/distributionEngine.ts:139-158 | under arbitrary failures the rows added are the items in order, up to the one that failed for good, each between one and `maxRetries` times (the failed one possibly not at all); none is repeated exactly if no call took effect and failed nevertheless |
| `Distribution.PersistExactly` | src/services/distributionEngine.ts:139-158 | the rows added are exactly the items before the one that failed for good, once each, in order, exactly if no call took effect and failed nevertheless |
| `Distribution.PersistCalls` | src/services/distributionEngine.ts:182-202 | each stored item costs between one and `maxRetries` calls, one that fails for good exactly `maxRetries`, later ones none, and there are no other calls |
| `Distribution.DistributeWithoutSideEffects` | src/services/distributionEngine.ts:90-160 | if none of its calls takes effect and fails nevertheless: success leaves one new run, its total the sum of its payouts and the rounded revenue, and the computed payouts under it, once each, in order; a failed payout leaves the run and a prefix of the payouts; any other failure leaves the tables alone |
| `Distribution.StoredOnceExactly` | src/services/distributionEngine.ts:90-160 | a distribution that succeeds stores one run and each payout once exactly if none of its calls took effect and failed nevertheless |
| `Distribution.DistributeUnderFaults` | src/services/distributionEngine.ts:90-160 | under arbitrary failures no payout is ever without its run, and at most `maxRetries` run rows are added, all for the rounded revenue; the payouts added are the computed ones, all under the last of them, in order, between one and `maxRetries` rows each; a payout that fails for good ends them with at most `maxRetries` rows of its own; no other failure adds any |
| `Distribution.RetryExactly` | src/services/distributionEngine.ts:182-202 | a retried operation ends with the first call that works, or fails after all its attempts |
| `DistributionOutcomes.FetchedArePaid` | src/services/distributionEngine.ts:66-160 | a distribution that succeeds pays the balances returned by its first call that worked: one payout for each row, in order, to that row's investor, of the part of the revenue due to its balance; the first of the largest balances makes the sum the rounded revenue |
| `DistributionOutcomes.DistributeOutcome` | src/services/distributionEngine.ts:66-92 | each early error exactly when it is due, in the order of the checks, and without effect; past them the distribution goes on with what the first fetch that worked returned, dated at the end of the period |
| `DistributionOutcomes.RowsOutcome` | src/services/distributionEngine.ts:90-160 | from the balances on, success and each error exactly when it is due, told from what happens to the calls; a failed payout names the first investor none of whose calls worked |
| `DistributionOutcomes.StoredRowByRow` | src/services/distributionEngine.ts:124-158 | what a success stores if no call takes effect and fails nevertheless, row by row: one run, and one payout under it for each balance, in order |
| `DistributionOutcomes.AddedArePayouts` | src/services/distributionEngine.ts:124-158 | whatever fails, nothing stored is lost, and a payout that is added is the share of one of the balances, under the last run |
| `DistributionService.DistributionRepository.Call` | src/db/repositories/distributionRepository.ts:63-135 | a created run or payout is one appended row; a call that fails before taking effect appends nothing |
| `DistributionService.DistributionEngine.WithRetry` | src/services/distributionEngine.ts:182-202 | the loop makes calls until one succeeds, at most `maxRetries` of them (none if that is zero or less) |
| `DistributionService.DistributionEngine.AbsorbDifference` | src/services/distributionEngine.ts:112-122 | the in-place correction brings the sum to the rounded revenue by changing only the first largest share, also for a fractional difference and when the guard skips it |
| `DistributionService.DistributionEngine.LargestIndex` | src/services/distributionEngine.ts:117-120 | the scan finds the first index of a largest share |
| `DistributionService.DistributionEngine.Round` | src/services/distributionEngine.ts:100-122 | the array of rounded amounts ends as the payouts the theorems above are about |
| `DistributionService.DistributionEngine.PersistPayouts` | src/services/distributionEngine.ts:139-158 | payouts are persisted one after another, stopping at the first that fails for good |
| `DistributionService.DistributionEngine.Distribute` | src/services/distributionEngine.ts:66-92 | the checks and the retried fetch of balances, each failure with its own error |
| `DistributionService.DistributionEngine.DistributeRows` | src/services/distributionEngine.ts:90-160 | from the balances on: rejection of empty or non-positive balances, the run, then its payouts |
| `Balances.GetBalances` | src/services/balanceSnapshotService.ts:266-287 | the loop over the map lists investors in the order of their first counted investment, with their totals |
| `Balances.ProviderListsExactly` | src/services/balanceSnapshotService.ts:266-287 | the provider lists exactly the investors with a completed investment of a positive amount, in the order of the first of these, each with the sum of these |
| `Balances.AggregateIsHolding` | src/services/balanceSnapshotService.ts:269-278 | an investor is listed exactly if they have a completed positive investment, with the sum of their own |
| `Balances.AggregateConserves` | src/services/balanceSnapshotService.ts:269-285 | the listed balances add up to all completed positive investments |
| `Balances.OrderDoesNotMatter` | src/services/balanceSnapshotService.ts:269-278 | as a map, the result is the same for every order of the investments |
| `Balances.NormalizeKeepsAll` | src/services/balanceSnapshotService.ts:239-250 | normalization keeps exactly the entries with an id and a positive balance, and a list whole exactly if all are |
| `Balances.InvestorsPaidInProportion` | src/services/distributionEngine.ts:94-122 | over the balances made of any list of investments: exactly the investors with a holding are paid, each once, the rounded revenue in all, and each but the absorber, to within half a cent, the part of the revenue their holding is of everything invested |
| `Balances.ProviderOutputIsNormal` | src/services/balanceSnapshotService.ts:239-287 | what the provider returns survives normalization whole exactly if no counted investment has an empty investor id |
| `Reports.RevenueService.FindOverlappingReport` | src/db/repositories/revenueReportRepository.ts:130-156 | the query finds a strictly overlapping report of the offering exactly if there is one |
| `Reports.RevenueService.SubmitReport` | src/services/revenueService.ts:40-93 | the checks in order, each with its own rejection, then one appended row |
| `Reports.OverlapIsSharedInstant` | src/db/repositories/revenueReportRepository.ts:137-141 | for non-empty half-open periods the strict test asks whether some instant is shared |
| `Reports.ReachableTablesDisjoint` | src/services/revenueService.ts:61-87 | in every table that serialized submissions build, periods are non-empty and no instant is covered by two reports of one offering |
| `Reports.SubmitExactly` | src/services/revenueService.ts:41-87 | a submission is accepted exactly if the offering is known, the issuer is its owner, the amount is well-formed and positive, the period is not empty and none of its instants is taken; and each rejection is given exactly when those before it are not due and its own is |
| `Reports.SubmitStores` | src/services/revenueService.ts:79-92 | what is accepted is appended with the offering, issuer, amount and period submitted; a rejection leaves the table alone |
| `Reports.WindowSelectsAtMostTwoMore` | src/services/revenueReconciliationService.ts:404-412 | the closed test selects, besides the reports that share an instant with the window, at most one touching each end |
| `Reports.BackToBackAccepted` | src/services/revenueService.ts:61-87 | back-to-back periods of one offering are all accepted |
| `Reports.NeighboursAreSelected` | src/services/revenueReconciliationService.ts:89-93 | among any back-to-back periods, a window that is one of them selects exactly itself and its neighbours on both sides, where the strict test selects one report |
| `Reconciliation.RevenueReconciliationService.QuickBalanceCheck` | src/services/revenueReconciliationService.ts:175-199 | the difference is exact in cents, and the check says balanced exactly if it is at most one cent |
| `Reconciliation.RevenueReconciliationService.Reconcile` | src/services/revenueReconciliationService.ts:80-170 | the discrepancies are the specified findings, in order, and balanced means there are none |
| `Reconciliation.RevenueReconciliationService.CheckInvestorAllocations` | src/services/revenueReconciliationService.ts:322-359 | the loop over completed runs, with division by zero as in JavaScript |
| `Reconciliation.RevenueReconciliationService.CheckRoundingAdjustments` | src/services/revenueReconciliationService.ts:361-389 | the loop reports completed runs more than a tenth of a cent off whole cents |
| `Reconciliation.RevenueReconciliationService.CheckDistributionRunIntegrity` | src/services/revenueReconciliationService.ts:293-320 | failed runs are errors, processing runs warnings, others are not reported |
| `Reconciliation.AllocationCheckNeverFires` | src/services/revenueReconciliationService.ts:334-356 | whatever the runs and investments, the allocation check reports nothing |
| `Reconciliation.BalancedExactlyWhen` | src/services/revenueReconciliationService.ts:104-155 | balanced exactly if the totals agree within the tolerance, no run in the window failed or is processing, and, if asked, no completed run is off whole cents |
| `Reconciliation.MismatchExactlyWhenUnbalanced` | src/services/revenueReconciliationService.ts:269-291 | at the default tolerance a revenue mismatch is reported exactly if the quick check is unbalanced, and is critical exactly above one whole unit |
| `Reconciliation.StatusReportedExactly` | src/services/revenueReconciliationService.ts:113-116 | the runs reported for their status are exactly the failed ones, as errors, and the processing ones, as warnings |
| `Reconciliation.FindingsExactly` | src/services/revenueReconciliationService.ts:80-155 | the whole report, line by line and in order: the totals, if they differ by more than the tolerance asked for (a cent by default), critical above one unit; each failed or processing run; if asked, each completed run more than a tenth of a cent from every whole number of cents |
| `Reconciliation.PaidExactly` | src/services/revenueReconciliationService.ts:93-102 | what counts as paid is the sum of the completed runs of the offering dated in the window, its ends included |
| `Reconciliation.QuickFormAgrees` | src/services/revenueReconciliationService.ts:80-199 | for two-decimal totals in the window the optional checks add nothing: the full form is balanced exactly if the quick form is and no run in the window failed or is processing |
| `EndToEnd.OneReport` | src/services/distributionEngine.ts:66-161 | whatever the failures, a successful distribution whose run is then completed adds exactly the rounded amount to what a window counts if its period ends in the window, and nothing otherwise |
| `EndToEnd.EachReport` | src/services/distributionEngine.ts:66-161 | whatever is distributed and under any failures, a window is paid exactly the rounded amounts of the reports whose periods end in it |
| `EndToEnd.SelectedIsDueOrLate` | src/services/revenueReconciliationService.ts:404-412 | a report selected by the closed test either ends in the window or covers its last instant, never both |
| `EndToEnd.AtMostOneLate` | src/services/revenueReconciliationService.ts:404-412 | at most one report covers the last instant of a window |
| `EndToEnd.ReportedIsDueAndLate` | src/services/revenueReconciliationService.ts:414-418 | what a window counts as reported is what ends in it and what outlasts it |
| `EndToEnd.RoundedTotals` | src/services/revenueReconciliationService.ts:414-425 | the totals of n amounts and of their roundings, each to two decimals, differ by at most floor(n/2) cents |
| `EndToEnd.RoundedTotalsAttained` | src/services/revenueReconciliationService.ts:414-425 | for every n some amounts attain that bound |
| `EndToEnd.ReportedMatchesPaid` | src/services/revenueReconciliationService.ts:175-199 | for every disjoint table and window, if the reports due in the window were distributed once each, in any order, among others and under any failures, and nothing else is completed in it: reported less paid is the amount of the one report, if any, that covers the window's end, up to half a cent per report; up to floor(n/2) cents for the n due ones if that one is in whole cents or there is none; exactly in whole cents |
| `EndToEnd.EveryReportOnce` | src/services/revenueReconciliationService.ts:80-99 | to distribute every report of the table once, in any order, settles the window so |
| `EndToEnd.BalancedWhen` | src/services/revenueReconciliationService.ts:195-198 | the quick check is balanced if no report outlasts the window and at most three are due; only if what outlasts it is within rounding; and in whole cents exactly if that is at most one cent |
| `BalancedWindows.EveryWindowIsOff` | src/services/revenueReconciliationService.ts:175-199 | among any back-to-back periods with positive amounts, however they were distributed, the report that follows is the late one of every window that is one of them, and in whole cents the difference is its amount |
| `BalancedWindows.BackToBackSettles` | src/services/revenueReconciliationService.ts:175-199 | for all such periods and windows the table is reachable and there is a run that distributes every report once |
| `BalancedWindows.BalancedWhateverTheAmounts` | src/services/revenueReconciliationService.ts:195-198 | over all reachable tables, windows, orders, failures and amounts: windows with n reports due and m late ones (at most one ever is) are always balanced exactly if n <= 3 and m = 0 |
| `Sessions.UpIsOlder` | src/db/repositories/sessionRepository.ts:49-62 | a k-th ancestor is at least k insertions older, so there are no cycles |
| `Sessions.SameChain` | src/auth/refresh/refreshService.ts:40-45 | two sessions under one ancestor lie on one chain |
| `SessionRuns.StepKeepsForest` | src/auth/refresh/refreshService.ts:34-66 | login, refresh and logout keep the table an acyclic forest with at most one child each and revocation closed downwards |
| `SessionRuns.ReachableStates` | src/auth/refresh/refreshService.ts:17-69 | every reachable table is such a forest, and every token matches its session and its family's user |
| `SessionRuns.FamilyHasOneUser` | src/auth/refresh/refreshService.ts:26-66 | a session belongs to the same user as each of its ancestors |
| `SessionRuns.RevokeIdempotent` | src/db/repositories/sessionRepository.ts:111-125 | a second revocation, whenever it comes, changes nothing, timestamps included |
| `SessionRuns.RevokedFamilyStays` | src/auth/refresh/refreshService.ts:34-38 | for a session that is already revoked the revocation has nothing left to do |
| `SessionRuns.AcceptedTwiceNeedsLogout` | src/auth/refresh/refreshService.ts:40-66 | between two acceptances of one session's token there is a logout of the very session the first one created |
| `SessionRuns.ChildLogoutReopens` | src/db/repositories/sessionRepository.ts:131-133 | deleting the child of an unrevoked session makes its token acceptable again |
| `SessionRuns.ReopenedExactlyByChildLogout` | src/db/repositories/sessionRepository.ts:131-133 | one step makes the token of a rotated, unrevoked session acceptable again exactly if it is the logout of its child |
| `SessionRuns.AcceptedOnceExactlyWhenLinked` | src/db/repositories/sessionRepository.ts:33-62 | over all runs without logout each token is accepted at most once exactly if a new session is inserted with its parent |
| `SessionRuns.WithoutLinksAlwaysAccepted` | src/db/repositories/sessionRepository.ts:33-47 | with the insert that drops the parent, every presentation of an existing session's token is accepted |
| `SessionRuns.RefusalKillsFamily` | src/auth/refresh/refreshService.ts:34-45 | refusing the token of an existing session leaves no refreshable session in its whole family |
| `SessionRuns.RevivedExactlyByReopening` | src/db/repositories/sessionRepository.ts:131-133 | in a family without refreshable sessions, the logout of a session but the root makes one refreshable exactly if the parent of that session is unrevoked |
| `SessionRuns.ReuseEndsFamily` | src/auth/refresh/refreshService.ts:34-45 | after a reuse no token of the family is ever accepted again, whatever is logged out in it, root included, as long as it is not a session whose parent is unrevoked |
| `SessionRuns.LateInsert` | src/auth/refresh/refreshService.ts:41-66 | an insert separated from its checks keeps the table in order exactly if the parent is still unrevoked and childless |
| `SessionSteps.AcceptedExactly` | src/auth/refresh/refreshService.ts:18-45 | a refresh is accepted exactly if the token verified and its session exists, is not revoked and is nobody's parent |
| `SessionSteps.RefreshHandsOutNext` | src/auth/refresh/refreshService.ts:49-68 | an accepted refresh adds exactly one session, of the same user and role and good for seven days, a child of the one presented if the insert links it, and returns its token, which is accepted when presented next |
| `SessionSteps.LoginHandsOutFirst` | src/auth/login/loginService.ts:48-80 | a login does the same for the user who logged in, with a session that has no parent |
| `SessionSteps.RefusalExactly` | src/auth/refresh/refreshService.ts:18-45 | a refusal changes nothing for a token that does not verify or whose session is gone, and otherwise revokes exactly the unrevoked descendants of the session |
| `SessionSteps.DescentExactly` | src/db/repositories/sessionRepository.ts:112-118 | a session descends from itself and from every ancestor of its parent, and from nothing else |
| `SessionSteps.LogoutExactly` | src/db/repositories/sessionRepository.ts:131-133 | a logout removes exactly the session and its descendants |
| `SessionService.SessionRepository.CreateSession` | src/db/repositories/sessionRepository.ts:31-63 | one new row, under the id given or a drawn one; the parent is written when no id is given, and for a given id only if `links`, which the source's insert is not |
| `SessionService.SessionRepository.FindByParentId` | src/db/repositories/sessionRepository.ts:102-106 | a child is found exactly if there is one |
| `SessionService.SessionRepository.Descendants` | src/db/repositories/sessionRepository.ts:112-118 | on every forest the recursive query terminates and yields exactly the session and its descendants |
| `SessionService.SessionRepository.RevokeSessionAndDescendants` | src/db/repositories/sessionRepository.ts:111-125 | exactly the descendants not yet revoked are marked; all else, earlier timestamps included, stays |
| `SessionService.SessionRepository.DeleteSessionById` | src/db/repositories/sessionRepository.ts:131-133 | exactly the session and, by the cascading foreign key, its descendants are removed |
| `SessionService.RefreshService.Refresh` | src/auth/refresh/refreshService.ts:17-69 | the branches of a refresh, with what each does to the table |
| `RateLimit.InMemoryRateLimitStore.Increment` | src/middleware/rateLimit.ts:41-54 | the entry of the key is counted up in place or replaced by a new window; no other entry changes |
| `RateLimit.RateLimitMiddleware.Handle` | src/middleware/rateLimit.ts:109-156 | a request without a key passes uncounted; another is counted and passes exactly within the limit |
| `RateLimit.IntervalBound` | src/middleware/rateLimit.ts:136-155 | on every trace with a monotone clock, any closed interval of k windows admits at most (k+1)*limit requests of a key |
| `RateLimit.IntervalBoundAttained` | src/middleware/rateLimit.ts:136-155 | for every limit, window and k some trace admits exactly that many |
| `RateLimit.CountsAreWitnessed` | src/middleware/rateLimit.ts:45-53 | in every reachable store an entry's count, capped at the limit, is the number of requests admitted in its window |
| `RateLimit.RefusalIsWitnessed` | src/middleware/rateLimit.ts:145-153 | a request is refused only if exactly `limit` earlier requests of its key were admitted in the same window |
| `RateLimit.AdmittedExactly` | src/middleware/rateLimit.ts:41-54 | on every trace, whatever the clock does: a request passes exactly if, with it, at most `limit` requests of its key have come since the one that opened the window, which ends one window length after it |
| `Idempotency.ReachableStatesSound` | src/middleware/idempotency.ts:151-203 | in every run, reserved and stored keys are disjoint and each reserved key has exactly one open owner |
| `Idempotency.ReplyExactly` | src/middleware/idempotency.ts:37-51 | after any run, from the history of its key alone: a request is answered with the record its owner left while its time to live is not over, refused while the request that reserved the key is neither finished nor closed, and else started |
| `Idempotency.SaveThenCheck` | src/middleware/idempotency.ts:37-57 | a saved record answers while there is no time to live or it is not over; after that the key is free and is reserved |
| `Idempotency.ReserveThenCheck` | src/middleware/idempotency.ts:37-61 | a key without a record is free once, then in flight, and free again after its release |
| `Idempotency.OtherKeysKept` | src/middleware/idempotency.ts:37-72 | no operation touches the record or the reservation of another key |
| `Idempotency.ReplayedUntilExpiry` | src/middleware/idempotency.ts:180-195 | after a save every request with that key up to the expiry gets that record and starts no handler, whatever happens in between |
| `Idempotency.LateFinish` | src/middleware/idempotency.ts:197-201 | a finish after the close would break the invariant exactly if another request has reserved the key meanwhile |
| `IdempotencyService.InMemoryIdempotencyStore.CheckAndReserve` | src/middleware/idempotency.ts:37-51 | an expired record goes first; then cached, in flight, or newly reserved |
| `IdempotencyService.InMemoryIdempotencyStore.Save` | src/middleware/idempotency.ts:53-57 | the reservation is given up and the record stored, with an expiry exactly if a non-zero time to live is set |
| `IdempotencyService.IdempotencyMiddleware.OnRequest` | src/middleware/idempotency.ts:145-203 | what a request is told and what it reserves |
| `IdempotencyService.IdempotencyMiddleware.OnFinish` | src/middleware/idempotency.ts:180-195 | the record is saved or the key released, according to the status |
| `IdempotencyService.IdempotencyMiddleware.OnClose` | src/middleware/idempotency.ts:197-201 | a response closed before it finished releases its key |
| `ExpiringSessions.ObservationallyEqual` | src/lib/sessionStore.ts:143-201 | on every trace with a monotone clock and any sweeps, every reply, the active count included, is that of a plain map that never evicts |
| `ExpiringSessions.ExpiryFollowsLastSeen` | src/lib/sessionStore.ts:118-172 | every session held expires one time to live after it was last seen, and was seen between its creation and now |
| `ExpiringSessions.SessionsAreAccountedFor` | src/lib/sessionStore.ts:69-72 | every session ever created is held, was counted once as expired, or was deleted |
| `SessionHistory.AnswersExactly` | src/lib/sessionStore.ts:118-201 | on every trace with a monotone clock and any sweeps, from the calls alone: a session is found, with the user and role it was created for, and can be touched, exactly while one time to live since it was last seen is not over and it was not deleted |
| `SessionHistory.EvictionsExactly` | src/lib/sessionStore.ts:143-224 | a call removes a session exactly if it looks at it after its time is over, deletes it or stops the store; those removed because their time is over are counted, and so is each created |
| `SessionStoreService.SessionStore.Create` | src/lib/sessionStore.ts:118-134 | a new session with the full time to live, stored and counted |
| `SessionStoreService.SessionStore.Get` | src/lib/sessionStore.ts:143-153 | an expired session is evicted and not returned; a live one is returned as the very object stored |
| `SessionStoreService.SessionStore.Touch` | src/lib/sessionStore.ts:161-172 | a live session is renewed in place, an expired one evicted |
| `SessionStoreService.SessionStore.Sweep` | src/lib/sessionStore.ts:210-219 | exactly the expired sessions are evicted, and their number is returned |
| `SessionStoreService.SessionStore.Stats` | src/lib/sessionStore.ts:188-201 | the active count is the number of sessions not expired |
| `Milestones.ReachableStatesSound` | src/vaults/milestoneValidationRoute.ts:97-141 | under any interleaving and any failures every handler in progress still has what it relies on |
| `Milestones.ValidationIsRecorded` | src/vaults/milestoneValidationRoute.ts:107-141 | a published message announces a recorded event of a validated milestone; a milestone validated in the run carries the verifier and time of a recorded event for its key and is otherwise unchanged; events record only requests that pass every check; event ids are distinct |
| `Milestones.NothingIsUndone` | src/index.ts:36-82 | what is validated, recorded or published stays so for the rest of the run |
| `Milestones.KeysCollideExactly` | src/index.ts:32 | within a vault keys are unambiguous; two vaults can share one exactly if one id begins with the other and a colon |
| `MilestoneAnswers.BeginExactly` | src/vaults/milestoneValidationRoute.ts:76-95 | a request gets past the first checks exactly with a user, the role "verifier", a vault and a milestone; and exactly when each of 401, 403 and 400 is given |
| `MilestoneAnswers.AnswersAreJustified` | src/vaults/milestoneValidationRoute.ts:76-151 | in every run, whatever is interleaved and fails: 400, 401, 403 and 404 are given exactly when the request, the assignments and the keys call for them, 409 only for a validated milestone, 200 only to an assigned verifier for one that was pending and is validated and announced; every handler past the first checks has the role "verifier" |
| `MilestoneAnswers.FailedExactly` | src/vaults/milestoneValidationRoute.ts:97-151 | a handler ends in the error path exactly if one of its awaited calls failed |
| `MilestoneAnswers.ServedExactly` | src/vaults/milestoneValidationRoute.ts:97-151 | a request of an assigned verifier for a pending milestone, alone and without failures, leaves one event, the milestone marked and one message, all of the time when it was found pending |
| `MilestoneVaults.OwnVerifiersOnlyExactly` | src/vaults/milestoneValidationRoute.ts:97-133 | for any milestones and assignments, every milestone validated in any run is validated by a verifier of its own vault exactly if no pending key begins with another vault's id and a colon where a verifier is assigned who is not the own vault's |
| `MilestoneVaults.OwnVerifiersOnlyExactlyWhenApart` | src/index.ts:32-53 | for given vault ids, that is so whatever the milestones and assignments exactly if no vault with verifiers shares keys with another vault |
| `MilestoneVaults.StraightRun` | src/vaults/milestoneValidationRoute.ts:97-141 | every request that passes every check can be served to the end, and marks the milestone of its key |
| `MilestoneOverlap.AnnouncedTwiceNeedsOverlap` | src/vaults/milestoneValidationRoute.ts:114-141 | a run that announces a milestone twice has, earlier, two handlers past the test for that milestone together |
| `MilestoneOverlap.OverlapAnnouncesTwice` | src/vaults/milestoneValidationRoute.ts:114-141 | from every reachable state with two such handlers the run can go on to announce the milestone twice |
| `MilestoneOverlap.OverlapIsReachable` | src/vaults/milestoneValidationRoute.ts:97-141 | any two requests that pass every check for one milestone can announce it twice |
| `MilestoneOverlap.AnnouncedOnceExactlyWhenNothingPending` | src/vaults/milestoneValidationRoute.ts:107-141 | for every milestone: no run announces it twice exactly if no request for it passes every check |
| `MilestoneOverlap.AnnouncedOnceExactlyWhenNotShared` | src/vaults/milestoneValidationRoute.ts:107-141 | for every milestone, if only given requests arrive: it is announced at most once under every interleaving and every failure pattern exactly if no two of them that pass every check are for it, whatever the others are for |
| `MilestoneService.InMemoryMilestoneRepository.MarkValidated` | src/index.ts:36-54 | the milestone is marked in place; an unknown one is an error and changes nothing |
| `MilestoneService.InMemoryMilestoneValidationEventRepository.Create` | src/index.ts:69-82 | the counter goes up and one event with that number is appended |
| `MilestoneService.MilestoneValidation.OnRequest` | src/vaults/milestoneValidationRoute.ts:76-95 | the checks before the first await, with their status codes |
| `MilestoneService.MilestoneValidation.OnResume` | src/vaults/milestoneValidationRoute.ts:97-151 | one awaited call, with any outcome, and the code up to the next |
| `Base64Url.SameBits` | src/utils/jwt.ts:12 | four characters spell the 24 bits of three bytes, most significant first (section 4 of RFC 4648) |
| `Base64Url.EncodeShape` | src/utils/jwt.ts:12 | an encoding is alphabet characters in quadruples, padded only at the end and by the length modulo three |
| `Base64Url.DecodeEncode` | src/utils/jwt.ts:10-19 | standard base64 decodes to what was encoded |
| `Base64Url.UrlRoundTrip` | src/utils/jwt.ts:10-19 | every byte string survives base64url with its padding stripped and restored, and the text is URL-safe |
| `Base64Url.UrlEncodeInjective` | src/utils/jwt.ts:10-13 | different byte strings have different encodings |
| `Base64Url.CharIsInTable` | src/utils/jwt.ts:12 | each value is written as its character in the alphabet, spelled out (tables 1 and 2 of RFC 4648) |
| `Base64Url.UrlEncodeDigits` | src/utils/jwt.ts:10-13 | the encoding is the bits of the bytes in groups of six, most significant first, the last filled up with zeros, each written as its character in the table for URLs |
| `Jwt.JoinSplit` | src/utils/jwt.ts:52-56 | the parts of any string, joined by dots, are the string |
| `Jwt.SignedParts` | src/utils/jwt.ts:30-45 | a signed token splits into exactly the three parts it was made of |
| `Jwt.SignThenVerify` | src/utils/jwt.ts:30-83 | a signed token verifies to the same payload exactly while the clock in whole seconds is at most `exp` |
| `Jwt.VerifyExactly` | src/utils/jwt.ts:51-83 | for every token and every content: verification returns that content exactly if the token is a header and a body with the signature the secret gives them, the body parses to it, and its `exp`, whatever it is, does not compare as passed |
| `Jwt.VerifyThrowsExactly` | src/utils/jwt.ts:58-82 | verification throws exactly on a token with the right signature whose body parses but whose `exp` cannot be read or compared |
| `Jwt.SecretNeeded` | src/utils/jwt.ts:21-25 | without a secret, signing fails, and so does verifying exactly the tokens with two dots; any other is refused |
| `Jwt.SplitCount` | src/utils/jwt.ts:52-53 | a token has one part more than it has dots |
| `Jwt.AcceptedForeverExactly` | src/utils/jwt.ts:79-82 | a token is accepted at all times exactly if it is genuine and its `exp` is missing, not a number or infinite, which no token of `signJwt` has |
| `Jwt.OtherSecretRejected` | src/utils/jwt.ts:58-70 | under another secret the token is rejected unless the two give the same HMAC |

## Left out

- IEEE-754 effects, `Number` and `parseFloat`, and `NaN` as revenue or balance: amounts are exact.
- The amount's regular expression: whether the format matches is part of the submission.
- Reconciliation.QuickFormAgrees: for two-decimal totals, which is what the engine writes; for any totals `Reconciliation.BalancedExactlyWhen` says when the rounding check adds a finding.
- EndToEnd.ReportedMatchesPaid: the caller that distributes a report with its own period and amount and marks its run completed is hypothetical; the repository has only a placeholder event (src/services/revenueService.ts:95-102).
- Jwt.SignThenVerify: assumes that `JSON.parse` undoes `JSON.stringify`.
- Jwt.VerifyExactly: what Node's lenient decoder makes of a body that is not base64, and what `JSON.parse` and the conversion of `exp` to a number make of a text, are parameters.
- RateLimit.IntervalBound: one policy for each store; stores shared by middlewares with different policies, and `reset` in the middle of a trace, are not covered.
- SessionRuns.AcceptedTwiceNeedsLogout: a refresh is one atomic step; interleaved refreshes can both pass the child test, and `SessionRuns.LateInsert` says when that harms the table.
- SessionRuns.ReachableStates: deletion of all sessions of a user on a password change is not among the events.
- Token hashes, and the session's `expires_at`, which refresh never reads; `setDate` is seven days of 24 hours.
- Order of query results (`created_at DESC`): tables are listed in insertion order, on which no theorem depends; the order of discrepancies does.
- The unique and check constraints of the revenue report table, which the service's own checks imply.
- Backoff delays and retry logging; they change when a call happens and not which.
- The choice between balance sources in `fetchBalances`: the balances of each call are a parameter.
- The renaming of a holder's `holderAddressOrId` to the engine's `investor_id` between the balance provider and the engine: one row type serves both.
- `snapshotBalances`, the Stellar source and the choice between sources.
- `verifyDistributionRun`, `validateRevenueReport`, `checkPayoutCompleteness` and `countFailedPayouts`: flat checks, or constant.
- The messages, details and counts of a reconciliation summary other than totals, difference and balance.
- Response headers, cached content types and the re-serialization of a cached body.
- The timer that drives the sweep: a sweep may happen at any time.
- The publisher behind a milestone's event, and responses lost after the last await.
- HTTP plumbing, CORS, logging, mail, webhooks, pagination, password hashing, and the password-reset limiter, whose table is not shown.
