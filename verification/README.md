# Reno-Budget: a verified model of the core

Reno-Budget plans the renovation of shared buildings: what each year costs, what each owner's part of it is, and
how much must be put aside. This project models the parts of its backend where mistakes would be expensive and
hard to see, and proves what they keep. `dafny verify dfyconfig.toml` verifies all of it.

* **Money, Sums, Domain, Ledger**: half-up rounding to the cent, permille splits, and breakdown buckets read as
  ledgers of postings.
* **Budgets, BudgetLaws, BucketLaws, Reserve, ReserveLaws, Renofond**: the yearly timeline (a loop over cost items that updates
  one mutable accumulator per year), the reserve plan derived from its rounded rows, and the balance walked forward
  over the horizon. Unrounded amounts are `real`, rounded amounts are whole cents, and the current year is a
  parameter. Proved: scoped and unscoped views agree, every breakdown re-adds, each bucket means what its key says,
  and the two rounding stages cost at most half a cent each.
* **StringOrder, BackupNames, Backup**: retention of nightly dumps. Proved over whole runs: pruning after every dump
  leaves exactly what one pruning of the entire history would leave.
* **Auth, AuthLaws**: refresh-token rotation, replay handling, password reset and the lockout counter, over every
  run of the calls.
* **Procurement**: lots, quotes and the award operation, with foreign-key effects.
* **CostItems, CostItemLaws**: the cost-item store under roles and unit scopes, with the unit steps it rests on; the
  last theorem hands its invariant to the timeline.
* **Catalogue, CatalogueLaws, CatalogueRuns**: the in-place forest builder over the eBKP-H catalogue, and runs of
  custom codes.
* **Storage, StorageCalls**: content-addressed uploads, both as one call and as interleaved steps. The hash is any
  function with well-formed digests that has no collision among the finitely many contents in use.
* **Audit**: keyset pagination of the audit log, crawled page by page while the log grows.

* **BudgetMeaning, PlanMeaning, AuthMeaning, ProcurementMeaning, CostItemMeaning, BackupPolicy**: what each returned
  field and stored column is, told from the inputs or the run alone, and exactly when each call is accepted.

Classes carry the mutable state of the services; each method is tied to a function on values (`Step`, `StateOf`,
`Pruned`, ...), and the laws are proved about those functions over all runs.

## Where the code and its documentation part ways

* `budgets.py:162-165` promises to skip a planned amount after the horizon; the `continue` also drops the item's
  actual amount (`ActualReachesRow`, `ActualLostWitness`).
* `renofond.py:12-18` adds the required deposit in every year; the code adds none in the current year. The
  documented step holds there only if nothing is required (`DocumentedStepExactly`, `DocumentedStepWitness`).
* `schemas/renofond.py:59` says a row is underfunded iff the shown balance is negative. For scoped callers this fails
  exactly when the whole-cent movements plus the deposits at the caller's permille come to less than half a cent
  missing, never when the caller's part of the deposits is whole cents (`UnderfundedFlag`, `FlagAgreesOnWholeCents`,
  `FlaggedZeroBalanceWitness`).
* `storage.py:192-193` promises that no error path leaks the temp file; only `StorageError` cleans up
  (`TempFilesExactly`, `AbortLeaks`).
* `api/v1/audit.py:10-13` promises stable pages although events share a microsecond; a tie that straddles a page
  boundary is skipped (`CrawlCompleteExactly`, `TieSkippedWitness`).
* `quotes.py:142-154` protects awarded quotes from deletion; patching the status first gets around it
  (`AwardCanBeUndone`, `StandingAwardWitness`), and a lot's status may disagree with its quotes (`StatusConsistencyExactly`).
* `cost_items.py:345-354` means a code and a split to exclude each other; a patch of the code alone leaves both
  (`BothShapesExactly`, `BothShapesWitness`).
* `auth.py:266-269` revokes a conflicting invitation, but the route raises before it commits: in no run does an
  invitation become revoked (`InvitationsNeverRevoked`, `ConflictLeavesPendingWitness`).

## Model

| member | source | states |
|---|---|---|
| Money.Quantise | backend/app/services/budgets.py:57-59 | the result is within half a cent, and a tie lies away from zero (ROUND_HALF_UP) |
| Money.QuantiseUnique | backend/app/services/budgets.py:57-59 | no other whole number of cents has that property |
| Money.QuantiseMonotone | backend/app/services/budgets.py:57-59 | rounding keeps order |
| Money.QuantiseSign | backend/app/services/renofond.py:188-197 | rounding hides a negative amount exactly when it is less than half a cent below zero |
| Money.Redistribute | backend/app/services/budgets.py:366-386 | taking t thousandths and then s parts of t equals taking s thousandths |
| Domain.ValidateSplit | backend/app/services/allocations.py:38-76 | accepts exactly the lists in 0..1000 that sum to 1000, hence no empty one |
| Domain.ValidateBkpSplit | backend/app/services/allocations.py:79-102 | the same, but an empty list passes as "no split" |
| Domain.EffectiveSharesSplit | backend/app/services/bkp_shares.py:22-35 | effective BKP shares are a complete split iff the stored rows are absent or a complete split |
| Domain.PartitionShares | backend/app/services/budgets.py:87-91 | disjoint covering scopes take shares that add up to the whole list |
| Ledger.BucketMeaning | backend/app/services/budgets.py:329-331 | a bucket exists iff something was posted to its key, and holds exactly the sum posted |
| Ledger.Conservation | backend/app/services/budgets.py:278-326 | buckets re-add to what was posted, whatever the keys |
| Ledger.QuantPairs | backend/app/services/budgets.py:403-408 | same keys, each pair rounded to its nearest cents |
| Ledger.RoundedBucketsBound | backend/app/services/budgets.py:403-408 | rounding n buckets moves their sum by at most n half-cents |
| Budgets.ComputeScopeFactor | backend/app/services/budgets.py:78-91 | the loop computes the scope's permille share, 1 for unscoped callers |
| Budgets.RowAcc.constructor | backend/app/services/budgets.py:295-302 | a new accumulator is empty in all seven fields |
| Budgets.RowAcc.SpreadByBkp | backend/app/services/budgets.py:334-350 | the loop posts one part per effective BKP share and touches no other map |
| Budgets.RowAcc.CreditUnits | backend/app/services/budgets.py:373-386 | the per-allocation loop for either denominator |
| Budgets.RowAcc.SpreadByUnit | backend/app/services/budgets.py:353-386 | thousandths over all allocations when unscoped, proportional redistribution over the in-scope ones when scoped |
| Budgets.RowAcc.AddBreakdownPlanned | backend/app/services/budgets.py:304-314 | posts the planned amount to all four maps under the item's own keys |
| Budgets.RowAcc.AddBreakdownActual | backend/app/services/budgets.py:316-326 | the same in the actual column |
| Budgets.RowAcc.Book | backend/app/services/budgets.py:171-187 | one half of a loop turn moves the accumulator to the next specified state |
| Budgets.PostEntryCorrect | backend/app/services/budgets.py:155-187 | that state is the one specified for the entries so far; other years are untouched |
| Budgets.Earliest | backend/app/services/budgets.py:140-144 | no later than the current year and any planned or actual year |
| Budgets.NewAccumulators | backend/app/services/budgets.py:146-148 | one distinct fresh accumulator per year of the window |
| Budgets.Book | backend/app/services/budgets.py:171-187 | only the accumulator of the entry's year changes, although all live in one map |
| Budgets.PostItem | backend/app/services/budgets.py:151-187 | one loop turn posts exactly the item's entries, with both early exits |
| BudgetLaws.RowsHoldEverything | backend/app/services/budgets.py:137-148 | the totals balance: the rows from the earliest year to the horizon add up, for all three figures, to what the items contribute; no amount is missing or counted twice |
| Budgets.ComputeTimeline | backend/app/services/budgets.py:114-197 | the whole loop yields exactly the rows that the entries define |
| BudgetLaws.ScopedItemFigure | backend/app/services/budgets.py:78-91 | a scoped caller sees of every item the scope's share of what an unscoped caller sees |
| BudgetLaws.ScopeAdditivity | backend/app/services/budgets.py:150-187 | over any partition of the units the scopes' totals add up, without error, to the unscoped total, for all three totals and every year |
| BudgetLaws.RoundedScopeAdditivity | backend/app/services/budgets.py:389-400 | after rounding they differ by at most half a cent per cell |
| BudgetLaws.PostingRefinement | backend/app/services/budgets.py:353-386 | the scoped branch gives each allowed unit what the unscoped branch gives it, and others nothing |
| BudgetLaws.UnitBucketsRefine | backend/app/services/budgets.py:353-386 | over the whole loop the scoped unit balances are the unscoped ones restricted to the scope |
| BudgetLaws.ScopedRowRefines | backend/app/services/budgets.py:353-386 | the same for the by_unit buckets of the accumulators |
| BudgetLaws.UnitPostingsVolume | backend/app/services/budgets.py:369-386 | unscoped: re-adds iff the amount is nil or the shares sum to 1000; scoped: always |
| BudgetLaws.BkpPostingsVolume | backend/app/services/budgets.py:347-350 | a complete BKP split hands on exactly the amount |
| BudgetLaws.BreakdownConservation | backend/app/services/budgets.py:278-326 | after any number of turns the four breakdowns of every year re-add to its totals, column by column, scoped or not |
| BudgetLaws.RoundedRowConservation | backend/app/services/budgets.py:389-408 | the rounded buckets re-add to the rounded totals within half a cent per bucket plus half a cent |
| BudgetLaws.InflationClosedForm | backend/app/services/budgets.py:94-103 | (1 + rate/100)^max(0, years), at least 1 |
| BudgetLaws.RowInflation | backend/app/services/budgets.py:166-172 | a year's inflated total is its planned total times that factor, hence never below it |
| BudgetLaws.ActualReachesRow | backend/app/services/budgets.py:162-165 | an actual reaches its row iff the item is not also planned beyond the horizon, or the amount is nil |
| BudgetLaws.ActualLostWitness | backend/app/services/budgets.py:162-165 | 500.00 spent this year that no row shows |
| BucketLaws.UnitBucketMeaning | backend/app/services/budgets.py:369-374 | an unscoped unit bucket is the total a caller scoped to that unit alone sees |
| BucketLaws.StatusBucketMeaning | backend/app/services/budgets.py:312-324 | a status bucket is the total of a timeline over the items of that status alone |
| BucketLaws.PriorityBucketMeaning | backend/app/services/budgets.py:313-325 | likewise for priorities |
| BucketLaws.GroupBucketMeaning | backend/app/services/budgets.py:347-350 | a BKP-group bucket holds of every item that item's share of the group |
| BudgetMeaning.ItemPlanned | backend/app/services/budgets.py:48-50 | an item shows its planned amount, in the caller's part, in its planned year only, and exactly as an idea, planned or in progress; completed and cancelled ones show nothing |
| BudgetMeaning.ItemActual | backend/app/services/budgets.py:179-187 | it shows its actual amount in that year whatever its status, unless it is still due after the horizon |
| BudgetMeaning.RowMeaning | backend/app/services/budgets.py:150-187 | the unrounded totals of a year are the sums of these amounts |
| BudgetMeaning.Compounding | backend/app/services/budgets.py:94-103 | growth over m + n years is growth over m times growth over n, and one year is the plain factor |
| BudgetMeaning.WindowMeaning | backend/app/services/budgets.py:137-148 | the returned rows start at the current year or at a year of some item, end at the horizon, and miss no year |
| BudgetMeaning.RowShows | backend/app/services/budgets.py:389-400 | a row shows the rounded amounts of its year, planned ones also compounded |
| BudgetMeaning.TimelineMeaning | backend/app/services/budgets.py:114-197 | the same for the rows of the returned timeline; with inflation off both planned figures agree |
| BudgetMeaning.TopGroupMeaning | backend/app/services/budgets.py:62-75 | the group of a code is its first character, letters in upper case; no code falls into the uncategorised group |
| BudgetMeaning.GroupShareMeaning | backend/app/services/bkp_shares.py:22-35 | an item's share of a group: its rows', else all for its code's group, else all uncategorised |
| BudgetMeaning.ReturnedBuckets | backend/app/services/budgets.py:389-408 | each returned status or priority bucket is the rounded total of the items with that key; each unscoped unit bucket what a caller of that unit is shown |
| BudgetMeaning.ReturnedGroups | backend/app/services/budgets.py:389-408 | each returned group bucket is the rounded sum of the items' shares of the group |
| BudgetMeaning.ReturnedKeys | backend/app/services/budgets.py:311-326 | a row has buckets for exactly the statuses and priorities of the items shown on it |
| BudgetMeaning.ReturnedUnitAndGroupKeys | backend/app/services/budgets.py:334-386 | and for exactly the units and groups of these items, to a scoped caller for no unit outside the scope |
| Reserve.ReserveScopeFactor | backend/app/services/budgets.py:261-272 | the loop computes the scope's Wertquoten share |
| Reserve.FutureSpend | backend/app/services/budgets.py:219-244 | the two passes compute the future total and the lump sums of the years after the current one |
| Reserve.ComputeReservePlan | backend/app/services/budgets.py:200-258 | the plan as a function of the items, each figure rounded where the code rounds it |
| Reserve.LumpsAddUp | backend/app/services/budgets.py:240-251 | paying every lump sum pays the announced total to the cent |
| Reserve.RequiredCoversGap | backend/app/services/budgets.py:228-252 | the rounded required total is never below rounded spend minus rounded reserve, and above it by at most a cent |
| Reserve.FutureTotalNonNegative | backend/app/services/budgets.py:219-222 | the future total is never negative |
| ReserveLaws.ReservesAddUp | backend/app/services/budgets.py:261-272 | the scopes of a partition share out the initial reserve completely |
| ReserveLaws.ScopesRequireEnough | backend/app/services/budgets.py:228-235 | their required totals, before rounding, add up to at least the unscoped one, up to half a cent per future row and cell |
| PlanMeaning.PlanFigures | backend/app/services/budgets.py:246-258 | every amount of the returned plan: reserve part, later rows' spend, the gap between them, its yearly part, and twelve months that miss the year by at most six cents |
| PlanMeaning.LumpsByRow | backend/app/services/budgets.py:240-244 | one lump sum for exactly each later row with a positive amount, in the order of the years, over exactly that amount |
| Renofond.PlannedPerYear | backend/app/services/renofond.py:158-161 | the dictionary holds each year's rounded inflated spend |
| Renofond.ActualPerYear | backend/app/services/renofond.py:164-168 | the dictionary holds each year's pro-rated deposits |
| Renofond.ComputeProjection | backend/app/services/renofond.py:137-215 | the year loop yields the specified rows and underfunding list |
| Renofond.BalanceClosedForm | backend/app/services/renofond.py:174-186 | the walk in closed form: whole cents plus the pro-rated deposits so far |
| Renofond.YearlyDeposits | backend/app/services/budgets.py:231-238 | h rounded yearly deposits miss the required total by at most h half-cents |
| Renofond.TwoStageRounding | backend/app/services/renofond.py:171-186 | the last balance is within h+1 half-cents, on both sides, of what it would be without rounding |
| Renofond.PlanSuffices | backend/app/services/renofond.py:171-186 | it is at least deposits minus current-year spend, up to h+1 half-cents |
| Renofond.CumulativeMatchesPlan | backend/app/services/renofond.py:187-198 | the last cumulative figure is the current year's spend plus the total the reserve plan announces |
| Renofond.UnscopedProjectionExact | backend/app/services/renofond.py:174-199 | unscoped rows carry the unrounded balance, satisfy the recurrence to the cent, and the flag says the shown balance is negative |
| Renofond.BalanceInMilliCents | backend/app/services/renofond.py:164-186 | the balance in whole thousandths of a cent: shown movements, and recorded deposits times the caller's permille |
| Renofond.UnderfundedFlag | backend/app/schemas/renofond.py:59-60 | a negative shown balance is always flagged; flag and shown balance disagree iff 1000 times the shown movements plus deposits times permille lies in (-500, 0) |
| Renofond.FlagAgreesOnWholeCents | backend/app/schemas/renofond.py:59-60 | they agree whenever the caller's part of the deposits is whole cents, hence for every unscoped caller |
| Renofond.DocumentedStepExactly | backend/app/services/renofond.py:12-18 | the documented recurrence holds in every later year, and in the current year iff nothing is required |
| Renofond.DocumentedStepWitness | backend/app/services/renofond.py:181-186 | an object for which it fails |
| Renofond.FlaggedZeroBalanceWitness | backend/app/services/renofond.py:188-203 | a flagged year whose balance and shortfall both read 0.00 |
| Renofond.UnderfundingListExact | backend/app/services/renofond.py:200-203 | the list is ascending and holds exactly the years with a negative balance, each with its shortfall |
| Renofond.DepositShiftsBalances | backend/app/services/renofond.py:164-186 | a further deposit leaves earlier balances alone and raises each later one by exactly its pro-rated amount |
| Renofond.DepositShrinksUnderfunding | backend/app/services/renofond.py:200-203 | it can only shrink the list and its shortfalls |
| PlanMeaning.ProjectionRows | backend/app/services/renofond.py:174-199 | the returned projection: one row a year; required, deposits, planned and accumulated figures of each, and the plan's two figures |
| PlanMeaning.ProjectionBalances | backend/app/services/renofond.py:186-197 | each balance, shown rounded, is the one before plus the row's own figures, for every caller |
| PlanMeaning.ProjectionUnderfunding | backend/app/services/renofond.py:200-214 | the returned list names exactly the flagged rows, ascending, with the missing amount, for unscoped callers the negated balance |
| BackupNames.NameOrderIsChronological | backend/app/worker/backup.py:87-88 | file names compare as their time stamps do |
| BackupNames.FileNameParses | backend/app/worker/backup.py:52-88 | every name written matches the pattern, and its month is read back |
| BackupNames.MonthsFollowNames | backend/app/worker/backup.py:173-179 | an older name never has a newer month |
| Backup.FirstPerMonth | backend/app/worker/backup.py:173-179 | the insertion-ordered dictionary holds the newest file of each month, k newer months before the k-th |
| Backup.SelectKeepers | backend/app/worker/backup.py:159-183 | keeps exactly the files in the daily window or newest of one of the newest months |
| Backup.WalkMeaning | backend/app/worker/backup.py:159-183 | on a sorted listing the policy equals a single walk with two countdowns |
| Backup.WalkAbsorbs | backend/app/worker/backup.py:159-183 | a tighter pruning does not notice an earlier looser one |
| Backup.Directory.ExistingBackups | backend/app/worker/backup.py:144-156 | exactly the files with matching names, newest first; other entries are passed over |
| Backup.Directory.Prune | backend/app/worker/backup.py:186-204 | unlinks exactly the backups outside the policy and leaves foreign files; files somebody else deletes meanwhile are neither an error nor reported |
| Backup.Directory.RunBackup | backend/app/worker/backup.py:227-262 | dump then prune; a failed dump leaves nothing and prunes nothing |
| Backup.IncrementalPruning | backend/app/worker/backup.py:186-204 | keep(keep(H) + x) = keep(H + x) for every history and newer file |
| Backup.PruningIdempotentAndBounded | backend/app/worker/backup.py:159-204 | pruning twice is pruning once; at most daily + monthly backups survive |
| Backup.IncrementalEqualsOneShot | backend/app/worker/backup.py:227-262 | after any run of dumps, failed ones included, the directory is the policy applied once to everything ever dumped |
| BackupPolicy.SurvivesExactly | backend/app/worker/backup.py:12-20 | exactly the foreign files, the newest `daily` backups, and the newest backup of each of the newest `monthly` months survive |
| BackupPolicy.BackupsAreDigitNames | backend/app/worker/backup.py:51-52 | the policy applies to exactly the names with fourteen digits in the job's layout |
| BackupPolicy.FileNameLayout | backend/app/worker/backup.py:87-88 | the name written has that layout, field by field |
| Auth.AuthService.IssueRefreshToken | backend/app/services/auth.py:91-111 | appends one live token and changes nothing else |
| Auth.AuthService.RevokeAllForUser | backend/app/services/auth.py:152-159 | revokes exactly the user's unrevoked tokens |
| Auth.AuthService.RotateRefreshToken | backend/app/services/auth.py:114-142 | rotation with its four outcomes and whole new state |
| Auth.AuthService.RevokeRefreshToken | backend/app/services/auth.py:145-149 | logout revokes at most the presented token |
| Auth.AuthService.Authenticate | backend/app/services/auth.py:165-197 | the lockout machine with its five outcomes |
| Auth.AuthService.LoginRoute | backend/app/api/v1/auth.py:95-140 | a token is issued iff authentication succeeds; failures are committed |
| Auth.AuthService.AcceptInvitationRoute | backend/app/services/auth.py:245-292 | consumes a pending invitation once and issues a token, or changes nothing |
| Auth.AuthService.RequestPasswordReset | backend/app/services/auth.py:298-315 | adds a reset row for known emails only |
| Auth.AuthService.ConfirmPasswordReset | backend/app/services/auth.py:318-339 | consumes the reset once, clears the lock, revokes every token of the user |
| AuthLaws.StepKeepsLineage | backend/app/services/auth.py:91-159 | each call keeps the links forward, injective, within one user and on revoked tokens, and takes nothing back |
| AuthLaws.RunKeepsLineage | backend/app/services/auth.py:91-159 | the same over every run; `revoked_at` and `replaced_by` are never cleared or overwritten |
| AuthLaws.ChainIsLinear | backend/app/services/auth.py:139-141 | a chain of successors does not branch |
| AuthLaws.ChainsDoNotMerge | backend/app/services/auth.py:139-141 | and two chains never merge |
| AuthLaws.OneLiveTokenPerChain | backend/app/services/auth.py:114-142 | each chain has at most one unrevoked token, and it is the chain's tail |
| AuthLaws.RotatedAtMostOnce | backend/app/services/auth.py:114-142 | in no run is a token rotated successfully twice |
| AuthLaws.RevokedExactly | backend/app/services/auth.py:114-159 | in every run a token is revoked iff some call of the run rotated it, logged it out, or revoked all tokens of its user |
| AuthLaws.ReplayDetectedExactly | backend/app/services/auth.py:126-132 | in every run presenting a token is a replay iff it is an unexpired token of the run that an earlier call revoked in one of those ways |
| AuthLaws.EverythingRevokedAt | backend/app/services/auth.py:130-159 | a replay or a confirmed reset leaves no live token of the user |
| AuthLaws.ReplayCutsOff | backend/app/services/auth.py:130-159 | from then on, over every run, all those tokens stay revoked and any later one descends from a login or acceptance after that moment |
| AuthLaws.CountersStayInRange | backend/app/services/auth.py:180-183 | the stored counter stays below the threshold |
| AuthLaws.LockoutSpacing | backend/app/services/auth.py:177-192 | in every run any six consecutive wrong verifications of an account, without login or reset between, span at least 15 minutes |
| AuthLaws.InvitationsNeverRevoked | backend/app/services/auth.py:266-269 | in no run does an invitation become revoked |
| AuthLaws.ConflictLeavesPendingWitness | backend/app/api/v1/auth.py:254-258 | a run whose conflicting acceptance leaves the invitation pending |
| AuthMeaning.AccountColumns | backend/app/services/auth.py:165-197 | what a call does to an account: the email stays, the password changes by its confirmed reset alone, the flag by its own call alone |
| AuthMeaning.NewAccounts | backend/app/services/auth.py:274-285 | accounts come from accepted invitations alone, active and clean, with the invited email and the password sent |
| AuthMeaning.RunKeepsEmailsDistinct | backend/app/services/auth.py:265-269 | no two accounts share an email, in any run |
| AuthMeaning.LoginDecides | backend/app/services/auth.py:165-197 | a login succeeds exactly for an unlocked, active account with this password; which error else; and what it stores and issues |
| AuthMeaning.UnknownEmail | backend/app/services/auth.py:171-176 | an unknown email is answered like a wrong password and changes nothing |
| AuthMeaning.PasswordAfterReset | backend/app/services/auth.py:329-331 | over every run the stored password is the one sent with the last confirmed reset |
| AuthMeaning.LoginAfterReset | backend/app/services/auth.py:318-339 | from a confirmed reset until the next, the active unlocked account is entered exactly with the password sent |
| AuthMeaning.ResetDecides | backend/app/services/auth.py:318-334 | exactly when a reset is confirmed, which error else, and that nothing changes then |
| AuthMeaning.ResetConfirmedOnce | backend/app/services/auth.py:320-334 | in no run is a reset confirmed twice |
| AuthMeaning.ResetWithinHour | backend/app/services/auth.py:298-322 | a password is only ever reset within an hour of a request for that account |
| AuthMeaning.AcceptanceDecides | backend/app/services/auth.py:245-292 | exactly when an invitation is accepted, which error else, and the token issued |
| AuthMeaning.InviteColumns | backend/app/services/auth.py:284-285 | an invitation changes by its own acceptance alone |
| AuthMeaning.JoinedWithinWeek | backend/app/services/auth.py:208-242 | whoever joins was invited, by this email, within the week before |
| AuthMeaning.RefreshDecides | backend/app/services/auth.py:114-142 | exactly when a refresh succeeds; the fresh token, the revoked one and the link; which error else |
| AuthMeaning.RevokedNow | backend/app/services/auth.py:152-159 | a token is revoked at the time of the call that revokes it |
| AuthMeaning.LockoutExactly | backend/app/services/auth.py:177-192 | over every run an account is locked for exactly fifteen minutes from every fifth wrong password in a row |
| Procurement.MarketStore.CreateQuote | backend/app/services/quotes.py:57-98 | the error cases in order, and the new row |
| Procurement.MarketStore.UpdateQuote | backend/app/services/quotes.py:123-139 | any patch but one into AWARDED |
| Procurement.MarketStore.DeleteQuote | backend/app/services/quotes.py:142-154 | refused while the award stands; otherwise the pointer is set to null |
| Procurement.MarketStore.AwardQuote | backend/app/services/quotes.py:160-220 | the award with its conflict check, its idempotent path and its whole new state |
| Procurement.MarketStore.CreateLot | backend/app/services/lots.py:47-65 | a lot with any status and no pointer |
| Procurement.MarketStore.UpdateLot | backend/app/services/lots.py:90-102 | any status may be set; the pointer is untouched |
| Procurement.MarketStore.DeleteLot | backend/app/services/lots.py:114-117 | the lot goes together with its quotes |
| Procurement.StepKeepsInv | backend/app/services/quotes.py:57-220 | every call keeps: an awarded quote is the one its lot points to, pointers name quotes of the lot, quote, supplier and lot share an object |
| Procurement.RunKeepsInv | backend/app/models/quote.py:112-117 | over every run at most one quote per lot is awarded, without help of the partial unique index |
| Procurement.AwardedQuoteDisappears | backend/app/services/quotes.py:142-154 | an awarded quote disappears iff its lot is deleted, or it is deleted while the lot is cancelled |
| Procurement.AwardOutcome | backend/app/services/quotes.py:160-220 | awarding succeeds iff the lot's award names no other quote still awarded; it is then the only one, and asking again changes nothing |
| Procurement.StatusConsistencyExactly | backend/app/services/lots.py:98-102 | "a lot shown as awarded has an awarded quote" is kept by a call iff the call is none of three named ones |
| Procurement.AwardCanBeUndone | backend/app/services/quotes.py:123-154 | a standing award refuses deletion, yet patch-then-delete leaves an AWARDED lot without any quote |
| Procurement.StandingAwardWitness | backend/app/services/quotes.py:160-220 | a run from an empty market that reaches such an award |
| ProcurementMeaning.RefusedChangesNothing | backend/app/services/quotes.py:57-220 | a refused call changes nothing |
| ProcurementMeaning.QuoteColumns | backend/app/services/quotes.py:123-220 | what each call does to each column of a quote, and when a quote goes |
| ProcurementMeaning.NewQuote | backend/app/services/quotes.py:86-98 | a new quote is the one sent, column by column |
| ProcurementMeaning.LotColumns | backend/app/services/lots.py:90-117 | what each call does to each column of a lot, and when a lot goes |
| ProcurementMeaning.NewLot | backend/app/services/lots.py:47-65 | a new lot is the one sent |
| ProcurementMeaning.SupplierColumns | backend/app/models/quote.py:69-77 | a supplier keeps its object, and goes only without quotes |
| ProcurementMeaning.CreateQuoteDecides | backend/app/services/quotes.py:57-82 | exactly when a quote may be created, and which error else |
| ProcurementMeaning.UpdateQuoteDecides | backend/app/services/quotes.py:130-136 | exactly when a patch is accepted, and which error else |
| ProcurementMeaning.DeleteQuoteDecides | backend/app/services/quotes.py:142-154 | a quote may be deleted exactly unless it is awarded and its lot is not cancelled |
| ProcurementMeaning.LotCallsDecide | backend/app/services/lots.py:82-117 | lots may be created, patched and deleted freely; an award needs a quote of the lot |
| ProcurementMeaning.AmountIsLastSent | backend/app/services/quotes.py:57-220 | in every run the amount of a quote is the last one sent for it |
| CostItems.CostItemService.CreateCostItem | backend/app/services/cost_items.py:227-301 | every error in order, or the new row with its allocations |
| CostItems.CostItemService.UpdateCostItem | backend/app/services/cost_items.py:304-381 | every error in order, or the patched row; nothing changes on error |
| CostItems.CostItemService.DeleteCostItem | backend/app/services/cost_items.py:384-396 | visible items only, for editors only |
| CostItems.CostItemService.CreateObjectWithUnits | backend/app/services/objects.py:57-106 | units are stored iff their Wertquoten are a complete split (one 1000 permille unit for a single-family house) |
| CostItems.CostItemService.ReplaceUnits | backend/app/services/objects.py:112-148 | the unit set is swapped and the allocations of the old units cascade away |
| CostItemLaws.AutoFillIsValid | backend/app/services/cost_items.py:410-444 | an omitted split is filled validly because the Wertquoten are a complete split; nothing else checks it |
| CostItemLaws.CreatedItemIsValid | backend/app/services/cost_items.py:227-301 | a created item satisfies the item invariant and touches the caller's scope |
| CostItemLaws.UpdatedItemIsValid | backend/app/services/cost_items.py:304-381 | so does a patched one, whatever the patch |
| CostItemLaws.WrittenItemStaysVisible | backend/app/services/cost_items.py:201-221 | what a scoped editor wrote, the same editor can fetch |
| CostItemLaws.ReplaceUnitsExactly | backend/app/models/cost.py:266-270 | replacing units keeps the store invariant iff the object has no cost item |
| CostItemLaws.StepKeepsInv | backend/app/services/cost_items.py:227-396 | every other call keeps it: distinct units of the object, shares summing to 1000, effective BKP shares summing to 1000, a project of the same object, an amount |
| CostItemLaws.RunKeepsInv | backend/app/services/cost_items.py:227-396 | the same over runs |
| CostItemLaws.EveryTimelineReAdds | backend/app/services/budgets.py:114-197 | so for every run of the store, every caller and year, all four breakdowns of the timeline re-add |
| CostItemLaws.BothShapesExactly | backend/app/services/cost_items.py:345-354 | code and split end up together iff the patch sends a code and no split for an item with a split; the split keeps deciding |
| CostItemLaws.BothShapesWitness | backend/app/services/cost_items.py:345-354 | a store in order and a patch that is accepted and leaves both |
| CostItemMeaning.CreateRoundTrip | backend/app/services/cost_items.py:256-301 | the creator reads back the payload, column by column, with left-out allocations as the Wertquoten; no other row changes |
| CostItemMeaning.UpdateRoundTrip | backend/app/services/cost_items.py:356-381 | the patcher reads back each column: a sent value wins, null clears, an absent field stays; no other row changes |
| CostItemMeaning.DeleteRemovesOne | backend/app/services/cost_items.py:384-396 | a deleted item is gone, and nothing else |
| CostItemMeaning.AccessDecides | backend/app/services/cost_items.py:201-221 | viewers change nothing; editors get at exactly the items with an allocation in their scope, to others these are missing |
| CostItemMeaning.CreateDecides | backend/app/services/cost_items.py:241-254 | an item is created exactly without a fault; else the first fault in the order of the checks is raised |
| CostItemMeaning.UpdateDecides | backend/app/services/cost_items.py:325-375 | likewise for a patch |
| CostItemMeaning.StoredItemsAreSound | backend/app/models/cost.py:227-248 | the store invariant in plain terms: no unit or code twice, permille in range and summing to 1000, an amount, none negative |
| CostItemMeaning.OtherStepsKeepColumns | backend/app/services/objects.py:112-148 | unit and project steps store what was sent, and of the items touch only allocations on deleted units and links to the deleted project |
| CostItemMeaning.UnitsDecide | backend/app/services/objects.py:124-131 | units are accepted exactly as a complete split, for a single-family house as one unit of 1000 permille |
| Catalogue.IndexByCode | backend/app/services/bkp.py:88-99 | one fresh node per row, found under its code |
| Catalogue.BuildTree | backend/app/services/bkp.py:86-114 | the second pass leaves in every node exactly its children in listing order, and returns the roots, orphans included |
| CatalogueLaws.CatalogueStore.CreateCustomCode | backend/app/services/bkp.py:51-80 | duplicate before unknown parent, or the row inserted as a non-seed |
| CatalogueLaws.CustomCodeKeepsAcyclic | backend/app/services/bkp.py:51-80 | a custom code keeps the listing sorted, its references sound and its parents acyclic |
| CatalogueLaws.GrowIsGrown | backend/app/services/bkp.py:101-107 | below every node of the forest stand exactly its children |
| CatalogueLaws.FlatteningIsPermutation | backend/app/services/bkp.py:86-114 | from any acyclic catalogue, flattening the forest gives every row exactly once |
| CatalogueLaws.SiblingsInOrder | backend/app/services/bkp.py:100-107 | siblings and roots keep the code order |
| CatalogueLaws.NodeDepictsTree | backend/app/services/bkp.py:86-114 | the mutable nodes show exactly that forest |
| CatalogueLaws.GetCatalogueTree | backend/app/services/bkp.py:39-48 | the call returns nodes showing a forest whose flattening is a permutation of the rows |
| CatalogueRuns.RunKeepsCatalogue | backend/app/services/bkp.py:51-80 | any run of custom codes keeps the table sorted, its references sound and its parents acyclic |
| CatalogueRuns.RunFlattening | backend/app/services/bkp.py:51-114 | after any such run the tree shows every row exactly once |
| CatalogueRuns.RunContents | backend/app/services/bkp.py:70-80 | a run keeps every row as it was and adds of the codes sent those accepted, as custom rows |
| CatalogueRuns.AcyclicExactly | backend/app/services/bkp.py:108-113 | without the foreign key a custom code keeps the parents acyclic iff it is not created below an orphan whose missing parent it is |
| CatalogueRuns.ClosedCycleWitness | backend/app/services/bkp.py:108-113 | an orphan and a code that close a cycle |
| Storage.ServedContentMatches | backend/app/services/storage.py:163-171 | the path of a digest, if a file is there, holds content with exactly that digest; every stored file is found under its own name and no other |
| Storage.FileStore.StoreUpload | backend/app/services/storage.py:177-263 | uninterrupted: too large iff beyond the cap, no temp file left, at most one blob added, hash and size of the whole body returned |
| Storage.StepKeepsBlobs | backend/app/services/storage.py:247-255 | no step of any upload changes or removes a present blob |
| Storage.StepKeepsInv | backend/app/services/storage.py:177-263 | every step keeps: files at content addresses are complete and hash to their names, uploads are as far as their phase says |
| Storage.RunKeepsInv | backend/app/services/storage.py:177-263 | the same over every interleaving |
| Storage.ResultStaysTrue | backend/app/services/storage.py:257-263 | a returned hash and size resolve from then on to a blob with exactly the uploaded bytes, within the cap |
| Storage.Deduplicated | backend/app/services/storage.py:247-251 | identical content is stored once |
| Storage.TempFilesExactly | backend/app/services/storage.py:237-239 | temp files exist exactly for uploads under way or ended by another exception; a rejected upload leaves none |
| Storage.AbortLeaks | backend/app/services/storage.py:192-193 | such a file stays for good |
| StorageCalls.StepsAreTheCall | backend/app/services/storage.py:177-263 | begin, reads, existence check and commit run alone have the result, blobs and temp files of the uninterrupted call |
| StorageCalls.RequirementsAreMet | backend/app/services/storage.py:177-263 | a hash, a start and an interleaved run of two uploads that meet every assumption of the laws above, with both uploads stored at the end |
| Audit.FeedIsSelection | backend/app/api/v1/audit.py:70-77 | the ordered query holds exactly the matching rows, each as often as stored |
| Audit.FeedDescending | backend/app/api/v1/audit.py:77 | in strictly descending (created_at, id) order |
| Audit.PageExactly | backend/app/api/v1/audit.py:58-85 | a page holds the newest `limit` events of the object before the cursor, newest first; a cursor exactly on a full page, at its last event |
| Audit.CursorCutsFeed | backend/app/api/v1/audit.py:75-77 | filter-then-order equals cutting the ordered feed at the cursor |
| Audit.AppendsAreInvisible | backend/app/api/v1/audit.py:75-76 | later events do not disturb a page behind an earlier cursor |
| Audit.CrawlDescends | backend/app/api/v1/audit.py:79-85 | a crawl is strictly descending and never returns an event twice, whatever happens to the log between pages |
| Audit.CrawlSeesFirstFetch | backend/app/api/v1/audit.py:58-85 | over a growing log a crawl stops by itself within one fetch more than there were events, and returns what a crawl of the first state returns |
| Audit.CrawlCompleteExactly | backend/app/api/v1/audit.py:10-13 | it returns the whole feed of the first fetch iff no page boundary separates two events of one instant |
| Audit.DistinctTimesSuffice | backend/app/api/v1/audit.py:58-85 | with distinct timestamps it is complete for every limit of at least 1 |
| Audit.CrawlStops | backend/app/api/v1/audit.py:81-85 | it stops by itself even while rows of any age keep arriving |
| Audit.LateCommitsLoseNothing | backend/app/api/v1/audit.py:74-85 | with distinct timestamps it then still returns every event that existed at the first fetch |
| Audit.EveryInstantIsSeen | backend/app/api/v1/audit.py:79-84 | even a split tie never loses an instant altogether |
| Audit.TieSkippedWitness | backend/app/api/v1/audit.py:10-13 | two events of one instant, one per page: the second is never returned |

## Left out

- Money.Quantise: exact real arithmetic before rounding; the 28-digit decimal context is not modelled.
- Budgets.ComputeTimeline: `Upper` folds ASCII letters only, so a code starting with another letter keeps its case.
- Renofond.TwoStageRounding: stated for a horizon of at least one year, which the table's CHECK guarantees (models/object.py:140-143).
- Backup.SelectKeepers: limits are natural numbers; a negative limit would slice from the other end.
- Backup.IncrementalEqualsOneShot: nobody else deletes files between the dumps; the clock advances by a second or more between dumps, years have four digits, and digits in names are ASCII.
- Auth.AuthService.Authenticate: re-hashing an outdated password hash has no effect here; hashes are injective and emails already lower-cased.
- Auth.AuthService.AcceptInvitationRoute: the object membership bound to an invitation is not created.
- AuthLaws.RunKeepsLineage: deactivating an account is a step of its own without a service method; each call is one atomic step with one reading of the clock.
- Procurement.MarketStore.AwardQuote: each call is one atomic step; database interleavings of two awards are not modelled.
- Procurement.MarketStore.UpdateQuote: of the patchable columns only status and amount are kept; dates and notes take part in no rule.
- Procurement.MarketStore.UpdateLot: of the patchable columns only the status is kept. Archiving lots and the supplier steps exist in `Step` only.
- CostItems.CostItemService.CreateCostItem: titles, descriptions, lifespans, warranties, tags and the year-range checks are not part of the model.
- CostItems.CostItemService.UpdateCostItem: the same columns are left out of the patch. Projects are created and deleted in `Step` only.
- CostItems.CostItemService.ReplaceUnits: unit labels and areas are not part of the model; the ids of new units are passed in, fresh.
- CostItems.CostItemService.CreateObjectWithUnits: the single-family check of the request schema (schemas/object.py:73-77) is folded into the call.
- CatalogueLaws.CatalogueStore.CreateCustomCode: the free-text description is not part of a row.
- CatalogueLaws.CustomCodeKeepsAcyclic: that parents exist is taken from the foreign key (`CatalogueRuns.AcyclicExactly` does without).
- Storage.FileStore.StoreUpload: MIME sniffing is a boolean parameter, filename sanitising and disk errors are left out.
- Audit.CrawlSeesFirstFetch: appended events are not older than those already there (`Audit.LateCommitsLoseNothing` does without).
- Lot membership of cost items, exports, digests and PDF layout: copies of the scope factor and the BKP split.
- HTTP routers, cookies, CSRF, mail, scheduling, subprocesses, migrations and the AI client: input and output around the core.
- Project and supplier editing, tags and object memberships: plain create, read, update and delete.
