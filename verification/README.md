# The wallet stores and their schema tools, modelled

The SDK keeps a wallet's leaves and token outputs in MySQL or PostgreSQL. Both stores are
reservation allocators that race against stale refreshes: a pool, reservations with a purpose and
a five-minute timeout, timestamped spent markers, a "last swap completed" time and, for leaves,
the ancestor chain each leaf needs for a unilateral exit. This project models those stores, the
MySQL migration runner and schema rename, and the `sslmode` handling of both connection pools, and
proves what whole runs of them keep.

The tables are maps keyed by tenant and id. An operation is a step on the tables that carries the
clock readings its statements took, so a run is a sequence of steps; the classes in `TreeStore` and
`TokenStore` execute the same operations statement by statement, chunk loops included, and are
proved to make exactly those steps. A transaction that fails leaves the tables as they were.

| file | what it holds |
|---|---|
| `Base.dfy` | options, results, finite sums |
| `TreeTables.dfy`, `TreeOps.dfy` | the leaf store's tables, statements, operations and runs |
| `LeafSelection.dfy`, `SelectionFacts.dfy` | the leaf selection algorithms and what they pick |
| `ExactSearch.dfy`, `FeeSearch.dfy` | when the exact search finds an amount, and an amount with its fee |
| `TreeInvariants.dfy` | what every operation keeps |
| `TreeRefresh.dfy` | what a refresh leaves, swaps against refreshes, spent leaves |
| `GoneReservations.dfy` | finalizing a reservation that is gone |
| `TreeAllocation.dfy`, `ReservationLifetime.dfy` | what a live reservation holds, from the attempt that opens it to its timeout |
| `TreeEffects.dfy` | what each operation on leaves does, row by row |
| `SlimQuery.dfy` | the slim candidate query against the whole pool |
| `TreeBalance.dfy`, `TreeConservation.dfy` | balances and value conservation |
| `ExitChains.dfy` | exit chains to a root |
| `Tenants.dfy` | tenants do not interfere |
| `TreeProgram.dfy`, `TreeProgramOps.dfy`, `WriteLock.dfy` | transactions as statements, and the write-lock protocol |
| `TreeStore.dfy` | the leaf store as it executes |
| `TokenSelection.dfy`, `TokenStrategy.dfy` | selecting token outputs, threaded and re-read, and which outputs a strategy prefers |
| `TokenTables.dfy`, `TokenOps.dfy` | the token store's tables, operations and runs, spent outputs, swaps against refreshes |
| `TokenGrouping.dfy` | reports stored group by group against reports stored in order |
| `TokenClaims.dfy` | what a token reservation holds |
| `TokenEffects.dfy` | what each operation on token outputs does, row by row, and how long a claim lasts |
| `TokenStore.dfy` | the token-output stores as they execute |
| `Migrations.dfy`, `SchemaRename.dfy` | the migration runner and the schema rename |
| `Scanning.dfy`, `Utf8.dfy`, `PostgresSslMode.dfy`, `MysqlSslMode.dfy` | connection strings |
| `QuotedValues.dfy` | quoted values in PostgreSQL connection strings against the `sslmode` scan |

## What the proofs brought out

- The MySQL cleanup of stale reservations reads the clock twice, once to release leaves and once to
  delete reservations (crates/spark-mysql/src/tree_store.rs:2082-2122). A reservation that times out
  between the two readings is deleted under a leaf that still names it: with foreign keys the refresh
  fails, without them the leaf is left dangling. `CleanupDanglesIffTimeoutBetween` gives the exact
  condition, `TimeoutBetweenDangles` a case; PostgreSQL reads one transaction time and never dangles
  (`OneReadingNeverDangles`).
  Properties of runs without foreign keys therefore ask for no such timeout (`LinkedRun`).
- A refresh deletes chains by "not reported" and re-inserts leaves by "not spent". The chains stay
  owned only because a leaf both pooled and marked spent was added after the mark. A clock that goes
  back from one lock holder to the next, as PostgreSQL's transaction time can, breaks that;
  `RefreshStrandsChainsIff` says exactly when chains are stranded, and
  `ClockGoingBackStrandsChains` gives three transactions that do it.
- Finalizing a leaf reservation that is gone is not an error, although the store interface says it
  is (crates/spark/src/tree/mod.rs:693-696): it still deletes leaves that name the reservation,
  without marking them spent and without deleting their chains
  (crates/spark-mysql/src/tree_store.rs:1395-1441). `FinalizeMarksIff` and
  `FinalizeKeepsChainsOwnedIff` say exactly when that loses a marker or strands a chain,
  `FinalizeAfterTimeoutLosesMark` gives a run without foreign keys that does both, and
  `UnmarkedComesBackIff` when the spent leaf is then put back.
- A target that comes to zero and cannot be selected exactly is told to wait even with everything
  available, because the minimum search rejects zero (`ZeroTargetWaits`).
- The token store interface says that targets repeating a token reserve overlapping outputs
  (crates/spark/src/token/mod.rs:288-296). Both SQL stores pick disjoint ones
  (`RepeatedTargetsCovered`).
- An outpoint reported under two tokens need not be stored alike by the two token stores
  (`GroupedStoresDiffer`). They keep the same report exactly when the token of its first report is
  itself reported no later than every other token it is reported under (`GroupedReportsAlikeIff`).
- The comment on the `sslmode` rewrite says that a password holding such text is left untouched
  (crates/spark-postgres/src/pool.rs:287-290). For a key-value string that is so exactly when no
  parameter runs on into the word the scan finds and the word is a parameter's whole text
  (`OthersUntouchedIff`); the scan goes by blanks, so a quoted password with a blank before the
  literal is rewritten inside (`QuotedPasswordRewritten`).
- The aggregate balances and the classified lists disagree by exactly the available rows that name a
  missing reservation (`TreeBalance.BalancesAgreeIff`, `TokenOps.BalancesAgreeIff`).

## Model

| member | source | states |
|---|---|---|
| `WriteLock.EveryInterleavingIsSerial` | crates/spark-mysql/src/tree_store.rs:1075-1100 | every statement-level interleaving of locked operations, by any number of instances and with any of them given up, failed, crashed or rolled back at any statement, leaves the committed tables as a serial run of the whole operations in the order of their commits, with no help from isolation |
| `WriteLock.EveryInterleavingKeepsInv` | crates/spark-mysql/src/tree_store.rs:612-706 | so every interleaving commits a run that asks what its calls asked, and keeps chains owned and reservations linked: always with foreign keys, and without them when no holding reservation times out between the two clock readings of a cleanup |
| `WriteLock.MoveKeepsExclusive` | crates/spark-mysql/src/tree_store.rs:1075-1091 | whoever is past the lock is the one holding it |
| `TreeProgramOps.ProgramDoes` | crates/spark-mysql/src/tree_store.rs:1132-1783 | each transaction taken alone, statement by statement, whatever its chunk sizes and clock readings, does exactly the operation asked for |
| `TreeProgram.PutsUpsert` | crates/spark-mysql/src/tree_store.rs:1804-1883 | for every chunk size the chunked upserts add up to one upsert of the whole list, later duplicates winning, each row stamped by its own chunk |
| `TreeProgram.RowInsertsInsert` | crates/spark-mysql/src/tree_store.rs:1945-1980 | chunked ancestor inserts succeed only when the primary key admits all rows at once, and then insert them all |
| `TreeInvariants.RunKeepsInv` | crates/spark-mysql/src/tree_store.rs:1112-1150 | in every reachable state each chain row belongs to a pooled leaf, no reservation dangles, promoted columns equal the stored node, and a leaf both pooled and marked was added after the mark |
| `TreeInvariants.RefreshedKeepsInv` | crates/spark-mysql/src/tree_store.rs:1223-1298 | a refresh keeps all of this although it deletes chains and re-inserts leaves by different criteria |
| `TreeInvariants.StaleReportedNotSpent` | crates/spark-mysql/src/tree_store.rs:1241-1296 | the leaf of a chain that outlives the deletes is still pooled, or reported and not skipped as spent |
| `TreeInvariants.RefreshStrandsChainsIff` | crates/spark-mysql/src/tree_store.rs:1223-1298 | without the ordering of marks and additions, a refresh strands chains exactly when it reports a leaf it deletes as stale and skips as spent |
| `TreeInvariants.ClockGoingBackStrandsChains` | crates/spark-postgres/src/tree_store.rs:525-540 | a spend, a cancel stamped before it by an earlier transaction start, a stored chain and a refresh in between, after which the chain has no leaf |
| `TreeInvariants.CleanupDanglesIffTimeoutBetween` | crates/spark-mysql/src/tree_store.rs:2082-2122 | the cleanup leaves a dangling leaf exactly when a holding reservation times out between its two clock readings |
| `TreeInvariants.TimeoutBetweenDangles` | crates/spark-mysql/src/tree_store.rs:2082-2122 | a reservation and two readings one microsecond apart for which it does |
| `TreeInvariants.OneReadingNeverDangles` | crates/spark-postgres/src/tree_store.rs:1759-1795 | with one transaction time it never does |
| `TreeRefresh.RefreshExactly` | crates/spark-mysql/src/tree_store.rs:1223-1298 | a refresh that proceeds yields exactly the reserved leaves with their reservation, the unreserved ones added since it began, and the reported ones not recently spent, reported data winning |
| `TreeRefresh.RefreshSkippedIff` | crates/spark-mysql/src/tree_store.rs:1187-1221 | a refresh is skipped exactly when a swap reservation younger than the timeout is active or a swap completed since it began; then only the cleanup happens |
| `TreeRefresh.SwapOutlastsOlderRefreshes` | crates/spark-mysql/src/tree_store.rs:1451-1462 | after a swap is finalized with new leaves, every later refresh, in any run, that began no later does nothing but release timed-out reservations |
| `TreeRefresh.SpentStaysOut` | crates/spark-mysql/src/tree_store.rs:2011-2041 | a leaf spent with no earlier marker stays out in every continuation that does not add it by name and whose refreshes began at or before the spend, or within five minutes after it without listing it |
| `TreeRefresh.SpentComesBackIff` | crates/spark-mysql/src/tree_store.rs:1226-1233 | for one refresh the condition is exact: the leaf comes back when and only when the refresh proceeds, began after the spend and lists it |
| `GoneReservations.FinalizeMarksIff` | crates/spark-mysql/src/tree_store.rs:1395-1441 | a finalize marks every leaf it removes exactly when the reservation is there, or each leaf still naming it and not brought in again carries a marker |
| `GoneReservations.FinalizeKeepsChainsOwnedIff` | crates/spark-mysql/src/tree_store.rs:1395-1441 | it leaves every chain with its leaf exactly when the reservation is there, or no chain belongs to a leaf still naming it and not brought in again |
| `GoneReservations.UnmarkedComesBackIff` | crates/spark-mysql/src/tree_store.rs:1226-1298 | a leaf out of the pool without a marker comes back exactly when a refresh proceeds and lists it, whenever that began |
| `GoneReservations.FinalizeAfterTimeoutLosesMark` | crates/spark-mysql/src/config.rs:7-15 | without foreign keys: a reservation, a cleanup at its timeout and a microsecond later, and the finalize, which leaves the spent leaf unmarked and its chain stranded; the next refresh that lists the leaf, whenever it began, puts it back |
| `Tenants.TenantsDoNotInterfere` | crates/spark-mysql/src/tree_store.rs:160-180 | removing any other tenants' steps from any run leaves a possible run with the same rows, balance, lists, sums and missing chains for a tenant |
| `Tenants.OtherStep` | crates/spark-mysql/src/tree_store.rs:2082-2149 | another tenant's step leaves every row of a tenant as it was |
| `Tenants.OwnStep` | crates/spark-mysql/src/tree_store.rs:1178-1300 | a tenant's step depends on its own rows alone |
| `TreeAllocation.RunKeepsHeld` | crates/spark-mysql/src/tree_store.rs:1982-2009 | in every run where no update is given another reservation's leaves, what a live reservation holds changes only by its own update, cancel, finalize or timeout |
| `TreeAllocation.SelectionTakesUnreserved` | crates/spark-mysql/src/tree_store.rs:1614-1704 | a selection takes unreserved leaves only |
| `TreeAllocation.UpdateTakes` | crates/spark-mysql/src/tree_store.rs:1706-1783 | an update takes from another reservation exactly the leaves it is given |
| `ReservationLifetime.TakenByIdsIff` | crates/spark-mysql/src/tree_store.rs:1614-1651 | by ids an attempt takes all the leaves named, exactly when some are, each once, and each is pooled, available, held by every operator and unreserved |
| `ReservationLifetime.ReservationLasts` | crates/spark-mysql/src/tree_store.rs:2151-2178 | over every run that leaves it alone and ends within five minutes of the attempt that opened it, a reservation is live, with the attempt's purpose and time, and holds exactly the leaves taken |
| `ReservationLifetime.ReservationReleased` | crates/spark-mysql/src/tree_store.rs:2082-2122 | a cleanup that reads the clock more than five minutes after the reservation was opened deletes it and frees the leaves it held, changing nothing else in their rows |
| `ReservationLifetime.ReservationExpires` | crates/spark-mysql/src/tree_store.rs:2082-2122 | so the leaves an attempt took are free again after the first such cleanup |
| `TreeEffects.AddLeavesExactly` | crates/spark-mysql/src/tree_store.rs:1112-1130 | each listed id is pooled with the last listed node and its columns, not missing, under the reservation it had, at its own time and without a marker; every other row, marker and table is as it was |
| `TreeEffects.AddedIsEligible` | crates/spark-mysql/src/tree_store.rs:1112-1130 | an added available leaf no reservation holds can be taken at once |
| `TreeEffects.AddingRaisesBalance` | crates/spark-mysql/src/tree_store.rs:1112-1130 | new available leaves raise the balance by their total |
| `TreeEffects.OlderRefreshKeepsAdded` | crates/spark-mysql/src/tree_store.rs:1241-1262 | a refresh that began no later than the leaf was added does not drop it, reported or not |
| `TreeEffects.ReserveExactly` | crates/spark-mysql/src/tree_store.rs:2151-2178 | an attempt that takes leaves points exactly their rows at a reservation of its purpose and time, with what a minimum selection takes above the target pending, and changes nothing else |
| `TreeEffects.ReserveShiftsTotals` | crates/spark-mysql/src/tree_store.rs:1785-1798 | the spendable total falls by the leaves taken and the pending total grows by the excess |
| `TreeEffects.ClosingShiftsPending` | crates/spark-mysql/src/tree_store.rs:1785-1798 | a cancel, finalize or update takes exactly what was pending with its reservation out of the pending total |
| `TreeEffects.CancelExactly` | crates/spark-mysql/src/tree_store.rs:1302-1368 | kept leaves are stored as last listed, held by no reservation but another one; the others it held go with their chains; the reservation goes; all else stays |
| `TreeEffects.FinalizeExactly` | crates/spark-mysql/src/tree_store.rs:1370-1466 | leaves naming the reservation go and new ones are stored as last listed; with the reservation there the former are marked, older markers keeping their time, lose their chains, and a swap with new leaves is recorded at its time; all else stays |
| `TreeEffects.UpdateExactly` | crates/spark-mysql/src/tree_store.rs:1706-1783 | what the reservation held is spent, change and reserved leaves are stored, reserved winning and under the reservation, which keeps its purpose and time with nothing pending; all else stays |
| `TreeEffects.UpdateNeedsReservation` | crates/spark-mysql/src/tree_store.rs:1706-1783 | without the reservation an update changes nothing |
| `TreeEffects.CleanupExactly` | crates/spark-mysql/src/tree_store.rs:2082-2122 | exactly the leaves of reservations more than five minutes old at the first reading are freed, and exactly the reservations more than five minutes old at the second deleted |
| `TreeEffects.SetLeavesOutcome` | crates/spark-mysql/src/tree_store.rs:1187-1221 | from a reachable state a refresh changes nothing exactly when foreign keys see a holding reservation pass five minutes between the readings, only cleans up when a swap is at most five minutes old or completed since it began, and otherwise cleans up and proceeds |
| `TreeEffects.RefreshedExactly` | crates/spark-mysql/src/tree_store.rs:1223-1298 | every row, chain and marker after a refresh that proceeds: reported leaves not spent since it began are stored as last listed, missing ones winning, other unreserved leaves added before it go, with their chains unless reported, and markers more than five minutes older than its start go |
| `TreeEffects.StoreExactly` | crates/spark-mysql/src/tree_store.rs:1132-1150 | the whole chain of each pooled leaf given a known one is replaced by the ancestors given, and no other chain changes; nothing changes when a leaf is given the same ancestor twice |
| `SlimQuery.SlimSelectsAlike` | crates/spark/src/tree/select_helper.rs:7-81 | exact selection on the slim candidates picks the same leaves as on the whole pool |
| `SlimQuery.SlimDenominationsAlike` | crates/spark/src/tree/select_helper.rs:83-100 | denomination selection succeeds on the slim candidates exactly when it does on the whole pool, and then both find the values asked for, in order |
| `SlimQuery.DenominationsIff` | crates/spark/src/tree/select_helper.rs:83-100 | denominations are selectable exactly when the pool offers each as often as it is wanted |
| `SlimQuery.SlimHoldsEveryChoice` | crates/spark-mysql/src/tree_store.rs:160-180 | every set of eligible leaves summing to no more than the target lies inside the slim candidates, targets beyond the signed column included |
| `SlimQuery.SlimRowsReachIff` | crates/spark-mysql/src/tree_store.rs:1653-1666 | the slim rows total at least the target exactly when the pool does |
| `SlimQuery.SlimDecidesAlike` | crates/spark-mysql/src/tree_store.rs:1469-1595 | a reservation attempt decides on the slim candidates as it would on the whole pool |
| `SlimQuery.SlimRowsDecideForThePool` | crates/spark-mysql/src/tree_store.rs:1469-1612 | for the rows the query returns from any table there is a listing of the whole pool on which the attempt decides the same: the same leaves for an amount and fee or no target, the same success and values for denominations, and no choice within the target that the rows lack |
| `SlimQuery.ReserveOutcomeMeans` | crates/spark-mysql/src/tree_store.rs:1521-1595 | waiting and running short mean what they say about the true sums, in both modes, and available plus pending cannot overflow |
| `SlimQuery.ZeroTargetWaits` | crates/spark-mysql/src/tree_store.rs:1571-1578 | an attempt waits with nothing needed exactly when its target comes to zero and has no exact match; an amount of zero never has one |
| `SelectionFacts.SelectionPicks` | crates/spark/src/tree/select_helper.rs:7-53 | a selection picks from the candidates, none more often than offered, and meets its target: amount and fee each exactly, denominations one by one |
| `SelectionFacts.SelectionTotals` | crates/spark/src/tree/mod.rs:485-493 | what is selected for a target is worth what the target comes to, as long as that fits 64 bits |
| `SelectionFacts.DecisionMeets` | crates/spark-mysql/src/tree_store.rs:1525-1570 | what an attempt decides to reserve: exactly, leaves offered that meet the target; by minimum, the shortest prefix of the rows that reaches it |
| `SelectionFacts.NothingToReserveIff` | crates/spark-mysql/src/tree_store.rs:1529-1538 | an attempt finds nothing reservable exactly when it asks for everything and there is nothing, or for no denominations |
| `SelectionFacts.MinPrefixPicks` | crates/spark/src/tree/select_helper.rs:102-128 | the minimum selection is the shortest prefix that reaches the target |
| `ExactSearch.ExactFinds` | crates/spark/src/tree/select_helper.rs:148-200 | whenever some choice of candidates worth powers of two totals an amount, the exact search finds leaves for it, whatever else is among them |
| `ExactSearch.ExactIff` | crates/spark/src/tree/select_helper.rs:57-81 | on a pool of powers of two it succeeds exactly when the amount is not zero and some choice totals it |
| `ExactSearch.ExactSingleAndErrors` | crates/spark/src/tree/select_helper.rs:57-81 | a leaf worth the amount is picked alone; zero and an amount above the pool's total each give their own error, and only they do |
| `ExactSearch.PowersAre` | crates/spark/src/tree/select_helper.rs:140-143 | the test for powers of two finds exactly them |
| `ExactSearch.ReservesExactly` | crates/spark-mysql/src/tree_store.rs:1521-1547 | an attempt for an amount that eligible leaves worth powers of two total decides on an exact reservation, neither over-reserving nor waiting |
| `FeeSearch.FeeIff` | crates/spark/src/tree/select_helper.rs:7-53 | on a pool of powers of two an amount and a fee are both found exactly when neither is zero and the pool holds a choice for each with no leaf in both |
| `TreeBalance.BalancesAgreeIff` | crates/spark-mysql/src/tree_store.rs:494-516 | the aggregate balance equals the lists' exactly when the available leaves naming a missing reservation are worth nothing |
| `TreeBalance.ListsMean` | crates/spark-mysql/src/tree_store.rs:559-610 | in a reachable state the available list is exactly what a reservation may take, and the others are the unavailable, the missing and each kind of reserved leaves |
| `TreeBalance.ReachableBalancesAgree` | crates/spark-mysql/src/tree_store.rs:559-610 | in every reachable state they agree |
| `TreeBalance.FairSwapKeepsBalance` | crates/spark-mysql/src/tree_store.rs:1370-1466 | a finalized swap keeps the balance exactly when its new leaves total what it held |
| `TreeBalance.ReserveShiftsBalance` | crates/spark-mysql/src/tree_store.rs:2151-2178 | a reservation costs the balance its leaves' value for a payment and nothing for a swap |
| `TreeConservation.ReserveThenCancelRestores` | crates/spark-mysql/src/tree_store.rs:1302-1368 | reserving, by target or by ids, and cancelling with everything kept restores every row but its added time, hence the spendable set and the balance |
| `TreeConservation.SamePoolSameFunds` | crates/spark-mysql/src/tree_store.rs:494-516 | pools alike but for added times have the same spendable leaves, total and balance |
| `TreeConservation.OverReservedPaymentCostsTarget` | crates/spark-mysql/src/tree_store.rs:1548-1570 | an over-reserved payment, updated into reserved leaves and the pending change and then finalized, lowers the balance by exactly the target |
| `ExitChains.NotMissingIffExitable` | crates/spark-mysql/src/tree_store.rs:410-433 | after any run storing rooted chains, a leaf is not reported as missing its chain exactly when it is a root or its own rows lead from its current parent to a root |
| `ExitChains.StoringKeepsRooted` | crates/spark-mysql/src/tree_store.rs:1885-1930 | replacing a leaf's chain wholesale keeps every stored row on a path to a root |
| `ExitChains.StepDropsWholeChains` | crates/spark-mysql/src/tree_store.rs:1244-1281 | chains only ever leave the store leaf by leaf |
| `TreeStore.Database.Exec` | crates/spark-mysql/src/tree_store.rs:1811-1883 | one statement at the server's own time; one that fails changes nothing |
| `TreeStore.MysqlTreeStore.SetLeaves` | crates/spark-mysql/src/tree_store.rs:1178-1300 | the refresh transaction makes exactly the refresh step, fails only on the foreign key and then changes nothing |
| `TreeStore.MysqlTreeStore.RemoveStale` | crates/spark-mysql/src/tree_store.rs:1241-1281 | stale leaves go, and the chains of those that stay away |
| `TreeStore.MysqlTreeStore.BatchUpsertLeaves` | crates/spark-mysql/src/tree_store.rs:1804-1883 | the filtered list is upserted whole, chunk by chunk, each added time within the call |
| `TreeStore.MysqlTreeStore.CleanupStaleReservations` | crates/spark-mysql/src/tree_store.rs:2082-2122 | releases and deletes at two clock readings, failing exactly when the foreign key objects |
| `TreeStore.MysqlTreeStore.FinalizeReservation` | crates/spark-mysql/src/tree_store.rs:1370-1466 | succeeds whether or not the reservation is there, and marks, removes and replaces exactly as the finalize step says |
| `TreeStore.MysqlTreeStore.CancelReservation` | crates/spark-mysql/src/tree_store.rs:1302-1368 | returns the kept leaves and drops the others with their chains, as the cancel step says |
| `TreeStore.MysqlTreeStore.UpdateReservation` | crates/spark-mysql/src/tree_store.rs:1706-1783 | fails exactly when the reservation is gone, otherwise makes the update step |
| `TreeStore.MysqlTreeStore.TryReserveLeaves` | crates/spark-mysql/src/tree_store.rs:1469-1612 | makes exactly the reservation step on the sums and slim rows read, and returns the leaves reserved; what the step decides and writes is said by `ReserveOutcomeMeans`, `ReservesExactly`, `FeeIff` and `ReserveExactly` |
| `TreeStore.MysqlTreeStore.TryReserveLeavesByIds` | crates/spark-mysql/src/tree_store.rs:1614-1651 | makes exactly the step that reserves the named leaves at its own time, or nothing unless each is eligible and named once; `ReserveExactly` and `ReservationLasts` say what it writes and how long that lasts |
| `TreeStore.MysqlTreeStore.SlimCandidates` | crates/spark-mysql/src/tree_store.rs:160-180 | lists every eligible leaf up to the bound and the smallest one above it, each once |
| `TreeStore.MysqlTreeStore.SmallestAbove` | crates/spark-mysql/src/tree_store.rs:168-178 | the smallest eligible leaf above the bound, if any |
| `TreeStore.MysqlTreeStore.StoreAncestors` | crates/spark-mysql/src/tree_store.rs:1132-1150 | stores the chains of pooled leaves, or nothing when a key repeats |
| `TreeStore.MysqlTreeStore.BatchInsertAncestors` | crates/spark-mysql/src/tree_store.rs:1945-1980 | succeeds exactly when no row's key repeats or exists |
| `TreeStore.MysqlTreeStore.AddLeaves` | crates/spark-mysql/src/tree_store.rs:1112-1130 | makes exactly the step that clears the markers and upserts the leaves, which `AddLeavesExactly` spells out row by row |
| `TreeStore.MysqlTreeStore.GetLeaves` | crates/spark-mysql/src/tree_store.rs:559-610 | the five lists hold each class's leaves and total its value; their balance is the lists' balance |
| `TreeStore.MysqlTreeStore.GetAvailableBalance` | crates/spark-mysql/src/tree_store.rs:494-516 | the aggregate sum read back as unsigned, or a failure exactly when it does not fit the signed column |
| `TokenSelection.SelectFromMeets` | crates/spark/src/token/mod.rs:189-245 | a value target is covered exactly when the candidates total it; the choice comes from them, none twice, and meets the target |
| `TokenStrategy.SelectFromFollows` | crates/spark/src/token/mod.rs:189-245 | an output of exactly the value asked is picked alone; otherwise no output passed over is strictly smaller than a picked one, or larger when the largest go first, the picks are in that order, and no fewer of them reach the value |
| `TokenStrategy.ReReadFollows` | crates/spark-mysql/src/token_store.rs:1071-1118 | for every list of targets each pick follows the strategy among the outputs of its token that are preferred and not taken before |
| `TokenStrategy.ReReadFailsIff` | crates/spark-mysql/src/token_store.rs:1071-1118 | a list of targets fails exactly when, for some value target, what the targets before it left of its token is worth less than it asks, and the error names that token |
| `TokenSelection.SelectionsAgree` | crates/spark-postgres/src/token_store.rs:1160-1255 | threading leftovers and re-reading minus the taken succeed on the same targets and pick the same outputs, target by target |
| `TokenSelection.PicksAreGood` | crates/spark-mysql/src/token_store.rs:1071-1118 | picks of different targets are disjoint, of the right token, preferred and available |
| `TokenSelection.RepeatedTargetsCovered` | crates/spark-mysql/src/token_store.rs:1071-1118 | targets repeated for a token are covered in sum, no output counting twice |
| `TokenStore.MysqlTokenStore.SelectForTargets` | crates/spark-mysql/src/token_store.rs:1071-1118 | succeeds exactly when every token is known and every target can be covered, and picks what re-reading picks, target by target as `ReReadFollows` says the strategy prefers |
| `TokenStore.PostgresTokenStore.SelectForTargets` | crates/spark-postgres/src/token_store.rs:1160-1255 | the same contract for the threaded selection |
| `TokenStore.PostgresTokenStore.ThreadTargets` | crates/spark-postgres/src/token_store.rs:1216-1249 | the loop over the targets computes the threaded selection |
| `TokenStore.GroupOutputsByToken` | crates/spark-postgres/src/token_store.rs:1547-1560 | groups in first-seen order |
| `TokenGrouping.GroupingKeepsOrder` | crates/spark-postgres/src/token_store.rs:1547-1560 | grouping makes one group per token in first-seen order and keeps each token's outputs, all of them and in order |
| `TokenGrouping.GroupedReportsAlikeIff` | crates/spark-postgres/src/token_store.rs:451-468 | stored group by group or in list order, the same report of an outpoint is kept exactly when the token of its first report is reported no later than every other token it is reported under |
| `TokenGrouping.GroupedStoresAlikeIff` | crates/spark-postgres/src/token_store.rs:451-468 | so the two stores leave the same row exactly then, or when the row is there already, is skipped, or nothing reports it with metadata |
| `TokenGrouping.GroupedStoresAlike` | crates/spark-postgres/src/token_store.rs:451-468 | in particular they agree when no outpoint has two tokens |
| `TokenGrouping.GroupedStoresDiffer` | crates/spark-postgres/src/token_store.rs:451-468 | three reports for which they differ |
| `TokenTables.RefreshExactly` | crates/spark-mysql/src/token_store.rs:845-1058 | every row after a refresh; a reservation that held outputs survives exactly when one is still reported, an empty one exactly when none lost a part |
| `TokenTables.RefreshPartition` | crates/spark-mysql/src/token_store.rs:896-1057 | a surviving reservation keeps exactly its reported outputs; the available set is exactly what was reported with metadata, less reserved and recently spent, plus the unreserved added since the start |
| `TokenTables.RefreshMetadata` | crates/spark-mysql/src/token_store.rs:1026-1057 | exactly which metadata a refresh leaves, the reported one winning |
| `TokenStore.MysqlTokenStore.SetTokensOutputs` | crates/spark-mysql/src/token_store.rs:845-1065 | the refresh transaction makes exactly the refresh step; failed or skipped, it changes nothing, its own cleanup included |
| `TokenStore.MysqlTokenStore.Reconcile` | crates/spark-mysql/src/token_store.rs:910-1014 | the loops over the reserved outputs reconcile the reservations |
| `TokenStore.MysqlTokenStore.FindUnreported` | crates/spark-mysql/src/token_store.rs:923-945 | which reservations are deleted and which outputs removed |
| `TokenStore.MysqlTokenStore.StoreOutputs` | crates/spark-mysql/src/token_store.rs:1038-1057 | metadata once per token, outputs in order, rows already there kept |
| `TokenStore.MysqlTokenStore.ReserveTokenOutputs` | crates/spark-mysql/src/token_store.rs:512-539 | claims, all or nothing, available outputs covering every target, each once |
| `TokenStore.MysqlTokenStore.ReserveTokenOutputsByOutpoints` | crates/spark-mysql/src/token_store.rs:1193-1262 | reserves exactly the named outputs, or nothing unless all are available and their tokens known |
| `TokenStore.MysqlTokenStore.FinalizeReservation` | crates/spark-mysql/src/token_store.rs:1413-1507 | marks and removes what the reservation held; a missing one is left alone |
| `TokenStore.MysqlTokenStore.CancelReservation` | crates/spark-mysql/src/token_store.rs:1308-1331 | releases the outputs and drops the reservation |
| `TokenStore.MysqlTokenStore.UpdateTokenOutputs` | crates/spark-mysql/src/token_store.rs:1334-1411 | makes exactly the update step, which `TokenEffects.UpdateExactly` spells out row by row: it removes and marks what was there, then adds what comes with metadata and clears its markers |
| `TokenStore.ValidateTargets` | crates/spark-mysql/src/token_store.rs:1741-1760 | accepts exactly the lists in which no target is zero |
| `TokenOps.RunKeepsInv` | crates/spark-mysql/src/token_store.rs:1583-1621 | in every reachable state no output names a missing reservation, and every output's token has metadata |
| `TokenOps.CleanupDanglesIffTimeoutBetween` | crates/spark-mysql/src/token_store.rs:1583-1621 | the token cleanup dangles exactly when a holding reservation times out between its two clock readings |
| `TokenOps.BalancesAgreeIff` | crates/spark-mysql/src/token_store.rs:317-357 | a token's two balances agree exactly when its outputs naming a missing reservation are worth nothing |
| `TokenOps.ReachableBalancesAgree` | crates/spark-mysql/src/token_store.rs:359-424 | in every reachable state they agree |
| `TokenOps.SpentStaysOut` | crates/spark/src/token/mod.rs:276-280 | an output spent by a finalize or removed by an update, with no earlier marker, stays out in every continuation that does not add it by name and whose refreshes began at or before the spend, or within five minutes after it without reporting it |
| `TokenOps.SpentComesBackIff` | crates/spark-mysql/src/token_store.rs:884-902 | for one refresh the condition is exact |
| `TokenOps.SwapOutlastsOlderRefreshes` | crates/spark-mysql/src/token_store.rs:855-882 | after a swap claim is finalized, every later refresh, in any run, that began no later does not proceed and changes nothing |
| `TokenOps.ClaimThenCancelRestores` | crates/spark-mysql/src/token_store.rs:1267-1331 | a claim leaves other reservations alone and cancelling it restores the tables |
| `TokenClaims.RunKeepsClaim` | crates/spark-mysql/src/token_store.rs:910-1014 | in every run that does not cancel or finalize it or outlast its timeout, a reservation ends with exactly those of its rows that every refresh that proceeded reported and no update removed, as long as one is left |
| `TokenClaims.AllLeft` | crates/spark-mysql/src/token_store.rs:910-1014 | all of them when every refresh reports them and no update removes one |
| `TokenClaims.NoDoubleClaim` | crates/spark-mysql/src/token_store.rs:512-539 | and no claim made after such a run takes any of them |
| `TokenEffects.UpdateExactly` | crates/spark-mysql/src/token_store.rs:1334-1411 | rows not removed stay; otherwise the first listed output of an outpoint that comes with metadata is there, unreserved, unmarked and at its time, and without one there is none; removed ones are marked, older markers keeping their time; listed metadata wins; reservations stay |
| `TokenEffects.UpdateShiftsBalance` | crates/spark-mysql/src/token_store.rs:1334-1411 | a token's balance changes by what is added of it less what was counted and removed |
| `TokenEffects.ClaimExactly` | crates/spark-mysql/src/token_store.rs:1267-1306 | a claim points exactly the outputs it names at a reservation of its purpose and time |
| `TokenEffects.ClaimLasts` | crates/spark-mysql/src/token_store.rs:1267-1306 | over every run that neither cancels nor finalizes it and ends within five minutes of it, a claim is there with its purpose and time, and holds of its outputs exactly those that every refresh that proceeded reported and no update removed, as long as one is left |
| `TokenEffects.ClaimReleased` | crates/spark-mysql/src/token_store.rs:1583-1621 | a cleanup that reads the clock more than five minutes after the claim deletes it and frees what it still holds |
| `TokenEffects.ClaimExpires` | crates/spark-mysql/src/token_store.rs:1583-1621 | so what such a run left of a claim is available after the first such cleanup |
| `TokenEffects.CancelExactly` | crates/spark-mysql/src/token_store.rs:1308-1331 | exactly the outputs held are freed and the reservation deleted |
| `TokenEffects.FinalizeExactly` | crates/spark-mysql/src/token_store.rs:1413-1507 | exactly the outputs held go and are marked, older markers keeping their time, a swap is recorded, and the metadata of tokens still held stays; a missing reservation changes nothing |
| `TokenEffects.CleanupExactly` | crates/spark-mysql/src/token_store.rs:1583-1621 | exactly what reservations more than five minutes old hold is freed, and exactly those reservations are deleted |
| `TokenEffects.SetOutputsOutcome` | crates/spark-mysql/src/token_store.rs:845-882 | a refresh changes nothing when foreign keys see a holding reservation pass five minutes between the readings, or a swap is at most five minutes old or completed since it began, and otherwise proceeds |
| `TokenEffects.RefreshedStores` | crates/spark-mysql/src/token_store.rs:884-1057 | reported reserved rows and younger unreserved ones stay, the first listed output of every other outpoint not marked since the start is stored, all other rows go, and so do markers more than five minutes older than the start |
| `Migrations.CrashesDoNotMatter` | crates/spark-mysql/src/migrations.rs:328-387 | for every list of guarded migrations, start schema and number of crashes at any statement with version rows lagging, the completing run gives the schema of one uninterrupted run, and a further run from any version since the start changes nothing |
| `Migrations.ReplayEndsTheSame` | crates/spark-mysql/src/migrations.rs:392-499 | replaying from any point within an applied prefix ends in the same schema |
| `Migrations.StepsTwice` | crates/spark-mysql/src/migrations.rs:392-499 | a list of guarded steps is idempotent |
| `Migrations.CrashKeepsDestination` | crates/spark-mysql/src/migrations.rs:328-387 | a crash does not change where the next complete run ends |
| `Migrations.LastStepDecides` | crates/spark-mysql/src/migrations.rs:392-499 | the last step on an object decides: dropped it is gone, added it is there, with the step's definition unless one was there already |
| `Migrations.MigrationDatabase.RunMigrations` | crates/spark-mysql/src/migrations.rs:328-387 | it completes exactly when the statements left cover the steps that act and the version rows; completed, it reaches the destination and the last version, dead, it leaves a crashed attempt below the last version |
| `Migrations.MigrationDatabase.RunGuarded` | crates/spark-mysql/src/migrations.rs:392-499 | one guarded step, dying exactly when no statement is left and one is needed |
| `SchemaRename.ManyCrashes` | crates/spark-mysql/src/migrations.rs:190-255 | any number of attempts dying anywhere, then one completed, end like one uninterrupted rename; exactly one tracker exists throughout |
| `SchemaRename.CrashAndReplay` | crates/spark-mysql/src/migrations.rs:190-255 | one crash and replay; a finished rename never acts again |
| `SchemaRename.ContentsPreserved` | crates/spark-mysql/src/migrations.rs:200-252 | every table's rows survive under their destination name, the version history under the new tracker |
| `SchemaRename.TableGetsNewName` | crates/spark-mysql/src/migrations.rs:201-210 | a table whose old name is there and new name free ends up under the new name |
| `SchemaRename.IndexGetsNewName` | crates/spark-mysql/src/migrations.rs:212-222 | after any attempts and a completed one, an index whose new name was free is under it alone, with what it was, on the table's new name |
| `SchemaRename.ForeignKeyGetsNewName` | crates/spark-mysql/src/migrations.rs:224-241 | likewise a foreign key, with its listed definition |
| `SchemaRename.OnlyTheOldTables` | crates/spark-mysql/src/migrations.rs:201-210 | no table appears from nowhere and no two end up under one name |
| `SchemaRename.SchemaDatabase.ApplyRenames` | crates/spark-mysql/src/migrations.rs:190-255 | the three loops and the tracker last complete exactly when the statements left cover the renames that act, and otherwise leave an attempt |
| `SchemaRename.SchemaDatabase.PrepareTracker` | crates/spark-mysql/src/migrations.rs:334-358 | rename, then create the tracker if missing: completing exactly when the statements left cover both, and the two trackers never coexist |
| `PostgresSslMode.SslModeParamRange` | crates/spark-postgres/src/pool.rs:313-343 | offsets and text searches find the first `sslmode` parameter, in bytes |
| `PostgresSslMode.RangeIsParsed` | crates/spark-postgres/src/pool.rs:244-285 | the range is exactly the parameter the parser read, and there is one exactly when it read one |
| `PostgresSslMode.RewriteKeepsTheRest` | crates/spark-postgres/src/pool.rs:291-307 | rewriting keeps all other text, puts the new parameter where the old one was, and re-parses as Require |
| `PostgresSslMode.RewriteKeepsTheBytes` | crates/spark-postgres/src/pool.rs:291-307 | in the UTF-8 encoding the bytes before and behind the reported range are kept, and only those within it replaced |
| `QuotedValues.OthersUntouchedIff` | crates/spark-postgres/src/pool.rs:287-307 | rewriting a key-value string replaces one parameter, read with its quotes and escapes, and leaves every other as it was, exactly when no parameter that begins before the word found runs on into it and the word is its parameter's whole text |
| `QuotedValues.QuotedPasswordRewritten` | crates/spark-postgres/src/pool.rs:287-307 | a quoted password with a blank before an `sslmode` literal, which is rewritten inside |
| `PostgresSslMode.NoRewriteNoChange` | crates/spark-postgres/src/pool.rs:291-302 | otherwise the string is handed on as it is |
| `PostgresSslMode.ParseSslMode` | crates/spark-postgres/src/pool.rs:244-285 | the mode of the first `sslmode` parameter, Prefer without one, an error for anything else |
| `PostgresSslMode.ModeIsNamed` | crates/spark-postgres/src/pool.rs:245-263 | a value selects a mode exactly when, unquoted, it is that mode's name |
| `PostgresSslMode.ModeIsQuoted` | crates/spark-postgres/src/pool.rs:245-263 | a value selects a mode exactly when it is that mode's name with any number of quotes on either side |
| `PostgresSslMode.DriverConnectionString` | crates/spark-postgres/src/pool.rs:291-307 | the rewritten string |
| `Scanning.WordsAre` | crates/spark-postgres/src/pool.rs:275-283 | reading by blanks gives exactly the words of the text, each ended by a blank or the end, with nothing but blanks around them |
| `Scanning.LocateWord` | crates/spark-postgres/src/pool.rs:328-341 | the first wanted word's own place, in any unit that adds up |
| `Scanning.LocateAmong` | crates/spark-postgres/src/pool.rs:328-341 | searching each word's text from the end of the one before finds the first wanted word's place |
| `Scanning.LocatePiece` | crates/spark-postgres/src/pool.rs:314-326 | adding up sizes and separators finds the piece's own place |
| `Scanning.FindsFirstWord` | crates/spark-postgres/src/pool.rs:329-333 | a word's text cannot occur earlier than the word |
| `MysqlSslMode.ConnectionStringAndSslMode` | crates/spark-mysql/src/pool.rs:149-178 | the loop retains every other parameter and reports the last mode |
| `MysqlSslMode.StripKeepsTheRest` | crates/spark-mysql/src/pool.rs:149-178 | every other parameter is kept in order, and stripping again changes nothing and finds no mode |
| `MysqlSslMode.RefusedIff` | crates/spark-mysql/src/pool.rs:149-195 | a connection string is refused exactly when it has a query and one of its mode parameters is not a mode |
| `MysqlSslMode.LastOneIsReported` | crates/spark-mysql/src/pool.rs:149-178 | what is reported is what the last mode parameter says, or that there is none |
| `MysqlSslMode.ModeIsNamed` | crates/spark-mysql/src/pool.rs:180-195 | a value selects a mode exactly when it spells one of the mode's names, in any case |

## Left out

- Interleavings of `add_leaves`, which takes no lock: it is one atomic step of a run, and not part of
  the lock protocol.
- The write lock of the token store and of PostgreSQL: the protocol is modelled for the MySQL leaf
  store; lock timeouts are instances giving up, lock-name hashing is not modelled.
- Tenants in the token store: its tables are those of one tenant.
- The PostgreSQL leaf store as its own class. Its clock is that of the transaction, which the lemmas
  on one reading and on a clock going back cover; its upsert of a chunk is one statement over the
  whole chunk (crates/spark-postgres/src/tree_store.rs:1417-1441) and fails when the chunk names an
  id twice, where MySQL keeps the last.
- Server behaviour: the clock never goes back, ties allowed; times are whole microseconds; new
  reservation ids are fresh; rows come back in any order, but in the same order within one token
  transaction.
- Amounts at or above 2^63: leaf values are stored in a signed column, so the statements on sums ask
  for values below 2^63 and for sums that fit the column; sums inside the selection helpers and of
  token amounts are unbounded.
- The numeric cast of a token output's index to a signed column, which is a bijection.
- JSON and public-key columns, which no query looks at: they are one opaque field.
- Raw SQL migrations and the concrete schema lists, whose meaning is the SQL engine's.
- Index and foreign-key renames on the migration trackers themselves: the statements on them ask for
  another table.
- The driver's own code for reading a connection string: parameters are read by the documented rules,
  and neither what the driver makes of a malformed string nor how the pool compares the driver's mode
  with its own is modelled.
- `assemble_exit_chains`, in-memory stores, sessions, caches, configuration, TLS verifiers, pool
  options, error mapping and wallet flows.
