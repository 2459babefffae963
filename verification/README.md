# simplebank transfer core, modelled in Dafny

This project models the transactional core of the simplebank ledger service
(`db/sqlc`). That core has three parts:

- **The generated queries.** AddAccountBalance, CreateAccount, CreateEntry,
  CreateTransfer, DeleteAccount, GetAccount, GetAccountForUpdate, GetEntry,
  GetTransfer, ListAccounts, UpdateAccount and UpdateAccountBalance. Each is a
  pure function of an immutable database state.
- **The transaction wrapper `execTx`.**
- **The money transfer.** This covers `TransferTx` and its helper `AddMoney`.

A transfer records a transfer row and two entries. It then updates both
balances, lower account id first, all inside one transaction.

The database state (`Queries.State`) holds:

- the accounts table, keyed by id;
- the entries and transfers tables, in insertion order;
- the next value of the id sequence;
- a lock log. This lists the account rows that row-locking statements of
  committed transactions have locked, in the order they locked them. A failed
  transaction rolls back to the pre-state, so its locks leave no trace here.

Any statement may fail in the real system: bigint overflow, a foreign-key
violation, a lost connection or a cancelled context. The model gives each
statement an explicit `Fault` argument instead. `Some(e)` makes that statement
fail with `e` and change nothing. BEGIN, COMMIT and ROLLBACK get the same
treatment (`Store.TxFaults`).

Modules:

- `Wrappers`: `Option`, `Result` (usable with `:-`), and the substring
  predicate `Contains`.
- `Queries`: the row model, the invariant `Valid` and the twelve queries.
  Also the id ordering and paging behind ListAccounts, and the round-trip
  lemmas between queries.
- `Balances`: the total of all balances and the per-account sum of posted
  entries, used to state that money is conserved.
- `Store`:
  - `ExecTx`, which is atomic: every failure leaves the pre-state;
  - `AddMoney` and `TransferTx` as the code is written;
  - their properties;
  - `TransferTxCorrected`, the variant with the result roles restored (see
    Findings).
- `Scenarios`: transfers run one after another, as the two transfer tests run
  them:
  - `n` transfers in one direction;
  - an even number of transfers alternating direction.

  The three generic run lemmas `Scenarios.RunRepeated`,
  `Scenarios.RunRepeatedReports` and `Scenarios.RunAlternating` are proved for
  any step that commits cleanly (`Scenarios.CommitsCleanly`). Both the
  as-written and the corrected transfer are shown to be such steps. The
  concrete scenario lemmas and the runs with injected failures
  (`Scenarios.RunRequests`) use the as-written transfer.

## Model

| member | source | states |
|---|---|---|
| `Queries.AddAccountBalance` | db/sqlc/account.sql.go:11-35 | Injected fault: fails with that error. Missing id: fails with `sql: no rows in result set`. Otherwise: the returned row is the stored row with `amount` added; only that account changes; the ledger is untouched; the row is locked; the store stays valid. |
| `Queries.CreateAccount` | db/sqlc/account.sql.go:37-65 | Fails only on an injected fault. Otherwise: inserts a row with the given owner and balance under an id that is not yet used; leaves the other tables alone; keeps the store valid. |
| `Queries.CreateEntry` | db/sqlc/account.sql.go:67-91 | Fails only on an injected fault. Otherwise: appends exactly one entry carrying the given account and amount, under a fresh id; changes nothing else; keeps the store valid. |
| `Queries.CreateTransfer` | db/sqlc/account.sql.go:93-120 | Fails only on an injected fault. Otherwise: appends exactly one transfer carrying the given from, to and amount, under a fresh id; changes nothing else; keeps the store valid. |
| `Queries.DeleteAccount` | db/sqlc/account.sql.go:122-129 | An exec query: succeeds without a fault even when the id is missing. Removes exactly that account and keeps every other row. Locks the row only when it existed. |
| `Queries.GetAccount` | db/sqlc/account.sql.go:131-148 | Succeeds iff the id is stored and no fault is injected. Otherwise the error is the fault or `ErrNoRows`. The row returned is the stored one with that id. |
| `Queries.GetAccountForUpdate` | db/sqlc/account.sql.go:150-168 | Succeeds iff the id is stored and no fault is injected; otherwise the error is the fault or `ErrNoRows`. The row returned is the stored row under that id, and in a valid store its id is that id. The only state change is a lock on that row, and the store stays valid. |
| `Queries.GetEntry` | db/sqlc/account.sql.go:170-185 | Succeeds iff some stored entry has the id and no fault is injected. The result is a stored entry with that id; otherwise the error is `ErrNoRows`. |
| `Queries.GetTransfer` | db/sqlc/account.sql.go:187-203 | Succeeds iff some stored transfer has the id and no fault is injected. The result is a stored transfer with that id; otherwise the error is `ErrNoRows`. |
| `Queries.SortedIds` | db/sqlc/account.sql.go:205-209 | `ORDER BY id`. Lists every account id exactly once, strictly ascending; the i-th id is the one with exactly i smaller ids. |
| `Queries.PageOfSortedIds` | db/sqlc/account.sql.go:205-209 | `LIMIT`/`OFFSET` over the ordered ids: the page holds exactly the stored rows whose rank lies in `[offset, offset+limit)`, ascending. |
| `Queries.ListAccounts` | db/sqlc/account.sql.go:205-245 | Fails iff there is a fault, a negative LIMIT or a negative OFFSET; the fault wins, then a negative OFFSET, then a negative LIMIT. Otherwise returns at most `limit` stored rows in strictly ascending id order, after skipping `offset` rows. Every account whose rank falls in that window is included. |
| `Queries.UpdateAccount` | db/sqlc/account.sql.go:247-271 | Missing id: fails with `ErrNoRows`. Otherwise the balance is overwritten with the argument, id and owner are kept, every other account is unchanged, the row is locked and the store stays valid. |
| `Queries.UpdateAccountBalance` | db/sqlc/account.sql.go:273-297 | Injected fault: fails with that error. Missing id: fails with `ErrNoRows`. Otherwise: the returned row is the stored row with the argument added; only that account changes; the ledger is untouched; the row is locked; the store stays valid. |
| `Queries.UpdateAccountBalanceIsAdd` | db/sqlc/account.sql.go:273-297 | UpdateAccountBalance runs the same statement as AddAccountBalance; only the SQL placeholders are bound the other way round. AddAccountBalance binds the amount to `$1` and the id to `$2`; UpdateAccountBalance binds the id to `$1` and the amount to `$2`. For every input both return the same result and the same state. |
| `Queries.UpdateAccountIdempotent` | db/sqlc/account.sql.go:247-271 | Repeating a successful UpdateAccount returns the same row and leaves the same accounts. |
| `Queries.GetAccountForUpdateAgrees` | db/sqlc/account.sql.go:150-168 | The locking read and the plain read succeed or fail together, with the same error or the same row; the locking read leaves accounts and ledger as they were. |
| `Queries.GetEntryReturnsStored` | db/sqlc/account.sql.go:170-185 | In a valid store, looking up the id of the i-th stored entry returns exactly that entry. |
| `Queries.GetTransferReturnsStored` | db/sqlc/account.sql.go:187-203 | In a valid store, looking up the id of the i-th stored transfer returns exactly that transfer. |
| `Queries.CreateAccountThenGet` | db/sqlc/account.sql.go:37-65 | Round trip: GetAccount on the new id returns the row CreateAccount returned. |
| `Queries.CreateEntryThenGet` | db/sqlc/account.sql.go:67-91 | Round trip: CreateEntry succeeds without a fault, and GetEntry on the new id returns the row it stored. |
| `Queries.CreateTransferThenGet` | db/sqlc/account.sql.go:93-120 | Round trip: CreateTransfer succeeds without a fault, and GetTransfer on the new id returns the row it stored. |
| `Queries.DeleteThenGet` | db/sqlc/account.sql.go:122-129 | After DeleteAccount, GetAccount on that id fails with `ErrNoRows`, and every other id reads exactly as before. |
| `Store.ExecTx` | db/sqlc/store.go:25-40 | Commits the unit of work's state iff BEGIN, the work and COMMIT all succeed. Any failure returns the pre-state. The error is BEGIN's error, else the work's error (wrapped when ROLLBACK fails), else COMMIT's error. |
| `Store.ExecTxBeginFailure` | db/sqlc/store.go:26-29 | When BEGIN fails, the unit of work never runs: two different units give the same outcome, BEGIN's error with the state unchanged. |
| `Store.ExecTxRollback` | db/sqlc/store.go:31-37 | A failed unit of work is rolled back. After a clean rollback its own error is returned unchanged; after a failed rollback the error contains both messages. |
| `Store.RollbackErrorCarriesBoth` | db/sqlc/store.go:33-35 | The `tx err: …, rb err: …` message contains the original error and the rollback error as substrings. |
| `Store.AddMoney` | db/sqlc/store.go:133-151 | Applies two balance deltas in order. It stops at the first failure, so a failed first update never runs the second. If the first update succeeds and the second fails, the error is the second update's: its fault, or no-rows for a missing id. On success the first returned row is the full stored row (id, owner) with its delta applied, and the second is the row as finally stored. Only those balances change, and the two rows are locked in order. |
| `Store.RecordTransfer` | db/sqlc/store.go:67-93 | Steps 1–3 of a transfer. Writes a transfer row equal to the request, then entries of `-amount` for the source and `+amount` for the destination, under increasing fresh ids. The error is that of the first failing insert. |
| `Store.MoveMoney` | db/sqlc/store.go:113-126 | Updates the lower id first. Fails with the first update's error (or no-rows for the lower id), else with the second's. On success each balance changes by its net amount and the rows are locked lower id, then higher. The first row returned is the full lower-id row (id, owner) after its own delta, and the second is the higher-id row as finally stored. |
| `Store.TransferWork` | db/sqlc/store.go:64-129 | The unit of work. Fails exactly at the first failing statement, with its error. On success it produces the records, balances and lock order described by `Transferred`, and keeps the store valid. It reports as `fromAccount` the full lower-id row (id, owner) after its own delta, and as `toAccount` the higher-id row as finally stored. |
| `Store.TransferTx` | db/sqlc/store.go:62-131 | Atomic: an error leaves the pre-state. Commits iff BEGIN, every statement and COMMIT succeed; the effects are then those of `Transferred`, and the store stays valid. |
| `Store.TransferTxError` | db/sqlc/store.go:62-131 | The error returned is BEGIN's error, else the first failing statement's error (combined with ROLLBACK's when that fails too), else COMMIT's error. |
| `Store.TransferTxFailureDependsOnFirst` | db/sqlc/store.go:64-129 | Faults of statements after the first failing one do not change the outcome: those statements never run. |
| `Store.SecondUpdateSkipped` | db/sqlc/store.go:138-141 | When the first balance update fails, the second one's fault is irrelevant. With clean BEGIN and ROLLBACK the error is the first update's error, and the state is unchanged. |
| `Store.TransferTxRecordsRequest` | db/sqlc/store.go:67-93 | A committed transfer stores the request in its transfer row and in two entries of `-amount` and `+amount`. The new entries sum to zero, and each stored row reads back by its id. |
| `Store.TransferTxMovesMoney` | db/sqlc/store.go:113-126 | Source down by `amount`, destination up by `amount`, every other account unchanged. The total of all balances is conserved, and each account's change equals the sum of the entries just posted against it. |
| `Store.TransferTxSelfTransfer` | db/sqlc/store.go:113-126 | A self-transfer writes two entries but leaves every account as it was. `fromAccount` is the credited intermediate row; `toAccount` is the final row. |
| `Store.CleanTransfer` | db/sqlc/store.go:62-131 | With no failure and both accounts present, the transfer commits and moves the money as intended. When the source id is lower, it reports both final balances. |
| `Store.TransferTxLockOrder` | db/sqlc/store.go:113-126 | A committed transfer locks exactly two rows, the lower id then the higher: a non-decreasing order over the request's two ids. |
| `Store.TransferTxResultRoles` | db/sqlc/store.go:116-126 | As written, `fromAccount` is always the lower-id row and `toAccount` the higher-id row. They match the request's roles iff the source id is not the higher one. |
| `Store.TransferTxRoleMismatch` | db/sqlc/store.go:121-126 | When the source id is higher, a committed transfer reports as `fromAccount` the destination after its credit and as `toAccount` the source after its debit. |
| `Store.RoleMismatchExample` | db/sqlc/store.go:121-126 | Concrete case: 30 from account 2 (50) to account 1 (100) reports `fromAccount` = account 1 at 130 and `toAccount` = account 2 at 20. |
| `Store.TransferExample` | db/sqlc/store.go:62-131 | Concrete case: 30 from account 1 (100) to account 2 (50) reports 70 and 80, entries of -30 and 30, and a transfer of 30. |
| `Store.TransferWorkCorrected` | db/sqlc/store.go:121-126 | The unit of work with roles restored. It fails exactly at the first failing statement, with its error. On success `fromAccount` and `toAccount` carry the request's source and destination ids, and for distinct ids they are those rows as finally stored. |
| `Store.TransferTxCorrected` | db/sqlc/store.go:62-131 | The corrected transaction: atomic, and commits iff BEGIN, every statement and COMMIT succeed. |
| `Store.TransferTxCorrectedRoles` | db/sqlc/store.go:121-126 | Corrected: for distinct ids, `fromAccount` is the source debited by `amount` and `toAccount` the destination credited by `amount`, whichever id is lower. Both are the full rows as finally stored, with their owners. |
| `Store.CorrectionOnlySwapsRoles` | db/sqlc/store.go:116-126 | The correction changes only the result. Same success, error and final database. The two account rows are swapped whenever the source id is not the lower one, a self-transfer included; otherwise the results are identical. |
| `Scenarios.RunRequestsConserves` | db/sqlc/store.go:62-131 | Any sequence of transfers, each with its own injected statement, BEGIN, COMMIT or ROLLBACK failures, keeps the store valid, the same set of accounts and the same total balance. |
| `Scenarios.RunOfFailuresChangesNothing` | db/sqlc/store.go:25-40 | A run in which every transfer fails, for whatever reason, leaves the database exactly as it was. |
| `Scenarios.RunTransfersIsFaultFree` | db/sqlc/store.go:62-131 | The fault-free run used by the test scenarios is the general run with no failure injected into any request. |
| `Scenarios.RunTransfersConserves` | db/sqlc/store.go:62-131 | The fault-free case: a sequence of transfers, which then fail only on a missing account, keeps the store valid, the same set of accounts and the same total balance. |
| `Scenarios.TransferCommitsCleanly` | db/sqlc/store.go:62-131 | TransferTx without failures commits every request between two existing accounts with the intended balance changes. |
| `Scenarios.CorrectedCommitsCleanly` | db/sqlc/store.go:116-126 | So does the corrected transfer, so the three generic run lemmas (`RunRepeated`, `RunRepeatedReports`, `RunAlternating`) hold for it too. |
| `Scenarios.RepeatedTransfers` | db/sqlc/store_test.go:115-123 | `n` transfers of `k` from `x` to `y` all commit. `x` ends `n*k` lower, `y` ends `n*k` higher, and every other account is unchanged. |
| `Scenarios.RepeatedReports` | db/sqlc/store_test.go:82-97 | For `x < y`, the i-th transfer (from 0) reports `x` and `y` after exactly `i+1` transfers. |
| `Scenarios.ObservedDeltas` | db/sqlc/store_test.go:94-106 | The test's per-result checks hold. The reported debit equals the reported credit and is a positive multiple of `k` at most `n*k`. The debits are pairwise distinct, and the m-th report shows exactly `m*k`, so each multiple 1..n occurs once. |
| `Scenarios.AlternatingTransfers` | db/sqlc/store_test.go:141-183 | An even number of transfers of `k` alternating direction between two accounts all commit and leave every account exactly as it was. |

## Left out

- Concurrency: goroutines, row locks and deadlock detection are not modelled. Transfers run one after another (`Scenarios.RunRequests`, `Scenarios.RunTransfers`). Locking is recorded only as the order of row locks in `lockLog`.
- Store.TransferTxLockOrder: covers committed transfers only. `lockLog` is part of the state that a failed transaction rolls back, so the locks taken before a failure leave no trace. That includes the lower-id row a failed second update had already locked. On failed paths, the lower-id-first order shows only in which fault decides the outcome (`Store.MoveMoney`, `Store.SecondUpdateSkipped`).
- `context.Context`, the `txKey` value and the `log.Println` calls carry no behaviour and are dropped.
- `Store` and `NewStore` only hold a connection and have no logic.
- Store.TransferTx: on failure, Go returns the partly filled `TransferTxResult` alongside the error. The model returns only the error, because callers discard the result when the error is non-nil.
- Store.ExecTx: a COMMIT failure is modelled as leaving the pre-state. In reality a failed COMMIT can leave the outcome unknown to the client.
- Fields not modelled: `CreatedAt`, `Currency` and `CountryCode`, and the `Valid` flags of `sql.NullInt64`. No statement of the core reads them to decide anything. A NULL balance or amount is therefore not modelled.
- Integer width: `int64` arithmetic, including the negation of `amount`, is unbounded here. A bigint overflow in PostgreSQL is an error, which the per-statement `Fault` covers. Go's wrap-around of `-amount` at the minimum `int64` is not modelled.
- Foreign keys: the schema is not part of this model. An entry or transfer that names a missing account fails through its `Fault`, not by a rule of the model.
- One id sequence serves all three tables, where PostgreSQL uses one sequence per table. Within each table ids are fresh and ascending under both schemes.
- Store.RecordTransfer: its ordering across tables (the transfer id below both entry ids) is an artefact of the shared sequence and not a promise of the real database. With per-table sequences the three ids are unrelated, for example transfer 7 with entries 3 and 4. Only the ordering within each table carries over.
- Queries.ListAccounts: the negative LIMIT and OFFSET errors take PostgreSQL's wording, and OFFSET is checked first as PostgreSQL's executor does. The query text does not itself fix that order. Scan, close and iteration errors of the driver are covered by the `Fault` argument.
- Store.TransferTxCorrected: its own contract states atomicity and when it commits. Its effects are in `Store.TransferTxCorrectedRoles` and `Store.CorrectionOnlySwapsRoles`.
- Scenarios.RepeatedReports: stated for `x < y` only. With the code as written, the report roles are swapped for `x > y` (see Findings). The test creates its two accounts in order, so its source always has the lower id.
- Amount validation (`amount > 0`, source ≠ destination) belongs to the API layer, not to this core. The model accepts any amount and allows self-transfers.

## Findings

| source | as written | input that shows it | evidently intended | confidence | as-written member | corrected member |
|---|---|---|---|---|---|---|
| db/sqlc/store.go:121-126 | When the source id is higher, AddMoney updates the destination first. Its first returned row, the credited destination, is assigned to `FromAccount`; the second, the debited source, is assigned to `ToAccount`. | 30 from account 2 (balance 50) to account 1 (balance 100): `FromAccount` is account 1 at 130, `ToAccount` is account 2 at 20 | `FromAccount` is the source after its debit and `ToAccount` the destination after its credit, whichever id is lower | high; not executed | `Store.TransferTxRoleMismatch` | `Store.TransferTxCorrectedRoles` |

The database effect of the two versions is identical (`Store.CorrectionOnlySwapsRoles`).
Only the reported rows differ. The three generic run lemmas in `Scenarios`
(`RunRepeated`, `RunRepeatedReports`, `RunAlternating`) hold for both versions
(`Scenarios.TransferCommitsCleanly`, `Scenarios.CorrectedCommitsCleanly`). The
concrete scenario lemmas and the runs with injected failures are proved for the
as-written transfer only.
