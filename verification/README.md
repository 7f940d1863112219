# Online wallet ledger — a Dafny model

This project models the balance engine of the Betsson online wallet service
(`OnlineWalletService`) together with its repository (`IOnlineWalletRepository`).
The service's behaviour is pinned down by its unit tests against a mocked repository:

- the balance is 0 when there is no last entry, and otherwise the last entry's `BalanceBefore + Amount`;
- a deposit reads the balance, inserts one entry `{BalanceBefore = balance, Amount = +d}` and returns `balance + d`;
- a withdrawal larger than the balance throws `InsufficientBalanceException` and inserts nothing;
- any other withdrawal inserts one entry `{BalanceBefore = balance, Amount = -w}` and returns `balance - w`.

The repository is a `seq<Entry>`. "Get last entry" returns the last element or `None`, and "insert" appends.
Each operation is a pure function from the ledger to a `Step`, which holds the new ledger and the answer.
The thrown exception becomes `Err(InsufficientBalance)`.
Money is an `int` counted in whole units of the smallest amount in use. The scenarios write the tests' amounts in whole currency units; every operation is linear, so the scale does not matter.

Modules:

- `Wrappers` (wrappers.dfy): `Option` and `Result`.
- `EntryStore` (entry_store.dfy): `Entry {balanceBefore, amount}`, the ledger, and the two repository primitives.
- `WalletService` (wallet_service.dfy): `GetBalance`, `DepositFunds` and `WithdrawFunds`.
- `LedgerInvariants` (ledger_invariants.dfy): the chain invariant and the non-negativity invariant, with an independent reference for the balance (the sum of all amounts). Both mutations are proved to preserve both invariants.
- `RequestQueue` (request_queue.dfy): requests for one wallet, handled one at a time in a serial order.
  - It includes a loop (`Serve`) that is proved equal to the functional `Run` and proved to keep the ledger valid.
  - It also proves a characterisation: a ledger can be built from an empty repository exactly when it is chained, never negative and records no zero amount.
- `Scenarios` (scenarios.dfy): the unit tests' concrete cases. It also covers two serialised withdrawals of 60 against a balance of 100: the first succeeds, the second sees 40 and fails.

## Model

| member | source | states |
|---|---|---|
| EntryStore.GetLastEntry | Betsson.OnlineWallets.UnitTests/Services/OnlineWalletServiceTests.cs:28-30 | the repository reports no last entry exactly when it is empty; otherwise it reports the most recently inserted entry |
| EntryStore.InsertEntry | Betsson.OnlineWallets.UnitTests/Services/OnlineWalletServiceTests.cs:69-71 | an insert adds exactly one entry at the end and leaves every earlier entry unchanged |
| EntryStore.LastEntryAfterInsert | Betsson.OnlineWallets.UnitTests/Services/OnlineWalletServiceTests.cs:78-84 | the entry just inserted is the one the next "get last entry" returns |
| WalletService.GetBalance | Betsson.OnlineWallets.UnitTests/Services/OnlineWalletServiceTests.cs:26-53 | balance is 0 for an empty ledger and `BalanceBefore + Amount` of the last entry otherwise |
| WalletService.DepositFunds | Betsson.OnlineWallets.UnitTests/Services/OnlineWalletServiceTests.cs:57-84 | a deposit appends exactly the entry {prior balance, +amount}, returns prior balance plus amount, and the returned balance is what the next read reports |
| WalletService.WithdrawFunds | Betsson.OnlineWallets.UnitTests/Services/OnlineWalletServiceTests.cs:88-140 | fails with InsufficientBalance if and only if the amount exceeds the balance, and then the ledger is unchanged; otherwise appends exactly {prior balance, -amount}, returns prior balance minus amount, which the next read reports |
| LedgerInvariants.BalanceIsSumOfAmounts | Betsson.OnlineWallets.UnitTests/Services/OnlineWalletServiceTests.cs:39-53 | on a chained ledger the balance read from the last entry equals the sum of every entry's signed amount |
| LedgerInvariants.ValidBalanceNonNegative | Betsson.OnlineWallets.UnitTests/Services/OnlineWalletServiceTests.cs:26-53 | a chained, never-negative ledger reports a non-negative balance |
| LedgerInvariants.DepositPreservesValid | Betsson.OnlineWallets.UnitTests/Services/OnlineWalletServiceTests.cs:57-84 | a deposit keeps the ledger chained and never negative |
| LedgerInvariants.WithdrawalPreservesValid | Betsson.OnlineWallets.UnitTests/Services/OnlineWalletServiceTests.cs:88-140 | a withdrawal, successful or rejected, keeps the ledger chained and never negative, so the balance stays at or above 0 |
| RequestQueue.Handle | Betsson.OnlineWallets.UnitTests/Services/OnlineWalletServiceTests.cs:25-140 | a balance request changes nothing and answers the current balance; only an uncovered withdrawal fails, and it changes nothing; earlier entries are always kept; a deposit appends exactly {prior balance, +amount} and answers prior balance plus amount; a successful withdrawal appends exactly {prior balance, -amount} and answers prior balance minus amount |
| RequestQueue.HandlePreservesValid | Betsson.OnlineWallets.UnitTests/Services/OnlineWalletServiceTests.cs:57-140 | handling any well-formed request keeps a chained, never-negative ledger chained and never negative |
| RequestQueue.Run | Betsson.OnlineWallets.UnitTests/Services/OnlineWalletServiceTests.cs:25-140 | handling a list of requests in order gives one answer per request and only ever extends the ledger, keeping every earlier entry |
| RequestQueue.Serve | Betsson.OnlineWallets.UnitTests/Services/OnlineWalletServiceTests.cs:57-140 | handling requests one at a time gives the same ledger and answers as the serial run, and keeps a valid ledger valid |
| RequestQueue.ReadsAreIdempotent | Betsson.OnlineWallets.UnitTests/Services/OnlineWalletServiceTests.cs:26-53 | any number of balance reads leave the ledger unchanged and all report the same balance |
| RequestQueue.RunFromEmptyIsValid | Betsson.OnlineWallets.UnitTests/Services/OnlineWalletServiceTests.cs:57-140 | every ledger built from an empty repository by deposits and withdrawals is chained, never negative, and has no zero amount |
| RequestQueue.ValidLedgerIsReachable | Betsson.OnlineWallets.UnitTests/Services/OnlineWalletServiceTests.cs:57-140 | every chained, never-negative ledger with no zero amount is rebuilt exactly by replaying its entries as deposits and withdrawals, all of which succeed |
| RequestQueue.ReachableIffValid | Betsson.OnlineWallets.UnitTests/Services/OnlineWalletServiceTests.cs:57-140 | a ledger can be built from empty through well-formed requests if and only if it is chained, never negative and has no zero amount |
| Scenarios.EmptyLedgerHasZeroBalance | Betsson.OnlineWallets.UnitTests/Services/OnlineWalletServiceTests.cs:26-35 | no entries gives balance 0 |
| Scenarios.BalanceFromLastEntry | Betsson.OnlineWallets.UnitTests/Services/OnlineWalletServiceTests.cs:39-53 | last entry {100, +50} gives balance 150 |
| Scenarios.DepositOntoHundred | Betsson.OnlineWallets.UnitTests/Services/OnlineWalletServiceTests.cs:57-84 | balance 100 and deposit 25 returns 125 and inserts only {100, +25} |
| Scenarios.OverdraftRejected | Betsson.OnlineWallets.UnitTests/Services/OnlineWalletServiceTests.cs:88-108 | balance 50 and withdrawal 80 fails with InsufficientBalance and inserts nothing |
| Scenarios.WithdrawalFromTwoHundred | Betsson.OnlineWallets.UnitTests/Services/OnlineWalletServiceTests.cs:112-140 | balance 200 and withdrawal 80 returns 120 and inserts only {200, -80} |

## Left out

- The service's own source and the repository implementation are not part of this model. The behaviour comes from the unit tests' mocked repository.
- Asynchrony (`Task`, `async`/`await`) and the Moq set-up and verification are left out. "Inserted once" is stated as the ledger growing by exactly that one entry, and "never inserted" as the ledger being unchanged.
- Concurrency is not modelled. Each operation is one atomic step, and requests for a wallet are handled in a serial order (`Run`, `Serve`). Interleavings of read and append, and the guard that prevents them, are not modelled.
- WalletService.DepositFunds: requires a strictly positive amount: the service's unit tests never pass a non-positive amount, so no rejection behaviour is pinned down, and no InvalidAmount error is modelled.
- WalletService.WithdrawFunds: requires a strictly positive amount: the service's unit tests never pass a non-positive amount, so no rejection behaviour is pinned down, and no InvalidAmount error is modelled.
- .NET `decimal` is left out. Its 28-digit precision, scale and overflow exception become unbounded whole minor units.
- Entry fields the tests never set or check (for example a timestamp) are left out.
- Persistence, storage failures (no store error is modelled), the HTTP layer and its status-code mapping are left out.
- The API tests in Betsson.OnlineWallets.ApiTests/WalletApiTests.cs are left out. They call a live server over HTTP, and their assertions repeat the deposit and overdraft contracts above.
