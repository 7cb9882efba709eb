# tinymoneytransfer ledger, modelled in Dafny

This project models the core of *tinymoneytransfer*, a small REST service. The service keeps clients and their accounts, one account per client. It moves money between accounts and lets a client debit or withdraw from their own account. The model covers five parts.

- **Entities.** The account and client entities (`Account.java`, `Client.java`) are pure functions over an immutable store, `Db`. The store maps a client id to a name and an account id to `{clientId, currency, amount}`.
- **Resources.** Each resource operation (`TransfersResource.java`, `ClientAccountResource.java`) is a pure function. It returns its reply: a body, or an error code `ERR_001` … `ERR_025`. A raised exception is returned as an outcome of its own.
- **Worker.** The worker that wraps every operation in one transaction (`ResourceExecutor.java`) commits on a normal return and discards the writes on any exception. It maps each exception kind to an error code.
- **Pair key.** This is the deprecated unordered-pair lock key (`BiIntegerMutex.java`): its `equals`, its `hashCode`, and the registry lookup in `getMutex`.
- **Ledger and request properties.** Balances never go negative. A transfer conserves the total. The committed state after a whole request changes all together or not at all.

The persistence port is abstract. Its replies are parameters of the operations: the number of rows an `UPDATE` affected, the id an `INSERT` returned (negative means nothing was inserted), and whether a connection opens and a commit succeeds. That makes every failure path of the source reachable. Every operation also returns the calls it made on the port: selects, row-locking selects, inserts and updates, in order. The call list is how the model states lock order and write order.

Java `int` arithmetic is explicit. Amounts are 32-bit (`Store.Int32`), and `amount + diff` and `-amount` wrap as Java does (`Store.Wrap32`). Stored balances are non-negative, so a wrapped sum is negative exactly when the true sum leaves `[0, INT_MAX]` (`Store.WrapNonNegative`). An overflowing deposit is therefore rejected with ERR_014, as the code does. No precondition is needed to rule it out.

## Modules

| module | file | models |
|---|---|---|
| `Errors` | errors.dfy | error codes, exception kinds, returned-or-raised outcomes |
| `Store` | store.dfy | rows, currencies, the store, port calls, `UPDATE` semantics, schema constraints, the sum of balances |
| `Clients` | clients.dfy | `Client.getById`, `getByName`, `create` |
| `Accounts` | accounts.dfy | `Account.getById`/`lockById`, `getByClient`, `create`, both `updateAmount` overloads, `transferTo` |
| `Ledger` | ledger.dfy | non-negativity, conservation, stale copies, lock order, the self-transfer defect and the guarded transfer |
| `Responses` | responses.dfy | reply bodies, `makeHref` and reading an href back |
| `Transfers` | transfers.dfy | `validateTransferData` and the `transfer` operation |
| `ClientAccounts` | client_accounts.dfy | the three validators and the client/account operations |
| `Executor` | executor.dfy | `Worker.run` |
| `PairKey` | pair_key.dfy | `BiMutexImpl.equals`/`hashCode`, `getMutex` |
| `Requests` | requests.dfy | whole requests through the worker |

`transferTo` has two models:

- `Accounts.TransferSteps` is `transferTo` exactly as written, for any arguments.
- `Accounts.TransferTo` is the same function restricted to the guarantees its only caller, the transfer resource, establishes: different existing accounts, one currency, a positive amount.

`Transfers.Transfer` proves that those guarantees hold exactly when the row locks are taken.

## Model

| member | source | states |
|---|---|---|
| Errors.Error.Code | src/main/java/valerii/Error.java:10-47 | every error carries a number from 1 to 25 (`getCode`) |
| Errors.FromCode | src/main/java/valerii/Error.java:10-34 | there is an error code for exactly the numbers 1 to 25 |
| Errors.CodeRoundTrip | src/main/java/valerii/Error.java:10-34 | each error's number leads back to that error, and each number in range leads to the error that carries it |
| Store.Wrap32 | src/main/java/valerii/domain/Account.java:197 | the Java `int` result of a sum: equal to it when it fits, otherwise off by a multiple of 2^32 |
| Store.WrapNonNegative | src/main/java/valerii/domain/Account.java:197-200 | from a non-negative balance, the wrapped new amount passes the `< 0` check exactly when the true sum lies in `[0, INT_MAX]` |
| Store.ParseCurrency | src/main/java/valerii/resources/ClientAccountResource.java:213-217 | a string is accepted only when it is the exact name of a currency constant |
| Store.ParseCurrencyExact | src/main/java/valerii/resources/ClientAccountResource.java:213-217 | every currency constant's name is accepted and gives back that constant |
| Store.ApplyUpdate | src/main/java/valerii/domain/Account.java:202-205 | the update writes only the `amount` of its own row, and only when the port reports one row affected; ids, owners, currencies and other rows stay |
| Store.TotalReplace | src/main/java/valerii/domain/Account.java:202-205 | overwriting one balance changes the ledger total by exactly that balance's change |
| Store.TotalInsert | src/main/java/valerii/domain/Account.java:158-165 | inserting a row adds its amount to the total |
| Clients.GetById | src/main/java/valerii/domain/Client.java:48-62 | a missing id gives "not found", never an error; a found client carries the stored id and name |
| Clients.GetByName | src/main/java/valerii/domain/Client.java:70-84 | "not found" exactly when no client has the name; otherwise the client stored with that name |
| Clients.Create | src/main/java/valerii/domain/Client.java:94-111 | ERR_005 exactly when the name is taken, with no insert; otherwise only `name` is inserted; a negative id gives null; a new id gives that client, and names stay unique |
| Clients.CreateThenLookup | src/main/java/valerii/domain/Client.java:48-111 | after a successful create, lookup by the returned id and by the name both find the new client |
| Clients.DuplicateCreateFails | src/main/java/valerii/domain/Client.java:96-99 | creating the same name a second time raises ERR_005 and leaves the store as the first create left it |
| Accounts.GetById | src/main/java/valerii/domain/Account.java:93-116 | a missing row gives "not found", never an error; a found account is exactly the stored row |
| Accounts.GetByClient | src/main/java/valerii/domain/Account.java:119-135 | "not found" exactly when the client owns no account; otherwise that client's stored account |
| Accounts.Create | src/main/java/valerii/domain/Account.java:145-172 | ERR_001 exactly when the client is missing, else ERR_008 exactly when it already has an account, both before any insert; otherwise it always returns normally and the four columns are inserted; a negative id gives null; a new id gives an account with amount 0, given client and currency; schema constraints hold |
| Accounts.Adjust | src/main/java/valerii/domain/Account.java:186-217 | from the amount read, ERR_014 with no write exactly when the new amount is negative; otherwise one write of `amount` only; true and the object synced exactly when one row is affected; false changes nothing |
| Accounts.UpdateAmount | src/main/java/valerii/domain/Account.java:182-217 | locks and re-reads its row first; ERR_014 exactly when stored + diff leaves `[0, INT_MAX]`; true exactly when it fits and one row is affected, and then the stored and in-memory amounts are stored + diff; false exactly when it fits and another row count is reported, and then nothing changes; no other row changes |
| Accounts.LockOrder | src/main/java/valerii/domain/Account.java:228-237 | the two row locks are taken lowest id first, whichever side is the source |
| Accounts.TransferSteps | src/main/java/valerii/domain/Account.java:227-257 | as written, for any arguments: locks in ascending order before any write, afterwards only updates, only the two rows' amounts change, and a failure leaves the object's amount unchanged |
| Accounts.TransferWrites | src/main/java/valerii/domain/Account.java:238-257 | once both rows are locked, `transferTo` issues only updates, changes only the two rows' amounts, and a failure leaves the object unchanged |
| Accounts.TransferTo | src/main/java/valerii/domain/Account.java:227-257 | with balances A, B: succeeds exactly when x <= A, B + x fits and both updates hit one row, leaving A − x and B + x and exactly lock, lock, debit, credit; x > A is ERR_014 with nothing written; failed debit is ERR_024 with nothing changed; failed credit is ERR_023 after re-crediting the source to A |
| Ledger.TransferChecked | src/test/java/valerii/domain/AccountTest.java:281-311 | the transfer with its own guards: ERR_020 for the same account, ERR_019 for a missing destination, ERR_021 for different currencies, nothing written on any refusal; otherwise exactly `transferTo`; it never makes a balance negative, and a success keeps the total |
| Ledger.AdjustKeepsNonNegative | src/main/java/valerii/domain/Account.java:197-205 | a balance write never stores a negative amount |
| Ledger.UpdateAmountKeepsNonNegative | src/main/java/valerii/domain/Account.java:182-217 | `updateAmount` keeps every balance non-negative, whatever the port replies |
| Ledger.TransferStepsKeepsNonNegative | src/main/java/valerii/domain/Account.java:227-257 | `transferTo` keeps every balance non-negative in every outcome, compensated ones included |
| Ledger.TransferToConservesTotal | src/main/java/valerii/domain/Account.java:240-252 | a successful transfer between different accounts leaves the sum of all balances unchanged |
| Ledger.CreateKeepsTotal | src/main/java/valerii/domain/Account.java:158-171 | opening an account leaves the total unchanged and no balance negative |
| Ledger.UpdateIgnoresStaleCopy | src/main/java/valerii/domain/Account.java:188-197 | two copies of one account, however stale, give the same outcome, writes and calls |
| Ledger.TransferIgnoresStaleCopy | src/main/java/valerii/domain/Account.java:229-241 | the caller's copy of the source plays no part in what a transfer writes |
| Ledger.LockOrderSymmetric | src/main/java/valerii/domain/Account.java:228-237 | transfers in both directions between two accounts lock in the same, strictly ascending order |
| Ledger.GuardsSurviveInterleaving | src/main/java/valerii/resources/TransfersResource.java:43-65 | guards checked without locks still hold at the locked re-read, because no step removes a row or changes an owner or currency |
| Ledger.GuardsSurviveSteps | src/main/java/valerii/resources/TransfersResource.java:43-65 | however many stable steps commit between the unlocked check and the locked re-read, guards that held still hold |
| Store.StableAlong | src/main/java/valerii/domain/Account.java:145-217 | a run of steps that each keep every row, owner and currency keeps them across the whole run |
| Ledger.GuardsFailingStayFailing | src/main/java/valerii/resources/TransfersResource.java:43-65 | when no account is opened in between, guards that fail without locks also fail at the locked re-read |
| Ledger.SelfTransferCreatesMoney | src/main/java/valerii/domain/Account.java:231-241 | `transferTo` onto its own account succeeds and raises both the balance and the ledger total by the amount |
| Ledger.TransferExample | src/test/java/valerii/domain/AccountTest.java:243-279 | 10 from 100 to 100 leaves 90 and 110, syncs the object to 90, and makes exactly: lock 1, lock 2, write 90, write 110 |
| Responses.IntStringRoundTrip | src/main/java/valerii/resources/ClientAccountResource.java:247-249 | the decimal text of an id reads back as that id |
| Responses.MakeHref | src/main/java/valerii/resources/ClientAccountResource.java:242-253 | "/clients/" + client id, followed by "/account/" + account id when one is given |
| Responses.HrefRoundTrip | src/main/java/valerii/resources/ClientAccountResource.java:246-253 | an href reads back as the client and account it was built from |
| Transfers.ValidateTransferData | src/main/java/valerii/resources/TransfersResource.java:72-98 | each of ERR_015, 016, 017, 022, 020 exactly when that is the first failing check; no error exactly when all fields are present, amount > 0 and src != dst |
| Transfers.Transfer | src/main/java/valerii/resources/TransfersResource.java:33-70 | validation errors first with no port call; ERR_018 before the destination is read; ERR_019; ERR_021; rows are locked exactly when the request is admissible; a refused request changes nothing; an admitted one has the outcome and writes of `transferTo` |
| ClientAccounts.ValidateClientData | src/main/java/valerii/resources/ClientAccountResource.java:222-232 | ERR_006 exactly when the body or the name is missing |
| ClientAccounts.ValidateAccountData | src/main/java/valerii/resources/ClientAccountResource.java:204-220 | ERR_007 exactly when the body or currency is missing; ERR_010 exactly when the currency is not a constant's name; otherwise no error |
| ClientAccounts.ValidateDebitWithdraw | src/main/java/valerii/resources/ClientAccountResource.java:234-240 | ERR_012 exactly when the body or `amountDiff` is missing |
| ClientAccounts.ClientInfo | src/main/java/valerii/resources/ClientAccountResource.java:44-59 | ERR_001 exactly when the client is missing; otherwise its id, name and link; nothing written |
| ClientAccounts.NewClient | src/main/java/valerii/resources/ClientAccountResource.java:61-85 | ERR_006 with no port call; ERR_005 raised for a taken name; ERR_004 when nothing was inserted; otherwise the new client and its link |
| ClientAccounts.AccountInfo | src/main/java/valerii/resources/ClientAccountResource.java:98-124 | ERR_001 exactly when the client is missing, reported before ERR_002; ownership is not checked, and the link uses the account's own owner |
| ClientAccounts.OpenAccount | src/main/java/valerii/resources/ClientAccountResource.java:126-151 | ERR_007/ERR_010 with no port call; ERR_001/ERR_008 raised with nothing written; ERR_009 when nothing was inserted; otherwise an account with amount 0 and its link |
| ClientAccounts.DebitWithdrawAccount | src/main/java/valerii/resources/ClientAccountResource.java:164-201 | checks in order ERR_012, ERR_002, ERR_011, each writing nothing; only an owned account is written; ERR_014 raised when the new balance leaves `[0, INT_MAX]`; ERR_013 when no row is updated; otherwise the account with balance stored + diff |
| Executor.ErrorFor | src/main/java/valerii/resources/ResourceExecutor.java:61-72 | transfer and business exceptions report their own code; any other non-SQL exception is ERR_025; an SQL failure is ERR_003 |
| Executor.Run | src/main/java/valerii/resources/ResourceExecutor.java:50-76 | the committed state is either untouched or exactly the operation's; it changes only on a normal return with a successful commit; connect, disable auto-commit, bind and invoke happen in that order; commit happens exactly on a normal return; the provider's null connection fails at disabling auto-commit with a NullPointerException, answered ERR_025; a refused auto-commit or a failed commit is ERR_003; the operation is invoked exactly when the connection opened; exactly one resume, the last step |
| PairKey.Equals | src/main/java/valerii/mutex/BiIntegerMutex.java:50-60 | equal exactly to a key holding the same multiset of ids; never to null or another class |
| PairKey.HashCode | src/main/java/valerii/mutex/BiIntegerMutex.java:62-64 | the Java `int` sum of the two ids: the true sum when it fits, otherwise off by a multiple of 2^32 |
| PairKey.EqualsIsEquivalence | src/main/java/valerii/mutex/BiIntegerMutex.java:50-60 | `equals` is reflexive, symmetric and transitive, and (a, b) equals (b, a) |
| PairKey.EqualKeysEqualHashes | src/main/java/valerii/mutex/BiIntegerMutex.java:50-64 | equal keys have equal hash codes |
| PairKey.HashOrderIndependent | src/main/java/valerii/mutex/BiIntegerMutex.java:62-64 | the hash of (a, b) is that of (b, a), with 32-bit wrap-around |
| PairKey.Find | src/main/java/valerii/mutex/BiIntegerMutex.java:26 | finds a registered key equal to the requested one exactly when there is one |
| PairKey.GetMutex | src/main/java/valerii/mutex/BiIntegerMutex.java:19-28 | a null id raises NullPointerException; otherwise an equal registered key is returned with the registry unchanged, or the new key is registered and returned; no two registered keys are equal |
| PairKey.SwappedIdsSameMutex | src/main/java/valerii/mutex/BiIntegerMutex.java:24-27 | asking for (b, a) after (a, b) returns the same lock object and registers nothing |
| Requests.TransferRequestKeepsLedger | src/main/java/valerii/resources/ResourceExecutor.java:54-73 | a transfer request keeps the committed total and non-negative balances in every outcome; an error reply commits nothing |
| Requests.DebitWithdrawRequestKeepsLedger | src/main/java/valerii/resources/ClientAccountResource.java:164-201 | a debit/withdrawal request never commits a negative balance; on success the total changes by exactly `amountDiff`, and otherwise nothing is committed |
| Requests.DebitWithdrawMovesDiff | src/main/java/valerii/resources/ClientAccountResource.java:164-201 | the debit/withdrawal operation writes only when it answers with the account, never stores a negative balance, and then moves the total by exactly `amountDiff` |
| Requests.OverdrawnTransferReportsInsufficientFunds | src/main/java/valerii/resources/TransfersResource.java:65 | a transfer of more than the source holds is answered with ERR_014 and commits nothing |

## Left out

- JDBC and H2 are not modelled: SQL text, thread-local connections and result-set decoding. The port is abstract, and its replies are parameters.
- An SQL exception raised in the middle of an operation is not modelled. `Executor.ErrorFor` maps an SQL exception to ERR_003. The failures around the operation are modelled in `Executor.Run`. A failed connect makes the provider return null (src/main/java/valerii/db/H2Provider.java:221-234), so disabling auto-commit raises a NullPointerException, answered ERR_025. A refused auto-commit and a failed commit answer ERR_003. An exception from closing the connection is not modelled.
- Jetty/Jersey wiring, asynchronous request suspension and the thread pool are not modelled. The worker is a pure function from an operation's result to a reply.
- HTTP status codes are not modelled; replies carry error codes only.
- Thread interleavings and blocking row locks are not modelled. Lock order appears only as the order of locking selects in the call list.
- No claim is made about the outcome of concurrent requests. In particular the parallel debit/withdraw test of the integration suite is not modelled: some interleavings legitimately hit ERR_014.
- The `WeakHashMap`, its `synchronized` block and weak-reference reclamation are not modelled. The registry is a list of keys that are never reclaimed.
- Creation timestamps are not modelled: they come from a clock. Logging is not modelled either.
- The transport objects and the exception classes are not modelled: they have getters and setters only.
- The currency enum is not part of this model. Its constants are taken to be `RUB`, `USD` and `EUR`, the ones the tests use.
- `deleteClient` and `closeAccount` answer "not implemented" and are not modelled.
- Ledger.TransferChecked checks its guards before taking any lock, not after the locked re-read. Guards that pass without locks still pass under them (`Ledger.GuardsSurviveInterleaving`). The converse is proved only when no account is opened in between (`Ledger.GuardsFailingStayFailing`). An account inserted between the check and the lock could be refused by the unlocked check although the locked re-read would find it.

## Findings

| source | as written | input that shows it | evidently intended | confidence | as-written member | corrected member |
|---|---|---|---|---|---|---|
| src/main/java/valerii/domain/Account.java:227-257 | `transferTo` has no guard of its own. Called on its own account, it locks the same row twice into two copies that both hold A. It debits one copy to A − x, then credits the other to A + x. | `transferTo(self.id, x)` with stored balance A, 0 < x <= A, A + x <= INT_MAX, and every update reporting one row: the balance ends at A + x and the ledger grows by x | raise ERR_020 and change nothing, as the unit test `transferToSameAccountFails` expects; likewise ERR_019 for a missing destination and ERR_021 for different currencies (tests at AccountTest.java:281-311) | high, not executed | Ledger.SelfTransferCreatesMoney | Ledger.TransferChecked |

Through the REST API the defect cannot be reached, because the transfer resource rejects src == dst with ERR_020 first. The resource then calls `transferTo` directly (src/main/java/valerii/resources/TransfersResource.java:65). The model's `Transfers.Transfer` calls `Ledger.TransferChecked` instead. Its ensures prove that under the resource's checks this is exactly `Accounts.TransferTo`, so the request behaves as the code does.

The unit tests and the code disagree on the guards: the tests expect `transferTo` itself to raise ERR_020, ERR_019 and ERR_021, but the code leaves those checks to the resource. The model follows the code. `Accounts.TransferSteps` has no guards, and the guards are preconditions of `Accounts.TransferTo`.
