# GnuCash Android double-entry ledger core, modelled in Dafny

This project models the double-entry ledger logic of GnuCash for Android and
proves properties of it. It covers four parts.

- **The split aggregate.**
  - A `Transaction` owns an ordered list of `Split` objects. `addSplit` and `setSplits` stamp those splits with the transaction's UID and currency.
  - `computeBalance` folds the splits of one account into a signed balance. The sign follows the polarity rule: the split's DEBIT/CREDIT type against the account's debit-normal flag.
  - `getTypeForBalance` and the transaction-type toggle button run the rule backwards, choosing a type from a polarity and an intent.
  - `Split.createPair` builds the opposite leg of a two-leg posting.
- **The splits table adapter.**
  - `addSplit` is an upsert keyed by UID.
  - `computeSplitBalance` is a polarity-aware sum over the stored rows.
  - A transaction's splits can be read back.
  - Three delete operations cascade to the transaction row.
- **The schema upgrade.**
  - `onUpgrade` walks the version chain 1→2→…→7.
  - Step 1→2 resets every account type to CASH.
  - Step 5→6 backfills fully qualified account names through a recursive parent walk (`MigrationHelper.getFullyQualifiedAccountName`).
  - Step 6→7 converts each legacy single-amount transaction into split rows.
- **The account form rules.**
  - The table of allowed parent types and the SQL `IN` list built from it.
  - The parent and default-transfer eligibility filters.
  - The colour string.

Each database table is a `Table<R>`: a map from row id to record, plus the next
row id. A query that names no order returns its rows in ascending row id order. The Java objects
whose fields change in place are Dafny classes: `Split`, `Transaction`,
`SplitsDbAdapter`, the database `Db` and the toggle button. Pure rules and
table states are functions over values. The account type's debit-normal flag
(`hasDebitNormalBalance`) lives in `model/AccountType.java`, and the
account-type and currency lookups that `computeBalance` makes live in
`db/AccountsDbAdapter.java`. Both are outside the modelled files, so they are
parameters: a `Polarity` function, or the account's type and currency. Random UUIDs come
from a fresh-identifier oracle (`Uids.UidSource`), or are parameters.

Modules (one file each):
- `Wrappers` and `Strings`: helpers, the latter for Java's `trim`, `split`, `equalsIgnoreCase` and joining.
- `AccountTypes` and `TransactionTypes`: the two enumerations.
- `Ledger`: the pure split algebra.
- `SplitModel` (`Split.java`) and `TransactionModel` (`Transaction.java`).
- `Uids`: the identifier oracle.
- `Store`: tables, queries, and the row types of the three tables.
- `SplitsDb` (`SplitsDbAdapter.java`).
- `MigrationHelper` and `DatabaseHelper`.
- `ToggleButton` (`TransactionTypeToggleButton.java`).
- `AccountForm` (`AccountFormFragment.java`).

Two facts about the code that a reader might not expect:
- **Pair polarity:** a split and its pair carry opposite DEBIT/CREDIT types, and they cancel when both accounts have the *same* debit-normal flag (`Ledger.PairCancels`, `Ledger.PairOppositePolarity`).
- **Migrated memo:** the memo a migrated split gets from the legacy description is set on the `Split` object only. `MigrationHelper.addSplit` never writes it to the split row.

## Model

| member | source | states |
|---|---|---|
| TransactionTypes.Invert | app/src/org/gnucash/android/model/Split.java:106 | the inverted type always differs from the original |
| TransactionTypes.InvertInvolution | app/src/org/gnucash/android/model/Split.java:106 | inverting twice gives back the original type |
| TransactionTypes.TypeOf | app/src/org/gnucash/android/db/SplitsDbAdapter.java:115 | `TransactionType.valueOf` accepts exactly "DEBIT" and "CREDIT"; anything else is the exception path |
| TransactionTypes.TypeNameRoundTrip | app/src/org/gnucash/android/db/SplitsDbAdapter.java:39 | a type stored by its name reads back as the same type |
| AccountTypes.Names | app/src/org/gnucash/android/ui/account/AccountFormFragment.java:627 | the k-th name is the name of the k-th type, with length preserved |
| AccountTypes.NameRoundTrip | app/src/org/gnucash/android/ui/account/AccountFormFragment.java:602-604 | `valueOf(name(t))` is `t` |
| AccountTypes.ValueOfInverts | app/src/org/gnucash/android/ui/account/AccountFormFragment.java:602-604 | a string `valueOf` accepts is exactly the name of the type it yields |
| AccountTypes.NameInjective | app/src/org/gnucash/android/ui/account/AccountFormFragment.java:602-604 | no two account types share a name |
| AccountTypes.AllTypesEnumerates | app/src/org/gnucash/android/ui/account/AccountFormFragment.java:618 | `values()` lists every one of the 14 types exactly once |
| Ledger.WithCurrency | app/src/org/gnucash/android/model/Transaction.java:205 | relabelling money keeps its amount and takes the new currency |
| Ledger.Abs | app/src/org/gnucash/android/model/Transaction.java:239 | the absolute amount is non-negative and equals the amount or its negation |
| Ledger.ContributionTable | app/src/org/gnucash/android/model/Transaction.java:239-253 | the four cases of the polarity rule: DEBIT adds \|amount\| to a debit-normal account and CREDIT subtracts it, reversed for other accounts |
| Ledger.ContributionFlip | app/src/org/gnucash/android/model/Transaction.java:239-253 | flipping a split's type negates its contribution |
| Ledger.ContributionPolarity | app/src/org/gnucash/android/model/Transaction.java:234-253 | the same split moves a debit-normal and a credit-normal account in opposite directions |
| Ledger.Matching | app/src/org/gnucash/android/model/Transaction.java:176-184 | the account's splits are never more than the list's |
| Ledger.MatchingMembers | app/src/org/gnucash/android/model/Transaction.java:176-184 | a split is selected exactly when it is in the list and belongs to the account |
| Ledger.MatchingAppend | app/src/org/gnucash/android/model/Transaction.java:176-184 | filtering distributes over concatenation, so it keeps the original order |
| Ledger.BalanceAppend | app/src/org/gnucash/android/model/Transaction.java:228-256 | the balance of a concatenation is the sum of the balances |
| Ledger.BalanceWithoutMatches | app/src/org/gnucash/android/model/Transaction.java:235-238 | a list with no split of the account has balance zero |
| Ledger.BalanceIsTotalOfMatching | app/src/org/gnucash/android/model/Transaction.java:236-254 | the balance equals the total contribution of exactly the account's splits (skipping the others changes nothing) |
| Ledger.TypeForBalanceIsDebit | app/src/org/gnucash/android/model/Transaction.java:388-396 | `getTypeForBalance(t, reduce)` is DEBIT iff the debit-normal flag of t differs from reduce |
| Ledger.TypeForBalanceMovesBalance | app/src/org/gnucash/android/model/Transaction.java:388-396 | a non-zero split of the chosen type lowers the account's balance iff a reduction was asked for, by exactly \|amount\| |
| Ledger.PairOf | app/src/org/gnucash/android/model/Split.java:104-110 | the pair has the same amount and memo, the given account, the inverted type, its own fresh UID and no transaction UID |
| Ledger.PairCancels | app/src/org/gnucash/android/model/Split.java:104-110 | a split and its pair contribute opposite amounts under the same polarity |
| Ledger.PairOppositePolarity | app/src/org/gnucash/android/model/Split.java:104-110 | under opposite polarities the two legs move their accounts the same way |
| Ledger.TwoLegPostingBalances | app/src/org/gnucash/android/model/Split.java:104-110 | posting a split on one account and its pair on another account of the same polarity leaves the two balances summing to zero |
| Ledger.AmountSumAgreesWithBalance | app/src/org/gnucash/android/model/Transaction.java:290-298 | when every split of a debit-normal account is a non-negative DEBIT, the formatted amount equals the balance |
| SplitModel.Split.constructor | app/src/org/gnucash/android/model/Split.java:49-53 | the given amount and account, a fresh UID, and type, memo and transaction UID unset |
| SplitModel.Split.SetAmount | app/src/org/gnucash/android/model/Split.java:60-62 | only the amount changes |
| SplitModel.Split.SetUid | app/src/org/gnucash/android/model/Split.java:68-70 | only the UID changes |
| SplitModel.Split.SetTransactionUid | app/src/org/gnucash/android/model/Split.java:76-78 | only the transaction UID changes |
| SplitModel.Split.SetAccountUid | app/src/org/gnucash/android/model/Split.java:84-86 | only the account UID changes |
| SplitModel.Split.SetType | app/src/org/gnucash/android/model/Split.java:92-94 | only the type changes |
| SplitModel.Split.SetMemo | app/src/org/gnucash/android/model/Split.java:100-102 | only the memo changes |
| SplitModel.Split.CreatePair | app/src/org/gnucash/android/model/Split.java:104-110 | a new object holding `PairOf` of this split; this split is not modified |
| SplitModel.Values | app/src/org/gnucash/android/model/Transaction.java:73 | the value list is position by position the objects' current values |
| TransactionModel.Stamped | app/src/org/gnucash/android/model/Transaction.java:203-208 | a stamped split has the transaction's UID and currency, the same amount, and every other field unchanged |
| TransactionModel.StampedIdempotent | app/src/org/gnucash/android/model/Transaction.java:191-196 | stamping a split twice with the same transaction equals stamping it once |
| TransactionModel.SplitsOfSpec | app/src/org/gnucash/android/model/Transaction.java:176-184 | the object filter is the value filter, and holds exactly the account's split objects |
| TransactionModel.Transaction.constructor | app/src/org/gnucash/android/model/Transaction.java:114-117 | a fresh UID, the clock's time, the trimmed name, an empty description, not exported, the default currency and no splits |
| TransactionModel.Transaction.Copy | app/src/org/gnucash/android/model/Transaction.java:127-137 | shares the original's split objects and restamps each with the throwaway fresh UID; copies the trimmed name, description, exported flag and time; keeps the UID only when asked; takes the default currency; so when the UID is kept, no split carries the copy's UID |
| TransactionModel.Transaction.CopyCorrected | app/src/org/gnucash/android/model/Transaction.java:127-137 | as the copy constructor, but every copied split carries the copy's own UID |
| TransactionModel.Transaction.SetName | app/src/org/gnucash/android/model/Transaction.java:312-314 | the name is stored trimmed and nothing else changes |
| TransactionModel.Transaction.SetExported | app/src/org/gnucash/android/model/Transaction.java:402-412 | the flag is stored as 1/0 and `isExported` reads back the value set |
| TransactionModel.Transaction.AddSplit | app/src/org/gnucash/android/model/Transaction.java:203-208 | appends the split at the end, earlier entries unchanged, and stamps it with this transaction's UID and currency |
| TransactionModel.Transaction.SetSplits | app/src/org/gnucash/android/model/Transaction.java:191-196 | the list becomes exactly the given list, in order, and every split in it is stamped with this transaction (also when one object occurs twice) |
| TransactionModel.Transaction.StampNext | app/src/org/gnucash/android/model/Transaction.java:193-195 | one loop round of setSplits keeps the "stamped so far" invariant |
| TransactionModel.Transaction.GetSplitsFor | app/src/org/gnucash/android/model/Transaction.java:176-184 | exactly the account's split objects, in the list's order (the object filter `SplitsOf`), whose values are the ledger filter `Matching`; no change to the transaction |
| TransactionModel.Transaction.ComputeBalance | app/src/org/gnucash/android/model/Transaction.java:228-256 | the result is the ledger balance of the list for the account, in the account's currency |
| TransactionModel.Transaction.AddSplitAmount | app/src/org/gnucash/android/model/Transaction.java:237-253 | one loop round adds the split's signed contribution when the split is the account's |
| TransactionModel.Transaction.GetBalance | app/src/org/gnucash/android/model/Transaction.java:217-219 | the balance of this transaction's own splits |
| TransactionModel.Transaction.GetTransactionTypeForAccount | app/src/org/gnucash/android/model/Transaction.java:161-169 | the type of the only split when there is exactly one; otherwise DEBIT iff the balance is negative; CREDIT for an account without splits |
| TransactionModel.Transaction.TypeByBalance | app/src/org/gnucash/android/model/Transaction.java:166-168 | DEBIT iff the balance is negative, and CREDIT when the account has no split |
| TransactionModel.Transaction.GetFormattedAmount | app/src/org/gnucash/android/model/Transaction.java:290-298 | the plain signed sum of the account's split amounts, in the transaction's currency |
| Uids.Decimal | app/src/org/gnucash/android/model/Split.java:52 | a non-empty string of decimal digits |
| Uids.DecimalRoundTrip | app/src/org/gnucash/android/model/Split.java:52 | the rendering reads back as the number |
| Uids.LabelInjective | app/src/org/gnucash/android/model/Split.java:52 | distinct requests receive distinct UIDs |
| Uids.UidSource.Next | app/src/org/gnucash/android/model/Split.java:52 | hands out the next label and advances the counter |
| Uids.FreshLabel | app/src/org/gnucash/android/model/Split.java:52 | a newly issued UID differs from every UID issued before |
| Strings.Trim | app/src/org/gnucash/android/model/Transaction.java:313 | `String.trim` leaves no blank or control character at either end |
| Strings.TrimPadded | app/src/org/gnucash/android/ui/account/AccountFormFragment.java:630 | trimming removes exactly the padding around a clean string |
| Strings.TrimIdempotent | app/src/org/gnucash/android/model/Transaction.java:313 | trimming an already trimmed name changes nothing |
| Strings.JavaSplitJoin | app/src/org/gnucash/android/ui/account/AccountFormFragment.java:627 | `split(",")` undoes a join of non-empty comma-free parts, leaving each later part behind its padding |
| Strings.LessTransitive | app/src/org/gnucash/android/db/MigrationHelper.java:126 | SQLite's binary string order is transitive |
| Store.EmptyTable | app/src/org/gnucash/android/db/DatabaseHelper.java:230 | a newly created table has no rows |
| Store.Insert | app/src/org/gnucash/android/db/SplitsDbAdapter.java:50 | the row is stored under a new row id above every id in use, and the other rows stay |
| Store.WhereSpec | app/src/org/gnucash/android/db/SplitsDbAdapter.java:242-261 | a query returns exactly the matching rows, each once, in ascending id order |
| Store.ScanMembers | app/src/org/gnucash/android/db/SplitsDbAdapter.java:242-261 | every row a query returns is a stored row satisfying the clause |
| Store.ScanBelow | app/src/org/gnucash/android/db/DatabaseHelper.java:202-214 | rows at or above an id do not change a scan below it |
| Store.ScanInsert | app/src/org/gnucash/android/db/SplitsDbAdapter.java:50 | an inserted row comes last in a scan when it matches |
| Store.RowsAt | app/src/org/gnucash/android/db/SplitsDbAdapter.java:151-153 | the cursor yields the rows stored under the ids, in order |
| Store.First | app/src/org/gnucash/android/db/SplitsDbAdapter.java:209-216 | -1 iff no row matches; otherwise the lowest matching id |
| Store.Delete | app/src/org/gnucash/android/db/SplitsDbAdapter.java:351-353 | every matching row goes and every other row stays as it was |
| Store.DeleteId | app/src/org/gnucash/android/db/SplitsDbAdapter.java:379-381 | exactly the row with that id goes |
| Store.NoneAffected | app/src/org/gnucash/android/db/SplitsDbAdapter.java:351-353 | a delete reports zero rows iff no row matches |
| Store.Update | app/src/org/gnucash/android/db/MigrationHelper.java:63-64 | matching rows are rewritten, the others and the row ids stay |
| Store.UpdateId | app/src/org/gnucash/android/db/DatabaseHelper.java:213 | only the row with that id is rewritten |
| Store.InsertSplit | app/src/org/gnucash/android/db/DatabaseHelper.java:95-106 | the splits table rejects (-1, table unchanged) a row with a NULL account or transaction UID or a taken UID, otherwise stores it with a NULL memo; UIDs stay unique |
| SplitsDb.ColumnsOf | app/src/org/gnucash/android/db/SplitsDbAdapter.java:35-40 | the stored amount is the absolute amount, and the account UID is written |
| SplitsDb.UpsertKeyedByUid | app/src/org/gnucash/android/db/SplitsDbAdapter.java:42-53 | an existing row with the UID is rewritten in place (its memo and the other rows kept); otherwise one row is inserted under a new id, or nothing is stored (-1) when the split has no transaction UID |
| SplitsDb.UpsertCount | app/src/org/gnucash/android/db/SplitsDbAdapter.java:42-51 | the row count grows by at most one, and not at all when the UID is stored |
| SplitsDb.UpsertIdempotent | app/src/org/gnucash/android/db/SplitsDbAdapter.java:43-51 | saving the same split a second time leaves the table and the returned id as after the first save |
| SplitsDb.UpsertPreserves | app/src/org/gnucash/android/db/SplitsDbAdapter.java:34-54 | the upsert keeps UIDs unique and stored amounts non-negative |
| SplitsDb.RowValue | app/src/org/gnucash/android/db/SplitsDbAdapter.java:62-78 | a row read back keeps its account, amount and type |
| SplitsDb.RowValues | app/src/org/gnucash/android/db/SplitsDbAdapter.java:148-158 | one split per row read |
| SplitsDb.RowValuesAt | app/src/org/gnucash/android/db/SplitsDbAdapter.java:148-158 | the k-th split read is the k-th row |
| SplitsDb.TableBalanceIsLedgerBalance | app/src/org/gnucash/android/db/SplitsDbAdapter.java:104-141 | over non-negative stored amounts, the stored balance of an account equals `Transaction.computeBalance` over the whole table read back as splits |
| SplitsDb.SplitsDbAdapter.constructor | app/src/org/gnucash/android/db/SplitsDbAdapter.java:24-26 | the adapter works on the given database |
| SplitsDb.SplitsDbAdapter.GetID | app/src/org/gnucash/android/db/SplitsDbAdapter.java:205-217 | -1 iff no row has the UID; otherwise a positive row id whose row has it |
| SplitsDb.SplitsDbAdapter.AddSplit | app/src/org/gnucash/android/db/SplitsDbAdapter.java:34-54 | the splits table and returned id are those of the upsert; the other tables are left alone |
| SplitsDb.SplitsDbAdapter.ComputeSplitBalance | app/src/org/gnucash/android/db/SplitsDbAdapter.java:104-141 | the polarity-rule sum over the account's rows in row order, zero when there are none |
| SplitsDb.SplitsDbAdapter.BuildSplitInstance | app/src/org/gnucash/android/db/SplitsDbAdapter.java:62-78 | a new split holding the row's values |
| SplitsDb.SplitsDbAdapter.GetSplitsForTransaction | app/src/org/gnucash/android/db/SplitsDbAdapter.java:148-158 | new splits, one per row of the transaction, in row order |
| SplitsDb.SplitsDbAdapter.ReadSplits | app/src/org/gnucash/android/db/SplitsDbAdapter.java:151-153 | the cursor loop builds one new split per row, in order |
| SplitsDb.SplitsDbAdapter.DeleteTransaction | app/src/org/gnucash/android/db/SplitsDbAdapter.java:379-381 | deletes the transaction row; true iff it existed |
| SplitsDb.SplitsDbAdapter.DeleteRecord | app/src/org/gnucash/android/db/SplitsDbAdapter.java:308-322 | removes the split row, then the transaction when splits of it remain (as written); the result is false only when that transaction delete fails |
| SplitsDb.SplitsDbAdapter.DeleteRecordCorrected | app/src/org/gnucash/android/db/SplitsDbAdapter.java:313-320 | removes the split row, then the transaction when none of its splits remains |
| SplitsDb.SplitsDbAdapter.DeleteSplitsForTransaction | app/src/org/gnucash/android/db/SplitsDbAdapter.java:349-356 | every split of the transaction and then the transaction row go; true iff some split went |
| SplitsDb.SplitsDbAdapter.DeleteSplitsForTransactionAndAccount | app/src/org/gnucash/android/db/SplitsDbAdapter.java:364-373 | only the splits matching both UIDs go, the transaction row goes unconditionally, and the count of deleted splits is returned |
| SplitsDb.DeleteFoundTransaction | app/src/org/gnucash/android/db/SplitsDbAdapter.java:329-342 | with unique UIDs, deleting the row `getTransactionID` finds removes the transaction |
| SplitsDb.DeleteRecordInvertsCondition | app/src/org/gnucash/android/db/SplitsDbAdapter.java:313-320 | as written, the transaction disappears exactly when some split still references it |
| SplitsDb.DeleteRecordCorrectedKeepsReferences | app/src/org/gnucash/android/db/SplitsDbAdapter.java:313-320 | with the intended condition, the transaction remains exactly while splits reference it |
| MigrationHelper.CurrencyCode | app/src/org/gnucash/android/db/MigrationHelper.java:36-49 | NULL when no account has the UID; a code found is the currency of an account with that UID |
| MigrationHelper.NameBeforeTransitive | app/src/org/gnucash/android/db/MigrationHelper.java:126 | the ORDER BY name order is transitive |
| MigrationHelper.NameBeforeIrreflexive | app/src/org/gnucash/android/db/MigrationHelper.java:126 | no name sorts before itself |
| MigrationHelper.NameBeforeTotal | app/src/org/gnucash/android/db/MigrationHelper.java:126 | any two distinct names are ordered |
| MigrationHelper.FirstRoot | app/src/org/gnucash/android/db/MigrationHelper.java:122-133 | -1 or the id of a ROOT-type row |
| MigrationHelper.FirstRootIsFirst | app/src/org/gnucash/android/db/MigrationHelper.java:122-133 | the chosen row is a ROOT row no other ROOT row sorts before (by name, then row id), and -1 only when there is no ROOT row |
| MigrationHelper.RootUid | app/src/org/gnucash/android/db/MigrationHelper.java:122-133 | NULL iff no account is of type ROOT; otherwise the UID of a ROOT account |
| MigrationHelper.LinkOf | app/src/org/gnucash/android/db/MigrationHelper.java:78-100 | an unknown UID reads as a NULL parent and a NULL name |
| MigrationHelper.FullNameShape | app/src/org/gnucash/android/db/MigrationHelper.java:103-110 | an unknown UID has no name; a name the walk returns is the account's own name or ends with separator + own name |
| MigrationHelper.FullNameFuelMonotone | app/src/org/gnucash/android/db/MigrationHelper.java:108 | a walk that ends within some depth ends, with the same name, at every greater depth |
| MigrationHelper.FullNameIgnoresFullNames | app/src/org/gnucash/android/db/MigrationHelper.java:76-111 | writing full names changes neither the ROOT UID nor any fully qualified name |
| MigrationHelper.RootIgnoresFullNames | app/src/org/gnucash/android/db/MigrationHelper.java:122-133 | the ROOT lookup reads only names and types |
| MigrationHelper.FirstIgnoresFullNames | app/src/org/gnucash/android/db/MigrationHelper.java:78-94 | the lookup by UID is unchanged by full-name writes |
| MigrationHelper.FullNameWalkIgnoresFullNames | app/src/org/gnucash/android/db/MigrationHelper.java:76-111 | the walk is unchanged by full-name writes |
| MigrationHelper.WalkFollowsLinks | app/src/org/gnucash/android/db/MigrationHelper.java:76-111 | tables with the same parent/name links give the same walks |
| MigrationHelper.LinkIgnoresFullNames | app/src/org/gnucash/android/db/MigrationHelper.java:78-100 | the parent and name read are unchanged by full-name writes |
| MigrationHelper.RootExcludedFromChain | app/src/org/gnucash/android/db/MigrationHelper.java:103-110 | Root ← Assets ← Checking gives "Assets:Checking", and the top-level account keeps "Assets" |
| MigrationHelper.TopLevelWalk | app/src/org/gnucash/android/db/MigrationHelper.java:103-105 | an account whose parent is the ROOT account keeps its bare name |
| MigrationHelper.ChildWalk | app/src/org/gnucash/android/db/MigrationHelper.java:108-110 | an account below a top-level account is named "parent:child" |
| MigrationHelper.CycleDiverges | app/src/org/gnucash/android/db/MigrationHelper.java:108 | with a parent cycle and no ROOT account, the walk never ends at any depth |
| MigrationHelper.MigrationColumns | app/src/org/gnucash/android/db/MigrationHelper.java:19-23 | no account UID is written, and the amount is stored signed, not absolute |
| MigrationHelper.MigrationInsertRejected | app/src/org/gnucash/android/db/MigrationHelper.java:18-28 | the splits table rejects every row this addSplit writes |
| MigrationHelper.AddSplit | app/src/org/gnucash/android/db/MigrationHelper.java:18-28 | the insert's outcome; as written it always reports false and leaves the table unchanged |
| MigrationHelper.MigrationColumnsCorrected | app/src/org/gnucash/android/db/MigrationHelper.java:19-23 | the corrected columns include the account UID |
| MigrationHelper.AddSplitCorrected | app/src/org/gnucash/android/db/MigrationHelper.java:18-28 | stored iff the split has a transaction UID and an unused UID |
| MigrationHelper.SetColumn | app/src/org/gnucash/android/db/MigrationHelper.java:60-61 | only the named column changes |
| MigrationHelper.UpdateTransaction | app/src/org/gnucash/android/db/MigrationHelper.java:59-65 | only the rows with the UID, only that column; returns the affected count; the other tables stay |
| DatabaseHelper.Reached | app/src/org/gnucash/android/db/DatabaseHelper.java:129-221 | the version never decreases, and never passes the target or 6 unless nothing ran |
| DatabaseHelper.UpgradeToSevenWarns | app/src/org/gnucash/android/db/DatabaseHelper.java:223-274 | every upgrade to 7 ends at version 6 and so logs the failure warning |
| DatabaseHelper.ReachedCorrected | app/src/org/gnucash/android/db/DatabaseHelper.java:223-269 | with the 6→7 step recorded (still guarded by a target of exactly 7), the version never decreases and never passes the target or 7 |
| DatabaseHelper.CorrectedReachesTarget | app/src/org/gnucash/android/db/DatabaseHelper.java:129-274 | with the step recorded, every upgrade within versions 1..7 reaches its target; the code agrees with it exactly when the target is at most 6 or nothing runs |
| DatabaseHelper.TargetsAboveSevenUnaffected | app/src/org/gnucash/android/db/DatabaseHelper.java:223 | for a target above 7 the correction changes nothing: the upgrade stops below the target and still warns |
| DatabaseHelper.CashAccounts | app/src/org/gnucash/android/db/DatabaseHelper.java:148-150 | every account row's type becomes CASH, nothing else changes |
| DatabaseHelper.CashAccountsHaveNoRoot | app/src/org/gnucash/android/db/DatabaseHelper.java:148-150 | after the reset no ROOT account exists, so the later backfill walks to the top |
| DatabaseHelper.Backfilled | app/src/org/gnucash/android/db/DatabaseHelper.java:199-214 | same row ids and next id |
| DatabaseHelper.Backfill | app/src/org/gnucash/android/db/DatabaseHelper.java:192-221 | when the backfill does not throw, the tables keep their constraints |
| DatabaseHelper.BackfilledNames | app/src/org/gnucash/android/db/DatabaseHelper.java:202-214 | each account gets the walk's name when it has one and keeps its column otherwise; no other column changes; a changed name ends with the account's own |
| DatabaseHelper.FilledRowFacts | app/src/org/gnucash/android/db/DatabaseHelper.java:203-213 | one row's write: same hierarchy columns, the walk's name if any |
| DatabaseHelper.BackfilledNameEnds | app/src/org/gnucash/android/db/DatabaseHelper.java:204-213 | a written full name is the own name or ends with separator + own name |
| DatabaseHelper.BackfillIdempotent | app/src/org/gnucash/android/db/DatabaseHelper.java:199-214 | running the backfill a second time changes nothing and diverges exactly when the first did |
| DatabaseHelper.RefilledRow | app/src/org/gnucash/android/db/DatabaseHelper.java:203-213 | a backfilled row is its own refilled form |
| DatabaseHelper.Convert | app/src/org/gnucash/android/db/DatabaseHelper.java:230-260 | aborts iff some legacy row has no currency or an unknown type; otherwise keeps the constraints |
| DatabaseHelper.StampAll | app/src/org/gnucash/android/db/DatabaseHelper.java:240-245 | row ids and UIDs are kept and stay unique |
| DatabaseHelper.Upgrade | app/src/org/gnucash/android/db/DatabaseHelper.java:125-275 | the tables after a completed upgrade keep the constraints |
| DatabaseHelper.EarlySteps | app/src/org/gnucash/android/db/DatabaseHelper.java:132-190 | the steps up to 5 keep the constraints |
| DatabaseHelper.LaterSteps | app/src/org/gnucash/android/db/DatabaseHelper.java:192-221 | the 5→6 step keeps the constraints or throws |
| DatabaseHelper.UpgradeKeepsData | app/src/org/gnucash/android/db/DatabaseHelper.java:129 | nothing changes when the old version is not below the new one, when it is outside 1..6, or when only steps among versions 2..5 run (they only add columns) |
| DatabaseHelper.UpgradeAborts | app/src/org/gnucash/android/db/DatabaseHelper.java:192-260 | an upgrade throws only in the backfill or in the conversion of an unreadable legacy row |
| DatabaseHelper.UpgradeToSevenLosesSplits | app/src/org/gnucash/android/db/DatabaseHelper.java:250-259 | as written, an upgrade to 7 leaves the splits table empty while every transaction remains |
| DatabaseHelper.OnUpgrade | app/src/org/gnucash/android/db/DatabaseHelper.java:125-275 | the tables become those of `Upgrade`, or are rolled back on an exception; the version reached is `Reached` and the warning fires iff it differs from the target |
| DatabaseHelper.UpgradeToSix | app/src/org/gnucash/android/db/DatabaseHelper.java:192-221 | the 5→6 step: reports the version the whole chain reaches, and the tables become those of the later steps unless it throws |
| DatabaseHelper.UpgradeToFive | app/src/org/gnucash/android/db/DatabaseHelper.java:132-190 | the tables become those of the steps up to 5 (with the account-type reset), and the version reached is the target capped at 5 when the old version is in 1..5 |
| DatabaseHelper.BackfillFullNames | app/src/org/gnucash/android/db/DatabaseHelper.java:199-218 | the accounts table becomes `Backfilled`, or the loop throws iff some walk never ends; other tables stay |
| DatabaseHelper.FilledAll | app/src/org/gnucash/android/db/DatabaseHelper.java:202-214 | after the last loop round the table is the backfilled one |
| DatabaseHelper.FillRow | app/src/org/gnucash/android/db/DatabaseHelper.java:203-213 | one loop round fills one more row, or throws |
| DatabaseHelper.FillStep | app/src/org/gnucash/android/db/DatabaseHelper.java:204 | the walk on the partly filled table is the walk on the original |
| DatabaseHelper.FillWrite | app/src/org/gnucash/android/db/DatabaseHelper.java:209-213 | writing the walked name fills row id |
| DatabaseHelper.FillKeep | app/src/org/gnucash/android/db/DatabaseHelper.java:206-207 | a NULL name skips the row, which is then already filled |
| DatabaseHelper.MigrateToSplits | app/src/org/gnucash/android/db/DatabaseHelper.java:230-260 | the 6→7 conversion loop as written gives `Convert`'s tables (empty splits table) or throws |
| DatabaseHelper.ConvertRow | app/src/org/gnucash/android/db/DatabaseHelper.java:238-259 | one legacy row: its currency is set, and its inserts are rejected |
| DatabaseHelper.WriteSplitsAsWritten | app/src/org/gnucash/android/db/DatabaseHelper.java:250-259 | builds the split and, with a second account, its pair; both inserts are rejected |
| DatabaseHelper.StampStep | app/src/org/gnucash/android/db/DatabaseHelper.java:245 | setting the currency by UID changes that one transaction only |
| DatabaseHelper.StampedAll | app/src/org/gnucash/android/db/DatabaseHelper.java:237-260 | after the loop every transaction has its account's currency |
| DatabaseHelper.LegacyRows | app/src/org/gnucash/android/db/DatabaseHelper.java:250-259 | one or two rows per legacy transaction, each carrying its UID, amount and one of its accounts |
| DatabaseHelper.MigratedBelow | app/src/org/gnucash/android/db/DatabaseHelper.java:237-260 | one row per UID drawn |
| DatabaseHelper.MigratedBelongs | app/src/org/gnucash/android/db/DatabaseHelper.java:237-260 | every split written belongs to one legacy transaction |
| DatabaseHelper.LegacyRowsBalance | app/src/org/gnucash/android/db/DatabaseHelper.java:255-259 | a legacy transfer between two accounts of the same polarity becomes a balanced pair |
| DatabaseHelper.WriteLegacySplits | app/src/org/gnucash/android/db/DatabaseHelper.java:250-259 | with the corrected addSplit, the rows `LegacyRows` describes are appended in order |
| DatabaseHelper.WritePairThenSplit | app/src/org/gnucash/android/db/DatabaseHelper.java:255-259 | the pair is written before the split |
| DatabaseHelper.PairThenSplitRows | app/src/org/gnucash/android/db/DatabaseHelper.java:255-259 | the two rows are the pair (inverted type, second account) and then the split |
| DatabaseHelper.WritePair | app/src/org/gnucash/android/db/DatabaseHelper.java:256 | `createPair` draws a new UID, and the pair row (inverted type, second account, the transaction's UID) is appended; no row carries the split's UID yet |
| DatabaseHelper.NotTaken | app/src/org/gnucash/android/model/Split.java:52 | a later UID is in no stored row |
| DatabaseHelper.AddFreshSplit | app/src/org/gnucash/android/db/MigrationHelper.java:26 | a split with an unused UID is stored last |
| DatabaseHelper.MigrateToSplitsCorrected | app/src/org/gnucash/android/db/DatabaseHelper.java:230-260 | with the corrected addSplit: succeeds iff no legacy row is unreadable; then the accounts stay, the transactions are as in the conversion, and the splits table holds `MigratedBelow` in row order |
| DatabaseHelper.MigratingEnds | app/src/org/gnucash/android/db/DatabaseHelper.java:237-260 | after the loop every transaction has its currency and the splits are `MigratedBelow` |
| DatabaseHelper.MigrateStepCorrected | app/src/org/gnucash/android/db/DatabaseHelper.java:237-260 | one loop round ends iff the row is absent or readable, and then the loop invariant holds for the next row |
| DatabaseHelper.MigratedAppend | app/src/org/gnucash/android/db/DatabaseHelper.java:250-259 | one more row's splits extend the table to the next id's |
| DatabaseHelper.ConvertRowCorrected | app/src/org/gnucash/android/db/DatabaseHelper.java:238-259 | one legacy row: currency set and `LegacyRows` appended |
| ToggleButton.CaptionsDistinguishStates | app/src/org/gnucash/android/ui/util/TransactionTypeToggleButton.java:48-97 | the two captions of every type are non-empty and differ |
| ToggleButton.SharedCaptions | app/src/org/gnucash/android/ui/util/TransactionTypeToggleButton.java:61-95 | Decrease/Increase exactly for ASSET, LIABILITY and EQUITY; Buy/Sell exactly for STOCK and MUTUAL; Debit/Credit exactly for CURRENCY and ROOT |
| ToggleButton.TypeToggle.constructor | app/src/org/gnucash/android/ui/util/TransactionTypeToggleButton.java:32 | a new button is unchecked, with account type EXPENSE, showing the layout's captions |
| ToggleButton.TypeToggle.SetAccountType | app/src/org/gnucash/android/ui/util/TransactionTypeToggleButton.java:46-99 | stores the type, keeps the checked state, installs the type's captions and shows the one for the checked state |
| ToggleButton.TypeToggle.SetChecked | app/src/org/gnucash/android/ui/util/TransactionTypeToggleButton.java:97 | only the checked state changes, and the caption shown follows it |
| ToggleButton.TypeToggle.GetAccountType | app/src/org/gnucash/android/ui/util/TransactionTypeToggleButton.java:101-103 | returns the type last set |
| ToggleButton.TypeToggle.GetTransactionType | app/src/org/gnucash/android/ui/util/TransactionTypeToggleButton.java:105-111 | equals `getTypeForBalance(type, checked)`; CREDIT iff the debit-normal flag equals the checked state |
| ToggleButton.ToggleFlipsType | app/src/org/gnucash/android/ui/util/TransactionTypeToggleButton.java:106-110 | toggling always flips the returned type |
| ToggleButton.CheckedReducesBalance | app/src/org/gnucash/android/ui/util/TransactionTypeToggleButton.java:105-111 | a non-zero split of the returned type lowers the balance iff the button is checked |
| AccountForm.SameTypeNests | app/src/org/gnucash/android/ui/account/AccountFormFragment.java:581-618 | every type may go under its own type |
| AccountForm.RootParentsAllButEquity | app/src/org/gnucash/android/ui/account/AccountFormFragment.java:581-618 | a ROOT account may parent every type except EQUITY |
| AccountForm.EquityIsolated | app/src/org/gnucash/android/ui/account/AccountFormFragment.java:582-583 | EQUITY goes only under EQUITY, and only EQUITY and ROOT go under EQUITY |
| AccountForm.IncomeExpenseClosed | app/src/org/gnucash/android/ui/account/AccountFormFragment.java:585-588 | INCOME and EXPENSE go only under INCOME, EXPENSE or ROOT |
| AccountForm.BalanceSheetParents | app/src/org/gnucash/android/ui/account/AccountFormFragment.java:590-613 | CASH … MUTUAL may go under any type except EQUITY, EXPENSE and INCOME |
| AccountForm.DropBracketsConcat | app/src/org/gnucash/android/ui/account/AccountFormFragment.java:627 | removing brackets distributes over concatenation |
| AccountForm.DropBracketsPlain | app/src/org/gnucash/android/ui/account/AccountFormFragment.java:627 | a bracket-free string is unchanged |
| AccountForm.NamePlain | app/src/org/gnucash/android/ui/account/AccountFormFragment.java:627 | every type name is non-empty, trimmed and free of commas, quotes and brackets |
| AccountForm.AllNamesPlain | app/src/org/gnucash/android/ui/account/AccountFormFragment.java:627 | so is every name of `values()` |
| AccountForm.BracketsDropped | app/src/org/gnucash/android/ui/account/AccountFormFragment.java:627 | removing the outer brackets of `Arrays.toString` leaves its body |
| AccountForm.BareNamesJoined | app/src/org/gnucash/android/ui/account/AccountFormFragment.java:618 | `Arrays.toString(values())` with brackets removed is the names joined by ", " |
| AccountForm.BareNameParts | app/src/org/gnucash/android/ui/account/AccountFormFragment.java:627 | splitting that list on ',' gives the first name bare and the others behind a blank |
| AccountForm.TrimmedParts | app/src/org/gnucash/android/ui/account/AccountFormFragment.java:629-631 | trimming each piece gives back the name |
| AccountForm.AccountTypeStringList | app/src/org/gnucash/android/ui/account/AccountFormFragment.java:626-634 | exactly the names of all types, once each, trimmed, in the order of `AllTypes` |
| AccountForm.TrimEach | app/src/org/gnucash/android/ui/account/AccountFormFragment.java:629-631 | each piece trimmed, in order |
| AccountForm.QuoteAll | app/src/org/gnucash/android/ui/account/AccountFormFragment.java:607-609 | each name quoted, in order |
| AccountForm.QuotePlain | app/src/org/gnucash/android/ui/account/AccountFormFragment.java:608 | a quoted name is one SQL literal denoting the name |
| AccountForm.UnquotePadded | app/src/org/gnucash/android/ui/account/AccountFormFragment.java:587-609 | quoted names behind blanks read back as the names |
| AccountForm.QuotedListRoundTrip | app/src/org/gnucash/android/ui/account/AccountFormFragment.java:587-612 | a list of quoted names joined by "," or ", " denotes exactly those names |
| AccountForm.BareListRejected | app/src/org/gnucash/android/ui/account/AccountFormFragment.java:618 | an unquoted list of names denotes no values (its items are identifiers) |
| AccountForm.RemoveMembers | app/src/org/gnucash/android/ui/account/AccountFormFragment.java:602-604 | in a repeat-free list, `remove` drops exactly the element asked for |
| AccountForm.NamesDistinct | app/src/org/gnucash/android/ui/account/AccountFormFragment.java:602-604 | distinct types have distinct names |
| AccountForm.NamesListed | app/src/org/gnucash/android/ui/account/AccountFormFragment.java:602-604 | a type's name is listed iff the type is |
| AccountForm.ListsParentsByName | app/src/org/gnucash/android/ui/account/AccountFormFragment.java:579-620 | a repeat-free list of type names that contains a name iff that type may parent lists the parents |
| AccountForm.NameIs | app/src/org/gnucash/android/ui/account/AccountFormFragment.java:602-604 | two names agree iff the types do |
| AccountForm.QuotedList | app/src/org/gnucash/android/ui/account/AccountFormFragment.java:606-612 | the loop then the final-comma cut give the quoted names joined by "," |
| AccountForm.TerminatedJoin | app/src/org/gnucash/android/ui/account/AccountFormFragment.java:606-612 | the loop's string is the joined list plus a last comma |
| AccountForm.AllowedParentAccountTypes | app/src/org/gnucash/android/ui/account/AccountFormFragment.java:579-620 | except for ROOT, the IN list denotes exactly the allowed parent types, each once; for ROOT (as written) it denotes no values |
| AccountForm.OtherParentList | app/src/org/gnucash/android/ui/account/AccountFormFragment.java:599-614 | for CASH … MUTUAL it denotes every type except EQUITY, EXPENSE and INCOME |
| AccountForm.EquityListReads | app/src/org/gnucash/android/ui/account/AccountFormFragment.java:582-583 | the EQUITY list denotes exactly EQUITY |
| AccountForm.IncomeExpenseListReads | app/src/org/gnucash/android/ui/account/AccountFormFragment.java:585-588 | the INCOME/EXPENSE list denotes exactly EXPENSE, INCOME and ROOT |
| AccountForm.BareNamesRejected | app/src/org/gnucash/android/ui/account/AccountFormFragment.java:616-618 | the ROOT/default list as written denotes no values |
| AccountForm.RemovedThree | app/src/org/gnucash/android/ui/account/AccountFormFragment.java:600-604 | after the three removals a type's name remains iff the type is not EQUITY, EXPENSE or INCOME |
| AccountForm.ParentListReads | app/src/org/gnucash/android/ui/account/AccountFormFragment.java:599-612 | the quoted remaining names list exactly the allowed parents |
| AccountForm.AllTypesListReads | app/src/org/gnucash/android/ui/account/AccountFormFragment.java:616-618 | every type name, quoted, lists exactly ROOT's parents |
| AccountForm.EveryTypeListed | app/src/org/gnucash/android/ui/account/AccountFormFragment.java:616-618 | every type may parent a ROOT account |
| AccountForm.AllowedParentAccountTypesCorrected | app/src/org/gnucash/android/ui/account/AccountFormFragment.java:579-620 | with the ROOT list quoted, the IN list denotes exactly the allowed parents for every type |
| AccountForm.ParentCandidates | app/src/org/gnucash/android/ui/account/AccountFormFragment.java:541-558 | the query fails iff the IN list has no values |
| AccountForm.CandidatesByType | app/src/org/gnucash/android/ui/account/AccountFormFragment.java:542-549 | an account is offered iff its type may parent and it is neither the edited account nor its direct child |
| AccountForm.ListedMeansAllowed | app/src/org/gnucash/android/ui/account/AccountFormFragment.java:542-543 | a stored type is in the list iff it names an allowed parent type |
| AccountForm.GrandchildOffered | app/src/org/gnucash/android/ui/account/AccountFormFragment.java:545-551 | a grandchild of the edited account is still offered, so a cycle can be made |
| AccountForm.TransferOffers | app/src/org/gnucash/android/ui/account/AccountFormFragment.java:516-519 | whichever account is selected, the ROOT account and placeholders are never offered, every other stored account except the selected one is, and nothing else is |
| AccountForm.PlaceholderWithdrawn | app/src/org/gnucash/android/ui/account/AccountFormFragment.java:518 | turning an account into a placeholder removes exactly that account from the offered set |
| AccountForm.TransferWithoutRoot | app/src/org/gnucash/android/ui/account/AccountFormFragment.java:519 | without a ROOT account only a UID spelled "null" is dropped |
| AccountForm.Pow16 | app/src/org/gnucash/android/ui/account/AccountFormFragment.java:180 | positive |
| AccountForm.Hex | app/src/org/gnucash/android/ui/account/AccountFormFragment.java:180 | n upper-case hex digits that read back as the value |
| AccountForm.SelectedColor | app/src/org/gnucash/android/ui/account/AccountFormFragment.java:178-180 | "#" and six upper-case hex digits denoting the colour's low 24 bits |
| AccountForm.SelectedColorIdentifiesRgb | app/src/org/gnucash/android/ui/account/AccountFormFragment.java:180 | two colours give the same string iff their RGB parts agree |
| AccountForm.AlphaIgnored | app/src/org/gnucash/android/ui/account/AccountFormFragment.java:180 | the alpha byte does not change the string |

## Left out

- Android plumbing. Activities, views, spinners, cursor adapters and logging are out: only the rules and table changes are modelled.
- SQLite itself. DDL text, `ALTER TABLE` and column defaults are out: every row carries every column from the start.
- Foreign keys. They are not enforced, as SQLite on Android leaves them off by default.
- NOT NULL constraints. Only those of the splits table's `account_uid` and `transaction_uid` columns are modelled. The other NOT NULL columns, for example the transaction currency that step 6→7 adds, hold whatever the rows hold.
- `SQLiteOpenHelper`. It records the new version and wraps `onUpgrade` in one database transaction. The model keeps only the rollback on an exception, and `onUpgrade` reports the version it reached.
- Currencies and decimals. `Currency.getInstance` and `BigDecimal` parsing belong to the Java library, and `Money` lives in `model/Money.java`, outside the modelled files. Money is an integer amount of minor units with a currency code. A legacy row that cannot be read (a NULL currency or an unknown type name) is the exception path.
- `hasDebitNormalBalance`. It lives in `model/AccountType.java`, outside the modelled files, so it is a parameter.
- The lookups inside `computeBalance`. The accounts-table lookups of type and currency are parameters.
- `getGnuCashRootAccountUID` as `AccountsDbAdapter` computes it. It lives in `db/AccountsDbAdapter.java`, outside the modelled files, so it is a parameter of the form rules.
- Clocks and UUIDs. `System.currentTimeMillis` and UUID randomness are parameters, or the fresh-identifier oracle `Uids.UidSource`.
- The toggle button's layout captions. Its initial captions come from the layout and are constructor parameters.
- `Transaction.toOfx`, `toQIF` and `createIntent`, the exporters, and the split editor dialog. They are XML and QIF serialisation, Intents and UI, and depend on the exporters under `export/`, which are outside the modelled files.
- Setters and getters of `Transaction` that only store or return a field. This covers the time, description, UID, recurrence period and currency code. Only `setName` (which trims) and the exported flag are modelled.
- `SplitsDbAdapter.getSplit`, `getUID`, `getTransactionUID`, `getSplitsForTransactionInAccount`, `getSplitsForTransaction(long)`, `deleteAllRecords` and `fetch*`. They are covered only through the lookups and queries that `deleteRecord`, `deleteSplitsForTransaction` and `getSplitsForTransaction` use. Each is a single query or delete over `Store`.
- Sort orders. The ROOT lookup of `getGnuCashRootAccountUID` sorts by name (MigrationHelper.java:123-126); this is modelled, and rows with equal names are taken in row id order, which SQLite leaves open. The parent and default-transfer pickers sort by full name through `fetchAccountsOrderedByFullName` (AccountFormFragment.java:523, 558); they are modelled as sets (`AccountForm.ParentCandidates`, `AccountForm.TransferCandidates`), so their order is not modelled. `fetchSplitsForTransactionAndAccount` sorts by amount, which is not modelled. Queries that name no order are scanned in row id order.
- MigrationHelper.FullName: the walk's depth is bounded by a fuel argument. The backfill passes the number of account rows. It is not proved that this depth suffices for every acyclic hierarchy. An acyclic chain longer than the fuel would read as a stack overflow.
- SplitModel.Split.CreatePair: requires the split's type to be set. Inverting an unset type throws in the source, and the model does not represent that exception.
- SplitsDb.SplitsDbAdapter.AddSplit: requires a type, and requires a transaction UID when the row already exists. The source throws (a null dereference, a SQLite constraint) otherwise, and those exceptions are not modelled.
- SplitsDb.SplitsDbAdapter.DeleteRecord: requires the row to exist. The source dereferences the missing split and throws.
- SplitsDb.SplitsDbAdapter.DeleteSplitsForTransaction: requires the transaction row to exist. The source binds a NULL argument and throws.
- SplitsDb.SplitsDbAdapter.DeleteSplitsForTransactionAndAccount: requires the transaction and account rows to exist, for the same reason.
- AccountTypes.AllTypes and AccountForm.AccountTypeStringList: the order of `AccountType.values()` is assumed. The enum is declared in `model/Account.java`, which is outside the modelled files. `AllTypes` fixes one order, so the exact text of `Arrays.toString(values())` (`AccountForm.BareNamesJoined`) and the order of `AccountTypeStringList` depend on that assumption. The parent-type queries read the `IN` list only as a set, so their meaning does not depend on it.
- TransactionModel.Transaction.SetSplits: the argument is modelled as a sequence value, so it never aliases the transaction's own list. In the source, `t.setSplits(t.getSplits())` clears `mSplitList` and then iterates over that same, now empty, list, leaving the transaction with no splits (Transaction.java:151-153 and 192-195). The model's `splits == list` does not cover that call.
- TransactionModel.Transaction.ComputeBalance, TransactionModel.Transaction.AddSplitAmount and TransactionModel.Transaction.GetFormattedAmount: the balance starts in the account's currency (in the transaction's currency for `getFormattedAmount`, Transaction.java:291-294), and each split's units are added whatever that split's currency. A split's currency can differ after `addSplit` stamped it, because split objects are shared and `Split.setAmount` may give them another currency. What `Money.add` and `Money.subtract` do with two different currencies (Transaction.java:241-251) lives in `model/Money.java` and is not modelled.
- Strings.EqualsIgnoreCase: folds only ASCII letters, while Java's `equalsIgnoreCase` also folds other Unicode letters. In the modelled paths it only compares account UIDs, which are hexadecimal.
- DatabaseHelper.OnUpgrade: models the code as written, so it uses the as-written conversion and the version that is never recorded. The corrected members stand beside it.

## Findings

| source | as written | input that shows it | evidently intended | confidence | as-written member | corrected member |
|---|---|---|---|---|---|---|
| app/src/org/gnucash/android/db/SplitsDbAdapter.java:313-320 | deletes the transaction when `getCount() > 0`, i.e. while splits of it remain | a transaction with splits A and B; deleting A deletes the transaction, leaving B orphaned; deleting a sole split keeps an empty transaction | delete the transaction when no split of it remains, as the comment says | high, not executed | SplitsDb.SplitsDbAdapter.DeleteRecord, SplitsDb.DeleteRecordInvertsCondition | SplitsDb.SplitsDbAdapter.DeleteRecordCorrected, SplitsDb.DeleteRecordCorrectedKeepsReferences |
| app/src/org/gnucash/android/db/MigrationHelper.java:18-28 | `addSplit` never writes `account_uid`, and the pair made by `createPair` at DatabaseHelper.java:256 has no transaction UID | any legacy transaction row upgraded from version 6 to 7: the NOT NULL `account_uid` column rejects every insert, so the splits table stays empty | write the account UID and give the pair its transaction's UID, so each legacy row becomes its split (and pair) | high, not executed | MigrationHelper.AddSplit, MigrationHelper.MigrationInsertRejected, DatabaseHelper.MigrateToSplits, DatabaseHelper.UpgradeToSevenLosesSplits | MigrationHelper.AddSplitCorrected, DatabaseHelper.MigrateToSplitsCorrected, DatabaseHelper.LegacyRowsBalance |
| app/src/org/gnucash/android/model/Transaction.java:127-137 | `setSplits` stamps the splits with the fresh UID before `setUID` restores the original one | copying with `generateNewUID = false`: the copy's UID is the original's, but every split (shared with the original) carries the throwaway UID | settle the UID first, so the splits carry the copy's UID | medium, not executed | TransactionModel.Transaction.Copy | TransactionModel.Transaction.CopyCorrected |
| app/src/org/gnucash/android/ui/account/AccountFormFragment.java:616-618 | the ROOT/default list is `Arrays.toString(values())` without quotes | editing a ROOT account: `type IN (CASH, BANK, …)` names columns, not values, so the parent query fails | quote each name like the other cases | high, not executed | AccountForm.AllowedParentAccountTypes, AccountForm.BareNamesRejected | AccountForm.AllowedParentAccountTypesCorrected |
| app/src/org/gnucash/android/db/DatabaseHelper.java:223-274 | the 6→7 step never sets `oldVersion = 7` | any upgrade to version 7: the final check sees 6 ≠ 7 and logs that the upgrade failed | record the version after the step | high, not executed | DatabaseHelper.Reached, DatabaseHelper.UpgradeToSevenWarns | DatabaseHelper.ReachedCorrected, DatabaseHelper.CorrectedReachesTarget, DatabaseHelper.TargetsAboveSevenUnaffected |
