/**
 * SplitsDbAdapter.java: the splits table's adapter. It upserts splits keyed by
 * UID, sums an account's split rows under the polarity rule, reads a
 * transaction's splits back, and deletes splits together with their
 * transaction.
 */
module SplitsDb {
  import opened Wrappers
  import opened AccountTypes
  import opened TransactionTypes
  import opened Ledger
  import opened SplitModel
  import opened Store

  /** WHERE uid = ? */
  function KeyIs(uid: string): SplitRow -> bool {
    (r: SplitRow) => r.uid == uid
  }

  /** WHERE account_uid = ? */
  function OfAccount(account: string): SplitRow -> bool {
    (r: SplitRow) => r.accountUid == account
  }

  /** WHERE transaction_uid = ? */
  function OfTransaction(transactionUid: string): SplitRow -> bool {
    (r: SplitRow) => r.transactionUid == transactionUid
  }

  /** WHERE transaction_uid = ? AND account_uid = ? */
  function OfTransactionAndAccount(transactionUid: string, account: string): SplitRow -> bool {
    (r: SplitRow) => r.transactionUid == transactionUid && r.accountUid == account
  }

  /** Every row of a table (a query without WHERE clause). */
  function All<R>(): R -> bool {
    r => true
  }

  /** The ContentValues addSplit builds: UID, transaction UID, absolute amount, type, account UID. */
  function ColumnsOf(v: SplitValue): (c: SplitColumns)
    requires v.splitType.Some?
    ensures c.amount >= 0 && c.amount == Abs(v.amount.units)
    ensures c.accountUid == Some(v.accountUid)
  {
    SplitColumns(v.uid, v.transactionUid, Abs(v.amount.units), v.splitType.value, Some(v.accountUid))
  }

  /** An UPDATE of a split row with those ContentValues: the memo column keeps its value. */
  function Rewrite(row: SplitRow, c: SplitColumns): SplitRow
    requires c.accountUid.Some? && c.transactionUid.Some?
  {
    SplitRow(c.uid, row.memo, c.splitType, c.amount, c.accountUid.value, c.transactionUid.value)
  }

  /**
   * addSplit as a function of the table: update the first row with the UID and
   * return its id, otherwise insert. A NULL transaction UID on the update path
   * makes SQLite throw, which is why it is excluded there.
   */
  function Upsert(t: Table<SplitRow>, c: SplitColumns): (Table<SplitRow>, int)
    requires WellFormed(t) && c.accountUid.Some?
    requires c.transactionUid.Some? || !UidTaken(t, c.uid)
  {
    var id := First(t, KeyIs(c.uid));
    if id > 0 then (Table(t.rows[id := Rewrite(t.rows[id], c)], t.next), id)
    else InsertSplit(t, c)
  }

  /**
   * The upsert is keyed by UID: an existing row with the UID is rewritten in
   * place (same ids, its memo kept, other rows untouched); otherwise one row is
   * inserted under a new id, unless the NULL transaction UID is rejected.
   */
  lemma UpsertKeyedByUid(t: Table<SplitRow>, c: SplitColumns)
    requires WellFormed(t) && c.accountUid.Some?
    requires c.transactionUid.Some? || !UidTaken(t, c.uid)
    ensures var (t', id) := Upsert(t, c);
            WellFormed(t') &&
            (UidTaken(t, c.uid) ==>
               && id in t.rows && t.rows[id].uid == c.uid
               && t'.rows.Keys == t.rows.Keys
               && t'.rows[id] == Rewrite(t.rows[id], c) && t'.rows[id].memo == t.rows[id].memo
               && forall i :: i in t.rows && i != id ==> t'.rows[i] == t.rows[i]) &&
            (!UidTaken(t, c.uid) ==>
               && (id == -1 <==> c.transactionUid.None?)
               && (id == -1 ==> t' == t)
               && (id != -1 ==>
                     && id !in t.rows && t'.rows.Keys == t.rows.Keys + {id}
                     && forall i :: i in t.rows ==> t'.rows[i] == t.rows[i]))
  {
  }

  /** The row count grows by at most one, and not at all when the UID is already stored. */
  lemma UpsertCount(t: Table<SplitRow>, c: SplitColumns)
    requires WellFormed(t) && c.accountUid.Some?
    requires c.transactionUid.Some? || !UidTaken(t, c.uid)
    ensures |Upsert(t, c).0.rows| <= |t.rows| + 1
    ensures UidTaken(t, c.uid) ==> |Upsert(t, c).0.rows| == |t.rows|
  {
    var id := First(t, KeyIs(c.uid));
    if id > 0 {
      assert id in t.rows;
      assert Upsert(t, c).0.rows.Keys == t.rows.Keys;
    }
  }

  /** Saving the same split twice leaves the table, and the returned id, as after saving it once. */
  lemma UpsertIdempotent(t: Table<SplitRow>, c: SplitColumns)
    requires WellFormed(t) && c.accountUid.Some?
    requires c.transactionUid.Some? || !UidTaken(t, c.uid)
    ensures var (t', id) := Upsert(t, c);
            (c.transactionUid.Some? || !UidTaken(t', c.uid)) && Upsert(t', c) == (t', id)
  {
    var (t', id) := Upsert(t, c);
    var first := First(t, KeyIs(c.uid));
    if first > 0 {
      var first' := First(t', KeyIs(c.uid));
      assert t'.rows[first].uid == c.uid;
      assert Rewrite(t'.rows[first], c) == t'.rows[first];
      assert t'.rows[first := Rewrite(t'.rows[first], c)] == t'.rows;
      assert first' == first by {
        assert KeyIs(c.uid)(t'.rows[first]);
        forall i | i in t'.rows && i < first
          ensures !KeyIs(c.uid)(t'.rows[i])
        {
          assert t'.rows[i] == t.rows[i];
        }
      }
    } else if id != -1 {
      var first' := First(t', KeyIs(c.uid));
      assert KeyIs(c.uid)(t'.rows[id]);
      assert first' == id by {
        forall i | i in t'.rows && i != id
          ensures !KeyIs(c.uid)(t'.rows[i])
        {
          assert t'.rows[i] == t.rows[i];
        }
      }
      var row := t'.rows[id];
      assert Rewrite(row, c) == row;
      assert t'.rows[id := Rewrite(row, c)] == t'.rows;
    }
  }

  /** All stored amounts are non-negative, as this adapter stores absolute values. */
  predicate AmountsNonNegative(t: Table<SplitRow>) {
    forall id :: id in t.rows ==> t.rows[id].amount >= 0
  }

  /** The upsert keeps the UIDs unique and, since it stores absolute values, the amounts non-negative. */
  lemma UpsertPreserves(t: Table<SplitRow>, c: SplitColumns)
    requires WellFormed(t) && c.accountUid.Some?
    requires c.transactionUid.Some? || !UidTaken(t, c.uid)
    ensures UniqueUids(t) ==> UniqueUids(Upsert(t, c).0)
    ensures AmountsNonNegative(t) && c.amount >= 0 ==> AmountsNonNegative(Upsert(t, c).0)
  {
    var id := First(t, KeyIs(c.uid));
    if id > 0 {
      assert Upsert(t, c).0.rows[id].uid == t.rows[id].uid;
    }
  }

  /** The polarity rule applied to stored rows, as computeSplitBalance sums them. */
  function RowsBalance(rs: seq<SplitRow>, isDebitAccount: bool): int {
    if rs == [] then 0
    else
      var last := rs[|rs| - 1];
      RowsBalance(rs[..|rs| - 1], isDebitAccount) + Signed(last.amount, last.splitType == DEBIT, isDebitAccount)
  }

  /** A stored row read back as a split, the way buildSplitInstance does (the memo is not read). */
  function RowValue(r: SplitRow, currency: string): (v: SplitValue)
    ensures v.accountUid == r.accountUid && v.amount.units == r.amount && v.splitType == Some(r.splitType)
  {
    SplitValue(Money(r.amount, currency), r.uid, Some(r.transactionUid), r.accountUid, Some(r.splitType), None)
  }

  function RowValues(rs: seq<SplitRow>, currencyOf: string -> string): (vs: seq<SplitValue>)
    ensures |vs| == |rs|
  {
    if rs == [] then []
    else RowValues(rs[..|rs| - 1], currencyOf) + [RowValue(rs[|rs| - 1], currencyOf(rs[|rs| - 1].accountUid))]
  }

  /** Reading rows back is position by position: the k-th split is the k-th row. */
  lemma {:induction false} RowValuesAt(rs: seq<SplitRow>, currencyOf: string -> string)
    ensures forall k :: 0 <= k < |rs| ==> RowValues(rs, currencyOf)[k] == RowValue(rs[k], currencyOf(rs[k].accountUid))
  {
    if rs != [] {
      RowValuesAt(rs[..|rs| - 1], currencyOf);
    }
  }

  /**
   * Over a table whose amounts are non-negative (all this adapter writes), the
   * stored balance of an account is the ledger balance of the whole table read
   * back as splits: the same polarity rule as Transaction.computeBalance.
   */
  lemma {:induction false} TableBalanceIsLedgerBalance(rows: map<int, SplitRow>, account: string, isDebitAccount: bool,
                                                       currencyOf: string -> string, hi: int)
    requires forall id :: id in rows ==> rows[id].amount >= 0
    ensures RowsBalance(Scan(rows, OfAccount(account), hi), isDebitAccount)
            == Balance(account, RowValues(Scan(rows, All(), hi), currencyOf), isDebitAccount)
    decreases hi
  {
    if hi > 1 {
      TableBalanceIsLedgerBalance(rows, account, isDebitAccount, currencyOf, hi - 1);
      ScanStep(rows, OfAccount(account), hi - 1);
      ScanStep(rows, All(), hi - 1);
      if hi - 1 in rows {
        var r := rows[hi - 1];
        var every := Scan(rows, All(), hi - 1);
        RowValuesSnoc(every, r, currencyOf);
        var v := RowValue(r, currencyOf(r.accountUid));
        BalanceSnoc(account, RowValues(every, currencyOf), v, isDebitAccount);
        if r.accountUid == account {
          RowsBalanceSnoc(Scan(rows, OfAccount(account), hi - 1), r, isDebitAccount);
        }
      }
    }
  }

  lemma RowValuesSnoc(rs: seq<SplitRow>, r: SplitRow, currencyOf: string -> string)
    ensures RowValues(rs + [r], currencyOf) == RowValues(rs, currencyOf) + [RowValue(r, currencyOf(r.accountUid))]
  {
    assert (rs + [r])[..|rs|] == rs;
  }

  lemma RowsBalanceSnoc(rs: seq<SplitRow>, r: SplitRow, isDebitAccount: bool)
    ensures RowsBalance(rs + [r], isDebitAccount) == RowsBalance(rs, isDebitAccount) + Signed(r.amount, r.splitType == DEBIT, isDebitAccount)
  {
    assert (rs + [r])[..|rs|] == rs;
  }

  lemma BalanceSnoc(account: string, vs: seq<SplitValue>, v: SplitValue, isDebitAccount: bool)
    ensures Balance(account, vs + [v], isDebitAccount)
            == Balance(account, vs, isDebitAccount) + (if v.accountUid == account then Contribution(v, isDebitAccount) else 0)
  {
    assert (vs + [v])[..|vs|] == vs;
  }

  class SplitsDbAdapter {
    const db: Db

    constructor (db: Db)
      ensures this.db == db
    {
      this.db := db;
    }

    /** getID: the row id of the first split row with the UID, or -1 when there is none. */
    function GetID(uid: string): (id: int)
      reads db
      requires db.Valid()
      ensures id == -1 <==> !UidTaken(db.splits, uid)
      ensures id != -1 ==> id >= 1 && id in db.splits.rows && db.splits.rows[id].uid == uid
    {
      First(db.splits, KeyIs(uid))
    }

    /**
     * addSplit. Without a type the source throws by dereferencing null, so the
     * type is required; so is a transaction UID when the row already exists.
     */
    method AddSplit(split: Split) returns (rowId: int)
      requires db.Valid() && split.splitType.Some?
      requires split.transactionUid.Some? || !UidTaken(db.splits, split.uid)
      modifies db
      ensures db.Valid()
      ensures (db.splits, rowId) == Upsert(old(db.splits), ColumnsOf(split.Value()))
      ensures db.accounts == old(db.accounts) && db.transactions == old(db.transactions)
    {
      var columns := ColumnsOf(split.Value());
      rowId := GetID(split.uid);
      if rowId > 0 {
        db.splits := Table(db.splits.rows[rowId := Rewrite(db.splits.rows[rowId], columns)], db.splits.next);
      } else {
        var inserted := InsertSplit(db.splits, columns);
        db.splits, rowId := inserted.0, inserted.1;
      }
      UpsertPreserves(old(db.splits), columns);
    }

    /**
     * computeSplitBalance. The account's currency and type, which the source
     * looks up in the accounts table, are parameters.
     */
    method ComputeSplitBalance(account: string, debitNormal: Polarity, accountType: AccountType, currency: string)
      returns (splitSum: Money)
      requires db.Valid()
      ensures splitSum == Money(RowsBalance(Scan(db.splits.rows, OfAccount(account), db.splits.next),
                                             debitNormal(accountType)), currency)
      ensures Scan(db.splits.rows, OfAccount(account), db.splits.next) == [] ==> splitSum.units == 0
    {
      var isDebitAccount := debitNormal(accountType);
      var cursor := Scan(db.splits.rows, OfAccount(account), db.splits.next);
      splitSum := Money(0, currency);
      var i := 0;
      while i < |cursor|
        invariant 0 <= i <= |cursor|
        invariant splitSum.currency == currency
        invariant splitSum.units == RowsBalance(cursor[..i], isDebitAccount)
      {
        var row := cursor[i];
        assert cursor[..i + 1] == cursor[..i] + [row];
        RowsBalanceSnoc(cursor[..i], row, isDebitAccount);
        if isDebitAccount {
          if row.splitType == DEBIT {
            splitSum := Money(splitSum.units + row.amount, splitSum.currency);
          } else {
            splitSum := Money(splitSum.units - row.amount, splitSum.currency);
          }
        } else {
          if row.splitType == DEBIT {
            splitSum := Money(splitSum.units - row.amount, splitSum.currency);
          } else {
            splitSum := Money(splitSum.units + row.amount, splitSum.currency);
          }
        }
        i := i + 1;
      }
      assert cursor[..|cursor|] == cursor;
    }

    /**
     * buildSplitInstance. The UUID the Split constructor draws is replaced at
     * once by setUID, so the stored UID is passed in its place; the currency
     * comes from the account lookup, a parameter here.
     */
    static method BuildSplitInstance(row: SplitRow, currency: string) returns (split: Split)
      ensures fresh(split)
      ensures split.Value() == RowValue(row, currency)
    {
      split := new Split(Money(row.amount, currency), row.accountUid, row.uid);
      split.SetTransactionUid(row.transactionUid);
      split.SetType(row.splitType);
    }

    /**
     * getSplitsForTransaction(String): the query selects the transaction's rows
     * in id order and the cursor loop makes one new split per row.
     */
    method GetSplitsForTransaction(transactionUid: string, currencyOf: string -> string) returns (splitList: seq<Split>)
      requires db.Valid()
      ensures forall k :: 0 <= k < |splitList| ==> fresh(splitList[k])
      ensures Values(splitList) == RowValues(Scan(db.splits.rows, OfTransaction(transactionUid), db.splits.next), currencyOf)
    {
      var cursor := Scan(db.splits.rows, OfTransaction(transactionUid), db.splits.next);
      splitList := ReadSplits(cursor, currencyOf);
    }

    /** The cursor loop: the k-th split built is the k-th row read. */
    static method ReadSplits(cursor: seq<SplitRow>, currencyOf: string -> string) returns (splitList: seq<Split>)
      ensures forall k :: 0 <= k < |splitList| ==> fresh(splitList[k])
      ensures Values(splitList) == RowValues(cursor, currencyOf)
    {
      splitList := [];
      var i := 0;
      while i < |cursor|
        invariant 0 <= i <= |cursor| && |splitList| == i
        invariant forall k :: 0 <= k < i ==> fresh(splitList[k])
        invariant forall k :: 0 <= k < i ==> splitList[k].Value() == RowValue(cursor[k], currencyOf(cursor[k].accountUid))
      {
        var split := BuildSplitInstance(cursor[i], currencyOf(cursor[i].accountUid));
        splitList := splitList + [split];
        i := i + 1;
      }
      RowValuesAt(cursor, currencyOf);
    }

    /** deleteTransaction: deletes the transaction row with that id; true when a row went. */
    method DeleteTransaction(transactionId: int) returns (deleted: bool)
      requires db.Valid()
      modifies db
      ensures db.Valid()
      ensures deleted <==> transactionId in old(db.transactions.rows)
      ensures db.transactions == DeleteId(old(db.transactions), transactionId)
      ensures db.splits == old(db.splits) && db.accounts == old(db.accounts)
    {
      deleted := transactionId in db.transactions.rows;
      db.transactions := DeleteId(db.transactions, transactionId);
    }

    /**
     * deleteRecord as written: removes the split row, then deletes its
     * transaction when splits of that transaction REMAIN. A missing row makes
     * the source throw, so the row is required to exist.
     */
    method DeleteRecord(rowId: int) returns (result: bool)
      requires db.Valid() && rowId in db.splits.rows
      modifies db
      ensures db.Valid()
      ensures var trx := old(db.splits.rows[rowId].transactionUid);
              && db.splits == DeleteId(old(db.splits), rowId)
              && db.transactions == TransactionsAfterDelete(db.splits, old(db.transactions), trx)
              && (result <==> Affected(db.splits, OfTransaction(trx)) == 0 || HasTransaction(old(db.transactions), trx))
      ensures db.accounts == old(db.accounts)
    {
      var transactionUid := db.splits.rows[rowId].transactionUid;
      result := true;
      db.splits := DeleteId(db.splits, rowId);
      var remaining := Affected(db.splits, OfTransaction(transactionUid));
      if remaining > 0 {
        var deleted := DeleteTransaction(First(db.transactions, TransactionKeyIs(transactionUid)));
        result := result && deleted;
      }
    }

    /**
     * deleteRecord as its comment intends: the transaction goes exactly when the
     * deleted split was its last one.
     */
    method DeleteRecordCorrected(rowId: int) returns (result: bool)
      requires db.Valid() && rowId in db.splits.rows
      modifies db
      ensures db.Valid()
      ensures var trx := old(db.splits.rows[rowId].transactionUid);
              && db.splits == DeleteId(old(db.splits), rowId)
              && db.transactions == TransactionsAfterDeleteCorrected(db.splits, old(db.transactions), trx)
              && (result <==> Affected(db.splits, OfTransaction(trx)) > 0 || HasTransaction(old(db.transactions), trx))
      ensures db.accounts == old(db.accounts)
    {
      var transactionUid := db.splits.rows[rowId].transactionUid;
      result := true;
      db.splits := DeleteId(db.splits, rowId);
      var remaining := Affected(db.splits, OfTransaction(transactionUid));
      if remaining == 0 {
        var deleted := DeleteTransaction(First(db.transactions, TransactionKeyIs(transactionUid)));
        result := result && deleted;
      }
    }

    /**
     * deleteSplitsForTransaction: deletes every split of the transaction, then the
     * transaction row; true exactly when some split was deleted. An unknown id
     * makes the source bind a NULL argument and throw, so the row must exist.
     */
    method DeleteSplitsForTransaction(transactionId: int) returns (result: bool)
      requires db.Valid() && transactionId in db.transactions.rows
      modifies db
      ensures db.Valid()
      ensures var trx := old(db.transactions.rows[transactionId].uid);
              && db.splits == Delete(old(db.splits), OfTransaction(trx))
              && (result <==> Affected(old(db.splits), OfTransaction(trx)) > 0)
      ensures db.transactions == DeleteId(old(db.transactions), transactionId)
      ensures db.accounts == old(db.accounts)
    {
      var trxUid := db.transactions.rows[transactionId].uid;
      var count := Affected(db.splits, OfTransaction(trxUid));
      db.splits := Delete(db.splits, OfTransaction(trxUid));
      result := count > 0;
      var deleted := DeleteTransaction(transactionId);
      result := result && deleted;
    }

    /**
     * deleteSplitsForTransactionAndAccount: deletes the splits matching both UIDs,
     * deletes the transaction row whatever remains, and returns the number of
     * splits deleted.
     */
    method DeleteSplitsForTransactionAndAccount(transactionId: int, accountId: int) returns (deletedCount: int)
      requires db.Valid() && transactionId in db.transactions.rows && accountId in db.accounts.rows
      modifies db
      ensures db.Valid()
      ensures var p := OfTransactionAndAccount(old(db.transactions.rows[transactionId].uid), old(db.accounts.rows[accountId].uid));
              && db.splits == Delete(old(db.splits), p)
              && deletedCount == Affected(old(db.splits), p)
      ensures db.transactions == DeleteId(old(db.transactions), transactionId)
      ensures db.accounts == old(db.accounts)
    {
      var transactionUid := db.transactions.rows[transactionId].uid;
      var accountUid := db.accounts.rows[accountId].uid;
      var p := OfTransactionAndAccount(transactionUid, accountUid);
      deletedCount := Affected(db.splits, p);
      db.splits := Delete(db.splits, p);
      var _ := DeleteTransaction(transactionId);
    }
  }

  predicate HasTransaction(t: Table<TransactionRow>, uid: string) {
    exists id :: id in t.rows && t.rows[id].uid == uid
  }

  /**
   * The transactions table after deleteRecord as written, given the splits left:
   * the transaction (found by getTransactionID) is deleted when splits of it remain.
   */
  function TransactionsAfterDelete(splits: Table<SplitRow>, transactions: Table<TransactionRow>, trx: string): Table<TransactionRow>
    requires WellFormed(transactions)
  {
    if Affected(splits, OfTransaction(trx)) > 0 then DeleteId(transactions, First(transactions, TransactionKeyIs(trx)))
    else transactions
  }

  /** The same with the condition its comment states: deleted when no split of it remains. */
  function TransactionsAfterDeleteCorrected(splits: Table<SplitRow>, transactions: Table<TransactionRow>, trx: string): Table<TransactionRow>
    requires WellFormed(transactions)
  {
    if Affected(splits, OfTransaction(trx)) == 0 then DeleteId(transactions, First(transactions, TransactionKeyIs(trx)))
    else transactions
  }

  /** Deleting the transaction row found by UID removes the transaction, given unique UIDs. */
  lemma DeleteFoundTransaction(transactions: Table<TransactionRow>, trx: string)
    requires WellFormed(transactions) && UniqueTransactionUids(transactions)
    ensures !HasTransaction(DeleteId(transactions, First(transactions, TransactionKeyIs(trx))), trx)
  {
    var id := First(transactions, TransactionKeyIs(trx));
    assert id != -1 ==> transactions.rows[id].uid == trx;
  }

  /**
   * As written, deleteRecord inverts its own comment: the transaction vanishes
   * exactly while some split still references it, and survives once its last
   * split is gone.
   */
  lemma DeleteRecordInvertsCondition(splits: Table<SplitRow>, transactions: Table<TransactionRow>, trx: string)
    requires WellFormed(splits) && WellFormed(transactions) && UniqueTransactionUids(transactions)
    requires HasTransaction(transactions, trx)
    ensures !HasTransaction(TransactionsAfterDelete(splits, transactions, trx), trx)
            <==> exists id :: id in splits.rows && splits.rows[id].transactionUid == trx
  {
    NoneAffected(splits, OfTransaction(trx));
    DeleteFoundTransaction(transactions, trx);
    if exists id :: id in splits.rows && splits.rows[id].transactionUid == trx {
      var id :| id in splits.rows && splits.rows[id].transactionUid == trx;
      assert OfTransaction(trx)(splits.rows[id]);
    }
  }

  /** With the intended condition a transaction row remains exactly while splits reference it. */
  lemma DeleteRecordCorrectedKeepsReferences(splits: Table<SplitRow>, transactions: Table<TransactionRow>, trx: string)
    requires WellFormed(splits) && WellFormed(transactions) && UniqueTransactionUids(transactions)
    requires HasTransaction(transactions, trx)
    ensures HasTransaction(TransactionsAfterDeleteCorrected(splits, transactions, trx), trx)
            <==> exists id :: id in splits.rows && splits.rows[id].transactionUid == trx
  {
    NoneAffected(splits, OfTransaction(trx));
    DeleteFoundTransaction(transactions, trx);
    if exists id :: id in splits.rows && splits.rows[id].transactionUid == trx {
      var id :| id in splits.rows && splits.rows[id].transactionUid == trx;
      assert OfTransaction(trx)(splits.rows[id]);
    }
  }
}
