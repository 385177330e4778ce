/**
 * The SQLite database the adapters and the migration work on: three tables,
 * each a map from row id to record. SQLite's own statements (query, insert,
 * update, delete) are the pure functions below; a query visits its rows in
 * ascending row id, the order SQLite returns rows of a rowid table without an
 * ORDER BY clause.
 */
module Store {
  import opened Wrappers
  import opened TransactionTypes

  datatype Table<R> = Table(rows: map<int, R>, next: int)

  /** Row ids are positive and below the id the next insert receives. */
  predicate WellFormed<R>(t: Table<R>) {
    t.next >= 1 && forall id :: id in t.rows ==> 1 <= id < t.next
  }

  /** CREATE TABLE: no rows. */
  function EmptyTable<R>(): (t: Table<R>)
    ensures WellFormed(t) && t.rows == map[]
  {
    Table(map[], 1)
  }

  /** INSERT: the row is stored under a new row id, above every id in use. */
  function Insert<R>(t: Table<R>, r: R): (res: (Table<R>, int))
    requires WellFormed(t)
    ensures WellFormed(res.0) && res.1 >= 1 && res.1 !in t.rows
    ensures res.0.rows == t.rows[res.1 := r]
    ensures forall id :: id in t.rows ==> id < res.1
    ensures res.1 == t.next && res.0.next == t.next + 1
  {
    (Table(t.rows[t.next := r], t.next + 1), t.next)
  }

  /** The ids below hi whose row satisfies p, ascending: the rows a query with that WHERE clause visits. */
  function Where<R>(rows: map<int, R>, p: R -> bool, hi: int): seq<int>
    decreases hi
  {
    if hi <= 1 then []
    else Where(rows, p, hi - 1) + (if hi - 1 in rows && p(rows[hi - 1]) then [hi - 1] else [])
  }

  /** A query returns exactly the matching rows, each once, in ascending id order. */
  lemma {:induction false} WhereSpec<R>(rows: map<int, R>, p: R -> bool, hi: int)
    ensures forall id :: id in Where(rows, p, hi) <==> 1 <= id < hi && id in rows && p(rows[id])
    ensures forall i, j :: 0 <= i < j < |Where(rows, p, hi)| ==> Where(rows, p, hi)[i] < Where(rows, p, hi)[j]
    decreases hi
  {
    if hi > 1 {
      WhereSpec(rows, p, hi - 1);
      var w := Where(rows, p, hi - 1);
      assert forall k :: 0 <= k < |w| ==> w[k] in w;
    }
  }

  /** The rows a query with WHERE clause p returns below hi, in ascending id order. */
  function Scan<R>(rows: map<int, R>, p: R -> bool, hi: int): seq<R>
    decreases hi
  {
    if hi <= 1 then []
    else Scan(rows, p, hi - 1) + (if hi - 1 in rows && p(rows[hi - 1]) then [rows[hi - 1]] else [])
  }

  /** Advancing a scan by one row id appends that row when it matches. */
  lemma ScanStep<R>(rows: map<int, R>, p: R -> bool, hi: int)
    requires hi >= 1
    ensures hi in rows && p(rows[hi]) ==> Scan(rows, p, hi + 1) == Scan(rows, p, hi) + [rows[hi]]
    ensures !(hi in rows && p(rows[hi])) ==> Scan(rows, p, hi + 1) == Scan(rows, p, hi)
  {
    assert Scan(rows, p, hi) + [] == Scan(rows, p, hi);
  }

  /** Each row a scan returns is a stored row that satisfies the clause. */
  lemma {:induction false} ScanMembers<R>(rows: map<int, R>, p: R -> bool, hi: int)
    ensures forall r :: r in Scan(rows, p, hi) ==> p(r) && exists id :: id in rows && rows[id] == r
    decreases hi
  {
    if hi > 1 {
      ScanMembers(rows, p, hi - 1);
    }
  }

  /** Rows stored at or above hi do not change a scan below hi. */
  lemma {:induction false} ScanBelow<R>(rows: map<int, R>, p: R -> bool, hi: int, id: int, r: R)
    requires id >= hi
    ensures Scan(rows[id := r], p, hi) == Scan(rows, p, hi)
    decreases hi
  {
    if hi > 1 {
      ScanBelow(rows, p, hi - 1, id, r);
    }
  }

  /** A row inserted at the top of the table comes last in a scan, when it matches. */
  lemma ScanInsert<R>(t: Table<R>, p: R -> bool, r: R)
    requires WellFormed(t)
    ensures Scan(Insert(t, r).0.rows, p, Insert(t, r).0.next) == Scan(t.rows, p, t.next) + (if p(r) then [r] else [])
  {
    ScanBelow(t.rows, p, t.next, t.next, r);
  }

  /** The rows stored under the given ids, in that order (a cursor over a query result). */
  function RowsAt<R>(rows: map<int, R>, ids: seq<int>): (r: seq<R>)
    requires forall k :: 0 <= k < |ids| ==> ids[k] in rows
    ensures |r| == |ids| && forall k :: 0 <= k < |ids| ==> r[k] == rows[ids[k]]
  {
    if ids == [] then [] else RowsAt(rows, ids[..|ids| - 1]) + [rows[ids[|ids| - 1]]]
  }

  /** The id of the first matching row, or -1 when no row matches (cursor.moveToFirst() failing). */
  function First<R>(t: Table<R>, p: R -> bool): (id: int)
    requires WellFormed(t)
    ensures id == -1 <==> forall i :: i in t.rows ==> !p(t.rows[i])
    ensures id != -1 ==> id in t.rows && p(t.rows[id]) && forall i :: i in t.rows && i < id ==> !p(t.rows[i])
  {
    WhereSpec(t.rows, p, t.next);
    var w := Where(t.rows, p, t.next);
    if w == [] then -1 else assert w[0] in w; w[0]
  }

  /** DELETE ... WHERE p: every matching row goes, every other row stays as it was. */
  function Delete<R>(t: Table<R>, p: R -> bool): (r: Table<R>)
    requires WellFormed(t)
    ensures WellFormed(r) && r.next == t.next
    ensures forall id :: id in r.rows <==> id in t.rows && !p(t.rows[id])
    ensures forall id :: id in r.rows ==> r.rows[id] == t.rows[id]
  {
    Table(map id | id in t.rows && !p(t.rows[id]) :: t.rows[id], t.next)
  }

  /** DELETE ... WHERE _id = id. */
  function DeleteId<R>(t: Table<R>, id: int): (r: Table<R>)
    requires WellFormed(t)
    ensures WellFormed(r) && r.next == t.next
    ensures r.rows.Keys == t.rows.Keys - {id}
    ensures forall i :: i in r.rows ==> r.rows[i] == t.rows[i]
  {
    Table(t.rows - {id}, t.next)
  }

  /** The number of rows DELETE or UPDATE with this WHERE clause reports as affected. */
  function Affected<R>(t: Table<R>, p: R -> bool): nat {
    |Where(t.rows, p, t.next)|
  }

  /** A DELETE that reports no affected row removed nothing. */
  lemma NoneAffected<R>(t: Table<R>, p: R -> bool)
    requires WellFormed(t)
    ensures Affected(t, p) == 0 <==> forall id :: id in t.rows ==> !p(t.rows[id])
  {
    WhereSpec(t.rows, p, t.next);
    if Affected(t, p) != 0 {
      assert Where(t.rows, p, t.next)[0] in Where(t.rows, p, t.next);
    }
  }

  /** UPDATE ... SET f WHERE p: matching rows are rewritten by f, the rest stay. */
  function Update<R>(t: Table<R>, p: R -> bool, f: R -> R): (r: Table<R>)
    requires WellFormed(t)
    ensures WellFormed(r) && r.next == t.next && r.rows.Keys == t.rows.Keys
    ensures forall id :: id in t.rows ==> r.rows[id] == if p(t.rows[id]) then f(t.rows[id]) else t.rows[id]
  {
    Table(map id | id in t.rows :: if p(t.rows[id]) then f(t.rows[id]) else t.rows[id], t.next)
  }

  /** UPDATE ... SET f WHERE _id = id: that one row is rewritten, when it exists. */
  function UpdateId<R>(t: Table<R>, id: int, f: R -> R): (r: Table<R>)
    requires WellFormed(t)
    ensures WellFormed(r) && r.next == t.next && r.rows.Keys == t.rows.Keys
    ensures forall i :: i in t.rows ==> r.rows[i] == if i == id then f(t.rows[i]) else t.rows[i]
  {
    if id in t.rows then Table(t.rows[id := f(t.rows[id])], t.next) else t
  }

  /** A row of the accounts table (the columns the core reads or writes). */
  datatype AccountRow = AccountRow(
    uid: string,
    name: Option<string>,
    accountType: string,
    currency: Option<string>,
    parentUid: Option<string>,
    placeholder: bool,
    fullName: Option<string>,
    defaultTransferUid: Option<string>)

  /**
   * A row of the transactions table. amount, txType, accountUid and
   * doubleAccountUid are the legacy single-amount columns of schema versions
   * before 7, which version 7 leaves in place unused.
   */
  datatype TransactionRow = TransactionRow(
    uid: string,
    name: Option<string>,
    description: Option<string>,
    currency: Option<string>,
    amount: int,
    txType: string,
    accountUid: string,
    doubleAccountUid: Option<string>)

  /** A row of the splits table; account_uid and transaction_uid are declared NOT NULL. */
  datatype SplitRow = SplitRow(
    uid: string,
    memo: Option<string>,
    splitType: TransactionType,
    amount: int,
    accountUid: string,
    transactionUid: string)

  /** The ContentValues a split insert or update supplies; memo is never among them. */
  datatype SplitColumns = SplitColumns(
    uid: string,
    transactionUid: Option<string>,
    amount: int,
    splitType: TransactionType,
    accountUid: Option<string>)

  predicate UidTaken(t: Table<SplitRow>, uid: string) {
    exists id :: id in t.rows && t.rows[id].uid == uid
  }

  /** The splits table's UNIQUE(uid) constraint. */
  predicate UniqueUids(t: Table<SplitRow>) {
    forall i, j :: i in t.rows && j in t.rows && t.rows[i].uid == t.rows[j].uid ==> i == j
  }

  /**
   * INSERT into the splits table under its constraints: a NULL account or
   * transaction UID or a UID already present rejects the row, and
   * SQLiteDatabase.insert then reports -1; the memo column is left NULL.
   */
  function InsertSplit(t: Table<SplitRow>, c: SplitColumns): (res: (Table<SplitRow>, int))
    requires WellFormed(t)
    ensures WellFormed(res.0)
    ensures res.1 == -1 <==> c.accountUid.None? || c.transactionUid.None? || UidTaken(t, c.uid)
    ensures res.1 == -1 ==> res.0 == t
    ensures res.1 != -1 ==>
              && res.1 >= 1 && res.1 !in t.rows
              && res.0.rows == t.rows[res.1 := SplitRow(c.uid, None, c.splitType, c.amount, c.accountUid.value, c.transactionUid.value)]
              && res.1 == t.next && res.0.next == t.next + 1
    ensures UniqueUids(t) ==> UniqueUids(res.0)
  {
    if c.accountUid.None? || c.transactionUid.None? || UidTaken(t, c.uid) then (t, -1)
    else Insert(t, SplitRow(c.uid, None, c.splitType, c.amount, c.accountUid.value, c.transactionUid.value))
  }

  /** The transactions table's UNIQUE(uid) constraint. */
  predicate UniqueTransactionUids(t: Table<TransactionRow>) {
    forall i, j :: i in t.rows && j in t.rows && t.rows[i].uid == t.rows[j].uid ==> i == j
  }

  /** The accounts table's UNIQUE(uid) constraint. */
  predicate UniqueAccountUids(t: Table<AccountRow>) {
    forall i, j :: i in t.rows && j in t.rows && t.rows[i].uid == t.rows[j].uid ==> i == j
  }

  /** WHERE uid = ? on the transactions table. */
  function TransactionKeyIs(uid: string): TransactionRow -> bool {
    (r: TransactionRow) => r.uid == uid
  }

  /** WHERE uid = ? on the accounts table. */
  function AccountKeyIs(uid: string): AccountRow -> bool {
    (r: AccountRow) => r.uid == uid
  }

  /** The database: the three tables the core touches. */
  class Db {
    var accounts: Table<AccountRow>
    var transactions: Table<TransactionRow>
    var splits: Table<SplitRow>

    predicate Valid()
      reads this
    {
      && WellFormed(accounts) && WellFormed(transactions) && WellFormed(splits)
      && UniqueUids(splits) && UniqueTransactionUids(transactions) && UniqueAccountUids(accounts)
    }

    constructor (accounts: Table<AccountRow>, transactions: Table<TransactionRow>, splits: Table<SplitRow>)
      ensures this.accounts == accounts && this.transactions == transactions && this.splits == splits
    {
      this.accounts := accounts;
      this.transactions := transactions;
      this.splits := splits;
    }
  }
}
