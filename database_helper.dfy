/**
 * DatabaseHelper.java: the schema upgrade. onUpgrade walks the version chain
 * one step at a time; the steps that change data are the account-type reset
 * (1 to 2), the full-name backfill (5 to 6) and the conversion of single-amount
 * transactions into splits (6 to 7). Column additions (ALTER TABLE) change no
 * value the model holds: every row carries every column from the start.
 *
 * Android runs onUpgrade inside one database transaction that is committed
 * only when onUpgrade returns normally; an exception (a null currency code, an
 * unknown transaction type, an endless parent chain) rolls all of it back.
 */
module DatabaseHelper {
  import opened Wrappers
  import opened Strings
  import opened TransactionTypes
  import opened Ledger
  import opened SplitModel
  import opened Store
  import opened Uids
  import opened SplitsDb
  import opened MigrationHelper

  /** The three tables at one moment. */
  datatype Tables = Tables(accounts: Table<AccountRow>, transactions: Table<TransactionRow>, splits: Table<SplitRow>)

  /** The table constraints the schema declares and the upgrade relies on. */
  predicate TablesValid(d: Tables) {
    && WellFormed(d.accounts) && WellFormed(d.transactions) && WellFormed(d.splits)
    && UniqueUids(d.splits) && UniqueTransactionUids(d.transactions) && UniqueAccountUids(d.accounts)
  }

  /** How onUpgrade ends: normally, at a version and with or without the failure warning, or by an exception. */
  datatype Outcome = Upgraded(version: int, warned: bool) | Aborted

  function Min(a: int, b: int): int {
    if a <= b then a else b
  }

  /**
   * The version number onUpgrade ends with: versions 1 to 5 climb one step at
   * a time towards the target but never past 6, since the step to 7 does not
   * record its version; anything else stays where it started.
   */
  function Reached(oldVersion: int, newVersion: int): (v: int)
    ensures oldVersion <= v
    ensures v <= Min(newVersion, 6) || v == oldVersion
  {
    if 1 <= oldVersion <= 5 && oldVersion < newVersion then Min(newVersion, 6) else oldVersion
  }

  /** Every upgrade that ends on version 7 logs that it failed and reports version 6. */
  lemma UpgradeToSevenWarns(oldVersion: int)
    requires 1 <= oldVersion < 7
    ensures Reached(oldVersion, 7) == 6
  {
  }

  /**
   * The version that recording the 6 to 7 step would give. That step stays
   * guarded by a target of exactly 7, so any other target ends as before.
   */
  function ReachedCorrected(oldVersion: int, newVersion: int): (v: int)
    ensures oldVersion <= v
    ensures v <= Min(newVersion, 7) || v == oldVersion
  {
    if 1 <= oldVersion <= 6 && newVersion == 7 then 7 else Reached(oldVersion, newVersion)
  }

  /** With the step recorded, every upgrade within the known versions reaches its target. */
  lemma CorrectedReachesTarget(oldVersion: int, newVersion: int)
    requires 1 <= oldVersion <= newVersion <= 7
    ensures ReachedCorrected(oldVersion, newVersion) == newVersion
    ensures Reached(oldVersion, newVersion) == ReachedCorrected(oldVersion, newVersion) <==> newVersion <= 6 || oldVersion == 7
  {
  }

  /**
   * No step leads past 7, so recording the 6 to 7 step changes nothing for a
   * higher target: the upgrade stops below it and still logs the warning.
   */
  lemma TargetsAboveSevenUnaffected(oldVersion: int, newVersion: int)
    requires 7 < newVersion
    ensures ReachedCorrected(oldVersion, newVersion) == Reached(oldVersion, newVersion)
    ensures oldVersion < newVersion ==> ReachedCorrected(oldVersion, newVersion) != newVersion
  {
  }

  /** Step 1 to 2: every account becomes a CASH account (every earlier account was a checking account). */
  function CashAccounts(a: Table<AccountRow>): (r: Table<AccountRow>)
    requires WellFormed(a)
    ensures WellFormed(r) && r.next == a.next && r.rows.Keys == a.rows.Keys
    ensures forall id :: id in a.rows ==> r.rows[id] == a.rows[id].(accountType := "CASH")
  {
    Update(a, All(), (row: AccountRow) => row.(accountType := "CASH"))
  }

  /** After the reset no account is of type ROOT, so the backfill that may follow finds no root account. */
  lemma CashAccountsHaveNoRoot(a: Table<AccountRow>)
    requires WellFormed(a)
    ensures RootUid(CashAccounts(a)) == None
  {
  }

  /** The depth the name walk is allowed: one level per account row. */
  function NameFuel(a: Table<AccountRow>): nat {
    |a.rows|
  }

  /** The row with its full name written, when the walk yields a name; otherwise the row as it was. */
  function FilledRow(a: Table<AccountRow>, id: int): AccountRow
    requires WellFormed(a) && id in a.rows
  {
    match FullyQualifiedName(a, a.rows[id].uid, NameFuel(a))
    case Named(Some(n)) => a.rows[id].(fullName := Some(n))
    case _ => a.rows[id]
  }

  /** Whether the name walk from the account in row id ends. */
  predicate WalkEnds(a: Table<AccountRow>, id: int)
    requires WellFormed(a) && id in a.rows
  {
    FullyQualifiedName(a, a.rows[id].uid, NameFuel(a)).Named?
  }

  /** Whether the backfill meets an account whose parent chain never ends. */
  predicate BackfillDiverges(a: Table<AccountRow>)
    requires WellFormed(a)
  {
    exists id :: id in a.rows && !WalkEnds(a, id)
  }

  /** Step 5 to 6 when it completes: every account whose walk yields a name gets it as its full name. */
  function Backfilled(a: Table<AccountRow>): (r: Table<AccountRow>)
    requires WellFormed(a)
    ensures WellFormed(r) && r.next == a.next && r.rows.Keys == a.rows.Keys
  {
    Table(map id | id in a.rows :: FilledRow(a, id), a.next)
  }

  /** The backfill: None for the stack overflow an endless parent chain causes. */
  function Backfill(d: Tables): (r: Option<Tables>)
    requires TablesValid(d)
    ensures r.Some? ==> TablesValid(r.value)
  {
    if BackfillDiverges(d.accounts) then None else Some(d.(accounts := Backfilled(d.accounts)))
  }

  /**
   * What the backfill writes: the name the walk yields, which ends with the
   * account's own name; accounts the walk has no name for keep their column,
   * and no other column changes.
   */
  lemma BackfilledNames(a: Table<AccountRow>)
    requires WellFormed(a) && UniqueAccountUids(a)
    ensures SameHierarchy(a, Backfilled(a))
    ensures forall id :: id in a.rows ==>
              var w := FullyQualifiedName(a, a.rows[id].uid, NameFuel(a));
              var f := Backfilled(a).rows[id].fullName;
              && (w.Named? && w.name.Some? ==> f == w.name)
              && (w.Diverges? || w.name.None? ==> f == a.rows[id].fullName)
    ensures forall id :: id in a.rows && Backfilled(a).rows[id].fullName != a.rows[id].fullName ==>
              var own := a.rows[id].name;
              var f := Backfilled(a).rows[id].fullName;
              own.Some? && f.Some? && (f.value == own.value || EndsWith(f.value, Separator + own.value))
  {
    var b := Backfilled(a);
    forall id | id in a.rows
      ensures var x, y := a.rows[id], b.rows[id];
              x.uid == y.uid && x.name == y.name && x.parentUid == y.parentUid && x.accountType == y.accountType
      ensures var w := FullyQualifiedName(a, a.rows[id].uid, NameFuel(a));
              var f := b.rows[id].fullName;
              && (w.Named? && w.name.Some? ==> f == w.name)
              && (w.Diverges? || w.name.None? ==> f == a.rows[id].fullName)
      ensures b.rows[id].fullName != a.rows[id].fullName ==>
              var own := a.rows[id].name;
              var f := b.rows[id].fullName;
              own.Some? && f.Some? && (f.value == own.value || EndsWith(f.value, Separator + own.value))
    {
      assert b.rows[id] == FilledRow(a, id);
      FilledRowFacts(a, id);
    }
  }

  /** The row the backfill writes for one account: same hierarchy columns, the walk's name if it has one. */
  lemma FilledRowFacts(a: Table<AccountRow>, id: int)
    requires WellFormed(a) && UniqueAccountUids(a) && id in a.rows
    ensures var x, y := a.rows[id], FilledRow(a, id);
            x.uid == y.uid && x.name == y.name && x.parentUid == y.parentUid && x.accountType == y.accountType
    ensures var w := FullyQualifiedName(a, a.rows[id].uid, NameFuel(a));
            var f := FilledRow(a, id).fullName;
            && (w.Named? && w.name.Some? ==> f == w.name)
            && (w.Diverges? || w.name.None? ==> f == a.rows[id].fullName)
    ensures FilledRow(a, id).fullName != a.rows[id].fullName ==>
            var own := a.rows[id].name;
            var f := FilledRow(a, id).fullName;
            own.Some? && f.Some? && (f.value == own.value || EndsWith(f.value, Separator + own.value))
  {
    if FilledRow(a, id).fullName != a.rows[id].fullName {
      BackfilledNameEnds(a, id);
    }
  }

  /** A full name the backfill changes is the account's own name or ends with it. */
  lemma BackfilledNameEnds(a: Table<AccountRow>, id: int)
    requires WellFormed(a) && UniqueAccountUids(a) && id in a.rows
    requires FilledRow(a, id).fullName != a.rows[id].fullName
    ensures var own := a.rows[id].name;
            var f := FilledRow(a, id).fullName;
            own.Some? && f.Some? && (f.value == own.value || EndsWith(f.value, Separator + own.value))
  {
    var uid := a.rows[id].uid;
    FullNameShape(a, RootUid(a), uid, NameFuel(a));
    assert First(a, AccountKeyIs(uid)) == id;
  }

  /** Running the backfill a second time changes nothing. */
  lemma BackfillIdempotent(a: Table<AccountRow>)
    requires WellFormed(a) && UniqueAccountUids(a)
    ensures Backfilled(Backfilled(a)) == Backfilled(a)
    ensures BackfillDiverges(Backfilled(a)) <==> BackfillDiverges(a)
  {
    var b := Backfilled(a);
    BackfilledNames(a);
    forall id | id in a.rows
      ensures FilledRow(b, id) == b.rows[id]
      ensures WalkEnds(b, id) == WalkEnds(a, id)
    {
      RefilledRow(a, id);
    }
    var c := Backfilled(b);
    assert c.rows.Keys == b.rows.Keys;
    assert forall id :: id in b.rows ==> c.rows[id] == b.rows[id];
    assert c.rows == b.rows;
    assert c == b;
  }

  lemma RefilledRow(a: Table<AccountRow>, id: int)
    requires WellFormed(a) && id in a.rows && SameHierarchy(a, Backfilled(a))
    ensures FilledRow(Backfilled(a), id) == Backfilled(a).rows[id]
    ensures FullyQualifiedName(Backfilled(a), a.rows[id].uid, NameFuel(Backfilled(a)))
            == FullyQualifiedName(a, a.rows[id].uid, NameFuel(a))
  {
    var b := Backfilled(a);
    assert NameFuel(b) == NameFuel(a) by {
      assert |b.rows| == |b.rows.Keys| && |a.rows| == |a.rows.Keys|;
    }
    FullNameIgnoresFullNames(a, b, a.rows[id].uid, NameFuel(a));
  }

  /** A legacy row step 6 to 7 can convert: its account's currency is known and its type names DEBIT or CREDIT. */
  predicate Convertible(a: Table<AccountRow>, r: TransactionRow)
    requires WellFormed(a)
  {
    CurrencyCode(a, r.accountUid).Some? && TypeOf(r.txType).Some?
  }

  /** Whether some legacy row makes the conversion throw. */
  predicate ConversionFails(a: Table<AccountRow>, t: Table<TransactionRow>)
    requires WellFormed(a)
  {
    exists id :: id in t.rows && !Convertible(a, t.rows[id])
  }

  /** The legacy row with the new currency column set to its account's currency. */
  function Stamp(a: Table<AccountRow>, r: TransactionRow): TransactionRow
    requires WellFormed(a)
  {
    r.(currency := CurrencyCode(a, r.accountUid))
  }

  /**
   * Step 6 to 7 as written when it completes: the transactions get their
   * currency, and the new splits table - into which every insert fails -
   * stays empty.
   */
  function Convert(d: Tables): (r: Option<Tables>)
    requires TablesValid(d)
    ensures r.Some? ==> TablesValid(r.value)
    ensures r.None? <==> ConversionFails(d.accounts, d.transactions)
  {
    if ConversionFails(d.accounts, d.transactions) then None
    else Some(Tables(d.accounts, StampAll(d.accounts, d.transactions), EmptyTable()))
  }

  /** Every transaction row stamped with its account's currency; row ids and UIDs stay. */
  function StampAll(a: Table<AccountRow>, t: Table<TransactionRow>): (r: Table<TransactionRow>)
    requires WellFormed(a) && WellFormed(t) && UniqueTransactionUids(t)
    ensures WellFormed(r) && r.next == t.next && r.rows.Keys == t.rows.Keys && UniqueTransactionUids(r)
  {
    var r := Table(map id | id in t.rows :: Stamp(a, t.rows[id]), t.next);
    assert forall id :: id in r.rows ==> r.rows[id].uid == t.rows[id].uid;
    r
  }

  /**
   * The tables onUpgrade leaves behind, None when it throws. Each data step
   * runs exactly when the version chain passes through it: 1 to 2 only from
   * version 1, 5 to 6 from any of versions 1 to 5 when the target is at least 6,
   * and 6 to 7 from any of versions 1 to 6 when the target is exactly 7.
   */
  function Upgrade(d: Tables, oldVersion: int, newVersion: int): (r: Option<Tables>)
    requires TablesValid(d)
    ensures r.Some? ==> TablesValid(r.value)
  {
    var d2 := LaterSteps(EarlySteps(d, oldVersion, newVersion), oldVersion, newVersion);
    if d2.Some? && 1 <= oldVersion <= 6 && newVersion == 7 then Convert(d2.value) else d2
  }

  /** The steps up to version 5: only 1 to 2 touches data. */
  function EarlySteps(d: Tables, oldVersion: int, newVersion: int): (r: Tables)
    requires TablesValid(d)
    ensures TablesValid(r)
  {
    if oldVersion == 1 && newVersion >= 2 then d.(accounts := CashAccounts(d.accounts)) else d
  }

  /** The step 5 to 6, after the early steps. */
  function LaterSteps(d1: Tables, oldVersion: int, newVersion: int): (r: Option<Tables>)
    requires TablesValid(d1)
    ensures r.Some? ==> TablesValid(r.value)
  {
    if 1 <= oldVersion <= 5 && newVersion >= 6 then Backfill(d1) else Some(d1)
  }

  /** Which upgrades change no data: a downgrade or no-op, and upgrades among versions 2 to 5. */
  lemma UpgradeKeepsData(d: Tables, oldVersion: int, newVersion: int)
    requires TablesValid(d)
    requires oldVersion >= newVersion || (2 <= oldVersion && newVersion <= 5) || oldVersion < 1 || oldVersion > 6
    ensures Upgrade(d, oldVersion, newVersion) == Some(d)
  {
  }

  /** An upgrade throws only in the backfill, on an endless parent chain, or in the conversion, on a legacy row it cannot read. */
  lemma UpgradeAborts(d: Tables, oldVersion: int, newVersion: int)
    requires TablesValid(d)
    requires Upgrade(d, oldVersion, newVersion).None?
    ensures || (1 <= oldVersion <= 5 && newVersion >= 6)
            || (1 <= oldVersion <= 6 && newVersion == 7 && ConversionFails(d.accounts, d.transactions))
  {
  }

  /** An upgrade to version 7 as written ends with an empty splits table, whatever the legacy transactions held. */
  lemma UpgradeToSevenLosesSplits(d: Tables, oldVersion: int)
    requires TablesValid(d) && 1 <= oldVersion <= 6
    requires Upgrade(d, oldVersion, 7).Some?
    ensures Upgrade(d, oldVersion, 7).value.splits.rows == map[]
    ensures forall id :: id in d.transactions.rows ==> HasTransaction(Upgrade(d, oldVersion, 7).value.transactions, d.transactions.rows[id].uid)
  {
    var d1 := if oldVersion == 1 then d.(accounts := CashAccounts(d.accounts)) else d;
    var d2 := if oldVersion <= 5 then Backfill(d1) else Some(d1);
    assert d2.value.transactions == d.transactions;
    var t := Upgrade(d, oldVersion, 7).value.transactions;
    forall id | id in d.transactions.rows
      ensures HasTransaction(t, d.transactions.rows[id].uid)
    {
      assert id in t.rows && t.rows[id].uid == d.transactions.rows[id].uid;
    }
  }

  /**
   * onUpgrade. `uids` stands for the random UUIDs the new Split objects draw.
   * On an exception every table is rolled back.
   */
  method OnUpgrade(db: Db, oldVersion: int, newVersion: int, uids: UidSource) returns (outcome: Outcome)
    requires db.Valid() && TablesValid(Tables(db.accounts, db.transactions, db.splits))
    modifies db, uids
    ensures db.Valid()
    ensures var r := Upgrade(old(Tables(db.accounts, db.transactions, db.splits)), oldVersion, newVersion);
            && (outcome.Aborted? <==> r.None?)
            && (r.None? ==> db.accounts == old(db.accounts) && db.transactions == old(db.transactions) && db.splits == old(db.splits))
            && (r.Some? ==> Tables(db.accounts, db.transactions, db.splits) == r.value)
    ensures outcome.Upgraded? ==> outcome == Upgraded(Reached(oldVersion, newVersion), Reached(oldVersion, newVersion) != newVersion)
  {
    var saved := Tables(db.accounts, db.transactions, db.splits);
    var version := oldVersion;
    if oldVersion < newVersion {
      version := UpgradeToFive(db, oldVersion, newVersion);
      var ok;
      version, ok := UpgradeToSix(db, version, oldVersion, newVersion);
      if ok && version == 6 && newVersion == 7 {
        ok := MigrateToSplits(db, uids);
      }
      if !ok {
        db.accounts, db.transactions, db.splits := saved.accounts, saved.transactions, saved.splits;
        return Aborted;
      }
    }
    outcome := Upgraded(version, version != newVersion);
  }

  /** The step 5 to 6 on the version the earlier steps reached: the full-name backfill. */
  method UpgradeToSix(db: Db, version: int, ghost oldVersion: int, newVersion: int) returns (reached: int, ok: bool)
    requires oldVersion < newVersion && version == (if 1 <= oldVersion <= 5 then Min(newVersion, 5) else oldVersion)
    requires db.Valid() && TablesValid(Tables(db.accounts, db.transactions, db.splits))
    modifies db
    ensures db.Valid() && reached == Reached(oldVersion, newVersion)
    ensures var r := LaterSteps(old(Tables(db.accounts, db.transactions, db.splits)), oldVersion, newVersion);
            && (ok <==> r.Some?)
            && (ok ==> Tables(db.accounts, db.transactions, db.splits) == r.value)
  {
    reached, ok := version, true;
    if version == 5 && newVersion >= 6 {
      ok := BackfillFullNames(db);
      reached := 6;
    }
  }

  /** The version chain up to 5, with its one data step (1 to 2). */
  method UpgradeToFive(db: Db, oldVersion: int, newVersion: int) returns (version: int)
    requires oldVersion < newVersion
    requires db.Valid() && TablesValid(Tables(db.accounts, db.transactions, db.splits))
    modifies db
    ensures db.Valid()
    ensures Tables(db.accounts, db.transactions, db.splits) == EarlySteps(old(Tables(db.accounts, db.transactions, db.splits)), oldVersion, newVersion)
    ensures version == if 1 <= oldVersion <= 5 then Min(newVersion, 5) else oldVersion
  {
    version := oldVersion;
    if version == 1 && newVersion >= 2 {
      db.accounts := CashAccounts(db.accounts);
      version := 2;
    }
    if version == 2 && newVersion >= 3 {
      version := 3;
    }
    if version == 3 && newVersion >= 4 {
      version := 4;
    }
    if version == 4 && newVersion >= 5 {
      version := 5;
    }
  }

  /**
   * Step 5 to 6: visits the accounts in row order and writes each one's fully
   * qualified name; an account without a name is skipped, an endless parent
   * chain throws. The walk reads no full name, so the names are those of the
   * table as it was before the loop.
   */
  method BackfillFullNames(db: Db) returns (ok: bool)
    requires db.Valid() && TablesValid(Tables(db.accounts, db.transactions, db.splits))
    modifies db
    ensures db.Valid() && TablesValid(Tables(db.accounts, db.transactions, db.splits))
    ensures db.transactions == old(db.transactions) && db.splits == old(db.splits)
    ensures ok <==> !BackfillDiverges(old(db.accounts))
    ensures ok ==> db.accounts == Backfilled(old(db.accounts))
  {
    var a0 := db.accounts;
    var id := 1;
    while id < a0.next
      invariant 1 <= id <= a0.next
      invariant db.transactions == old(db.transactions) && db.splits == old(db.splits)
      invariant FilledBelow(a0, db.accounts, id)
      invariant db.Valid() && TablesValid(Tables(db.accounts, db.transactions, db.splits))
      invariant forall j :: j in a0.rows && j < id ==> WalkEnds(a0, j)
    {
      var accounts, ended := FillRow(a0, db.accounts, id);
      if !ended {
        return false;
      }
      FilledBelowKeeps(a0, accounts, id + 1);
      db.accounts := accounts;
      id := id + 1;
    }
    FilledAll(a0, db.accounts);
    ok := true;
  }

  /** After the last turn the table is the backfilled one. */
  lemma FilledAll(a0: Table<AccountRow>, cur: Table<AccountRow>)
    requires WellFormed(a0) && UniqueAccountUids(a0) && FilledBelow(a0, cur, a0.next)
    requires forall j :: j in a0.rows && j < a0.next ==> WalkEnds(a0, j)
    ensures cur == Backfilled(a0) && !BackfillDiverges(a0)
    ensures SameHierarchy(a0, cur) && UniqueAccountUids(cur)
  {
    FilledBelowKeeps(a0, cur, a0.next);
    FilledRows(a0, cur);
  }

  lemma FilledRows(a0: Table<AccountRow>, cur: Table<AccountRow>)
    requires WellFormed(a0) && FilledBelow(a0, cur, a0.next)
    ensures cur == Backfilled(a0)
  {
    var b := Backfilled(a0);
    forall j | j in a0.rows
      ensures cur.rows[j] == b.rows[j]
    {
      assert j < a0.next;
    }
    SameEntries(cur.rows, b.rows);
  }

  /** Two maps with the same keys and the same value at every key are equal. */
  lemma SameEntries<K, V>(m: map<K, V>, n: map<K, V>)
    requires m.Keys == n.Keys && forall k :: k in m ==> m[k] == n[k]
    ensures m == n
  {
  }

  /** One turn of the backfill loop: the walk for the account in row id, and the write of its name. */
  method FillRow(a0: Table<AccountRow>, accounts: Table<AccountRow>, id: int) returns (next: Table<AccountRow>, ended: bool)
    requires WellFormed(a0) && UniqueAccountUids(a0) && FilledBelow(a0, accounts, id)
    ensures ended <==> id !in a0.rows || WalkEnds(a0, id)
    ensures ended ==> FilledBelow(a0, next, id + 1)
  {
    FilledBelowKeeps(a0, accounts, id);
    if id !in accounts.rows {
      FillSkip(a0, accounts, id);
      return accounts, true;
    }
    var uid := accounts.rows[id].uid;
    var fullName := FullyQualifiedName(accounts, uid, |accounts.rows|);
    FillStep(a0, accounts, id);
    if fullName.Diverges? {
      return accounts, false;
    }
    if fullName.name.Some? {
      next := SetFullName(accounts, id, fullName.name);
    } else {
      next := accounts;
    }
    ended := true;
  }

  /** A row id with no row: nothing to fill, and the loop moves on. */
  lemma FillSkip(a0: Table<AccountRow>, cur: Table<AccountRow>, id: int)
    requires WellFormed(a0) && FilledBelow(a0, cur, id) && id !in cur.rows
    ensures id !in a0.rows && FilledBelow(a0, cur, id + 1)
  {
    forall j | j in a0.rows
      ensures cur.rows[j] == if j < id + 1 then FilledRow(a0, j) else a0.rows[j]
    {
      assert j != id;
    }
  }

  /** UPDATE accounts SET full_name = name WHERE _id = id. */
  function SetFullName(t: Table<AccountRow>, id: int, name: Option<string>): (r: Table<AccountRow>)
    requires WellFormed(t)
    ensures WellFormed(r)
  {
    UpdateId(t, id, (row: AccountRow) => row.(fullName := name))
  }

  /** The backfill loop's state: the rows below id are filled in, the others are as they were. */
  ghost predicate FilledBelow(a0: Table<AccountRow>, cur: Table<AccountRow>, id: int)
    requires WellFormed(a0)
  {
    && WellFormed(cur) && cur.next == a0.next && cur.rows.Keys == a0.rows.Keys
    && forall j :: j in a0.rows ==> cur.rows[j] == if j < id then FilledRow(a0, j) else a0.rows[j]
  }

  /** Part way through, the table still has the hierarchy and the constraints it started with. */
  lemma FilledBelowKeeps(a0: Table<AccountRow>, cur: Table<AccountRow>, id: int)
    requires WellFormed(a0) && UniqueAccountUids(a0) && FilledBelow(a0, cur, id)
    ensures SameHierarchy(a0, cur) && UniqueAccountUids(cur) && |cur.rows| == NameFuel(a0)
  {
    assert |cur.rows| == |cur.rows.Keys| && |a0.rows| == |a0.rows.Keys|;
  }

  /** One turn of the backfill loop: the walk on the current table is the walk on the original, and the write fills row id. */
  lemma FillStep(a0: Table<AccountRow>, cur: Table<AccountRow>, id: int)
    requires WellFormed(a0) && UniqueAccountUids(a0) && FilledBelow(a0, cur, id) && id in cur.rows
    ensures var w := FullyQualifiedName(cur, cur.rows[id].uid, |cur.rows|);
            && w == FullyQualifiedName(a0, a0.rows[id].uid, NameFuel(a0))
            && (w.Named? <==> WalkEnds(a0, id))
            && (w.Named? && w.name.Some? ==>
                  FilledBelow(a0, SetFullName(cur, id, w.name), id + 1))
            && (w.Named? && w.name.None? ==> FilledBelow(a0, cur, id + 1))
  {
    FilledBelowKeeps(a0, cur, id);
    FullNameIgnoresFullNames(a0, cur, a0.rows[id].uid, NameFuel(a0));
    var w := FullyQualifiedName(a0, a0.rows[id].uid, NameFuel(a0));
    if w.Named? && w.name.Some? {
      FillWrite(a0, cur, id, w.name.value);
    } else if w.Named? {
      FillKeep(a0, cur, id);
    }
  }

  /** Writing the walked name into row id extends the filled prefix by that row. */
  lemma FillWrite(a0: Table<AccountRow>, cur: Table<AccountRow>, id: int, name: string)
    requires WellFormed(a0) && FilledBelow(a0, cur, id) && id in cur.rows
    requires FullyQualifiedName(a0, a0.rows[id].uid, NameFuel(a0)) == Named(Some(name))
    ensures FilledBelow(a0, SetFullName(cur, id, Some(name)), id + 1)
  {
    var next := SetFullName(cur, id, Some(name));
    forall j | j in a0.rows
      ensures next.rows[j] == if j < id + 1 then FilledRow(a0, j) else a0.rows[j]
    {
      if j == id {
        assert next.rows[j] == a0.rows[id].(fullName := Some(name));
      }
    }
  }

  /** A walk that yields NULL leaves row id as it is, which is its filled form. */
  lemma FillKeep(a0: Table<AccountRow>, cur: Table<AccountRow>, id: int)
    requires WellFormed(a0) && FilledBelow(a0, cur, id) && id in cur.rows
    requires FullyQualifiedName(a0, a0.rows[id].uid, NameFuel(a0)) == Named(None)
    ensures FilledBelow(a0, cur, id + 1)
  {
    assert FilledRow(a0, id) == a0.rows[id];
    forall j | j in a0.rows
      ensures cur.rows[j] == if j < id + 1 then FilledRow(a0, j) else a0.rows[j]
    {
      assert j < id || j == id || j > id;
    }
  }

  /**
   * Step 6 to 7 as written: creates the splits table, then for each legacy
   * transaction in row order sets its currency and writes a split for it (and,
   * with a second account, the pair) through MigrationHelper.addSplit, which
   * the splits table rejects. A NULL currency code or an unknown type throws.
   */
  method MigrateToSplits(db: Db, uids: UidSource) returns (ok: bool)
    requires db.Valid() && TablesValid(Tables(db.accounts, db.transactions, db.splits))
    modifies db, uids
    ensures db.Valid()
    ensures var r := Convert(old(Tables(db.accounts, db.transactions, db.splits)));
            && (ok <==> r.Some?)
            && (ok ==> Tables(db.accounts, db.transactions, db.splits) == r.value)
  {
    db.splits := EmptyTable();
    var a0, t0 := db.accounts, db.transactions;
    var id := 1;
    while id < t0.next
      invariant 1 <= id <= t0.next
      invariant db.Valid() && db.accounts == a0 && db.splits == EmptyTable()
      invariant StampedBelow(a0, t0, db.transactions, id)
      invariant forall j :: j in t0.rows && j < id ==> Convertible(a0, t0.rows[j])
    {
      if id in t0.rows {
        var ended := ConvertRow(db, uids, t0, id);
        if !ended {
          return false;
        }
      } else {
        StampedSkip(a0, t0, db.transactions, id);
      }
      id := id + 1;
    }
    StampedAll(a0, t0, db.transactions);
    ok := true;
  }

  /**
   * One turn of the conversion loop, for the legacy transaction in row id:
   * set its currency, build its split (and its pair) and hand them to addSplit.
   */
  method ConvertRow(db: Db, uids: UidSource, t0: Table<TransactionRow>, id: int) returns (ended: bool)
    requires db.Valid() && db.splits == EmptyTable() && StampedBelow(db.accounts, t0, db.transactions, id) && id in t0.rows
    modifies db, uids
    ensures db.Valid() && db.accounts == old(db.accounts) && db.splits == EmptyTable()
    ensures ended <==> Convertible(db.accounts, t0.rows[id])
    ensures ended ==> StampedBelow(db.accounts, t0, db.transactions, id + 1)
  {
    var row := t0.rows[id];
    var currency := CurrencyCode(db.accounts, row.accountUid);
    if currency.None? {
      return false;
    }
    var amount := Money(row.amount, currency.value);
    StampStep(db.accounts, t0, db.transactions, id);
    var _ := UpdateTransaction(db, row.uid, CurrencyColumn, currency.value);
    var txType := TypeOf(row.txType);
    if txType.None? {
      return false;
    }
    WriteSplitsAsWritten(db, uids, row, amount, txType.value);
    ended := true;
  }

  /**
   * The split objects the conversion makes for one legacy row, and the two
   * addSplit calls as written: each insert is rejected, so the table stays empty.
   */
  method WriteSplitsAsWritten(db: Db, uids: UidSource, row: TransactionRow, amount: Money, txType: TransactionType)
    requires db.Valid() && db.splits == EmptyTable()
    modifies db, uids
    ensures db.Valid() && db.splits == EmptyTable()
    ensures db.accounts == old(db.accounts) && db.transactions == old(db.transactions)
  {
    var splitUid := uids.Next();
    var split := new Split(amount, row.accountUid, splitUid);
    split.SetTransactionUid(row.uid);
    split.SetType(txType);
    split.SetMemo(row.description);
    if row.doubleAccountUid.Some? && |row.doubleAccountUid.value| > 0 {
      var pairUid := uids.Next();
      var pair := split.CreatePair(row.doubleAccountUid.value, pairUid);
      var _ := AddSplit(db, pair);
    }
    var _ := AddSplit(db, split);
  }

  /** The conversion loop's state: the transactions below id have their currency, the others are as they were. */
  ghost predicate StampedBelow(a0: Table<AccountRow>, t0: Table<TransactionRow>, cur: Table<TransactionRow>, id: int)
    requires WellFormed(a0)
  {
    && WellFormed(t0) && UniqueTransactionUids(t0)
    && WellFormed(cur) && cur.next == t0.next && cur.rows.Keys == t0.rows.Keys
    && forall j :: j in t0.rows ==> cur.rows[j] == if j < id then Stamp(a0, t0.rows[j]) else t0.rows[j]
  }

  /** One turn of the conversion loop: updateTransaction by UID sets the currency of row id alone. */
  lemma StampStep(a0: Table<AccountRow>, t0: Table<TransactionRow>, cur: Table<TransactionRow>, id: int)
    requires WellFormed(a0) && StampedBelow(a0, t0, cur, id) && id in t0.rows
    requires CurrencyCode(a0, t0.rows[id].accountUid).Some?
    ensures UniqueTransactionUids(cur)
    ensures StampedBelow(a0, t0, Update(cur, TransactionKeyIs(t0.rows[id].uid),
                                        (r: TransactionRow) => SetColumn(r, CurrencyColumn, CurrencyCode(a0, t0.rows[id].accountUid).value)), id + 1)
  {
    assert forall j :: j in cur.rows ==> cur.rows[j].uid == t0.rows[j].uid;
  }

  /** After the last turn every transaction has its currency: the table Convert describes. */
  lemma StampedAll(a0: Table<AccountRow>, t0: Table<TransactionRow>, cur: Table<TransactionRow>)
    requires WellFormed(a0) && StampedBelow(a0, t0, cur, t0.next)
    ensures UniqueTransactionUids(cur)
    ensures cur == Table(map id | id in t0.rows :: Stamp(a0, t0.rows[id]), t0.next)
  {
    assert forall j :: j in cur.rows ==> cur.rows[j].uid == t0.rows[j].uid;
    var m := map id | id in t0.rows :: Stamp(a0, t0.rows[id]);
    assert cur.rows.Keys == m.Keys;
    assert forall j :: j in m ==> j < t0.next && cur.rows[j] == m[j];
    assert cur.rows == m;
  }

  /** The legacy transaction names a second account: the one the pair split goes to. */
  predicate HasDoubleAccount(r: TransactionRow) {
    r.doubleAccountUid.Some? && |r.doubleAccountUid.value| > 0
  }

  /** How many UIDs converting the legacy transaction draws: one for its split, one more for the pair. */
  function Drawn(r: TransactionRow): nat {
    if HasDoubleAccount(r) then 2 else 1
  }

  /**
   * The rows the corrected conversion writes for one legacy transaction, whose
   * split draws UID label n: the pair first when there is a second account (with
   * label n + 1, the other account and the inverted type), then the split; both
   * carry the transaction's UID and the legacy amount.
   */
  function LegacyRows(a: Table<AccountRow>, r: TransactionRow, n: nat): (rows: seq<SplitRow>)
    requires WellFormed(a) && Convertible(a, r)
    ensures |rows| == Drawn(r)
    ensures forall k :: 0 <= k < |rows| ==> BelongsTo(rows[k], r)
  {
    var t := TypeOf(r.txType).value;
    var split := SplitRow(Label(n), None, t, r.amount, r.accountUid, r.uid);
    if HasDoubleAccount(r) then [SplitRow(Label(n + 1), None, Invert(t), r.amount, r.doubleAccountUid.value, r.uid), split]
    else [split]
  }

  /** The UIDs drawn for the legacy rows below hi. */
  function DrawnBelow(t: Table<TransactionRow>, hi: int): nat
    decreases hi
  {
    if hi <= 1 then 0 else DrawnBelow(t, hi - 1) + (if hi - 1 in t.rows then Drawn(t.rows[hi - 1]) else 0)
  }

  /** One more legacy row converted: its rows, and its UID draws, come after those of the rows before it. */
  lemma MigratedStep(a: Table<AccountRow>, t: Table<TransactionRow>, id: int, n: nat)
    requires WellFormed(a) && id >= 1 && forall j :: j in t.rows && j < id + 1 ==> Convertible(a, t.rows[j])
    ensures MigratedBelow(a, t, id + 1, n)
            == MigratedBelow(a, t, id, n) + (if id in t.rows then LegacyRows(a, t.rows[id], n + DrawnBelow(t, id)) else [])
    ensures DrawnBelow(t, id + 1) == DrawnBelow(t, id) + (if id in t.rows then Drawn(t.rows[id]) else 0)
  {
  }

  /** The splits table the corrected conversion builds from the legacy rows below hi, the first UID label being n. */
  function MigratedBelow(a: Table<AccountRow>, t: Table<TransactionRow>, hi: int, n: nat): (rows: seq<SplitRow>)
    requires WellFormed(a) && forall j :: j in t.rows && j < hi ==> Convertible(a, t.rows[j])
    ensures |rows| == DrawnBelow(t, hi)
    decreases hi
  {
    if hi <= 1 then []
    else
      MigratedBelow(a, t, hi - 1, n)
        + (if hi - 1 in t.rows then LegacyRows(a, t.rows[hi - 1], n + DrawnBelow(t, hi - 1)) else [])
  }

  /** The split carries the legacy transaction's UID and amount and one of its two accounts. */
  predicate BelongsTo(s: SplitRow, r: TransactionRow) {
    s.transactionUid == r.uid && s.amount == r.amount && (s.accountUid == r.accountUid || Some(s.accountUid) == r.doubleAccountUid)
  }

  /** Some legacy transaction below hi owns the split. */
  predicate OwnedBelow(t: Table<TransactionRow>, hi: int, s: SplitRow) {
    exists j :: j in t.rows && j < hi && BelongsTo(s, t.rows[j])
  }

  /** Every split the corrected conversion writes belongs to a legacy transaction below hi. */
  lemma {:induction false} MigratedBelongs(a: Table<AccountRow>, t: Table<TransactionRow>, hi: int, n: nat)
    requires WellFormed(a) && forall j :: j in t.rows && j < hi ==> Convertible(a, t.rows[j])
    ensures forall k :: 0 <= k < |MigratedBelow(a, t, hi, n)| ==> OwnedBelow(t, hi, MigratedBelow(a, t, hi, n)[k])
    decreases hi
  {
    if hi > 1 {
      MigratedBelongs(a, t, hi - 1, n);
      var prev := MigratedBelow(a, t, hi - 1, n);
      var all := MigratedBelow(a, t, hi, n);
      forall k | 0 <= k < |all|
        ensures OwnedBelow(t, hi, all[k])
      {
        if k < |prev| {
          assert all[k] == prev[k];
          assert OwnedBelow(t, hi - 1, prev[k]);
          var j :| j in t.rows && j < hi - 1 && BelongsTo(prev[k], t.rows[j]);
          assert j in t.rows && j < hi && BelongsTo(all[k], t.rows[j]);
        } else {
          assert hi - 1 in t.rows;
          var r := t.rows[hi - 1];
          var legs := LegacyRows(a, r, n + DrawnBelow(t, hi - 1));
          assert all == prev + legs;
          assert all[k] == legs[k - |prev|];
          assert BelongsTo(all[k], t.rows[hi - 1]);
        }
      }
    }
  }

  /**
   * A legacy transaction between two different accounts of the same polarity
   * becomes a balanced pair of splits: read back, the two accounts' balances
   * over its rows sum to zero.
   */
  lemma LegacyRowsBalance(a: Table<AccountRow>, r: TransactionRow, n: nat, currencyOf: string -> string, isDebitAccount: bool)
    requires WellFormed(a) && Convertible(a, r) && HasDoubleAccount(r) && r.doubleAccountUid.value != r.accountUid
    ensures var vs := RowValues(LegacyRows(a, r, n), currencyOf);
            Balance(r.accountUid, vs, isDebitAccount) + Balance(r.doubleAccountUid.value, vs, isDebitAccount) == 0
  {
    var legs := LegacyRows(a, r, n);
    var vs := RowValues(legs, currencyOf);
    RowValuesAt(legs, currencyOf);
    var v0, v1 := vs[0], vs[1];
    assert |vs| == 2 && vs[..1] == [v0] && [v0][..0] == [];
    assert v0.accountUid == r.doubleAccountUid.value && v1.accountUid == r.accountUid;
    assert Balance(r.accountUid, [v0], isDebitAccount) == 0;
    assert Balance(r.doubleAccountUid.value, [v0], isDebitAccount) == Contribution(v0, isDebitAccount);
    assert Balance(r.accountUid, vs, isDebitAccount) == Contribution(v1, isDebitAccount);
    assert Balance(r.doubleAccountUid.value, vs, isDebitAccount) == Contribution(v0, isDebitAccount);
    assert v0.splitType == Some(Invert(v1.splitType.value)) && v0.amount.units == v1.amount.units;
  }

  /**
   * The split of a legacy transaction and, with a second account, its pair,
   * written through the corrected addSplit: the rows LegacyRows describes.
   */
  method WriteLegacySplits(db: Db, uids: UidSource, row: TransactionRow, currency: string, txType: TransactionType,
                           ghost a: Table<AccountRow>)
    requires db.Valid() && AllIssued(db.splits, uids.count)
    requires WellFormed(a) && Convertible(a, row) && TypeOf(row.txType) == Some(txType)
    modifies db, uids
    ensures db.Valid() && db.accounts == old(db.accounts) && db.transactions == old(db.transactions)
    ensures uids.count == old(uids.count) + Drawn(row) && AllIssued(db.splits, uids.count)
    ensures Scan(db.splits.rows, All(), db.splits.next)
            == old(Scan(db.splits.rows, All(), db.splits.next)) + LegacyRows(a, row, old(uids.count))
  {
    ghost var c := uids.count;
    ghost var before := Scan(db.splits.rows, All(), db.splits.next);
    var splitUid := uids.Next();
    var split := new Split(Money(row.amount, currency), row.accountUid, splitUid);
    split.SetTransactionUid(row.uid);
    split.SetType(txType);
    split.SetMemo(row.description);
    ghost var splitRow := SplitRow(Label(c), None, txType, row.amount, row.accountUid, row.uid);
    assert split.uid == Label(c) && split.splitType == Some(txType) && split.transactionUid == Some(row.uid);
    assert split.amount.units == row.amount && split.accountUid == row.accountUid;
    if HasDoubleAccount(row) {
      WritePairThenSplit(db, uids, split, row, txType, a, before);
    } else {
      NotTaken(db.splits, c, c);
      IssuedLater(db.splits, c, c + 1);
      AddFreshSplit(db, split, c + 1);
      assert LegacyRows(a, row, c) == [splitRow];
    }
  }

  /** The pair is drawn the next UID and written before the split itself. */
  method WritePairThenSplit(db: Db, uids: UidSource, split: Split, row: TransactionRow, txType: TransactionType,
                            ghost a: Table<AccountRow>, ghost before: seq<SplitRow>)
    requires db.Valid() && uids.count >= 1 && AllIssued(db.splits, uids.count - 1)
    requires before == Scan(db.splits.rows, All(), db.splits.next)
    requires WellFormed(a) && Convertible(a, row) && TypeOf(row.txType) == Some(txType) && HasDoubleAccount(row)
    requires split.uid == Label(uids.count - 1) && split.splitType == Some(txType) && split.transactionUid == Some(row.uid)
    requires split.amount.units == row.amount && split.accountUid == row.accountUid
    modifies db, uids
    ensures db.Valid() && db.accounts == old(db.accounts) && db.transactions == old(db.transactions)
    ensures uids.count == old(uids.count) + 1 && AllIssued(db.splits, uids.count)
    ensures Scan(db.splits.rows, All(), db.splits.next) == before + LegacyRows(a, row, uids.count - 2)
  {
    ghost var c := uids.count - 1;
    ghost var splitRow := SplitRow(split.uid, None, split.splitType.value, split.amount.units, split.accountUid, split.transactionUid.value);
    ghost var pairRow := SplitRow(Label(c + 1), None, Invert(txType), split.amount.units, row.doubleAccountUid.value, row.uid);
    PairThenSplitRows(a, row, c, txType, pairRow, splitRow);
    AppendTwo(before, pairRow, splitRow);
    assert Issued(split.uid, c + 2);
    WritePair(db, uids, split, row, txType);
    AddFreshSplit(db, split, c + 2);
  }

  /** The two rows a legacy row with a double account converts into: the pair first, then the split. */
  lemma PairThenSplitRows(a: Table<AccountRow>, row: TransactionRow, c: nat, txType: TransactionType, pairRow: SplitRow, splitRow: SplitRow)
    requires WellFormed(a) && Convertible(a, row) && TypeOf(row.txType) == Some(txType) && HasDoubleAccount(row)
    requires splitRow == SplitRow(Label(c), None, txType, row.amount, row.accountUid, row.uid)
    requires pairRow == SplitRow(Label(c + 1), None, Invert(txType), row.amount, row.doubleAccountUid.value, row.uid)
    ensures LegacyRows(a, row, c) == [pairRow, splitRow]
  {
  }

  /** createPair on the split, given the legacy transaction's UID, then stored through addSplit. */
  method WritePair(db: Db, uids: UidSource, split: Split, row: TransactionRow, txType: TransactionType)
    requires db.Valid() && uids.count >= 1 && AllIssued(db.splits, uids.count - 1)
    requires HasDoubleAccount(row)
    requires split.uid == Label(uids.count - 1) && split.splitType == Some(txType)
    modifies db, uids
    ensures db.Valid() && db.accounts == old(db.accounts) && db.transactions == old(db.transactions)
    ensures uids.count == old(uids.count) + 1 && AllIssued(db.splits, uids.count)
    ensures forall j :: j in db.splits.rows ==> db.splits.rows[j].uid != split.uid
    ensures Scan(db.splits.rows, All(), db.splits.next) == old(Scan(db.splits.rows, All(), db.splits.next))
              + [SplitRow(Label(old(uids.count)), None, Invert(txType), split.amount.units, row.doubleAccountUid.value, row.uid)]
  {
    ghost var c := uids.count - 1;
    var pairUid := uids.Next();
    var pair := split.CreatePair(row.doubleAccountUid.value, pairUid);
    pair.SetTransactionUid(row.uid);
    assert pair.uid == Label(c + 1) && pair.splitType == Some(Invert(txType)) && pair.transactionUid == Some(row.uid);
    assert pair.amount == split.amount && pair.accountUid == row.doubleAccountUid.value;
    ghost var rows0, next0 := db.splits.rows, db.splits.next;
    NotTaken(db.splits, c, c);
    NotTaken(db.splits, c, c + 1);
    IssuedLater(db.splits, c, c + 2);
    AddFreshSplit(db, pair, c + 2);
    LabelInjective(c, c + 1);
    forall j | j in db.splits.rows
      ensures db.splits.rows[j].uid != split.uid
    {
      if j in rows0 {
        assert db.splits.rows[j] == rows0[j];
      } else {
        assert j == next0;
      }
    }
  }

  lemma AppendTwo<T>(s: seq<T>, x: T, y: T)
    ensures s + [x] + [y] == s + [x, y]
  {
  }

  /** Every split UID in the table is one of the first n labels. */
  ghost predicate AllIssued(t: Table<SplitRow>, n: nat) {
    forall j :: j in t.rows ==> Issued(t.rows[j].uid, n)
  }

  /** A label drawn after the first n is in no row whose UID is among the first n. */
  lemma NotTaken(t: Table<SplitRow>, n: nat, k: nat)
    requires AllIssued(t, n) && n <= k
    ensures forall j :: j in t.rows ==> t.rows[j].uid != Label(k)
  {
    forall j | j in t.rows
      ensures t.rows[j].uid != Label(k)
    {
      var i: nat :| i < n && Label(i) == t.rows[j].uid;
      LabelInjective(i, k);
    }
  }

  lemma IssuedLater(t: Table<SplitRow>, n: nat, m: nat)
    requires AllIssued(t, n) && n <= m
    ensures AllIssued(t, m)
  {
    forall j | j in t.rows
      ensures Issued(t.rows[j].uid, m)
    {
      var i: nat :| i < n && Label(i) == t.rows[j].uid;
    }
  }

  /** addSplit (corrected) of a split whose UID no row has: its row is stored last. */
  method AddFreshSplit(db: Db, split: Split, ghost m: nat)
    requires db.Valid() && split.splitType.Some? && split.transactionUid.Some?
    requires forall j :: j in db.splits.rows ==> db.splits.rows[j].uid != split.uid
    requires AllIssued(db.splits, m) && Issued(split.uid, m)
    modifies db
    ensures db.Valid() && db.accounts == old(db.accounts) && db.transactions == old(db.transactions)
    ensures AllIssued(db.splits, m)
    ensures db.splits.rows.Keys == old(db.splits.rows.Keys) + {old(db.splits.next)}
    ensures db.splits.rows[old(db.splits.next)].uid == split.uid
    ensures forall j :: j in old(db.splits.rows) ==> db.splits.rows[j] == old(db.splits.rows[j])
    ensures Scan(db.splits.rows, All(), db.splits.next) == old(Scan(db.splits.rows, All(), db.splits.next))
              + [SplitRow(split.uid, None, split.splitType.value, split.amount.units, split.accountUid, split.transactionUid.value)]
  {
    ghost var before := db.splits;
    ghost var row := SplitRow(split.uid, None, split.splitType.value, split.amount.units, split.accountUid, split.transactionUid.value);
    var _ := AddSplitCorrected(db, split);
    assert db.splits == Insert(before, row).0;
    ScanInsert(before, All(), row);
  }

  /**
   * Step 6 to 7 with addSplit writing the account UID and the pair given its
   * transaction's UID: the splits table then holds, in row order, the rows
   * MigratedBelow describes.
   */
  method MigrateToSplitsCorrected(db: Db, uids: UidSource) returns (ok: bool)
    requires db.Valid() && TablesValid(Tables(db.accounts, db.transactions, db.splits))
    modifies db, uids
    ensures db.Valid()
    ensures ok <==> !ConversionFails(old(db.accounts), old(db.transactions))
    ensures ok ==> db.accounts == old(db.accounts)
    ensures ok ==> db.transactions == Convert(old(Tables(db.accounts, db.transactions, db.splits))).value.transactions
    ensures ok ==> Scan(db.splits.rows, All(), db.splits.next)
                   == MigratedBelow(old(db.accounts), old(db.transactions), old(db.transactions.next), old(uids.count))
  {
    ghost var d0 := Tables(db.accounts, db.transactions, db.splits);
    db.splits := EmptyTable();
    var a0, t0 := db.accounts, db.transactions;
    ghost var c0 := uids.count;
    MigratingStarts(db, uids, a0, t0);
    var id := 1;
    while id < t0.next
      invariant Migrating(db, uids, a0, t0, c0, id)
    {
      var ended := MigrateStepCorrected(db, uids, a0, t0, c0, id);
      if !ended {
        assert id in t0.rows && !Convertible(a0, t0.rows[id]);
        return false;
      }
      id := id + 1;
    }
    MigratingEnds(db, uids, d0, a0, t0, c0, id);
    ok := true;
  }

  lemma MigratingStarts(db: Db, uids: UidSource, a0: Table<AccountRow>, t0: Table<TransactionRow>)
    requires db.Valid() && db.accounts == a0 && db.transactions == t0 && db.splits == EmptyTable()
    requires UniqueTransactionUids(t0)
    ensures Migrating(db, uids, a0, t0, uids.count, 1)
  {
    assert Scan(db.splits.rows, All(), db.splits.next) == [];
  }

  /** Once every row is converted, the transactions are those Convert describes. */
  lemma MigratingEnds(db: Db, uids: UidSource, d0: Tables, a0: Table<AccountRow>, t0: Table<TransactionRow>, c0: nat, id: int)
    requires TablesValid(d0) && d0.accounts == a0 && d0.transactions == t0
    requires Migrating(db, uids, a0, t0, c0, id) && id >= t0.next
    ensures !ConversionFails(a0, t0)
    ensures db.transactions == Convert(d0).value.transactions
    ensures Scan(db.splits.rows, All(), db.splits.next) == MigratedBelow(a0, t0, t0.next, c0)
  {
    StampedAll(a0, t0, db.transactions);
  }

  /** The state of the corrected conversion loop before row id. */
  ghost predicate Migrating(db: Db, uids: UidSource, a0: Table<AccountRow>, t0: Table<TransactionRow>, c0: nat, id: int)
    reads db, uids
  {
    && 1 <= id <= t0.next
    && db.Valid() && db.accounts == a0
    && StampedBelow(a0, t0, db.transactions, id)
    && (forall j :: j in t0.rows && j < id ==> Convertible(a0, t0.rows[j]))
    && uids.count == c0 + DrawnBelow(t0, id)
    && AllIssued(db.splits, uids.count)
    && Scan(db.splits.rows, All(), db.splits.next) == MigratedBelow(a0, t0, id, c0)
  }

  /** One turn of the corrected conversion loop: it stops only at a legacy row it cannot convert. */
  method MigrateStepCorrected(db: Db, uids: UidSource, a0: Table<AccountRow>, t0: Table<TransactionRow>, ghost c0: nat, id: int)
    returns (ended: bool)
    requires Migrating(db, uids, a0, t0, c0, id) && id < t0.next
    modifies db, uids
    ensures db.Valid() && db.accounts == a0
    ensures ended <==> id !in t0.rows || Convertible(a0, t0.rows[id])
    ensures ended ==> Migrating(db, uids, a0, t0, c0, id + 1)
  {
    ended := true;
    if id in t0.rows {
      ghost var n := uids.count;
      ghost var before := Scan(db.splits.rows, All(), db.splits.next);
      assert n == c0 + DrawnBelow(t0, id) && before == MigratedBelow(a0, t0, id, c0);
      ended := ConvertRowCorrected(db, uids, t0, id);
      if !ended {
        return;
      }
      ghost var added := LegacyRows(a0, t0.rows[id], n);
      assert Scan(db.splits.rows, All(), db.splits.next) == before + added;
      MigratedAppend(a0, t0, id, c0, n, before, added);
    } else {
      StampedSkip(a0, t0, db.transactions, id);
      MigratedStep(a0, t0, id, c0);
    }
  }

  /** The rows of one more convertible legacy row, appended to those below it, are the rows below the next id. */
  lemma MigratedAppend(a: Table<AccountRow>, t: Table<TransactionRow>, id: int, c0: nat, n: nat,
                       before: seq<SplitRow>, added: seq<SplitRow>)
    requires WellFormed(a) && id >= 1 && id in t.rows && forall j :: j in t.rows && j < id + 1 ==> Convertible(a, t.rows[j])
    requires before == MigratedBelow(a, t, id, c0) && n == c0 + DrawnBelow(t, id) && added == LegacyRows(a, t.rows[id], n)
    ensures before + added == MigratedBelow(a, t, id + 1, c0)
    ensures n + Drawn(t.rows[id]) == c0 + DrawnBelow(t, id + 1)
  {
    MigratedStep(a, t, id, c0);
  }

  /** A row id with no legacy row leaves nothing to stamp. */
  lemma StampedSkip(a0: Table<AccountRow>, t0: Table<TransactionRow>, cur: Table<TransactionRow>, id: int)
    requires WellFormed(a0) && StampedBelow(a0, t0, cur, id) && id !in t0.rows
    ensures StampedBelow(a0, t0, cur, id + 1)
  {
    forall j | j in t0.rows
      ensures cur.rows[j] == if j < id + 1 then Stamp(a0, t0.rows[j]) else t0.rows[j]
    {
      assert j != id;
    }
  }

  /** One turn of the corrected conversion loop: the rows LegacyRows describes are appended to the splits table. */
  method ConvertRowCorrected(db: Db, uids: UidSource, t0: Table<TransactionRow>, id: int) returns (ended: bool)
    requires db.Valid() && StampedBelow(db.accounts, t0, db.transactions, id) && id in t0.rows
    requires AllIssued(db.splits, uids.count)
    modifies db, uids
    ensures db.Valid() && db.accounts == old(db.accounts)
    ensures ended <==> Convertible(db.accounts, t0.rows[id])
    ensures ended ==> StampedBelow(db.accounts, t0, db.transactions, id + 1)
    ensures ended ==> uids.count == old(uids.count) + Drawn(t0.rows[id]) && AllIssued(db.splits, uids.count)
    ensures ended ==> Scan(db.splits.rows, All(), db.splits.next)
                      == old(Scan(db.splits.rows, All(), db.splits.next)) + LegacyRows(db.accounts, t0.rows[id], old(uids.count))
  {
    var row := t0.rows[id];
    var currency := CurrencyCode(db.accounts, row.accountUid);
    if currency.None? {
      return false;
    }
    StampStep(db.accounts, t0, db.transactions, id);
    var _ := UpdateTransaction(db, row.uid, CurrencyColumn, currency.value);
    var txType := TypeOf(row.txType);
    if txType.None? {
      return false;
    }
    WriteLegacySplits(db, uids, row, currency.value, txType.value, db.accounts);
    ended := true;
  }
}
