/**
 * MigrationHelper.java: the lookups and writes the schema upgrade uses while
 * the database is locked: an account's currency, the GnuCash ROOT account,
 * an account's fully qualified name, the raw split insert and a
 * single-column transaction update.
 */
module MigrationHelper {
  import opened Wrappers
  import opened Strings
  import opened TransactionTypes
  import opened Ledger
  import opened SplitModel
  import opened Store

  /** AccountsDbAdapter.ACCOUNT_NAME_SEPARATOR; the helper documents its result as colon-separated. */
  const Separator: string := ":"

  /** getCurrencyCode: the currency column of the first account row with the UID, None when there is no such row. */
  function CurrencyCode(accounts: Table<AccountRow>, uid: string): (c: Option<string>)
    requires WellFormed(accounts)
    ensures (forall id :: id in accounts.rows ==> accounts.rows[id].uid != uid) ==> c.None?
    ensures c.Some? ==> exists id :: id in accounts.rows && accounts.rows[id].uid == uid && accounts.rows[id].currency == c
  {
    var id := First(accounts, AccountKeyIs(uid));
    if id == -1 then None else accounts.rows[id].currency
  }

  /** ORDER BY name ASC: NULL sorts first, strings by character code. */
  predicate NameBefore(a: Option<string>, b: Option<string>) {
    (a.None? && b.Some?) || (a.Some? && b.Some? && Less(a.value, b.value))
  }

  lemma NameBeforeTransitive(a: Option<string>, b: Option<string>, c: Option<string>)
    requires NameBefore(a, b) && NameBefore(b, c)
    ensures NameBefore(a, c)
  {
    if a.Some? {
      LessTransitive(a.value, b.value, c.value);
    }
  }

  predicate IsRootRow(r: AccountRow) {
    r.accountType == "ROOT"
  }

  /**
   * The id of the first ROOT-type row by name, ties going to the lower row id,
   * among the ids below hi; -1 when there is none.
   */
  function FirstRoot(rows: map<int, AccountRow>, hi: int): (best: int)
    ensures best == -1 || (best in rows && best < hi && IsRootRow(rows[best]))
    decreases hi
  {
    if hi <= 1 then -1
    else
      var best := FirstRoot(rows, hi - 1);
      var id := hi - 1;
      if id in rows && IsRootRow(rows[id]) && (best == -1 || NameBefore(rows[id].name, rows[best].name)) then id
      else best
  }

  /** FirstRoot is the first row of the ROOT accounts ordered by name. */
  lemma {:induction false} FirstRootIsFirst(rows: map<int, AccountRow>, hi: int)
    requires forall id :: id in rows ==> id >= 1
    ensures var best := FirstRoot(rows, hi);
            && (best == -1 <==> forall id :: id in rows && id < hi ==> !IsRootRow(rows[id]))
            && (best != -1 ==> forall id :: id in rows && id < hi && IsRootRow(rows[id]) ==>
                  !NameBefore(rows[id].name, rows[best].name) && (rows[id].name == rows[best].name ==> best <= id))
    decreases hi
  {
    if hi > 1 {
      FirstRootIsFirst(rows, hi - 1);
      var prev := FirstRoot(rows, hi - 1);
      var id := hi - 1;
      var best := FirstRoot(rows, hi);
      if best == id && prev != -1 {
        forall j | j in rows && j < hi && IsRootRow(rows[j])
          ensures !NameBefore(rows[j].name, rows[best].name) && (rows[j].name == rows[best].name ==> best <= j)
        {
          if j < id {
            if NameBefore(rows[j].name, rows[id].name) {
              NameBeforeTransitive(rows[j].name, rows[id].name, rows[prev].name);
            }
          } else {
            NameBeforeIrreflexive(rows[id].name);
          }
        }
      } else if best == id {
        NameBeforeIrreflexive(rows[id].name);
      } else if best != -1 && id in rows && IsRootRow(rows[id]) {
        NameBeforeIrreflexive(rows[best].name);
        NameBeforeTotal(rows[id].name, rows[best].name);
      }
    }
  }

  lemma NameBeforeIrreflexive(a: Option<string>)
    ensures !NameBefore(a, a)
  {
    if a.Some? {
      LessIrreflexive(a.value);
    }
  }

  lemma NameBeforeTotal(a: Option<string>, b: Option<string>)
    ensures a == b || NameBefore(a, b) || NameBefore(b, a)
  {
    if a.Some? && b.Some? {
      LessTotal(a.value, b.value);
    }
  }

  /** getGnuCashRootAccountUID: the UID of the first ROOT account by name, or None. */
  function RootUid(accounts: Table<AccountRow>): (u: Option<string>)
    requires WellFormed(accounts)
    ensures u.None? <==> forall id :: id in accounts.rows ==> !IsRootRow(accounts.rows[id])
    ensures u.Some? ==> exists id :: id in accounts.rows && IsRootRow(accounts.rows[id]) && accounts.rows[id].uid == u.value
  {
    FirstRootIsFirst(accounts.rows, accounts.next);
    var best := FirstRoot(accounts.rows, accounts.next);
    if best == -1 then None else Some(accounts.rows[best].uid)
  }

  /** The outcome of the recursive name walk: a name (possibly null), or a recursion that never ends. */
  datatype Walk = Named(name: Option<string>) | Diverges

  /** The parent UID and the name the two lookups of getFullyQualifiedAccountName return. */
  datatype Link = Link(parent: Option<string>, name: Option<string>)

  /** Both columns come from the first row with the UID; an unknown UID gives two NULLs. */
  function LinkOf(accounts: Table<AccountRow>, uid: string): (l: Link)
    requires WellFormed(accounts)
    ensures (forall id :: id in accounts.rows ==> accounts.rows[id].uid != uid) ==> l == Link(None, None)
  {
    var id := First(accounts, AccountKeyIs(uid));
    if id == -1 then Link(None, None) else Link(accounts.rows[id].parentUid, accounts.rows[id].name)
  }

  /** Where the walk returns the bare name: no parent, no name, or the parent is ROOT (ignoring case). */
  predicate Stops(l: Link, root: Option<string>) {
    l.parent.None? || l.name.None? || EqualsIgnoreCase(l.parent.value, root)
  }

  /**
   * getFullyQualifiedAccountName with the ROOT UID computed once (the source
   * recomputes the same value on every call). `fuel` bounds the depth of the
   * recursion; running out stands for the stack overflow an endless parent
   * chain causes.
   */
  function FullName(accounts: Table<AccountRow>, root: Option<string>, uid: string, fuel: nat): Walk
    requires WellFormed(accounts)
    decreases fuel
  {
    var l := LinkOf(accounts, uid);
    if Stops(l, root) then Named(l.name)
    else if fuel == 0 then Diverges
    else
      match FullName(accounts, root, l.parent.value, fuel - 1)
      case Diverges => Diverges
      case Named(parentName) => Named(Some(NullToString(parentName) + Separator + l.name.value))
  }

  predicate EndsWith(s: string, suffix: string) {
    |suffix| <= |s| && s[|s| - |suffix|..] == suffix
  }

  /**
   * A walk that yields a name yields the account's own name, or a prefix, the
   * separator and the account's own name; an unknown UID yields NULL.
   */
  lemma FullNameShape(accounts: Table<AccountRow>, root: Option<string>, uid: string, fuel: nat)
    requires WellFormed(accounts)
    ensures var l := LinkOf(accounts, uid);
            var w := FullName(accounts, root, uid, fuel);
            && (l == Link(None, None) ==> w == Named(None))
            && (w.Named? && w.name.Some? ==>
                  && l.name.Some?
                  && (w.name.value == l.name.value || EndsWith(w.name.value, Separator + l.name.value)))
  {
    var l := LinkOf(accounts, uid);
    var w := FullName(accounts, root, uid, fuel);
    if !Stops(l, root) && fuel > 0 && w.Named? {
      var full := w.name.value;
      var prefix := NullToString(FullName(accounts, root, l.parent.value, fuel - 1).name);
      assert full == prefix + (Separator + l.name.value);
      assert full[|full| - |Separator + l.name.value|..] == Separator + l.name.value;
    }
  }

  /** The name getFullyQualifiedAccountName computes for the account with the UID. */
  function FullyQualifiedName(accounts: Table<AccountRow>, uid: string, fuel: nat): Walk
    requires WellFormed(accounts)
  {
    FullName(accounts, RootUid(accounts), uid, fuel)
  }

  /** A walk that ends within some fuel ends, with the same name, with any larger fuel. */
  lemma {:induction false} FullNameFuelMonotone(accounts: Table<AccountRow>, root: Option<string>, uid: string,
                                                fuel: nat, more: nat)
    requires WellFormed(accounts) && fuel <= more
    requires FullName(accounts, root, uid, fuel).Named?
    ensures FullName(accounts, root, uid, more) == FullName(accounts, root, uid, fuel)
    decreases fuel
  {
    var l := LinkOf(accounts, uid);
    if !Stops(l, root) {
      FullNameFuelMonotone(accounts, root, l.parent.value, fuel - 1, more - 1);
    }
  }

  /** Two account tables that agree on every column except the full name. */
  predicate SameHierarchy(a: Table<AccountRow>, b: Table<AccountRow>) {
    && a.next == b.next && a.rows.Keys == b.rows.Keys
    && forall id :: id in a.rows ==>
         var x, y := a.rows[id], b.rows[id];
         x.uid == y.uid && x.name == y.name && x.parentUid == y.parentUid && x.accountType == y.accountType
  }

  /** Writing full names changes no lookup the name walk makes. */
  lemma {:induction false} FullNameIgnoresFullNames(a: Table<AccountRow>, b: Table<AccountRow>, uid: string, fuel: nat)
    requires WellFormed(a) && WellFormed(b) && SameHierarchy(a, b)
    ensures RootUid(a) == RootUid(b)
    ensures FullyQualifiedName(a, uid, fuel) == FullyQualifiedName(b, uid, fuel)
  {
    RootIgnoresFullNames(a.rows, b.rows, a.next);
    FullNameWalkIgnoresFullNames(a, b, RootUid(a), uid, fuel);
  }

  lemma {:induction false} RootIgnoresFullNames(a: map<int, AccountRow>, b: map<int, AccountRow>, hi: int)
    requires a.Keys == b.Keys
    requires forall id :: id in a ==> a[id].name == b[id].name && a[id].accountType == b[id].accountType
    ensures FirstRoot(a, hi) == FirstRoot(b, hi)
    decreases hi
  {
    if hi > 1 {
      RootIgnoresFullNames(a, b, hi - 1);
    }
  }

  lemma {:induction false} FirstIgnoresFullNames(a: Table<AccountRow>, b: Table<AccountRow>, uid: string, hi: int)
    requires SameHierarchy(a, b)
    ensures Where(a.rows, AccountKeyIs(uid), hi) == Where(b.rows, AccountKeyIs(uid), hi)
    decreases hi
  {
    if hi > 1 {
      FirstIgnoresFullNames(a, b, uid, hi - 1);
    }
  }

  lemma FullNameWalkIgnoresFullNames(a: Table<AccountRow>, b: Table<AccountRow>, root: Option<string>,
                                     uid: string, fuel: nat)
    requires WellFormed(a) && WellFormed(b) && SameHierarchy(a, b)
    ensures FullName(a, root, uid, fuel) == FullName(b, root, uid, fuel)
  {
    forall u
      ensures LinkOf(a, u) == LinkOf(b, u)
    {
      LinkIgnoresFullNames(a, b, u);
    }
    WalkFollowsLinks(a, b, root, uid, fuel);
  }

  /** The walk reads the table only through LinkOf: tables with the same links give the same walks. */
  lemma {:induction false} WalkFollowsLinks(a: Table<AccountRow>, b: Table<AccountRow>, root: Option<string>,
                                            uid: string, fuel: nat)
    requires WellFormed(a) && WellFormed(b)
    requires forall u :: LinkOf(a, u) == LinkOf(b, u)
    ensures FullName(a, root, uid, fuel) == FullName(b, root, uid, fuel)
    decreases fuel
  {
    var l := LinkOf(a, uid);
    if fuel > 0 && !Stops(l, root) {
      WalkFollowsLinks(a, b, root, l.parent.value, fuel - 1);
      FullNameUnfolds(a, root, uid, fuel);
      FullNameUnfolds(b, root, uid, fuel);
    }
  }

  /** One step of the walk: the name is built from the parent's walk. */
  lemma FullNameUnfolds(t: Table<AccountRow>, root: Option<string>, uid: string, fuel: nat)
    requires WellFormed(t) && fuel > 0 && !Stops(LinkOf(t, uid), root)
    ensures var l := LinkOf(t, uid);
            FullName(t, root, uid, fuel) == Extend(FullName(t, root, l.parent.value, fuel - 1), l.name.value)
  {
  }

  /** The walk of the parent, extended by the separator and the child's name. */
  function Extend(parent: Walk, name: string): Walk {
    match parent
    case Diverges => Diverges
    case Named(parentName) => Named(Some(NullToString(parentName) + Separator + name))
  }

  lemma LinkIgnoresFullNames(a: Table<AccountRow>, b: Table<AccountRow>, uid: string)
    requires WellFormed(a) && WellFormed(b) && SameHierarchy(a, b)
    ensures LinkOf(a, uid) == LinkOf(b, uid)
  {
    FirstIgnoresFullNames(a, b, uid, a.next);
  }

  /** The hierarchy Root Account <- Assets <- Checking, as imported from GnuCash desktop. */
  function SampleHierarchy(): Table<AccountRow> {
    Table(map[1 := AccountRow("r", Some("Root Account"), "ROOT", Some("USD"), None, false, None, None),
              2 := AccountRow("a", Some("Assets"), "ASSET", Some("USD"), Some("r"), false, None, None),
              3 := AccountRow("c", Some("Checking"), "BANK", Some("USD"), Some("a"), false, None, None)], 4)
  }

  /** The ROOT account is left out of the chain, and a top-level account keeps its bare name. */
  lemma RootExcludedFromChain()
    ensures FullyQualifiedName(SampleHierarchy(), "c", 3) == Named(Some("Assets:Checking"))
    ensures FullyQualifiedName(SampleHierarchy(), "a", 3) == Named(Some("Assets"))
  {
    SampleRoot();
    SampleLinks();
    SampleWalks(SampleHierarchy());
  }

  lemma SampleWalks(t: Table<AccountRow>)
    requires WellFormed(t)
    requires LinkOf(t, "a") == Link(Some("r"), Some("Assets"))
    requires LinkOf(t, "c") == Link(Some("a"), Some("Checking"))
    ensures FullName(t, Some("r"), "c", 3) == Named(Some("Assets:Checking"))
    ensures FullName(t, Some("r"), "a", 3) == Named(Some("Assets"))
  {
    assert !EqualsIgnoreCase("a", Some("r")) by { assert ToLower('a') != ToLower('r'); }
    TopLevelWalk(t, "r", "a", "Assets", 3);
    ChildWalk(t, "r", "a", "c", "Assets", "Checking", 3);
    assert "Assets" + Separator + "Checking" == "Assets:Checking";
  }

  /** An account whose parent is the root keeps its own name, whatever the fuel. */
  lemma TopLevelWalk(t: Table<AccountRow>, root: string, a: string, an: string, fuel: nat)
    requires WellFormed(t) && LinkOf(t, a) == Link(Some(root), Some(an))
    ensures FullName(t, Some(root), a, fuel) == Named(Some(an))
  {
    assert EqualsIgnoreCase(root, Some(root));
  }

  /** An account one level below a top-level account is named after that account. */
  lemma ChildWalk(t: Table<AccountRow>, root: string, a: string, c: string, an: string, cn: string, fuel: nat)
    requires WellFormed(t) && fuel > 0 && !EqualsIgnoreCase(a, Some(root))
    requires LinkOf(t, a) == Link(Some(root), Some(an)) && LinkOf(t, c) == Link(Some(a), Some(cn))
    ensures FullName(t, Some(root), c, fuel) == Named(Some(an + Separator + cn))
  {
    FullNameUnfolds(t, Some(root), c, fuel);
    TopLevelWalk(t, root, a, an, fuel - 1);
  }

  lemma SampleRoot()
    ensures RootUid(SampleHierarchy()) == Some("r")
  {
    var t := SampleHierarchy();
    assert FirstRoot(t.rows, 2) == 1;
    assert FirstRoot(t.rows, 4) == 1;
  }

  lemma SampleLinks()
    ensures LinkOf(SampleHierarchy(), "a") == Link(Some("r"), Some("Assets"))
    ensures LinkOf(SampleHierarchy(), "c") == Link(Some("a"), Some("Checking"))
  {
    var t := SampleHierarchy();
    assert Where(t.rows, AccountKeyIs("a"), 4) == [2];
    assert Where(t.rows, AccountKeyIs("c"), 4) == [3];
  }

  /** Two accounts that are each other's parent, with no ROOT account. */
  function CyclicPair(): Table<AccountRow> {
    Table(map[1 := AccountRow("x", Some("X"), "ASSET", Some("USD"), Some("y"), false, None, None),
              2 := AccountRow("y", Some("Y"), "ASSET", Some("USD"), Some("x"), false, None, None)], 3)
  }

  /** With a parent cycle the walk never ends, whatever the fuel: the source recurses until the stack overflows. */
  lemma {:induction false} CycleDiverges(fuel: nat)
    ensures FullName(CyclicPair(), None, "x", fuel) == Diverges
    ensures FullName(CyclicPair(), None, "y", fuel) == Diverges
  {
    var t := CyclicPair();
    assert Where(t.rows, AccountKeyIs("x"), 3) == [1];
    assert Where(t.rows, AccountKeyIs("y"), 3) == [2];
    assert LinkOf(t, "x") == Link(Some("y"), Some("X"));
    assert LinkOf(t, "y") == Link(Some("x"), Some("Y"));
    if fuel > 0 {
      CycleDiverges(fuel - 1);
    }
  }

  /** The ContentValues MigrationHelper.addSplit writes: no account UID, no memo, the amount as signed. */
  function MigrationColumns(v: SplitValue): (c: SplitColumns)
    requires v.splitType.Some?
    ensures c.accountUid.None? && c.amount == v.amount.units
  {
    SplitColumns(v.uid, v.transactionUid, v.amount.units, v.splitType.value, None)
  }

  /** Without an account UID the splits table's NOT NULL constraint rejects every row addSplit writes. */
  lemma MigrationInsertRejected(t: Table<SplitRow>, v: SplitValue)
    requires WellFormed(t) && v.splitType.Some?
    ensures InsertSplit(t, MigrationColumns(v)) == (t, -1)
  {
  }

  /**
   * addSplit as written: inserts one row and reports whether SQLite gave it a
   * row id. The type has to be set (the source dereferences it).
   */
  method AddSplit(db: Db, split: Split) returns (ok: bool)
    requires db.Valid() && split.splitType.Some?
    modifies db
    ensures db.Valid()
    ensures var (t, id) := InsertSplit(old(db.splits), MigrationColumns(split.Value()));
            db.splits == t && ok == (id > 0)
    ensures !ok && db.splits == old(db.splits)
    ensures db.accounts == old(db.accounts) && db.transactions == old(db.transactions)
  {
    var inserted := InsertSplit(db.splits, MigrationColumns(split.Value()));
    db.splits := inserted.0;
    ok := inserted.1 > 0;
  }

  /** The ContentValues addSplit evidently means to write: the account UID as well. */
  function MigrationColumnsCorrected(v: SplitValue): (c: SplitColumns)
    requires v.splitType.Some?
    ensures c.accountUid == Some(v.accountUid) && c.amount == v.amount.units
  {
    SplitColumns(v.uid, v.transactionUid, v.amount.units, v.splitType.value, Some(v.accountUid))
  }

  /** addSplit with the account UID written: the row is stored unless it lacks a transaction UID or reuses a UID. */
  method AddSplitCorrected(db: Db, split: Split) returns (ok: bool)
    requires db.Valid() && split.splitType.Some?
    modifies db
    ensures db.Valid()
    ensures var (t, id) := InsertSplit(old(db.splits), MigrationColumnsCorrected(split.Value()));
            db.splits == t && ok == (id > 0)
    ensures ok <==> split.transactionUid.Some? && !UidTaken(old(db.splits), split.uid)
    ensures db.accounts == old(db.accounts) && db.transactions == old(db.transactions)
  {
    var inserted := InsertSplit(db.splits, MigrationColumnsCorrected(split.Value()));
    db.splits := inserted.0;
    ok := inserted.1 > 0;
  }

  /** The string-valued transaction columns updateTransaction may be given. */
  datatype TransactionColumn = NameColumn | DescriptionColumn | CurrencyColumn

  /** A row with one column set to the value. */
  function SetColumn(r: TransactionRow, column: TransactionColumn, value: string): (r': TransactionRow)
    ensures column == NameColumn ==> r' == r.(name := Some(value))
    ensures column == DescriptionColumn ==> r' == r.(description := Some(value))
    ensures column == CurrencyColumn ==> r' == r.(currency := Some(value))
  {
    match column
    case NameColumn => r.(name := Some(value))
    case DescriptionColumn => r.(description := Some(value))
    case CurrencyColumn => r.(currency := Some(value))
  }

  /** updateTransaction: sets the column on every row with the UID and returns how many rows that was. */
  method UpdateTransaction(db: Db, transactionUid: string, column: TransactionColumn, value: string) returns (count: int)
    requires db.Valid()
    modifies db
    ensures db.Valid()
    ensures db.transactions == Update(old(db.transactions), TransactionKeyIs(transactionUid),
                                      (r: TransactionRow) => SetColumn(r, column, value))
    ensures count == Affected(old(db.transactions), TransactionKeyIs(transactionUid))
    ensures db.accounts == old(db.accounts) && db.splits == old(db.splits)
  {
    count := Affected(db.transactions, TransactionKeyIs(transactionUid));
    db.transactions := Update(db.transactions, TransactionKeyIs(transactionUid),
                              (r: TransactionRow) => SetColumn(r, column, value));
  }
}
