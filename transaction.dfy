/**
 * Transaction.java: a transaction object that owns an ordered list of split
 * objects, stamps the splits it is given, and computes per-account balances.
 */
module TransactionModel {
  import opened Wrappers
  import opened Strings
  import opened AccountTypes
  import opened TransactionTypes
  import opened Ledger
  import opened SplitModel

  /** Every field of a transaction except its split list. */
  datatype TransactionFields = TransactionFields(
    uid: string,
    name: string,
    description: string,
    exported: int,
    timestamp: int,
    currencyCode: string,
    recurrencePeriod: int)

  /** What addSplit does to a split: its money relabelled to the currency, its transaction UID set. */
  function Stamped(v: SplitValue, transactionUid: string, currency: string): (r: SplitValue)
    ensures r.amount.units == v.amount.units && r.amount.currency == currency
    ensures r.transactionUid == Some(transactionUid)
    ensures r.uid == v.uid && r.accountUid == v.accountUid && r.splitType == v.splitType && r.memo == v.memo
  {
    v.(amount := WithCurrency(v.amount, currency), transactionUid := Some(transactionUid))
  }

  /** The split objects of `ss` posted to `account`, in order (the filter in getSplits(accountUID)). */
  function SplitsOf(account: string, ss: seq<Split>): seq<Split>
    reads ss
  {
    if ss == [] then []
    else
      var last := ss[|ss| - 1];
      SplitsOf(account, ss[..|ss| - 1]) + (if last.accountUid == account then [last] else [])
  }

  /** The filter on objects is the filter on their values, and picks exactly the account's splits. */
  lemma SplitsOfSpec(account: string, ss: seq<Split>)
    ensures Values(SplitsOf(account, ss)) == Matching(account, Values(ss))
    ensures forall s :: s in SplitsOf(account, ss) <==> s in ss && s.accountUid == account
  {
    SplitsOfValues(account, ss);
    SplitsOfMembers(account, ss);
  }

  lemma {:induction false} SplitsOfValues(account: string, ss: seq<Split>)
    ensures Values(SplitsOf(account, ss)) == Matching(account, Values(ss))
  {
    if ss != [] {
      var init, last := ss[..|ss| - 1], ss[|ss| - 1];
      SplitsOfValues(account, init);
      var vs := Values(ss);
      assert vs[..|vs| - 1] == Values(init);
      assert vs[|vs| - 1] == last.Value();
      var r0 := SplitsOf(account, init);
      if last.accountUid == account {
        var r := r0 + [last];
        assert r[..|r| - 1] == r0;
        assert Values(r) == Values(r0) + [last.Value()];
      } else {
        assert r0 + [] == r0;
      }
    }
  }

  lemma {:induction false} SplitsOfMembers(account: string, ss: seq<Split>)
    ensures forall s :: s in SplitsOf(account, ss) <==> s in ss && s.accountUid == account
  {
    if ss != [] {
      var init, last := ss[..|ss| - 1], ss[|ss| - 1];
      SplitsOfMembers(account, init);
      assert ss == init + [last];
    }
  }

  /** One more split read: the balance of the longer prefix adds that split's contribution, if it is the account's. */
  lemma BalanceStep(account: string, vs: seq<SplitValue>, i: int, isDebitAccount: bool)
    requires 0 <= i < |vs|
    ensures Balance(account, vs[..i + 1], isDebitAccount)
            == Balance(account, vs[..i], isDebitAccount)
               + (if vs[i].accountUid == account then Contribution(vs[i], isDebitAccount) else 0)
  {
    assert vs[..i + 1][..i] == vs[..i];
  }

  /** Stamping twice with the same transaction is stamping once. */
  lemma StampedIdempotent(v: SplitValue, transactionUid: string, currency: string)
    ensures Stamped(Stamped(v, transactionUid, currency), transactionUid, currency) == Stamped(v, transactionUid, currency)
  {
  }

  lemma PrefixExtends<T>(s: seq<T>, i: int)
    requires 0 <= i < |s|
    ensures s[..i + 1] == s[..i] + [s[i]]
  {
  }

  class Transaction {
    var currencyCode: string
    var splits: seq<Split>
    var uid: string
    var name: string
    var description: string
    var exported: int
    var timestamp: int
    var recurrencePeriod: int

    function Fields(): TransactionFields
      reads this
    {
      TransactionFields(uid, name, description, exported, timestamp, currencyCode, recurrencePeriod)
    }

    /**
     * Transaction(name). `freshUid` and `now` are what initDefaults draws from
     * the UUID generator and the clock; `defaultCurrency` is the field
     * initializer's default currency code.
     */
    constructor (name: string, freshUid: string, now: int, defaultCurrency: string)
      ensures Fields() == TransactionFields(freshUid, Trim(name), "", 0, now, defaultCurrency, 0)
      ensures splits == []
    {
      currencyCode := defaultCurrency;
      splits := [];
      uid := freshUid;
      this.name := Trim(name);
      description := "";
      exported := 0;
      timestamp := now;
      recurrencePeriod := 0;
    }

    /**
     * The copy constructor. It shares the other transaction's split objects and
     * restamps them with the fresh UID and the default currency; when
     * `generateNewUid` is false it restores the original UID only afterwards,
     * so the splits keep the fresh one. Currency and recurrence are not copied.
     */
    constructor Copy(other: Transaction, generateNewUid: bool, freshUid: string, now: int, defaultCurrency: string)
      modifies other.splits
      ensures splits == old(other.splits)
      ensures forall k :: 0 <= k < |splits| ==>
                splits[k].Value() == Stamped(old(other.splits[k].Value()), freshUid, defaultCurrency)
      ensures uid == (if generateNewUid then freshUid else other.uid)
      ensures name == Trim(other.name) && description == other.description
      ensures exported == (if other.exported == 1 then 1 else 0) && timestamp == other.timestamp
      ensures currencyCode == defaultCurrency && recurrencePeriod == 0
      ensures !generateNewUid && freshUid != other.uid ==>
                forall k :: 0 <= k < |splits| ==> splits[k].transactionUid != Some(uid)
    {
      currencyCode := defaultCurrency;
      splits := [];
      uid := freshUid;
      name := "";
      description := "";
      exported := 0;
      timestamp := now;
      recurrencePeriod := 0;
      new;
      SetName(other.name);
      description := other.description;
      SetSplits(other.splits);
      SetExported(other.IsExported());
      timestamp := other.timestamp;
      if !generateNewUid {
        uid := other.uid;
      }
    }

    /**
     * The copy constructor as intended: the UID is settled before the splits are
     * stamped, so every copied split carries the copy's own UID.
     */
    constructor CopyCorrected(other: Transaction, generateNewUid: bool, freshUid: string, now: int, defaultCurrency: string)
      modifies other.splits
      ensures splits == old(other.splits)
      ensures uid == (if generateNewUid then freshUid else other.uid)
      ensures forall k :: 0 <= k < |splits| ==>
                splits[k].Value() == Stamped(old(other.splits[k].Value()), uid, defaultCurrency)
      ensures forall k :: 0 <= k < |splits| ==> splits[k].transactionUid == Some(uid)
      ensures name == Trim(other.name) && description == other.description
      ensures exported == (if other.exported == 1 then 1 else 0) && timestamp == other.timestamp
      ensures currencyCode == defaultCurrency && recurrencePeriod == 0
    {
      currencyCode := defaultCurrency;
      splits := [];
      uid := if generateNewUid then freshUid else other.uid;
      name := "";
      description := "";
      exported := 0;
      timestamp := now;
      recurrencePeriod := 0;
      new;
      SetName(other.name);
      description := other.description;
      SetSplits(other.splits);
      SetExported(other.IsExported());
      timestamp := other.timestamp;
    }

    /** setName: the name is stored trimmed. */
    method SetName(n: string)
      modifies this
      ensures Fields() == old(Fields()).(name := Trim(n)) && splits == old(splits)
    {
      name := Trim(n);
    }

    /** setExported: the flag is stored as 1 or 0. */
    method SetExported(isExported: bool)
      modifies this
      ensures Fields() == old(Fields()).(exported := if isExported then 1 else 0) && splits == old(splits)
      ensures IsExported() == isExported
    {
      exported := if isExported then 1 else 0;
    }

    predicate IsExported()
      reads this
    {
      exported == 1
    }

    /**
     * addSplit: relabels the split's money to this transaction's currency, stamps
     * it with this transaction's UID and appends it; the earlier entries stay.
     */
    method AddSplit(s: Split)
      modifies this, s
      ensures splits == old(splits) + [s]
      ensures s.Value() == Stamped(old(s.Value()), uid, currencyCode)
      ensures Fields() == old(Fields())
    {
      s.SetAmount(WithCurrency(s.amount, currencyCode));
      s.SetTransactionUid(uid);
      splits := splits + [s];
    }

    /**
     * setSplits: clears the list, then adds every split of `list` in order, so the
     * list becomes `list` and every split in it is stamped with this transaction.
     */
    method SetSplits(list: seq<Split>)
      modifies this, list
      ensures splits == list
      ensures forall k :: 0 <= k < |list| ==> list[k].Value() == Stamped(old(list[k].Value()), uid, currencyCode)
      ensures Fields() == old(Fields())
    {
      ghost var vs := Values(list);
      splits := [];
      var i := 0;
      while i < |list|
        invariant 0 <= i <= |list| && splits == list[..i]
        invariant Fields() == old(Fields())
        invariant StampedUpTo(list, vs, i)
      {
        StampNext(list, vs, i);
        PrefixExtends(list, i);
        i := i + 1;
      }
    }

    /**
     * Part way through setSplits: the first i splits are stamped and every later
     * one is either untouched or, being the same object as an earlier one,
     * already stamped. `vs` holds the values the splits had before.
     */
    ghost predicate StampedUpTo(list: seq<Split>, vs: seq<SplitValue>, i: int)
      reads this, list
    {
      && |vs| == |list| && 0 <= i <= |list|
      && (forall k, j :: 0 <= k < |list| && 0 <= j < |list| && list[k] == list[j] ==> vs[k] == vs[j])
      && (forall k :: 0 <= k < |list| ==>
            list[k].Value() == Stamped(vs[k], uid, currencyCode) || (k >= i && list[k].Value() == vs[k]))
      && (forall k :: 0 <= k < i ==> list[k].Value() == Stamped(vs[k], uid, currencyCode))
    }

    /** One round of setSplits' loop: addSplit on the next split. */
    method StampNext(list: seq<Split>, ghost vs: seq<SplitValue>, i: int)
      requires i < |list| && StampedUpTo(list, vs, i)
      modifies this, list
      ensures splits == old(splits) + [list[i]] && Fields() == old(Fields())
      ensures StampedUpTo(list, vs, i + 1)
    {
      var s := list[i];
      AddSplit(s);
      forall k | 0 <= k < |list|
        ensures list[k].Value() == Stamped(vs[k], uid, currencyCode) || (k > i && list[k].Value() == vs[k])
        ensures k <= i ==> list[k].Value() == Stamped(vs[k], uid, currencyCode)
      {
        if list[k] == s {
          assert vs[k] == vs[i];
          StampedIdempotent(vs[i], uid, currencyCode);
        }
      }
    }

    /** getSplits(accountUID): exactly the splits of the account, in order; nothing changes. */
    method GetSplitsFor(account: string) returns (r: seq<Split>)
      ensures r == SplitsOf(account, splits)
      ensures forall s :: s in r <==> s in splits && s.accountUid == account
      ensures Values(r) == Matching(account, Values(splits))
    {
      r := [];
      var i := 0;
      while i < |splits|
        invariant 0 <= i <= |splits|
        invariant r == SplitsOf(account, splits[..i])
      {
        assert splits[..i + 1][..i] == splits[..i];
        if splits[i].accountUid == account {
          r := r + [splits[i]];
        }
        i := i + 1;
      }
      assert splits[..|splits|] == splits;
      SplitsOfSpec(account, splits);
    }

    /**
     * computeBalance(accountUID, splitList). The account's type and currency,
     * which the source looks up in the accounts table, are parameters.
     */
    static method ComputeBalance(account: string, list: seq<Split>, debitNormal: Polarity,
                                 accountType: AccountType, accountCurrency: string) returns (balance: Money)
      ensures balance == Money(Balance(account, Values(list), debitNormal(accountType)), accountCurrency)
    {
      var isDebitAccount := debitNormal(accountType);
      balance := Money(0, accountCurrency);
      ghost var vs := Values(list);
      var i := 0;
      while i < |list|
        invariant 0 <= i <= |list|
        invariant balance.currency == accountCurrency
        invariant balance.units == Balance(account, vs[..i], isDebitAccount)
      {
        BalanceStep(account, vs, i, isDebitAccount);
        balance := AddSplitAmount(balance, account, list[i], isDebitAccount);
        i := i + 1;
      }
      assert vs[..|list|] == vs;
    }

    /** One round of computeBalance's loop: the split's signed amount is added when it is in the account. */
    static method AddSplitAmount(balance: Money, account: string, split: Split, isDebitAccount: bool) returns (r: Money)
      ensures r.currency == balance.currency
      ensures r.units == balance.units + (if split.accountUid == account then Contribution(split.Value(), isDebitAccount) else 0)
    {
      r := balance;
      if split.accountUid == account {
        var absAmount := Abs(split.amount.units);
        var isDebitSplit := split.splitType == Some(DEBIT);
        assert Contribution(split.Value(), isDebitAccount) == Signed(absAmount, isDebitSplit, isDebitAccount);
        if isDebitAccount {
          if isDebitSplit {
            r := Money(balance.units + absAmount, balance.currency);
          } else {
            r := Money(balance.units - absAmount, balance.currency);
          }
        } else {
          if isDebitSplit {
            r := Money(balance.units - absAmount, balance.currency);
          } else {
            r := Money(balance.units + absAmount, balance.currency);
          }
        }
      }
    }

    /** getBalance(accountUID): computeBalance over this transaction's own splits. */
    method GetBalance(account: string, debitNormal: Polarity, accountType: AccountType, accountCurrency: string)
      returns (balance: Money)
      ensures balance == Money(Balance(account, Values(splits), debitNormal(accountType)), accountCurrency)
    {
      balance := ComputeBalance(account, splits, debitNormal, accountType, accountCurrency);
    }

    /**
     * getTransactionTypeForAccount: the type of the account's only split when it
     * has exactly one, otherwise DEBIT exactly when the balance is negative; so an
     * account without splits here gets CREDIT.
     */
    method GetTransactionTypeForAccount(account: string, debitNormal: Polarity, accountType: AccountType,
                                        accountCurrency: string) returns (t: Option<TransactionType>)
      ensures var m := Matching(account, Values(splits));
              t == if |m| == 1 then m[0].splitType
                   else Some(if Balance(account, Values(splits), debitNormal(accountType)) < 0 then DEBIT else TransactionType.CREDIT)
      ensures Matching(account, Values(splits)) == [] ==> t == Some(TransactionType.CREDIT)
    {
      var list := GetSplitsFor(account);
      ghost var m := Matching(account, Values(splits));
      assert |m| == |list|;
      if |list| == 1 {
        t := list[0].splitType;
        assert m[0] == list[0].Value();
        return;
      }
      var byBalance := TypeByBalance(account, debitNormal, accountType, accountCurrency, m);
      t := Some(byBalance);
    }

    /** The fallback of getTransactionTypeForAccount: DEBIT exactly when the account's balance is negative. */
    method TypeByBalance(account: string, debitNormal: Polarity, accountType: AccountType, accountCurrency: string,
                         ghost m: seq<SplitValue>)
      returns (t: TransactionType)
      requires m == Matching(account, Values(splits))
      ensures m == Matching(account, Values(splits))
      ensures t == if Balance(account, Values(splits), debitNormal(accountType)) < 0 then DEBIT else TransactionType.CREDIT
      ensures m == [] ==> t == TransactionType.CREDIT
    {
      ghost var vs := Values(splits);
      var balance := GetBalance(account, debitNormal, accountType, accountCurrency);
      assert Values(splits) == vs;
      t := if balance.units < 0 then DEBIT else TransactionType.CREDIT;
      if m == [] {
        BalanceIsTotalOfMatching(account, vs, debitNormal(accountType));
      }
    }

    /**
     * getFormattedAmount(accountUID): the plain sum of the account's split amounts
     * (signs as stored, not absolute), in this transaction's currency.
     */
    method GetFormattedAmount(account: string) returns (balance: Money)
      ensures balance == Money(AmountSum(account, Values(splits)), currencyCode)
    {
      balance := Money(0, currencyCode);
      var i := 0;
      while i < |splits|
        invariant 0 <= i <= |splits|
        invariant balance == Money(AmountSum(account, Values(splits[..i])), currencyCode)
      {
        assert splits[..i + 1][..i] == splits[..i];
        if splits[i].accountUid == account {
          balance := Money(balance.units + splits[i].amount.units, balance.currency);
        }
        i := i + 1;
      }
      assert splits[..|splits|] == splits;
    }
  }
}
