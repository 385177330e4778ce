/**
 * The pure part of the split aggregate: split values, the polarity rule that
 * turns a split into a signed balance movement, the per-account filter and
 * balance, and the inverse decision table that picks a split type from the
 * account's polarity and the wanted effect (Transaction.java).
 */
module Ledger {
  import opened Wrappers
  import opened AccountTypes
  import opened TransactionTypes

  /** An amount in minor units of a currency. */
  datatype Money = Money(units: int, currency: string)

  /** Money.withCurrency: the same amount under another currency code (a relabelling). */
  function WithCurrency(m: Money, currency: string): (r: Money)
    ensures r.units == m.units && r.currency == currency
  {
    Money(m.units, currency)
  }

  function Abs(x: int): (r: int)
    ensures r >= 0 && (r == x || r == -x)
  {
    if x < 0 then -x else x
  }

  /** The field values of one Split object at one moment. */
  datatype SplitValue = SplitValue(
    amount: Money,
    uid: string,
    transactionUid: Option<string>,
    accountUid: string,
    splitType: Option<TransactionType>,
    memo: Option<string>)

  /**
   * The polarity rule: a magnitude moves the balance up when the split's side
   * matches the account's normal side, and down otherwise.
   */
  function Signed(magnitude: int, isDebitSplit: bool, isDebitAccount: bool): int {
    if isDebitAccount == isDebitSplit then magnitude else -magnitude
  }

  /**
   * What one split adds to its account's balance (Transaction.computeBalance):
   * the absolute amount, signed by the split type against the account's polarity.
   * A split whose type was never set is not DEBIT and so counts as a credit.
   */
  function Contribution(s: SplitValue, isDebitAccount: bool): int {
    Signed(Abs(s.amount.units), s.splitType == Some(DEBIT), isDebitAccount)
  }

  /** The four cases of the rule, as the source's nested if states them. */
  lemma ContributionTable(s: SplitValue, isDebitAccount: bool)
    ensures isDebitAccount && s.splitType == Some(DEBIT) ==> Contribution(s, isDebitAccount) == Abs(s.amount.units)
    ensures isDebitAccount && s.splitType == Some(TransactionType.CREDIT) ==> Contribution(s, isDebitAccount) == -Abs(s.amount.units)
    ensures !isDebitAccount && s.splitType == Some(DEBIT) ==> Contribution(s, isDebitAccount) == -Abs(s.amount.units)
    ensures !isDebitAccount && s.splitType == Some(TransactionType.CREDIT) ==> Contribution(s, isDebitAccount) == Abs(s.amount.units)
  {
  }

  /** Flipping a split's type negates its contribution. */
  lemma ContributionFlip(s: SplitValue, isDebitAccount: bool)
    requires s.splitType.Some?
    ensures Contribution(s.(splitType := Some(Invert(s.splitType.value))), isDebitAccount)
            == -Contribution(s, isDebitAccount)
  {
  }

  /** The same split moves a debit-normal and a credit-normal account in opposite directions. */
  lemma ContributionPolarity(s: SplitValue, isDebitAccount: bool)
    ensures Contribution(s, !isDebitAccount) == -Contribution(s, isDebitAccount)
  {
  }

  /** The splits that belong to `account`, in their original order. */
  function Matching(account: string, ss: seq<SplitValue>): (r: seq<SplitValue>)
    ensures |r| <= |ss|
  {
    if ss == [] then []
    else
      var last := ss[|ss| - 1];
      Matching(account, ss[..|ss| - 1]) + (if last.accountUid == account then [last] else [])
  }

  /**
   * Transaction.computeBalance over split values: zero, then every split of
   * `account` in order adds its contribution; splits of other accounts are skipped.
   */
  function Balance(account: string, ss: seq<SplitValue>, isDebitAccount: bool): int {
    if ss == [] then 0
    else
      var last := ss[|ss| - 1];
      Balance(account, ss[..|ss| - 1], isDebitAccount)
        + (if last.accountUid == account then Contribution(last, isDebitAccount) else 0)
  }

  /** The plain sum of the contributions of every split in the list, whatever its account. */
  function TotalContribution(ss: seq<SplitValue>, isDebitAccount: bool): int {
    if ss == [] then 0
    else TotalContribution(ss[..|ss| - 1], isDebitAccount) + Contribution(ss[|ss| - 1], isDebitAccount)
  }

  lemma {:induction false} MatchingMembers(account: string, ss: seq<SplitValue>)
    ensures forall s :: s in Matching(account, ss) <==> s in ss && s.accountUid == account
  {
    if ss != [] {
      MatchingMembers(account, ss[..|ss| - 1]);
      assert ss == ss[..|ss| - 1] + [ss[|ss| - 1]];
    }
  }

  /** Filtering distributes over concatenation, so it keeps the original order. */
  lemma {:induction false} MatchingAppend(account: string, a: seq<SplitValue>, b: seq<SplitValue>)
    ensures Matching(account, a + b) == Matching(account, a) + Matching(account, b)
  {
    if b != [] {
      MatchingAppend(account, a, b[..|b| - 1]);
      assert (a + b)[..|a + b| - 1] == a + b[..|b| - 1];
    } else {
      assert a + b == a;
    }
  }

  /** The balance distributes over concatenation of split lists. */
  lemma {:induction false} BalanceAppend(account: string, a: seq<SplitValue>, b: seq<SplitValue>, isDebitAccount: bool)
    ensures Balance(account, a + b, isDebitAccount)
            == Balance(account, a, isDebitAccount) + Balance(account, b, isDebitAccount)
  {
    if b != [] {
      BalanceAppend(account, a, b[..|b| - 1], isDebitAccount);
      assert (a + b)[..|a + b| - 1] == a + b[..|b| - 1];
    } else {
      assert a + b == a;
    }
  }

  /** A list with no split of the account yields a zero balance. */
  lemma {:induction false} BalanceWithoutMatches(account: string, ss: seq<SplitValue>, isDebitAccount: bool)
    requires forall k :: 0 <= k < |ss| ==> ss[k].accountUid != account
    ensures Balance(account, ss, isDebitAccount) == 0
  {
    if ss != [] {
      BalanceWithoutMatches(account, ss[..|ss| - 1], isDebitAccount);
    }
  }

  /** The balance of an account is the total contribution of exactly its splits. */
  lemma {:induction false} BalanceIsTotalOfMatching(account: string, ss: seq<SplitValue>, isDebitAccount: bool)
    ensures Balance(account, ss, isDebitAccount) == TotalContribution(Matching(account, ss), isDebitAccount)
  {
    if ss != [] {
      var init, last := ss[..|ss| - 1], ss[|ss| - 1];
      BalanceIsTotalOfMatching(account, init, isDebitAccount);
      var m := Matching(account, init);
      if last.accountUid == account {
        assert Matching(account, ss) == m + [last];
        assert (m + [last])[..|m + [last]| - 1] == m;
      } else {
        assert Matching(account, ss) == m + [];
        assert m + [] == m;
      }
    }
  }

  /**
   * Transaction.getTypeForBalance: the split type that reduces (or increases)
   * the balance of an account of type `t`.
   */
  function TypeForBalance(debitNormal: Polarity, t: AccountType, shouldReduceBalance: bool): TransactionType {
    if debitNormal(t) then (if shouldReduceBalance then TransactionType.CREDIT else DEBIT)
    else (if shouldReduceBalance then DEBIT else TransactionType.CREDIT)
  }

  /** The decision table in one line: DEBIT exactly when the polarity and the intent differ. */
  lemma TypeForBalanceIsDebit(debitNormal: Polarity, t: AccountType, shouldReduceBalance: bool)
    ensures TypeForBalance(debitNormal, t, shouldReduceBalance) == DEBIT
            <==> debitNormal(t) != shouldReduceBalance
  {
  }

  /**
   * The type chosen by getTypeForBalance does what was asked: a non-zero split of
   * that type, posted to an account of type `t`, lowers its balance exactly when a
   * reduction was asked for.
   */
  lemma TypeForBalanceMovesBalance(debitNormal: Polarity, t: AccountType, shouldReduceBalance: bool, s: SplitValue)
    requires s.splitType == Some(TypeForBalance(debitNormal, t, shouldReduceBalance))
    requires s.amount.units != 0
    ensures Contribution(s, debitNormal(t)) < 0 <==> shouldReduceBalance
    ensures Contribution(s, debitNormal(t)) == (if shouldReduceBalance then -Abs(s.amount.units) else Abs(s.amount.units))
  {
  }

  /**
   * The value Split.createPair builds: same amount and memo, the other account,
   * the inverted type, its own fresh UID and no transaction UID.
   */
  function PairOf(s: SplitValue, account: string, freshUid: string): (p: SplitValue)
    requires s.splitType.Some?
    ensures p.amount == s.amount && p.memo == s.memo && p.accountUid == account
    ensures p.splitType == Some(Invert(s.splitType.value)) && p.uid == freshUid && p.transactionUid == None
  {
    SplitValue(s.amount, freshUid, None, account, Some(Invert(s.splitType.value)), s.memo)
  }

  /** A split and its pair cancel when both accounts have the same polarity. */
  lemma PairCancels(s: SplitValue, account: string, freshUid: string, isDebitAccount: bool)
    requires s.splitType.Some?
    ensures Contribution(s, isDebitAccount) + Contribution(PairOf(s, account, freshUid), isDebitAccount) == 0
  {
  }

  /** Under opposite polarities the two legs move their accounts the same way. */
  lemma PairOppositePolarity(s: SplitValue, account: string, freshUid: string, isDebitAccount: bool)
    requires s.splitType.Some?
    ensures Contribution(PairOf(s, account, freshUid), !isDebitAccount) == Contribution(s, isDebitAccount)
  {
  }

  /**
   * A two-leg posting: a split on account `a` and its pair on account `b` (both of
   * the same polarity) leave the sum of the two accounts' balances at zero.
   */
  lemma TwoLegPostingBalances(s: SplitValue, b: string, freshUid: string, isDebitAccount: bool)
    requires s.splitType.Some? && s.accountUid != b
    ensures var legs := [s, PairOf(s, b, freshUid)];
            Balance(s.accountUid, legs, isDebitAccount) + Balance(b, legs, isDebitAccount) == 0
  {
    var p := PairOf(s, b, freshUid);
    var legs := [s, p];
    assert legs[..1] == [s];
    assert [s][..0] == [];
    assert Balance(s.accountUid, [s], isDebitAccount) == Contribution(s, isDebitAccount);
    assert Balance(b, [s], isDebitAccount) == 0;
    assert Balance(s.accountUid, legs, isDebitAccount) == Contribution(s, isDebitAccount);
    assert Balance(b, legs, isDebitAccount) == Contribution(p, isDebitAccount);
    PairCancels(s, b, freshUid, isDebitAccount);
  }

  /** Transaction.getFormattedAmount: the plain (signed, not absolute) sum of the account's split amounts. */
  function AmountSum(account: string, ss: seq<SplitValue>): int {
    if ss == [] then 0
    else
      var last := ss[|ss| - 1];
      AmountSum(account, ss[..|ss| - 1]) + (if last.accountUid == account then last.amount.units else 0)
  }

  /**
   * When every split of the account is a non-negative DEBIT and the account is
   * debit-normal, the displayed amount and the balance agree.
   */
  lemma {:induction false} AmountSumAgreesWithBalance(account: string, ss: seq<SplitValue>)
    requires forall k :: 0 <= k < |ss| && ss[k].accountUid == account ==>
               ss[k].amount.units >= 0 && ss[k].splitType == Some(DEBIT)
    ensures AmountSum(account, ss) == Balance(account, ss, true)
  {
    if ss != [] {
      AmountSumAgreesWithBalance(account, ss[..|ss| - 1]);
    }
  }
}
