/** Split.java: one leg of a transaction, an object whose fields its setters change in place. */
module SplitModel {
  import opened Wrappers
  import opened TransactionTypes
  import opened Ledger

  class Split {
    var amount: Money
    var uid: string
    var transactionUid: Option<string>
    var accountUid: string
    var splitType: Option<TransactionType>
    var memo: Option<string>

    /** The current field values of this split. */
    function Value(): SplitValue
      reads this
    {
      SplitValue(amount, uid, transactionUid, accountUid, splitType, memo)
    }

    /**
     * Split(amount, accountUID). `freshUid` is the random UUID the constructor
     * draws; type, memo and transaction UID are left unset.
     */
    constructor (amount: Money, accountUid: string, freshUid: string)
      ensures Value() == SplitValue(amount, freshUid, None, accountUid, None, None)
    {
      this.amount := amount;
      this.accountUid := accountUid;
      this.uid := freshUid;
      this.transactionUid := None;
      this.splitType := None;
      this.memo := None;
    }

    method SetAmount(a: Money)
      modifies this
      ensures Value() == old(Value()).(amount := a)
    {
      amount := a;
    }

    method SetUid(u: string)
      modifies this
      ensures Value() == old(Value()).(uid := u)
    {
      uid := u;
    }

    method SetTransactionUid(u: string)
      modifies this
      ensures Value() == old(Value()).(transactionUid := Some(u))
    {
      transactionUid := Some(u);
    }

    method SetAccountUid(u: string)
      modifies this
      ensures Value() == old(Value()).(accountUid := u)
    {
      accountUid := u;
    }

    method SetType(t: TransactionType)
      modifies this
      ensures Value() == old(Value()).(splitType := Some(t))
    {
      splitType := Some(t);
    }

    method SetMemo(m: Option<string>)
      modifies this
      ensures Value() == old(Value()).(memo := m)
    {
      memo := m;
    }

    /**
     * createPair(accountUID): a new split on `account` with the same amount and
     * memo and the inverted type. It draws its own UUID (`freshUid`), has no
     * transaction UID, and leaves this split as it was. The type must have been
     * set: inverting an unset type throws.
     */
    method CreatePair(account: string, freshUid: string) returns (pair: Split)
      requires splitType.Some?
      ensures fresh(pair)
      ensures pair.Value() == PairOf(Value(), account, freshUid)
    {
      pair := new Split(amount, account, freshUid);
      pair.SetType(Invert(splitType.value));
      pair.SetMemo(memo);
    }
  }

  /** The values of a list of split objects, position by position. */
  function Values(ss: seq<Split>): (r: seq<SplitValue>)
    reads ss
    ensures |r| == |ss|
    ensures forall k :: 0 <= k < |ss| ==> r[k] == ss[k].Value()
  {
    if ss == [] then [] else Values(ss[..|ss| - 1]) + [ss[|ss| - 1].Value()]
  }
}
