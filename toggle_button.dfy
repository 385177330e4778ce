/**
 * TransactionTypeToggleButton.java: a two-state button that shows the
 * credit/debit wording of the selected account's type and turns its checked
 * state into a split type.
 */
module ToggleButton {
  import opened Wrappers
  import opened AccountTypes
  import opened TransactionTypes
  import opened Ledger

  /** The (on, off) captions setAccountType installs for each account type. */
  datatype Captions = Captions(on: string, off: string)

  function CaptionsFor(t: AccountType): Captions {
    match t
    case CASH => Captions("Spend", "Receive")
    case BANK => Captions("Deposit", "Withdrawal")
    case CREDIT => Captions("Charge", "Payment")
    case ASSET => Captions("Decrease", "Increase")
    case LIABILITY => Captions("Decrease", "Increase")
    case INCOME => Captions("Charge", "Income")
    case EXPENSE => Captions("Rebate", "Expense")
    case PAYABLE => Captions("Payment", "Bill")
    case RECEIVABLE => Captions("Payment", "Invoice")
    case EQUITY => Captions("Decrease", "Increase")
    case STOCK => Captions("Buy", "Sell")
    case MUTUAL => Captions("Buy", "Sell")
    case CURRENCY => Captions("Debit", "Credit")
    case ROOT => Captions("Debit", "Credit")
  }

  /** The two captions of a type always differ, so the displayed text tells the two states apart. */
  lemma CaptionsDistinguishStates(t: AccountType)
    ensures CaptionsFor(t).on != CaptionsFor(t).off
    ensures |CaptionsFor(t).on| > 0 && |CaptionsFor(t).off| > 0
  {
  }

  /**
   * Types that share a caption pair: the balance-sheet group (ASSET, LIABILITY,
   * EQUITY) says Decrease/Increase, the investment group Buy/Sell, and CURRENCY
   * and ROOT fall back to the bare Debit/Credit wording. No other type uses
   * Decrease/Increase or Debit/Credit.
   */
  lemma SharedCaptions(t: AccountType)
    ensures CaptionsFor(t) == Captions("Decrease", "Increase") <==> t in {ASSET, LIABILITY, EQUITY}
    ensures CaptionsFor(t) == Captions("Buy", "Sell") <==> t in {STOCK, MUTUAL}
    ensures CaptionsFor(t) == Captions("Debit", "Credit") <==> t in {CURRENCY, ROOT}
  {
  }

  /** The widget's state: the account type it is set to, its checked state and its captions. */
  class TypeToggle {
    var accountType: AccountType
    var checked: bool
    var textOn: string
    var textOff: string
    var text: string

    /** The caption shown matches the checked state. */
    predicate Shows()
      reads this
    {
      text == (if checked then textOn else textOff)
    }

    /**
     * A new button is unchecked and has the EXPENSE type. Its captions are the
     * widget's defaults from the layout, which are given here.
     */
    constructor (defaultOn: string, defaultOff: string)
      ensures accountType == EXPENSE && !checked
      ensures textOn == defaultOn && textOff == defaultOff && Shows()
    {
      accountType := EXPENSE;
      checked := false;
      textOn := defaultOn;
      textOff := defaultOff;
      text := defaultOff;
    }

    /** setAccountType: the type is stored, its captions installed and the matching one shown. */
    method SetAccountType(t: AccountType)
      modifies this
      ensures accountType == t && checked == old(checked)
      ensures Captions(textOn, textOff) == CaptionsFor(t)
      ensures Shows()
    {
      accountType := t;
      var c := CaptionsFor(t);
      textOn := c.on;
      textOff := c.off;
      text := if checked then textOn else textOff;
    }

    /** ToggleButton.setChecked: the new state, with the caption that goes with it. */
    method SetChecked(c: bool)
      modifies this
      ensures checked == c && accountType == old(accountType)
      ensures textOn == old(textOn) && textOff == old(textOff) && Shows()
    {
      checked := c;
      text := if checked then textOn else textOff;
    }

    /** getAccountType. */
    function GetAccountType(): (t: AccountType)
      reads this
      ensures t == accountType
    {
      accountType
    }

    /**
     * getTransactionType: for a debit-normal account the checked state means
     * CREDIT, otherwise DEBIT. It is getTypeForBalance with the checked state as
     * the wish to reduce the balance.
     */
    function GetTransactionType(debitNormal: Polarity): (r: TransactionType)
      reads this
      ensures r == TypeForBalance(debitNormal, accountType, checked)
      ensures r == TransactionType.CREDIT <==> debitNormal(accountType) == checked
    {
      if debitNormal(accountType) then (if checked then TransactionType.CREDIT else DEBIT)
      else (if checked then DEBIT else TransactionType.CREDIT)
    }
  }

  /** The checked state decides the type: flipping it always flips the type the button reports. */
  lemma ToggleFlipsType(debitNormal: Polarity, t: AccountType, checked: bool)
    ensures TypeForBalance(debitNormal, t, !checked) == Invert(TypeForBalance(debitNormal, t, checked))
  {
  }

  /**
   * Checking the button and posting a non-zero amount of the reported type
   * lowers the account's balance; leaving it unchecked raises it.
   */
  lemma CheckedReducesBalance(debitNormal: Polarity, t: AccountType, checked: bool, s: SplitValue)
    requires s.splitType == Some(TypeForBalance(debitNormal, t, checked)) && s.amount.units != 0
    ensures Contribution(s, debitNormal(t)) < 0 <==> checked
  {
    TypeForBalanceMovesBalance(debitNormal, t, checked, s);
  }
}
