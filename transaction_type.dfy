/** The DEBIT/CREDIT type of a split. */
module TransactionTypes {
  import opened Wrappers

  /** The type of a split: which side of the ledger it posts to. */
  datatype TransactionType = DEBIT | CREDIT

  /** TransactionType.invert(): swaps DEBIT and CREDIT. */
  function Invert(t: TransactionType): (r: TransactionType)
    ensures r != t
  {
    if t == DEBIT then CREDIT else DEBIT
  }

  /** Inverting twice gives back the original type. */
  lemma InvertInvolution(t: TransactionType)
    ensures Invert(Invert(t)) == t
  {
  }

  function TypeName(t: TransactionType): string {
    if t == DEBIT then "DEBIT" else "CREDIT"
  }

  /** TransactionType.valueOf: the type with exactly that name, or None where Java throws. */
  function TypeOf(s: string): (r: Option<TransactionType>)
    ensures r.Some? <==> s == "DEBIT" || s == "CREDIT"
  {
    if s == "DEBIT" then Some(DEBIT) else if s == "CREDIT" then Some(CREDIT) else None
  }

  /** Storing a type by name and reading it back gives the same type. */
  lemma TypeNameRoundTrip(t: TransactionType)
    ensures TypeOf(TypeName(t)) == Some(t)
  {
  }
}
