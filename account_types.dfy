/** The closed enumeration of account types and their names. */
module AccountTypes {
  import opened Wrappers

  datatype AccountType =
    | CASH | BANK | CREDIT | ASSET | LIABILITY | PAYABLE | RECEIVABLE
    | EQUITY | INCOME | EXPENSE | CURRENCY | STOCK | MUTUAL | ROOT

  /**
   * Whether an account type has a debit-normal balance. The table itself is
   * not part of this model, so every operation that needs it takes one.
   */
  type Polarity = AccountType -> bool

  /** AccountType.values(): every type once; the order is an assumption, see AccountTypeStringList. */
  const AllTypes: seq<AccountType> :=
    [CASH, BANK, CREDIT, ASSET, LIABILITY, PAYABLE, RECEIVABLE,
     EQUITY, INCOME, EXPENSE, CURRENCY, STOCK, MUTUAL, ROOT]

  /** AccountType.name(), which is also its toString(). */
  function Name(t: AccountType): string {
    match t
    case CASH => "CASH"
    case BANK => "BANK"
    case CREDIT => "CREDIT"
    case ASSET => "ASSET"
    case LIABILITY => "LIABILITY"
    case PAYABLE => "PAYABLE"
    case RECEIVABLE => "RECEIVABLE"
    case EQUITY => "EQUITY"
    case INCOME => "INCOME"
    case EXPENSE => "EXPENSE"
    case CURRENCY => "CURRENCY"
    case STOCK => "STOCK"
    case MUTUAL => "MUTUAL"
    case ROOT => "ROOT"
  }

  /** The names of the given types, in the same order. */
  function Names(ts: seq<AccountType>): (r: seq<string>)
    ensures |r| == |ts|
    ensures forall k :: 0 <= k < |ts| ==> r[k] == Name(ts[k])
  {
    if ts == [] then [] else [Name(ts[0])] + Names(ts[1..])
  }

  /** AccountType.valueOf: the type with that name, or none. */
  function ValueOf(s: string): Option<AccountType> {
    if s == "CASH" then Some(CASH)
    else if s == "BANK" then Some(BANK)
    else if s == "CREDIT" then Some(CREDIT)
    else if s == "ASSET" then Some(ASSET)
    else if s == "LIABILITY" then Some(LIABILITY)
    else if s == "PAYABLE" then Some(PAYABLE)
    else if s == "RECEIVABLE" then Some(RECEIVABLE)
    else if s == "EQUITY" then Some(EQUITY)
    else if s == "INCOME" then Some(INCOME)
    else if s == "EXPENSE" then Some(EXPENSE)
    else if s == "CURRENCY" then Some(CURRENCY)
    else if s == "STOCK" then Some(STOCK)
    else if s == "MUTUAL" then Some(MUTUAL)
    else if s == "ROOT" then Some(ROOT)
    else None
  }

  /** Names identify types: valueOf inverts name(), so no two types share a name. */
  lemma NameRoundTrip(t: AccountType)
    ensures ValueOf(Name(t)) == Some(t)
  {
  }

  /** The other direction: a string valueOf accepts is exactly the name of the type it yields. */
  lemma ValueOfInverts(s: string)
    ensures ValueOf(s).Some? ==> Name(ValueOf(s).value) == s
  {
    if s == "CASH" {
    } else if s == "BANK" {
    } else if s == "CREDIT" {
    } else if s == "ASSET" {
    } else if s == "LIABILITY" {
    } else if s == "PAYABLE" {
    } else if s == "RECEIVABLE" {
    } else if s == "EQUITY" {
    } else if s == "INCOME" {
    } else if s == "EXPENSE" {
    } else if s == "CURRENCY" {
    } else if s == "STOCK" {
    } else if s == "MUTUAL" {
    } else if s == "ROOT" {
    }
  }

  lemma NameInjective(a: AccountType, b: AccountType)
    ensures Name(a) == Name(b) ==> a == b
  {
    NameRoundTrip(a);
    NameRoundTrip(b);
  }

  /** values() lists every type exactly once. */
  lemma AllTypesEnumerates(t: AccountType)
    ensures t in AllTypes
    ensures forall i, j :: 0 <= i < j < |AllTypes| ==> AllTypes[i] != AllTypes[j]
  {
  }
}
