/**
 * UUID generation, which the ledger uses for every new transaction and split,
 * modelled as a fresh-identifier oracle: a counter whose successive values are
 * rendered as distinct strings.
 */
module Uids {

  /** The decimal digit for 0 <= d < 10. */
  function DigitChar(d: nat): (c: char)
    requires d < 10
    ensures '0' <= c <= '9' && c as int - '0' as int == d
  {
    ['0', '1', '2', '3', '4', '5', '6', '7', '8', '9'][d]
  }

  /** The decimal rendering of n, most significant digit first. */
  function Decimal(n: nat): (s: string)
    ensures |s| >= 1
    ensures forall k :: 0 <= k < |s| ==> '0' <= s[k] <= '9'
    decreases n
  {
    if n < 10 then [DigitChar(n)] else Decimal(n / 10) + [DigitChar(n % 10)]
  }

  /** Reads a string of decimal digits back as a number. */
  function ParseDecimal(s: string): nat
    requires forall k :: 0 <= k < |s| ==> '0' <= s[k] <= '9'
  {
    if s == [] then 0
    else ParseDecimal(s[..|s| - 1]) * 10 + (s[|s| - 1] as int - '0' as int)
  }

  lemma {:induction false} DecimalRoundTrip(n: nat)
    ensures ParseDecimal(Decimal(n)) == n
    decreases n
  {
    if n >= 10 {
      DecimalRoundTrip(n / 10);
      var s := Decimal(n);
      assert s[..|s| - 1] == Decimal(n / 10);
    }
  }

  /** The UID issued for the n-th request. */
  function Label(n: nat): (u: string)
    ensures |u| >= 2 && u[0] == 'u'
  {
    "u" + Decimal(n)
  }

  /** Distinct requests receive distinct UIDs. */
  lemma LabelInjective(a: nat, b: nat)
    ensures Label(a) == Label(b) <==> a == b
  {
    if Label(a) == Label(b) {
      assert Decimal(a) == Label(a)[1..];
      assert Decimal(b) == Label(b)[1..];
      DecimalRoundTrip(a);
      DecimalRoundTrip(b);
    }
  }

  /** The oracle: each call hands out the next label. */
  class UidSource {
    var count: nat

    constructor ()
      ensures count == 0
    {
      count := 0;
    }

    method Next() returns (u: string)
      modifies this
      ensures u == Label(old(count)) && count == old(count) + 1
    {
      u := Label(count);
      count := count + 1;
    }
  }

  /** Whether u is one of the first n labels handed out. */
  predicate Issued(u: string, n: nat) {
    exists k: nat :: k < n && Label(k) == u
  }

  /** A newly issued label differs from every label issued before it. */
  lemma FreshLabel(n: nat, u: string)
    requires Issued(u, n)
    ensures u != Label(n)
  {
    var k: nat :| k < n && Label(k) == u;
    LabelInjective(k, n);
  }
}
