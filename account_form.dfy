/**
 * AccountFormFragment.java: the rules behind the account editor's lists --
 * which account types may be the parent of an account of a given type (as the
 * SQL IN list the parent query is built from), which accounts the parent and
 * default-transfer pickers offer, and the colour string the colour picker
 * stores.
 */
module AccountForm {
  import opened Wrappers
  import opened Strings
  import opened AccountTypes
  import opened Store

  // ---------------------------------------------------------------------------
  // Which types may parent which (the decision table of getAllowedParentAccountTypes)
  // ---------------------------------------------------------------------------

  /** Whether an account of type `parent` may be the parent of one of type `child`. */
  predicate MayParent(child: AccountType, parent: AccountType) {
    match child
    case EQUITY => parent == EQUITY
    case INCOME => parent in {EXPENSE, INCOME, ROOT}
    case EXPENSE => parent in {EXPENSE, INCOME, ROOT}
    case ROOT => true
    case _ => parent !in {EQUITY, EXPENSE, INCOME}
  }

  /** Every type may be nested under an account of its own type. */
  lemma SameTypeNests(t: AccountType)
    ensures MayParent(t, t)
  {
  }

  /** The top-level ROOT account may parent every type except EQUITY. */
  lemma RootParentsAllButEquity(t: AccountType)
    ensures MayParent(t, ROOT) <==> t != EQUITY
  {
  }

  /**
   * EQUITY lives in its own tree: an EQUITY account only goes under EQUITY,
   * and only EQUITY and ROOT accounts can go under EQUITY.
   */
  lemma EquityIsolated(child: AccountType, parent: AccountType)
    ensures child == EQUITY && MayParent(child, parent) ==> parent == EQUITY
    ensures parent == EQUITY && MayParent(child, parent) ==> child in {EQUITY, ROOT}
  {
  }

  /** Income and expense accounts stay among income, expense and the root. */
  lemma IncomeExpenseClosed(child: AccountType, parent: AccountType)
    requires child in {INCOME, EXPENSE} && MayParent(child, parent)
    ensures parent in {INCOME, EXPENSE, ROOT}
  {
  }

  /** The balance-sheet and investment types never go under income, expense or equity. */
  lemma BalanceSheetParents(child: AccountType, parent: AccountType)
    requires child !in {EQUITY, INCOME, EXPENSE, ROOT}
    ensures MayParent(child, parent) <==> parent !in {EQUITY, EXPENSE, INCOME}
  {
  }

  // ---------------------------------------------------------------------------
  // Type names as Java prints them
  // ---------------------------------------------------------------------------

  /** String.replaceAll("\\[|]", ""): every bracket removed. */
  function DropBrackets(s: string): string {
    if s == [] then []
    else (if s[0] == '[' || s[0] == ']' then [] else [s[0]]) + DropBrackets(s[1..])
  }

  lemma {:induction false} DropBracketsConcat(a: string, b: string)
    ensures DropBrackets(a + b) == DropBrackets(a) + DropBrackets(b)
  {
    if a != [] {
      assert (a + b)[1..] == a[1..] + b;
      DropBracketsConcat(a[1..], b);
    } else {
      assert a + b == b;
    }
  }

  lemma {:induction false} DropBracketsPlain(s: string)
    requires '[' !in s && ']' !in s
    ensures DropBrackets(s) == s
  {
    if s != [] {
      assert s[0] in s;
      assert forall c :: c in s[1..] ==> c in s;
      DropBracketsPlain(s[1..]);
    }
  }

  /** Arrays.toString of a string array: the parts joined by ", " inside brackets. */
  function ArraysToString(parts: seq<string>): string {
    "[" + Join(parts, ", ") + "]"
  }

  /** A type name: non-empty, trimmed, and free of commas, quotes and brackets. */
  predicate Plain(x: string) {
    x != [] && Clean(x) && ',' !in x && '\'' !in x && '[' !in x && ']' !in x
  }

  /** A non-empty run of capital letters. */
  predicate Capitals(x: string) {
    x != [] && forall k :: 0 <= k < |x| ==> 'A' <= x[k] <= 'Z'
  }

  lemma CapitalsPlain(x: string)
    requires Capitals(x)
    ensures Plain(x)
  {
    assert forall c :: c in x ==> 'A' <= c <= 'Z';
  }

  lemma NamePlain(t: AccountType)
    ensures Plain(Name(t))
  {
    assert Capitals(Name(t));
    CapitalsPlain(Name(t));
  }

  lemma AllNamesPlain()
    ensures forall k :: 0 <= k < |Names(AllTypes)| ==> Plain(Names(AllTypes)[k])
  {
    forall k | 0 <= k < |Names(AllTypes)|
      ensures Plain(Names(AllTypes)[k])
    {
      NamePlain(AllTypes[k]);
    }
  }

  lemma {:induction false} JoinPlain(parts: seq<string>, sep: string)
    requires forall k :: 0 <= k < |parts| ==> '[' !in parts[k] && ']' !in parts[k]
    requires '[' !in sep && ']' !in sep
    ensures '[' !in Join(parts, sep) && ']' !in Join(parts, sep)
  {
    if |parts| > 1 {
      JoinPlain(parts[1..], sep);
    }
  }

  /** Removing the brackets around a bracket-free string gives that string. */
  lemma BracketsDropped(j: string)
    requires '[' !in j && ']' !in j
    ensures DropBrackets("[" + j + "]") == j
  {
    var open, close := ['['], [']'];
    assert "[" + j + "]" == open + j + close;
    DropBracketsConcat(open + j, close);
    DropBracketsConcat(open, j);
    DropBracketsPlain(j);
    assert DropBrackets(open) == [] by { assert open[1..] == []; }
    assert DropBrackets(close) == [] by { assert close[1..] == []; }
  }

  /** Arrays.toString of plain names with the brackets removed: the names joined by ", ". */
  lemma BareNamesJoined(names: seq<string>)
    requires forall k :: 0 <= k < |names| ==> Plain(names[k])
    ensures DropBrackets(ArraysToString(names)) == Join(names, ", ")
  {
    JoinPlain(names, ", ");
    BracketsDropped(Join(names, ", "));
  }

  /** Splitting such a list on ',' gives the first name bare and every later name behind a blank. */
  lemma BareNameParts(names: seq<string>)
    requires |names| >= 2 && forall k :: 0 <= k < |names| ==> Plain(names[k])
    ensures JavaSplit(Join(names, ", "), ',') == Padded(names, " ")
  {
    PlainParts(names);
    SeparatorSplits();
    JavaSplitJoin(names, ',', " ");
  }

  lemma SeparatorSplits()
    ensures [','] + " " == ", "
  {
  }

  lemma PlainParts(names: seq<string>)
    requires forall k :: 0 <= k < |names| ==> Plain(names[k])
    ensures forall k :: 0 <= k < |names| ==> names[k] != [] && ',' !in names[k]
  {
  }

  /** Trimming every piece of the padded list gives back the names. */
  lemma TrimmedParts(names: seq<string>, k: int)
    requires |names| >= 1 && forall k :: 0 <= k < |names| ==> Plain(names[k])
    requires 0 <= k < |names|
    ensures Trim(Padded(names, " ")[k]) == names[k]
  {
    if k == 0 {
      TrimClean(names[0]);
    } else {
      assert Padded(names, " ")[k] == " " + names[k] + "";
      TrimPadded(" ", names[k], "");
    }
  }

  /**
   * getAccountTypeStringList: the names of Arrays.toString(values()) without
   * brackets, split on ',' and trimmed -- every type name once, in the order of AllTypes.
   */
  method AccountTypeStringList() returns (list: seq<string>)
    ensures list == Names(AllTypes)
  {
    var names := Names(AllTypes);
    AllNamesPlain();
    var parts := JavaSplit(DropBrackets(ArraysToString(names)), ',');
    BareNamesJoined(names);
    BareNameParts(names);
    list := TrimEach(parts);
    forall k | 0 <= k < |names|
      ensures list[k] == names[k]
    {
      TrimmedParts(names, k);
    }
  }

  /** The loop of getAccountTypeStringList: each piece trimmed, in order. */
  method TrimEach(parts: seq<string>) returns (list: seq<string>)
    ensures |list| == |parts| && forall k :: 0 <= k < |parts| ==> list[k] == Trim(parts[k])
  {
    list := [];
    var i := 0;
    while i < |parts|
      invariant 0 <= i <= |parts|
      invariant |list| == i && forall k :: 0 <= k < i ==> list[k] == Trim(parts[k])
    {
      list := list + [Trim(parts[i])];
      i := i + 1;
    }
  }

  // ---------------------------------------------------------------------------
  // The SQL IN list
  // ---------------------------------------------------------------------------

  /** A name as an SQL string literal. */
  function Quote(x: string): string {
    "'" + x + "'"
  }

  function QuoteAll(xs: seq<string>): (r: seq<string>)
    ensures |r| == |xs|
    ensures forall k :: 0 <= k < |xs| ==> r[k] == Quote(xs[k])
  {
    if xs == [] then [] else [Quote(xs[0])] + QuoteAll(xs[1..])
  }

  /** The literal an IN-list item denotes; an item that is not a quoted string (an identifier) is none. */
  function Unquote(item: string): Option<string> {
    if |item| >= 2 && item[0] == '\'' && item[|item| - 1] == '\'' && '\'' !in item[1..|item| - 1]
    then Some(item[1..|item| - 1])
    else None
  }

  function UnquoteAll(items: seq<string>): Option<seq<string>> {
    if items == [] then Some([])
    else
      match (Unquote(Trim(items[0])), UnquoteAll(items[1..]))
      case (Some(v), Some(vs)) => Some([v] + vs)
      case _ => None
  }

  /**
   * The string values an SQL IN list stands for: its comma-separated items,
   * blanks around them ignored, each a quoted literal. An unquoted item is a
   * column name, which SQLite rejects here, so the list has no values.
   */
  function InListValues(s: string): Option<seq<string>> {
    UnquoteAll(SplitAll(s, ','))
  }

  lemma QuotePlain(x: string)
    requires Plain(x)
    ensures Clean(Quote(x)) && ',' !in Quote(x) && Unquote(Quote(x)) == Some(x)
  {
    var q := Quote(x);
    assert q[1..|q| - 1] == x;
    assert forall c :: c in q ==> c == '\'' || c in x;
  }

  lemma {:induction false} UnquotePadded(xs: seq<string>, pad: string)
    requires forall k :: 0 <= k < |xs| ==> Plain(xs[k])
    requires AllTrimmable(pad)
    ensures UnquoteAll(PadAll(QuoteAll(xs), pad)) == Some(xs)
  {
    if xs != [] {
      var q := QuoteAll(xs);
      assert q[1..] == QuoteAll(xs[1..]);
      UnquotePadded(xs[1..], pad);
      QuotePlain(xs[0]);
      assert pad + q[0] == pad + q[0] + "";
      TrimPadded(pad, q[0], "");
      assert PadAll(q, pad)[1..] == PadAll(q[1..], pad);
      assert [xs[0]] + xs[1..] == xs;
    }
  }

  /** A list of quoted plain names, joined with "," or ", ", reads back as exactly those names. */
  lemma QuotedListRoundTrip(xs: seq<string>, pad: string)
    requires xs != [] && forall k :: 0 <= k < |xs| ==> Plain(xs[k])
    requires AllTrimmable(pad) && ',' !in pad
    ensures InListValues(Join(QuoteAll(xs), [','] + pad)) == Some(xs)
  {
    var q := QuoteAll(xs);
    forall k | 0 <= k < |q|
      ensures ',' !in q[k]
    {
      QuotePlain(xs[k]);
    }
    SplitAllJoin(q, ',', pad);
    QuotePlain(xs[0]);
    TrimClean(q[0]);
    UnquotePadded(xs[1..], pad);
    assert q[1..] == QuoteAll(xs[1..]);
    assert [xs[0]] + xs[1..] == xs;
  }

  /** An unquoted list of names has no literal values: its very first item is an identifier. */
  lemma BareListRejected(xs: seq<string>, pad: string)
    requires xs != [] && forall k :: 0 <= k < |xs| ==> Plain(xs[k])
    requires ',' !in pad
    ensures InListValues(Join(xs, [','] + pad)) == None
  {
    SplitAllJoin(xs, ',', pad);
    TrimClean(xs[0]);
  }

  /** No string occurs twice. */
  predicate Distinct(vs: seq<string>) {
    forall i, j :: 0 <= i < j < |vs| ==> vs[i] != vs[j]
  }

  /** The names in `vs` are exactly those of the types that may parent `child`, each once. */
  predicate ListsParents(child: AccountType, vs: seq<string>) {
    Distinct(vs) &&
    (forall k :: 0 <= k < |vs| ==> ValueOf(vs[k]).Some? && MayParent(child, ValueOf(vs[k]).value)) &&
    (forall p :: MayParent(child, p) ==> Name(p) in vs)
  }

  /** ArrayList.remove(Object): the first element equal to x removed, if there is one. */
  function Remove(xs: seq<string>, x: string): seq<string> {
    if xs == [] then []
    else if xs[0] == x then xs[1..]
    else [xs[0]] + Remove(xs[1..], x)
  }

  /** In a list without repeats, remove drops exactly the element asked for. */
  lemma {:induction false} RemoveMembers(xs: seq<string>, x: string)
    requires Distinct(xs)
    ensures Distinct(Remove(xs, x))
    ensures forall v :: v in Remove(xs, x) <==> v in xs && v != x
  {
    if xs != [] {
      assert forall v :: v in xs[1..] ==> v in xs;
      assert forall k :: 0 < k < |xs| ==> xs[0] != xs[k];
      if xs[0] != x {
        var r := Remove(xs[1..], x);
        RemoveMembers(xs[1..], x);
        assert xs == [xs[0]] + xs[1..];
        assert xs[0] !in r;
        var all := [xs[0]] + r;
        forall i, j | 0 <= i < j < |all|
          ensures all[i] != all[j]
        {
          assert all[j] == r[j - 1] && r[j - 1] in r;
          if i > 0 {
            assert all[i] == r[i - 1];
          }
        }
      }
    }
  }

  /** Distinct types have distinct names. */
  lemma NamesDistinct(ts: seq<AccountType>)
    requires forall i, j :: 0 <= i < j < |ts| ==> ts[i] != ts[j]
    ensures Distinct(Names(ts))
  {
    forall i, j | 0 <= i < j < |ts|
      ensures Names(ts)[i] != Names(ts)[j]
    {
      NameInjective(ts[i], ts[j]);
    }
  }

  lemma {:induction false} NamesListed(ts: seq<AccountType>, p: AccountType)
    ensures Name(p) in Names(ts) <==> p in ts
  {
    if ts != [] {
      NamesListed(ts[1..], p);
      NameInjective(p, ts[0]);
      assert Names(ts) == [Name(ts[0])] + Names(ts[1..]);
      assert ts == [ts[0]] + ts[1..];
    }
  }

  /** A string among the names of `ts` is the name of one of them. */
  lemma NamedType(ts: seq<AccountType>, v: string) returns (t: AccountType)
    requires v in Names(ts)
    ensures t in ts && Name(t) == v
  {
    var k :| 0 <= k < |Names(ts)| && Names(ts)[k] == v;
    t := ts[k];
  }

  /** The concrete way to list the parents: no repeats, only type names, and a type's name is there exactly when it may parent. */
  lemma ListsParentsByName(child: AccountType, ts: seq<AccountType>, vs: seq<string>)
    requires Distinct(vs)
    requires forall v :: v in vs ==> v in Names(ts)
    requires forall p :: Name(p) in vs <==> MayParent(child, p)
    ensures ListsParents(child, vs)
  {
    forall k | 0 <= k < |vs|
      ensures ValueOf(vs[k]).Some? && MayParent(child, ValueOf(vs[k]).value)
    {
      var p := NamedType(ts, vs[k]);
      NameRoundTrip(p);
    }
  }

  /** Name(p) is a given type's name only for that type. */
  lemma NameIs(p: AccountType, q: AccountType)
    ensures Name(p) == Name(q) <==> p == q
  {
    NameInjective(p, q);
  }

  /** The items quoted and joined by ',' (the loop, less its last comma). */
  method QuotedList(items: seq<string>) returns (r: string)
    requires items != []
    ensures r == Join(QuoteAll(items), ",")
  {
    var result := "";
    var i := 0;
    while i < |items|
      invariant 0 <= i <= |items|
      invariant result == Terminated(QuoteAll(items[..i]))
    {
      assert QuoteAll(items[..i + 1]) == QuoteAll(items[..i]) + [Quote(items[i])];
      TerminatedSnoc(QuoteAll(items[..i]), Quote(items[i]));
      result := result + "'" + items[i] + "',";
      i := i + 1;
    }
    assert items[..i] == items;
    TerminatedJoin(QuoteAll(items));
    r := result[..|result| - 1];
  }

  /** Every part followed by a comma. */
  function Terminated(parts: seq<string>): string {
    if parts == [] then "" else parts[0] + "," + Terminated(parts[1..])
  }

  lemma {:induction false} TerminatedSnoc(parts: seq<string>, x: string)
    ensures Terminated(parts + [x]) == Terminated(parts) + x + ","
  {
    if parts != [] {
      assert (parts + [x])[1..] == parts[1..] + [x];
      TerminatedSnoc(parts[1..], x);
    } else {
      assert [x][1..] == [];
    }
  }

  lemma {:induction false} TerminatedJoin(parts: seq<string>)
    requires parts != []
    ensures Terminated(parts) == Join(parts, ",") + ","
  {
    if |parts| > 1 {
      TerminatedJoin(parts[1..]);
    }
  }

  /**
   * getAllowedParentAccountTypes, as written: quoted names for every type but
   * ROOT, whose list is Arrays.toString(values()) without brackets -- bare names,
   * which SQL reads as column names rather than values.
   */
  method AllowedParentAccountTypes(t: AccountType) returns (r: string)
    ensures t != ROOT ==> InListValues(r).Some? && ListsParents(t, InListValues(r).value)
    ensures t == ROOT ==> InListValues(r) == None
  {
    if t == EQUITY {
      r := "'" + Name(EQUITY) + "'";
      EquityListReads(r);
    } else if t == INCOME || t == EXPENSE {
      r := "'" + Name(EXPENSE) + "', '" + Name(INCOME) + "', '" + Name(ROOT) + "'";
      IncomeExpenseListReads(t, r);
    } else if t == ROOT {
      var names := Names(AllTypes);
      r := DropBrackets(ArraysToString(names));
      AllNamesPlain();
      BareNamesRejected(names, r);
    } else {
      r := OtherParentList(t);
    }
  }

  /** The default case: every type name but EQUITY, EXPENSE and INCOME, each quoted. */
  method OtherParentList(t: AccountType) returns (r: string)
    requires t !in {EQUITY, INCOME, EXPENSE, ROOT}
    ensures InListValues(r).Some? && ListsParents(t, InListValues(r).value)
  {
    var names := AccountTypeStringList();
    var list := Remove(names, Name(EQUITY));
    list := Remove(list, Name(EXPENSE));
    list := Remove(list, Name(INCOME));
    RemovedThree(names, list);
    r := QuotedList(list);
    ParentListReads(t, AllTypes, names, list, r);
  }

  lemma EquityListReads(r: string)
    requires r == "'" + Name(EQUITY) + "'"
    ensures InListValues(r).Some? && ListsParents(EQUITY, InListValues(r).value)
  {
    var a := Name(EQUITY);
    NamePlain(EQUITY);
    assert QuoteAll([a]) == [Quote(a)];
    assert r == Join(QuoteAll([a]), [','] + "");
    QuotedListRoundTrip([a], "");
    forall p
      ensures Name(p) in [a] <==> MayParent(EQUITY, p)
    {
      NameIs(p, EQUITY);
    }
    assert [a] == Names([EQUITY]);
    ListsParentsByName(EQUITY, [EQUITY], [a]);
  }

  /** The three-item list written out by hand is the quoted names joined by ", ". */
  lemma ThreeQuoted(a: string, b: string, c: string)
    ensures "'" + a + "', '" + b + "', '" + c + "'" == Join(QuoteAll([a, b, c]), [','] + " ")
  {
    var sep := [','] + " ";
    assert sep == ", ";
    var q := [Quote(a), Quote(b), Quote(c)];
    assert QuoteAll([a, b, c]) == q;
    assert q[1..] == [Quote(b), Quote(c)] && q[1..][1..] == [Quote(c)];
    assert Join([Quote(b), Quote(c)], sep) == Quote(b) + sep + Quote(c);
    assert Join(q, sep) == Quote(a) + sep + (Quote(b) + sep + Quote(c));
    assert "', '" == "'" + sep + "'";
  }

  lemma IncomeExpenseListReads(t: AccountType, r: string)
    requires t in {INCOME, EXPENSE}
    requires r == "'" + Name(EXPENSE) + "', '" + Name(INCOME) + "', '" + Name(ROOT) + "'"
    ensures InListValues(r).Some? && ListsParents(t, InListValues(r).value)
  {
    var ts := [EXPENSE, INCOME, ROOT];
    var xs := [Name(EXPENSE), Name(INCOME), Name(ROOT)];
    ThreeQuoted(Name(EXPENSE), Name(INCOME), Name(ROOT));
    NamePlain(EXPENSE);
    NamePlain(INCOME);
    NamePlain(ROOT);
    QuotedListRoundTrip(xs, " ");
    ThreeNames(EXPENSE, INCOME, ROOT, ts, xs);
    forall p
      ensures Name(p) in xs <==> MayParent(t, p)
    {
      NamesListed(ts, p);
      if MayParent(t, p) {
        IncomeExpenseClosed(t, p);
      }
    }
    ListsParentsByName(t, ts, xs);
  }

  /** The names of three different types: distinct, and the name list of the three. */
  lemma ThreeNames(x: AccountType, y: AccountType, z: AccountType, ts: seq<AccountType>, xs: seq<string>)
    requires x != y && x != z && y != z
    requires ts == [x, y, z] && xs == [Name(x), Name(y), Name(z)]
    ensures xs == Names(ts) && Distinct(xs)
    ensures forall p :: p in ts <==> p == x || p == y || p == z
  {
    assert Names(ts) == [Name(x)] + Names([y, z]);
    assert Names([y, z]) == [Name(y)] + Names([z]);
    NamesDistinct(ts);
  }

  /** Plain names printed by Arrays.toString, brackets removed, form an IN list without values. */
  lemma BareNamesRejected(names: seq<string>, r: string)
    requires names != [] && forall k :: 0 <= k < |names| ==> Plain(names[k])
    requires r == DropBrackets(ArraysToString(names))
    ensures InListValues(r) == None
  {
    BareNamesJoined(names);
    assert [','] + " " == ", ";
    BareListRejected(names, " ");
  }

  /** What is left of the type names once EQUITY, EXPENSE and INCOME are removed. */
  lemma RemovedThree(names: seq<string>, vs: seq<string>)
    requires names == Names(AllTypes)
    requires vs == Remove(Remove(Remove(names, Name(EQUITY)), Name(EXPENSE)), Name(INCOME))
    ensures Distinct(vs) && vs != [] && forall v :: v in vs ==> v in names
    ensures forall p :: Name(p) in vs <==> p !in {EQUITY, EXPENSE, INCOME}
  {
    AllTypesEnumerates(CASH);
    NamesDistinct(AllTypes);
    var v1 := Remove(names, Name(EQUITY));
    RemoveMembers(names, Name(EQUITY));
    var v2 := Remove(v1, Name(EXPENSE));
    RemoveMembers(v1, Name(EXPENSE));
    RemoveMembers(v2, Name(INCOME));
    forall p
      ensures Name(p) in vs <==> p !in {EQUITY, EXPENSE, INCOME}
    {
      AllTypesEnumerates(p);
      NamesListed(AllTypes, p);
      NameIs(p, EQUITY);
      NameIs(p, EXPENSE);
      NameIs(p, INCOME);
    }
    assert Name(CASH) in vs;
  }

  lemma ParentListReads(t: AccountType, ts: seq<AccountType>, names: seq<string>, vs: seq<string>, r: string)
    requires t !in {EQUITY, INCOME, EXPENSE, ROOT}
    requires names == Names(ts)
    requires Distinct(vs) && forall v :: v in vs ==> v in names
    requires forall p :: Name(p) in vs <==> p !in {EQUITY, EXPENSE, INCOME}
    requires vs != [] && r == Join(QuoteAll(vs), ",")
    ensures InListValues(r).Some? && ListsParents(t, InListValues(r).value)
  {
    forall k | 0 <= k < |vs|
      ensures Plain(vs[k])
    {
      var p := NamedType(ts, vs[k]);
      NamePlain(p);
    }
    CommaAlone();
    QuotedListRoundTrip(vs, "");
    forall p
      ensures Name(p) in vs <==> MayParent(t, p)
    {
      BalanceSheetParents(t, p);
    }
    ListsParentsByName(t, ts, vs);
  }

  lemma AllTypesListReads(names: seq<string>, r: string)
    requires names == Names(AllTypes)
    requires r == Join(QuoteAll(names), ",")
    ensures InListValues(r).Some? && ListsParents(ROOT, InListValues(r).value)
  {
    AllNamesPlain();
    CommaAlone();
    QuotedListRoundTrip(names, "");
    AllTypesEnumerates(CASH);
    NamesDistinct(AllTypes);
    forall p
      ensures p in AllTypes
    {
      AllTypesEnumerates(p);
    }
    EveryTypeListed(AllTypes, names);
    ListsParentsByName(ROOT, AllTypes, names);
  }

  lemma CommaAlone()
    ensures [','] + "" == ","
  {
  }

  /** The names of a list holding every type are exactly the parents a ROOT account may have. */
  lemma EveryTypeListed(ts: seq<AccountType>, names: seq<string>)
    requires names == Names(ts) && forall p: AccountType :: p in ts
    ensures forall p :: Name(p) in names <==> MayParent(ROOT, p)
  {
    forall p
      ensures Name(p) in names <==> MayParent(ROOT, p)
    {
      NamesListed(ts, p);
    }
  }

  /** getAllowedParentAccountTypes with the ROOT list quoted like the others. */
  method AllowedParentAccountTypesCorrected(t: AccountType) returns (r: string)
    ensures InListValues(r).Some? && ListsParents(t, InListValues(r).value)
  {
    if t == ROOT {
      var list := AccountTypeStringList();
      assert |list| == |AllTypes|;
      r := QuotedList(list);
      AllTypesListReads(list, r);
    } else {
      r := AllowedParentAccountTypes(t);
    }
  }

  // ---------------------------------------------------------------------------
  // The pickers' queries
  // ---------------------------------------------------------------------------

  /** The account being edited: its UID and row id. */
  datatype Editing = Editing(uid: string, rowId: int)

  /**
   * loadParentAccountList: the accounts whose type is in the IN list and, when
   * an account is being edited, that are neither that account nor one of its
   * direct children. An IN list without values makes the query fail.
   */
  function ParentCandidates(a: Table<AccountRow>, inList: string, editing: Option<Editing>): (r: Option<set<int>>)
    ensures r.None? <==> InListValues(inList).None?
  {
    match InListValues(inList)
    case None => None
    case Some(vs) =>
      Some(set id | id in a.rows && a.rows[id].accountType in vs
                    && (editing.Some? ==> (a.rows[id].parentUid.None? || a.rows[id].parentUid.value != editing.value.uid)
                                          && id != editing.value.rowId))
  }

  /**
   * With an IN list that lists the allowed parents (as the corrected method
   * builds), an account is offered as parent exactly when its stored type may
   * parent the type being edited and it is not the edited account or its child.
   */
  lemma CandidatesByType(a: Table<AccountRow>, child: AccountType, inList: string, editing: Option<Editing>, id: int)
    requires InListValues(inList).Some? && ListsParents(child, InListValues(inList).value)
    ensures ParentCandidates(a, inList, editing).Some?
    ensures id in ParentCandidates(a, inList, editing).value <==>
              id in a.rows && ValueOf(a.rows[id].accountType).Some? && MayParent(child, ValueOf(a.rows[id].accountType).value)
              && (editing.Some? ==> a.rows[id].parentUid != Some(editing.value.uid) && id != editing.value.rowId)
  {
    if id in a.rows {
      ListedMeansAllowed(child, InListValues(inList).value, a.rows[id].accountType);
    }
  }

  /** A stored type string is in a list of the allowed parents exactly when it names an allowed parent type. */
  lemma ListedMeansAllowed(child: AccountType, vs: seq<string>, s: string)
    requires ListsParents(child, vs)
    ensures s in vs <==> ValueOf(s).Some? && MayParent(child, ValueOf(s).value)
  {
    if s in vs {
      var k :| 0 <= k < |vs| && vs[k] == s;
      assert ValueOf(vs[k]).Some?;
    }
    if ValueOf(s).Some? && MayParent(child, ValueOf(s).value) {
      ValueOfInverts(s);
    }
  }

  /** Two accounts under a parent chain c -> b -> a, all three of type ASSET. */
  function ChainOfThree(): Table<AccountRow> {
    Table(map[1 := AccountRow("a", Some("A"), "ASSET", Some("USD"), None, false, None, None),
              2 := AccountRow("b", Some("B"), "ASSET", Some("USD"), Some("a"), false, None, None),
              3 := AccountRow("c", Some("C"), "ASSET", Some("USD"), Some("b"), false, None, None)], 4)
  }

  /**
   * Only direct children are excluded: editing account "a", its grandchild "c"
   * is offered as a parent, so choosing it makes the hierarchy a cycle.
   */
  lemma GrandchildOffered(inList: string)
    requires InListValues(inList).Some? && ListsParents(ASSET, InListValues(inList).value)
    ensures 3 in ParentCandidates(ChainOfThree(), inList, Some(Editing("a", 1))).value
    ensures 2 !in ParentCandidates(ChainOfThree(), inList, Some(Editing("a", 1))).value
    ensures 1 !in ParentCandidates(ChainOfThree(), inList, Some(Editing("a", 1))).value
  {
    var a := ChainOfThree();
    var e := Some(Editing("a", 1));
    CandidatesByType(a, ASSET, inList, e, 1);
    CandidatesByType(a, ASSET, inList, e, 2);
    CandidatesByType(a, ASSET, inList, e, 3);
    assert ValueOf("ASSET") == Some(ASSET);
  }

  /**
   * loadDefaultTransferAccountList: every account other than the selected one
   * that is not a placeholder and whose UID is not the root account's. Java
   * writes a missing root UID into the query as the text 'null'.
   */
  function TransferCandidates(a: Table<AccountRow>, selectedId: int, rootUid: Option<string>): set<int> {
    set id | id in a.rows && id != selectedId && !a.rows[id].placeholder && a.rows[id].uid != NullToString(rootUid)
  }

  /**
   * Whichever account is selected, the root account and placeholders are never
   * offered, every other stored account apart from the selected one is, and
   * nothing outside the table is.
   */
  lemma TransferOffers(a: Table<AccountRow>, selectedId: int, root: string)
    ensures forall id :: id in a.rows && (a.rows[id].uid == root || a.rows[id].placeholder) ==>
              id !in TransferCandidates(a, selectedId, Some(root))
    ensures forall id :: id in a.rows && id != selectedId && !a.rows[id].placeholder && a.rows[id].uid != root ==>
              id in TransferCandidates(a, selectedId, Some(root))
    ensures TransferCandidates(a, selectedId, Some(root)) <= a.rows.Keys - {selectedId}
  {
  }

  /** Turning an account into a placeholder withdraws exactly that account from the offer. */
  lemma PlaceholderWithdrawn(a: Table<AccountRow>, selectedId: int, rootUid: Option<string>, id: int)
    requires id in a.rows
    ensures TransferCandidates(Table(a.rows[id := a.rows[id].(placeholder := true)], a.next), selectedId, rootUid)
            == TransferCandidates(a, selectedId, rootUid) - {id}
  {
  }

  /** Without a root account, only an account whose UID is literally "null" is dropped for being the root. */
  lemma TransferWithoutRoot(a: Table<AccountRow>, selectedId: int, id: int)
    requires id in a.rows && id != selectedId && !a.rows[id].placeholder
    ensures id in TransferCandidates(a, selectedId, None) <==> a.rows[id].uid != "null"
  {
  }

  // ---------------------------------------------------------------------------
  // The colour string
  // ---------------------------------------------------------------------------

  function Pow16(n: nat): (p: nat)
    ensures p >= 1
  {
    if n == 0 then 1 else 16 * Pow16(n - 1)
  }

  /** The upper-case hex digit of d, as %X writes it. */
  function HexDigit(d: nat): char
    requires d < 16
  {
    if d < 10 then ('0' as int + d) as char else ('A' as int + d - 10) as char
  }

  predicate IsHexDigit(c: char) {
    '0' <= c <= '9' || 'A' <= c <= 'F'
  }

  function DigitValue(c: char): nat {
    if '0' <= c <= '9' then c as int - '0' as int
    else if 'A' <= c <= 'F' then c as int - 'A' as int + 10
    else 0
  }

  /** The value a string of hex digits denotes, most significant first. */
  function ParseHex(s: string): nat {
    if s == [] then 0 else ParseHex(s[..|s| - 1]) * 16 + DigitValue(s[|s| - 1])
  }

  /** `v` as exactly n upper-case hex digits, most significant first (v below 16^n). */
  function Hex(v: nat, n: nat): (s: string)
    requires v < Pow16(n)
    ensures |s| == n && forall k :: 0 <= k < n ==> IsHexDigit(s[k])
    ensures ParseHex(s) == v
  {
    if n == 0 then ""
    else
      assert v / 16 < Pow16(n - 1) by {
        DivBound(v, Pow16(n - 1));
      }
      var s := Hex(v / 16, n - 1) + [HexDigit(v % 16)];
      assert s[..|s| - 1] == Hex(v / 16, n - 1);
      s
  }

  lemma DivBound(v: nat, p: nat)
    requires v < 16 * p
    ensures v / 16 < p
  {
  }

  /**
   * onColorSelected: the colour's low 24 bits (its RGB part; Java's 0xFFFFFF &
   * on the 32-bit int) formatted with "#%06X".
   */
  function SelectedColor(color: int): (s: string)
    requires -0x8000_0000 <= color < 0x8000_0000
    ensures |s| == 7 && s[0] == '#' && forall k :: 1 <= k < 7 ==> IsHexDigit(s[k])
    ensures ParseHex(s[1..]) == color % 0x100_0000
  {
    assert Pow16(6) == 0x100_0000;
    var s := "#" + Hex(color % 0x100_0000, 6);
    assert s[1..] == Hex(color % 0x100_0000, 6);
    s
  }

  /** The string determines the RGB part: two colours give the same string exactly when their low 24 bits agree. */
  lemma SelectedColorIdentifiesRgb(c1: int, c2: int)
    requires -0x8000_0000 <= c1 < 0x8000_0000 && -0x8000_0000 <= c2 < 0x8000_0000
    ensures SelectedColor(c1) == SelectedColor(c2) <==> c1 % 0x100_0000 == c2 % 0x100_0000
  {
  }

  /** The alpha byte is ignored: an opaque colour and its transparent twin give the same string. */
  lemma AlphaIgnored(rgb: int)
    requires 0 <= rgb < 0x100_0000
    ensures SelectedColor(rgb - 0x100_0000) == SelectedColor(rgb)
  {
    assert (rgb - 0x100_0000) % 0x100_0000 == rgb % 0x100_0000;
    SelectedColorIdentifiesRgb(rgb - 0x100_0000, rgb);
  }
}
