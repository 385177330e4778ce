/**
 * The few java.lang.String operations the ledger core relies on:
 * trim, equalsIgnoreCase, split on one character and joining with a separator.
 */
module Strings {
  import opened Wrappers

  /** Java's trim() removes every leading and trailing character whose code is at most U+0020. */
  predicate IsTrimmable(c: char) {
    c <= ' '
  }

  predicate AllTrimmable(s: string) {
    forall k :: 0 <= k < |s| ==> IsTrimmable(s[k])
  }

  /** A string that trim() leaves unchanged: empty, or starting and ending with a visible character. */
  predicate Clean(s: string) {
    s == [] || (!IsTrimmable(s[0]) && !IsTrimmable(s[|s| - 1]))
  }

  function DropLeading(s: string): string {
    if s == [] || !IsTrimmable(s[0]) then s else DropLeading(s[1..])
  }

  function DropTrailing(s: string): string {
    if s == [] || !IsTrimmable(s[|s| - 1]) then s else DropTrailing(s[..|s| - 1])
  }

  /** DropLeading removes a trimmable prefix and stops at the first visible character. */
  lemma {:induction false} DropLeadingSpec(s: string)
    ensures var r := DropLeading(s);
            |r| <= |s| && r == s[|s| - |r|..] && (r == [] || !IsTrimmable(r[0]))
  {
    if s != [] && IsTrimmable(s[0]) {
      DropLeadingSpec(s[1..]);
    }
  }

  /** DropTrailing removes a trimmable suffix and stops at the last visible character. */
  lemma {:induction false} DropTrailingSpec(s: string)
    ensures var r := DropTrailing(s);
            |r| <= |s| && r == s[..|r|] && (r == [] || !IsTrimmable(r[|r| - 1]))
  {
    if s != [] && IsTrimmable(s[|s| - 1]) {
      DropTrailingSpec(s[..|s| - 1]);
    }
  }

  /** String.trim(): drops the trimmable characters at both ends, leaving a clean string. */
  function Trim(s: string): (r: string)
    ensures Clean(r)
  {
    DropLeadingSpec(s);
    DropTrailingSpec(DropLeading(s));
    DropTrailing(DropLeading(s))
  }

  lemma {:induction false} DropLeadingPadded(p: string, s: string)
    requires AllTrimmable(p) && (s == [] || !IsTrimmable(s[0]))
    ensures DropLeading(p + s) == s
  {
    if p != [] {
      assert (p + s)[1..] == p[1..] + s;
      DropLeadingPadded(p[1..], s);
    } else {
      assert p + s == s;
    }
  }

  lemma {:induction false} DropTrailingPadded(s: string, q: string)
    requires AllTrimmable(q) && (s == [] || !IsTrimmable(s[|s| - 1]))
    ensures DropTrailing(s + q) == s
  {
    if q != [] {
      assert (s + q)[..|s + q| - 1] == s + q[..|q| - 1];
      DropTrailingPadded(s, q[..|q| - 1]);
    } else {
      assert s + q == s;
    }
  }

  /** Trimming a clean string surrounded by trimmable padding gives back exactly that string. */
  lemma {:induction false} TrimPadded(p: string, s: string, q: string)
    requires AllTrimmable(p) && AllTrimmable(q) && Clean(s)
    ensures Trim(p + s + q) == s
  {
    if s == [] {
      assert p + s + q == p + q;
      assert AllTrimmable(p + q);
      DropLeadingPadded(p + q, []);
      assert p + q + [] == p + q;
    } else {
      assert p + s + q == p + (s + q);
      DropLeadingPadded(p, s + q);
      DropTrailingPadded(s, q);
    }
  }

  lemma TrimClean(s: string)
    requires Clean(s)
    ensures Trim(s) == s
  {
    assert DropLeading(s) == s;
  }

  /** trim() is idempotent, so re-trimming an already trimmed name changes nothing. */
  lemma TrimIdempotent(s: string)
    ensures Trim(Trim(s)) == Trim(s)
  {
    TrimClean(Trim(s));
  }

  /** ASCII case folding (UIDs and type names are ASCII). */
  function ToLower(c: char): char {
    if 'A' <= c <= 'Z' then (c as int + 32) as char else c
  }

  /** a.equalsIgnoreCase(b), where a Java null argument never matches. */
  predicate EqualsIgnoreCase(a: string, b: Option<string>) {
    b.Some? && |a| == |b.value| &&
    forall k :: 0 <= k < |a| ==> ToLower(a[k]) == ToLower(b.value[k])
  }

  /** Concatenation of the parts with `sep` between consecutive parts (String.join). */
  function Join(parts: seq<string>, sep: string): string {
    if parts == [] then ""
    else if |parts| == 1 then parts[0]
    else parts[0] + sep + Join(parts[1..], sep)
  }

  /** Index of the first occurrence of `c` in `s` (requires one to exist). */
  function IndexOf(s: string, c: char): (i: nat)
    requires c in s
    ensures i < |s| && s[i] == c && c !in s[..i]
  {
    if s[0] == c then 0 else 1 + IndexOf(s[1..], c)
  }

  /** Every piece of `s` between occurrences of `c`, empty pieces included. */
  function SplitAll(s: string, c: char): (parts: seq<string>)
    ensures |parts| >= 1
    decreases |s|
  {
    if c !in s then [s]
    else
      var i := IndexOf(s, c);
      [s[..i]] + SplitAll(s[i + 1..], c)
  }

  function DropTrailingEmpty(parts: seq<string>): seq<string> {
    if parts != [] && parts[|parts| - 1] == "" then DropTrailingEmpty(parts[..|parts| - 1]) else parts
  }

  /**
   * String.split with a one-character pattern: a string without the character
   * splits into itself; otherwise trailing empty pieces are discarded.
   */
  function JavaSplit(s: string, c: char): seq<string> {
    if c !in s then [s] else DropTrailingEmpty(SplitAll(s, c))
  }

  lemma {:induction false} IndexOfAt(s: string, c: char, j: nat)
    requires j < |s| && s[j] == c && c !in s[..j]
    ensures IndexOf(s, c) == j
  {
    if j > 0 {
      assert s[0] in s[..j];
      assert s[1..][j - 1] == c;
      assert s[1..][..j - 1] == s[1..j];
      assert forall ch :: ch in s[1..j] ==> ch in s[..j];
      IndexOfAt(s[1..], c, j - 1);
    }
  }

  lemma SplitAllCons(x: string, c: char, t: string)
    requires c !in x
    ensures SplitAll(x + [c] + t, c) == [x] + SplitAll(t, c)
  {
    var s := x + [c] + t;
    assert s[|x|] == c;
    assert s[..|x|] == x;
    IndexOfAt(s, c, |x|);
    assert s[|x| + 1..] == t;
  }

  /** Each part behind `pad`. */
  function PadAll(parts: seq<string>, pad: string): (r: seq<string>)
    ensures |r| == |parts|
    ensures forall k :: 0 <= k < |parts| ==> r[k] == pad + parts[k]
  {
    if parts == [] then [] else [pad + parts[0]] + PadAll(parts[1..], pad)
  }

  /** The padded comma-separated list: the first part as is, each later part behind `pad`. */
  function Padded(parts: seq<string>, pad: string): seq<string>
    requires parts != []
  {
    [parts[0]] + PadAll(parts[1..], pad)
  }

  /** Splitting a joined list on the separator's first character gives back the parts, padded. */
  lemma {:induction false} SplitAllJoin(parts: seq<string>, c: char, pad: string)
    requires parts != []
    requires forall k :: 0 <= k < |parts| ==> c !in parts[k]
    requires c !in pad
    ensures SplitAll(Join(parts, [c] + pad), c) == Padded(parts, pad)
  {
    if |parts| > 1 {
      var rest := parts[1..];
      var sep := [c] + pad;
      var tail := Join(rest, sep);
      SplitAllJoin(rest, c, pad);
      assert Join(parts, sep) == parts[0] + [c] + (pad + tail);
      SplitAllCons(parts[0], c, pad + tail);
      SplitAllPrefix(pad, tail, c);
    }
  }

  /** Prefixing the first piece: padding without `c` is glued onto the first part only. */
  lemma SplitAllPrefix(pad: string, t: string, c: char)
    requires c !in pad
    ensures SplitAll(pad + t, c) == [pad + SplitAll(t, c)[0]] + SplitAll(t, c)[1..]
  {
    var s := pad + t;
    if c !in t {
      assert c !in s;
    } else {
      var j := IndexOf(t, c);
      assert s == (pad + t[..j]) + [c] + t[j + 1..];
      assert t == t[..j] + [c] + t[j + 1..];
      SplitAllCons(pad + t[..j], c, t[j + 1..]);
      SplitAllCons(t[..j], c, t[j + 1..]);
    }
  }

  /** String.split on the separator's first character undoes the join when no part is empty. */
  lemma JavaSplitJoin(parts: seq<string>, c: char, pad: string)
    requires |parts| >= 2 && c !in pad
    requires forall k :: 0 <= k < |parts| ==> parts[k] != [] && c !in parts[k]
    ensures JavaSplit(Join(parts, [c] + pad), c) == Padded(parts, pad)
  {
    SeparatorJoined(parts, [c] + pad);
    SplitAllJoin(parts, c, pad);
    PaddedEndsFull(parts, pad);
  }

  lemma SeparatorJoined(parts: seq<string>, sep: string)
    requires |parts| >= 2 && sep != []
    ensures sep[0] in Join(parts, sep)
  {
    var s := Join(parts, sep);
    assert s == parts[0] + sep + Join(parts[1..], sep);
    assert s[|parts[0]|] == sep[0];
  }

  lemma PaddedEndsFull(parts: seq<string>, pad: string)
    requires |parts| >= 2 && parts[|parts| - 1] != []
    ensures DropTrailingEmpty(Padded(parts, pad)) == Padded(parts, pad)
  {
    var p := Padded(parts, pad);
    assert p[|p| - 1] == pad + parts[|parts| - 1];
  }

  /** What Java's string concatenation makes of a possibly null string. */
  function NullToString(s: Option<string>): (r: string)
    ensures s.Some? ==> r == s.value
  {
    if s.Some? then s.value else "null"
  }

  /** SQLite's BINARY collation on these strings: lexicographic by character code. */
  predicate Less(a: string, b: string) {
    if a == [] then b != []
    else b != [] && (a[0] < b[0] || (a[0] == b[0] && Less(a[1..], b[1..])))
  }

  lemma {:induction false} LessIrreflexive(a: string)
    ensures !Less(a, a)
  {
    if a != [] {
      LessIrreflexive(a[1..]);
    }
  }

  lemma {:induction false} LessTransitive(a: string, b: string, c: string)
    requires Less(a, b) && Less(b, c)
    ensures Less(a, c)
  {
    if a != [] && a[0] == b[0] && b[0] == c[0] {
      LessTransitive(a[1..], b[1..], c[1..]);
    }
  }

  lemma {:induction false} LessTotal(a: string, b: string)
    ensures a == b || Less(a, b) || Less(b, a)
  {
    if a != [] && b != [] && a[0] == b[0] {
      LessTotal(a[1..], b[1..]);
      if a[1..] == b[1..] {
        assert a == [a[0]] + a[1..] && b == [b[0]] + b[1..];
      }
    }
  }
}
