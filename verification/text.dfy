/**
 String operations the scraper applies: Python's `str.strip`, `str.split`,
 `str.lower`, the `in` substring test, `str.split(sep)[0]`, and the decimal
 rendering of page numbers in an f-string.
 */
module Text {
  import opened Optional

  /** The characters Python's `str.isspace` accepts (what `str.strip()` removes). */
  const Whitespace: set<char> := {
    ' ', '\t', '\n', '\r', '\U{000B}', '\U{000C}', '\U{001C}', '\U{001D}', '\U{001E}', '\U{001F}',
    '\U{0085}', '\U{00A0}', '\U{1680}', '\U{2000}', '\U{2001}', '\U{2002}', '\U{2003}', '\U{2004}',
    '\U{2005}', '\U{2006}', '\U{2007}', '\U{2008}', '\U{2009}', '\U{200A}', '\U{2028}', '\U{2029}',
    '\U{202F}', '\U{205F}', '\U{3000}'
  }

  // ---------------------------------------------------------------------------
  // strip

  /** Length of the longest prefix of `s` made of characters in `cs`. */
  function LeadingRun(s: string, cs: set<char>): (n: nat)
    ensures n <= |s|
    ensures forall k :: 0 <= k < n ==> s[k] in cs
    ensures n < |s| ==> s[n] !in cs
  {
    if |s| == 0 || s[0] !in cs then 0 else 1 + LeadingRun(s[1..], cs)
  }

  /** Length of the longest suffix of `s` made of characters in `cs`. */
  function TrailingRun(s: string, cs: set<char>): (n: nat)
    ensures n <= |s|
    ensures forall k :: |s| - n <= k < |s| ==> s[k] in cs
    ensures n < |s| ==> s[|s| - 1 - n] !in cs
  {
    if |s| == 0 || s[|s| - 1] !in cs then 0 else 1 + TrailingRun(s[..|s| - 1], cs)
  }

  /**
   Python's `s.strip(chars)`: `s` without its leading and trailing characters
   from `cs`. The result sits in `s` right after the leading run, everything
   after it is in `cs`, and it neither starts nor ends with a character of `cs`.
   */
  function Strip(s: string, cs: set<char>): (r: string)
    ensures var i := LeadingRun(s, cs);
      i + |r| <= |s| && s[i..i + |r|] == r &&
      forall k :: i + |r| <= k < |s| ==> s[k] in cs
    ensures |r| == 0 || (r[0] !in cs && r[|r| - 1] !in cs)
  {
    var t := s[LeadingRun(s, cs)..];
    t[..|t| - TrailingRun(t, cs)]
  }

  /** Dropping `a` characters and then `b` more is dropping `a + b`. */
  lemma DropDrop(s: string, a: nat, b: nat)
    requires a + b <= |s|
    ensures s[a..][b..] == s[a + b..]
  {
  }

  // ---------------------------------------------------------------------------
  // split and join

  /** Index of the first `c` in `s`. */
  function FirstIndexOf(s: string, c: char): (i: nat)
    requires c in s
    ensures i < |s| && s[i] == c && c !in s[..i]
  {
    if s[0] == c then 0 else 1 + FirstIndexOf(s[1..], c)
  }

  /** Python's `sep.join(parts)` for a one-character separator. */
  function Join(parts: seq<string>, sep: char): string
    decreases |parts|
  {
    if |parts| == 0 then ""
    else if |parts| == 1 then parts[0]
    else parts[0] + [sep] + Join(parts[1..], sep)
  }

  /**
   Python's `s.split(sep)` for a one-character separator: at least one part,
   no part contains `sep`, joining the parts gives back `s`, the first part is
   the text before the first `sep`, and there are two or more parts exactly
   when `sep` occurs in `s`.
   */
  function Split(s: string, sep: char): (parts: seq<string>)
    ensures |parts| >= 1
    ensures forall k :: 0 <= k < |parts| ==> sep !in parts[k]
    ensures Join(parts, sep) == s
    ensures parts[0] <= s && (|parts[0]| == |s| || s[|parts[0]|] == sep)
    ensures |parts| >= 2 <==> sep in s
    decreases |s|
  {
    if sep !in s then [s]
    else
      var i := FirstIndexOf(s, sep);
      assert s == s[..i] + [sep] + s[i + 1..];
      [s[..i]] + Split(s[i + 1..], sep)
  }

  /** Splitting text that starts with a separator-free part and a separator. */
  lemma SplitAfterPart(a: string, b: string, sep: char)
    requires sep !in a
    ensures Split(a + [sep] + b, sep) == [a] + Split(b, sep)
  {
    var s := a + [sep] + b;
    assert s[|a|] == sep;
    var i := FirstIndexOf(s, sep);
    assert i == |a|;
    assert s[..i] == a;
    assert s[i + 1..] == b;
  }

  /** Splitting what `Join` produced gives back the parts, when no part holds the separator. */
  lemma {:induction false} SplitJoin(parts: seq<string>, sep: char)
    requires |parts| >= 1
    requires forall k :: 0 <= k < |parts| ==> sep !in parts[k]
    ensures Split(Join(parts, sep), sep) == parts
    decreases |parts|
  {
    if |parts| == 1 {
      assert Join(parts, sep) == parts[0];
    } else {
      assert sep !in parts[0];
      SplitAfterPart(parts[0], Join(parts[1..], sep), sep);
      SplitJoin(parts[1..], sep);
      assert parts == [parts[0]] + parts[1..];
    }
  }

  // ---------------------------------------------------------------------------
  // substring search

  /** `t` occurs in `s` starting at index `i`. */
  predicate OccursAt(s: string, t: string, i: int) {
    0 <= i && i + |t| <= |s| && s[i..i + |t|] == t
  }

  /** Python's `t in s`, as a specification. */
  ghost predicate Occurs(s: string, t: string) {
    exists i :: OccursAt(s, t, i)
  }

  /** Index of the first occurrence of `t` in `s` at or after `from`. */
  function IndexOfFrom(s: string, t: string, from: nat): (r: Option<nat>)
    ensures r.Some? ==> from <= r.value && OccursAt(s, t, r.value)
    ensures r.Some? ==> forall j :: from <= j < r.value ==> !OccursAt(s, t, j)
    ensures r.None? ==> forall j :: from <= j ==> !OccursAt(s, t, j)
    decreases |s| - from
  {
    if from + |t| > |s| then None
    else if s[from..from + |t|] == t then Some(from)
    else IndexOfFrom(s, t, from + 1)
  }

  /** Python's `t in s`: true exactly when `t` occurs somewhere in `s`. */
  function Contains(s: string, t: string): (b: bool)
    ensures b <==> Occurs(s, t)
  {
    var r := IndexOfFrom(s, t, 0);
    assert r.Some? ==> OccursAt(s, t, r.value);
    r.Some?
  }

  /**
   Python's `s.split(t)[0]` for a non-empty `t`: the text before the first
   occurrence of `t`, or all of `s` when `t` does not occur. The result is a
   prefix of `s` that does not contain `t`, and unless it is all of `s`, `t`
   occurs right after it.
   */
  function BeforeFirst(s: string, t: string): (r: string)
    requires |t| > 0
    ensures r <= s
    ensures !Occurs(r, t)
    ensures r == s || OccursAt(s, t, |r|)
    ensures Occurs(s, t) ==> OccursAt(s, t, |r|)
    ensures forall j :: 0 <= j < |r| ==> !OccursAt(s, t, j)
  {
    match IndexOfFrom(s, t, 0)
    case None => s
    case Some(i) =>
      var r := s[..i];
      assert forall j :: OccursAt(r, t, j) ==> OccursAt(s, t, j) by {
        forall j | OccursAt(r, t, j) ensures OccursAt(s, t, j) {
          assert j + |t| <= i;
          assert forall k :: j <= k < j + |t| ==> r[k] == s[k];
          assert s[j..j + |t|] == r[j..j + |t|];
        }
      }
      r
  }

  // ---------------------------------------------------------------------------
  // lower-casing

  /** Python's `str.lower` on one character, restricted to ASCII letters. */
  function LowerChar(c: char): (d: char)
    ensures !('A' <= d <= 'Z')
    ensures !('A' <= c <= 'Z') ==> d == c
  {
    if 'A' <= c <= 'Z' then (c as int + 32) as char else c
  }

  predicate IsLowerCase(s: string) {
    forall k :: 0 <= k < |s| ==> !('A' <= s[k] <= 'Z')
  }

  /**
   Python's `str.lower` (ASCII letters only): same length, every character
   lower-cased, no upper-case letter left, and text that is already lower
   case is returned unchanged.
   */
  function Lower(s: string): (r: string)
    ensures |r| == |s| && forall k :: 0 <= k < |s| ==> r[k] == LowerChar(s[k])
    ensures IsLowerCase(r)
    ensures IsLowerCase(s) ==> r == s
  {
    seq(|s|, k requires 0 <= k < |s| => LowerChar(s[k]))
  }

  // ---------------------------------------------------------------------------
  // decimal rendering of integers (f"{page}")

  predicate IsDigit(c: char) {
    '0' <= c <= '9'
  }

  function DigitChar(d: nat): (c: char)
    requires d < 10
    ensures IsDigit(c) && c as int - '0' as int == d
  {
    ('0' as int + d) as char
  }

  /** Decimal digits of `n`, without leading zeros. */
  function ShowNat(n: nat): (s: string)
    ensures |s| >= 1
    ensures forall k :: 0 <= k < |s| ==> IsDigit(s[k])
    ensures s[0] == '0' ==> s == "0"
    decreases n
  {
    if n < 10 then [DigitChar(n)] else ShowNat(n / 10) + [DigitChar(n % 10)]
  }

  /** Value of a string of decimal digits. */
  function ReadNat(s: string): nat
    requires forall k :: 0 <= k < |s| ==> IsDigit(s[k])
    decreases |s|
  {
    if |s| == 0 then 0
    else
      assert IsDigit(s[|s| - 1]);
      10 * ReadNat(s[..|s| - 1]) + (s[|s| - 1] as int - '0' as int)
  }

  /** Reading back the digits `ShowNat` wrote gives the number. */
  lemma {:induction false} ReadShowNat(n: nat)
    ensures ReadNat(ShowNat(n)) == n
    decreases n
  {
    if n >= 10 {
      var s := ShowNat(n);
      assert s[..|s| - 1] == ShowNat(n / 10);
      ReadShowNat(n / 10);
    }
  }

  /** Python's `str(n)` for an integer: an optional minus sign, then the digits of `|n|`. */
  function ShowInt(n: int): (s: string)
    ensures |s| >= 1
    ensures n < 0 <==> s[0] == '-'
    ensures var d := if n < 0 then s[1..] else s;
      (forall k :: 0 <= k < |d| ==> IsDigit(d[k])) && ReadNat(d) == (if n < 0 then -n else n)
    ensures var d := if n < 0 then s[1..] else s;
      |d| >= 1 && (d[0] == '0' ==> d == "0")
  {
    if n < 0 then
      ReadShowNat(-n);
      assert ("-" + ShowNat(-n))[1..] == ShowNat(-n);
      "-" + ShowNat(-n)
    else
      ReadShowNat(n);
      ShowNat(n)
  }

  /** Different integers are rendered as different strings. */
  lemma ShowIntInjective(a: int, b: int)
    requires ShowInt(a) == ShowInt(b)
    ensures a == b
  {
    if a < 0 {
      assert b < 0;
      var sa, sb := ShowNat(-a), ShowNat(-b);
      assert ("-" + sa)[1..] == sa && ("-" + sb)[1..] == sb;
      ShowNatInjective(-a, -b);
    } else {
      assert b >= 0;
      ShowNatInjective(a, b);
    }
  }

  lemma ShowNatInjective(a: nat, b: nat)
    requires ShowNat(a) == ShowNat(b)
    ensures a == b
  {
    ReadShowNat(a);
    ReadShowNat(b);
  }
}
