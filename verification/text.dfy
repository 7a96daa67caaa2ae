/** String rules the components rely on: JavaScript's white space (as used by
    `trim()` and the regular-expression class `\s`), ASCII lower-casing for
    case-insensitive search, substring tests, decimal number strings, the
    whitespace word count, and lexicographic string order by code point. */
module Text {
  import opened Seqs

  /** WhiteSpace and LineTerminator code points of ECMA-262 (sections 12.2
      and 12.3), the set both `String.prototype.trim` and `\s` use. */
  const SpaceChars: seq<char> := [
    '\t', '\n', '\U{000B}', '\U{000C}', '\r', ' ', '\U{00A0}', '\U{1680}',
    '\U{2000}', '\U{2001}', '\U{2002}', '\U{2003}', '\U{2004}', '\U{2005}',
    '\U{2006}', '\U{2007}', '\U{2008}', '\U{2009}', '\U{200A}',
    '\U{2028}', '\U{2029}', '\U{202F}', '\U{205F}', '\U{3000}', '\U{FEFF}'
  ]

  predicate IsSpace(c: char) {
    OneOf(c, SpaceChars)
  }

  /** `c` occurs in `cs`, looked up one character at a time. */
  predicate OneOf(c: char, cs: seq<char>) {
    cs != [] && (cs[0] == c || OneOf(c, cs[1..]))
  }

  predicate IsBlank(s: string) {
    forall i :: 0 <= i < |s| ==> IsSpace(s[i])
  }

  /** The end of the run of white space that starts at `i`. */
  function SkipSpace(s: string, i: nat): (n: nat)
    requires i <= |s|
    ensures i <= n <= |s|
    ensures forall k :: i <= k < n ==> IsSpace(s[k])
    ensures n < |s| ==> !IsSpace(s[n])
    decreases |s| - i
  {
    if i < |s| && IsSpace(s[i]) then SkipSpace(s, i + 1) else i
  }

  /** The start of the run of white space that ends at `j`, not going
      below `lo`. */
  function BackSpace(s: string, lo: nat, j: nat): (n: nat)
    requires lo <= j <= |s|
    ensures lo <= n <= j
    ensures forall k :: n <= k < j ==> IsSpace(s[k])
    ensures lo < n ==> !IsSpace(s[n - 1])
  {
    if lo < j && IsSpace(s[j - 1]) then BackSpace(s, lo, j - 1) else j
  }

  /** Number of white-space characters at the start of `s`. */
  function LeadingSpace(s: string): (n: nat)
    ensures n <= |s|
    ensures forall k :: 0 <= k < n ==> IsSpace(s[k])
    ensures n < |s| ==> !IsSpace(s[n])
  {
    SkipSpace(s, 0)
  }

  /** `String.prototype.trim`: the slice of `s` left once the white space at
      both ends is dropped. It is empty exactly when `s` is blank, and
      otherwise starts and ends with a non-space. */
  function Trim(s: string): (r: string)
    ensures |r| <= |s|
    ensures LeadingSpace(s) + |r| <= |s|
    ensures r == s[LeadingSpace(s)..LeadingSpace(s) + |r|]
    ensures forall k :: LeadingSpace(s) + |r| <= k < |s| ==> IsSpace(s[k])
    ensures r == [] <==> IsBlank(s)
    ensures r != [] ==> !IsSpace(r[0]) && !IsSpace(r[|r| - 1])
  {
    var i := LeadingSpace(s);
    var e := BackSpace(s, i, |s|);
    assert i < e ==> s[i..e][0] == s[i] && s[i..e][e - i - 1] == s[e - 1];
    s[i..e]
  }

  // ---------------------------------------------------------------------
  // Case-insensitive matching.

  /** Lower-casing of one character, for the ASCII letters. */
  function LowerChar(c: char): char {
    if 'A' <= c <= 'Z' then (c as int + 32) as char else c
  }

  /** `toLowerCase()`, restricted to ASCII letters. */
  function ToLower(s: string): (r: string)
    ensures |r| == |s|
    ensures forall i :: 0 <= i < |s| ==> r[i] == LowerChar(s[i])
  {
    seq(|s|, i requires 0 <= i < |s| => LowerChar(s[i]))
  }

  /** `s.startsWith(p)`. */
  predicate StartsWith(s: string, p: string) {
    p <= s
  }

  /** `s.includes(p)`. */
  predicate Contains(s: string, p: string) {
    exists i :: 0 <= i <= |s| && p <= s[i..]
  }

  lemma PrefixIsContained(s: string, p: string)
    requires StartsWith(s, p)
    ensures Contains(s, p)
  {
    assert s[0..] == s;
  }

  /** Case-insensitive `includes`, as the search filters write it:
      `s.toLowerCase().includes(q.toLowerCase())`. */
  predicate ContainsIgnoringCase(s: string, q: string) {
    Contains(ToLower(s), ToLower(q))
  }

  predicate StartsWithIgnoringCase(s: string, q: string) {
    StartsWith(ToLower(s), ToLower(q))
  }

  // ---------------------------------------------------------------------
  // Decimal number strings.

  predicate IsDigit(c: char) {
    '0' <= c <= '9'
  }

  function DigitChar(d: nat): (c: char)
    requires d < 10
    ensures IsDigit(c)
  {
    ('0' as int + d) as char
  }

  /** `String(n)` for a natural number: decimal digits, no leading zero. */
  function NatToString(n: nat): (r: string)
    ensures r != []
    ensures forall i :: 0 <= i < |r| ==> IsDigit(r[i])
  {
    if n < 10 then [DigitChar(n)] else NatToString(n / 10) + [DigitChar(n % 10)]
  }

  /** `String(n)` for an integer (numbers in exponent notation are not modelled). */
  function IntToString(n: int): string {
    if n < 0 then "-" + NatToString(-n) else NatToString(n)
  }

  /** The value of a string of decimal digits. */
  function DigitsValue(s: string): nat
    requires forall i :: 0 <= i < |s| ==> IsDigit(s[i])
  {
    if s == [] then 0
    else
      assert IsDigit(s[|s| - 1]);
      10 * DigitsValue(s[..|s| - 1]) + (s[|s| - 1] as int - '0' as int)
  }

  /** `Number(s)` on a string of digits: the digit string of `n` reads back as `n`. */
  lemma {:induction false} NatToStringRoundTrip(n: nat)
    ensures DigitsValue(NatToString(n)) == n
  {
    if n >= 10 {
      var r := NatToString(n);
      assert r[..|r| - 1] == NatToString(n / 10);
      NatToStringRoundTrip(n / 10);
    }
  }

  lemma NatToStringInjective(a: nat, b: nat)
    requires NatToString(a) == NatToString(b)
    ensures a == b
  {
    NatToStringRoundTrip(a);
    NatToStringRoundTrip(b);
  }

  /** Position of the first occurrence of `c`. */
  function IndexOf(s: string, c: char): (r: Option<nat>)
    ensures r.Some? ==> r.value < |s| && s[r.value] == c && c !in s[..r.value]
    ensures r.None? ==> c !in s
  {
    if s == [] then None
    else if s[0] == c then Some(0)
    else match IndexOf(s[1..], c)
      case None => None
      case Some(k) => Some(k + 1)
  }

  /** Position of the last occurrence of `c`. */
  function LastIndexOf(s: string, c: char): (r: Option<nat>)
    ensures r.Some? ==> r.value < |s| && s[r.value] == c && c !in s[r.value + 1..]
    ensures r.None? ==> c !in s
  {
    if s == [] then None
    else if s[|s| - 1] == c then Some(|s| - 1)
    else
      assert s == s[..|s| - 1] + [s[|s| - 1]];
      LastIndexOf(s[..|s| - 1], c)
  }

  // ---------------------------------------------------------------------
  // Word count: `content.split(/\s+/).filter(w => w.length > 0).length`.

  /** `s.split(/\s+/)`: the pieces between maximal runs of white space (a
      leading or trailing run yields an empty piece), `cur` being the piece
      collected so far. */
  function SplitFrom(s: string, cur: string): (r: seq<string>)
    ensures r != []
    decreases |s|
  {
    if s == [] then [cur]
    else if IsSpace(s[0]) then [cur] + SplitFrom(s[SkipSpace(s, 1)..], "")
    else SplitFrom(s[1..], cur + [s[0]])
  }

  function SplitOnSpace(s: string): seq<string> {
    SplitFrom(s, "")
  }

  function IsWord(w: string): bool {
    |w| > 0
  }

  function WordCount(s: string): nat {
    Count(SplitOnSpace(s), IsWord)
  }

  /** Number of positions where a run of non-space characters starts, the
      previous character being white space when `afterSpace` holds. */
  function RunStarts(s: string, afterSpace: bool): nat {
    if s == [] then 0
    else (if afterSpace && !IsSpace(s[0]) then 1 else 0) + RunStarts(s[1..], IsSpace(s[0]))
  }

  /** Skipping white space after white space starts no run. */
  lemma {:induction false} RunStartsSkipSpace(s: string, i: nat)
    requires i <= |s|
    ensures RunStarts(s[i..], true) == RunStarts(s[SkipSpace(s, i)..], true)
    decreases |s| - i
  {
    if i < |s| && IsSpace(s[i]) {
      assert s[i..][1..] == s[i + 1..];
      RunStartsSkipSpace(s, i + 1);
    }
  }

  lemma {:induction false} SplitFromCount(s: string, cur: string)
    ensures Count(SplitFrom(s, cur), IsWord) == (if cur != [] then 1 else 0) + RunStarts(s, cur == [])
    decreases |s|
  {
    if s == [] {
    } else if IsSpace(s[0]) {
      var t := s[SkipSpace(s, 1)..];
      SplitFromCount(t, "");
      RunStartsSkipSpace(s, 1);
      FilterAppend([cur], SplitFrom(t, ""), IsWord);
    } else {
      SplitFromCount(s[1..], cur + [s[0]]);
    }
  }

  /** The word count is the number of maximal runs of non-space characters. */
  lemma WordCountIsRunCount(s: string)
    ensures WordCount(s) == RunStarts(s, true)
  {
    SplitFromCount(s, "");
  }

  lemma {:induction false} RunStartsBlank(s: string, afterSpace: bool)
    requires IsBlank(s)
    ensures RunStarts(s, afterSpace) == 0
  {
    if s != [] {
      RunStartsBlank(s[1..], true);
    }
  }

  /** A blank text has no words; the empty text in particular. */
  lemma WordCountBlank(s: string)
    requires IsBlank(s)
    ensures WordCount(s) == 0
  {
    WordCountIsRunCount(s);
    RunStartsBlank(s, true);
  }

  // ---------------------------------------------------------------------
  // Lexicographic order on strings by Unicode code point, standing for the
  // default `Array.prototype.sort` order, which compares UTF-16 code units.

  predicate LexLe(a: string, b: string) {
    a == [] || (b != [] && (a[0] < b[0] || (a[0] == b[0] && LexLe(a[1..], b[1..]))))
  }

  lemma {:induction false} LexLeTotal(a: string, b: string)
    ensures LexLe(a, b) || LexLe(b, a)
  {
    if a != [] && b != [] && a[0] == b[0] {
      LexLeTotal(a[1..], b[1..]);
    }
  }

  lemma {:induction false} LexLeTransitive(a: string, b: string, c: string)
    requires LexLe(a, b) && LexLe(b, c)
    ensures LexLe(a, c)
  {
    if a != [] && b != [] && c != [] && a[0] == b[0] && b[0] == c[0] {
      LexLeTransitive(a[1..], b[1..], c[1..]);
    }
  }

  lemma {:induction false} LexLeAntisymmetric(a: string, b: string)
    requires LexLe(a, b) && LexLe(b, a)
    ensures a == b
  {
    if a != [] && b != [] {
      LexLeAntisymmetric(a[1..], b[1..]);
      assert a == [a[0]] + a[1..] && b == [b[0]] + b[1..];
    }
  }

  lemma LexLeIsTotalPreorder()
    ensures TotalPreorder(LexLe)
  {
    forall a, b ensures LexLe(a, b) || LexLe(b, a) {
      LexLeTotal(a, b);
    }
    forall a, b, c | LexLe(a, b) && LexLe(b, c) ensures LexLe(a, c) {
      LexLeTransitive(a, b, c);
    }
  }
}
