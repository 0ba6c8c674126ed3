/** The string primitives of Python that the pipeline relies on: str.isspace, str.strip,
    str(n) for a non-negative int, and str.join. */
module Text {

  /** Python's str.isspace() on one character; it is also the class `\s` matches in a str regex. */
  predicate IsSpace(c: char) {
    c in WHITESPACE
  }

  const WHITESPACE: set<char> := {
    ' ', '\t', '\n', '\U{b}', '\U{c}', '\r', '\U{1c}', '\U{1d}', '\U{1e}', '\U{1f}',
    '\U{85}', '\U{a0}', '\U{1680}', '\U{2000}', '\U{2001}', '\U{2002}', '\U{2003}', '\U{2004}',
    '\U{2005}', '\U{2006}', '\U{2007}', '\U{2008}', '\U{2009}', '\U{200a}', '\U{2028}', '\U{2029}',
    '\U{202f}', '\U{205f}', '\U{3000}'}

  /** Every character is whitespace (the empty string included). */
  predicate IsBlank(s: string) {
    forall i :: 0 <= i < |s| ==> IsSpace(s[i])
  }

  /** Neither end of the string is whitespace. */
  predicate IsTrimmed(s: string) {
    s != [] ==> !IsSpace(s[0]) && !IsSpace(s[|s| - 1])
  }

  /** The length of the longest whitespace prefix. */
  function LeadingSpaces(s: string): (n: nat)
    ensures n <= |s|
    ensures IsBlank(s[..n])
    ensures n < |s| ==> !IsSpace(s[n])
  {
    if s == [] || !IsSpace(s[0]) then 0
    else
      var n' := LeadingSpaces(s[1..]);
      assert forall i :: 1 <= i < 1 + n' ==> s[i] == s[1..][..n'][i - 1];
      1 + n'
  }

  /** The length of the longest whitespace suffix. */
  function TrailingSpaces(s: string): (n: nat)
    ensures n <= |s|
    ensures IsBlank(s[|s| - n..])
    ensures n < |s| ==> !IsSpace(s[|s| - n - 1])
  {
    if s == [] || !IsSpace(s[|s| - 1]) then 0
    else
      var t := s[..|s| - 1];
      var n' := TrailingSpaces(t);
      assert s[|s| - 1 - n'..] == t[|t| - n'..] + [s[|s| - 1]];
      1 + n'
  }

  /** Python's str.strip() with no argument: the string with its leading and trailing
      whitespace removed. The result is the unique trimmed middle part of `s`. */
  function Strip(s: string): (r: string)
    ensures |r| <= |s|
    ensures IsTrimmed(r)
    ensures r == [] <==> IsBlank(s)
  {
    MiddleLayout(s);
    MiddleTrimmed(s);
    MiddleEmpty(s);
    Middle(s)
  }

  /** Where Strip cuts: the result is s[a..a + |r|] for the length a of the whitespace prefix,
      and all of s before and after it is whitespace. */
  lemma StripLayout(s: string)
    ensures LeadingSpaces(s) + |Strip(s)| <= |s|
    ensures Strip(s) == s[LeadingSpaces(s)..LeadingSpaces(s) + |Strip(s)|]
    ensures IsBlank(s[..LeadingSpaces(s)]) && IsBlank(s[LeadingSpaces(s) + |Strip(s)|..])
  {
    MiddleLayout(s);
  }

  /** What is left after dropping the leading, then the trailing whitespace. */
  function Middle(s: string): string {
    var t := s[LeadingSpaces(s)..];
    t[..|t| - TrailingSpaces(t)]
  }

  lemma MiddleLayout(s: string)
    ensures LeadingSpaces(s) + |Middle(s)| <= |s|
    ensures Middle(s) == s[LeadingSpaces(s)..LeadingSpaces(s) + |Middle(s)|]
    ensures IsBlank(s[LeadingSpaces(s) + |Middle(s)|..])
  {
    var a := LeadingSpaces(s);
    CutBothEnds(s, a, TrailingSpaces(s[a..]));
  }

  /** Dropping a characters in front and then b at the back of s leaves s[a..|s| - b], and
      what was dropped at the back is s[|s| - b..]. */
  lemma CutBothEnds(s: string, a: nat, b: nat)
    requires a <= |s| && b <= |s| - a && IsBlank(s[a..][|s| - a - b..])
    ensures var r := s[a..][..|s| - a - b];
      a + |r| <= |s| && r == s[a..a + |r|] && IsBlank(s[a + |r|..])
  {
    var m := |s| - a - b;
    SliceOfSuffix(s, a, m);
  }

  /** Slicing a suffix s[a..] at m is slicing s at a + m. */
  lemma SliceOfSuffix(s: string, a: nat, m: nat)
    requires a + m <= |s|
    ensures s[a..][..m] == s[a..a + m] && s[a..][m..] == s[a + m..]
  {
  }

  lemma MiddleTrimmed(s: string)
    ensures IsTrimmed(Middle(s))
  {
    var r := Middle(s);
    var t := s[LeadingSpaces(s)..];
    var m := |t| - TrailingSpaces(t);
    if r != [] {
      assert r[0] == t[0];
      assert r[m - 1] == t[m - 1];
    }
  }

  lemma MiddleEmpty(s: string)
    ensures Middle(s) == [] <==> IsBlank(s)
  {
    var a := LeadingSpaces(s);
    if a < |s| {
      MiddleNonEmpty(s);
      assert !IsSpace(s[a]);
    } else {
      assert s[..a] == s;
      assert s[a..] == [];
    }
  }

  /** When s has a non-whitespace character, so does Middle(s): the first one is kept. */
  lemma MiddleNonEmpty(s: string)
    requires LeadingSpaces(s) < |s|
    ensures Middle(s) != []
  {
    var a := LeadingSpaces(s);
    var t := s[a..];
    var b := TrailingSpaces(t);
    BlankSuffix(t, b);
    assert t[0] == s[a];
    assert |Middle(s)| == |t| - b;
  }

  /** Every character of a whitespace suffix of t is whitespace, counted in t's positions. */
  lemma BlankSuffix(t: string, b: nat)
    requires b <= |t| && IsBlank(t[|t| - b..])
    ensures forall i :: |t| - b <= i < |t| ==> IsSpace(t[i])
  {
    forall i | |t| - b <= i < |t|
      ensures IsSpace(t[i])
    {
      assert t[i] == t[|t| - b..][i - (|t| - b)];
    }
  }

  /** A stripped string is left unchanged by Strip. */
  lemma StripTrimmed(s: string)
    requires s != [] && IsTrimmed(s)
    ensures Strip(s) == s
  {
    StripLayout(s);
    assert LeadingSpaces(s) == 0;
  }

  predicate StartsWith(s: string, prefix: string) {
    |prefix| <= |s| && s[..|prefix|] == prefix
  }

  predicate EndsWith(s: string, suffix: string) {
    |suffix| <= |s| && s[|s| - |suffix|..] == suffix
  }

  lemma ConcatEnds(a: string, b: string)
    ensures StartsWith(a + b, a) && EndsWith(a + b, b)
  {
  }

  lemma StartsWithTrans(s: string, t: string, u: string)
    requires StartsWith(s, t) && StartsWith(t, u)
    ensures StartsWith(s, u)
  {
    assert s[..|u|] == t[..|u|];
  }

  lemma EndsWithTrans(s: string, t: string, u: string)
    requires EndsWith(s, t) && EndsWith(t, u)
    ensures EndsWith(s, u)
  {
    assert s[|s| - |u|..] == t[|t| - |u|..];
  }

  lemma EndsWithAppend(s: string, t: string, u: string)
    requires EndsWith(s, t)
    ensures EndsWith(s + u, t + u)
  {
    assert (s + u)[|s + u| - |t + u|..] == s[|s| - |t|..] + u;
  }

  predicate IsDigit(c: char) {
    '0' <= c <= '9'
  }

  predicate IsDigits(s: string) {
    forall i :: 0 <= i < |s| ==> IsDigit(s[i])
  }

  function DigitChar(d: nat): (c: char)
    requires d < 10
    ensures IsDigit(c) && c as int - '0' as int == d
  {
    (48 + d) as char
  }

  /** Python's str(n) for an int n >= 0: decimal digits, most significant first, no leading zero. */
  function Decimal(n: nat): (s: string)
    ensures |s| >= 1 && IsDigits(s)
    ensures n < 10 <==> |s| == 1
    decreases n
  {
    if n < 10 then [DigitChar(n)] else Decimal(n / 10) + [DigitChar(n % 10)]
  }

  /** A positive number's spelling does not start with a zero. */
  lemma {:induction false} NoLeadingZero(n: nat)
    ensures n > 0 ==> Decimal(n)[0] != '0'
    decreases n
  {
    if n >= 10 {
      NoLeadingZero(n / 10);
    }
  }

  /** The number a string of decimal digits denotes (Python's int(s) on such a string). */
  function DecimalValue(s: string): nat
    requires IsDigits(s)
  {
    if s == [] then 0 else 10 * DecimalValue(s[..|s| - 1]) + (s[|s| - 1] as int - '0' as int)
  }

  /** Reading back what Decimal writes gives the number again. */
  lemma {:induction false} DecimalRoundTrip(n: nat)
    ensures DecimalValue(Decimal(n)) == n
    decreases n
  {
    var s := Decimal(n);
    if n < 10 {
      assert s[..|s| - 1] == [];
    } else {
      DecimalRoundTrip(n / 10);
      assert s[..|s| - 1] == Decimal(n / 10);
    }
  }

  /** Distinct numbers have distinct decimal spellings. */
  lemma DecimalInjective(i: nat, j: nat)
    ensures Decimal(i) == Decimal(j) ==> i == j
  {
    DecimalRoundTrip(i);
    DecimalRoundTrip(j);
  }

  /** Python's sep.join(parts). */
  function Join(sep: string, parts: seq<string>): string
    decreases |parts|
  {
    if parts == [] then ""
    else if |parts| == 1 then parts[0]
    else parts[0] + sep + Join(sep, parts[1..])
  }

  /** Where part i starts in Join(sep, parts): the lengths of the earlier parts, each followed by a separator. */
  function JoinOffset(sep: string, parts: seq<string>, i: nat): nat
    requires i <= |parts|
    decreases i
  {
    if i == 0 then 0 else JoinOffset(sep, parts, i - 1) + |parts[i - 1]| + |sep|
  }

  /** Join lays the parts out in order: part i sits at JoinOffset, and the string ends right
      after the last part. */
  lemma {:induction false} JoinLayout(sep: string, parts: seq<string>, i: nat)
    requires i < |parts|
    ensures JoinOffset(sep, parts, i) + |parts[i]| <= |Join(sep, parts)|
    ensures Join(sep, parts)[JoinOffset(sep, parts, i)..JoinOffset(sep, parts, i) + |parts[i]|] == parts[i]
    ensures i + 1 == |parts| ==> JoinOffset(sep, parts, i) + |parts[i]| == |Join(sep, parts)|
    decreases i
  {
    if |parts| > 1 {
      var tail := parts[1..];
      var head := parts[0] + sep;
      assert Join(sep, parts) == head + Join(sep, tail);
      if i > 0 {
        JoinLayout(sep, tail, i - 1);
        JoinOffsetShift(sep, parts, i);
        var lo := JoinOffset(sep, tail, i - 1);
        assert tail[i - 1] == parts[i];
        SliceAfterPrefix(head, Join(sep, tail), lo, lo + |parts[i]|);
      }
    }
  }

  /** Between part i and part i + 1, Join puts the separator. */
  lemma {:induction false} JoinSeparates(sep: string, parts: seq<string>, i: nat)
    requires i + 1 < |parts|
    ensures JoinOffset(sep, parts, i) + |parts[i]| + |sep| == JoinOffset(sep, parts, i + 1) <= |Join(sep, parts)|
    ensures Join(sep, parts)[JoinOffset(sep, parts, i) + |parts[i]|..JoinOffset(sep, parts, i + 1)] == sep
    decreases i
  {
    var tail := parts[1..];
    var head := parts[0] + sep;
    assert Join(sep, parts) == head + Join(sep, tail);
    if i > 0 {
      JoinSeparates(sep, tail, i - 1);
      JoinOffsetShift(sep, parts, i);
      JoinOffsetShift(sep, parts, i + 1);
      assert tail[i - 1] == parts[i];
      var lo := JoinOffset(sep, tail, i - 1) + |parts[i]|;
      SliceAfterPrefix(head, Join(sep, tail), lo, lo + |sep|);
    }
  }

  /** A slice past a prefix is a slice of what follows the prefix. */
  lemma SliceAfterPrefix(a: string, b: string, lo: nat, hi: nat)
    requires lo <= hi <= |b|
    ensures (a + b)[|a| + lo..|a| + hi] == b[lo..hi]
  {
  }

  /** Offsets in parts[1..] are those in parts, less the first part and its separator. */
  lemma {:induction false} JoinOffsetShift(sep: string, parts: seq<string>, i: nat)
    requires 0 < i <= |parts|
    ensures JoinOffset(sep, parts, i) == |parts[0]| + |sep| + JoinOffset(sep, parts[1..], i - 1)
    decreases i
  {
    if i > 1 {
      JoinOffsetShift(sep, parts, i - 1);
    }
  }
}
