// Shared vocabulary: optional values, bytes, and the Java / JavaScript string
// operations that the server and the browser code rely on.
module Common {

  datatype Option<T> = None | Some(value: T)

  /** An operation's outcome: a value, or the error the caller is given. */
  datatype Result<T, E> = Ok(value: T) | Err(error: E)

  /** One byte of object content. */
  newtype byte = x: int | 0 <= x < 256

  const INT32_MIN: int := -0x8000_0000
  const INT32_MAX: int := 0x7FFF_FFFF

  /** Java's `(int)` narrowing of a whole-valued double: it saturates at the int bounds. */
  function SaturateInt32(x: int): (r: int)
    ensures INT32_MIN <= r <= INT32_MAX
    ensures INT32_MIN <= x <= INT32_MAX ==> r == x
    ensures x > INT32_MAX ==> r == INT32_MAX
    ensures x < INT32_MIN ==> r == INT32_MIN
  {
    if x > INT32_MAX then INT32_MAX else if x < INT32_MIN then INT32_MIN else x
  }

  /** Two's-complement wrap-around of Java `int` arithmetic. */
  function WrapInt32(x: int): (r: int)
    ensures INT32_MIN <= r <= INT32_MAX
    ensures (r - x) % 0x1_0000_0000 == 0
    ensures INT32_MIN <= x <= INT32_MAX ==> r == x
  {
    (x - INT32_MIN) % 0x1_0000_0000 + INT32_MIN
  }

  predicate StartsWith(s: string, p: string)
  {
    |p| <= |s| && s[..|p|] == p
  }

  predicate EndsWith(s: string, p: string)
  {
    |p| <= |s| && s[|s| - |p|..] == p
  }

  /**
   * A Unicode space separator (general category Zs): the characters that
   * both languages' whitespace sets start from.
   */
  predicate IsSpaceSeparator(c: char)
  {
    c == ' ' || c == '\U{00A0}' || c == '\U{1680}' || ('\U{2000}' <= c <= '\U{200A}')
    || c == '\U{202F}' || c == '\U{205F}' || c == '\U{3000}'
  }

  /**
   * Java `Character.isWhitespace`: the control characters TAB to CR and the
   * four separators U+001C..U+001F, the line and paragraph separators, and
   * every space separator except the non-breaking ones.
   */
  predicate JavaWhitespace(c: char)
  {
    ('\t' <= c <= '\r') || ('\U{001C}' <= c <= '\U{001F}')
    || c == '\U{2028}' || c == '\U{2029}'
    || (IsSpaceSeparator(c) && c != '\U{00A0}' && c != '\U{2007}' && c != '\U{202F}')
  }

  /**
   * The characters JavaScript's `String.prototype.trim` strips: TAB to CR,
   * every space separator (the non-breaking ones included), the line and
   * paragraph separators and the byte-order mark; not U+001C..U+001F.
   */
  predicate JsWhitespace(c: char)
  {
    ('\t' <= c <= '\r') || IsSpaceSeparator(c) || c == '\U{2028}' || c == '\U{2029}' || c == '\U{FEFF}'
  }

  /** Commons-lang `StringUtils.isBlank` for a non-null string. */
  predicate IsBlank(s: string)
  {
    forall i :: 0 <= i < |s| ==> JavaWhitespace(s[i])
  }

  /** `s.trim() === ''` in JavaScript. */
  predicate JsBlank(s: string)
  {
    forall i :: 0 <= i < |s| ==> JsWhitespace(s[i])
  }

  /** The two blank tests differ both ways: U+001C is blank only to Java, U+00A0 and U+FEFF only to JavaScript. */
  lemma BlankTestsDiffer()
    ensures IsBlank("\U{001C}") && !JsBlank("\U{001C}")
    ensures JsBlank("\U{00A0}") && !IsBlank("\U{00A0}")
    ensures JsBlank("\U{FEFF}") && !IsBlank("\U{FEFF}")
  {
    assert "\U{001C}"[0] == '\U{001C}';
    assert "\U{00A0}"[0] == '\U{00A0}';
    assert "\U{FEFF}"[0] == '\U{FEFF}';
  }

  /** `isBlank` for a reference that may be null. */
  predicate IsBlankOpt(s: Option<string>)
  {
    s.None? || IsBlank(s.value)
  }

  /** `!s || s.trim() === ''` for a value that may be null, undefined or empty. */
  predicate JsBlankOpt(s: Option<string>)
  {
    s.None? || JsBlank(s.value)
  }

  /** Java `String.lastIndexOf(char)`: -1 when absent. */
  function LastIndexOf(s: string, c: char): (r: int)
    ensures -1 <= r < |s|
    ensures r == -1 <==> c !in s
    ensures r >= 0 ==> s[r] == c && forall j :: r < j < |s| ==> s[j] != c
  {
    if |s| == 0 then -1
    else if s[|s| - 1] == c then |s| - 1
    else LastIndexOf(s[..|s| - 1], c)
  }

  /** What follows the last `c` of `s`: all of `s` when it has none. */
  function AfterLast(s: string, c: char): (r: string)
    ensures c !in r
  {
    var i := LastIndexOf(s, c);
    assert forall j :: i < j < |s| ==> s[i + 1..][j - i - 1] == s[j];
    s[i + 1..]
  }

  /** Whatever `s` lacks, the text after its last `c` lacks too. */
  lemma AfterLastLacks(s: string, c: char, x: char)
    requires x !in s
    ensures x !in AfterLast(s, c)
  {
    var i := LastIndexOf(s, c);
    assert forall j :: i < j < |s| ==> s[i + 1..][j - i - 1] == s[j];
  }

  /** A non-empty sequence is its front followed by its last element. */
  lemma FrontLast<T>(s: seq<T>)
    requires |s| > 0
    ensures s[..|s| - 1] + [s[|s| - 1]] == s
  {
  }

  /** A non-empty sequence is its first element followed by the rest. */
  lemma HeadRest<T>(s: seq<T>)
    requires |s| > 0
    ensures [s[0]] + s[1..] == s
  {
  }

  /** The two halves of a concatenation, cut back out. */
  lemma ConcatSlices<T>(a: seq<T>, b: seq<T>)
    ensures (a + b)[..|a|] == a && (a + b)[|a|..] == b
  {
  }

  /** The last `c` of a + [c] + b, when b has none, is the one after a. */
  lemma {:induction false} LastIndexOfSplit(a: string, c: char, b: string)
    requires c !in b
    ensures LastIndexOf(a + [c] + b, c) == |a|
    ensures (a + [c] + b)[|a| + 1..] == b
  {
    var s := a + [c] + b;
    if |b| > 0 {
      var b' := b[..|b| - 1];
      assert b[|b| - 1] in b;
      assert s[..|s| - 1] == a + [c] + b';
      assert forall x :: x in b' ==> x in b;
      LastIndexOfSplit(a, c, b');
    }
  }

  /** Java `String.indexOf(char)`: the first index of `c`, -1 when absent. */
  function IndexOf(s: string, c: char): (r: int)
    ensures -1 <= r < |s|
    ensures r == -1 <==> c !in s
    ensures r >= 0 ==> s[r] == c && c !in s[..r]
  {
    if |s| == 0 then -1
    else if s[0] == c then 0
    else
      var r := IndexOf(s[1..], c);
      if r == -1 then -1
      else
        assert s[..r + 1] == [s[0]] + s[1..][..r];
        r + 1
  }

  /**
   * Every piece of `s` between occurrences of `c`, empty pieces included
   * (JavaScript `split` on a one-character separator).
   */
  function SplitOn(s: string, c: char): (parts: seq<string>)
    ensures |parts| >= 1
    ensures forall k :: 0 <= k < |parts| ==> c !in parts[k]
    decreases |s|
  {
    var i := LastIndexOf(s, c);
    if i < 0 then [s]
    else
      assert forall j :: i < j < |s| ==> s[i + 1..][j - i - 1] == s[j];
      SplitOn(s[..i], c) + [s[i + 1..]]
  }

  /** `s` without its trailing run of `c`. */
  function TrimTrailing(s: string, c: char): (t: string)
    ensures |t| <= |s| && t == s[..|t|]
    ensures |t| > 0 ==> t[|t| - 1] != c
    ensures forall j :: |t| <= j < |s| ==> s[j] == c
  {
    if |s| > 0 && s[|s| - 1] == c then TrimTrailing(s[..|s| - 1], c) else s
  }

  /** True when `pat` occurs in `s` starting at index `i`. */
  predicate OccursAt(s: string, pat: string, i: int)
  {
    0 <= i && i + |pat| <= |s| && s[i..i + |pat|] == pat
  }

  /** JavaScript `String.prototype.includes` / Java `String.contains`. */
  predicate Contains(s: string, pat: string)
  {
    exists i | 0 <= i <= |s| :: OccursAt(s, pat, i)
  }

  /**
   * Java `String.replace(CharSequence, CharSequence)`: scans left to right and
   * replaces each non-overlapping occurrence; the inserted text is not rescanned.
   */
  function ReplaceAll(s: string, pat: string, rep: string): (r: string)
    requires |pat| > 0
    decreases |s|
  {
    if |s| < |pat| then s
    else if s[..|pat|] == pat then rep + ReplaceAll(s[|pat|..], pat, rep)
    else [s[0]] + ReplaceAll(s[1..], pat, rep)
  }

  /** Text with no occurrence of the pattern comes back unchanged. */
  lemma {:induction false} ReplaceAllAbsent(s: string, pat: string, rep: string)
    requires |pat| > 0
    requires !Contains(s, pat)
    ensures ReplaceAll(s, pat, rep) == s
    decreases |s|
  {
    if |s| >= |pat| {
      assert !OccursAt(s, pat, 0);
      assert s[..|pat|] != pat;
      forall i | OccursAt(s[1..], pat, i)
        ensures OccursAt(s, pat, i + 1)
      {
        assert s[1..][i..i + |pat|] == s[i + 1..i + 1 + |pat|];
      }
      ReplaceAllAbsent(s[1..], pat, rep);
    }
  }

  /** Text free of the pattern's first character passes through untouched. */
  lemma {:induction false} ReplaceAllSkips(a: string, rest: string, pat: string, rep: string)
    requires |pat| > 0 && pat[0] !in a
    ensures ReplaceAll(a + rest, pat, rep) == a + ReplaceAll(rest, pat, rep)
    decreases |a|
  {
    if |a| > 0 {
      var s := a + rest;
      if |s| >= |pat| {
        assert s[..|pat|][0] == a[0] != pat[0];
        assert s[1..] == a[1..] + rest;
        ReplaceAllSkips(a[1..], rest, pat, rep);
        assert a == [a[0]] + a[1..];
      } else {
        assert |rest| < |pat|;
      }
    } else {
      assert a + rest == rest;
    }
  }

  /** Joins `parts` with `sep` between consecutive parts. */
  function Join(parts: seq<string>, sep: string): string
  {
    if |parts| == 0 then ""
    else if |parts| == 1 then parts[0]
    else parts[0] + sep + Join(parts[1..], sep)
  }

  /**
   * A head in which no occurrence of the pattern starts passes through
   * untouched, whatever follows it.
   */
  lemma {:induction false} ReplaceAllPrefixFree(a: string, rest: string, pat: string, rep: string)
    requires |pat| > 0
    requires forall i :: 0 <= i < |a| ==> !OccursAt(a + rest, pat, i)
    ensures ReplaceAll(a + rest, pat, rep) == a + ReplaceAll(rest, pat, rep)
    decreases |a|
  {
    var s := a + rest;
    if |a| == 0 {
      assert s == rest;
    } else if |s| < |pat| {
      assert ReplaceAll(rest, pat, rep) == rest;
    } else {
      assert !OccursAt(s, pat, 0);
      assert s[0..|pat|] == s[..|pat|];
      assert s[1..] == a[1..] + rest;
      forall i | 0 <= i < |a[1..]|
        ensures !OccursAt(a[1..] + rest, pat, i)
      {
        assert !OccursAt(s, pat, i + 1);
        if i + |pat| <= |s[1..]| {
          assert s[1..][i..i + |pat|] == s[i + 1..i + 1 + |pat|];
        }
      }
      ReplaceAllPrefixFree(a[1..], rest, pat, rep);
      assert a == [a[0]] + a[1..];
    }
  }

  /**
   * When some character of the pattern is neither in `a` nor earlier in the
   * pattern, no occurrence can start inside `a`, even one running into a
   * following copy of the pattern.
   */
  lemma MissingCharNoOccurrence(a: string, pat: string, j: int)
    requires 0 <= j < |pat| && pat[j] !in a && pat[j] !in pat[..j]
    ensures forall i :: 0 <= i < |a| ==> !OccursAt(a + pat, pat, i)
  {
    forall i | 0 <= i < |a|
      ensures !OccursAt(a + pat, pat, i)
    {
      var s := a + pat;
      if i + |pat| <= |s| {
        var c := s[i + j];
        if i + j < |a| {
          assert c == a[i + j];
        } else {
          assert c == pat[..j][i + j - |a|];
        }
        assert s[i..i + |pat|][j] == c != pat[j];
      }
    }
  }

  /**
   * Parts joined by the pattern, none of which starts an occurrence of the
   * pattern (not even one running into the next copy of it), get the
   * replacement at exactly the joins.
   */
  lemma {:induction false} ReplaceAllJoin(parts: seq<string>, pat: string, rep: string)
    requires |pat| > 0
    requires forall k, i :: 0 <= k < |parts| && 0 <= i < |parts[k]| ==> !OccursAt(parts[k] + pat, pat, i)
    ensures ReplaceAll(Join(parts, pat), pat, rep) == Join(parts, rep)
  {
    if |parts| == 1 {
      var p := parts[0];
      forall i | 0 <= i < |p|
        ensures !OccursAt(p + "", pat, i)
      {
        assert !OccursAt(p + pat, pat, i);
        if i + |pat| <= |p| {
          assert (p + pat)[i..i + |pat|] == p[i..i + |pat|];
        }
      }
      ReplaceAllPrefixFree(p, "", pat, rep);
      assert p + "" == p;
    } else if |parts| > 1 {
      var p := parts[0];
      var tail := Join(parts[1..], pat);
      assert Join(parts, pat) == p + (pat + tail);
      forall i | 0 <= i < |p|
        ensures !OccursAt(p + (pat + tail), pat, i)
      {
        assert !OccursAt(p + pat, pat, i);
        if i + |pat| <= |p| + |pat| {
          assert (p + (pat + tail))[i..i + |pat|] == (p + pat)[i..i + |pat|];
        }
      }
      ReplaceAllPrefixFree(p, pat + tail, pat, rep);
      assert (pat + tail)[..|pat|] == pat;
      assert (pat + tail)[|pat|..] == tail;
      forall k, i | 0 <= k < |parts[1..]| && 0 <= i < |parts[1..][k]|
        ensures !OccursAt(parts[1..][k] + pat, pat, i)
      {
        assert parts[1..][k] == parts[k + 1];
      }
      ReplaceAllJoin(parts[1..], pat, rep);
    }
  }

  predicate IsDigit(c: char)
  {
    '0' <= c <= '9'
  }

  function DigitChar(d: nat): (c: char)
    requires d < 10
    ensures IsDigit(c)
  {
    ['0', '1', '2', '3', '4', '5', '6', '7', '8', '9'][d]
  }

  function DigitValue(c: char): (d: nat)
    requires IsDigit(c)
    ensures d < 10 && DigitChar(d) == c
  {
    (c as int - '0' as int)
  }

  /** Decimal rendering of a natural number, as Java's `String.valueOf(int)` for n >= 0. */
  function NatToString(n: nat): (s: string)
    ensures |s| > 0
    ensures forall i :: 0 <= i < |s| ==> IsDigit(s[i])
  {
    if n < 10 then [DigitChar(n)] else NatToString(n / 10) + [DigitChar(n % 10)]
  }

  /** Value of a non-empty string of decimal digits. */
  function DigitsValue(s: string): nat
    requires forall i :: 0 <= i < |s| ==> IsDigit(s[i])
  {
    if |s| == 0 then 0 else DigitsValue(s[..|s| - 1]) * 10 + DigitValue(s[|s| - 1])
  }

  lemma {:induction false} DigitsValueOfNatToString(n: nat)
    ensures DigitsValue(NatToString(n)) == n
  {
    var s := NatToString(n);
    if n >= 10 {
      DigitsValueOfNatToString(n / 10);
      assert s[..|s| - 1] == NatToString(n / 10);
    }
  }

  /**
   * Java `Integer.parseInt` over ASCII: an optional '+' or '-' sign, at least
   * one decimal digit, and a value within the int range; anything else is a
   * NumberFormatException, here None.
   */
  function ParseInt(s: string): (r: Option<int>)
    ensures r.Some? ==> INT32_MIN <= r.value <= INT32_MAX
  {
    var neg := |s| > 0 && s[0] == '-';
    var body := if |s| > 0 && (s[0] == '-' || s[0] == '+') then s[1..] else s;
    if |body| == 0 || !(forall i :: 0 <= i < |body| ==> IsDigit(body[i])) then None
    else
      var v: int := if neg then 0 - DigitsValue(body) as int else DigitsValue(body);
      if INT32_MIN <= v <= INT32_MAX then Some(v) else None
  }

  /** An unsigned digit string within the int range parses to its value. */
  lemma ParseIntOfDigits(s: string)
    requires |s| > 0 && forall i :: 0 <= i < |s| ==> IsDigit(s[i])
    requires DigitsValue(s) <= INT32_MAX
    ensures ParseInt(s) == Some(DigitsValue(s))
  {
    assert IsDigit(s[0]);
  }

  /** Every int-range natural parses back from its decimal text. */
  lemma ParseIntOfNatToString(n: nat)
    requires n <= INT32_MAX
    ensures ParseInt(NatToString(n)) == Some(n)
  {
    DigitsValueOfNatToString(n);
    assert NatToString(n)[0] != '-' && NatToString(n)[0] != '+';
  }

  /** The integers 0 .. n-1. */
  function Range(n: int): (r: set<int>)
    ensures forall i :: i in r <==> 0 <= i < n
  {
    if n <= 0 then {} else Range(n - 1) + {n - 1}
  }

  lemma {:induction false} RangeCardinality(n: nat)
    ensures |Range(n)| == n
  {
    if n > 0 {
      RangeCardinality(n - 1);
      var r := Range(n - 1);
      assert n - 1 !in r;
      assert |r + {n - 1}| == |r| + 1;
    }
  }

  predicate Distinct<T(==)>(s: seq<T>)
  {
    forall i, j :: 0 <= i < j < |s| ==> s[i] != s[j]
  }

  function ToSet<T>(s: seq<T>): set<T>
  {
    set x | x in s
  }

  lemma {:induction false} DistinctCardinality<T>(s: seq<T>)
    requires Distinct(s)
    ensures |ToSet(s)| == |s|
  {
    if |s| > 0 {
      var n := |s| - 1;
      DistinctCardinality(s[..n]);
      assert s == s[..n] + [s[n]];
      assert ToSet(s) == ToSet(s[..n]) + {s[n]};
      assert ToSet(s[..n]) * {s[n]} == {};
    }
  }

  lemma SubsetCardinality(a: set<int>, b: set<int>)
    requires a <= b
    ensures |a| <= |b|
  {
    assert b == a + (b - a);
    assert a * (b - a) == {};
  }

  /**
   * Pigeonhole over indices: a set of indices drawn from 0 .. n-1 has n
   * elements exactly when it is all of them.
   */
  lemma FullRange(s: set<int>, n: nat)
    requires forall i :: i in s ==> 0 <= i < n
    ensures |s| >= n <==> s == Range(n)
    ensures |s| <= n
  {
    RangeCardinality(n);
    SubsetCardinality(s, Range(n));
    if s != Range(n) {
      var x :| x in Range(n) && x !in s;
      SubsetCardinality(s, Range(n) - {x});
    }
  }

  /**
   * For distinct indices drawn from 0 .. n-1, counting to n is the same as
   * holding every index.
   */
  lemma CountIffCovered(s: seq<int>, n: nat)
    requires Distinct(s)
    requires forall j :: 0 <= j < |s| ==> 0 <= s[j] < n
    ensures |s| >= n <==> forall i :: 0 <= i < n ==> i in s
  {
    var t := ToSet(s);
    DistinctCardinality(s);
    FullRange(t, n);
    if forall i :: 0 <= i < n ==> i in s {
      assert Range(n) <= t;
      assert t == Range(n);
    }
    if |s| >= n {
      forall i | 0 <= i < n
        ensures i in s
      {
        assert i in Range(n);
      }
    }
  }
}
