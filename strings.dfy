/**
 * The Python string operations the scripts rely on, with Python's semantics:
 * `p in s`, `str.startswith`, `str.replace` (leftmost, non-overlapping),
 * `", ".join`, `str(int)` and the code-point ordering used by `sorted`.
 */
module Strings {

  /** `p` occurs in `s` at index `i`. */
  predicate MatchAt(s: string, p: string, i: nat) {
    i + |p| <= |s| && s[i..i + |p|] == p
  }

  predicate StartsWith(s: string, p: string) {
    MatchAt(s, p, 0)
  }

  lemma ConcatAssoc(a: string, b: string, c: string)
    ensures a + b + c == a + (b + c)
  {
  }

  /** Python's `p in s` on strings. */
  predicate Contains(s: string, p: string) {
    exists i :: 0 <= i <= |s| && MatchAt(s, p, i)
  }

  /** Python's `s.replace(pat, rep)` for a non-empty `pat`: scans left to right and
      replaces every occurrence that does not overlap one already replaced. */
  function ReplaceAll(s: string, pat: string, rep: string): string
    requires |pat| > 0
    decreases |s|
  {
    if |s| < |pat| then s
    else if s[..|pat|] == pat then rep + ReplaceAll(s[|pat|..], pat, rep)
    else [s[0]] + ReplaceAll(s[1..], pat, rep)
  }

  lemma MatchAtShift(s: string, p: string, i: nat)
    requires |s| > 0
    ensures MatchAt(s[1..], p, i) <==> MatchAt(s, p, i + 1)
  {
    if i + 1 + |p| <= |s| {
      assert s[i + 1..i + 1 + |p|] == s[1..][i..i + |p|];
    }
  }

  lemma ContainsInSuffix(s: string, p: string, k: nat)
    requires k <= |s| && Contains(s[k..], p)
    ensures Contains(s, p)
  {
    var i :| 0 <= i <= |s[k..]| && MatchAt(s[k..], p, i);
    assert s[k + i..k + i + |p|] == s[k..][i..i + |p|];
    assert MatchAt(s, p, k + i);
  }

  lemma ContainsInPrefix(s: string, p: string, k: nat)
    requires k <= |s| && Contains(s[..k], p)
    ensures Contains(s, p)
  {
    var i :| 0 <= i <= |s[..k]| && MatchAt(s[..k], p, i);
    assert s[i..i + |p|] == s[..k][i..i + |p|];
    assert MatchAt(s, p, i);
  }

  /** Replacing with a shorter text never lengthens a string, and shortens it once
      there is something to replace. */
  lemma {:induction false} ReplaceAllShortens(s: string, pat: string, rep: string)
    requires |rep| < |pat|
    ensures |ReplaceAll(s, pat, rep)| <= |s|
    ensures Contains(s, pat) ==> |ReplaceAll(s, pat, rep)| < |s|
    decreases |s|
  {
    if |s| >= |pat| {
      if s[..|pat|] == pat {
        ReplaceAllShortens(s[|pat|..], pat, rep);
      } else {
        ReplaceAllShortens(s[1..], pat, rep);
        if Contains(s, pat) {
          var i :| 0 <= i <= |s| && MatchAt(s, pat, i);
          assert i > 0;
          MatchAtShift(s, pat, i - 1);
          assert MatchAt(s[1..], pat, i - 1);
        }
      }
    }
  }

  /** A string without an occurrence of `pat` is left unchanged by the replacement. */
  lemma {:induction false} ReplaceAllWithoutMatch(s: string, pat: string, rep: string)
    requires |pat| > 0 && !Contains(s, pat)
    ensures ReplaceAll(s, pat, rep) == s
    decreases |s|
  {
    if |s| >= |pat| {
      assert !MatchAt(s, pat, 0);
      if Contains(s[1..], pat) {
        ContainsInSuffix(s, pat, 1);
      }
      ReplaceAllWithoutMatch(s[1..], pat, rep);
      assert s == [s[0]] + s[1..];
    }
  }

  /** An occurrence at the start is replaced, and a rest without occurrences is kept. */
  lemma ReplaceAllAtStart(pat: string, rest: string, rep: string)
    requires |pat| > 0 && !Contains(rest, pat)
    ensures ReplaceAll(pat + rest, pat, rep) == rep + rest
  {
    var t := pat + rest;
    assert t[..|pat|] == pat;
    assert t[|pat|..] == rest;
    ReplaceAllWithoutMatch(rest, pat, rep);
  }

  /** The first occurrence, after a prefix without any, is replaced, and a rest without
      occurrences is kept. */
  lemma ReplaceAllAfterPrefix(pre: string, pat: string, rest: string, rep: string)
    requires |pat| > 0
    requires forall i: nat :: i < |pre| ==> !MatchAt(pre + pat + rest, pat, i)
    requires !Contains(rest, pat)
    ensures ReplaceAll(pre + pat + rest, pat, rep) == pre + rep + rest
  {
    var s := pre + pat + rest;
    ReplaceAllCopiesPrefix(s, pat, rep, |pre|);
    assert s[..|pre|] == pre && s[|pre|..] == pat + rest;
    ReplaceAllAtStart(pat, rest, rep);
  }

  /** When no occurrence of `pat` starts before index `k`, the replacement copies the
      first `k` characters and continues on the rest. */
  lemma {:induction false} ReplaceAllCopiesPrefix(s: string, pat: string, rep: string, k: nat)
    requires |pat| > 0 && k <= |s|
    requires forall i: nat :: i < k ==> !MatchAt(s, pat, i)
    ensures ReplaceAll(s, pat, rep) == s[..k] + ReplaceAll(s[k..], pat, rep)
    decreases k
  {
    if k > 0 {
      if |s| < |pat| {
        assert s[..k] + s[k..] == s;
      } else {
        assert !MatchAt(s, pat, 0);
        var t := s[1..];
        assert ReplaceAll(s, pat, rep) == [s[0]] + ReplaceAll(t, pat, rep);
        forall i: nat | i < k - 1
          ensures !MatchAt(t, pat, i)
        {
          MatchAtShift(s, pat, i);
        }
        ReplaceAllCopiesPrefix(t, pat, rep, k - 1);
        assert t[k - 1..] == s[k..];
        var r := ReplaceAll(s[k..], pat, rep);
        calc {
          ReplaceAll(s, pat, rep);
          [s[0]] + (t[..k - 1] + r);
          ([s[0]] + t[..k - 1]) + r;
          { assert [s[0]] + t[..k - 1] == s[..k]; }
          s[..k] + r;
        }
      }
    }
  }

  /** Python's `sep.join(xs)`. */
  function Join(xs: seq<string>, sep: string): string
    decreases |xs|
  {
    if |xs| == 0 then ""
    else if |xs| == 1 then xs[0]
    else xs[0] + sep + Join(xs[1..], sep)
  }

  /** Joining one more item appends the separator and the item. */
  lemma {:induction false} JoinAppend(xs: seq<string>, x: string, sep: string)
    requires |xs| > 0
    ensures Join(xs + [x], sep) == Join(xs, sep) + sep + x
    decreases |xs|
  {
    if |xs| > 1 {
      assert (xs + [x])[1..] == xs[1..] + [x];
      JoinAppend(xs[1..], x, sep);
    }
  }

  /** Python's `s.split(sep)` for a non-empty `sep`. */
  function Split(s: string, sep: string): (r: seq<string>)
    requires |sep| > 0
    ensures |r| > 0
    decreases |s|
  {
    if |s| < |sep| then [s]
    else if s[..|sep|] == sep then [""] + Split(s[|sep|..], sep)
    else
      var rest := Split(s[1..], sep);
      [[s[0]] + rest[0]] + rest[1..]
  }

  /** The separator's first character does not reappear in it (true of `", "`), so two
      occurrences of it can never overlap. */
  predicate Unbordered(sep: string) {
    |sep| > 0 && forall k :: 0 < k < |sep| ==> sep[k] != sep[0]
  }

  lemma {:induction false} SplitWithoutMatch(s: string, sep: string)
    requires |sep| > 0 && !Contains(s, sep)
    ensures Split(s, sep) == [s]
    decreases |s|
  {
    if |s| >= |sep| {
      assert !MatchAt(s, sep, 0);
      if Contains(s[1..], sep) {
        ContainsInSuffix(s, sep, 1);
      }
      SplitWithoutMatch(s[1..], sep);
      assert [s[0]] + s[1..] == s;
    }
  }

  lemma {:induction false} SplitAfterItem(a: string, sep: string, rest: string)
    requires Unbordered(sep) && !Contains(a, sep)
    ensures Split(a + sep + rest, sep) == [a] + Split(rest, sep)
    decreases |a|
  {
    var s := a + sep + rest;
    if |a| == 0 {
      assert s[..|sep|] == sep;
      assert s[|sep|..] == rest;
    } else {
      assert s[..|sep|] != sep by {
        if |a| >= |sep| {
          assert a[0..|sep|] == s[..|sep|];
          assert !MatchAt(a, sep, 0);
        } else {
          assert s[..|sep|][|a|] == sep[0];
          assert sep[|a|] != sep[0];
        }
      }
      if Contains(a[1..], sep) {
        ContainsInSuffix(a, sep, 1);
      }
      assert s[1..] == a[1..] + sep + rest;
      SplitAfterItem(a[1..], sep, rest);
      assert [a[0]] + a[1..] == a;
    }
  }

  /** Splitting a joined list on its separator gives the list back, provided no item
      contains the separator. */
  lemma {:induction false} SplitJoin(xs: seq<string>, sep: string)
    requires Unbordered(sep) && |xs| > 0
    requires forall i :: 0 <= i < |xs| ==> !Contains(xs[i], sep)
    ensures Split(Join(xs, sep), sep) == xs
    decreases |xs|
  {
    if |xs| == 1 {
      SplitWithoutMatch(xs[0], sep);
    } else {
      SplitAfterItem(xs[0], sep, Join(xs[1..], sep));
      SplitJoin(xs[1..], sep);
      assert [xs[0]] + xs[1..] == xs;
    }
  }

  // Decimal rendering of integers, as Python's str(int).

  predicate IsDigit(c: char) {
    '0' <= c <= '9'
  }

  function DigitChar(d: nat): (c: char)
    requires d < 10
  {
    "0123456789"[d]
  }

  function DigitValue(c: char): nat
    requires IsDigit(c)
  {
    c as int - '0' as int
  }

  function NatToDecimal(n: nat): string
    decreases n
  {
    if n < 10 then [DigitChar(n)] else NatToDecimal(n / 10) + [DigitChar(n % 10)]
  }

  /** Python's `str(n)` for an int. */
  function IntToDecimal(n: int): string {
    if n < 0 then "-" + NatToDecimal(-n) else NatToDecimal(n)
  }

  predicate AllDigits(s: string) {
    forall i :: 0 <= i < |s| ==> IsDigit(s[i])
  }

  /** Reads a string of decimal digits back as a number (the partner of NatToDecimal). */
  function ParseNat(s: string): nat
    requires AllDigits(s)
    decreases |s|
  {
    if |s| == 0 then 0 else ParseNat(s[..|s| - 1]) * 10 + DigitValue(s[|s| - 1])
  }

  function ParseInt(s: string): int
    requires |s| > 0 && (s[0] == '-' ==> AllDigits(s[1..])) && (s[0] != '-' ==> AllDigits(s))
  {
    if s[0] == '-' then 0 - ParseNat(s[1..]) else ParseNat(s)
  }

  /** A natural number's decimal form is a non-empty digit string that reads back as it. */
  lemma {:induction false} NatToDecimalRoundTrip(n: nat)
    ensures |NatToDecimal(n)| > 0 && AllDigits(NatToDecimal(n))
    ensures ParseNat(NatToDecimal(n)) == n
    decreases n
  {
    var s := NatToDecimal(n);
    if n < 10 {
      assert DigitValue(DigitChar(n)) == n;
      assert s[..0] == [];
    } else {
      NatToDecimalRoundTrip(n / 10);
      assert DigitValue(DigitChar(n % 10)) == n % 10;
      assert s[..|s| - 1] == NatToDecimal(n / 10);
    }
  }

  /** `str(n)` carries a minus sign exactly when `n` is negative, and reads back as `n`. */
  lemma IntToDecimalRoundTrip(n: int)
    ensures ('-' in IntToDecimal(n)) <==> n < 0
    ensures n < 0 ==> IntToDecimal(n) == "-" + IntToDecimal(-n)
    ensures |IntToDecimal(n)| > 0
    ensures n < 0 ==> AllDigits(IntToDecimal(n)[1..])
    ensures n >= 0 ==> AllDigits(IntToDecimal(n)) && IntToDecimal(n)[0] != '-'
    ensures ParseInt(IntToDecimal(n)) == n
  {
    if n < 0 {
      NatToDecimalRoundTrip(-n);
      var d := NatToDecimal(-n);
      assert ("-" + d)[1..] == d;
      assert forall i :: 0 <= i < |d| ==> d[i] != '-';
    } else {
      NatToDecimalRoundTrip(n);
      var d := NatToDecimal(n);
      assert forall i :: 0 <= i < |d| ==> d[i] != '-';
    }
  }

  // Python's ordering of strings: lexicographic on code points.

  predicate LexLe(a: string, b: string)
    decreases |a|
  {
    |a| == 0 || (|b| > 0 && (a[0] < b[0] || (a[0] == b[0] && LexLe(a[1..], b[1..]))))
  }

  lemma {:induction false} LexLeTotal(a: string, b: string)
    ensures LexLe(a, b) || LexLe(b, a)
    decreases |a|
  {
    if |a| > 0 && |b| > 0 && a[0] == b[0] {
      LexLeTotal(a[1..], b[1..]);
    }
  }

  lemma {:induction false} LexLeTransitive(a: string, b: string, c: string)
    requires LexLe(a, b) && LexLe(b, c)
    ensures LexLe(a, c)
    decreases |a|
  {
    if |a| > 0 && a[0] == b[0] && b[0] == c[0] {
      LexLeTransitive(a[1..], b[1..], c[1..]);
    }
  }

  lemma {:induction false} LexLeAntisymmetric(a: string, b: string)
    requires LexLe(a, b) && LexLe(b, a)
    ensures a == b
    decreases |a|
  {
    if |a| > 0 {
      LexLeAntisymmetric(a[1..], b[1..]);
      assert a == [a[0]] + a[1..] && b == [b[0]] + b[1..];
    }
  }
}
