/** The Python `str` operations the application uses, on strings as sequences
    of Unicode scalar values: `replace`, `strip`, the `in` substring test and
    `str(n)` for a non-negative integer. */
module PyStr {
  import opened Lists

  /** `c.isspace()`: the characters `str.strip()` trims when called without arguments. */
  predicate IsSpace(c: char)
  {
    || c == ' '
    || ('\t' <= c <= '\r')
    || ('\U{1c}' <= c <= '\U{1f}')
    || c == '\U{85}' || c == '\U{a0}' || c == '\U{1680}'
    || ('\U{2000}' <= c <= '\U{200a}')
    || c == '\U{2028}' || c == '\U{2029}' || c == '\U{202f}' || c == '\U{205f}' || c == '\U{3000}'
  }

  /** `pat` occurs in `s` starting at index `i`. */
  predicate OccursAt(s: string, pat: string, i: nat)
  {
    i + |pat| <= |s| && s[i..i + |pat|] == pat
  }

  /** `pat in s`. */
  predicate Contains(s: string, pat: string)
  {
    exists i :: 0 <= i <= |s| && OccursAt(s, pat, i)
  }

  /** `s.replace(pat, repl)`: every leftmost, non-overlapping occurrence of `pat`
      is replaced by `repl`, scanning left to right. An empty `pat` matches
      before every character and at the end. */
  function Replace(s: string, pat: string, repl: string): string
    decreases |s|
  {
    if |pat| == 0 then
      if s == [] then repl else repl + [s[0]] + Replace(s[1..], pat, repl)
    else if |s| < |pat| then s
    else if s[..|pat|] == pat then repl + Replace(s[|pat|..], pat, repl)
    else [s[0]] + Replace(s[1..], pat, repl)
  }

  /** Deleting a pattern only ever removes characters: what remains is an
      order-preserving subsequence of the input. */
  lemma {:induction false} DeleteIsSubsequence(s: string, pat: string)
    ensures IsSubsequence(Replace(s, pat, ""), s)
    decreases |s|
  {
    var r := Replace(s, pat, "");
    if |pat| == 0 {
      if s != [] {
        DeleteIsSubsequence(s[1..], pat);
        assert r == [s[0]] + Replace(s[1..], pat, "");
        assert r[1..] == Replace(s[1..], pat, "");
      }
    } else if |s| < |pat| {
      SubsequenceRefl(s);
    } else if s[..|pat|] == pat {
      DeleteIsSubsequence(s[|pat|..], pat);
      assert r == Replace(s[|pat|..], pat, "");
      SubsequenceOfSuffix(r, s, |pat|);
    } else {
      DeleteIsSubsequence(s[1..], pat);
      assert r[1..] == Replace(s[1..], pat, "");
    }
  }

  /** An occurrence in `rest` is an occurrence one position later in `[c] + rest`, and back. */
  lemma OccursAtShift(c: char, rest: string, pat: string)
    ensures forall i :: 0 <= i <= |rest| ==> (OccursAt([c] + rest, pat, i + 1) <==> OccursAt(rest, pat, i))
    ensures forall i :: 1 <= i <= |rest| + 1 ==> (OccursAt([c] + rest, pat, i) <==> OccursAt(rest, pat, i - 1))
  {
    forall i | 0 <= i <= |rest|
      ensures OccursAt([c] + rest, pat, i + 1) <==> OccursAt(rest, pat, i)
    {
      if i + |pat| <= |rest| {
        assert ([c] + rest)[i + 1..i + 1 + |pat|] == rest[i..i + |pat|];
      }
    }
    forall i | 1 <= i <= |rest| + 1
      ensures OccursAt([c] + rest, pat, i) <==> OccursAt(rest, pat, i - 1)
    {
      assert (i - 1) + 1 == i;
    }
  }

  /** When `pat` does not occur in `s`, `replace` returns `s` unchanged. */
  lemma {:induction false} ReplaceAbsent(s: string, pat: string, repl: string)
    requires |pat| > 0 && !Contains(s, pat)
    ensures Replace(s, pat, repl) == s
    decreases |s|
  {
    if |s| >= |pat| {
      assert !OccursAt(s, pat, 0);
      assert s[..|pat|] != pat;
      assert s == [s[0]] + s[1..];
      OccursAtShift(s[0], s[1..], pat);
      ReplaceAbsent(s[1..], pat, repl);
    }
  }

  /** `replace` keeps a first character at which the pattern does not occur. */
  lemma ReplaceKeepsHead(s: string, pat: string, repl: string)
    requires |pat| > 0 && |s| >= 1 && !OccursAt(s, pat, 0)
    ensures Replace(s, pat, repl) == [s[0]] + Replace(s[1..], pat, repl)
  {
  }

  /** A pattern does not start where a character differs from it. */
  lemma MismatchAt(s: string, pat: string, j: nat)
    requires j < |pat| && j < |s| && s[j] != pat[j]
    ensures !OccursAt(s, pat, 0)
  {
    if |pat| <= |s| {
      assert s[..|pat|][j] != pat[j];
    }
  }

  /** `replace` keeps three leading characters at none of which the pattern starts. */
  lemma ReplaceKeepsThree(s: string, pat: string, repl: string)
    requires |pat| > 0 && |s| >= 3
    requires !OccursAt(s, pat, 0) && !OccursAt(s[1..], pat, 0) && !OccursAt(s[2..], pat, 0)
    ensures Replace(s, pat, repl) == s[..3] + Replace(s[3..], pat, repl)
  {
    var s1, s2, s3 := s[1..], s[2..], s[3..];
    assert s1[1..] == s2 && s2[1..] == s3;
    var r3 := Replace(s3, pat, repl);
    ReplaceKeepsHead(s2, pat, repl);
    var r2 := Replace(s2, pat, repl);
    assert r2 == [s[2]] + r3;
    ReplaceKeepsHead(s1, pat, repl);
    var r1 := Replace(s1, pat, repl);
    assert r1 == [s[1]] + r2;
    ReplaceKeepsHead(s, pat, repl);
    assert s[..3] == [s[0], s[1], s[2]];
  }

  /** `replace` passes over a prefix in which the pattern cannot start. */
  lemma {:induction false} ReplaceSkipsPrefix(a: string, b: string, pat: string, repl: string)
    requires |pat| > 0 && pat[0] !in a
    ensures Replace(a + b, pat, repl) == a + Replace(b, pat, repl)
  {
    if a != [] {
      var s := a + b;
      assert s[0] == a[0] && s[1..] == a[1..] + b;
      MismatchAt(s, pat, 0);
      ReplaceKeepsHead(s, pat, repl);
      ReplaceSkipsPrefix(a[1..], b, pat, repl);
      assert a == [a[0]] + a[1..];
    } else {
      assert a + b == b;
    }
  }

  /** Deleting a one-character pattern removes exactly that character and keeps every other one. */
  lemma {:induction false} DeleteCharMembership(s: string, c: char, x: char)
    ensures x in Replace(s, [c], "") <==> x in s && x != c
    decreases |s|
  {
    if s != [] {
      DeleteCharMembership(s[1..], c, x);
      assert s == [s[0]] + s[1..];
      if s[0] == c {
        assert s[..1] == [c];
      } else {
        assert s[..1] != [c];
      }
    }
  }

  /** Number of leading characters of `s` that are whitespace. */
  function LeadingSpaces(s: string): (k: nat)
    ensures k <= |s|
    ensures forall i :: 0 <= i < k ==> IsSpace(s[i])
    ensures k < |s| ==> !IsSpace(s[k])
  {
    if s != [] && IsSpace(s[0]) then 1 + LeadingSpaces(s[1..]) else 0
  }

  /** Number of trailing characters of `s` that are whitespace. */
  function TrailingSpaces(s: string): (k: nat)
    ensures k <= |s|
    ensures forall i :: |s| - k <= i < |s| ==> IsSpace(s[i])
    ensures k < |s| ==> !IsSpace(s[|s| - 1 - k])
  {
    if s != [] && IsSpace(s[|s| - 1]) then 1 + TrailingSpaces(s[..|s| - 1]) else 0
  }

  /** `r` is the slice of `s` starting at `i`, and everything of `s` outside it is whitespace. */
  predicate TrimmedAt(s: string, r: string, i: nat)
  {
    && i + |r| <= |s| && r == s[i..i + |r|]
    && (forall k :: 0 <= k < i ==> IsSpace(s[k]))
    && (forall k :: i + |r| <= k < |s| ==> IsSpace(s[k]))
  }

  /** `s.strip()`: the slice of `s` left once whitespace is trimmed at both
      ends; it neither starts nor ends with whitespace, and only whitespace
      was cut off. */
  function Strip(s: string): (r: string)
    ensures r == [] || (!IsSpace(r[0]) && !IsSpace(r[|r| - 1]))
    ensures exists i: nat :: TrimmedAt(s, r, i)
  {
    var i := LeadingSpaces(s);
    var t := s[i..];
    var r := t[..|t| - TrailingSpaces(t)];
    assert r == s[i..i + |r|];
    assert forall k :: i + |r| <= k < |s| ==> s[k] == t[k - i];
    assert TrimmedAt(s, r, i);
    r
  }

  /** Stripping keeps a contiguous slice, hence a subsequence. */
  lemma StripIsSubsequence(s: string)
    ensures IsSubsequence(Strip(s), s)
  {
    var r := Strip(s);
    var i: nat :| TrimmedAt(s, r, i);
    SliceIsSubsequence(s, i, i + |r|);
  }

  /** Stripping leaves a string that begins with a non-whitespace prefix alone. */
  lemma StripKeepsPrefix(p: string, s: string)
    requires p != [] && forall k :: 0 <= k < |p| ==> !IsSpace(p[k])
    ensures |Strip(p + s)| >= |p| && Strip(p + s)[..|p|] == p
  {
    var ps := p + s;
    var r := Strip(ps);
    var i: nat :| TrimmedAt(ps, r, i);
    assert ps[0] == p[0];
    assert i == 0;
    assert ps[|p| - 1] == p[|p| - 1];
    assert |r| >= |p|;
    assert r[..|p|] == ps[..|p|] == p;
  }

  /** A decimal digit character. */
  function DigitChar(d: nat): (c: char)
    requires d < 10
    ensures '0' <= c <= '9'
  {
    "0123456789"[d]
  }

  /** `str(n)` for a non-negative integer: its decimal digits, without leading zeros. */
  function NatToString(n: nat): (s: string)
    ensures |s| >= 1
    ensures forall k :: 0 <= k < |s| ==> '0' <= s[k] <= '9'
    ensures s[0] == '0' ==> n == 0
  {
    if n < 10 then [DigitChar(n)] else NatToString(n / 10) + [DigitChar(n % 10)]
  }

  /** `int(s)` for a non-empty string of decimal digits. */
  function ParseDecimal(s: string): nat
    requires forall k :: 0 <= k < |s| ==> '0' <= s[k] <= '9'
  {
    if s == [] then 0
    else ParseDecimal(s[..|s| - 1]) * 10 + (s[|s| - 1] as int - '0' as int)
  }

  /** Reading back the decimal rendering gives the number: `int(str(n)) == n`. */
  lemma {:induction false} NatToStringRoundTrip(n: nat)
    ensures ParseDecimal(NatToString(n)) == n
  {
    var s := NatToString(n);
    if n < 10 {
      assert s[..0] == [];
      assert "0123456789"[n] as int - '0' as int == n;
    } else {
      var prefix := NatToString(n / 10);
      assert s[..|s| - 1] == prefix;
      NatToStringRoundTrip(n / 10);
      assert "0123456789"[n % 10] as int - '0' as int == n % 10;
    }
  }

  /** Distinct numbers have distinct decimal renderings. */
  lemma NatToStringInjective(m: nat, n: nat)
    requires NatToString(m) == NatToString(n)
    ensures m == n
  {
    NatToStringRoundTrip(m);
    NatToStringRoundTrip(n);
  }
}
