/**
 * Characters and strings as the proxy's regular expressions see them:
 * ASCII digits (`\d`), ECMAScript white space (`\s`), the characters `.`
 * refuses to match, and case-insensitive comparison against an ASCII pattern.
 * Also the subsequence relation used to say that a rewriting step only deletes.
 */
module Text {

  /** `\d` in an ECMAScript regular expression: an ASCII decimal digit. */
  predicate IsDigit(c: char) {
    '0' <= c <= '9'
  }

  predicate AllDigits(s: string) {
    forall k :: 0 <= k < |s| ==> IsDigit(s[k])
  }

  /**
   * Case folding for a case-insensitive ECMAScript match (no `u` flag) against
   * an ASCII pattern: only A-Z fold, because the canonicalisation never maps
   * a non-ASCII character onto an ASCII one.
   */
  function Lower(c: char): char {
    if 'A' <= c <= 'Z' then (c as int + 32) as char else c
  }

  /** The pattern `p` occurs at index `i` of `s`, ignoring ASCII case. */
  predicate CiAt(s: string, i: nat, p: string) {
    i + |p| <= |s| && forall k :: 0 <= k < |p| ==> Lower(s[i + k]) == Lower(p[k])
  }

  /** Occurrences in a suffix are the occurrences further along in the whole. */
  lemma CiAtShift(s: string, a: nat, i: nat, p: string)
    requires a <= |s|
    ensures CiAt(s[a..], i, p) <==> CiAt(s, a + i, p)
  {
    if CiAt(s, a + i, p) {
      forall k | 0 <= k < |p| ensures Lower(s[a..][i + k]) == Lower(p[k]) {
        assert s[a..][i + k] == s[a + i + k];
      }
    }
    if CiAt(s[a..], i, p) {
      forall k | 0 <= k < |p| ensures Lower(s[a + i + k]) == Lower(p[k]) {
        assert s[a..][i + k] == s[a + i + k];
      }
    }
  }

  /** One character that differs, ignoring case, rules an occurrence out. */
  lemma MismatchAt(s: string, i: nat, pat: string, k: nat)
    requires k < |pat| && i + k < |s| && Lower(s[i + k]) != Lower(pat[k])
    ensures !CiAt(s, i, pat)
  {
  }

  /** Within a prefix, occurrences are those of the whole. */
  lemma CiAtPrefix(s: string, p: nat, i: nat, pat: string)
    requires i + |pat| <= p <= |s|
    ensures CiAt(s[..p], i, pat) <==> CiAt(s, i, pat)
  {
    if CiAt(s, i, pat) {
      forall k | 0 <= k < |pat| ensures Lower(s[..p][i + k]) == Lower(pat[k]) {
        assert s[..p][i + k] == s[i + k];
      }
    }
    if CiAt(s[..p], i, pat) {
      forall k | 0 <= k < |pat| ensures Lower(s[i + k]) == Lower(pat[k]) {
        assert s[..p][i + k] == s[i + k];
      }
    }
  }

  /** Line terminators other than CR and LF, which `.` does not match either. */
  predicate IsLineSeparator(c: char) {
    c == '\U{2028}' || c == '\U{2029}'
  }

  /** `\s` in an ECMAScript regular expression: WhiteSpace and LineTerminator. */
  predicate IsJsSpace(c: char) {
    c == '\t' || c == '\n' || c == '\U{000B}' || c == '\U{000C}' || c == '\r' || c == ' '
    || c == '\U{00A0}' || c == '\U{1680}' || ('\U{2000}' <= c <= '\U{200A}')
    || c == '\U{2028}' || c == '\U{2029}' || c == '\U{202F}' || c == '\U{205F}'
    || c == '\U{3000}' || c == '\U{FEFF}'
  }

  /** Length of the run of digits that `s` starts with (`\d+` is greedy). */
  function DigitRun(s: string): (n: nat)
    ensures n <= |s|
    ensures forall k :: 0 <= k < n ==> IsDigit(s[k])
    ensures n < |s| ==> !IsDigit(s[n])
  {
    if s == [] || !IsDigit(s[0]) then 0 else 1 + DigitRun(s[1..])
  }

  /** A run of digits followed by a non-digit is exactly the greedy run. */
  lemma DigitRunExact(s: string, d: nat)
    requires d < |s| && !IsDigit(s[d])
    requires forall k :: 0 <= k < d ==> IsDigit(s[k])
    ensures DigitRun(s) == d
  {
  }

  /**
   * `a` can be obtained from `b` by deleting characters.
   */
  ghost predicate IsSubsequence(a: string, b: string)
    decreases |b|
  {
    a == [] || (b != [] && ((a[0] == b[0] && IsSubsequence(a[1..], b[1..])) || IsSubsequence(a, b[1..])))
  }

  lemma {:induction false} SubsequenceRefl(s: string)
    ensures IsSubsequence(s, s)
    decreases |s|
  {
    if s != [] {
      SubsequenceRefl(s[1..]);
    }
  }

  /** Deleting a prefix of the longer string keeps the relation. */
  lemma {:induction false} SubsequenceDropPrefix(a: string, b: string, x: string)
    requires IsSubsequence(a, b)
    ensures IsSubsequence(a, x + b)
    decreases |x|
  {
    if x == [] {
      assert x + b == b;
    } else if a != [] {
      SubsequenceDropPrefix(a, b, x[1..]);
      assert (x + b)[1..] == x[1..] + b;
    }
  }

  lemma {:induction false} SubsequenceTrans(a: string, b: string, c: string)
    requires IsSubsequence(a, b) && IsSubsequence(b, c)
    ensures IsSubsequence(a, c)
    decreases |c|
  {
    if a != [] {
      if IsSubsequence(b, c[1..]) {
        SubsequenceTrans(a, b, c[1..]);
      } else if a[0] == b[0] && IsSubsequence(a[1..], b[1..]) {
        SubsequenceTrans(a[1..], b[1..], c[1..]);
      } else {
        SubsequenceTrans(a, b[1..], c[1..]);
      }
    }
  }

  /** Cutting a slice out of a text leaves a subsequence of it. */
  lemma {:induction false} DeleteSliceIsSubsequence(s: string, p: nat, q: nat)
    requires p <= q <= |s|
    ensures IsSubsequence(s[..p] + s[q..], s)
    decreases p
  {
    var a := s[..p] + s[q..];
    if p == 0 {
      assert a == s[q..];
      assert s == s[..q] + s[q..];
      SubsequenceRefl(s[q..]);
      SubsequenceDropPrefix(s[q..], s[q..], s[..q]);
    } else {
      var t := s[1..];
      DeleteSliceIsSubsequence(t, p - 1, q - 1);
      assert a[0] == s[0];
      assert a[1..] == t[..p - 1] + t[q - 1..];
    }
  }
}
