/**
 * String helpers that stand for the JavaScript string operations the container
 * manager relies on: `String.prototype.includes`, `String.prototype.replace`
 * with a string pattern (first occurrence only) and the decimal rendering of a
 * number inside a template literal.
 */
module Text {

  /** `pat` occurs in `s` starting at index `k`. */
  predicate OccursAt(s: string, pat: string, k: nat) {
    k + |pat| <= |s| && s[k..k + |pat|] == pat
  }

  /** `s.includes(pat)`. */
  function Contains(s: string, pat: string): (b: bool)
    ensures b <==> exists k: nat :: OccursAt(s, pat, k)
  {
    if |s| < |pat| then
      assert forall k: nat :: !OccursAt(s, pat, k);
      false
    else if s[..|pat|] == pat then
      assert OccursAt(s, pat, 0);
      true
    else
      var b := Contains(s[1..], pat);
      ContainsShift(s, pat);
      b
  }

  /** Occurrences in `s[1..]` are the occurrences in `s` after index 0. */
  lemma ContainsShift(s: string, pat: string)
    requires |s| >= |pat| && s[..|pat|] != pat
    ensures (exists k: nat :: OccursAt(s, pat, k)) <==> (exists k: nat :: OccursAt(s[1..], pat, k))
  {
    if exists k: nat :: OccursAt(s, pat, k) {
      var k: nat :| OccursAt(s, pat, k);
      assert k != 0;
      assert s[1..][k - 1..k - 1 + |pat|] == s[k..k + |pat|];
      assert OccursAt(s[1..], pat, k - 1);
    }
    if exists k: nat :: OccursAt(s[1..], pat, k) {
      var k: nat :| OccursAt(s[1..], pat, k);
      assert s[1..][k..k + |pat|] == s[k + 1..k + 1 + |pat|];
      assert OccursAt(s, pat, k + 1);
    }
  }

  /** `s.replace(pat, rep)`: only the first occurrence of `pat` is replaced. */
  function ReplaceFirst(s: string, pat: string, rep: string): string
    requires pat != ""
    decreases |s|
  {
    if |s| < |pat| then s
    else if s[..|pat|] == pat then rep + s[|pat|..]
    else [s[0]] + ReplaceFirst(s[1..], pat, rep)
  }

  /** Without an occurrence, `replace` leaves the string as it was. */
  lemma {:induction false} ReplaceFirstAbsent(s: string, pat: string, rep: string)
    requires pat != "" && !Contains(s, pat)
    ensures ReplaceFirst(s, pat, rep) == s
    decreases |s|
  {
    if |s| >= |pat| {
      assert !OccursAt(s, pat, 0);
      ContainsShift(s, pat);
      ReplaceFirstAbsent(s[1..], pat, rep);
    }
  }

  /** An occurrence at `j + 1` in `s` is an occurrence at `j` in `s[1..]`. */
  lemma OccursShift(s: string, pat: string, j: nat)
    requires |s| >= 1
    ensures OccursAt(s, pat, j + 1) <==> OccursAt(s[1..], pat, j)
  {
    if j + 1 + |pat| <= |s| {
      assert s[1..][j..j + |pat|] == s[j + 1..j + 1 + |pat|];
    }
  }

  /** With a first occurrence at `k`, `replace` splices `rep` in at exactly that place. */
  lemma {:induction false} ReplaceFirstAt(s: string, pat: string, rep: string, k: nat)
    requires pat != "" && OccursAt(s, pat, k)
    requires forall j: nat :: j < k ==> !OccursAt(s, pat, j)
    ensures ReplaceFirst(s, pat, rep) == s[..k] + rep + s[k + |pat|..]
    decreases k
  {
    if k > 0 {
      assert !OccursAt(s, pat, 0);
      var t := s[1..];
      OccursShift(s, pat, k - 1);
      forall j: nat | j < k - 1 ensures !OccursAt(t, pat, j) {
        OccursShift(s, pat, j);
      }
      ReplaceFirstAt(t, pat, rep, k - 1);
      assert ReplaceFirst(s, pat, rep) == [s[0]] + ReplaceFirst(t, pat, rep);
      calc {
        ReplaceFirst(s, pat, rep);
        [s[0]] + (t[..k - 1] + rep + t[k - 1 + |pat|..]);
        { assert [s[0]] + t[..k - 1] == s[..k]; assert t[k - 1 + |pat|..] == s[k + |pat|..]; }
        s[..k] + rep + s[k + |pat|..];
      }
    }
  }

  /** `s` ends with `suffix`. */
  predicate EndsWith(s: string, suffix: string) {
    |suffix| <= |s| && s[|s| - |suffix|..] == suffix
  }

  predicate IsDigit(c: char) {
    '0' <= c <= '9'
  }

  function DigitChar(d: nat): (c: char)
    requires d < 10
    ensures IsDigit(c) && (c as int) - ('0' as int) == d
  {
    (('0' as int) + d) as char
  }

  /** The decimal rendering `${n}` of a non-negative integer. */
  function NatToString(n: nat): (r: string)
    ensures |r| >= 1
    ensures forall i :: 0 <= i < |r| ==> IsDigit(r[i])
  {
    if n < 10 then [DigitChar(n)] else NatToString(n / 10) + [DigitChar(n % 10)]
  }

  /** Reads a string of decimal digits back as a number. */
  function DigitsToNat(s: string): nat
    requires forall i :: 0 <= i < |s| ==> IsDigit(s[i])
  {
    if s == "" then 0
    else
      assert IsDigit(s[|s| - 1]);
      DigitsToNat(s[..|s| - 1]) * 10 + ((s[|s| - 1] as int) - ('0' as int))
  }

  /** The decimal rendering loses nothing: reading it back gives the number. */
  lemma {:induction false} NatToStringRoundTrip(n: nat)
    ensures DigitsToNat(NatToString(n)) == n
  {
    if n >= 10 {
      var r := NatToString(n);
      assert r[..|r| - 1] == NatToString(n / 10);
      NatToStringRoundTrip(n / 10);
    }
  }
}
