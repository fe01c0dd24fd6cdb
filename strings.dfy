/**
 * The few `java.lang.String` operations the provider and the storage bridge use,
 * over Dafny strings. Case mapping is ASCII only.
 */
module Strings {

  /** `s.startsWith(prefix)` */
  predicate StartsWith(s: string, prefix: string) {
    prefix <= s
  }

  /** `s.endsWith(suffix)` */
  predicate EndsWith(s: string, suffix: string) {
    |suffix| <= |s| && s[|s| - |suffix|..] == suffix
  }

  /** `t` occurs in `s` starting at index `i`. */
  predicate OccursAt(s: string, t: string, i: int) {
    0 <= i && i + |t| <= |s| && s[i..i + |t|] == t
  }

  /** `s.contains(t)`; the empty string occurs in every string. */
  predicate Contains(s: string, t: string) {
    exists i :: 0 <= i <= |s| && OccursAt(s, t, i)
  }

  /** `s.lastIndexOf(c)` for a character. */
  function LastIndexOfChar(s: string, c: char): (r: int)
    ensures -1 <= r < |s|
    ensures r == -1 <==> c !in s
    ensures r >= 0 ==> s[r] == c && c !in s[r + 1..]
  {
    if s == [] then -1
    else if s[|s| - 1] == c then |s| - 1
    else
      var r := LastIndexOfChar(s[..|s| - 1], c);
      assert s == s[..|s| - 1] + [s[|s| - 1]];
      r
  }

  /** Searches downward from index `i` for the last occurrence of `t` in `s`. */
  function LastIndexOfFrom(s: string, t: string, i: int): (r: int)
    requires -1 <= i
    ensures -1 <= r <= i
    ensures r >= 0 ==> OccursAt(s, t, r)
    ensures forall j :: r < j <= i ==> !OccursAt(s, t, j)
    decreases i + 1
  {
    if i < 0 then -1
    else if OccursAt(s, t, i) then i
    else LastIndexOfFrom(s, t, i - 1)
  }

  /** `s.lastIndexOf(t)` for a string: the largest start of an occurrence, or -1. */
  function LastIndexOf(s: string, t: string): (r: int)
    ensures r >= 0 ==> OccursAt(s, t, r)
    ensures forall j :: r < j ==> !OccursAt(s, t, j)
    ensures r == -1 <==> !Contains(s, t)
  {
    var start := if |s| >= |t| then |s| - |t| else -1;
    LastIndexOfFrom(s, t, start)
  }

  predicate IsUpper(c: char) {
    'A' <= c <= 'Z'
  }

  function ToLowerChar(c: char): (r: char)
    ensures !IsUpper(r)
    ensures !IsUpper(c) ==> r == c
  {
    if IsUpper(c) then (c as int + 32) as char else c
  }

  /** `s.toLowerCase()` restricted to the ASCII letters. */
  function ToLower(s: string): (r: string)
    ensures |r| == |s|
    ensures forall i :: 0 <= i < |s| ==> r[i] == ToLowerChar(s[i])
  {
    seq(|s|, i requires 0 <= i < |s| => ToLowerChar(s[i]))
  }

  /**
   * `s.replace(t, "")`: scans left to right and drops every non-overlapping
   * occurrence of `t`; an empty `t` leaves `s` as it is.
   */
  function RemoveAll(s: string, t: string): string
    decreases |s|
  {
    if t == [] || s == [] then s
    else if StartsWith(s, t) then RemoveAll(s[|t|..], t)
    else [s[0]] + RemoveAll(s[1..], t)
  }

  function DigitChar(d: nat): char
    requires d < 10
  {
    ('0' as int + d) as char
  }

  /** `Integer.toString(n)` for a non-negative `n`. */
  function Dec(n: nat): (r: string)
    ensures |r| >= 1 && '/' !in r
  {
    if n < 10 then [DigitChar(n)] else Dec(n / 10) + [DigitChar(n % 10)]
  }

  function Pow10(n: nat): (r: nat)
    ensures r >= 1
  {
    if n == 0 then 1 else 10 * Pow10(n - 1)
  }

  /** A number at least 10^n needs more than n decimal digits. */
  lemma {:induction false} DecLength(k: nat, n: nat)
    requires k >= Pow10(n)
    ensures |Dec(k)| > n
  {
    if n > 0 {
      assert k >= 10;
      DecLength(k / 10, n - 1);
    }
  }
}
