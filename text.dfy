/** The few string operations the core relies on. Python's `str.lower` is
    modelled on ASCII letters only. */
module Text {

  function LowerChar(c: char): char
  {
    if 'A' <= c <= 'Z' then (c as int + 32) as char else c
  }

  function Lower(s: string): string
  {
    seq(|s|, i requires 0 <= i < |s| => LowerChar(s[i]))
  }

  predicate StartsWith(s: string, prefix: string)
  {
    |prefix| <= |s| && s[..|prefix|] == prefix
  }

  /** `str.rfind`: the index of the last occurrence of `c` in `s`, or -1. */
  function RFind(s: string, c: char): (r: int)
    ensures -1 <= r < |s|
    ensures r >= 0 ==> s[r] == c
    ensures forall i :: r < i < |s| ==> s[i] != c
  {
    LastIndexBelow(s, c, |s|)
  }

  /** The last index below `n` holding `c`, or -1. */
  function LastIndexBelow(s: string, c: char, n: nat): (r: int)
    requires n <= |s|
    ensures -1 <= r < n
    ensures r >= 0 ==> s[r] == c
    ensures forall i :: r < i < n ==> s[i] != c
  {
    if n == 0 then -1
    else if s[n - 1] == c then n - 1
    else LastIndexBelow(s, c, n - 1)
  }

  /** The last index below `n` is determined by its defining facts. */
  lemma LastIndexBelowUnique(s: string, c: char, n: nat, k: int)
    requires n <= |s| && -1 <= k < n
    requires k >= 0 ==> s[k] == c
    requires forall i :: k < i < n ==> s[i] != c
    ensures LastIndexBelow(s, c, n) == k
  {
  }

  /** Two strings that hold `c` at the same positions below `n` have the
      same last index of `c` below `n`. */
  lemma {:induction false} LastIndexBelowAgree(s: string, t: string, c: char, n: nat)
    requires n <= |s| && n <= |t|
    requires forall i :: 0 <= i < n ==> (s[i] == c <==> t[i] == c)
    ensures LastIndexBelow(s, c, n) == LastIndexBelow(t, c, n)
  {
    if n > 0 && s[n - 1] != c {
      LastIndexBelowAgree(s, t, c, n - 1);
    }
  }
}
