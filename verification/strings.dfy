/**
 Small character searches shared by the path-handling parts of the adapter:
 finding the end of a line, the start of the last path component and the
 start of a file extension.
 */
module Strings {

  /** Index of the first `c` in `s`, or `|s|` when `s` holds none. */
  function IndexOf(s: string, c: char): (k: nat)
    ensures k <= |s|
    ensures k < |s| ==> s[k] == c
    ensures forall i :: 0 <= i < k ==> s[i] != c
    decreases |s|
  {
    if s == [] || s[0] == c then 0 else 1 + IndexOf(s[1..], c)
  }

  /** Index just after the last `c` in `s[..j]`, or 0 when `s[..j]` holds none (see `AfterLastFinds`). */
  function AfterLast(s: string, c: char, j: nat): (r: nat)
    requires j <= |s|
    ensures r <= j
    decreases j
  {
    if j == 0 || s[j - 1] == c then j else AfterLast(s, c, j - 1)
  }

  /** `AfterLast` stops just after a `c`, or at 0, and no `c` lies between there and `j`. */
  lemma {:induction false} AfterLastFinds(s: string, c: char, j: nat)
    requires j <= |s|
    ensures var r := AfterLast(s, c, j);
      && (r == 0 || s[r - 1] == c)
      && forall i :: r <= i < j ==> s[i] != c
    decreases j
  {
    if j > 0 && s[j - 1] != c {
      AfterLastFinds(s, c, j - 1);
    }
  }

  /** First index at or after `from` whose character is not `c`, or `|s|` (see `SkipRunSkips`). */
  function SkipRun(s: string, c: char, from: nat): (r: nat)
    requires from <= |s|
    ensures from <= r <= |s|
    decreases |s| - from
  {
    if from == |s| || s[from] != c then from else SkipRun(s, c, from + 1)
  }

  /** `SkipRun` passes over `c` characters only, and stops at a character other than `c` or at the end. */
  lemma {:induction false} SkipRunSkips(s: string, c: char, from: nat)
    requires from <= |s|
    ensures var r := SkipRun(s, c, from);
      && (r < |s| ==> s[r] != c)
      && forall i :: from <= i < r ==> s[i] == c
    decreases |s| - from
  {
    if from < |s| && s[from] == c {
      SkipRunSkips(s, c, from + 1);
    }
  }
}
