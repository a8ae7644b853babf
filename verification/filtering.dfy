/**
 Order-preserving filters. Both `Specs#tests` (an `Array#select`) and the
 `inject` fold of `Specs#run` keep some elements of a sequence, in order,
 and drop the rest; this module states once what that means.
 */
module Filtering {

  /**
   The elements of `s` that satisfy `keep`, in their original order. It is
   written as a left fold, one element at a time, the way `inject` walks it.
   */
  function Filter<T>(s: seq<T>, keep: T -> bool): (r: seq<T>)
    ensures |r| <= |s|
    decreases |s|
  {
    if s == [] then []
    else Filter(s[..|s| - 1], keep) + (if keep(s[|s| - 1]) then [s[|s| - 1]] else [])
  }

  /** `idx` lists strictly increasing positions of `s` whose elements, in turn, make up `r`. */
  ghost predicate Picks<T>(idx: seq<int>, r: seq<T>, s: seq<T>)
  {
    && |idx| == |r|
    && (forall k :: 0 <= k < |idx| ==> 0 <= idx[k] < |s| && r[k] == s[idx[k]])
    && (forall k, l :: 0 <= k < l < |idx| ==> idx[k] < idx[l])
  }

  /** `r` is an order-preserving subsequence of `s`: nothing added, reordered or duplicated. */
  ghost predicate IsSubsequence<T>(r: seq<T>, s: seq<T>)
  {
    exists idx :: Picks(idx, r, s)
  }

  /** One step of the fold: the next element is appended when kept, and otherwise nothing changes. */
  lemma FilterStep<T>(s: seq<T>, x: T, keep: T -> bool)
    ensures Filter(s + [x], keep) == Filter(s, keep) + (if keep(x) then [x] else [])
  {
    assert (s + [x])[..|s|] == s;
  }

  /** One step of the fold over a prefix: `s[i]` is appended to the result for `s[..i]` when kept. */
  lemma FilterPrefixStep<T>(s: seq<T>, i: nat, keep: T -> bool)
    requires i < |s|
    ensures Filter(s[..i + 1], keep) == Filter(s[..i], keep) + (if keep(s[i]) then [s[i]] else [])
  {
    assert s[..i + 1][..i] == s[..i];
  }

  /** Filtering three elements keeps each of them exactly when `keep` holds of it, in order. */
  lemma FilterThree<T>(a: T, b: T, c: T, keep: T -> bool)
    ensures Filter([a, b, c], keep) ==
      (if keep(a) then [a] else []) + (if keep(b) then [b] else []) + (if keep(c) then [c] else [])
  {
    var one, two := (if keep(a) then [a] else []), (if keep(b) then [b] else []);
    assert [a][..0] == [];
    assert Filter([a], keep) == one;
    assert [a, b][..1] == [a];
    assert Filter([a, b], keep) == one + two;
    assert [a, b, c][..2] == [a, b];
  }

  /** Of three elements where only the middle one is rejected, the first and the last remain, in order. */
  lemma FilterDropsSecond<T>(a: T, b: T, c: T, keep: T -> bool)
    requires keep(a) && !keep(b) && keep(c)
    ensures Filter([a, b, c], keep) == [a, c]
  {
    FilterThree(a, b, c, keep);
    assert [a] + [] + [c] == [a, c];
  }

  /** The positions in `idx` are exactly those where `keep` holds of `s`. */
  ghost predicate ExactlyKept<T>(idx: seq<int>, s: seq<T>, keep: T -> bool)
  {
    forall i :: 0 <= i < |s| ==> (i in idx <==> keep(s[i]))
  }

  /** Positions picked from `s` stay valid in `s + [x]`, and `x` may be picked after them. */
  lemma PicksExtend<T>(idx: seq<int>, r: seq<T>, s: seq<T>, x: T, keep: T -> bool)
    requires Picks(idx, r, s) && ExactlyKept(idx, s, keep)
    ensures keep(x) ==> Picks(idx + [|s|], r + [x], s + [x]) && ExactlyKept(idx + [|s|], s + [x], keep)
    ensures !keep(x) ==> Picks(idx, r, s + [x]) && ExactlyKept(idx, s + [x], keep)
  {
    assert |s| !in idx by {
      forall k | 0 <= k < |idx| ensures idx[k] != |s| { }
    }
    forall i | 0 <= i < |s| ensures (s + [x])[i] == s[i] { }
  }

  /**
   `Filter(s, keep)` is exactly the elements at the positions of `s` where
   `keep` holds, in the order of those positions.
   */
  lemma {:induction false} FilterPicksKept<T>(s: seq<T>, keep: T -> bool)
    ensures exists idx :: Picks(idx, Filter(s, keep), s) && ExactlyKept(idx, s, keep)
    decreases |s|
  {
    if s == [] {
      var idx: seq<int> := [];
      assert Picks(idx, Filter(s, keep), s) && ExactlyKept(idx, s, keep);
    } else {
      var n := |s| - 1;
      var init, x := s[..n], s[n];
      assert s == init + [x];
      FilterPicksKept(init, keep);
      var idx :| Picks(idx, Filter(init, keep), init) && ExactlyKept(idx, init, keep);
      FilterStep(init, x, keep);
      PicksExtend(idx, Filter(init, keep), init, x, keep);
      if keep(x) {
        assert Picks(idx + [n], Filter(s, keep), s) && ExactlyKept(idx + [n], s, keep);
      } else {
        assert Picks(idx, Filter(s, keep), s) && ExactlyKept(idx, s, keep);
      }
    }
  }

  /** Filtering is a subsequence of its input. */
  lemma FilterIsSubsequence<T>(s: seq<T>, keep: T -> bool)
    ensures IsSubsequence(Filter(s, keep), s)
  {
    FilterPicksKept(s, keep);
  }

  /** Every kept value occurs as often as in the input, every dropped value not at all. */
  lemma {:induction false} FilterCount<T>(s: seq<T>, keep: T -> bool, x: T)
    ensures multiset(Filter(s, keep))[x] == if keep(x) then multiset(s)[x] else 0
    decreases |s|
  {
    if s != [] {
      var n := |s| - 1;
      FilterCount(s[..n], keep, x);
      assert s == s[..n] + [s[n]];
      assert multiset(s) == multiset(s[..n]) + multiset{s[n]};
    }
  }

  /** A value is in the filtered sequence iff it is in the input and is kept. */
  lemma FilterMembership<T>(s: seq<T>, keep: T -> bool, x: T)
    ensures x in Filter(s, keep) <==> x in s && keep(x)
  {
    FilterCount(s, keep, x);
    assert x in Filter(s, keep) <==> multiset(Filter(s, keep))[x] > 0;
    assert x in s <==> multiset(s)[x] > 0;
  }

  /** A subsequence is never longer than the sequence it is taken from. */
  lemma SubsequenceNoLonger<T>(r: seq<T>, s: seq<T>)
    requires IsSubsequence(r, s)
    ensures |r| <= |s|
  {
    var idx :| Picks(idx, r, s);
    if |idx| > 0 {
      var k := 0;
      while k < |idx| - 1
        invariant 0 <= k < |idx|
        invariant idx[k] >= k
      {
        assert idx[k] < idx[k + 1];
        k := k + 1;
      }
    }
  }

  /** A subsequence of a subsequence of `s` is a subsequence of `s`. */
  lemma SubsequenceTransitive<T>(a: seq<T>, b: seq<T>, c: seq<T>)
    requires IsSubsequence(a, b) && IsSubsequence(b, c)
    ensures IsSubsequence(a, c)
  {
    var ab :| Picks(ab, a, b);
    var bc :| Picks(bc, b, c);
    var ac := seq(|ab|, k requires 0 <= k < |ab| => bc[ab[k]]);
    assert Picks(ac, a, c);
  }
}
