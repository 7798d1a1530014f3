/** Order-preserving selection from a list: Ruby's `select`, `reject` and
    `Array#-`, and the facts relating them to the list they select from. */
module Lists {

  /** `r` is `s` with some elements deleted, the rest kept in order. */
  predicate IsSubsequence<T(==)>(r: seq<T>, s: seq<T>)
    decreases |s|
  {
    |r| == 0 ||
    (|s| > 0 && ((r[0] == s[0] && IsSubsequence(r[1..], s[1..])) || IsSubsequence(r, s[1..])))
  }

  /** `s` is a merge of `a` and `b` that keeps the order within each. */
  predicate IsInterleaving<T(==)>(s: seq<T>, a: seq<T>, b: seq<T>)
    decreases |s|
  {
    if |s| == 0 then a == [] && b == []
    else
      (|a| > 0 && a[0] == s[0] && IsInterleaving(s[1..], a[1..], b)) ||
      (|b| > 0 && b[0] == s[0] && IsInterleaving(s[1..], a, b[1..]))
  }

  /** The elements of `s` that `keep` accepts, in their order in `s`. */
  function Filter<T(==,!new)>(s: seq<T>, keep: T -> bool): seq<T> {
    if |s| == 0 then []
    else if keep(s[0]) then [s[0]] + Filter(s[1..], keep)
    else Filter(s[1..], keep)
  }

  /** The selection keeps the order of `s`, holds exactly the elements of
      `s` that `keep` accepts, and each of them with all its occurrences. */
  lemma {:induction false} FilterSpec<T(!new)>(s: seq<T>, keep: T -> bool)
    ensures forall x :: x in Filter(s, keep) <==> x in s && keep(x)
    ensures forall x :: multiset(Filter(s, keep))[x] == if keep(x) then multiset(s)[x] else 0
    ensures IsSubsequence(Filter(s, keep), s)
    decreases |s|
  {
    if |s| > 0 {
      var rest := Filter(s[1..], keep);
      FilterSpec(s[1..], keep);
      assert s == [s[0]] + s[1..];
      if keep(s[0]) {
        assert ([s[0]] + rest)[1..] == rest;
      }
    }
  }

  /** Selecting with `keep` and then with `also` is selecting with both at once. */
  lemma {:induction false} FilterFilter<T(!new)>(s: seq<T>, keep: T -> bool, also: T -> bool, both: T -> bool)
    requires forall x :: both(x) == (keep(x) && also(x))
    ensures Filter(Filter(s, keep), also) == Filter(s, both)
    decreases |s|
  {
    if |s| > 0 {
      FilterFilter(s[1..], keep, also, both);
      if keep(s[0]) {
        assert Filter(s, keep)[1..] == Filter(s[1..], keep);
      }
    }
  }

  /** What `keep` accepts and what it rejects split `s` into two lists that
      interleave back into `s`. */
  lemma {:induction false} FilterInterleaving<T(!new)>(s: seq<T>, keep: T -> bool, drop: T -> bool)
    requires forall x :: drop(x) == !keep(x)
    ensures IsInterleaving(s, Filter(s, keep), Filter(s, drop))
    decreases |s|
  {
    if |s| > 0 {
      FilterInterleaving(s[1..], keep, drop);
      if keep(s[0]) {
        assert Filter(s, keep)[1..] == Filter(s[1..], keep);
      } else {
        assert Filter(s, drop)[1..] == Filter(s[1..], drop);
      }
    }
  }

  /** An interleaving holds exactly the elements of its two parts. */
  lemma {:induction false} InterleavingMultiset<T>(s: seq<T>, a: seq<T>, b: seq<T>)
    requires IsInterleaving(s, a, b)
    ensures multiset(s) == multiset(a) + multiset(b)
    ensures |s| == |a| + |b|
    decreases |s|
  {
    if |s| > 0 {
      assert s == [s[0]] + s[1..];
      if |a| > 0 && a[0] == s[0] && IsInterleaving(s[1..], a[1..], b) {
        assert a == [a[0]] + a[1..];
        InterleavingMultiset(s[1..], a[1..], b);
      } else {
        assert b == [b[0]] + b[1..];
        InterleavingMultiset(s[1..], a, b[1..]);
      }
    }
  }

  /** A selection that accepts every element is the whole list. */
  lemma {:induction false} FilterKeepsAll<T(!new)>(s: seq<T>, keep: T -> bool)
    requires forall i :: 0 <= i < |s| ==> keep(s[i])
    ensures Filter(s, keep) == s
    decreases |s|
  {
    if |s| > 0 {
      FilterKeepsAll(s[1..], keep);
      assert s == [s[0]] + s[1..];
    }
  }

  /** A selection that rejects every element is empty. */
  lemma FilterDropsAll<T(!new)>(s: seq<T>, keep: T -> bool)
    requires forall i :: 0 <= i < |s| ==> !keep(s[i])
    ensures Filter(s, keep) == []
  {
    FilterSpec(s, keep);
    assert multiset(Filter(s, keep)) == multiset{};
  }
}
