/** Sequence helpers shared by the two stores and the user controller:
    order-preserving filters, first-occurrence search, the maximum of a list
    of identifiers and JavaScript's `Array.from(new Set(xs))`. */
module Seqs {

  /** `r` is `s` with some elements left out and the rest kept in order. */
  ghost predicate IsSubseq<T>(r: seq<T>, s: seq<T>)
    decreases |s|
  {
    || r == []
    || (s != [] && ((r[0] == s[0] && IsSubseq(r[1..], s[1..])) || IsSubseq(r, s[1..])))
  }

  /** A sequence is a subsequence of itself. */
  lemma {:induction false} SubseqOfItself<T>(s: seq<T>)
    ensures IsSubseq(s, s)
    decreases |s|
  {
    if s != [] {
      SubseqOfItself(s[1..]);
    }
  }

  /** Every element of a subsequence comes from the sequence. */
  lemma {:induction false} SubseqMembers<T>(r: seq<T>, s: seq<T>, x: T)
    requires IsSubseq(r, s) && x in r
    ensures x in s
    decreases |s|
  {
    if r[0] == s[0] && IsSubseq(r[1..], s[1..]) {
      if x != r[0] {
        SubseqMembers(r[1..], s[1..], x);
      }
    } else {
      SubseqMembers(r, s[1..], x);
    }
  }

  /** No value occurs twice. */
  predicate NoDups<T(==)>(s: seq<T>) {
    forall i, j | 0 <= i < j < |s| :: s[i] != s[j]
  }

  /** No two elements share a key. */
  ghost predicate DistinctKeys<T, K>(s: seq<T>, key: T -> K) {
    forall i, j | 0 <= i < j < |s| :: key(s[i]) != key(s[j])
  }

  /** Leaving elements out keeps the keys of the rest distinct. */
  lemma {:induction false} SubseqKeepsKeysDistinct<T, K>(r: seq<T>, s: seq<T>, key: T -> K)
    requires IsSubseq(r, s) && DistinctKeys(s, key)
    ensures DistinctKeys(r, key)
    decreases |s|
  {
    if r == [] {
    } else if r[0] == s[0] && IsSubseq(r[1..], s[1..]) {
      assert DistinctKeys(s[1..], key) by {
        forall i, j | 0 <= i < j < |s| - 1 ensures key(s[1..][i]) != key(s[1..][j]) {
          assert s[1..][i] == s[i + 1] && s[1..][j] == s[j + 1];
        }
      }
      SubseqKeepsKeysDistinct(r[1..], s[1..], key);
      forall j | 0 < j < |r| ensures key(r[0]) != key(r[j]) {
        assert r[j] == r[1..][j - 1];
        SubseqMembers(r[1..], s[1..], r[j]);
        var m :| 0 <= m < |s| - 1 && s[1..][m] == r[j];
        assert s[m + 1] == r[j];
      }
    } else {
      assert DistinctKeys(s[1..], key) by {
        forall i, j | 0 <= i < j < |s| - 1 ensures key(s[1..][i]) != key(s[1..][j]) {
          assert s[1..][i] == s[i + 1] && s[1..][j] == s[j + 1];
        }
      }
      SubseqKeepsKeysDistinct(r, s[1..], key);
    }
  }

  /** `s.filter(keep)`: the elements that satisfy `keep`, in their original order. */
  function Filter<T>(s: seq<T>, keep: T -> bool): (r: seq<T>)
    ensures IsSubseq(r, s)
    ensures forall x | x in r :: x in s && keep(x)
    ensures forall x | x in s && keep(x) :: x in r
    ensures (forall x | x in s :: keep(x)) ==> r == s
    ensures |r| <= |s|
  {
    if s == [] then []
    else if keep(s[0]) then [s[0]] + Filter(s[1..], keep)
    else Filter(s[1..], keep)
  }

  /** `filter` keeps every occurrence of a value that passes and none of one that fails. */
  lemma {:induction false} FilterCounts<T>(s: seq<T>, keep: T -> bool, x: T)
    ensures multiset(Filter(s, keep))[x] == if keep(x) then multiset(s)[x] else 0
    decreases |s|
  {
    if s != [] {
      FilterCounts(s[1..], keep, x);
      assert s == [s[0]] + s[1..];
    }
  }

  /** The position of the first `x` in `s`, or `|s|` when there is none. */
  function FirstIndex<T(==)>(s: seq<T>, x: T): (i: nat)
    ensures i <= |s|
    ensures i < |s| ==> s[i] == x
    ensures forall k | 0 <= k < i :: s[k] != x
  {
    if s == [] then 0
    else if s[0] == x then 0
    else 1 + FirstIndex(s[1..], x)
  }

  /** Where a value first occurs does not change when elements are added after it. */
  lemma {:induction false} FirstIndexOfPrefix<T>(s: seq<T>, n: nat, x: T)
    requires n <= |s| && x in s[..n]
    ensures FirstIndex(s, x) == FirstIndex(s[..n], x)
  {
    var i, p := FirstIndex(s, x), FirstIndex(s[..n], x);
    var w :| 0 <= w < n && s[..n][w] == x;
    assert p <= w < n;
    assert s[p] == x;
    assert i <= p;
    assert forall k | 0 <= k < i :: s[..n][k] != x;
  }

  /** `Math.max(...xs, 0)`: the largest of the values and zero. */
  function MaxOrZero(xs: seq<int>): (m: int)
    ensures m >= 0
    ensures forall k | 0 <= k < |xs| :: xs[k] <= m
    ensures m == 0 || m in xs
  {
    if xs == [] then 0
    else
      var rest := MaxOrZero(xs[1..]);
      if xs[0] > rest then xs[0] else rest
  }

  /** `Array.from(new Set(s))`: each value once, in the order of its first occurrence. */
  function Distinct<T(==)>(s: seq<T>): (r: seq<T>)
    ensures NoDups(r)
    ensures forall x | x in r :: x in s
    ensures forall x | x in s :: x in r
    ensures forall i, j | 0 <= i < j < |r| :: FirstIndex(s, r[i]) < FirstIndex(s, r[j])
    decreases |s|
  {
    if s == [] then []
    else
      var n := |s| - 1;
      var rest, x := Distinct(s[..n]), s[n];
      assert forall y | y in rest :: y in s[..n] && FirstIndex(s, y) == FirstIndex(s[..n], y) by {
        forall y | y in rest ensures y in s[..n] && FirstIndex(s, y) == FirstIndex(s[..n], y) {
          FirstIndexOfPrefix(s, n, y);
        }
      }
      assert s == s[..n] + [x];
      if x in rest then rest
      else
        assert FirstIndex(s, x) == n;
        rest + [x]
  }

  /** Replacing an element after the head is replacing it in the tail. */
  lemma ReplaceAfterHead<T>(s: seq<T>, k: nat, v: T)
    requires 0 < k < |s|
    ensures [s[0]] + s[1..][k - 1 := v] == s[k := v]
  {
  }

  /** Replacing the head. */
  lemma ReplaceHead<T>(s: seq<T>, v: T)
    requires 0 < |s|
    ensures [v] + s[1..] == s[0 := v]
  {
  }
}
