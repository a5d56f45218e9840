/** Order-keeping selection from a sequence, as `Array.prototype.filter` does it. */
module Seqs {

  /** `a` is `b` with some elements left out and the rest in their order. */
  predicate IsSubsequence<T(==,!new)>(a: seq<T>, b: seq<T>)
    decreases |b|
  {
    if a == [] then true
    else if b == [] then false
    else if a[0] == b[0] then IsSubsequence(a[1..], b[1..])
    else IsSubsequence(a, b[1..])
  }

  /** An element in front of the longer sequence does not undo a
      subsequence. */
  lemma {:induction false} SubsequenceExtend<T(!new)>(a: seq<T>, c: seq<T>)
    requires c != [] && IsSubsequence(a, c[1..])
    ensures IsSubsequence(a, c)
    decreases |c|, 0
  {
    if a != [] && a[0] == c[0] {
      SubsequenceDropHead(a, c[1..]);
    }
  }

  /** Leaving out the first element keeps a subsequence one. */
  lemma {:induction false} SubsequenceDropHead<T(!new)>(a: seq<T>, d: seq<T>)
    requires a != [] && IsSubsequence(a, d)
    ensures IsSubsequence(a[1..], d)
    decreases |d|, 1
  {
    if a[0] == d[0] {
      SubsequenceExtend(a[1..], d);
    } else {
      SubsequenceDropHead(a, d[1..]);
      SubsequenceExtend(a[1..], d);
    }
  }

  /** Every sequence is a subsequence of itself. */
  lemma {:induction false} SubsequenceSelf<T(!new)>(s: seq<T>)
    ensures IsSubsequence(s, s)
    decreases |s|
  {
    if s != [] {
      SubsequenceSelf(s[1..]);
    }
  }

  /** A subsequence of a subsequence is a subsequence. */
  lemma {:induction false} SubsequenceTrans<T(!new)>(a: seq<T>, b: seq<T>, c: seq<T>)
    requires IsSubsequence(a, b) && IsSubsequence(b, c)
    ensures IsSubsequence(a, c)
    decreases |c|
  {
    if a != [] {
      if b[0] == c[0] {
        if a[0] == b[0] {
          SubsequenceTrans(a[1..], b[1..], c[1..]);
        } else {
          SubsequenceTrans(a, b[1..], c[1..]);
          SubsequenceExtend(a, c);
        }
      } else {
        SubsequenceTrans(a, b, c[1..]);
        SubsequenceExtend(a, c);
      }
    }
  }

  /** `s.filter(keep)`: the elements that pass, each as often as in `s`,
      none that fails, all in their original order. */
  function Filter<T(==,!new)>(s: seq<T>, keep: T -> bool): (r: seq<T>)
    ensures forall x :: x in r ==> keep(x)
    ensures forall x {:trigger multiset(r)[x]} :: keep(x) ==> multiset(r)[x] == multiset(s)[x]
    ensures IsSubsequence(r, s)
    ensures |r| <= |s|
  {
    if s == [] then []
    else
      var rest := Filter(s[1..], keep);
      assert s == [s[0]] + s[1..];
      if keep(s[0]) then [s[0]] + rest else rest
  }

  /** Membership in a filtered sequence, both ways. */
  lemma FilterMembers<T(!new)>(s: seq<T>, keep: T -> bool, x: T)
    ensures x in Filter(s, keep) <==> x in s && keep(x)
  {
    var r := Filter(s, keep);
    if keep(x) {
      assert multiset(r)[x] == multiset(s)[x];
    }
    if x in r {
      assert multiset(r)[x] > 0;
    }
  }

  /** Filtering with a test every element passes changes nothing. */
  lemma {:induction false} FilterAll<T(!new)>(s: seq<T>, keep: T -> bool)
    requires forall i :: 0 <= i < |s| ==> keep(s[i])
    ensures Filter(s, keep) == s
  {
    if s != [] {
      FilterAll(s[1..], keep);
    }
  }

  /** Filtering one more element at the end: the order-keeping step a loop
      that pushes passing elements takes. */
  lemma {:induction false} FilterSnoc<T(!new)>(s: seq<T>, x: T, keep: T -> bool)
    ensures Filter(s + [x], keep) == Filter(s, keep) + (if keep(x) then [x] else [])
    decreases |s|
  {
    if s == [] {
      assert [x][1..] == [];
    } else {
      var t := s + [x];
      assert t[0] == s[0] && t[1..] == s[1..] + [x];
      FilterSnoc(s[1..], x, keep);
      var head := if keep(s[0]) then [s[0]] else [];
      var tail := if keep(x) then [x] else [];
      assert Filter(t, keep) == head + (Filter(s[1..], keep) + tail);
      assert Filter(s, keep) == head + Filter(s[1..], keep);
      AppendAssoc(head, Filter(s[1..], keep), tail);
    }
  }

  lemma AppendAssoc<T>(a: seq<T>, b: seq<T>, c: seq<T>)
    ensures a + (b + c) == (a + b) + c
  {
  }

  /** A prefix one longer is the shorter prefix and one more element. */
  lemma TakeSnoc<T>(s: seq<T>, n: nat)
    requires 0 < n <= |s|
    ensures s[..n] == s[..n - 1] + [s[n - 1]]
  {
  }

  /** No element occurs twice. */
  predicate Distinct<T(==)>(s: seq<T>) {
    forall i, j :: 0 <= i < j < |s| ==> s[i] != s[j]
  }
}
