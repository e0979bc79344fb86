/** Order-preserving selection from a sequence, the shape shared by
    `Array.prototype.filter` and by `DELETE ... WHERE`. */
module Seqs {

  /** `a` is obtained from `b` by deleting elements: same relative order. */
  predicate IsSubseq<T(==)>(a: seq<T>, b: seq<T>)
    decreases |b|
  {
    a == [] ||
    (b != [] && ((a[0] == b[0] && IsSubseq(a[1..], b[1..])) || IsSubseq(a, b[1..])))
  }

  /** Every sequence is a subsequence of itself. */
  lemma {:induction false} SubseqReflexive<T>(s: seq<T>)
    ensures IsSubseq(s, s)
    decreases |s|
  {
    if s != [] {
      SubseqReflexive(s[1..]);
    }
  }

  /** The elements of `s` that satisfy `p`, in their order in `s`. */
  function Select<T>(s: seq<T>, p: T -> bool): seq<T>
    decreases |s|
  {
    if s == [] then []
    else if p(s[0]) then [s[0]] + Select(s[1..], p)
    else Select(s[1..], p)
  }

  /** Selection yields a subsequence of `s` that keeps every occurrence of an
      element satisfying `p` and no occurrence of any other element; when
      every element satisfies `p` it is `s` itself. */
  lemma {:induction false} SelectSpec<T(!new)>(s: seq<T>, p: T -> bool)
    ensures IsSubseq(Select(s, p), s)
    ensures forall x :: multiset(Select(s, p))[x] == if p(x) then multiset(s)[x] else 0
    ensures forall x :: x in Select(s, p) <==> x in s && p(x)
    ensures (forall x :: x in s ==> p(x)) ==> Select(s, p) == s
    decreases |s|
  {
    if s != [] {
      SelectSpec(s[1..], p);
      assert s == [s[0]] + s[1..];
      var rest := Select(s[1..], p);
      if p(s[0]) {
        assert ([s[0]] + rest)[1..] == rest;
      }
    }
  }

  /** Selection depends only on the values the predicate takes on the sequence. */
  lemma {:induction false} SelectAgreeing<T(!new)>(s: seq<T>, p: T -> bool, q: T -> bool)
    requires forall x :: x in s ==> p(x) == q(x)
    ensures Select(s, p) == Select(s, q)
    decreases |s|
  {
    if s != [] {
      SelectAgreeing(s[1..], p, q);
    }
  }
}
