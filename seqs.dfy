/** Generic facts about sequences used by the filters of the chart. */
module Seqs {

  /** The indices `i < n` for which `p(i)` holds, in ascending order: the
      positions a filtering `forEach` keeps. */
  function IndicesWhere(n: nat, p: nat -> bool): seq<nat>
  {
    if n == 0 then [] else IndicesWhere(n - 1, p) + (if p(n - 1) then [n - 1] else [])
  }

  ghost predicate StrictlyIncreasing(s: seq<nat>)
  {
    forall a, b :: 0 <= a < b < |s| ==> s[a] < s[b]
  }

  /** IndicesWhere(n, p) is exactly the ascending list of the indices below
      `n` that satisfy `p`. */
  lemma {:induction false} IndicesWhereSpec(n: nat, p: nat -> bool)
    ensures StrictlyIncreasing(IndicesWhere(n, p))
    ensures forall a :: 0 <= a < |IndicesWhere(n, p)| ==> IndicesWhere(n, p)[a] < n && p(IndicesWhere(n, p)[a])
    ensures forall i :: 0 <= i < n && p(i) ==> i in IndicesWhere(n, p)
  {
    if n > 0 {
      IndicesWhereSpec(n - 1, p);
    }
  }

  /** How many times `x` occurs in `s`. */
  function Count<T(==)>(s: seq<T>, x: T): nat
  {
    if s == [] then 0 else Count(s[..|s| - 1], x) + (if s[|s| - 1] == x then 1 else 0)
  }

  /** `k` copies of `x`. */
  function Repeat<T>(x: T, k: nat): (r: seq<T>)
    ensures |r| == k
    ensures forall i :: 0 <= i < k ==> r[i] == x
  {
    if k == 0 then [] else Repeat(x, k - 1) + [x]
  }

  lemma {:induction false} CountAppend<T>(s: seq<T>, t: seq<T>, x: T)
    ensures Count(s + t, x) == Count(s, x) + Count(t, x)
    decreases |t|
  {
    if t == [] {
      assert s + t == s;
    } else {
      var t' := t[..|t| - 1];
      assert (s + t)[..|s + t| - 1] == s + t';
      CountAppend(s, t', x);
    }
  }

  lemma {:induction false} CountRepeat<T>(y: T, k: nat, x: T)
    ensures Count(Repeat(y, k), x) == if x == y then k else 0
  {
    if k > 0 {
      assert Repeat(y, k)[..k - 1] == Repeat(y, k - 1);
      CountRepeat(y, k - 1, x);
    }
  }

  /** Count agrees with the multiset of the sequence, so it does not
      depend on the order of the elements. */
  lemma {:induction false} CountIsMultiplicity<T>(s: seq<T>, x: T)
    ensures Count(s, x) == multiset(s)[x]
  {
    if s != [] {
      var init := s[..|s| - 1];
      assert s == init + [s[|s| - 1]];
      CountIsMultiplicity(init, x);
    }
  }
}
