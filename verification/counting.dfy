/** Counting the elements of a sequence that satisfy a predicate, as the commands' counters do. */
module Counting {

  /** The number of elements satisfying `p`. */
  function CountIf<T>(xs: seq<T>, p: T -> bool): (n: nat)
    ensures n <= |xs|
  {
    if |xs| == 0 then 0
    else CountIf(xs[..|xs| - 1], p) + (if p(xs[|xs| - 1]) then 1 else 0)
  }

  /** Complementary predicates split the count. */
  lemma {:induction false} CountComplement<T>(xs: seq<T>, p: T -> bool, q: T -> bool)
    requires forall i :: 0 <= i < |xs| ==> (q(xs[i]) <==> !p(xs[i]))
    ensures CountIf(xs, p) + CountIf(xs, q) == |xs|
  {
    if |xs| > 0 {
      CountComplement(xs[..|xs| - 1], p, q);
    }
  }

  /** Disjoint predicates add up to their union. */
  lemma {:induction false} CountUnion<T>(xs: seq<T>, p: T -> bool, q: T -> bool, pq: T -> bool)
    requires forall i :: 0 <= i < |xs| ==> !(p(xs[i]) && q(xs[i]))
    requires forall i :: 0 <= i < |xs| ==> (pq(xs[i]) <==> p(xs[i]) || q(xs[i]))
    ensures CountIf(xs, pq) == CountIf(xs, p) + CountIf(xs, q)
  {
    if |xs| > 0 {
      CountUnion(xs[..|xs| - 1], p, q, pq);
    }
  }

  /** A predicate implied by another counts at least as much. */
  lemma {:induction false} CountMonotone<T>(xs: seq<T>, p: T -> bool, q: T -> bool)
    requires forall i :: 0 <= i < |xs| ==> (p(xs[i]) ==> q(xs[i]))
    ensures CountIf(xs, p) <= CountIf(xs, q)
  {
    if |xs| > 0 {
      CountMonotone(xs[..|xs| - 1], p, q);
    }
  }

  /** Counting along two sequences that agree pointwise. */
  lemma {:induction false} CountAlong<T, U>(xs: seq<T>, p: T -> bool, ys: seq<U>, q: U -> bool)
    requires |xs| == |ys|
    requires forall i :: 0 <= i < |xs| ==> (p(xs[i]) <==> q(ys[i]))
    ensures CountIf(xs, p) == CountIf(ys, q)
  {
    if |xs| > 0 {
      CountAlong(xs[..|xs| - 1], p, ys[..|ys| - 1], q);
    }
  }

  /** Counting by a predicate equivalent on every element gives the same count. */
  lemma {:induction false} CountAlongSame<T>(xs: seq<T>, p: T -> bool, q: T -> bool)
    requires forall i :: 0 <= i < |xs| ==> (p(xs[i]) <==> q(xs[i]))
    ensures CountIf(xs, p) == CountIf(xs, q)
  {
    CountAlong(xs, p, xs, q);
  }

  /** Every element satisfies `p` exactly when all are counted. */
  lemma {:induction false} CountAll<T>(xs: seq<T>, p: T -> bool)
    ensures CountIf(xs, p) == |xs| <==> forall i :: 0 <= i < |xs| ==> p(xs[i])
  {
    if |xs| > 0 {
      var init := xs[..|xs| - 1];
      CountAll(init, p);
      assert forall i :: 0 <= i < |init| ==> init[i] == xs[i];
    }
  }

  /** No element satisfies `p` exactly when none is counted. */
  lemma {:induction false} CountNone<T>(xs: seq<T>, p: T -> bool)
    ensures CountIf(xs, p) == 0 <==> forall i :: 0 <= i < |xs| ==> !p(xs[i])
  {
    if |xs| > 0 {
      var init := xs[..|xs| - 1];
      CountNone(init, p);
      assert forall i :: 0 <= i < |init| ==> init[i] == xs[i];
    }
  }
}
