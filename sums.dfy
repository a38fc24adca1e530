/** Finite sums of real-valued terms, accumulated left to right as the
    matrix product of matrix.h accumulates its inner products. */
module Sums {

  /** f(0) + f(1) + ... + f(n-1), starting from 0. */
  function Sum(f: nat -> real, n: nat): real
  {
    if n == 0 then 0.0 else Sum(f, n - 1) + f(n - 1)
  }

  /** Sums of terms that agree below n are equal. */
  lemma {:induction false} SumAgree(f: nat -> real, g: nat -> real, n: nat)
    requires forall k: nat :: k < n ==> f(k) == g(k)
    ensures Sum(f, n) == Sum(g, n)
  {
    if n > 0 {
      SumAgree(f, g, n - 1);
    }
  }

  /** A sum of zero terms is zero. */
  lemma {:induction false} SumZero(f: nat -> real, n: nat)
    requires forall k: nat :: k < n ==> f(k) == 0.0
    ensures Sum(f, n) == 0.0
  {
    if n > 0 {
      SumZero(f, n - 1);
    }
  }

  /** The sum of termwise sums is the sum of the two sums. */
  lemma {:induction false} SumAdd(f: nat -> real, g: nat -> real, n: nat)
    ensures Sum((k: nat) => f(k) + g(k), n) == Sum(f, n) + Sum(g, n)
  {
    if n > 0 {
      SumAdd(f, g, n - 1);
    }
  }

  /** Termwise u = g * c gives Sum(u) = Sum(g) * c. */
  lemma {:induction false} SumScaledTerms(u: nat -> real, g: nat -> real, c: real, n: nat)
    requires forall k: nat :: k < n ==> u(k) == g(k) * c
    ensures Sum(u, n) == Sum(g, n) * c
  {
    if n > 0 {
      SumScaledTerms(u, g, c, n - 1);
    }
  }

  /** Termwise u = c * g gives Sum(u) = c * Sum(g). */
  lemma {:induction false} SumScaledTermsLeft(u: nat -> real, g: nat -> real, c: real, n: nat)
    requires forall k: nat :: k < n ==> u(k) == c * g(k)
    ensures Sum(u, n) == c * Sum(g, n)
  {
    if n > 0 {
      SumScaledTermsLeft(u, g, c, n - 1);
    }
  }

  /** Termwise u = g - c * h gives Sum(u) = Sum(g) - c * Sum(h). */
  lemma {:induction false} SumCombination(u: nat -> real, g: nat -> real, h: nat -> real, c: real, n: nat)
    requires forall k: nat :: k < n ==> u(k) == g(k) - c * h(k)
    ensures Sum(u, n) == Sum(g, n) - c * Sum(h, n)
  {
    if n > 0 {
      SumCombination(u, g, h, c, n - 1);
    }
  }

  /** Two sums whose terms differ only at position a differ by the
      difference of those two terms. */
  lemma {:induction false} SumDiffOne(f: nat -> real, g: nat -> real, n: nat, a: nat)
    requires a < n
    requires forall k: nat :: k < n && k != a ==> f(k) == g(k)
    ensures Sum(f, n) - Sum(g, n) == f(a) - g(a)
  {
    if a == n - 1 {
      SumAgree(f, g, n - 1);
    } else {
      SumDiffOne(f, g, n - 1, a);
    }
  }

  /** A sum with a single possibly-nonzero term equals that term. */
  lemma SumOnePoint(f: nat -> real, n: nat, a: nat)
    requires a < n
    requires forall k: nat :: k < n && k != a ==> f(k) == 0.0
    ensures Sum(f, n) == f(a)
  {
    var z: nat -> real := (k: nat) => 0.0;
    SumDiffOne(f, z, n, a);
    SumZero(z, n);
  }

  /** Two sums whose terms differ only at positions a and b, where the two
      differences cancel, are equal. */
  lemma SumDiffTwo(f: nat -> real, g: nat -> real, n: nat, a: nat, b: nat)
    requires a < n && b < n && a != b
    requires forall k: nat :: k < n && k != a && k != b ==> f(k) == g(k)
    requires f(a) + f(b) == g(a) + g(b)
    ensures Sum(f, n) == Sum(g, n)
  {
    var h: nat -> real := (k: nat) => if k == a then g(a) else f(k);
    SumDiffOne(f, h, n, a);
    SumDiffOne(h, g, n, b);
  }

  /** Sum over the second argument of F, with the first fixed at k. */
  function SumSecond(F: (nat, nat) -> real, k: nat, L: nat): real
  {
    Sum((l: nat) => F(k, l), L)
  }

  /** Sum over the first argument of F, with the second fixed at l. */
  function SumFirst(F: (nat, nat) -> real, l: nat, K: nat): real
  {
    Sum((k: nat) => F(k, l), K)
  }

  /** Finite double sums may be taken in either order. */
  lemma {:induction false} SumSwap(F: (nat, nat) -> real, K: nat, L: nat)
    ensures Sum((k: nat) => SumSecond(F, k, L), K) == Sum((l: nat) => SumFirst(F, l, K), L)
  {
    if K == 0 {
      SumZero((l: nat) => SumFirst(F, l, K), L);
    } else {
      SumSwap(F, K - 1, L);
      var prev: nat -> real := (l: nat) => SumFirst(F, l, K - 1);
      var last: nat -> real := (l: nat) => F(K - 1, l);
      SumAdd(prev, last, L);
      SumAgree((l: nat) => SumFirst(F, l, K), (l: nat) => prev(l) + last(l), L);
    }
  }
}
