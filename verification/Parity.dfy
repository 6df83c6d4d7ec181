/** The parity of a permutation, counted by inversions, and what a transposition does to it. */
module Parity {
  import opened LinearAlgebra
  import opened CroutTheory

  /** Whether the number of positions up to i holding something larger than position j holds is odd. */
  ghost predicate OddBefore(p: int -> int, j: int, i: int)
    decreases i
  {
    i >= 1 && OddBefore(p, j, i - 1) != (p(i) > p(j))
  }

  /** Whether p has an odd number of inversions among positions 1..n. */
  ghost predicate Odd(p: int -> int, n: int)
    decreases n
  {
    n >= 1 && Odd(p, n - 1) != OddBefore(p, n, n - 1)
  }

  ghost predicate Injective(p: int -> int, n: int) {
    forall i, j :: 1 <= i < j <= n ==> p(i) != p(j)
  }

  ghost function Exchanged(p: int -> int, k: int, l: int): int -> int { i => p(Swap(k, l, i)) }

  lemma ExchangedValues(p: int -> int, k: int, l: int)
    ensures forall i :: Exchanged(p, k, l)(i) == p(Swap(k, l, i))
  {
  }

  lemma {:induction false} OddBeforeCongruence(p: int -> int, q: int -> int, j: int, j': int, i: int)
    requires q(j') == p(j) && forall r :: 1 <= r <= i ==> q(r) == p(r)
    ensures OddBefore(q, j', i) == OddBefore(p, j, i)
    decreases i
  {
    if i >= 1 { OddBeforeCongruence(p, q, j, j', i - 1); }
  }

  lemma {:induction false} OddCongruence(p: int -> int, q: int -> int, n: int)
    requires forall r :: 1 <= r <= n ==> q(r) == p(r)
    ensures Odd(q, n) == Odd(p, n)
    decreases n
  {
    if n >= 1 {
      OddCongruence(p, q, n - 1);
      OddBeforeCongruence(p, q, n, n, n - 1);
    }
  }

  /** Exchanging two neighbours does not change how many larger values precede a later position. */
  lemma {:induction false} NeighboursBefore(p: int -> int, k: int, j: int, i: int)
    requires 1 <= k && k + 1 <= i < j
    ensures OddBefore(Exchanged(p, k, k + 1), j, i) == OddBefore(p, j, i)
    decreases i
  {
    var q := Exchanged(p, k, k + 1);
    ExchangedValues(p, k, k + 1);
    if i == k + 1 {
      OddBeforeCongruence(p, q, j, j, k - 1);
      assert OddBefore(q, j, k) == (OddBefore(q, j, k - 1) != (p(k + 1) > p(j)));
      assert OddBefore(p, j, k) == (OddBefore(p, j, k - 1) != (p(k) > p(j)));
    } else {
      NeighboursBefore(p, k, j, i - 1);
    }
  }

  lemma {:induction false} NeighboursFlip(p: int -> int, k: int, n: int)
    requires 1 <= k && k + 1 <= n && p(k) != p(k + 1)
    ensures Odd(Exchanged(p, k, k + 1), n) != Odd(p, n)
    decreases n
  {
    var q := Exchanged(p, k, k + 1);
    ExchangedValues(p, k, k + 1);
    if n == k + 1 {
      NeighboursCounted(p, k);
    } else {
      NeighboursFlip(p, k, n - 1);
      NeighboursBefore(p, k, n, n - 1);
    }
  }

  lemma NeighboursCounted(p: int -> int, k: int)
    requires 1 <= k && p(k) != p(k + 1)
    ensures Odd(Exchanged(p, k, k + 1), k + 1) != Odd(p, k + 1)
  {
    var q := Exchanged(p, k, k + 1);
    ExchangedValues(p, k, k + 1);
    OddCongruence(p, q, k - 1);
    OddBeforeCongruence(p, q, k + 1, k, k - 1);
    OddBeforeCongruence(p, q, k, k + 1, k - 1);
    assert Odd(p, k) == (Odd(p, k - 1) != OddBefore(p, k, k - 1));
    assert Odd(q, k) == (Odd(q, k - 1) != OddBefore(q, k, k - 1));
  }

  /** A transposition of two positions flips the parity. */
  lemma {:induction false} TranspositionFlips(p: int -> int, k: int, l: int, n: int)
    requires 1 <= k < l <= n && Injective(p, n)
    ensures Odd(Exchanged(p, k, l), n) != Odd(p, n)
    decreases l - k
  {
    hide Odd;
    if l == k + 1 {
      NeighboursFlip(p, k, n);
    } else {
      var q1 := Exchanged(p, l - 1, l);
      var q2 := Exchanged(q1, k, l - 1);
      var q3 := Exchanged(q2, l - 1, l);
      ExchangedValues(p, l - 1, l);
      ExchangedValues(q1, k, l - 1);
      ExchangedValues(q2, l - 1, l);
      ExchangedValues(p, k, l);
      NeighboursFlip(p, l - 1, n);
      TranspositionFlips(q1, k, l - 1, n);
      NeighboursFlip(q2, l - 1, n);
      OddCongruence(Exchanged(p, k, l), q3, n);
    }
  }

  lemma {:induction false} IdentityEven(n: int)
    ensures !Odd(i => i, n)
    decreases n
  {
    if n >= 1 {
      IdentityEven(n - 1);
      NothingLarger(n, n - 1);
    }
  }

  lemma {:induction false} NothingLarger(j: int, i: int)
    requires i < j
    ensures !OddBefore(r => r, j, i)
    decreases i
  {
    if i >= 1 { NothingLarger(j, i - 1); }
  }

  /** One more recorded interchange flips the parity exactly when it moves something. */
  lemma InterchangeFlips(index: int -> int, n: int, k: int)
    requires 1 <= k <= n && IsInterchange(index, n, k)
    ensures Odd(Permuted(index, k), n) == (Odd(Permuted(index, k - 1), n) != (index(k) != k))
  {
    hide Odd;
    var p, q := Permuted(index, k - 1), Permuted(index, k);
    PermutedInjective(index, n, k - 1);
    OddCongruence(Exchanged(p, k, index(k)), q, n);
    if index(k) != k {
      TranspositionFlips(p, k, index(k), n);
    } else {
      OddCongruence(p, q, n);
    }
  }

  lemma PermutedInjective(index: int -> int, n: int, k: nat)
    requires k <= n && IsInterchange(index, n, k)
    ensures Injective(Permuted(index, k), n)
  {
    hide Permuted, Unpermuted;
    forall i, j | 1 <= i < j <= n ensures Permuted(index, k)(i) != Permuted(index, k)(j) {
      PermutationInverse(index, n, k, i);
      PermutationInverse(index, n, k, j);
    }
  }
}
