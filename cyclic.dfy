/**
 * Circular indexing shared by the gallery lightbox (`next`/`prev`) and the hero
 * carousel (`goNext`/`goPrev`/autoplay). Both components compute
 * `(i + 1) % n` and `(i - 1 + n) % n` on indices already in `[0, n)`; the operands
 * of `%` are never negative there, so JavaScript's truncating remainder and
 * Dafny's Euclidean one agree.
 */
module Cyclic {

  /** The slot after `i` in a ring of `n` slots: `(i + 1) % n`. */
  function Succ(i: nat, n: nat): (r: nat)
    requires i < n
    ensures r < n
    ensures r == if i == n - 1 then 0 else i + 1
  {
    (i + 1) % n
  }

  /** The slot before `i` in a ring of `n` slots: `(i - 1 + n) % n`. */
  function Pred(i: nat, n: nat): (r: nat)
    requires i < n
    ensures r < n
    ensures r == if i == 0 then n - 1 else i - 1
  {
    (i - 1 + n) % n
  }

  /** Stepping back undoes stepping forward. */
  lemma PredSucc(i: nat, n: nat)
    requires i < n
    ensures Pred(Succ(i, n), n) == i
  {
  }

  /** Stepping forward undoes stepping back. */
  lemma SuccPred(i: nat, n: nat)
    requires i < n
    ensures Succ(Pred(i, n), n) == i
  {
  }

  /** `k` forward steps from `i`. */
  function Advance(i: nat, n: nat, k: nat): (r: nat)
    requires i < n
    ensures r < n
    decreases k
  {
    if k == 0 then i else Advance(Succ(i, n), n, k - 1)
  }

  /** Taking `a` steps and then `b` steps is taking `a + b` steps. */
  lemma {:induction false} AdvanceAdd(i: nat, n: nat, a: nat, b: nat)
    requires i < n
    ensures Advance(Advance(i, n, a), n, b) == Advance(i, n, a + b)
    decreases a
  {
    if a > 0 {
      AdvanceAdd(Succ(i, n), n, a - 1, b);
    }
  }

  /** Before reaching the end of the ring, `k` steps simply add `k`. */
  lemma {:induction false} AdvanceWithinTurn(i: nat, n: nat, k: nat)
    requires i + k < n
    ensures Advance(i, n, k) == i + k
    decreases k
  {
    if k > 0 {
      AdvanceWithinTurn(i + 1, n, k - 1);
    }
  }

  /** From `i`, `n - i` steps wrap round to the first slot. */
  lemma AdvanceToStart(i: nat, n: nat)
    requires i < n
    ensures Advance(i, n, n - i) == 0
  {
    AdvanceWithinTurn(i, n, n - 1 - i);
    AdvanceAdd(i, n, n - 1 - i, 1);
  }

  /** `n` forward steps go once round the ring and come back to `i`. */
  lemma FullTurn(i: nat, n: nat)
    requires i < n
    ensures Advance(i, n, n) == i
  {
    AdvanceToStart(i, n);
    AdvanceAdd(i, n, n - i, i);
    AdvanceWithinTurn(0, n, i);
  }
}
