/** Repeating a step until there is nothing left to do. */
module Iteration {

  /** `k` steps from `s`; a step also sees how many came before it, counted from `start`. */
  function Iterate<S>(step: (S, nat) -> S, s: S, start: nat, k: nat): S
    decreases k
  {
    if k == 0 then s else Iterate(step, step(s, start), start + 1, k - 1)
  }

  /** Every step with something left to do stays good and lowers the measure. */
  ghost predicate Descends<S(!new)>(step: (S, nat) -> S, good: S -> bool, done: S -> bool, measure: S -> nat) {
    forall s, i: nat {:trigger step(s, i)} :: good(s) && !done(s) ==> good(step(s, i)) && measure(step(s, i)) < measure(s)
  }

  /** Such a repetition is done after at most as many steps as the measure says. */
  lemma {:induction false} Reaches<S(!new)>(step: (S, nat) -> S, good: S -> bool, done: S -> bool, measure: S -> nat,
                                            s: S, start: nat) returns (k: nat)
    requires Descends(step, good, done, measure) && good(s)
    ensures k <= measure(s) && good(Iterate(step, s, start, k)) && done(Iterate(step, s, start, k))
    decreases measure(s)
  {
    if done(s) {
      k := 0;
    } else {
      var rest := Reaches(step, good, done, measure, step(s, start), start + 1);
      k := rest + 1;
    }
  }

  /** `k` steps of one kind. */
  function Advance<S>(step: S -> S, s: S, k: nat): S
    decreases k
  {
    if k == 0 then s else Advance(step, step(s), k - 1)
  }

  lemma {:induction false} AdvanceAdd<S>(step: S -> S, s: S, j: nat, k: nat)
    ensures Advance(step, s, j + k) == Advance(step, Advance(step, s, j), k)
    decreases j
  {
    if j > 0 {
      AdvanceAdd(step, step(s), j - 1, k);
      assert Advance(step, s, j + k) == Advance(step, step(s), j - 1 + k);
    }
  }

  /** What every step keeps, all of them keep. */
  lemma {:induction false} AdvanceKeeps<S(!new)>(step: S -> S, keeps: S -> bool, s: S, k: nat)
    requires forall n {:trigger step(n)} :: keeps(n) ==> keeps(step(n))
    requires keeps(s)
    ensures keeps(Advance(step, s, k))
    decreases k
  {
    if k > 0 {
      AdvanceKeeps(step, keeps, step(s), k - 1);
    }
  }

  function Times(size: nat, k: nat): nat {
    if k == 0 then 0 else Times(size, k - 1) + size
  }

  /** What moves on by one every `size` steps has moved on by `k` after `k` such rounds. */
  lemma {:induction false} RoundsKeep<S(!new)>(step: S -> S, keeps: (S, nat) -> bool, s: S, size: nat, rounds: nat, k: nat)
    requires forall n, j: nat {:trigger keeps(n, j), Advance(step, n, size)} :: keeps(n, j) && j < rounds ==> keeps(Advance(step, n, size), j + 1)
    requires keeps(s, 0) && k <= rounds
    ensures keeps(Advance(step, s, Times(size, k)), k)
  {
    if k > 0 {
      RoundsKeep(step, keeps, s, size, rounds, k - 1);
      AdvanceAdd(step, s, Times(size, k - 1), size);
    }
  }
}
