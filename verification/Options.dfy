module Options {
  datatype Option<+T> = None | Some(value: T)

  // ----- a loop that may give up -----

  /** step(k), step(k + 1), ... step(n - 1) one after the other, from r, as long as all succeed. */
  function Repeat<R>(step: (nat, R) -> Option<R>, k: nat, n: nat, r: R): Option<R>
    requires k <= n
    decreases n - k
  {
    if k == n then Some(r)
    else
      match step(k, r)
      case None => None
      case Some(r') => Repeat(step, k + 1, n, r')
  }

  ghost predicate StepsTo<R(!new)>(step: (nat, R) -> Option<R>, path: nat -> R, k: nat) {
    step(k, path(k)) == Some(path(k + 1))
  }

  lemma StepIs<R(!new)>(step: (nat, R) -> Option<R>, path: nat -> R, k: nat, r: R, r': R)
    requires path(k) == r && path(k + 1) == r' && step(k, r) == Some(r')
    ensures StepsTo(step, path, k)
  {
  }

  /** The loop goes along any path that each of its steps goes along. */
  lemma {:induction false} RepeatFollows<R(!new)>(step: (nat, R) -> Option<R>, path: nat -> R, k: nat, n: nat)
    requires k <= n && forall i: nat | i < n :: StepsTo(step, path, i)
    ensures Repeat(step, k, n, path(k)) == Some(path(n))
    decreases n - k
  {
    if k < n {
      assert StepsTo(step, path, k);
      RepeatFollows(step, path, k + 1, n);
    }
  }

  ghost predicate StepKeeps<R(!new)>(step: (nat, R) -> Option<R>, inv: R -> bool, k: nat, r: R) {
    inv(r) && step(k, r).Some? ==> inv(step(k, r).value)
  }

  /** What every step keeps, the loop keeps. */
  lemma {:induction false} RepeatKeeps<R(!new)>(step: (nat, R) -> Option<R>, inv: R -> bool, k: nat, n: nat, r: R)
    requires k <= n && inv(r) && forall i: nat, q: R :: StepKeeps(step, inv, i, q)
    ensures Repeat(step, k, n, r).Some? ==> inv(Repeat(step, k, n, r).value)
    decreases n - k
  {
    if k < n && step(k, r).Some? {
      assert StepKeeps(step, inv, k, r);
      RepeatKeeps(step, inv, k + 1, n, step(k, r).value);
    }
  }

  ghost predicate StepExtends<R(!new)>(step: (nat, R) -> Option<R>, step': (nat, R) -> Option<R>, k: nat, r: R) {
    step(k, r).Some? ==> step'(k, r) == step(k, r)
  }

  /** Where each step of one loop does what the other one's does, so does the loop. */
  lemma {:induction false} RepeatExtends<R(!new)>(step: (nat, R) -> Option<R>, step': (nat, R) -> Option<R>, k: nat,
      n: nat, r: R)
    requires k <= n && Repeat(step, k, n, r).Some? && forall i: nat, q: R :: StepExtends(step, step', i, q)
    ensures Repeat(step', k, n, r) == Repeat(step, k, n, r)
    decreases n - k
  {
    if k < n {
      assert StepExtends(step, step', k, r);
      RepeatExtends(step, step', k + 1, n, step(k, r).value);
    }
  }
}
