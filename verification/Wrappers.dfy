/** Optional values and error returns, shared by every component. */
module Wrappers {
  datatype Option<+T> = None | Some(value: T)

  datatype Result<+T, +E> = Ok(value: T) | Err(error: E)

  /** Runs `step` up to `n` times, collecting the results and stopping at the first error. */
  function Repeat<S, A, E>(step: S -> (S, Result<A, E>), s: S, n: nat): (S, seq<A>, Option<E>) {
    if n == 0 then (s, [], None)
    else
      var (s1, done, failed) := Repeat(step, s, n - 1);
      if failed.Some? then (s1, done, failed)
      else
        var (s2, r) := step(s1);
        if r.Ok? then (s2, done + [r.value], None) else (s2, done, Some(r.error))
  }

  /** Once a run has failed, asking for more steps changes nothing. */
  lemma {:induction false} FailureEndsRun<S, A, E>(step: S -> (S, Result<A, E>), s: S, k: nat, n: nat)
    requires k <= n && Repeat(step, s, k).2.Some?
    ensures Repeat(step, s, n) == Repeat(step, s, k)
    decreases n
  {
    if k < n {
      FailureEndsRun(step, s, k, n - 1);
    }
  }
}
