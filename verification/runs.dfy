/** Running a list of steps on a state until one is refused. */
module Runs {
  import opened Wrappers

  /** Which step was refused, and why. */
  datatype Stop<+E> = Stop(step: nat, reason: E)

  /** The state after `steps`, or the refusal of the first step that does not pass its check;
      `k` is the number of the first step. */
  function RunFrom<S, P, E>(check: (P, S) -> Result<(), E>, apply: (P, S) -> S,
                            s: S, steps: seq<P>, k: nat): Result<S, Stop<E>>
    decreases |steps|
  {
    if steps == [] then Ok(s)
    else match check(steps[0], s)
      case Err(e) => Err(Stop(k, e))
      case Ok(_) => RunFrom(check, apply, apply(steps[0], s), steps[1..], k + 1)
  }

  lemma {:induction false} RunConcat<S, P, E>(check: (P, S) -> Result<(), E>, apply: (P, S) -> S,
                                              s: S, p: seq<P>, q: seq<P>, k: nat)
    ensures RunFrom(check, apply, s, p + q, k) ==
      var r := RunFrom(check, apply, s, p, k);
      if r.Err? then r else RunFrom(check, apply, r.value, q, k + |p|)
    decreases |p|
  {
    if p == [] {
      assert p + q == q;
    } else {
      assert (p + q)[1..] == p[1..] + q;
      RunConcat(check, apply, apply(p[0], s), p[1..], q, k + 1);
    }
  }

  function Shifted<S, E>(r: Result<S, Stop<E>>, j: nat): Result<S, Stop<E>> {
    if r.Ok? then r else Err(Stop(r.error.step + j, r.error.reason))
  }

  lemma {:induction false} RunShift<S, P, E>(check: (P, S) -> Result<(), E>, apply: (P, S) -> S,
                                             s: S, steps: seq<P>, k: nat, j: nat)
    ensures RunFrom(check, apply, s, steps, k + j) == Shifted(RunFrom(check, apply, s, steps, k), j)
    ensures RunFrom(check, apply, s, steps, k).Err? ==>
      k <= RunFrom(check, apply, s, steps, k).error.step < k + |steps|
    decreases |steps|
  {
    if steps != [] { RunShift(check, apply, apply(steps[0], s), steps[1..], k + 1, j); }
  }

  lemma StopIsLeast<S, P, E>(check: (P, S) -> Result<(), E>, apply: (P, S) -> S,
                             s: S, steps: seq<P>, k: nat, e: E)
    requires k <= |steps|
    ensures RunFrom(check, apply, s, steps, 0) == Err(Stop(k, e)) <==>
      && k < |steps|
      && RunFrom(check, apply, s, steps[..k], 0).Ok?
      && check(steps[k], RunFrom(check, apply, s, steps[..k], 0).value) == Err(e)
  {
    assert steps == steps[..k] + steps[k..];
    RunConcat(check, apply, s, steps[..k], steps[k..], 0);
    RunShift(check, apply, s, steps[..k], 0, 0);
    if k < |steps| && RunFrom(check, apply, s, steps[..k], 0).Ok? {
      var t := RunFrom(check, apply, s, steps[..k], 0).value;
      RunShift(check, apply, apply(steps[k], t), steps[k..][1..], k + 1, 0);
    }
  }

  lemma RunConcatShift<S, P, E>(check: (P, S) -> Result<(), E>, apply: (P, S) -> S,
                                s: S, p: seq<P>, q: seq<P>)
    ensures RunFrom(check, apply, s, p, 0).Err? ==>
      RunFrom(check, apply, s, p + q, 0) == RunFrom(check, apply, s, p, 0)
    ensures RunFrom(check, apply, s, p, 0).Ok? ==>
      var t := RunFrom(check, apply, s, p, 0).value;
      RunFrom(check, apply, s, p + q, 0) == Shifted(RunFrom(check, apply, t, q, 0), |p|)
  {
    RunConcat(check, apply, s, p, q, 0);
    if RunFrom(check, apply, s, p, 0).Ok? {
      RunShift(check, apply, RunFrom(check, apply, s, p, 0).value, q, 0, |p|);
    }
  }

  /** Every step of an accepted run passed its check, in the state the earlier ones left. */
  lemma AcceptedStep<S, P, E>(check: (P, S) -> Result<(), E>, apply: (P, S) -> S,
                              s: S, steps: seq<P>, i: nat)
    requires RunFrom(check, apply, s, steps, 0).Ok? && i < |steps|
    ensures RunFrom(check, apply, s, steps[..i], 0).Ok?
    ensures var t := RunFrom(check, apply, s, steps[..i], 0).value;
      && check(steps[i], t).Ok?
      && RunFrom(check, apply, s, steps[..i + 1], 0) == Ok(apply(steps[i], t))
  {
    assert steps == steps[..i] + steps[i..];
    RunConcat(check, apply, s, steps[..i], steps[i..], 0);
    assert steps[..i + 1] == steps[..i] + [steps[i]];
    RunConcat(check, apply, s, steps[..i], [steps[i]], 0);
  }
}
