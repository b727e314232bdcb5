/** The bounded retry helper the rkt runtime leans on (`self._retry`, defined
    outside the runtime): it calls a readiness step up to `attempts` times,
    stops at the first attempt that does not signal `NotYetReady`, and gives up
    with a terminal failure once every attempt has signalled it. The delay
    between attempts has no observable effect here and is left out. */
module Polling {

  /** What one readiness attempt reports: ready with a value, `NotYetReady`
      (retry), or any other error (propagated at once). */
  datatype Step<+S, +E> = Ready(value: S) | NotYetReady(reason: string) | Fatal(error: E)

  /** What the retry loop ends with, and how many attempts it made. */
  datatype Retried<+S, +E> = Done(value: S, tries: nat) | Exhausted(tries: nat) | Aborted(error: E, tries: nat)

  /** Attempts `from`, `from + 1`, ... up to `attempts - 1`. */
  function RetryFrom<S, E>(attempts: nat, step: nat -> Step<S, E>, from: nat): (r: Retried<S, E>)
    requires from <= attempts
    ensures r.Exhausted? <==> forall k :: from <= k < attempts ==> step(k).NotYetReady?
    ensures r.Exhausted? ==> r.tries == attempts
    ensures r.Done? ==>
      from < r.tries <= attempts && step(r.tries - 1) == Ready(r.value)
      && forall k :: from <= k < r.tries - 1 ==> step(k).NotYetReady?
    ensures r.Aborted? ==>
      from < r.tries <= attempts && step(r.tries - 1) == Fatal(r.error)
      && forall k :: from <= k < r.tries - 1 ==> step(k).NotYetReady?
    decreases attempts - from
  {
    if from == attempts then Exhausted(attempts)
    else
      match step(from)
      case Ready(v) => Done(v, from + 1)
      case Fatal(e) => Aborted(e, from + 1)
      case NotYetReady(_) => RetryFrom(attempts, step, from + 1)
  }

  /** `_retry(description, step)` with a budget of `attempts` calls: the outcome
      is decided by the first attempt that does not report `NotYetReady`, and
      the loop is exhausted exactly when every one of the `attempts` calls does. */
  function Retry<S, E>(attempts: nat, step: nat -> Step<S, E>): (r: Retried<S, E>)
    ensures r.Exhausted? <==> forall k :: 0 <= k < attempts ==> step(k).NotYetReady?
    ensures r.Exhausted? ==> r.tries == attempts
    ensures r.Done? ==>
      0 < r.tries <= attempts && step(r.tries - 1) == Ready(r.value)
      && forall k :: 0 <= k < r.tries - 1 ==> step(k).NotYetReady?
    ensures r.Aborted? ==>
      0 < r.tries <= attempts && step(r.tries - 1) == Fatal(r.error)
      && forall k :: 0 <= k < r.tries - 1 ==> step(k).NotYetReady?
  {
    RetryFrom(attempts, step, 0)
  }

  /** When attempt `k` is the first within the budget that does not report
      `NotYetReady`, the loop ends after exactly `k + 1` attempts with that
      attempt's value or error. */
  lemma RetryStopsAt<S, E>(attempts: nat, step: nat -> Step<S, E>, k: nat)
    requires k < attempts && !step(k).NotYetReady?
    requires forall i :: 0 <= i < k ==> step(i).NotYetReady?
    ensures step(k).Ready? ==> Retry(attempts, step) == Done(step(k).value, k + 1)
    ensures step(k).Fatal? ==> Retry(attempts, step) == Aborted(step(k).error, k + 1)
  {
    var r := Retry(attempts, step);
    assert !r.Exhausted?;
    assert r.tries - 1 <= k;
    assert r.tries - 1 >= k;
  }
}
