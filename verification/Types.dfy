/** Values shared by every component: src/types.rs and src/error.rs, plus the
    usual Option/Result datatypes and the model of a timed future. */
module Types {

  datatype Option<+T> = None | Some(value: T) {
    predicate IsFailure() {
      None?
    }

    function PropagateFailure<U>(): Option<U>
      requires None?
    {
      None
    }

    function Extract(): T
      requires Some?
    {
      value
    }
  }

  datatype Result<+T, +E> = Ok(value: T) | Err(error: E)

  datatype HealthStatus = Healthy | Degraded | Unhealthy

  datatype HealthCheckError =
    | CheckFailed(detail: string)
    | CheckPanicked(detail: string)
    | CheckTimedOut(limit: nat)
    | DependencyUnavailable(detail: string)
    | ShuttingDown

  type Outcome = Result<HealthStatus, HealthCheckError>

  /** `message` carries the error itself rather than its display text;
      `duration` is in nanoseconds. */
  datatype CheckResult =
    CheckResult(name: string, status: HealthStatus, message: Option<HealthCheckError>, duration: nat)

  /** A future, measured from its first poll: the instant at which it becomes
      ready and its value, or a computation that never finishes. */
  datatype Future<+T> = Ready(at: nat, value: T) | Never
}
