/** The success/failure carrier every solver returns, and the solution variant it is asked for. */
module Results {

  datatype Option<+T> = None | Some(value: T)

  /** A failure: its reason and, optionally, the failure that caused it. */
  datatype Failure = Failure(reason: string, inner: Option<Failure>)

  datatype Result<+T> = Ok(value: T) | Fail(failure: Failure)

  /** `Result.Fail(reason, innerResult)` */
  function FailWith<T>(reason: string, inner: Option<Failure>): Result<T>
  {
    Fail(Failure(reason, inner))
  }

  /** The two named members of the enum. A nullable variant is an `Option<SolutionVariant>`;
      an integer outside the enum compares unequal to both, exactly as `None` does. */
  datatype SolutionVariant = PartOne | PartTwo
}
