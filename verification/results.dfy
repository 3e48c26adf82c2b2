/** Failure-compatible wrappers used by every stage of the assembler.

  The assembler aborts the whole run on the first error it meets (usage,
  lexical, syntactic, capacity or internal consistency), so a single
  payload-free `Failure` stands for every abort path.
*/
module Results {

  datatype Option<+T> = None | Some(value: T)

  datatype Result<+T> = Success(value: T) | Failure {

    predicate IsFailure() {
      Failure?
    }

    function PropagateFailure<U>(): Result<U>
      requires Failure?
    {
      Failure
    }

    function Extract(): T
      requires Success?
    {
      value
    }
  }
}
