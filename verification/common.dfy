// Result types shared by the modules of this project.

module Common {

  newtype byte = x: int | 0 <= x < 256

  datatype Option<+T> = None | Some(value: T)

  datatype Result<+T, +E> = Ok(value: T) | Err(error: E)

  /** Read from the top, chained: the error of the first demand that is not met. */
  function Demand<E>(met: bool, error: E, others: Option<E>): (answer: Option<E>)
    ensures answer.None? <==> met && others.None?
  {
    if met then others else Some(error)
  }
}
