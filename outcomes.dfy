/** Optional values and error results shared by the time search, the overlap
    estimator and the top-level calculation. */
module Outcomes {

  /** A value that may be absent; `None` stands for the empty-string sentinel
      the calculator keeps until a best instant is found. */
  datatype Option<T> = None | Some(value: T)

  /** The ways the calculation stops without a value. */
  datatype Error =
    | EmptyRange     // random.randint(-g, g) with g < 0: the lattice range is empty
    | ZeroDivision   // no sample landed in the Sun: the coverage ratio divides by zero
    | UnknownOffset  // the UTC offset has no entry in the timezone-name table
    | NoBestTime     // no second beat the sentinel, so the best time is still the empty string

  datatype Result<T> = Ok(value: T) | Err(error: Error)
}
