/** Failure-carrying results shared by the skip list and the sorted set.

    The Go code signals a programmer error by panicking; here each panic
    becomes a `Panic` value naming which check refused the call, so that a
    contract can say exactly when an operation fails. */
module Outcomes {

  /** One constructor per distinct panic of the source. */
  datatype Error =
    | LevelsBelowOne   // SkipList.Init with maxLevels < 1
    | KeyBelowMin      // a single key below minKey
    | BoundBelowMin    // a range bound below minKey
    | EmptyRange       // keyMin >= keyMax (rankMin >= rankMax)
    | NegativeRank     // a rank below zero given to the sorted set

  datatype Result<+T> = Ok(value: T) | Panic(error: Error)

  /** Stands for a Go value that may be nil: a callback or a map result. */
  datatype Option<+T> = None | Some(value: T)
}
