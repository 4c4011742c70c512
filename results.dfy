/** Optional values, results, and the exceptions of the vocabulary code that
    the model carries as values. */
module Results {

  datatype Option<T> = None | Some(value: T)

  /** The outcome of an operation that may raise instead of returning. */
  datatype Result<R, E> = Success(value: R) | Failure(error: E)

  /** The exceptions raised by the code of src/vocabulary.py itself: a dict
      lookup of an unknown term (`KeyError`) and `tf` on a row whose total is
      zero. Errors raised inside pandas are not among them. */
  datatype Error<T> = KeyError(term: T) | ZeroDivisionError
}
