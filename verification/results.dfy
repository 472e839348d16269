/** Outcomes of the modelled Python calls: optional values, raised
    exceptions, and calls that would wait forever. */
module Results {

  /** Python's `None` or a value. */
  datatype Option<T> = None | Some(value: T)

  /** The Python exception classes the modelled code can raise. */
  datatype Error =
    | ValueError      // bad argument value, failed `int()`, bad read length
    | TypeError       // arithmetic on a missing (`None`) probe field
    | AssertionError  // a failed `assert`
    | RuntimeError    // starting a thread twice, joining one never started

  /** A call that returns a value or raises. */
  datatype Result<T> = Ok(value: T) | Err(error: Error)

  /** A call that may also wait forever: `Queue.get()` on an empty queue,
      `Thread.join()` on a thread that is still running. In a sequential
      model such a call is simply not enabled in the current state. */
  datatype Call<T> = Blocks | Raises(error: Error) | Returns(value: T)
}
