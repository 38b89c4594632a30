/** Shared vocabulary: storage-object addresses and the Python errors the core raises. */
module Outcomes {

  /** A storage object's address, its `self_link`. Objects are compared only by it. */
  type Address = string

  /** The Python exception a lookup can raise; only the index error arises in the core.
      The ValueError of `check_circuit_validity` is not listed here: it is the only error
      that function and its callers can end with, so `CircuitCheck.Verdict` carries it as
      its own case, `LimitExceeded`, beside the returned pair. */
  datatype PyError = IndexError

  /** A value, or the exception raised instead of returning it. */
  datatype Result<T> = Ok(value: T) | Err(error: PyError)
}
