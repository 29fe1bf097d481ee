/** Result codes and the comparison tolerance shared by every operation of the library. */
module Constants {
  /** Codes returned by the operations that build a matrix or compute a determinant. */
  const OK: int := 0
  const INCORRECT: int := 1
  const ERR: int := 2

  /** The two answers of the equality test. */
  const SUCCESS: int := 1
  const FAILURE: int := 0

  /** Absolute tolerance (1e-7) of the equality test, the elimination test and the singularity test. */
  const PRECISION: real := 0.0000001
}
