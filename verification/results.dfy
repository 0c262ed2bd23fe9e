/** Optional values and error returns shared by the engine's modules. */
module Results {

  datatype Option<+T> = None | Some(value: T)

  /** The failure conditions the engine can raise. `ArityMismatch` is the
      Python `TypeError` from calling an operator with the wrong number of
      arguments; `ShapeMismatch` is numpy's error for operands whose shapes
      cannot be reconciled. */
  datatype Error = ArityMismatch | ShapeMismatch

  datatype Result<+T> = Ok(value: T) | Err(error: Error)
}
