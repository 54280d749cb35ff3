/** Small shared vocabulary: optional values, failures, grid coordinates and
    integer min/max. */
module Common {

  /** A value that may be absent; stands for a C# reference that may be null. */
  datatype Option<+T> = None | Some(value: T)

  /** The exceptions the modelled C# code can raise, plus the one outcome the
      model adds for loops whose termination it does not prove. */
  datatype Error =
    | DuplicateKey       // Dictionary.Add with a key already present
    | KeyNotFound        // Dictionary indexer with an absent key
    | NullReference      // dereferencing a null parent while rebuilding a path
    | IndexOutOfRange    // array access outside the array
    | OutOfFuel          // the model's bound on an unbounded loop was reached

  datatype Result<+T> = Success(value: T) | Failure(error: Error)

  /** An integer grid position (the source's `Vector2` keys hold the same pair). */
  datatype Coord = Coord(x: int, y: int)

  function Min(a: int, b: int): int {
    if a <= b then a else b
  }

  function Max(a: int, b: int): int {
    if a >= b then a else b
  }
}
