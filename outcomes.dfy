/**
 * The engine's failures. Each one is a `ValueError` (or a numpy/arithmetic
 * exception) in the original; here it is a value the caller receives.
 */
module Outcomes {

  datatype Error =
    | ZeroState              // register seeded with 0
    | InvalidTap(tap: int)   // a tap outside 1..width
    | EmptyRange             // randint(a, b) with a > b
    | NoAcceptedDraw         // rejection sampling gave up: the draw budget ran out
    | LengthMismatch         // tile list and permutation (or grid) lengths differ
    | ZeroGrid               // a grid with no rows or no columns
    | ShapeMismatch          // tiles that cannot be stacked side by side or on top of each other
    | NothingToStack         // stacking an empty list of tiles
    | NoTileSize             // no positive tile size: the tile grid is never computed

  datatype Option<+T> = None | Some(value: T)

  datatype Result<+T> = Ok(value: T) | Err(error: Error) {

    predicate IsFailure() {
      Err?
    }

    function PropagateFailure<U>(): Result<U>
      requires Err?
    {
      Err(error)
    }

    function Extract(): T
      requires Ok?
    {
      value
    }
  }
}
