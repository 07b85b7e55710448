/** Shared result, error and warning types of the molecule-to-graph engine. */
module Outcomes {

  datatype Option<T> = None | Some(value: T)

  /** The ways a conversion can abort. The first two are raised by the code as it is
      meant to run; the others are only raised by the as-written models of the findings. */
  datatype Error =
    | ConformerSizeMismatch  // the failed `assert check_conformer(...)`
    | ValueNotInDomain       // `tuple.index` raising ValueError in index mode
    | NoLength               // `len()` applied to a type object (TypeError)
    | NoIndexMethod          // `.index` looked up on a type object (AttributeError)
    | EmptyRows              // `node_attr[0]` or `edge_attr[0]` on an empty list (IndexError)
    | BadConformerId         // `mol.GetConformer()` on a molecule without a conformer

  datatype Result<T> = Ok(value: T) | Err(error: Error)

  /** Non-fatal diagnostics, in the order the logger would receive them. */
  datatype Warning<V> =
    | NoZCoordinates
    | InvalidCoordinates
    | UnknownValue(value: V, possibleValues: seq<V>)
}
