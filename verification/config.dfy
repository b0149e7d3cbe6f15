/** Process-wide configuration the core depends on (app/core/config.py). */
module Config {

  /** The embedding dimension D: every stored vector and every catalogued
      reduced vector must have exactly this many components. */
  const VECTOR_DIM: nat := 128
}

/** The errors the vector and user services report to their callers, one per
    distinct rejection in the service layer (HTTP status codes are not
    modelled; each variant names the condition instead). */
module ServiceErrors {

  datatype ServiceError =
    | DimensionMismatch(got: nat, expected: nat) // input length differs from VECTOR_DIM
    | ZeroNorm                                   // a zero-norm vector cannot be normalised
    | PackedSizeMismatch                         // packed bytes disagree with the stored dimension
    | UsernameTaken                              // another user already has the derived username
    | BothVectorArgs                             // create_user got both a vector id and vector data
    | NeedExactlyOneVectorArg                    // attach_vector got neither or both
    | VectorNotFound                             // the referenced vector id is not stored
    | VectorDimMismatch                          // the referenced stored vector has the wrong dim
    | UserNotFound                               // the user id is not stored
}
