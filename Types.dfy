/** Shared value types: optional values, results with the Python exceptions
    the core can raise, and the runtime type of an argument. */
module Types {

  datatype Option<+T> = None | Some(value: T)

  /** The exceptions raised by the modelled code. */
  datatype Error =
    | TypeError       // explicit isinstance-style guards
    | KeyError        // dict or index label lookup of a missing key
    | IndexError      // positional access into an empty sequence
    | NotADataFrame   // a DataFrame method applied to a value of another type
    | ValueError      // pandas shape mismatch in a dot product

  datatype Result<+T> = Success(value: T) | Failure(error: Error)

  /** The row label under which `vectorize` stores the README text, and
      which the recommenders drop before comparing features. */
  const ReadmeKey := "readme"

  /** The run-time type of an argument handed to a guarded entry point. */
  datatype PyType = DataFrameType | SeriesType | OtherType
}
