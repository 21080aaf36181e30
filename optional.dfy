/** The "missing" sentinel of the feature engine: a numeric field is either
    present or missing, and missing is never confused with zero. */
module Optional {

  datatype Option<+T> = None | Some(value: T)
}
