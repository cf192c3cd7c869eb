/** A value that may be missing: a `None` stands for Python's `None` and for
    pandas' NaN (a date on which a column has no price). */
module Optional {

  datatype Option<+T> = None | Some(value: T)
}
