/** A value that may be absent: JavaScript's `undefined` result of
    `Array.find`, and the SQL `NULL` of a nullable column. */
module Optional {

  datatype Option<+T> = None | Some(value: T)
}
