/** An optional value. The model uses `None` where the Go code returns a `nil` error and
    where a request is let through instead of being aborted with a status. */
module Optional {

  datatype Option<+T> = None | Some(value: T)
}
