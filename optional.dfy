/** A value that may be absent: the model of Go's pointer-typed optional
    request fields (`*string`, `*int`) and of results that may be missing. */
module Optional {

  datatype Option<+T> = None | Some(value: T)
}
