/** A C# reference that may be null, as a datatype: `None` is `null`. */
module Optional {

  datatype Option<+T> = None | Some(value: T)
}
