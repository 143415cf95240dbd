/** The "absent" result the registry returns instead of raising an error
    (a C# `null` reference). */
module Options {

  datatype Option<+T> = None | Some(value: T)

}
