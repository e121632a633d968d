/** The usual Some/None datatype, used where the source works with a nullable
    reference (an entity lookup that may find nothing, an optional body). */
module Optional {

  datatype Option<+T> = None | Some(value: T)

}
