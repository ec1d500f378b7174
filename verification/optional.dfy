/** The "value or nothing" type used for parent links: the start coordinate
    has no predecessor, every other discovered coordinate has one. */
module Optional {

  datatype Option<+T> = None | Some(value: T)

}
