/** The optional value used for missing metadata tags, failed reads and
    absent configuration. */
module Options {

  datatype Option<+T> = None | Some(value: T)

}
