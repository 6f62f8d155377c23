/** The conventional Some/None datatype, used for "this cell did not parse"
    and for the summary's optional error text. */
module Options {

  datatype Option<+T> = None | Some(value: T)

}
