/** The optional value used for "a cell may be empty" and "the drop may miss every cell". */
module Options {

  datatype Option<+T> = None | Some(value: T)

}
