/** The conventional optional value, used where the source keeps an empty
    string or skips a call to mean "nothing there". */
module Options {

  datatype Option<+T> = None | Some(value: T)
}
