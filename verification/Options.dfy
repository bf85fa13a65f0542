/** The conventional optional value, used for lookups that can miss and for calls that can throw. */
module Options {

  datatype Option<+T> = None | Some(value: T)
}
