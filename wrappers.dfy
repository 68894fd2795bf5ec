/** The optional value used for the `string | null` results of the plugin. */
module Wrappers {
  datatype Option<+T> = None | Some(value: T)
}
