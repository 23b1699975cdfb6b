/** An optional value: `None` stands for the source's empty string results,
    failed matches and invalid colours. */
module Wrappers {

  datatype Option<+T> = None | Some(value: T)

}
