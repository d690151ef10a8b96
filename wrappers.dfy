/** The optional value used for `null`/`undefined` results (an id that is not being edited,
    a `find` that found nothing). */
module Wrappers {

  datatype Option<+T> = None | Some(value: T)

}
