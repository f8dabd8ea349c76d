/** The optional value used for the reader's `next`/`previous`/`start` links
    (a C++ iterator that is only meaningful while the matching has-flag is
    set). */
module Wrappers {

  datatype Option<+T> = None | Some(value: T)
}
