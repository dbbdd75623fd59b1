/** The absent-or-present value used where the scraper reads an optional
    attribute or an optional field of a service reply. */
module Wrappers {

  datatype Option<+T> = None | Some(value: T)
}
