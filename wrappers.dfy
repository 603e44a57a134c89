/** Optional values, used for lookups that may find nothing (a missing
    HTML element, a missing attribute, a name that does not parse). */
module Wrappers {

  datatype Option<+T> = None | Some(value: T)
}
