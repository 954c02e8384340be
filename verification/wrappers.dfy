/** Optional values: the trainer's nullable timestamps (`Date | null`). */
module Wrappers {

  datatype Option<+T> = None | Some(value: T)
}
