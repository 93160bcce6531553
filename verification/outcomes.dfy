/** Optional values, used wherever the bot may find nothing or raise. */
module Outcomes {

  datatype Option<+T> = None | Some(value: T)
}
