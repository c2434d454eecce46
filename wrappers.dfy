/** An optional value: used for "no previous frame yet", "the video source is
    not ready" and "this tick emitted nothing". */
module Wrappers {
  datatype Option<+T> = None | Some(value: T)
}
