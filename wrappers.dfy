/** Failure-carrying values used where `get_video_info` and `download_video` return `None`
    or catch an exception. */
module Wrappers {

  datatype Option<+T> = None | Some(value: T)

  datatype Result<+T, +E> = Success(value: T) | Failure(error: E)
}
