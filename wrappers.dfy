/** Optional values, standing in for Swift optionals. */
module Wrappers {
  datatype Option<+T> = None | Some(value: T)
}

/** The platform types the cache stores: decoded images and raw file bytes. */
module Media {
  /** A decoded bitmap (UIImage). Its contents are never inspected by the cache. */
  type Image

  /** One byte of an encoded file (an element of Foundation's Data). */
  newtype byte = b: int | 0 <= b < 256
}
