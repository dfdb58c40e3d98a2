/** The result of a cache lookup. The Python caches signal a miss with -1
    (the linked-list caches) or None (the dict-based caches); here a miss is
    `None` and a hit carries the stored value, so a miss can never be
    confused with a stored -1. */
module Options {
  datatype Option<T> = None | Some(value: T)
}
