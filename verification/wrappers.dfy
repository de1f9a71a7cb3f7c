/** Failure-compatible wrappers used throughout the model. */
module Wrappers {

  /** A value that may be absent. In the balancer, `None` stands for Python's
      `None`: the empty-list sentinel, the padding placeholder, and a list item
      that is itself `None`. */
  datatype Option<+T> = None | Some(value: T)

  /** Either a value or one of the errors the balancer raises. */
  datatype Result<+R, +E> = Ok(value: R) | Err(error: E)
}

/** The ways the balancer fails, one constructor per way: an exception it
    raises itself, or a failure of a built-in it calls. */
module Errors {

  datatype Error =
    /** `ValueError`: a given section length is zero or negative. */
    | NonPositiveSections
    /** `AttributeError`: `no_remainder` is set and the length is not a multiple of the section length. */
    | RemainderNotAllowed
    /** `ValueError` from `max` over an empty sequence of groups. */
    | NoGroups
    /** `ValueError` from `random.randint(0, -1)`: a draw from a group that is already empty. */
    | EmptyGroupDraw
    /** The interleaver was handed the empty-list sentinel or an ungrouped list:
        a `TypeError` (iterating `None`, or `len` of an item without a length)
        or an `AttributeError` (`pop` on an item that is not a list). */
    | NotGroups
}
