/** Outcomes of allocator operations: a normal value, or a fatal consistency
    failure standing for one of the allocator's `assert`s. */
module Outcomes {

  datatype Option<+T> = None | Some(value: T)

  /** Which assertion of the allocator failed. */
  datatype Fault =
    | BadArenaTag         // the region descriptor does not carry the arena tag
    | BadFreeTag          // a node reached through the free list is not tagged free
    | NotAllocated        // the header in front of a released pointer is not tagged allocated
    | NoInsertionPoint    // release walked off the end of the free list
    | ReallocUnsupported  // reallocation is never supported

  datatype Outcome<+T> = Ok(value: T) | Fatal(fault: Fault)
}
