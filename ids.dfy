/**
 * A class-level `private static nextId: number = 1` and its post-increment
 * `nextId++`. A static field is one cell shared by every construction, so it is
 * modelled as one `Counter` object handed to each constructor; `User` and
 * `Post` have one each.
 */
module Ids {

  class Counter {
    /** The id the next construction receives. */
    var nextId: int

    /** The static initializer `= 1`. */
    constructor()
      ensures nextId == 1
    {
      nextId := 1;
    }

    /** `nextId++`: yields the current value and moves the counter on by one. */
    method Take() returns (id: int)
      modifies this
      ensures id == old(nextId)
      ensures nextId == old(nextId) + 1
    {
      id := nextId;
      nextId := nextId + 1;
    }
  }
}
