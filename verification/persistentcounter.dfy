/** `PersistentCounter` (src/PersistentCounter.py): an integer held in an object. */
module PersistentCounter {

  class PersistentCounter {
    var value: int

    /** Starts at `starting`, 0 when the caller gives none. */
    constructor(starting: int := 0)
      ensures value == starting
    {
      value := starting;
    }

    /** Adds one and returns the value immediately after. */
    method Toggle() returns (r: int)
      modifies this
      ensures value == old(value) + 1
      ensures r == value
    {
      value := value + 1;
      r := value;
    }

    method Get() returns (r: int)
      ensures r == value
    {
      r := value;
    }

    method Set(target: int)
      modifies this
      ensures value == target
    {
      value := target;
    }
  }
}
