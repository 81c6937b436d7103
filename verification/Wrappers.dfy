/** What is common to all modules. */
module Wrappers {
  datatype Option<+T> = None | Some(value: T) {
    predicate IsFailure() {
      None?
    }

    function PropagateFailure<U>(): Option<U>
      requires None?
    {
      None
    }

    function Extract(): T
      requires Some?
    {
      value
    }
  }

  /** Replacing a file takes effect, fails without effect, or fails behind the removal of the old
      file. */
  datatype Fate = Took | Failed | Lost

  function Replaced<T>(fate: Fate, was: T, next: T, missing: T): T {
    match fate
    case Took => next
    case Failed => was
    case Lost => missing
  }
}
