/** Cancellation: a context that is asked whether to go on. */
module Contexts {
  /** A Go context: once done, it stays done. */
  class Context {
    var done: bool

    constructor ()
      ensures !done
    {
      done := false;
    }

    method IsDone() returns (r: bool)
      modifies this
      ensures r == done && (old(done) ==> done)
    {
      if * {
        done := true;
      }
      r := done;
    }
  }
}
