/** Cooperative cancellation: a token that may be cancelled between any two checks. */
module Cancellation {

  function Tail(answers: seq<bool>): seq<bool> {
    if answers == [] then [] else answers[1..]
  }

  /** `answers` says what each check in turn would find; past its end nobody cancels. A
      cancelled token stays cancelled. */
  class Token {
    const answers: seq<bool>
    /** How many checks have found no request. */
    var at: nat
    /** Some check has found a request. */
    ghost var found: bool

    /** A request has been made: the next check finds it. */
    predicate Requested()
      reads this
    {
      at < |answers| && answers[at]
    }

    /** What the coming checks find. */
    function Coming(): seq<bool>
      reads this
    {
      if at < |answers| then answers[at..] else []
    }

    constructor (answers: seq<bool>)
      ensures this.answers == answers && at == 0 && !found
    {
      this.answers, at, found := answers, 0, false;
    }

    method Check() returns (cancelled: bool)
      modifies this
      ensures cancelled == old(Requested()) == (old(Coming()) != [] && old(Coming())[0])
      ensures found == (old(found) || cancelled)
      ensures at == old(at) + (if cancelled then 0 else 1)
      ensures cancelled ==> Requested() && Coming() == old(Coming())
      ensures !cancelled ==> Coming() == Tail(old(Coming()))
    {
      cancelled := at < |answers| && answers[at];
      if cancelled {
        found := true;
      } else {
        at := at + 1;
      }
    }
  }
}
