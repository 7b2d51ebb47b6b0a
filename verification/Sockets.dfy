/**
 The non-blocking socket under a socket streambuf. What the kernel and the clock answer is an
 oracle, one turn for each round of a send or receive loop; what crosses the socket is recorded.
 */
module Sockets {
  import opened Chars

  datatype Error =
    | Clear
    | TimedOut
    | EndOfFile
    | WouldBlock
    | TryAgain
    | InProgress
    | NotFound
    | BadDescriptor
    | System(code: int)

  type Failure = e: Error | e != Clear witness TimedOut

  /** What a call that moves no byte reports: zero bytes, or an error. */
  datatype Refusal = Zero | Failed(error: Failure)

  datatype Poll = Answered | PollFailed(error: Failure)

  /**
   One round of a loop: the clock, the number of bytes the kernel is willing to move, what it
   reports when it moves none, and the outcome of polling afterwards.
   */
  datatype Turn = Turn(now: int, limit: nat, refusal: Refusal, poll: Poll)

  /** From turn calm on the kernel never again asks the caller to wait. */
  datatype Oracle = Oracle(at: nat -> Turn, calm: nat)

  /** The errors on which the loops wait for the socket to become ready. */
  predicate Blocking(e: Error) {
    e == WouldBlock || e == TryAgain
  }

  /** sent: every byte handed to the kernel. inbound: the bytes the peer sent, not yet received. */
  datatype Socket = Socket(open: bool, oracle: Oracle, tick: nat, sent: seq<byte>, inbound: seq<byte>)
  {
    ghost predicate Settles() {
      forall i: nat :: oracle.calm <= i ==>
        oracle.at(i).refusal != Failed(WouldBlock) && oracle.at(i).refusal != Failed(TryAgain)
    }

    /** How many more turns may ask the caller to wait. */
    function Patience(): nat {
      if tick < oracle.calm then oracle.calm - tick else 0
    }

    function Turn(): Turn {
      oracle.at(tick)
    }

    function Next(): Socket {
      this.(tick := tick + 1)
    }

    /** The error after a call that moved no byte; clear when the call returned zero. */
    function Refusal(): Error {
      if !open then BadDescriptor
      else match Turn().refusal
        case Zero => Clear
        case Failed(e) => e
    }

    /** send: how many of the first bytes of out the kernel takes in this turn. */
    function Takes(out: seq<byte>): nat {
      if open then Min(Turn().limit, |out|) else 0
    }

    /** recv into space bytes: how many inbound bytes the kernel delivers in this turn. */
    function Delivers(space: nat): nat {
      if open then Min(Turn().limit, Min(space, |inbound|)) else 0
    }
  }
}
