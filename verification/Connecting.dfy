/** The connect loop of basic_socket_streambuf: how one attempt goes, and how a whole loop ended. */
module Connecting {
  import opened Sockets

  /** What poll_connect reports: an error, nothing before the timeout, or a ready descriptor. */
  datatype Readiness = PollError(error: Failure) | NotReady | Ready

  /** What reading SO_ERROR reports: the call failed, or the error pending on the socket. */
  datatype Pending = OptionError(failure: Failure) | SocketError(error: Error)

  /** What clock and kernel answer when an endpoint is tried. */
  datatype Attempt = Attempt(
    now: int, closing: Error, opening: Error, connecting: Error, readiness: Readiness, pending: Pending)

  /** Clock past the expiry time; on to the next endpoint after an error; or leave the loop. */
  datatype Verdict = Expired | NextAfter(error: Error) | Stop(error: Error)

  function Try(a: Attempt, expiry: int): Verdict {
    if expiry < a.now then Expired
    else if a.opening != Clear then NextAfter(a.opening)
    else if a.connecting == Clear then Stop(Clear)
    else if a.connecting != InProgress && a.connecting != WouldBlock then NextAfter(a.connecting)
    else match a.readiness
      case PollError(e) => NextAfter(e)
      case _ =>
        match a.pending
        case OptionError(e) => Stop(e)
        case SocketError(e) => if e == Clear then Stop(Clear) else NextAfter(e)
  }

  /**
   The loop over n endpoints ended with error ec after touching the first visited of them; the
   i-th endpoint, if touched, goes as world(i) says.
   */
  ghost predicate Ended(world: nat -> Attempt, expiry: int, n: nat, visited: nat, ec: Error) {
    && visited <= n
    && (forall i: nat | i < visited :: !Try(world(i), expiry).Expired?)
    && (forall i: nat | i + 1 < visited :: Try(world(i), expiry).NextAfter?)
    && if visited > 0 && Try(world(visited - 1), expiry).Stop? then
         ec == Try(world(visited - 1), expiry).error
       else if visited < n then
         Try(world(visited), expiry) == Expired && ec == TimedOut
       else if n == 0 then
         ec == NotFound
       else
         ec == Try(world(n - 1), expiry).error
  }

  /** The socket after visited endpoints: each visit discards the old connection. */
  function Reopened(s: Socket, world: nat -> Attempt, visited: nat): Socket {
    if visited == 0 then s
    else s.(open := world(visited - 1).opening == Clear, sent := [], inbound := [])
  }

  /** The kernel has not refused the attempt: it goes on in the background and is polled. */
  predicate Polled(a: Attempt) {
    && a.opening == Clear
    && (a.connecting == InProgress || a.connecting == WouldBlock)
  }

  /** The attempt completed at once, or was polled and became ready without a pending error. */
  predicate Established(a: Attempt) {
    || (a.opening == Clear && a.connecting == Clear)
    || (Polled(a) && a.readiness == Ready && a.pending == SocketError(Clear))
  }

  /** The attempt was polled and nothing had happened at the timeout, not even an error. */
  predicate StillPending(a: Attempt) {
    Polled(a) && a.readiness == NotReady && a.pending == SocketError(Clear)
  }

  /** A polled attempt on which reading the pending error failed: the loop gives up. */
  predicate Unreadable(a: Attempt) {
    Polled(a) && !a.readiness.PollError? && a.pending.OptionError?
  }

  /** In time and failed in any other way: the loop goes on to the next endpoint. */
  predicate FallsThrough(a: Attempt, expiry: int) {
    a.now <= expiry && !Established(a) && !StillPending(a) && !Unreadable(a)
  }

  /** The error an attempt itself reports, by the last of its steps that was taken. */
  function OwnError(a: Attempt): Error {
    if a.opening != Clear then a.opening
    else if !Polled(a) then a.connecting
    else match a.readiness
      case PollError(e) => e
      case _ =>
        match a.pending
        case OptionError(e) => e
        case SocketError(e) => e
  }

  /** One attempt: how the loop goes on, and with which error, in terms of what happened to it. */
  lemma TryMeans(a: Attempt, expiry: int)
    ensures Try(a, expiry)
         == if expiry < a.now then Expired
            else if FallsThrough(a, expiry) then NextAfter(OwnError(a))
            else Stop(OwnError(a))
    ensures OwnError(a) == Clear <==> Established(a) || StillPending(a)
  {
  }

  /** The ending is determined: there is only one way for the loop to end. */
  lemma EndedUnique(world: nat -> Attempt, expiry: int, n: nat, v: nat, ec: Error, v2: nat, ec2: Error)
    requires Ended(world, expiry, n, v, ec) && Ended(world, expiry, n, v2, ec2)
    ensures v == v2 && ec == ec2
  {
  }

  /**
   How the loop ends, said without its body. Every endpoint touched was tried in time, and all but
   the last one touched fell through. Then either the last one did not, and its own error is left;
   or the time was up at the next one; or there was no next one, and the error is that of the last.
   */
  ghost predicate Walked(world: nat -> Attempt, expiry: int, n: nat, visited: nat, ec: Error) {
    && visited <= n
    && (forall i: nat | i < visited :: world(i).now <= expiry)
    && (forall i: nat | i + 1 < visited :: FallsThrough(world(i), expiry))
    && if visited > 0 && !FallsThrough(world(visited - 1), expiry) then ec == OwnError(world(visited - 1))
       else if visited < n then expiry < world(visited).now && ec == TimedOut
       else if n == 0 then ec == NotFound
       else ec == OwnError(world(n - 1))
  }

  lemma EndedIsWalked(world: nat -> Attempt, expiry: int, n: nat, visited: nat, ec: Error)
    ensures Ended(world, expiry, n, visited, ec) <==> Walked(world, expiry, n, visited, ec)
  {
    forall i: nat
      ensures Try(world(i), expiry).Expired? <==> expiry < world(i).now
      ensures Try(world(i), expiry).NextAfter? <==> FallsThrough(world(i), expiry)
      ensures !Try(world(i), expiry).Expired? ==> Try(world(i), expiry).error == OwnError(world(i))
    {
      TryMeans(world(i), expiry);
    }
  }

  /** Endpoint k is reached, and its attempt ends with a clear error. */
  ghost predicate Succeeds(world: nat -> Attempt, expiry: int, k: nat) {
    && world(k).now <= expiry && (Established(world(k)) || StillPending(world(k)))
    && forall i: nat | i < k :: FallsThrough(world(i), expiry)
  }

  /**
   The error is clear exactly when some endpoint was established, or left pending, in time and
   after every earlier one was tried and fell through; that endpoint is then the last one touched.
   */
  lemma ClearIff(world: nat -> Attempt, expiry: int, n: nat, visited: nat, ec: Error)
    requires Ended(world, expiry, n, visited, ec)
    ensures ec == Clear <==> exists k: nat :: k < n && Succeeds(world, expiry, k)
    ensures ec == Clear ==> 0 < visited && Succeeds(world, expiry, visited - 1)
  {
    EndedIsWalked(world, expiry, n, visited, ec);
    if ec == Clear {
      TryMeans(world(visited - 1), expiry);
      assert Succeeds(world, expiry, visited - 1);
    }
    forall k: nat | k < n && Succeeds(world, expiry, k)
      ensures ec == Clear
    {
      TryMeans(world(k), expiry);
      EndedIsWalked(world, expiry, n, k + 1, Clear);
      EndedUnique(world, expiry, n, visited, ec, k + 1, Clear);
    }
  }

  /**
   connect answers this, that is with a clear error, exactly when an endpoint it touched was
   established or was still pending when poll_connect timed out; that endpoint is the last one.
   */
  lemma ClearIsEstablishedIff(world: nat -> Attempt, expiry: int, n: nat, visited: nat, ec: Error)
    requires Ended(world, expiry, n, visited, ec)
    ensures ec == Clear <==> exists i: nat :: i < visited && (Established(world(i)) || StillPending(world(i)))
    ensures forall i: nat | i < visited && (Established(world(i)) || StillPending(world(i))) :: i == visited - 1
  {
    EndedIsWalked(world, expiry, n, visited, ec);
    ClearIff(world, expiry, n, visited, ec);
    if visited > 0 {
      TryMeans(world(visited - 1), expiry);
    }
    if ec == Clear {
      assert Succeeds(world, expiry, visited - 1);
    }
  }

  /**
   The socket a loop leaves: the old one if no endpoint was touched. Otherwise every trace of the
   old connection is gone, and it is open exactly when the last one touched could be opened; after
   a clear error it is.
   */
  lemma ReopenedExact(s: Socket, world: nat -> Attempt, expiry: int, n: nat, visited: nat, ec: Error)
    requires Ended(world, expiry, n, visited, ec)
    ensures var t := Reopened(s, world, visited);
            && (visited == 0 ==> t == s)
            && (visited > 0 ==>
                  && t.sent == t.inbound == [] && t.oracle == s.oracle && t.tick == s.tick
                  && (t.open <==> world(visited - 1).opening == Clear))
            && (ec == Clear ==> visited > 0 && t.open)
  {
    ClearIff(world, expiry, n, visited, ec);
  }

  /** Some endpoint the loop touched was established. */
  ghost predicate SomeEstablished(world: nat -> Attempt, visited: nat) {
    exists i: nat :: i < visited && Established(world(i))
  }

  /**
   The documented property, this if a connection was established and a null pointer otherwise,
   holds exactly when the last endpoint touched was not left pending by a timeout. The null
   answer is always right: no endpoint touched was established.
   */
  lemma AnswerIsRightIff(world: nat -> Attempt, expiry: int, n: nat, visited: nat, ec: Error)
    requires Ended(world, expiry, n, visited, ec)
    ensures (ec == Clear <==> SomeEstablished(world, visited))
            <==> !(visited > 0 && StillPending(world(visited - 1)))
    ensures SomeEstablished(world, visited) ==> ec == Clear && Established(world(visited - 1))
    ensures ec != Clear ==> !SomeEstablished(world, visited)
  {
    ClearIsEstablishedIff(world, expiry, n, visited, ec);
  }

  lemma TimeoutReportedAsSuccess(expiry: int)
    ensures var a := Attempt(expiry, Clear, Clear, InProgress, NotReady, SocketError(Clear));
            Ended(_ => a, expiry, 1, 1, Clear) && StillPending(a) && !Established(a)
  {
  }
}
