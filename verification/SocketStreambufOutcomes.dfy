/**
 Exactly how the two loops of basic_socket_streambuf end: after how many turns of the kernel, with
 how many bytes moved and with which error. Each outcome is described without the loop, and there
 is only one for every kernel script.
 */
module SocketStreambufOutcomes {
  import opened Chars
  import opened Sequences
  import opened Sockets
  import opened SocketStreambufSpec
  import opened SocketStreambufTheorems

  /**
   The error left by a turn that ends a loop without moving a byte: late, on a closed descriptor,
   refused for good, or with a failed poll. nothing is what a transfer of no bytes counts as.
   */
  function LastError(open: bool, t: Turn, expiry: int, nothing: Error): Error {
    if expiry < t.now then TimedOut
    else if !open then BadDescriptor
    else if t.refusal == Zero then nothing
    else if t.refusal.error == WouldBlock || t.refusal.error == TryAgain then
      if t.poll.PollFailed? then t.poll.error else Clear
    else t.refusal.error
  }

  // ----- Sending -----

  /** The turns that were used: all but the last are willing, and do not yet offer all of size bytes. */
  ghost predicate FirstTurns(o: Oracle, tick: nat, expiry: int, used: nat, size: nat) {
    && used > 0
    && (forall i: nat | tick <= i < tick + used - 1 :: Willing(o.at(i), expiry))
    && Offered(o, tick, used - 1) < size
  }

  /**
   How the send loop ends. With everything offered: all is sent, and no error is left. At the first
   turn that is not willing: exactly what was offered before is sent, and that turn's error is left.
   */
  ghost predicate SendOutcome(s: Socket, expiry: int, ec: Error, out: seq<byte>, t: Socket, ec2: Error, ok: bool) {
    var used := t.tick - s.tick;
    if out == [] then
      t == s && ec2 == ec && ok
    else if !s.open then
      t == s.(tick := s.tick + 1) && !ok && ec2 == LastError(false, s.oracle.at(s.tick), expiry, Clear)
    else
      && used > 0 && FirstTurns(s.oracle, s.tick, expiry, used, |out|)
      && var last := s.oracle.at(t.tick - 1);
         if ok then
           && Willing(last, expiry) && Offered(s.oracle, s.tick, used) >= |out|
           && t == s.(tick := t.tick, sent := s.sent + out) && ec2 == Clear
         else
           && !Willing(last, expiry) && ec2 == LastError(true, last, expiry, Clear)
           && t == s.(tick := t.tick, sent := s.sent + out[..Offered(s.oracle, s.tick, used - 1)])
  }

  lemma FirstTurnsNext(o: Oracle, tick: nat, expiry: int, used: nat, size: nat)
    requires Willing(o.at(tick), expiry) && o.at(tick).limit <= size
    requires FirstTurns(o, tick + 1, expiry, used, size - o.at(tick).limit)
    ensures FirstTurns(o, tick, expiry, used + 1, size)
  {
  }

  /** A turn that takes all that is left. */
  lemma TakesLast(s: Socket, expiry: int, ec: Error, out: seq<byte>)
    requires s.open && Willing(s.Turn(), expiry) && out != [] && s.Takes(out) == |out|
    ensures SendOutcome(s, expiry, ec, out, s.Next().(sent := s.sent + out), Clear, true)
  {
    assert Offered(s.oracle, s.tick, 0) == 0 && Offered(s.oracle, s.tick, 1) == s.Turn().limit;
  }

  /** A turn that takes k bytes, in front of an outcome for the rest. */
  lemma TakesThen(s: Socket, expiry: int, ec: Error, out: seq<byte>, k: nat, t: Socket, ec2: Error, ok: bool)
    requires s.open && Willing(s.Turn(), expiry) && 0 < k == s.Takes(out) < |out|
    requires SendOutcome(s.Next().(sent := s.sent + out[..k]), expiry, Clear, out[k..], t, ec2, ok)
    ensures SendOutcome(s, expiry, ec, out, t, ec2, ok)
  {
    var used := t.tick - s.tick;
    FirstTurnsNext(s.oracle, s.tick, expiry, used - 1, |out|);
    SplitRest(s.sent, out, k, if ok then |out| - k else Offered(s.oracle, s.tick + 1, used - 2));
  }

  lemma SplitRest(sent: seq<byte>, out: seq<byte>, k: nat, m: nat)
    requires k <= |out| && m <= |out| - k
    ensures sent + out[..k] + out[k..][..m] == sent + out[..k + m]
    ensures m == |out| - k ==> out[k..][..m] == out[k..] && out[..k + m] == out
  {
    assert out[..k] + out[k..][..m] == out[..k + m];
  }

  /** A turn that moves nothing and asks to wait, in front of an outcome. */
  lemma WaitsThen(s: Socket, expiry: int, ec: Error, out: seq<byte>, t: Socket, ec2: Error, ok: bool)
    requires s.open && Willing(s.Turn(), expiry) && s.Turn().limit == 0 && out != []
    requires SendOutcome(s.Next(), expiry, Clear, out, t, ec2, ok)
    ensures SendOutcome(s, expiry, ec, out, t, ec2, ok)
  {
    FirstTurnsNext(s.oracle, s.tick, expiry, t.tick - s.tick - 1, |out|);
  }

  /** The last turn: late, closed, refused for good or with a failed poll. */
  lemma GivesUp(s: Socket, expiry: int, ec: Error, out: seq<byte>)
    requires s.Settles() && out != []
    requires !s.open || !Willing(s.Turn(), expiry)
    ensures var f := Flush(s, expiry, ec, out); SendOutcome(s, expiry, ec, out, f.socket, f.ec, f.ok)
  {
    assert Offered(s.oracle, s.tick, 0) == 0;
    assert s.sent + out[..0] == s.sent;
  }

  /** The loop ends that way, for every kernel script. */
  lemma {:induction false} FlushOutcome(s: Socket, expiry: int, ec: Error, out: seq<byte>)
    requires s.Settles()
    ensures var f := Flush(s, expiry, ec, out); SendOutcome(s, expiry, ec, out, f.socket, f.ec, f.ok)
    decreases s.Patience(), |out|
  {
    if out != [] {
      var f := Flush(s, expiry, ec, out);
      var k := s.Takes(out);
      if !s.open || !Willing(s.Turn(), expiry) {
        GivesUp(s, expiry, ec, out);
      } else if k > 0 {
        FlushOutcome(s.Next().(sent := s.sent + out[..k]), expiry, Clear, out[k..]);
        if k < |out| { TakesThen(s, expiry, ec, out, k, f.socket, f.ec, f.ok); } else { TakesLast(s, expiry, ec, out); }
      } else {
        FlushOutcome(s.Next(), expiry, Clear, out);
        WaitsThen(s, expiry, ec, out, f.socket, f.ec, f.ok);
      }
    }
  }

  lemma {:induction false} OfferedGrows(o: Oracle, tick: nat, m: nat, n: nat)
    requires m <= n
    ensures Offered(o, tick, m) <= Offered(o, tick, n)
    decreases n
  {
    if m > 0 {
      OfferedGrows(o, tick + 1, m - 1, n - 1);
    }
  }

  lemma NotEarlier(s: Socket, expiry: int, ec: Error, out: seq<byte>,
                   t: Socket, e: Error, ok: bool, t2: Socket, e2: Error, ok2: bool)
    requires SendOutcome(s, expiry, ec, out, t, e, ok) && SendOutcome(s, expiry, ec, out, t2, e2, ok2)
    ensures t.tick >= t2.tick
  {
    if t.tick < t2.tick {
      assert Willing(s.oracle.at(t.tick - 1), expiry);
      OfferedGrows(s.oracle, s.tick, t.tick - s.tick, t2.tick - s.tick - 1);
    }
  }

  /** There is no other outcome: turns used, bytes sent, error and answer are determined. */
  lemma SendOutcomeUnique(s: Socket, expiry: int, ec: Error, out: seq<byte>,
                          t: Socket, e: Error, ok: bool, t2: Socket, e2: Error, ok2: bool)
    requires SendOutcome(s, expiry, ec, out, t, e, ok) && SendOutcome(s, expiry, ec, out, t2, e2, ok2)
    ensures t == t2 && e == e2 && ok == ok2
  {
    NotEarlier(s, expiry, ec, out, t, e, ok, t2, e2, ok2);
    NotEarlier(s, expiry, ec, out, t2, e2, ok2, t, e, ok);
  }

  // ----- Receiving -----

  /** Turn i delivers: in time, on an open descriptor, with something inbound. */
  predicate DeliversAt(s: Socket, i: nat, expiry: int) {
    var t := s.oracle.at(i); t.now <= expiry && s.open && t.limit > 0 && s.inbound != []
  }

  /** Turn i delivers nothing and the loop goes on. */
  predicate WaitsAt(s: Socket, i: nat, expiry: int) {
    var t := s.oracle.at(i); t.now <= expiry && s.open && (t.limit == 0 || s.inbound == []) && AsksToWait(t)
  }

  /** The result of the turn that ends the receive loop: the front of what is inbound, or an error. */
  ghost predicate Received(s: Socket, last: nat, expiry: int, t: Socket, ec: Error, bytes: seq<byte>) {
    if DeliversAt(s, last, expiry) then
      var k := Min(s.oracle.at(last).limit, Min(BUFFER_SIZE - PUTBACK_MAX, |s.inbound|));
      && bytes == s.inbound[..k] && ec == Clear
      && t == s.(tick := last + 1, inbound := s.inbound[k..])
    else
      && bytes == [] && ec == LastError(s.open, s.oracle.at(last), expiry, EndOfFile)
      && t == s.(tick := last + 1)
  }

  /**
   How the receive loop ends: after turns that only wait, with the front of what is inbound, as
   much as the turn delivers and the buffer holds, or with the error of that turn and nothing.
   */
  ghost predicate ReceiveOutcome(s: Socket, expiry: int, t: Socket, ec: Error, bytes: seq<byte>) {
    && t.tick > s.tick
    && (forall i: nat | s.tick <= i < t.tick - 1 :: WaitsAt(s, i, expiry))
    && !WaitsAt(s, t.tick - 1, expiry) && Received(s, t.tick - 1, expiry, t, ec, bytes)
  }

  lemma RefillEnds(s: Socket, expiry: int)
    requires s.Settles() && !WaitsAt(s, s.tick, expiry)
    ensures var f := Refill(s, expiry);
            f.socket.tick == s.tick + 1 && Received(s, s.tick, expiry, f.socket, f.ec, f.bytes)
  {
  }

  lemma WaitsFirst(s: Socket, expiry: int, t: Socket, ec: Error, bytes: seq<byte>)
    requires WaitsAt(s, s.tick, expiry) && ReceiveOutcome(s.Next(), expiry, t, ec, bytes)
    ensures ReceiveOutcome(s, expiry, t, ec, bytes)
  {
    forall i: nat | s.tick <= i < t.tick - 1
      ensures WaitsAt(s, i, expiry)
    {
      if i > s.tick {
        assert WaitsAt(s.Next(), i, expiry);
      }
    }
    assert !WaitsAt(s.Next(), t.tick - 1, expiry) && Received(s.Next(), t.tick - 1, expiry, t, ec, bytes);
  }

  /** The loop ends that way, for every kernel script. */
  lemma {:induction false} RefillOutcome(s: Socket, expiry: int)
    requires s.Settles()
    ensures var f := Refill(s, expiry); ReceiveOutcome(s, expiry, f.socket, f.ec, f.bytes)
    decreases s.Patience()
  {
    if WaitsAt(s, s.tick, expiry) {
      RefillOutcome(s.Next(), expiry);
      var f := Refill(s, expiry);
      WaitsFirst(s, expiry, f.socket, f.ec, f.bytes);
    } else {
      RefillEnds(s, expiry);
    }
  }

  lemma NotSooner(s: Socket, expiry: int, t: Socket, e: Error, b: seq<byte>, t2: Socket, e2: Error, b2: seq<byte>)
    requires ReceiveOutcome(s, expiry, t, e, b) && ReceiveOutcome(s, expiry, t2, e2, b2)
    ensures t.tick >= t2.tick
  {
    var last := t.tick - 1;
    assert !WaitsAt(s, last, expiry);
  }

  /** There is no other outcome. */
  lemma ReceiveOutcomeUnique(s: Socket, expiry: int,
                             t: Socket, e: Error, b: seq<byte>, t2: Socket, e2: Error, b2: seq<byte>)
    requires ReceiveOutcome(s, expiry, t, e, b) && ReceiveOutcome(s, expiry, t2, e2, b2)
    ensures t == t2 && e == e2 && b == b2
  {
    NotSooner(s, expiry, t, e, b, t2, e2, b2);
    NotSooner(s, expiry, t2, e2, b2, t, e, b);
  }

  // ----- overflow and underflow -----

  /** What overflow has to put onto the wire before it can accept c. */
  ghost function ToSend(r: Rep, c: int): seq<byte>
    requires r.Valid()
  {
    if !r.Unbuffered() then r.Pending() else if c == EOF then [] else [ToChar(c)]
  }

  /**
   overflow, whole: the outcome of sending what is due; then an empty put area that starts again
   at its front, with the new character, if there is one. Nothing else changes.
   */
  lemma OverflowOutcome(r: Rep, c: int)
    requires r.Valid()
    ensures var (t, x) := Overflow(r, c);
            && t.Valid()
            && SendOutcome(r.socket, r.expiry, r.ec, ToSend(r, c), t.socket, t.ec, x != EOF)
            && (x != EOF && c != EOF ==> x == c)
            && t == r.(socket := t.socket, ec := t.ec, putBuffer := t.putBuffer, pbase := t.pbase, pptr := t.pptr)
            && (if x == EOF || r.Unbuffered() then t == r.(socket := t.socket, ec := t.ec)
                else t.pbase == 0 && t.Pending() == if c == EOF then [] else [ToChar(c)])
  {
    OverflowKeepsValid(r, c);
    FlushOutcome(r.socket, r.expiry, r.ec, ToSend(r, c));
  }

  /**
   underflow, whole: with characters unread, eof and nothing else; otherwise the outcome of
   receiving, whose bytes become the get area behind the putback area. Nothing else changes.
   */
  lemma UnderflowOutcome(r: Rep)
    requires r.Valid()
    ensures var (t, x) := Underflow(r);
            && t.Valid()
            && (r.Unread() != [] ==> t == r && x == EOF)
            && (r.Unread() == [] ==>
                  && ReceiveOutcome(r.socket, r.expiry, t.socket, t.ec, if x == EOF then [] else t.Unread())
                  && (if x == EOF then t == r.(socket := t.socket, ec := t.ec)
                      else
                        && t.gptr == PUTBACK_MAX && x == t.Unread()[0]
                        && t == r.(socket := t.socket, ec := t.ec, getBuffer := t.getBuffer,
                                   gptr := t.gptr, egptr := t.egptr)))
  {
    UnderflowFills(r);
    if r.gptr == r.egptr {
      RefillOutcome(r.socket, r.expiry);
      var f := Refill(r.socket, r.expiry);
      if f.bytes != [] {
        assert Underflow(r).0.Unread() == f.bytes;
      }
    }
  }

  // ----- The public functions of std::streambuf -----

  /** sputc: into the put area while there is room, and otherwise through overflow. */
  lemma SPutCOutcome(r: Rep, b: byte)
    requires r.Valid()
    ensures var (t, x) := SPutC(r, b);
            if |r.Pending()| < |r.putBuffer| - r.pbase then
              && x == b && t == r.(putBuffer := t.putBuffer, pptr := r.pptr + 1)
              && t.Valid() && t.Pending() == r.Pending() + [b]
            else
              (t, x) == Overflow(r, b)
  {
    if r.pptr < r.epptr {
      var t := SPutC(r, b).0;
      assert t.Pending() == r.Pending() + [b];
    }
  }

  /** sgetc looks at the next unread character, sbumpc takes it; with none unread both go to underflow. */
  lemma GetOutcome(r: Rep)
    requires r.Valid()
    ensures SGetC(r) == if r.Unread() != [] then (r, r.Unread()[0]) else Underflow(r)
    ensures var ((s, x), (t, y)) := (SGetC(r), SBumpC(r));
            && s.Valid() && t.Valid() && x == y
            && (if x == EOF then t == s
                else t == s.(gptr := t.gptr) && s.Unread() == [x] + t.Unread())
  {
    UnderflowFills(r);
    var (s, x) := SGetC(r);
    if x != EOF {
      SliceHead(s.getBuffer, s.gptr, s.egptr);
    }
  }

  /** sungetc: the character in front of the get area becomes unread again, as long as there is one. */
  lemma SUngetCOutcome(r: Rep)
    requires r.Valid()
    ensures var (t, x) := SUngetC(r);
            if r.gptr == 0 then (t, x) == (r, EOF)
            else
              && t == r.(gptr := t.gptr) && t.Valid()
              && x == r.getBuffer[..r.gptr][r.gptr - 1] && t.Unread() == [x] + r.Unread()
  {
    if r.gptr > 0 {
      SliceHead(r.getBuffer, r.gptr - 1, r.egptr);
    }
  }
}
