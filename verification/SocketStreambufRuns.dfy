/**
 Two socket streambufs joined by a reliable byte channel in both directions: over every run, for
 every interleaving and every chunking by the two kernels, no character is lost, doubled or
 reordered before the first failed flush.
 */
module SocketStreambufRuns {
  import opened Chars
  import opened Sequences
  import opened Sockets
  import opened SocketStreambufSpec
  import opened SocketStreambufTheorems
  import opened SocketStreambufEnds

  // ----- Two ends -----

  datatype Connection = Connection(a: End, b: End)

  function At(c: Connection, a: bool): End {
    if a then c.a else c.b
  }

  /** The channel delivers to the peer's socket exactly the bytes put onto the wire. */
  function Arrive(e: End, bytes: seq<byte>): End {
    e.(rep := e.rep.(socket := e.rep.socket.(inbound := e.rep.socket.inbound + bytes)))
  }

  datatype Event = Event(onA: bool, op: Op)

  ghost predicate Valid(c: Connection) {
    ReadsRemembered(c.a) && ReadsRemembered(c.b)
  }

  ghost function Do(c: Connection, ev: Event): (Connection, bool)
    requires Valid(c)
  {
    if ev.onA then
      var (a2, ok) := EndStep(c.a, ev.op);
      (Connection(a2, Arrive(c.b, OntoWire(c.a, ev.op))), ok)
    else
      var (b2, ok) := EndStep(c.b, ev.op);
      (Connection(Arrive(c.a, OntoWire(c.b, ev.op)), b2), ok)
  }

  /** written == read ++ get area ++ bytes in the channel ++ put area. */
  ghost predicate Conserved(from: End, to: End)
    requires from.rep.Valid() && to.rep.Valid()
  {
    from.written == Incoming(to) + from.rep.Pending()
  }

  lemma ArriveExtends(e: End, bytes: seq<byte>)
    requires ReadsRemembered(e)
    ensures ReadsRemembered(Arrive(e, bytes))
    ensures Incoming(Arrive(e, bytes)) == Incoming(e) + bytes
    ensures Arrive(e, bytes).rep.Pending() == e.rep.Pending()
  {
  }

  lemma StepAdvances(from: End, to: End, op: Op)
    requires ReadsRemembered(from) && ReadsRemembered(to) && Conserved(from, to) && EndStep(from, op).1
    ensures var from2, to2 := EndStep(from, op).0, Arrive(to, OntoWire(from, op));
            && ReadsRemembered(from2) && ReadsRemembered(to2)
            && Conserved(from2, to2) && Incoming(from2) == Incoming(from)
  {
    StepSends(from, op);
    StepReceives(from, op);
    ArriveExtends(to, OntoWire(from, op));
    var from2 := EndStep(from, op).0;
    var wire, added := OntoWire(from, op), Accepted(from, from2);
    Regroup(Incoming(to), from.rep.Pending(), added);
    Regroup(Incoming(to), wire, from2.rep.Pending());
  }

  /** One lossless step at the end from keeps both directions conserved. */
  lemma StepConserves(from: End, to: End, op: Op)
    requires ReadsRemembered(from) && ReadsRemembered(to) && EndStep(from, op).1
    requires Conserved(from, to) && Conserved(to, from)
    ensures var from2, to2 := EndStep(from, op).0, Arrive(to, OntoWire(from, op));
            && ReadsRemembered(from2) && ReadsRemembered(to2)
            && Conserved(from2, to2) && Conserved(to2, from2)
  {
    StepAdvances(from, to, op);
    ArriveExtends(to, OntoWire(from, op));
  }

  /** How a run ended: to the last event, or with the first event that did not keep every character. */
  datatype Ending = Kept | Lost(event: Event)

  /** A run up to and including the first step that does not keep every character. */
  ghost function Run(c: Connection, events: seq<Event>): (Connection, Ending)
    requires Valid(c)
    decreases |events|
  {
    if events == [] then (c, Kept)
    else
      var (d, ok) := Do(c, events[0]);
      if ok && Valid(d) then Run(d, events[1..]) else (d, Lost(events[0]))
  }

  /** Two streambufs around freshly connected sockets. */
  ghost function Connected(s: Socket, t: Socket): (c: Connection)
    requires s.Settles() && t.Settles()
    ensures Valid(c)
  {
    assert Zeros(BUFFER_SIZE)[..PUTBACK_MAX] == Zeros(PUTBACK_MAX);
    Connection(End(Fresh(s), [], []), End(Fresh(t), [], []))
  }

  lemma {:induction false} RunConserves(c: Connection, events: seq<Event>)
    requires Valid(c) && Conserved(c.a, c.b) && Conserved(c.b, c.a)
    requires Run(c, events).1 == Kept
    ensures var d := Run(c, events).0; Valid(d) && Conserved(d.a, d.b) && Conserved(d.b, d.a)
    decreases |events|
  {
    if events != [] {
      var ev := events[0];
      if ev.onA { StepConserves(c.a, c.b, ev.op); } else { StepConserves(c.b, c.a, ev.op); }
      RunConserves(Do(c, ev).0, events[1..]);
    }
  }

  /**
   Two-way conservation: over every run without a failed flush, for every interleaving and every
   split into sends and receives, each end has read, holds or is about to receive exactly what
   the other has written and no longer holds back.
   */
  lemma TwoWayConservation(s: Socket, t: Socket, events: seq<Event>)
    requires s.Settles() && t.Settles() && s.inbound == t.inbound == []
    ensures var (d, end) := Run(Connected(s, t), events);
            end == Kept ==>
            && Valid(d)
            && d.a.written == d.b.read + d.b.rep.Unread() + d.b.rep.socket.inbound + d.a.rep.Pending()
            && d.b.written == d.a.read + d.a.rep.Unread() + d.a.rep.socket.inbound + d.b.rep.Pending()
  {
    assert Conserved(Connected(s, t).a, Connected(s, t).b);
    assert Conserved(Connected(s, t).b, Connected(s, t).a);
    if Run(Connected(s, t), events).1 == Kept {
      RunConserves(Connected(s, t), events);
    }
  }

  // ----- The first failure -----

  /**
   A failed flush leaves written and put area alone but may have put a proper prefix of the put
   area onto the wire; conservation survives exactly when the kernel's script let no byte through.
   */
  lemma FailedFlushOverlaps(from: End, to: End, op: Op)
    requires ReadsRemembered(from) && ReadsRemembered(to) && Conserved(from, to)
    requires (op.Put? || op.Push?) && !Keeps(from, op)
    ensures var from2, to2 := EndStep(from, op).0, Arrive(to, OntoWire(from, op));
            var n := |OntoWire(from, op)|;
            && ReadsRemembered(from2) && ReadsRemembered(to2)
            && from2.written == from.written && from2.rep.Pending() == from.rep.Pending()
            && n <= |from2.rep.Pending()|
            && from2.written == Incoming(to2) + from2.rep.Pending()[n..]
            && (Conserved(from2, to2) <==> !CanMove(from.rep.socket, from.rep.expiry, 1))
  {
    var wire := OntoWire(from, op);
    StepReceives(from, op);
    FailedFlushSends(from, op);
    ArriveExtends(to, wire);
    var pending := from.rep.Pending();
    assert pending == wire + pending[|wire|..];
    Regroup(Incoming(to), wire, pending[|wire|..]);
    if |wire| != 0 {
      assert |Incoming(Arrive(to, wire)) + pending| > |from.written|;
    } else {
      assert Incoming(to) + wire == Incoming(to);
    }
  }

  lemma FailedFlushSends(e: End, op: Op)
    requires e.rep.Valid() && (op.Put? || op.Push?) && !Keeps(e, op)
    ensures var e2, wire := EndStep(e, op).0, OntoWire(e, op);
            && e2.rep.Valid() && e2.written == e.written && e2.rep.Pending() == e.rep.Pending()
            && |wire| <= |e.rep.Pending()| && wire == e.rep.Pending()[..|wire|]
            && (wire == [] <==> !CanMove(e.rep.socket, e.rep.expiry, 1))
  {
    var c := if op.Put? then op.b else op.c;
    OverflowIff(e.rep, c);
    var t := Overflow(e.rep, c).0;
    if e.rep.Unbuffered() {
      UnbufferedOverflow(e.rep, c);
      DropFront(e.rep.socket.sent, []);
    } else {
      BufferedOverflow(e.rep, c);
      DropFront(e.rep.socket.sent, e.rep.Pending()[..Gained(e.rep.socket, t.socket)]);
    }
  }

  /** Moving a streambuf with pending output drops that output: nothing else changes. */
  lemma LossyMoveDrops(from: End, to: End)
    requires ReadsRemembered(from) && ReadsRemembered(to) && Conserved(from, to)
    ensures var from2 := EndStep(from, Move).0;
            && OntoWire(from, Move) == [] && ReadsRemembered(from2)
            && from2.written == Incoming(to) + from.rep.Pending() && from2.rep.Pending() == []
            && (Conserved(from2, to) <==> from.rep.pptr == from.rep.pbase)
  {
    MoveExact(from.rep);
    StepReceives(from, Move);
    if from.rep.pptr != from.rep.pbase {
      assert |Incoming(to) + []| < |from.written|;
    }
  }

  /** In every step but a putback behind the get area, what the peer will read is what was written. */
  lemma StepIsPrefix(from: End, to: End, op: Op)
    requires ReadsRemembered(from) && ReadsRemembered(to)
    requires Conserved(from, to) && Conserved(to, from)
    requires !op.Unget? && !Keeps(from, op)
    ensures var from2, to2 := EndStep(from, op).0, Arrive(to, OntoWire(from, op));
            && ReadsRemembered(from2) && ReadsRemembered(to2)
            && Incoming(to2) <= from2.written && Incoming(from2) <= to2.written
  {
    if op.Move? { LossyMoveDrops(from, to); } else { FailedFlushOverlaps(from, to, op); }
    StepReceives(from, op);
    ArriveExtends(to, OntoWire(from, op));
  }

  /** A NUL that nobody wrote stands in front of what is unread; without it all is as written. */
  ghost predicate InventedNul(e: End, written: seq<byte>)
    requires e.rep.Valid()
  {
    && e.rep.Unread() != [] && e.rep.Unread()[0] == 0
    && e.read + e.rep.Unread()[1..] + e.rep.socket.inbound <= written
  }

  ghost predicate SafeEnd(e: End, written: seq<byte>, invented: bool)
    requires e.rep.Valid()
  {
    if invented then InventedNul(e, written) else Incoming(e) <= written
  }

  /** The step that ends a run leaves both ends safe. */
  lemma LastStepIsSafe(from: End, to: End, op: Op)
    requires ReadsRemembered(from) && ReadsRemembered(to)
    requires Conserved(from, to) && Conserved(to, from) && !Keeps(from, op)
    ensures var from2, to2 := EndStep(from, op).0, Arrive(to, OntoWire(from, op));
            && from2.rep.Valid() && to2.rep.Valid()
            && SafeEnd(to2, from2.written, false) && SafeEnd(from2, to2.written, op.Unget?)
  {
    if op.Unget? {
      UngetInvents(from);
      ArriveExtends(to, OntoWire(from, op));
      assert UngetEnd(from).0.rep.Unread()[1..] == from.rep.Unread();
    } else {
      StepIsPrefix(from, to, op);
    }
  }

  /**
   Safety up to and including the first failure: what either end has read or will read from the
   channel is a prefix of what the other has written, except that a run ended by a putback past
   the get area leaves one invented NUL in front of what is unread at that end.
   */
  lemma {:induction false} RunIsPrefix(c: Connection, events: seq<Event>)
    requires Valid(c) && Conserved(c.a, c.b) && Conserved(c.b, c.a)
    ensures var (d, end) := Run(c, events);
            && d.a.rep.Valid() && d.b.rep.Valid()
            && SafeEnd(d.a, d.b.written, end == Lost(Event(true, Unget)))
            && SafeEnd(d.b, d.a.written, end == Lost(Event(false, Unget)))
    decreases |events|
  {
    if events != [] {
      var ev := events[0];
      StepKeepsIff(if ev.onA then c.a else c.b, ev.op);
      if Do(c, ev).1 {
        if ev.onA { StepConserves(c.a, c.b, ev.op); } else { StepConserves(c.b, c.a, ev.op); }
        RunIsPrefix(Do(c, ev).0, events[1..]);
      } else {
        if ev.onA { LastStepIsSafe(c.a, c.b, ev.op); } else { LastStepIsSafe(c.b, c.a, ev.op); }
      }
    }
  }

  // ----- Unbuffered mode -----

  lemma WithoutEnds(p: seq<byte>, a: seq<byte>, w: seq<byte>, q: seq<byte>)
    requires p == [] && q == [] && p + a == w + q
    ensures a == w
  {
    assert p + a == a && w + q == w;
  }

  lemma UnbufferedStepConserves(from: End, to: End, op: Op)
    requires ReadsRemembered(from) && ReadsRemembered(to) && Conserved(from, to)
    requires from.rep.Unbuffered() && Keeps(from, op)
    ensures var from2, to2 := EndStep(from, op).0, Arrive(to, OntoWire(from, op));
            from2.rep.Valid() && to2.rep.Valid() && from2.written == Incoming(to2)
  {
    var from2, wire := EndStep(from, op).0, OntoWire(from, op);
    StepKeepsIff(from, op);
    StepSends(from, op);
    UnbufferedStays(from, op);
    ArriveExtends(to, wire);
    WithoutEnds(from.rep.Pending(), Accepted(from, from2), wire, from2.rep.Pending());
    assert Incoming(to) + from.rep.Pending() == Incoming(to);
  }

  lemma UnbufferedFailureSends(from: End, to: End, op: Op)
    requires ReadsRemembered(from) && ReadsRemembered(to) && Conserved(from, to)
    requires from.rep.Unbuffered() && !Keeps(from, op)
    ensures var from2, to2 := EndStep(from, op).0, Arrive(to, OntoWire(from, op));
            from2.rep.Valid() && to2.rep.Valid() && from2.written == Incoming(to2)
  {
    UnbufferedStays(from, op);
    ArriveExtends(to, OntoWire(from, op));
    assert Incoming(to) + from.rep.Pending() == Incoming(to);
    if op.Put? || op.Push? {
      FailedFlushSends(from, op);
    }
    assert Incoming(to) + OntoWire(from, op) == Incoming(to);
  }

  /** Once unbuffered always unbuffered, with nothing pending; even a failed put keeps conservation. */
  lemma UnbufferedKeepsAll(from: End, to: End, op: Op)
    requires ReadsRemembered(from) && ReadsRemembered(to) && Conserved(from, to)
    requires from.rep.Unbuffered()
    ensures var from2, to2 := EndStep(from, op).0, Arrive(to, OntoWire(from, op));
            && from2.rep.Valid() && to2.rep.Valid()
            && from2.rep.Unbuffered() && from2.rep.Pending() == []
            && Conserved(from2, to2) && from2.written == Incoming(to2)
  {
    UnbufferedStays(from, op);
    if Keeps(from, op) { UnbufferedStepConserves(from, to, op); } else { UnbufferedFailureSends(from, to, op); }
    var to2 := Arrive(to, OntoWire(from, op));
    assert Incoming(to2) + [] == Incoming(to2);
  }

  /** A sync whose kernel script lets the whole put area through puts everything written onto the wire. */
  lemma SyncDelivers(from: End, to: End)
    requires ReadsRemembered(from) && ReadsRemembered(to)
    requires Conserved(from, to) && Conserved(to, from)
    requires CanMove(from.rep.socket, from.rep.expiry, |from.rep.Pending()|)
    ensures var from2, to2 := EndStep(from, Push(EOF)).0, Arrive(to, OntoWire(from, Push(EOF)));
            && from2.rep.Valid() && to2.rep.Valid()
            && EndStep(from, Push(EOF)).1 && from2.written == from.written == Incoming(to2)
  {
    OverflowIff(from.rep, EOF);
    StepConserves(from, to, Push(EOF));
    if from.rep.Unbuffered() { UnbufferedOverflow(from.rep, EOF); } else { BufferedOverflow(from.rep, EOF); }
  }
}
