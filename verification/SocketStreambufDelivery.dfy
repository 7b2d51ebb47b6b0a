/**
 Progress: with kernels that keep cooperating no flush fails, and what either end has written the
 other can read completely, whatever the buffering, chunking and interleaving before.
 */
module SocketStreambufDelivery {
  import opened Chars
  import opened Sockets
  import opened SocketStreambufSpec
  import opened SocketStreambufTheorems
  import opened SocketStreambufEnds
  import opened SocketStreambufRuns

  ghost predicate Cooperates(s: Socket, expiry: int) {
    s.open && forall i: nat :: s.tick <= i ==> Willing(s.oracle.at(i), expiry)
  }

  /** Willing turns offer at least a byte each, but for the waits the kernel may still ask for. */
  lemma {:induction false} WillingOffers(s: Socket, expiry: int, n: nat)
    requires s.Settles() && Cooperates(s, expiry)
    ensures Offered(s.oracle, s.tick, n) >= n - s.Patience()
    decreases n
  {
    if n > 0 {
      assert Willing(s.Turn(), expiry);
      WillingOffers(s.Next(), expiry, n - 1);
    }
  }

  lemma CooperativeMoves(s: Socket, expiry: int, k: nat)
    requires s.Settles() && Cooperates(s, expiry)
    ensures CanMove(s, expiry, k)
  {
    WillingOffers(s, expiry, s.Patience() + k);
    assert Offers(s.oracle, s.tick, expiry, s.Patience() + k, k);
  }

  lemma LaterCooperates(s: Socket, t: Socket, expiry: int)
    requires Cooperates(s, expiry) && s.tick <= t.tick && t.open && t.oracle == s.oracle
    ensures Cooperates(t, expiry)
  {
  }

  /** A corollary of FlushOkIff. */
  lemma FlushCompletes(s: Socket, expiry: int, ec: Error, out: seq<byte>)
    requires s.Settles() && Cooperates(s, expiry)
    ensures var f := Flush(s, expiry, ec, out); f.ok && Cooperates(f.socket, expiry)
  {
    CooperativeMoves(s, expiry, |out|);
    FlushOkIff(s, expiry, ec, out);
    FlushSendsPrefix(s, expiry, ec, out);
    FlushTurns(s, expiry, ec, out);
    LaterCooperates(s, Flush(s, expiry, ec, out).socket, expiry);
  }

  /** A corollary of RefillOkIff. */
  lemma RefillCompletes(s: Socket, expiry: int)
    requires s.Settles() && Cooperates(s, expiry)
    ensures var f := Refill(s, expiry); (f.bytes != [] <==> s.inbound != []) && Cooperates(f.socket, expiry)
  {
    CooperativeMoves(s, expiry, 1);
    RefillOkIff(s, expiry);
    RefillTakesPrefix(s, expiry);
    LaterCooperates(s, Refill(s, expiry).socket, expiry);
  }

  ghost predicate Ready(e: End) {
    ReadsRemembered(e) && Cooperates(e.rep.socket, e.rep.expiry)
  }

  ghost predicate BothReady(c: Connection) {
    Ready(c.a) && Ready(c.b)
  }

  // ----- Single steps -----

  lemma PushWorks(r: Rep, c: int)
    requires r.Valid() && Cooperates(r.socket, r.expiry)
    ensures var (t, x) := Overflow(r, c); x != EOF && t.Valid() && Cooperates(t.socket, t.expiry)
  {
    OverflowKeepsValid(r, c);
    FlushCompletes(r.socket, r.expiry, r.ec, Due(r, c));
  }

  lemma PullKeepsReady(r: Rep)
    requires r.Valid() && Cooperates(r.socket, r.expiry)
    ensures var t := Underflow(r).0; t.Valid() && t.expiry == r.expiry && Cooperates(t.socket, t.expiry)
  {
    UnderflowKeepsValid(r);
    RefillCompletes(r.socket, r.expiry);
  }

  lemma PutWorks(e: End, b: byte)
    requires Ready(e)
    ensures PutEnd(e, b).1 && Ready(PutEnd(e, b).0)
  {
    PutReceives(e, b);
    if e.rep.pptr >= e.rep.epptr { PushWorks(e.rep, b); }
  }

  lemma PushEndWorks(e: End, c: int)
    requires Ready(e)
    ensures PushEnd(e, c).1 && Ready(PushEnd(e, c).0)
  {
    PushReceives(e, c);
    PushWorks(e.rep, c);
  }

  lemma GetKeepsReady(e: End)
    requires Ready(e)
    ensures Ready(GetEnd(e)) && Ready(e.(rep := SGetC(e.rep).0)) && Ready(e.(rep := Underflow(e.rep).0))
  {
    GetReceives(e);
    PeekReceives(e);
    PullReceives(e);
    PullKeepsReady(e.rep);
  }

  /** A putback inside the get area, a move with nothing pending, and every other step keep all. */
  lemma StepWorks(e: End, op: Op)
    requires Ready(e) && (op.Unget? || op.Move? ==> Keeps(e, op))
    ensures var (e2, ok) := EndStep(e, op); ok && Ready(e2)
  {
    StepKeepsIff(e, op);
    match op
    case Put(b) => PutWorks(e, b);
    case Push(c) => PushEndWorks(e, c);
    case Get => GetKeepsReady(e);
    case Peek => GetKeepsReady(e);
    case Pull => GetKeepsReady(e);
    case Unbuffer => UnbufferReceives(e);
    case Unget => UngetReceives(e);
    case Move => MoveReceives(e);
  }

  /** While something is unread or inbound, a get reads the next character. */
  lemma GetWorks(e: End)
    requires Ready(e) && |e.read| < |Incoming(e)|
    ensures var e2 := GetEnd(e);
            && Ready(e2) && Incoming(e2) == Incoming(e) && |e2.read| == |e.read| + 1
            && e2.rep.socket.sent == e.rep.socket.sent
  {
    GetKeepsReady(e);
    GetReceives(e);
    GetFrames(e.rep);
    PeekSees(e.rep);
    RefillCompletes(e.rep.socket, e.rep.expiry);
    assert SGetC(e.rep).1 != EOF;
  }

  // ----- Runs -----

  lemma ArriveReady(e: End, bytes: seq<byte>)
    requires Ready(e)
    ensures Ready(Arrive(e, bytes)) && Arrive(e, bytes).read == e.read
  {
    ArriveExtends(e, bytes);
  }

  lemma DoWorks(c: Connection, ev: Event)
    requires BothReady(c) && (ev.op.Unget? || ev.op.Move? ==> Keeps(At(c, ev.onA), ev.op))
    ensures var (d, ok) := Do(c, ev); ok && BothReady(d)
  {
    StepWorks(At(c, ev.onA), ev.op);
    ArriveReady(At(c, !ev.onA), OntoWire(At(c, ev.onA), ev.op));
  }

  /** The only steps that can lose anything are a putback past the get area and a move with output pending. */
  lemma {:induction false} RunWorks(c: Connection, events: seq<Event>)
    requires BothReady(c)
    ensures var (d, end) := Run(c, events);
            if end == Kept then BothReady(d) else end.event.op.Unget? || end.event.op.Move?
    decreases |events|
  {
    if events != [] {
      var ev := events[0];
      StepKeepsIff(At(c, ev.onA), ev.op);
      if Keeps(At(c, ev.onA), ev.op) || !(ev.op.Unget? || ev.op.Move?) {
        DoWorks(c, ev);
        RunWorks(Do(c, ev).0, events[1..]);
      }
    }
  }

  // ----- Draining -----

  /** n calls of sbumpc. */
  ghost function GetTimes(e: End, n: nat): End
    requires e.rep.Valid()
    decreases n
  {
    if n == 0 || !GetEnd(e).rep.Valid() then e else GetTimes(GetEnd(e), n - 1)
  }

  lemma AllRead(e: End)
    requires e.rep.Valid() && |e.read| == |Incoming(e)|
    ensures e.read == Incoming(e)
  {
    assert Incoming(e)[..|e.read|] == e.read;
  }

  /** As many gets as characters are incoming read all of them. */
  lemma {:induction false} GetsDrain(e: End, n: nat)
    requires Ready(e) && |e.read| + n == |Incoming(e)|
    ensures GetTimes(e, n).read == Incoming(e)
    decreases n
  {
    if n == 0 {
      AllRead(e);
    } else {
      GetWorks(e);
      GetsDrain(GetEnd(e), n - 1);
    }
  }

  function SyncAt(onA: bool): Event {
    Event(onA, Push(EOF))
  }

  ghost predicate BothConserved(c: Connection)
    requires Valid(c)
  {
    Conserved(c.a, c.b) && Conserved(c.b, c.a)
  }

  /** How many of the characters written at one end are still to be read at the other. */
  ghost function Missing(c: Connection, fromA: bool): nat
    requires Valid(c) && BothConserved(c)
  {
    |At(c, fromA).written| - |At(c, !fromA).read|
  }

  /** A sync at one end succeeds, and the missing gets at the other then read all that was written. */
  ghost predicate Drains(c: Connection, fromA: bool)
    requires Valid(c) && BothConserved(c)
  {
    var (d, ok) := Do(c, SyncAt(fromA));
    && ok && Valid(d)
    && GetTimes(At(d, !fromA), Missing(c, fromA)).read == At(c, fromA).written
  }

  lemma DrainDelivers(c: Connection, fromA: bool)
    requires BothReady(c) && BothConserved(c)
    ensures Drains(c, fromA)
  {
    var from, to := At(c, fromA), At(c, !fromA);
    DoWorks(c, SyncAt(fromA));
    CooperativeMoves(from.rep.socket, from.rep.expiry, |from.rep.Pending()|);
    SyncDelivers(from, to);
    GetsDrain(Arrive(to, OntoWire(from, Push(EOF))), Missing(c, fromA));
  }

  lemma RunThenDrain(c: Connection, events: seq<Event>)
    requires BothReady(c) && BothConserved(c)
    ensures var (d, end) := Run(c, events);
            if end == Kept then Valid(d) && BothConserved(d) && Drains(d, true) && Drains(d, false)
            else end.event.op.Unget? || end.event.op.Move?
  {
    RunWorks(c, events);
    var (d, end) := Run(c, events);
    if end == Kept {
      RunConserves(c, events);
      DrainDelivers(d, true);
      DrainDelivers(d, false);
    }
  }

  /**
   Complete delivery, both ways: a run of a new connection with cooperative kernels loses nothing
   unless it puts back past the get area or moves a streambuf with output pending. From where it
   ends otherwise, a sync at one end and enough gets at the other read everything written.
   */
  lemma EverythingArrives(s: Socket, t: Socket, events: seq<Event>)
    requires s.Settles() && t.Settles() && s.inbound == t.inbound == []
    requires Cooperates(s, MAX_EXPIRY_TIME) && Cooperates(t, MAX_EXPIRY_TIME)
    ensures var (d, end) := Run(Connected(s, t), events);
            if end == Kept then Valid(d) && BothConserved(d) && Drains(d, true) && Drains(d, false)
            else end.event.op.Unget? || end.event.op.Move?
  {
    assert BothConserved(Connected(s, t));
    RunThenDrain(Connected(s, t), events);
  }
}
