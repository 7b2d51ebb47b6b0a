/**
 One end beyond its first failed flush: however many flushes fail and are retried, everything
 written reaches the wire at least once and in order, and exactly once just when no failed flush
 could move a byte.
 */
module SocketStreambufRetries {
  import opened Chars
  import opened Sequences
  import opened Sockets
  import opened SocketStreambufSpec
  import opened SocketStreambufTheorems
  import opened SocketStreambufEnds
  import opened SocketStreambufRuns

  // ----- Subsequences -----

  /** The elements of x occur in y, in this order. */
  predicate Subsequence(x: seq<byte>, y: seq<byte>)
    decreases |y|
  {
    if x == [] then true
    else if y == [] then false
    else
      var m, n := |x| - 1, |y| - 1;
      (x[m] == y[n] && Subsequence(x[..m], y[..n])) || Subsequence(x, y[..n])
  }

  lemma {:induction false} SubsequenceExtends(x: seq<byte>, y: seq<byte>, z: seq<byte>)
    requires Subsequence(x, y)
    ensures Subsequence(x, y + z)
    decreases |z|
  {
    if z == [] {
      assert y + z == y;
    } else {
      var n := |z| - 1;
      SubsequenceExtends(x, y, z[..n]);
      assert (y + z)[..|y + z| - 1] == y + z[..n];
    }
  }

  lemma {:induction false} SubsequenceAppends(x: seq<byte>, y: seq<byte>, z: seq<byte>)
    requires Subsequence(x, y)
    ensures Subsequence(x + z, y + z)
    decreases |z|
  {
    if z == [] {
      assert x + z == x && y + z == y;
    } else {
      var n := |z| - 1;
      SubsequenceAppends(x, y, z[..n]);
      assert (x + z)[..|x + z| - 1] == x + z[..n];
      assert (y + z)[..|y + z| - 1] == y + z[..n];
    }
  }

  /** A subsequence of the same length is the whole. */
  lemma {:induction false} WholeSubsequence(x: seq<byte>, y: seq<byte>)
    requires Subsequence(x, y)
    ensures |x| <= |y| && (|x| == |y| ==> x == y)
    decreases |y|
  {
    if x != [] {
      var m, n := |x| - 1, |y| - 1;
      if x[m] == y[n] && Subsequence(x[..m], y[..n]) {
        WholeSubsequence(x[..m], y[..n]);
        assert x == x[..m] + [x[m]] && y == y[..n] + [y[n]];
      } else {
        WholeSubsequence(x, y[..n]);
      }
    }
  }

  // ----- The life of one end -----

  /** The user calls an operation, or bytes of the peer arrive. */
  datatype Happening = Calls(op: Op) | Hears(bytes: seq<byte>)

  /** A move of a streambuf with output pending, which it drops. */
  predicate Drops(e: End, h: Happening) {
    h == Calls(Move) && e.rep.pptr != e.rep.pbase
  }

  ghost predicate FailedFlush(e: End, op: Op)
    requires e.rep.Valid()
  {
    (op.Put? || op.Push?) && !Keeps(e, op)
  }

  ghost function After(e: End, h: Happening): End
    requires e.rep.Valid()
  {
    match h
    case Calls(op) => EndStep(e, op).0
    case Hears(bytes) => Arrive(e, bytes)
  }

  /** Goes on after failed flushes and putbacks too far; stops, with false, before a move that drops output. */
  ghost function Life(e: End, hs: seq<Happening>): (End, bool)
    requires e.rep.Valid()
    decreases |hs|
  {
    if hs == [] then (e, true)
    else if Drops(e, hs[0]) || !After(e, hs[0]).rep.Valid() then (e, false)
    else Life(After(e, hs[0]), hs[1..])
  }

  /** The bytes a failed flush has put onto the wire, for the retry to send again. */
  ghost function Torn(e: End, h: Happening): seq<byte>
    requires e.rep.Valid()
  {
    if h.Calls? && FailedFlush(e, h.op) then OntoWire(e, h.op) else []
  }

  /** Not a flush that fails after the kernel's script has let a byte through. */
  ghost predicate TearsNothing(e: End, op: Op)
    requires e.rep.Valid()
  {
    FailedFlush(e, op) ==> !CanMove(e.rep.socket, e.rep.expiry, 1)
  }

  /** No flush that failed on the way could move a byte. */
  ghost predicate NothingTorn(e: End, hs: seq<Happening>)
    requires e.rep.Valid()
    decreases |hs|
  {
    if hs == [] || Drops(e, hs[0]) || !After(e, hs[0]).rep.Valid() then true
    else
      && (hs[0].Calls? ==> TearsNothing(e, hs[0].op))
      && NothingTorn(After(e, hs[0]), hs[1..])
  }

  /** What has been written and is no longer in the put area. */
  ghost function FlushedPart(e: End): seq<byte>
    requires e.rep.Valid() && |e.rep.Pending()| <= |e.written|
  {
    e.written[..|e.written| - |e.rep.Pending()|]
  }

  /** The put area is the end of what was written; all before it is on the wire at least once, in order. */
  ghost predicate AtLeastOnce(e: End) {
    && e.rep.Valid() && |e.rep.Pending()| <= |e.written|
    && e.written == FlushedPart(e) + e.rep.Pending()
    && Subsequence(FlushedPart(e), e.rep.socket.sent)
  }

  /** How many bytes are on the wire beyond those written and flushed. */
  ghost function Surplus(e: End): int
    requires AtLeastOnce(e)
  {
    |e.rep.socket.sent| - |FlushedPart(e)|
  }

  lemma FlushedPartIs(e: End, front: seq<byte>)
    requires e.rep.Valid() && e.written == front + e.rep.Pending()
    ensures |e.rep.Pending()| <= |e.written| && FlushedPart(e) == front
  {
  }

  /** A step that sends in order moves the front of put area ++ accepted to the end of the wire. */
  lemma SendingKeepsOrder(e: End, e2: End)
    requires AtLeastOnce(e) && Sends(e, e2)
    ensures AtLeastOnce(e2) && Surplus(e2) == Surplus(e)
  {
    var front, wire := FlushedPart(e), Wired(e, e2);
    Regroup(front, e.rep.Pending(), Accepted(e, e2));
    Regroup(front, wire, e2.rep.Pending());
    FlushedPartIs(e2, front + wire);
    SubsequenceAppends(front, e.rep.socket.sent, wire);
  }

  /** A failed flush may add to the wire, and changes nothing else that counts. */
  lemma FailingKeepsOrder(e: End, op: Op)
    requires AtLeastOnce(e) && FailedFlush(e, op)
    ensures var e2 := EndStep(e, op).0; AtLeastOnce(e2) && Surplus(e2) == Surplus(e) + |OntoWire(e, op)|
  {
    FailedFlushSends(e, op);
    WireGrows(e, op);
    var e2 := EndStep(e, op).0;
    FlushedPartIs(e2, FlushedPart(e));
    SubsequenceExtends(FlushedPart(e), e.rep.socket.sent, OntoWire(e, op));
  }

  lemma WireGrows(e: End, op: Op)
    requires e.rep.Valid() && FailedFlush(e, op)
    ensures EndStep(e, op).0.rep.socket.sent == e.rep.socket.sent + OntoWire(e, op)
  {
    var c := if op.Put? then op.b else op.c;
    StepKeepsIff(e, op);
    if e.rep.Unbuffered() { UnbufferedOverflow(e.rep, c); } else { BufferedOverflow(e.rep, c); }
  }

  lemma HearingKeepsOrder(e: End, bytes: seq<byte>)
    requires AtLeastOnce(e)
    ensures AtLeastOnce(Arrive(e, bytes)) && Surplus(Arrive(e, bytes)) == Surplus(e)
  {
  }

  lemma StepKeepsOrder(e: End, op: Op)
    requires AtLeastOnce(e) && !Drops(e, Calls(op))
    ensures var e2 := EndStep(e, op).0;
            AtLeastOnce(e2) && Surplus(e2) == Surplus(e) + |Torn(e, Calls(op))|
  {
    StepKeepsIff(e, op);
    if FailedFlush(e, op) {
      FailingKeepsOrder(e, op);
    } else {
      if Keeps(e, op) { StepSends(e, op); } else { UngetSends(e); }
      SendingKeepsOrder(e, EndStep(e, op).0);
    }
  }

  lemma HappeningKeepsOrder(e: End, h: Happening)
    requires AtLeastOnce(e) && !Drops(e, h)
    ensures var e2 := After(e, h); AtLeastOnce(e2) && Surplus(e2) == Surplus(e) + |Torn(e, h)|
    ensures Torn(e, h) == [] <==> (h.Calls? ==> TearsNothing(e, h.op))
  {
    match h
    case Hears(bytes) => HearingKeepsOrder(e, bytes);
    case Calls(op) =>
      StepKeepsOrder(e, op);
      if FailedFlush(e, op) { FailedFlushSends(e, op); }
  }

  /** Order is kept for ever, and bytes are on the wire twice exactly when some failed flush moved one. */
  lemma {:induction false} LifeKeepsOrder(e: End, hs: seq<Happening>)
    requires AtLeastOnce(e)
    ensures var e2 := Life(e, hs).0;
            AtLeastOnce(e2) && Surplus(e2) >= Surplus(e) && (Surplus(e2) == Surplus(e) <==> NothingTorn(e, hs))
    decreases |hs|
  {
    if hs != [] && !Drops(e, hs[0]) {
      HappeningKeepsOrder(e, hs[0]);
      LifeKeepsOrder(After(e, hs[0]), hs[1..]);
    }
  }

  /** Only a move can end a life early. */
  lemma {:induction false} LifeGoesOn(e: End, hs: seq<Happening>)
    requires AtLeastOnce(e) && Calls(Move) !in hs
    ensures Life(e, hs).1
    decreases |hs|
  {
    if hs != [] {
      assert hs[0] in hs;
      HappeningKeepsOrder(e, hs[0]);
      LifeGoesOn(After(e, hs[0]), hs[1..]);
    }
  }

  /**
   At-least-once delivery over any number of failed flushes and retries: all that was written and
   is not pending is on the wire, in order; the wire holds nothing else exactly when no failed
   flush could move a byte.
   */
  lemma AtLeastOnceDelivery(s: Socket, hs: seq<Happening>)
    requires s.Settles() && s.sent == []
    ensures Fresh(s).Valid()
    ensures var start := End(Fresh(s), [], []); var e := Life(start, hs).0;
            && AtLeastOnce(e)
            && (e.written == e.rep.socket.sent + e.rep.Pending() <==> NothingTorn(start, hs))
    ensures Calls(Move) !in hs ==> Life(End(Fresh(s), [], []), hs).1
  {
    FreshIsValid(s);
    var start := End(Fresh(s), [], []);
    assert AtLeastOnce(start) && Surplus(start) == 0;
    LifeKeepsOrder(start, hs);
    if Calls(Move) !in hs { LifeGoesOn(start, hs); }
    var e := Life(start, hs).0;
    WholeSubsequence(FlushedPart(e), e.rep.socket.sent);
    if e.written == e.rep.socket.sent + e.rep.Pending() {
      FlushedPartIs(e, e.rep.socket.sent);
    }
  }

  /** A sync that succeeds ends the wire with the put area of that time, and completes what was written. */
  lemma RetryDelivers(e: End)
    requires AtLeastOnce(e) && CanMove(e.rep.socket, e.rep.expiry, |e.rep.Pending()|)
    ensures var (e2, ok) := EndStep(e, Push(EOF));
            && ok && e2.rep.Valid() && e2.written == e.written && e2.rep.Pending() == []
            && e2.rep.socket.sent == e.rep.socket.sent + e.rep.Pending()
            && Subsequence(e.written, e2.rep.socket.sent)
  {
    OverflowIff(e.rep, EOF);
    if e.rep.Unbuffered() { UnbufferedOverflow(e.rep, EOF); } else { BufferedOverflow(e.rep, EOF); }
    SubsequenceAppends(FlushedPart(e), e.rep.socket.sent, e.rep.Pending());
  }

  // ----- What the wire is made of -----

  /** What a happening has to flush: the put area, or without one the character itself. */
  ghost function ToFlush(e: End, h: Happening): seq<byte>
    requires e.rep.Valid()
  {
    match h
    case Calls(Push(c)) => Due(e.rep, c)
    case Calls(Put(b)) => if e.rep.pptr < e.rep.epptr then [] else Due(e.rep, b)
    case _ => []
  }

  /** wire consists of one prefix of ToFlush for each happening, the whole of it unless the flush failed. */
  ghost predicate Pieces(e: End, hs: seq<Happening>, wire: seq<byte>)
    requires e.rep.Valid()
    decreases |hs|
  {
    if hs == [] || Drops(e, hs[0]) || !After(e, hs[0]).rep.Valid() then wire == []
    else exists n: nat ::
      && n <= |wire| && n <= |ToFlush(e, hs[0])| && wire[..n] == ToFlush(e, hs[0])[..n]
      && (n == |ToFlush(e, hs[0])| <==> !(hs[0].Calls? && FailedFlush(e, hs[0].op)))
      && Pieces(After(e, hs[0]), hs[1..], wire[n..])
  }

  lemma FlushPiece(e: End, c: int)
    requires e.rep.Valid()
    ensures var t := Overflow(e.rep, c).0; var n := Gained(e.rep.socket, t.socket);
            && 0 <= n <= |Due(e.rep, c)| && t.socket.sent == e.rep.socket.sent + Due(e.rep, c)[..n]
            && (n == |Due(e.rep, c)| <==> CanMove(e.rep.socket, e.rep.expiry, |Due(e.rep, c)|))
  {
    OverflowIff(e.rep, c);
    if e.rep.Unbuffered() { UnbufferedOverflow(e.rep, c); } else { BufferedOverflow(e.rep, c); }
  }

  lemma PutPiece(e: End, b: byte) returns (n: nat)
    requires e.rep.Valid()
    ensures n <= |ToFlush(e, Calls(Put(b)))|
    ensures PutEnd(e, b).0.rep.socket.sent == e.rep.socket.sent + ToFlush(e, Calls(Put(b)))[..n]
    ensures n == |ToFlush(e, Calls(Put(b)))| <==> !FailedFlush(e, Put(b))
  {
    n := 0;
    if e.rep.pptr >= e.rep.epptr {
      FlushPiece(e, b);
      n := Gained(e.rep.socket, Overflow(e.rep, b).0.socket);
    }
  }

  /** Anything that flushes nothing leaves the wire alone. */
  lemma SilentPiece(e: End, op: Op)
    requires e.rep.Valid() && !op.Put? && !op.Push? && !Drops(e, Calls(op))
    ensures EndStep(e, op).0.rep.socket.sent == e.rep.socket.sent
  {
    match op
    case Get => GetFrames(e.rep);
    case Peek => GetFrames(e.rep);
    case Pull => UnderflowFills(e.rep);
    case _ =>
  }

  lemma HappeningPiece(e: End, h: Happening) returns (n: nat)
    requires AtLeastOnce(e) && !Drops(e, h)
    ensures n <= |ToFlush(e, h)| && After(e, h).rep.socket.sent == e.rep.socket.sent + ToFlush(e, h)[..n]
    ensures n == |ToFlush(e, h)| <==> !(h.Calls? && FailedFlush(e, h.op))
  {
    n := 0;
    if h.Calls? {
      match h.op
      case Push(c) =>
        FlushPiece(e, c);
        n := Gained(e.rep.socket, Overflow(e.rep, c).0.socket);
      case Put(b) => n := PutPiece(e, b);
      case _ => SilentPiece(e, h.op);
    }
  }

  /** The wire holds nothing but prefixes of the successive put areas, whole ones when a flush succeeds. */
  lemma {:induction false} WireIsPieces(e: End, hs: seq<Happening>)
    requires AtLeastOnce(e)
    ensures var sent, sent2 := e.rep.socket.sent, Life(e, hs).0.rep.socket.sent;
            sent <= sent2 && Pieces(e, hs, sent2[|sent|..])
    decreases |hs|
  {
    if hs != [] && !Drops(e, hs[0]) {
      var n := HappeningPiece(e, hs[0]);
      HappeningKeepsOrder(e, hs[0]);
      WireIsPieces(After(e, hs[0]), hs[1..]);
      var sent, sent1, sent2 := e.rep.socket.sent, After(e, hs[0]).rep.socket.sent, Life(e, hs).0.rep.socket.sent;
      PieceFirst(sent, ToFlush(e, hs[0])[..n], sent2);
      assert sent2[|sent|..][n..] == sent2[|sent1|..];
    }
  }

  lemma PieceFirst(sent: seq<byte>, piece: seq<byte>, sent2: seq<byte>)
    requires sent + piece <= sent2
    ensures sent <= sent2 && |piece| <= |sent2[|sent|..]| && sent2[|sent|..][..|piece|] == piece
    ensures sent2[|sent|..][|piece|..] == sent2[|sent + piece|..]
  {
    var rest := sent2[|sent + piece|..];
    assert sent2 == sent + piece + rest;
    assert sent2[|sent|..] == piece + rest;
  }

  // ----- Both ends -----

  /** The channel loses, doubles and reorders nothing: what one end receives is what the other sent. */
  ghost predicate Faithful(from: End, to: End)
    requires to.rep.Valid()
  {
    Incoming(to) == from.rep.socket.sent
  }

  ghost predicate BothFaithful(c: Connection) {
    && ReadsRemembered(c.a) && ReadsRemembered(c.b)
    && Faithful(c.a, c.b) && Faithful(c.b, c.a)
    && AtLeastOnce(c.a) && AtLeastOnce(c.b)
  }

  /** Beyond repair: a move that drops output, or a putback that invents a character. */
  ghost predicate Breaks(c: Connection, ev: Event)
    requires Valid(c)
  {
    var e := At(c, ev.onA);
    Drops(e, Calls(ev.op)) || (ev.op.Unget? && !Keeps(e, ev.op))
  }

  /** Goes on after failed flushes, and stops in front of an event that is beyond repair. */
  ghost function Persist(c: Connection, events: seq<Event>): (Connection, Ending)
    requires Valid(c)
    decreases |events|
  {
    if events == [] then (c, Kept)
    else if Breaks(c, events[0]) || !Valid(Do(c, events[0]).0) then (c, Lost(events[0]))
    else Persist(Do(c, events[0]).0, events[1..])
  }

  /** No flush of this end that failed on the way could move a byte. */
  ghost predicate NothingTornAt(c: Connection, events: seq<Event>, onA: bool)
    requires Valid(c)
    decreases |events|
  {
    if events == [] || Breaks(c, events[0]) || !Valid(Do(c, events[0]).0) then true
    else
      && (events[0].onA == onA ==> TearsNothing(At(c, onA), events[0].op))
      && NothingTornAt(Do(c, events[0]).0, events[1..], onA)
  }

  lemma WireExtends(e: End, op: Op)
    requires AtLeastOnce(e) && !Drops(e, Calls(op))
    ensures EndStep(e, op).0.rep.socket.sent == e.rep.socket.sent + OntoWire(e, op)
  {
    var n := HappeningPiece(e, Calls(op));
    DropFront(e.rep.socket.sent, ToFlush(e, Calls(op))[..n]);
  }

  lemma ReceivesAnyway(e: End, op: Op)
    requires ReadsRemembered(e) && (op.Unget? ==> Keeps(e, op))
    ensures var e2 := EndStep(e, op).0; ReadsRemembered(e2) && Incoming(e2) == Incoming(e)
  {
    StepKeepsIff(e, op);
    StepReceives(e, op);
  }

  /** A step of one end, also one that fails, leaves the channel faithful both ways. */
  lemma ChannelStep(from: End, to: End, op: Op)
    requires ReadsRemembered(from) && ReadsRemembered(to) && Faithful(from, to) && Faithful(to, from)
    requires AtLeastOnce(from) && AtLeastOnce(to) && !Drops(from, Calls(op)) && (op.Unget? ==> Keeps(from, op))
    ensures var from2, to2 := EndStep(from, op).0, Arrive(to, OntoWire(from, op));
            && ReadsRemembered(from2) && ReadsRemembered(to2) && Faithful(from2, to2) && Faithful(to2, from2)
            && AtLeastOnce(from2) && AtLeastOnce(to2)
            && Surplus(from2) >= Surplus(from) && Surplus(to2) == Surplus(to)
            && (Surplus(from2) == Surplus(from) <==> TearsNothing(from, op))
  {
    ReceivesAnyway(from, op);
    WireExtends(from, op);
    ArriveExtends(to, OntoWire(from, op));
    HappeningKeepsOrder(from, Calls(op));
    HearingKeepsOrder(to, OntoWire(from, op));
  }

  lemma EventKeepsFaithful(c: Connection, ev: Event, onA: bool)
    requires BothFaithful(c) && !Breaks(c, ev)
    ensures var d := Do(c, ev).0;
            && BothFaithful(d) && Valid(d) && Surplus(At(d, onA)) >= Surplus(At(c, onA))
            && (Surplus(At(d, onA)) == Surplus(At(c, onA))
                <==> (ev.onA == onA ==> TearsNothing(At(c, onA), ev.op)))
  {
    if ev.onA { ChannelStep(c.a, c.b, ev.op); } else { ChannelStep(c.b, c.a, ev.op); }
  }

  lemma PersistUnfolds(c: Connection, events: seq<Event>, onA: bool)
    requires Valid(c) && events != []
    requires !Breaks(c, events[0]) && Valid(Do(c, events[0]).0)
    ensures var d, e := Do(c, events[0]).0, At(c, onA);
            && Persist(c, events) == Persist(d, events[1..])
            && (NothingTornAt(c, events, onA)
                <==> (events[0].onA == onA ==> TearsNothing(e, events[0].op)) && NothingTornAt(d, events[1..], onA))
  {
  }

  lemma {:induction false} PersistKeepsFaithful(c: Connection, events: seq<Event>, onA: bool)
    requires BothFaithful(c)
    ensures var (d, end) := Persist(c, events);
            && BothFaithful(d) && (end == Kept || Breaks(d, end.event))
            && Surplus(At(d, onA)) >= Surplus(At(c, onA))
            && (Surplus(At(d, onA)) == Surplus(At(c, onA)) <==> NothingTornAt(c, events, onA))
    decreases |events|
  {
    if events == [] || Breaks(c, events[0]) {
      assert Persist(c, events) == (c, if events == [] then Kept else Lost(events[0]));
    } else {
      EventKeepsFaithful(c, events[0], onA);
      PersistUnfolds(c, events, onA);
      PersistKeepsFaithful(Do(c, events[0]).0, events[1..], onA);
    }
  }

  /** What reaches the peer of an end: everything flushed, in order, at least once; the peer has the wire. */
  ghost predicate ReachesPeer(from: End, to: End) {
    && AtLeastOnce(from) && to.rep.Valid()
    && to.read + to.rep.Unread() + to.rep.socket.inbound == from.rep.socket.sent
    && Subsequence(FlushedPart(from), Incoming(to))
  }

  /** ... and exactly once. */
  ghost predicate ReachesOnce(from: End, to: End)
    requires from.rep.Valid() && to.rep.Valid()
  {
    from.written == Incoming(to) + from.rep.Pending()
  }

  lemma ReachesOnceIff(from: End, to: End)
    requires AtLeastOnce(from) && to.rep.Valid() && Faithful(from, to)
    ensures ReachesOnce(from, to) <==> Surplus(from) == 0
  {
    WholeSubsequence(FlushedPart(from), from.rep.socket.sent);
    if ReachesOnce(from, to) {
      FlushedPartIs(from, Incoming(to));
    }
  }

  lemma ConnectedIsFaithful(s: Socket, t: Socket)
    requires s.Settles() && t.Settles() && s.inbound == t.inbound == [] && s.sent == t.sent == []
    ensures var c := Connected(s, t); BothFaithful(c) && Surplus(c.a) == Surplus(c.b) == 0
  {
    FreshIsValid(s);
    FreshIsValid(t);
  }

  /**
   At-least-once delivery both ways, for every interleaving of the two ends and any number of
   failed flushes at either: what each end has read, holds or is about to receive is the wire of
   the other, on which everything flushed occurs in order, and exactly once precisely when no
   failed flush of that end could move a byte.
   */
  lemma AtLeastOnceBothWays(s: Socket, t: Socket, events: seq<Event>)
    requires s.Settles() && t.Settles() && s.inbound == t.inbound == [] && s.sent == t.sent == []
    ensures var c := Connected(s, t); var (d, end) := Persist(c, events);
            && Valid(d) && (end == Kept || Breaks(d, end.event))
            && ReachesPeer(d.a, d.b) && ReachesPeer(d.b, d.a)
            && (ReachesOnce(d.a, d.b) <==> NothingTornAt(c, events, true))
            && (ReachesOnce(d.b, d.a) <==> NothingTornAt(c, events, false))
  {
    var c := Connected(s, t);
    ConnectedIsFaithful(s, t);
    PersistKeepsFaithful(c, events, true);
    PersistKeepsFaithful(c, events, false);
    var d := Persist(c, events).0;
    ReachesOnceIff(d.a, d.b);
    ReachesOnceIff(d.b, d.a);
  }
}
