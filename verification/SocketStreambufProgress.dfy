/**
 Progress round by round: with cooperating kernels every loop ends within a bounded number of
 rounds of its own, whatever the other end does in between, and then everything can be read.
 */
module SocketStreambufProgress {
  import opened Chars
  import opened Sequences
  import opened Sockets
  import opened SocketStreambufSpec
  import opened SocketStreambufTheorems
  import opened SocketStreambufEnds
  import opened SocketStreambufRuns
  import opened SocketStreambufInterleaved
  import Delivery = SocketStreambufDelivery

  // ----- One end -----

  /** How many rounds an end needs at most until it is idle. */
  function RoundsLeft(s: Side): nat {
    match s.phase
    case Idle => 0
    case Sending(_, output) => s.end.rep.socket.Patience() + |output| + 1
    case Receiving(_) => s.end.rep.socket.Patience() + 1
  }

  lemma IdleIff(s: Side)
    ensures RoundsLeft(s) == 0 <==> s.phase.Idle?
  {
  }

  ghost predicate ReadySide(s: Side) {
    Consistent(s) && Delivery.Cooperates(s.end.rep.socket, s.end.rep.expiry)
  }

  /** For every kernel: a round that does not end the operation brings its end nearer. */
  lemma RoundCounts(s: Side)
    requires Consistent(s)
    ensures RoundsLeft(Round(s).0) <= if s.phase.Idle? then 0 else RoundsLeft(s) - 1
  {
  }

  // ----- Every loop ends -----

  function SideOf(l: Link, onA: bool): Side {
    if onA then l.a else l.b
  }

  /** How often an end has its turn. */
  function Turns(moments: seq<Moment>, onA: bool): nat {
    if moments == [] then 0
    else (if moments[0] == Goes(onA) then 1 else 0) + Turns(moments[1..], onA)
  }

  lemma MomentCounts(l: Link, m: Moment, onA: bool)
    requires BothConsistent(l) && !(m.Calls? && m.onA == onA)
    ensures var left, left2 := RoundsLeft(SideOf(l, onA)), RoundsLeft(SideOf(Happens(l, m).0, onA));
            left2 <= if m == Goes(onA) then Max(0, left - 1) else left
  {
    if m.onA == onA {
      RoundCounts(SideOf(l, onA));
    }
  }

  /** The end calls nothing: its user waits for the call it is in. */
  predicate Waits(moments: seq<Moment>, onA: bool) {
    moments == [] || (!(moments[0].Calls? && moments[0].onA == onA) && Waits(moments[1..], onA))
  }

  lemma NextLink(l: Link, moments: seq<Moment>, onA: bool) returns (d: Link)
    requires BothConsistent(l) && moments != [] && Interleave(l, moments).1 == Running
    requires !(moments[0].Calls? && moments[0].onA == onA)
    ensures BothConsistent(d) && Interleave(d, moments[1..]) == Interleave(l, moments)
    ensures var left := RoundsLeft(SideOf(l, onA));
            RoundsLeft(SideOf(d, onA)) <= if moments[0] == Goes(onA) then Max(0, left - 1) else left
  {
    d := Happens(l, moments[0]).0;
    MomentCounts(l, moments[0], onA);
  }

  lemma {:induction false} LoopCounts(l: Link, moments: seq<Moment>, onA: bool, f: Link, left: nat, bound: nat)
    requires BothConsistent(l) && Waits(moments, onA) && Interleave(l, moments) == (f, Running)
    requires RoundsLeft(SideOf(l, onA)) <= left && left - Turns(moments, onA) <= bound
    ensures RoundsLeft(SideOf(f, onA)) <= bound
    decreases |moments|
  {
    if moments == [] {
      assert f == l;
    } else {
      var d := NextLink(l, moments, onA);
      LoopCounts(d, moments[1..], onA, f, if moments[0] == Goes(onA) then Max(0, left - 1) else left, bound);
    }
  }

  /**
   For all kernels: an end that is inside a loop leaves it within RoundsLeft rounds of its own,
   whatever calls and rounds the other end makes in between.
   */
  lemma LoopEnds(l: Link, moments: seq<Moment>, onA: bool)
    requires BothConsistent(l) && Waits(moments, onA) && Turns(moments, onA) >= RoundsLeft(SideOf(l, onA))
    ensures var (d, halt) := Interleave(l, moments); halt == Running ==> SideOf(d, onA).phase.Idle?
  {
    var (d, halt) := Interleave(l, moments);
    if halt == Running {
      LoopCounts(l, moments, onA, d, RoundsLeft(SideOf(l, onA)), 0);
      IdleIff(SideOf(d, onA));
    }
  }

  // ----- Cooperating kernels -----

  lemma ReceiveKeeps(s: Side)
    requires Consistent(s) && s.phase.Receiving?
    ensures Consistent(Round(s).0)
  {
    var e, op := s.end, s.phase.op;
    ReceiveRoundIsUnderflow(e.rep);
    match ReceiveRound(e.rep)
    case Again(r) => SocketMoves(e, r.socket, Clear);
    case Ended(r, x) =>
      UnderflowFills(e.rep);
      assert Replied(e, op, r, x) == EndStep(e, op).0;
      StepReceives(e, op);
  }

  /** The socket behind a side, after one of its rounds. */
  lemma RoundTicks(s: Side)
    requires Consistent(s)
    ensures var r, t := s.end.rep, Round(s).0.end.rep;
            && t.expiry == r.expiry && t.socket.oracle == r.socket.oracle && t.socket.open == r.socket.open
            && r.socket.tick <= t.socket.tick
  {
  }

  lemma RoundWorks(s: Side)
    requires ReadySide(s)
    ensures Round(s).1 && ReadySide(Round(s).0)
  {
    var r := s.end.rep;
    assert Willing(r.socket.Turn(), r.expiry);
    RoundTicks(s);
    Delivery.LaterCooperates(r.socket, Round(s).0.end.rep.socket, r.expiry);
    match s.phase
    case Idle =>
    case Sending(c, output) => SendRoundKeeps(s.end, c, output);
    case Receiving(_) => ReceiveKeeps(s);
  }

  /** A call that is not a putback too far or a move of pending output. */
  ghost predicate Sound(s: Side, op: Op)
    requires s.end.rep.Valid()
  {
    op.Unget? || op.Move? ==> !s.phase.Idle? || Keeps(s.end, op)
  }

  lemma AtOnceWorks(e: End, op: Op)
    requires ReadySide(Side(e, Idle)) && (op.Unget? || op.Move? ==> Keeps(e, op))
    ensures AtOnce(e, op).1 && ReadySide(AtOnce(e, op).0)
  {
    Delivery.StepWorks(e, op);
  }

  lemma StartWorks(s: Side, op: Op)
    requires ReadySide(s) && Sound(s, op)
    ensures Start(s, op).1 && ReadySide(Start(s, op).0)
  {
    if s.phase.Idle? {
      if op.Unget? || op.Move? || op.Unbuffer? || Start(s, op).0.phase.Idle? {
        AtOnceWorks(s.end, op);
      }
    }
  }

  ghost predicate BothReady(l: Link) {
    ReadySide(l.a) && ReadySide(l.b)
  }

  lemma MomentWorks(l: Link, m: Moment)
    requires BothReady(l) && (m.Calls? ==> Sound(SideOf(l, m.onA), m.op))
    ensures var (d, ok) := Happens(l, m); ok && BothReady(d)
  {
    var s, t := SideOf(l, m.onA), SideOf(l, !m.onA);
    if m.Calls? { StartWorks(s, m.op); } else { RoundWorks(s); }
    HearsKeeps(t, Wired(s.end, SideStep(s, m).0.end), s.end);
  }

  /** The only things that can lose anything are a putback too far and a move with output pending. */
  lemma {:induction false} InterleaveWorks(l: Link, moments: seq<Moment>)
    requires BothReady(l)
    ensures var (d, halt) := Interleave(l, moments);
            if halt == Running then BothReady(d) else halt.last.Calls? && (halt.last.op.Unget? || halt.last.op.Move?)
    decreases |moments|
  {
    if moments != [] {
      var m := moments[0];
      if m.Calls? && !Sound(SideOf(l, m.onA), m.op) {
        StepKeepsIff(SideOf(l, m.onA).end, m.op);
      } else {
        MomentWorks(l, m);
        InterleaveWorks(Happens(l, m).0, moments[1..]);
      }
    }
  }

  // ----- Everything arrives -----

  /** Both ends are idle, all is conserved, and a sync and enough gets deliver everything either way. */
  ghost predicate Deliverable(l: Link) {
    && l.a.phase.Idle? && l.b.phase.Idle?
    && var c := Connection(l.a.end, l.b.end);
       && Valid(c) && Delivery.BothConserved(c)
       && Delivery.Drains(c, true) && Delivery.Drains(c, false)
  }

  lemma IdleDelivers(l: Link)
    requires BothReady(l) && BothAccounted(l) && l.a.phase.Idle? && l.b.phase.Idle?
    ensures Deliverable(l)
  {
    var c := Connection(l.a.end, l.b.end);
    assert l.a.end.written + [] == l.a.end.written && l.b.end.written + [] == l.b.end.written;
    Delivery.DrainDelivers(c, true);
    Delivery.DrainDelivers(c, false);
  }

  /** Without calls only a round can halt an interleaving. */
  lemma {:induction false} HaltsAtMoment(l: Link, rest: seq<Moment>)
    requires BothConsistent(l) && Waits(rest, true) && Waits(rest, false)
    ensures var halt := Interleave(l, rest).1; halt.Halted? ==> halt.last.Goes?
    decreases |rest|
  {
    if rest != [] {
      var (d, ok) := Happens(l, rest[0]);
      if ok && BothConsistent(d) {
        HaltsAtMoment(d, rest[1..]);
      }
    }
  }

  /** Whatever order the remaining rounds are taken in, enough of them leave both ends idle. */
  lemma RoundsThenDrain(l: Link, rest: seq<Moment>)
    requires BothReady(l) && BothAccounted(l) && Waits(rest, true) && Waits(rest, false)
    requires Turns(rest, true) >= RoundsLeft(l.a) && Turns(rest, false) >= RoundsLeft(l.b)
    ensures var (d, halt) := Interleave(l, rest); halt == Running && Deliverable(d)
  {
    InterleaveWorks(l, rest);
    HaltsAtMoment(l, rest);
    LoopEnds(l, rest, true);
    LoopEnds(l, rest, false);
    InterleaveAccounts(l, rest);
    IdleDelivers(Interleave(l, rest).0);
  }

  /**
   Complete delivery round by round, both ways: an interleaving of calls and single rounds at the
   two ends of a new connection with cooperative kernels loses nothing unless it puts back past
   the get area or moves a streambuf with output pending. From where it stops otherwise, also in
   the middle of loops, enough rounds of both ends in any order lead to a state where a sync and
   enough gets read everything written.
   */
  lemma EverythingArrivesByRounds(s: Socket, t: Socket, moments: seq<Moment>, rest: seq<Moment>)
    requires s.Settles() && t.Settles() && s.inbound == t.inbound == []
    requires Delivery.Cooperates(s, MAX_EXPIRY_TIME) && Delivery.Cooperates(t, MAX_EXPIRY_TIME)
    requires Waits(rest, true) && Waits(rest, false)
    ensures var (d, halt) := Interleave(Begun(s, t), moments);
            if halt == Running then
              && BothConsistent(d)
              && (Turns(rest, true) >= RoundsLeft(d.a) && Turns(rest, false) >= RoundsLeft(d.b) ==>
                    var (f, halt2) := Interleave(d, rest); halt2 == Running && Deliverable(f))
            else
              halt.last.Calls? && (halt.last.op.Unget? || halt.last.op.Move?)
  {
    var l := Begun(s, t);
    assert BothAccounted(l) && BothReady(l);
    InterleaveWorks(l, moments);
    InterleaveAccounts(l, moments);
    var (d, halt) := Interleave(l, moments);
    if halt == Running && Turns(rest, true) >= RoundsLeft(d.a) && Turns(rest, false) >= RoundsLeft(d.b) {
      RoundsThenDrain(d, rest);
    }
  }
}
