/**
 The two ends of a connection round by round: an operation that has to send or receive loops over
 turns of its kernel, and between any two rounds the other end may run, so bytes arrive in the
 middle of a loop. Conservation holds in every such intermediate state.
 */
module SocketStreambufInterleaved {
  import opened Chars
  import opened Sequences
  import opened Sockets
  import opened SocketStreambufSpec
  import opened SocketStreambufTheorems
  import opened SocketStreambufEnds
  import opened SocketStreambufRuns

  /** Where an end is: between two operations, or inside the loop of overflow(c) or of underflow. */
  datatype Phase = Idle | Sending(c: int, output: seq<byte>) | Receiving(op: Op)

  datatype Side = Side(end: End, phase: Phase)

  predicate Suffix(x: seq<byte>, y: seq<byte>) {
    |x| <= |y| && forall i | 0 <= i < |x| :: x[i] == y[|y| - |x| + i]
  }

  lemma SuffixDrops(x: seq<byte>, y: seq<byte>, k: nat)
    requires Suffix(x, y) && k <= |x|
    ensures Suffix(x[k..], y)
  {
  }

  lemma SuffixWhole(x: seq<byte>, y: seq<byte>)
    requires Suffix(x, y)
    ensures |x| == |y| <==> x == y
  {
  }

  /** Inside a loop the unsent rest is a suffix of what was due, or there is nothing left to read. */
  ghost predicate Consistent(s: Side) {
    && ReadsRemembered(s.end)
    && match s.phase
       case Idle => true
       case Sending(c, output) => Suffix(output, Due(s.end.rep, c))
       case Receiving(op) => (op.Get? || op.Peek? || op.Pull?) && s.end.rep.gptr == s.end.rep.egptr
  }

  // ----- One end -----

  /** An operation that needs no loop, and whether it kept every character. */
  ghost function AtOnce(e: End, op: Op): (Side, bool)
    requires e.rep.Valid()
  {
    (Side(EndStep(e, op).0, Idle), EndStep(e, op).1)
  }

  /** Calls an operation: it ends at once or enters a loop. An end inside a loop cannot start another. */
  ghost function Start(s: Side, op: Op): (Side, bool)
    requires Consistent(s)
  {
    var e, r := s.end, s.end.rep;
    if !s.phase.Idle? then (s, true)
    else match op
      case Put(b) => if r.pptr < r.epptr then AtOnce(e, op) else (Side(e, Sending(b, Due(r, b))), true)
      case Push(c) => (Side(e, Sending(c, Due(r, c))), true)
      case Get => if r.gptr < r.egptr then AtOnce(e, op) else (Side(e, Receiving(op)), true)
      case Peek => if r.gptr < r.egptr then AtOnce(e, op) else (Side(e, Receiving(op)), true)
      case Pull => if r.gptr < r.egptr then AtOnce(e, op) else (Side(e, Receiving(op)), true)
      case _ => AtOnce(e, op)
  }

  /** The end after a turn of its kernel that leaves this error and moves nothing. */
  function Turned(e: End, ec: Error): End {
    e.(rep := e.rep.(socket := e.rep.socket.Next(), ec := ec))
  }

  /** What overflow does behind its loop. */
  function AfterLoop(r: Rep, c: int): Rep {
    if r.Unbuffered() then r
    else if c == EOF then r.(pbase := 0, pptr := 0)
    else r.(pbase := 0, pptr := 1, putBuffer := r.putBuffer[0 := ToChar(c)])
  }

  /** One round of the loop of overflow; false for its early return of eof. */
  ghost function SendRound(e: End, c: int, out: seq<byte>): (Side, bool)
    requires e.rep.Valid()
  {
    var s := e.rep.socket;
    if out == [] then
      (Side(e.(rep := AfterLoop(e.rep, c), written := e.written + CharOf(c)), Idle), true)
    else if e.rep.expiry < s.Turn().now then
      (Side(Turned(e, TimedOut), Idle), false)
    else if s.Takes(out) > 0 then
      (Side(Taken(e, out), Sending(c, out[s.Takes(out)..])), true)
    else if !Blocking(s.Refusal()) then
      (Side(Turned(e, s.Refusal()), Idle), false)
    else if s.Turn().poll.PollFailed? then
      (Side(Turned(e, s.Turn().poll.error), Idle), false)
    else
      (Side(Turned(e, Clear), Sending(c, out)), true)
  }

  /** The kernel takes bytes of out. */
  function Taken(e: End, out: seq<byte>): End {
    var s := e.rep.socket;
    e.(rep := e.rep.(socket := s.Next().(sent := s.sent + out[..s.Takes(out)]), ec := Clear))
  }

  datatype Reception = Again(rep: Rep) | Ended(rep: Rep, result: int)

  /** One round of the loop of underflow. */
  ghost function ReceiveRound(r: Rep): Reception
    requires r.Valid()
  {
    var s := r.socket;
    var k := s.Delivers(BUFFER_SIZE - PUTBACK_MAX);
    if r.expiry < s.Turn().now then Ended(r.(socket := s.Next(), ec := TimedOut), EOF)
    else if k > 0 then
      Ended(r.(socket := s.Next().(inbound := s.inbound[k..]), ec := Clear,
               getBuffer := r.getBuffer[..PUTBACK_MAX] + s.inbound[..k] + r.getBuffer[PUTBACK_MAX + k..],
               eback := 0, gptr := PUTBACK_MAX, egptr := PUTBACK_MAX + k),
            s.inbound[0])
    else if s.Refusal() == Clear then Ended(r.(socket := s.Next(), ec := EndOfFile), EOF)
    else if !Blocking(s.Refusal()) then Ended(r.(socket := s.Next(), ec := s.Refusal()), EOF)
    else if s.Turn().poll.PollFailed? then Ended(r.(socket := s.Next(), ec := s.Turn().poll.error), EOF)
    else Again(r.(socket := s.Next(), ec := Clear))
  }

  /** What the caller of underflow does with its answer: only sbumpc reads the character. */
  function Replied(e: End, op: Op, r: Rep, x: int): End {
    if op.Get? && x != EOF then e.(rep := r.(gptr := r.gptr + 1), read := e.read + [ToChar(x)])
    else e.(rep := r)
  }

  /** The end runs until its next turn: false after a failed flush. */
  ghost function Round(s: Side): (Side, bool)
    requires Consistent(s)
  {
    match s.phase
    case Idle => (s, true)
    case Sending(c, output) => SendRound(s.end, c, output)
    case Receiving(op) =>
      match ReceiveRound(s.end.rep)
      case Again(r) => (Side(s.end.(rep := r), s.phase), true)
      case Ended(r, x) => (Side(Replied(s.end, op, r, x), Idle), true)
  }

  // ----- Rounds and whole operations -----

  /** A round that moves nothing but the socket's clock, wire and error. */
  lemma SocketMoves(e: End, socket: Socket, ec: Error)
    requires ReadsRemembered(e) && socket.oracle == e.rep.socket.oracle && socket.inbound == e.rep.socket.inbound
    ensures var e2 := e.(rep := e.rep.(socket := socket, ec := ec));
            && ReadsRemembered(e2) && Incoming(e2) == Incoming(e) && e2.rep.Pending() == e.rep.Pending()
            && forall c :: Due(e2.rep, c) == Due(e.rep, c)
  {
  }

  lemma AfterLoopKeeps(e: End, c: int)
    requires ReadsRemembered(e)
    ensures var e2 := e.(rep := AfterLoop(e.rep, c), written := e.written + CharOf(c));
            && ReadsRemembered(e2) && Incoming(e2) == Incoming(e)
            && e2.rep.Pending() == if e.rep.Unbuffered() then [] else CharOf(c)
  {
  }

  lemma StillSending(e: End, c: int, out: seq<byte>, socket: Socket, ec: Error, k: nat)
    requires Consistent(Side(e, Sending(c, out))) && k <= |out|
    requires socket.oracle == e.rep.socket.oracle && socket.inbound == e.rep.socket.inbound
    ensures var e2 := e.(rep := e.rep.(socket := socket, ec := ec));
            Consistent(Side(e2, Sending(c, out[k..]))) && Consistent(Side(e2, Idle)) && Incoming(e2) == Incoming(e)
  {
    SocketMoves(e, socket, ec);
    SuffixDrops(out, Due(e.rep, c), k);
  }

  lemma TakenKeeps(e: End, c: int, out: seq<byte>)
    requires Consistent(Side(e, Sending(c, out)))
    ensures Consistent(Side(Taken(e, out), Sending(c, out[e.rep.socket.Takes(out)..])))
    ensures Incoming(Taken(e, out)) == Incoming(e)
  {
    var s, k := e.rep.socket, e.rep.socket.Takes(out);
    StillSending(e, c, out, s.Next().(sent := s.sent + out[..k]), Clear, k);
  }

  lemma TurnedKeeps(e: End, phase: Phase, ec: Error)
    requires Consistent(Side(e, phase))
    ensures Consistent(Side(Turned(e, ec), phase)) && Consistent(Side(Turned(e, ec), Idle))
    ensures Incoming(Turned(e, ec)) == Incoming(e)
  {
    SocketMoves(e, e.rep.socket.Next(), ec);
  }

  /** A round without room for a byte leaves the loop or waits. */
  lemma TurnedOnly(e: End, c: int, out: seq<byte>)
    requires e.rep.Valid() && out != [] && (e.rep.socket.Turn().now > e.rep.expiry || e.rep.socket.Takes(out) == 0)
    ensures var (t, ok) := SendRound(e, c, out);
            t == Side(Turned(e, t.end.rep.ec), if ok then Sending(c, out) else Idle)
  {
  }

  lemma SendRoundKeeps(e: End, c: int, out: seq<byte>)
    requires Consistent(Side(e, Sending(c, out)))
    ensures var t := SendRound(e, c, out).0; Consistent(t) && Incoming(t.end) == Incoming(e)
  {
    if out == [] {
      AfterLoopKeeps(e, c);
    } else if e.rep.socket.Turn().now <= e.rep.expiry && e.rep.socket.Takes(out) > 0 {
      TakenKeeps(e, c, out);
    } else {
      TurnedOnly(e, c, out);
      TurnedKeeps(e, Sending(c, out), SendRound(e, c, out).0.end.rep.ec);
    }
  }

  /** A round of underflow that does not end it leaves underflow with the same outcome. */
  lemma ReceiveRoundIsUnderflow(r: Rep)
    requires r.Valid() && r.gptr == r.egptr
    ensures match ReceiveRound(r)
            case Again(t) =>
              t == r.(socket := r.socket.Next(), ec := Clear) && t.Valid() && Underflow(t) == Underflow(r)
            case Ended(t, x) => Underflow(r) == (t, x)
  {
  }

  /** Runs the rounds of one end until it is idle, while nothing arrives. */
  ghost function Settle(s: Side): (Side, bool)
    requires Consistent(s)
    decreases if s.phase.Idle? then 0 else 1, s.end.rep.socket.Patience(),
              if s.phase.Sending? then |s.phase.output| else 0
  {
    if s.phase.Idle? then (s, true)
    else
      var (t, ok) := Round(s);
      if ok && Consistent(t) then Settle(t) else (t, ok)
  }

  lemma SettleUnfolds(s: Side)
    requires Consistent(s) && !s.phase.Idle? && Consistent(Round(s).0)
    ensures Settle(s) == if Round(s).1 then Settle(Round(s).0) else Round(s)
  {
  }

  /** How the loop of overflow ends when nothing interferes. */
  ghost function Sent(e: End, c: int, f: Flushed): (Side, bool)
    requires e.rep.Valid()
  {
    var e2 := e.(rep := e.rep.(socket := f.socket, ec := f.ec));
    if f.ok then (Side(e2.(rep := AfterLoop(e2.rep, c), written := e.written + CharOf(c)), Idle), true)
    else (Side(e2, Idle), false)
  }

  lemma LastSendRound(e: End, c: int, out: seq<byte>)
    requires e.rep.Valid() && SendRound(e, c, out).0.phase.Idle?
    ensures SendRound(e, c, out) == Sent(e, c, Flush(e.rep.socket, e.rep.expiry, e.rep.ec, out))
  {
  }

  lemma TakingRound(e: End, c: int, out: seq<byte>)
    requires e.rep.Valid() && e.rep.socket.Turn().now <= e.rep.expiry && e.rep.socket.Takes(out) > 0
    ensures var e2, rest := Taken(e, out), out[e.rep.socket.Takes(out)..];
            && SendRound(e, c, out) == (Side(e2, Sending(c, rest)), true)
            && Flush(e.rep.socket, e.rep.expiry, e.rep.ec, out) == Flush(e2.rep.socket, e.rep.expiry, Clear, rest)
  {
    assert out != [];
  }

  lemma WaitingRound(e: End, c: int, out: seq<byte>)
    requires e.rep.Valid() && out != [] && e.rep.socket.Turn().now <= e.rep.expiry && e.rep.socket.Takes(out) == 0
    requires Blocking(e.rep.socket.Refusal()) && e.rep.socket.Turn().poll.Answered?
    ensures var e2 := Turned(e, Clear);
            && SendRound(e, c, out) == (Side(e2, Sending(c, out)), true)
            && Flush(e.rep.socket, e.rep.expiry, e.rep.ec, out) == Flush(e2.rep.socket, e.rep.expiry, Clear, out)
  {
  }

  lemma {:induction false} SettleSends(e: End, c: int, out: seq<byte>)
    requires Consistent(Side(e, Sending(c, out)))
    ensures Settle(Side(e, Sending(c, out))) == Sent(e, c, Flush(e.rep.socket, e.rep.expiry, e.rep.ec, out))
    decreases e.rep.socket.Patience(), |out|
  {
    SendRoundKeeps(e, c, out);
    SettleUnfolds(Side(e, Sending(c, out)));
    if SendRound(e, c, out).0.phase.Idle? {
      LastSendRound(e, c, out);
    } else if e.rep.socket.Takes(out) > 0 {
      TakingRound(e, c, out);
      SettleSends(Taken(e, out), c, out[e.rep.socket.Takes(out)..]);
    } else {
      WaitingRound(e, c, out);
      SettleSends(Turned(e, Clear), c, out);
    }
  }

  lemma {:induction false} SettleReceives(e: End, op: Op)
    requires Consistent(Side(e, Receiving(op)))
    ensures var (r, x) := Underflow(e.rep);
            Settle(Side(e, Receiving(op))) == (Side(Replied(e, op, r, x), Idle), true)
    decreases e.rep.socket.Patience()
  {
    ReceiveRoundIsUnderflow(e.rep);
    match ReceiveRound(e.rep)
    case Again(r) =>
      SocketMoves(e, r.socket, Clear);
      SettleReceives(e.(rep := r), op);
    case Ended(r, x) =>
      PullReceives(e);
  }

  /** What an end does that is left alone from a call until it is idle again. */
  ghost function Alone(e: End, op: Op): (Side, bool)
    requires ReadsRemembered(e)
  {
    var (s, ok) := Start(Side(e, Idle), op);
    if ok && Consistent(s) then Settle(s) else (s, ok)
  }

  lemma PushSettles(e: End, c: int)
    requires ReadsRemembered(e)
    ensures Consistent(Side(e, Sending(c, Due(e.rep, c))))
    ensures var (e2, ok) := PushEnd(e, c); Settle(Side(e, Sending(c, Due(e.rep, c)))) == (Side(e2, Idle), ok)
  {
    SettleSends(e, c, Due(e.rep, c));
  }

  lemma PutAlone(e: End, b: byte)
    requires ReadsRemembered(e)
    ensures Alone(e, Put(b)) == AtOnce(e, Put(b))
  {
    if e.rep.pptr < e.rep.epptr { PutReceives(e, b); } else { PushSettles(e, b); }
  }

  lemma PushAlone(e: End, c: int)
    requires ReadsRemembered(e)
    ensures Alone(e, Push(c)) == AtOnce(e, Push(c))
  {
    PushSettles(e, c);
  }

  lemma PullSettles(e: End, op: Op)
    requires Consistent(Side(e, Receiving(op)))
    ensures Settle(Side(e, Receiving(op))) == (Side(EndStep(e, op).0, Idle), true)
  {
    SettleReceives(e, op);
    UnderflowFills(e.rep);
  }

  lemma PullAlone(e: End, op: Op)
    requires ReadsRemembered(e) && (op.Get? || op.Peek? || op.Pull?)
    ensures Alone(e, op) == AtOnce(e, op)
  {
    if e.rep.gptr == e.rep.egptr { PullSettles(e, op); }
  }

  /** An end that is left alone does, round by round, exactly what the whole operation does. */
  lemma RoundsAreTheOperation(e: End, op: Op)
    requires ReadsRemembered(e)
    ensures Alone(e, op) == (Side(EndStep(e, op).0, Idle), EndStep(e, op).1)
  {
    match op
    case Put(b) => PutAlone(e, b);
    case Push(c) => PushAlone(e, c);
    case Get => PullAlone(e, op);
    case Peek => PullAlone(e, op);
    case Pull => PullAlone(e, op);
    case _ =>
  }

  // ----- What is accounted for in the middle of a loop -----

  /** The characters of a call that is still in its loop. */
  function InFlight(s: Side): seq<byte> {
    if s.phase.Sending? then CharOf(s.phase.c) else []
  }

  /** What the user has handed over, or is handing over, and is not on the wire yet. */
  ghost function Unsent(s: Side): seq<byte>
    requires s.end.rep.Valid()
  {
    match s.phase
    case Sending(c, output) => if s.end.rep.Unbuffered() then output else output + CharOf(c)
    case _ => s.end.rep.Pending()
  }

  /** written ++ in flight == read ++ get area ++ bytes in the channel ++ unsent. */
  ghost predicate Accounted(from: Side, to: End)
    requires from.end.rep.Valid() && to.rep.Valid()
  {
    from.end.written + InFlight(from) == Incoming(to) + Unsent(from)
  }

  /** What a step of one end gives to both: it is accounted for, and its own input is as before. */
  ghost predicate Advances(from: Side, from2: Side, to: End)
    requires Consistent(from)
  {
    && ReadsRemembered(to) && Consistent(from2) && Incoming(from2.end) == Incoming(from.end)
    && var to2 := Arrive(to, Wired(from.end, from2.end)); ReadsRemembered(to2) && Accounted(from2, to2)
  }

  lemma SilentAdvances(from: Side, from2: Side, to: End)
    requires Consistent(from) && ReadsRemembered(to) && Consistent(from2)
    requires Incoming(from2.end) == Incoming(from.end) && from2.end.rep.socket.sent == from.end.rep.socket.sent
    requires Accounted(from2, to)
    ensures Advances(from, from2, to)
  {
    ArriveExtends(to, []);
    assert Incoming(to) + [] == Incoming(to);
  }

  lemma AtOnceAdvances(e: End, op: Op, to: End)
    requires ReadsRemembered(e) && ReadsRemembered(to) && Accounted(Side(e, Idle), to) && EndStep(e, op).1
    ensures Advances(Side(e, Idle), Side(EndStep(e, op).0, Idle), to)
  {
    assert e.written + [] == e.written;
    StepAdvances(e, to, op);
    var e2 := EndStep(e, op).0;
    assert e2.written + [] == e2.written;
  }

  lemma EnteringAdvances(e: End, c: int, to: End)
    requires ReadsRemembered(e) && ReadsRemembered(to) && Accounted(Side(e, Idle), to)
    ensures Advances(Side(e, Idle), Side(e, Sending(c, Due(e.rep, c))), to)
  {
    assert Due(e.rep, c)[0..] == Due(e.rep, c);
    var s := Side(e, Sending(c, Due(e.rep, c)));
    assert Unsent(s) == e.rep.Pending() + CharOf(c);
    assert e.written + [] == e.written;
    Regroup(Incoming(to), e.rep.Pending(), CharOf(c));
    SilentAdvances(Side(e, Idle), s, to);
  }

  lemma StartAdvances(from: Side, op: Op, to: End)
    requires Consistent(from) && ReadsRemembered(to) && Accounted(from, to) && Start(from, op).1
    ensures Advances(from, Start(from, op).0, to)
  {
    var e := from.end;
    if !from.phase.Idle? {
      SilentAdvances(from, from, to);
    } else {
      match op
      case Put(b) => if e.rep.pptr < e.rep.epptr { AtOnceAdvances(e, op, to); } else { EnteringAdvances(e, b, to); }
      case Push(c) => EnteringAdvances(e, c, to);
      case Get => WaitingAdvances(e, op, to);
      case Peek => WaitingAdvances(e, op, to);
      case Pull => WaitingAdvances(e, op, to);
      case _ => AtOnceAdvances(e, op, to);
    }
  }

  lemma WaitingAdvances(e: End, op: Op, to: End)
    requires ReadsRemembered(e) && ReadsRemembered(to) && Accounted(Side(e, Idle), to)
    requires op.Get? || op.Peek? || op.Pull?
    ensures Advances(Side(e, Idle), Start(Side(e, Idle), op).0, to)
  {
    if e.rep.gptr < e.rep.egptr {
      AtOnceAdvances(e, op, to);
    } else {
      SilentAdvances(Side(e, Idle), Side(e, Receiving(op)), to);
    }
  }

  lemma SplitUnsent(inc: seq<byte>, out: seq<byte>, ch: seq<byte>, k: nat)
    requires k <= |out|
    ensures inc + out == (inc + out[..k]) + out[k..]
    ensures inc + (out + ch) == (inc + out[..k]) + (out[k..] + ch)
  {
    assert out == out[..k] + out[k..];
    Regroup(inc, out[..k], out[k..]);
    Regroup(out[..k], out[k..], ch);
    Regroup(inc, out[..k], out[k..] + ch);
  }

  /** The kernel takes bytes in the middle of a flush: they move from the unsent rest to the channel. */
  lemma TakenAdvances(e: End, c: int, out: seq<byte>, to: End)
    requires Consistent(Side(e, Sending(c, out))) && ReadsRemembered(to) && Accounted(Side(e, Sending(c, out)), to)
    ensures Advances(Side(e, Sending(c, out)), Side(Taken(e, out), Sending(c, out[e.rep.socket.Takes(out)..])), to)
  {
    var k := e.rep.socket.Takes(out);
    TakenKeeps(e, c, out);
    DropFront(e.rep.socket.sent, out[..k]);
    ArriveExtends(to, out[..k]);
    SplitUnsent(Incoming(to), out, CharOf(c), k);
    assert Accounted(Side(Taken(e, out), Sending(c, out[k..])), Arrive(to, out[..k]));
  }

  lemma LeavingAdvances(e: End, c: int, to: End)
    requires Consistent(Side(e, Sending(c, []))) && ReadsRemembered(to) && Accounted(Side(e, Sending(c, [])), to)
    ensures Advances(Side(e, Sending(c, [])), SendRound(e, c, []).0, to)
  {
    AfterLoopKeeps(e, c);
    var t := SendRound(e, c, []).0;
    assert [] + CharOf(c) == CharOf(c);
    assert t.end.written + [] == t.end.written;
    SilentAdvances(Side(e, Sending(c, [])), t, to);
  }

  lemma SendRoundAdvances(e: End, c: int, out: seq<byte>, to: End)
    requires Consistent(Side(e, Sending(c, out))) && ReadsRemembered(to) && Accounted(Side(e, Sending(c, out)), to)
    requires SendRound(e, c, out).1
    ensures Advances(Side(e, Sending(c, out)), SendRound(e, c, out).0, to)
  {
    if out == [] {
      LeavingAdvances(e, c, to);
    } else if e.rep.socket.Takes(out) > 0 {
      TakenAdvances(e, c, out, to);
    } else {
      SendRoundKeeps(e, c, out);
      SocketMoves(e, e.rep.socket.Next(), Clear);
      SilentAdvances(Side(e, Sending(c, out)), Side(Turned(e, Clear), Sending(c, out)), to);
    }
  }

  lemma ReceiveRoundAdvances(from: Side, to: End)
    requires Consistent(from) && from.phase.Receiving? && ReadsRemembered(to) && Accounted(from, to)
    ensures Advances(from, Round(from).0, to)
  {
    var e, op := from.end, from.phase.op;
    ReceiveRoundIsUnderflow(e.rep);
    match ReceiveRound(e.rep)
    case Again(r) =>
      SocketMoves(e, r.socket, Clear);
      SilentAdvances(from, Side(e.(rep := r), Receiving(op)), to);
    case Ended(r, x) =>
      PullSettles(e, op);
      UnderflowFills(e.rep);
      assert Replied(e, op, r, x) == EndStep(e, op).0;
      assert e.written + [] == e.written;
      AtOnceAdvances(e, op, to);
  }

  lemma RoundAdvances(from: Side, to: End)
    requires Consistent(from) && ReadsRemembered(to) && Accounted(from, to) && Round(from).1
    ensures Advances(from, Round(from).0, to)
  {
    match from.phase
    case Idle => SilentAdvances(from, from, to);
    case Sending(c, output) => SendRoundAdvances(from.end, c, output, to);
    case Receiving(_) => ReceiveRoundAdvances(from, to);
  }

  lemma CancelEnd(x: seq<byte>, y: seq<byte>, z: seq<byte>)
    requires x + z == y + z
    ensures x == y
  {
    assert (x + z)[..|x|] == x && (y + z)[..|y|] == y;
  }

  /** What a flush that is not yet done leaves to be sent from the put area. */
  ghost function Rest(s: Side): seq<byte>
    requires s.end.rep.Valid() && s.phase.Sending?
  {
    if s.end.rep.Unbuffered() then [] else s.phase.output
  }

  lemma WrittenBeforeLeaving(from: Side, to: End)
    requires Consistent(from) && ReadsRemembered(to) && Accounted(from, to)
    requires from.phase.Sending? && from.phase.output != []
    ensures from.end.written == Incoming(to) + Rest(from)
    ensures |Rest(from)| == |from.end.rep.Pending()| <==> Rest(from) == from.end.rep.Pending()
  {
    var out, ch := from.phase.output, CharOf(from.phase.c);
    SuffixWhole(out, Due(from.end.rep, from.phase.c));
    if from.end.rep.Unbuffered() {
      assert out == ch;
      CancelEnd(from.end.written, Incoming(to), ch);
      assert Incoming(to) + [] == Incoming(to);
    } else {
      Regroup(Incoming(to), out, ch);
      CancelEnd(from.end.written, Incoming(to) + out, ch);
    }
  }

  lemma FailingRoundLeaves(from: Side)
    requires Consistent(from) && !Round(from).1
    ensures from.phase.Sending? && from.phase.output != []
    ensures var e2 := Round(from).0.end;
            && Round(from).0 == Side(Turned(from.end, e2.rep.ec), Idle) && Consistent(Round(from).0)
            && e2.rep.Pending() == from.end.rep.Pending() && Incoming(e2) == Incoming(from.end)
  {
    var e2 := Round(from).0.end;
    assert Round(from).0 == Side(Turned(from.end, e2.rep.ec), Idle);
    SocketMoves(from.end, from.end.rep.socket.Next(), e2.rep.ec);
  }

  /**
   The round in which a flush gives up: the put area is unchanged, and the channel has already
   got all of it but the unsent rest. Both are accounted for exactly when that rest is all of it.
   */
  lemma FailingRoundOverlaps(from: Side, to: End)
    requires Consistent(from) && ReadsRemembered(to) && Accounted(from, to) && !Round(from).1
    ensures from.phase.Sending?
    ensures var from2 := Round(from).0;
            && Consistent(from2) && from2.phase.Idle? && Wired(from.end, from2.end) == []
            && from2.end.written == from.end.written && from2.end.rep.Pending() == from.end.rep.Pending()
            && Incoming(from2.end) == Incoming(from.end)
            && from2.end.written == Incoming(to) + Rest(from)
            && (Accounted(from2, to) <==> Rest(from) == from.end.rep.Pending())
  {
    FailingRoundLeaves(from);
    WrittenBeforeLeaving(from, to);
    RestIsAll(from.end.written, Incoming(to), Rest(from), from.end.rep.Pending());
    assert from.end.written + [] == from.end.written;
  }

  lemma RestIsAll(written: seq<byte>, incoming: seq<byte>, rest: seq<byte>, all: seq<byte>)
    requires written == incoming + rest && (|rest| == |all| <==> rest == all)
    ensures written == incoming + all <==> rest == all
  {
  }

  // ----- Two ends -----

  datatype Link = Link(a: Side, b: Side)

  /** One end calls an operation, or has its next round. */
  datatype Moment = Calls(onA: bool, op: Op) | Goes(onA: bool)

  ghost predicate BothConsistent(l: Link) {
    Consistent(l.a) && Consistent(l.b)
  }

  ghost function SideStep(s: Side, m: Moment): (Side, bool)
    requires Consistent(s)
  {
    if m.Calls? then Start(s, m.op) else Round(s)
  }

  function Hears(s: Side, bytes: seq<byte>): Side {
    s.(end := Arrive(s.end, bytes))
  }

  /** The bytes one end puts onto the wire arrive at the other at once, whatever it is doing. */
  ghost function Happens(l: Link, m: Moment): (Link, bool)
    requires BothConsistent(l)
  {
    if m.onA then
      var (s, ok) := SideStep(l.a, m);
      (Link(s, Hears(l.b, Wired(l.a.end, s.end))), ok)
    else
      var (s, ok) := SideStep(l.b, m);
      (Link(Hears(l.a, Wired(l.b.end, s.end)), s), ok)
  }

  datatype Halt = Running | Halted(last: Moment)

  /** An interleaving of calls and rounds, up to and including the first that does not keep everything. */
  ghost function Interleave(l: Link, moments: seq<Moment>): (Link, Halt)
    requires BothConsistent(l)
    decreases |moments|
  {
    if moments == [] then (l, Running)
    else
      var (d, ok) := Happens(l, moments[0]);
      if ok && BothConsistent(d) then Interleave(d, moments[1..]) else (d, Halted(moments[0]))
  }

  ghost predicate BothAccounted(l: Link)
    requires BothConsistent(l)
  {
    Accounted(l.a, l.b.end) && Accounted(l.b, l.a.end)
  }

  lemma HearsKeeps(s: Side, bytes: seq<byte>, peer: End)
    requires Consistent(s) && peer.rep.Valid()
    ensures Consistent(Hears(s, bytes)) && Incoming(Hears(s, bytes).end) == Incoming(s.end) + bytes
    ensures Accounted(Hears(s, bytes), peer) <==> Accounted(s, peer)
  {
    ArriveExtends(s.end, bytes);
  }

  /** A step of one end that keeps everything keeps both directions accounted for. */
  lemma StepKeepsAccounts(from: Side, to: Side, m: Moment)
    requires Consistent(from) && Consistent(to) && Accounted(from, to.end) && Accounted(to, from.end)
    requires SideStep(from, m).1
    ensures var from2 := SideStep(from, m).0; var to2 := Hears(to, Wired(from.end, from2.end));
            && Consistent(from2) && Consistent(to2)
            && Accounted(from2, to2.end) && Accounted(to2, from2.end)
  {
    if m.Calls? { StartAdvances(from, m.op, to.end); } else { RoundAdvances(from, to.end); }
    var from2 := SideStep(from, m).0;
    HearsKeeps(to, Wired(from.end, from2.end), from2.end);
  }

  lemma {:induction false} InterleaveAccounts(l: Link, moments: seq<Moment>)
    requires BothConsistent(l) && BothAccounted(l)
    ensures var (d, halt) := Interleave(l, moments); halt.Running? ==> BothConsistent(d) && BothAccounted(d)
    decreases |moments|
  {
    if moments != [] {
      var m := moments[0];
      if Happens(l, m).1 {
        if m.onA { StepKeepsAccounts(l.a, l.b, m); } else { StepKeepsAccounts(l.b, l.a, m); }
        InterleaveAccounts(Happens(l, m).0, moments[1..]);
      }
    }
  }

  ghost function Begun(s: Socket, t: Socket): (l: Link)
    requires s.Settles() && t.Settles()
    ensures BothConsistent(l)
  {
    var c := Connected(s, t);
    Link(Side(c.a, Idle), Side(c.b, Idle))
  }

  /**
   Two-way conservation between any two rounds: for every interleaving of calls and single rounds
   of their loops, also with bytes arriving in the middle of a loop, what either end has written
   or is writing is exactly what the other has read, holds or is about to receive, then what is
   still unsent.
   */
  lemma InterleavedConservation(s: Socket, t: Socket, moments: seq<Moment>)
    requires s.Settles() && t.Settles() && s.inbound == t.inbound == []
    ensures var (d, halt) := Interleave(Begun(s, t), moments); var a, b := d.a.end, d.b.end;
            halt == Running ==>
            && BothConsistent(d)
            && a.written + InFlight(d.a) == b.read + b.rep.Unread() + b.rep.socket.inbound + Unsent(d.a)
            && b.written + InFlight(d.b) == a.read + a.rep.Unread() + a.rep.socket.inbound + Unsent(d.b)
  {
    assert BothAccounted(Begun(s, t));
    InterleaveAccounts(Begun(s, t), moments);
  }

  // ----- The first failure -----

  /** All the end can have put onto the wire. */
  function Offering(s: Side): seq<byte> {
    s.end.written + InFlight(s)
  }

  lemma AccountedIsSafe(from: Side, to: End)
    requires Consistent(from) && to.rep.Valid() && Accounted(from, to)
    ensures SafeEnd(to, Offering(from), false)
  {
  }

  /** Whatever fails, the peer of the failing end reads only what was written, and the end itself does too. */
  lemma LastMomentIsSafe(from: Side, to: Side, m: Moment)
    requires Consistent(from) && Consistent(to) && Accounted(from, to.end) && Accounted(to, from.end)
    requires !SideStep(from, m).1
    ensures var from2 := SideStep(from, m).0; var to2 := Hears(to, Wired(from.end, from2.end));
            && from2.end.rep.Valid() && to2.end.rep.Valid()
            && SafeEnd(to2.end, Offering(from2), false)
            && SafeEnd(from2.end, Offering(to2), m.Calls? && m.op.Unget?)
  {
    var e, from2 := from.end, SideStep(from, m).0;
    HearsKeeps(to, Wired(e, from2.end), e);
    assert from2.end.written + [] == from2.end.written;
    if m.Goes? {
      FailingRoundOverlaps(from, to.end);
      assert Incoming(to.end) + [] == Incoming(to.end);
    } else {
      StepKeepsIff(e, m.op);
      assert e.written + [] == e.written;
      if m.op.Move? {
        LossyMoveDrops(e, to.end);
        StepReceives(e, Move);
        assert Incoming(to.end) + [] == Incoming(to.end);
      } else {
        UngetInvents(e);
        assert from2.end.rep.Unread()[1..] == e.rep.Unread();
        assert Incoming(to.end) + [] == Incoming(to.end);
      }
    }
  }

  /**
   Safety of every interleaving, up to and including the first loss: either end reads only a
   prefix of what the other has written or is writing, but for the NUL of a putback too far.
   */
  lemma {:induction false} InterleavedIsPrefix(l: Link, moments: seq<Moment>)
    requires BothConsistent(l) && BothAccounted(l)
    ensures var (d, halt) := Interleave(l, moments);
            && d.a.end.rep.Valid() && d.b.end.rep.Valid()
            && SafeEnd(d.a.end, Offering(d.b), halt == Halted(Calls(true, Unget)))
            && SafeEnd(d.b.end, Offering(d.a), halt == Halted(Calls(false, Unget)))
    decreases |moments|
  {
    if moments == [] {
      AccountedIsSafe(l.a, l.b.end);
      AccountedIsSafe(l.b, l.a.end);
    } else {
      var m := moments[0];
      if Happens(l, m).1 {
        if m.onA { StepKeepsAccounts(l.a, l.b, m); } else { StepKeepsAccounts(l.b, l.a, m); }
        InterleavedIsPrefix(Happens(l, m).0, moments[1..]);
      } else {
        if m.onA { LastMomentIsSafe(l.a, l.b, m); } else { LastMomentIsSafe(l.b, l.a, m); }
      }
    }
  }
}
