/**
 One socket streambuf with the characters its user has written and read so far: what every
 operation does to the characters written, pending, on the wire, inbound, unread and read.
 */
module SocketStreambufEnds {
  import opened Chars
  import opened Sequences
  import opened Sockets
  import opened SocketStreambufSpec
  import opened SocketStreambufTheorems

  /** A streambuf with the characters its user has written and read so far. */
  datatype End = End(rep: Rep, written: seq<byte>, read: seq<byte>)

  datatype Op =
    | Put(b: byte)
    | Push(c: int)
    | Unbuffer
    | Get
    | Peek
    | Pull
    | Unget
    | Move

  // Each operation, and whether it kept every character: false after a failed flush.

  ghost function PutEnd(e: End, b: byte): (End, bool)
    requires e.rep.Valid()
  {
    var (r, x) := SPutC(e.rep, b);
    if x == EOF then (e.(rep := r), false) else (e.(rep := r, written := e.written + [b]), true)
  }

  /** The character, if any, that an overflow with c adds behind the put area. */
  function CharOf(c: int): seq<byte> {
    if c == EOF then [] else [ToChar(c)]
  }

  ghost function PushEnd(e: End, c: int): (End, bool)
    requires e.rep.Valid()
  {
    var (r, x) := Overflow(e.rep, c);
    if x == EOF then (e.(rep := r), false) else (e.(rep := r, written := e.written + CharOf(c)), true)
  }

  ghost function GetEnd(e: End): End
    requires e.rep.Valid()
  {
    var (r, x) := SBumpC(e.rep);
    if x == EOF then e.(rep := r) else e.(rep := r, read := e.read + [ToChar(x)])
  }

  /** In front of the putback area sungetc takes back the character read last. */
  ghost function UngetEnd(e: End): (End, bool)
    requires e.rep.Valid()
  {
    var r := SUngetC(e.rep).0;
    if e.rep.gptr > PUTBACK_MAX && e.read != [] then (End(r, e.written, e.read[..|e.read| - 1]), true)
    else (e.(rep := r), false)
  }

  ghost function EndStep(e: End, op: Op): (End, bool)
    requires e.rep.Valid()
  {
    match op
    case Put(b) => PutEnd(e, b)
    case Push(c) => PushEnd(e, c)
    case Unbuffer => (e.(rep := SetBuf(e.rep, true, 0).0), true)
    case Get => (GetEnd(e), true)
    case Peek => (e.(rep := SGetC(e.rep).0), true)
    case Pull => (e.(rep := Underflow(e.rep).0), true)
    case Unget => UngetEnd(e)
    case Move => (e.(rep := Moved(e.rep)), e.rep.pptr == e.rep.pbase)
  }

  /** What overflow has to send before it can accept c. */
  ghost function Due(r: Rep, c: int): seq<byte>
    requires r.Valid()
  {
    if r.Unbuffered() then CharOf(c) else r.Pending()
  }

  /** The condition, before the step, for it to keep every character. */
  ghost predicate Keeps(e: End, op: Op)
    requires e.rep.Valid()
  {
    match op
    case Put(b) => e.rep.pptr < e.rep.epptr || CanMove(e.rep.socket, e.rep.expiry, |Due(e.rep, b)|)
    case Push(c) => CanMove(e.rep.socket, e.rep.expiry, |Due(e.rep, c)|)
    case Unget => e.rep.gptr > PUTBACK_MAX && e.read != []
    case Move => e.rep.pptr == e.rep.pbase
    case _ => true
  }

  lemma StepKeepsIff(e: End, op: Op)
    requires e.rep.Valid()
    ensures EndStep(e, op).1 <==> Keeps(e, op)
  {
    match op
    case Put(b) => OverflowIff(e.rep, b);
    case Push(c) => OverflowIff(e.rep, c);
    case _ =>
  }

  /** The characters in front of gptr, back to the putback area, are the ones read last. */
  ghost predicate ReadsRemembered(e: End) {
    && e.rep.Valid() && PUTBACK_MAX <= e.rep.gptr
    && var k := e.rep.gptr - PUTBACK_MAX;
       k <= |e.read| && e.read[|e.read| - k..] == e.rep.getBuffer[PUTBACK_MAX..e.rep.gptr]
  }

  /** What the user will have read once the get area and the socket are drained. */
  ghost function Incoming(e: End): seq<byte>
    requires e.rep.Valid()
  {
    e.read + e.rep.Unread() + e.rep.socket.inbound
  }

  /** The bytes put onto the wire between two states of an end. */
  function Wired(e: End, e2: End): seq<byte> {
    var sent, sent2 := e.rep.socket.sent, e2.rep.socket.sent;
    if |sent| <= |sent2| then sent2[|sent|..] else []
  }

  /** The characters accepted between two states of an end. */
  function Accepted(e: End, e2: End): seq<byte> {
    if |e.written| <= |e2.written| then e2.written[|e.written|..] else []
  }

  ghost function OntoWire(e: End, op: Op): seq<byte>
    requires e.rep.Valid()
  {
    Wired(e, EndStep(e, op).0)
  }

  lemma PutAppends(r: Rep, b: byte)
    requires r.Valid() && r.pptr < r.epptr
    ensures var (t, x) := SPutC(r, b);
            t.Valid() && x == b && t.socket == r.socket && t.Unread() == r.Unread()
            && t.Pending() == r.Pending() + [b]
  {
  }

  /** put area ++ accepted == onto the wire ++ new put area. */
  ghost predicate Sends(e: End, e2: End) {
    && e.rep.Valid() && e2.rep.Valid()
    && e2.written == e.written + Accepted(e, e2)
    && e2.rep.socket.sent == e.rep.socket.sent + Wired(e, e2)
    && e.rep.Pending() + Accepted(e, e2) == Wired(e, e2) + e2.rep.Pending()
  }

  lemma SendsNothing(e: End, e2: End)
    requires e.rep.Valid() && e2.rep.Valid() && e2.written == e.written
    requires e2.rep.socket.sent == e.rep.socket.sent && e2.rep.Pending() == e.rep.Pending()
    ensures Sends(e, e2)
  {
  }

  lemma SendsAdded(e: End, e2: End, added: seq<byte>)
    requires e.rep.Valid() && e2.rep.Valid() && e2.written == e.written + added
    requires e.rep.socket.sent <= e2.rep.socket.sent
    requires e.rep.Pending() + added == e2.rep.socket.sent[|e.rep.socket.sent|..] + e2.rep.Pending()
    ensures Sends(e, e2)
  {
  }

  lemma PutSends(e: End, b: byte)
    requires e.rep.Valid() && PutEnd(e, b).1
    ensures Sends(e, PutEnd(e, b).0)
  {
    if e.rep.pptr < e.rep.epptr { PutAppends(e.rep, b); } else { PushSends(e.rep, b); }
    SendsAdded(e, PutEnd(e, b).0, [b]);
  }

  lemma PushEndSends(e: End, c: int)
    requires e.rep.Valid() && PushEnd(e, c).1
    ensures Sends(e, PushEnd(e, c).0)
  {
    PushSends(e.rep, c);
    SendsAdded(e, PushEnd(e, c).0, CharOf(c));
  }

  lemma GetSends(e: End)
    requires e.rep.Valid()
    ensures Sends(e, GetEnd(e)) && Sends(e, e.(rep := SGetC(e.rep).0)) && Sends(e, e.(rep := Underflow(e.rep).0))
  {
    GetFrames(e.rep);
    UnderflowFills(e.rep);
    SendsNothing(e, GetEnd(e));
    SendsNothing(e, e.(rep := SGetC(e.rep).0));
    SendsNothing(e, e.(rep := Underflow(e.rep).0));
  }

  lemma UngetSends(e: End)
    requires e.rep.Valid()
    ensures Sends(e, UngetEnd(e).0)
  {
    SendsNothing(e, UngetEnd(e).0);
  }

  lemma MoveSends(e: End)
    requires e.rep.Valid() && e.rep.pptr == e.rep.pbase
    ensures Sends(e, e.(rep := Moved(e.rep)))
  {
    MoveExact(e.rep);
    SendsNothing(e, e.(rep := Moved(e.rep)));
  }

  lemma UnbufferSends(e: End)
    requires e.rep.Valid()
    ensures Sends(e, e.(rep := SetBuf(e.rep, true, 0).0))
  {
    SetBufExact(e.rep, true, 0);
    SendsNothing(e, e.(rep := SetBuf(e.rep, true, 0).0));
  }

  /** Every step that keeps everything sends in order. */
  lemma StepSends(e: End, op: Op)
    requires e.rep.Valid() && EndStep(e, op).1
    ensures Sends(e, EndStep(e, op).0)
  {
    match op
    case Put(b) => PutSends(e, b);
    case Push(c) => PushEndSends(e, c);
    case Unbuffer => UnbufferSends(e);
    case Get => GetSends(e);
    case Peek => GetSends(e);
    case Pull => GetSends(e);
    case Unget => UngetSends(e);
    case Move => MoveSends(e);
  }

  lemma PushSends(r: Rep, c: int)
    requires r.Valid() && Overflow(r, c).1 != EOF
    ensures var t := Overflow(r, c).0;
            && t.Valid() && t.Unread() == r.Unread() && t.socket.inbound == r.socket.inbound
            && r.socket.sent <= t.socket.sent
            && r.Pending() + CharOf(c) == t.socket.sent[|r.socket.sent|..] + t.Pending()
  {
    if r.Unbuffered() { UnbufferedOverflow(r, c); } else { BufferedOverflow(r, c); }
  }

  lemma GetFrames(r: Rep)
    requires r.Valid()
    ensures var t, u := SGetC(r).0, SBumpC(r).0;
            && t.Valid() && u.Valid() && t.Pending() == u.Pending() == r.Pending()
            && t.putBuffer == u.putBuffer == r.putBuffer
            && t.socket.sent == u.socket.sent == r.socket.sent
  {
    UnderflowFills(r);
  }

  lemma PushKeepsInput(r: Rep, c: int)
    requires r.Valid()
    ensures var t := Overflow(r, c).0;
            && t.Valid() && t.Unread() == r.Unread() && t.socket.inbound == r.socket.inbound
            && t.gptr == r.gptr && t.getBuffer == r.getBuffer
  {
    if r.Unbuffered() { UnbufferedOverflow(r, c); } else { BufferedOverflow(r, c); }
  }

  lemma PullReceives(e: End)
    requires ReadsRemembered(e)
    ensures var e2 := e.(rep := Underflow(e.rep).0); ReadsRemembered(e2) && Incoming(e2) == Incoming(e)
  {
    UnderflowFills(e.rep);
    var t := Underflow(e.rep).0;
    Regroup(e.read, t.Unread(), t.socket.inbound);
    Regroup(e.read, e.rep.Unread(), e.rep.socket.inbound);
  }

  lemma PeekSees(r: Rep)
    requires r.Valid()
    ensures var (t, x) := SGetC(r);
            t.Valid() && (x != EOF ==> t.gptr < t.egptr && x == t.getBuffer[t.gptr])
    ensures SGetC(r) == if r.gptr < r.egptr then (r, r.getBuffer[r.gptr]) else Underflow(r)
  {
    UnderflowFills(r);
  }

  lemma PeekReceives(e: End)
    requires ReadsRemembered(e)
    ensures var e2 := e.(rep := SGetC(e.rep).0); ReadsRemembered(e2) && Incoming(e2) == Incoming(e)
  {
    PeekSees(e.rep);
    PullReceives(e);
  }

  lemma GetReceives(e: End)
    requires ReadsRemembered(e)
    ensures var e2 := GetEnd(e); ReadsRemembered(e2) && Incoming(e2) == Incoming(e)
  {
    PeekReceives(e);
    PeekSees(e.rep);
    var (t, x) := SGetC(e.rep);
    if x != EOF {
      Advance(e.(rep := t));
    }
  }

  /** Reading one character moves it from the get area to the characters read. */
  lemma Advance(e: End)
    requires ReadsRemembered(e) && e.rep.gptr < e.rep.egptr
    ensures var e2 := e.(rep := e.rep.(gptr := e.rep.gptr + 1), read := e.read + [e.rep.getBuffer[e.rep.gptr]]);
            ReadsRemembered(e2) && Incoming(e2) == Incoming(e)
  {
    var r, g := e.rep, e.rep.gptr;
    assert r.getBuffer[g..r.egptr] == [r.getBuffer[g]] + r.getBuffer[g + 1..r.egptr];
    assert r.getBuffer[PUTBACK_MAX..g + 1] == r.getBuffer[PUTBACK_MAX..g] + [r.getBuffer[g]];
  }

  lemma UngetReceives(e: End)
    requires ReadsRemembered(e) && UngetEnd(e).1
    ensures var e2 := UngetEnd(e).0; ReadsRemembered(e2) && Incoming(e2) == Incoming(e)
  {
    var r, read := e.rep, e.read;
    var g, k := r.gptr - 1, |e.read| - 1;
    LastRemembered(read, r.getBuffer, PUTBACK_MAX, r.gptr);
    var e2 := End(r.(gptr := g), e.written, read[..k]);
    assert UngetEnd(e).0 == e2;
    SliceHead(r.getBuffer, g, r.egptr);
    assert read == read[..k] + [read[k]];
    Regroup(read[..k], [read[k]], r.Unread());
  }

  /** If the end of a is the slice of b up to j, the same holds with both shortened by one. */
  lemma LastRemembered(a: seq<byte>, b: seq<byte>, i: nat, j: nat)
    requires i < j <= |b| && j - i <= |a| && a[|a| - (j - i)..] == b[i..j]
    ensures a[|a| - 1] == b[j - 1]
    ensures a[..|a| - 1][|a| - (j - i)..] == b[i..j - 1]
  {
    var m, k := j - i, |a| - (j - i);
    assert a[|a| - 1] == a[k..][m - 1] == b[i..j][m - 1];
    assert a[..|a| - 1][k..] == a[k..][..m - 1];
    SplitSlice(b, i, j - 1, j);
  }

  lemma SameInput(e: End, e2: End)
    requires ReadsRemembered(e) && e2.rep.Valid() && e2.read == e.read
    requires e2.rep.gptr == e.rep.gptr && e2.rep.egptr == e.rep.egptr && e2.rep.getBuffer == e.rep.getBuffer
    requires e2.rep.socket.inbound == e.rep.socket.inbound
    ensures ReadsRemembered(e2) && Incoming(e2) == Incoming(e)
  {
  }

  lemma PutReceives(e: End, b: byte)
    requires ReadsRemembered(e)
    ensures var e2 := PutEnd(e, b).0; ReadsRemembered(e2) && Incoming(e2) == Incoming(e)
  {
    if e.rep.pptr < e.rep.epptr { PutAppends(e.rep, b); } else { PushKeepsInput(e.rep, b); }
    SameInput(e, PutEnd(e, b).0);
  }

  lemma PushReceives(e: End, c: int)
    requires ReadsRemembered(e)
    ensures var e2 := PushEnd(e, c).0; ReadsRemembered(e2) && Incoming(e2) == Incoming(e)
  {
    PushKeepsInput(e.rep, c);
    SameInput(e, PushEnd(e, c).0);
  }

  lemma MoveReceives(e: End)
    requires ReadsRemembered(e)
    ensures var e2 := e.(rep := Moved(e.rep)); ReadsRemembered(e2) && Incoming(e2) == Incoming(e)
  {
    MoveExact(e.rep);
    SameInput(e, e.(rep := Moved(e.rep)));
  }

  lemma UnbufferReceives(e: End)
    requires ReadsRemembered(e)
    ensures var e2 := e.(rep := SetBuf(e.rep, true, 0).0); ReadsRemembered(e2) && Incoming(e2) == Incoming(e)
  {
    SetBufExact(e.rep, true, 0);
    SameInput(e, e.(rep := SetBuf(e.rep, true, 0).0));
  }

  /** read ++ get area ++ inbound does not change, whatever the step reads, refills or puts back. */
  lemma StepReceives(e: End, op: Op)
    requires ReadsRemembered(e) && (op.Unget? ==> EndStep(e, op).1)
    ensures var e2 := EndStep(e, op).0; ReadsRemembered(e2) && Incoming(e2) == Incoming(e)
  {
    match op
    case Put(b) => PutReceives(e, b);
    case Push(c) => PushReceives(e, c);
    case Unbuffer => UnbufferReceives(e);
    case Get => GetReceives(e);
    case Peek => PeekReceives(e);
    case Pull => PullReceives(e);
    case Unget => UngetReceives(e);
    case Move => MoveReceives(e);
  }

  /** A putback past the get area puts a NUL in front of what is unread, and nothing else happens. */
  lemma UngetInvents(e: End)
    requires ReadsRemembered(e) && !UngetEnd(e).1
    ensures var e2 := UngetEnd(e).0;
            && e2 == e.(rep := e2.rep) && e2.rep.Valid() && e2.rep.socket == e.rep.socket
            && e2.rep.Unread() == [0] + e.rep.Unread() && e2.rep.Pending() == e.rep.Pending()
  {
    var r := e.rep;
    assert r.gptr == PUTBACK_MAX;
    assert r.getBuffer[PUTBACK_MAX - 1] == r.getBuffer[..PUTBACK_MAX][PUTBACK_MAX - 1] == 0;
    SliceHead(r.getBuffer, PUTBACK_MAX - 1, r.egptr);
  }

  // ----- Unbuffered mode -----

  lemma PutStaysUnbuffered(e: End, b: byte)
    requires e.rep.Valid() && e.rep.Unbuffered()
    ensures PutEnd(e, b).0.rep.Valid() && PutEnd(e, b).0.rep.Unbuffered()
  {
    UnbufferedOverflow(e.rep, b);
  }

  lemma PushStaysUnbuffered(e: End, c: int)
    requires e.rep.Valid() && e.rep.Unbuffered()
    ensures PushEnd(e, c).0.rep.Valid() && PushEnd(e, c).0.rep.Unbuffered()
  {
    UnbufferedOverflow(e.rep, c);
  }

  lemma GetStaysUnbuffered(e: End)
    requires e.rep.Valid() && e.rep.Unbuffered()
    ensures GetEnd(e).rep.Valid() && GetEnd(e).rep.Unbuffered()
    ensures SGetC(e.rep).0.Valid() && SGetC(e.rep).0.Unbuffered()
    ensures Underflow(e.rep).0.Valid() && Underflow(e.rep).0.Unbuffered()
  {
    GetFrames(e.rep);
    UnderflowFills(e.rep);
  }

  lemma MoveStaysUnbuffered(r: Rep)
    requires r.Valid() && r.Unbuffered()
    ensures Moved(r).Valid() && Moved(r).Unbuffered()
    ensures SetBuf(r, true, 0).0.Valid() && SetBuf(r, true, 0).0.Unbuffered()
    ensures SUngetC(r).0.Valid() && SUngetC(r).0.Unbuffered()
  {
    MoveExact(r);
    SetBufExact(r, true, 0);
  }

  lemma UnbufferedStays(e: End, op: Op)
    requires e.rep.Valid() && e.rep.Unbuffered()
    ensures EndStep(e, op).0.rep.Valid() && EndStep(e, op).0.rep.Unbuffered()
  {
    match op
    case Put(b) => PutStaysUnbuffered(e, b);
    case Push(c) => PushStaysUnbuffered(e, c);
    case Get => GetStaysUnbuffered(e);
    case Peek => GetStaysUnbuffered(e);
    case Pull => GetStaysUnbuffered(e);
    case Unbuffer => MoveStaysUnbuffered(e.rep);
    case Unget => MoveStaysUnbuffered(e.rep);
    case Move => MoveStaysUnbuffered(e.rep);
  }
}
