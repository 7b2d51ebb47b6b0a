/**
 What each operation of basic_socket_streambuf does to its arrays, offsets, error code and socket,
 on values. The class in SocketStreambuf.dfy is proved to do exactly this in place;
 SocketStreambufTheorems.dfy proves what it means for the bytes that cross the socket.
 */
module SocketStreambufSpec {
  import opened Chars
  import opened Sockets

  const BUFFER_SIZE: int := 512
  const PUTBACK_MAX: int := 8
  const MAX_EXPIRY_TIME: int := 0x7fff_ffff_ffff_ffff

  datatype Rep = Rep(
    getBuffer: seq<byte>, eback: int, gptr: int, egptr: int,
    putBuffer: seq<byte>, pbase: int, pptr: int, epptr: int,
    ec: Error, expiry: int, socket: Socket)
  {
    ghost predicate Valid() {
      && |getBuffer| == BUFFER_SIZE
      && 0 == eback <= gptr <= egptr <= BUFFER_SIZE && PUTBACK_MAX <= egptr
      && getBuffer[..PUTBACK_MAX] == seq(PUTBACK_MAX, _ => 0)
      && 0 <= pbase <= pptr <= epptr == |putBuffer|
      && (|putBuffer| == BUFFER_SIZE || putBuffer == [])
      && socket.Settles()
    }

    predicate Unbuffered() {
      putBuffer == []
    }

    /** The get area: received and not yet read. */
    ghost function Unread(): seq<byte>
      requires Valid()
    {
      getBuffer[gptr..egptr]
    }

    /** The put area: written and not yet flushed. */
    ghost function Pending(): seq<byte>
      requires Valid()
    {
      putBuffer[pbase..pptr]
    }
  }

  function Zeros(n: nat): seq<byte> {
    seq(n, _ => 0)
  }

  // ----- The two loops -----

  datatype Flushed = Flushed(socket: Socket, ec: Error, ok: bool)

  /** The loop of overflow: sends out in as many pieces as the kernel wants. */
  function Flush(s: Socket, expiry: int, ec: Error, out: seq<byte>): (r: Flushed)
    requires s.Settles()
    ensures r.socket.oracle == s.oracle
    decreases s.Patience(), |out|
  {
    if out == [] then
      Flushed(s, ec, true)
    else if expiry < s.Turn().now then
      Flushed(s.Next(), TimedOut, false)
    else if s.Takes(out) > 0 then
      Flush(s.Next().(sent := s.sent + out[..s.Takes(out)]), expiry, Clear, out[s.Takes(out)..])
    else if !Blocking(s.Refusal()) then
      Flushed(s.Next(), s.Refusal(), false)
    else if s.Turn().poll.PollFailed? then
      Flushed(s.Next(), s.Turn().poll.error, false)
    else
      Flush(s.Next(), expiry, Clear, out)
  }

  datatype Refilled = Refilled(socket: Socket, ec: Error, bytes: seq<byte>)

  /** The loop of underflow: one non-empty piece of what is inbound, or an error. */
  function Refill(s: Socket, expiry: int): (r: Refilled)
    requires s.Settles()
    ensures r.socket.oracle == s.oracle
    ensures |r.bytes| <= BUFFER_SIZE - PUTBACK_MAX
    decreases s.Patience()
  {
    var k := s.Delivers(BUFFER_SIZE - PUTBACK_MAX);
    if expiry < s.Turn().now then
      Refilled(s.Next(), TimedOut, [])
    else if k > 0 then
      Refilled(s.Next().(inbound := s.inbound[k..]), Clear, s.inbound[..k])
    else if s.Refusal() == Clear then
      Refilled(s.Next(), EndOfFile, [])
    else if !Blocking(s.Refusal()) then
      Refilled(s.Next(), s.Refusal(), [])
    else if s.Turn().poll.PollFailed? then
      Refilled(s.Next(), s.Turn().poll.error, [])
    else
      Refill(s.Next(), expiry)
  }

  // ----- The virtual functions -----

  ghost function Underflow(r: Rep): (Rep, int)
    requires r.Valid()
  {
    if r.gptr != r.egptr then
      (r, EOF)
    else
      var f := Refill(r.socket, r.expiry);
      if f.bytes == [] then
        (r.(socket := f.socket, ec := f.ec), EOF)
      else
        (r.(socket := f.socket, ec := f.ec,
            getBuffer := r.getBuffer[..PUTBACK_MAX] + f.bytes + r.getBuffer[PUTBACK_MAX + |f.bytes|..],
            eback := 0, gptr := PUTBACK_MAX, egptr := PUTBACK_MAX + |f.bytes|),
         f.bytes[0])
  }

  lemma UnderflowKeepsValid(r: Rep)
    requires r.Valid()
    ensures Underflow(r).0.Valid()
  {
    var b := Refill(r.socket, r.expiry).bytes;
    var g := r.getBuffer[..PUTBACK_MAX] + b + r.getBuffer[PUTBACK_MAX + |b|..];
    assert |g| == BUFFER_SIZE && g[..PUTBACK_MAX] == r.getBuffer[..PUTBACK_MAX];
  }

  ghost function Overflow(r: Rep, c: int): (Rep, int)
    requires r.Valid()
  {
    if r.Unbuffered() then
      if c == EOF then
        (r, NotEof(c))
      else
        var f := Flush(r.socket, r.expiry, r.ec, [ToChar(c)]);
        (r.(socket := f.socket, ec := f.ec), if f.ok then c else EOF)
    else
      var f := Flush(r.socket, r.expiry, r.ec, r.Pending());
      var s := r.(socket := f.socket, ec := f.ec);
      if !f.ok then
        (s, EOF)
      else if c == EOF then
        (s.(pbase := 0, pptr := 0), NotEof(c))
      else
        (s.(pbase := 0, pptr := 1, putBuffer := r.putBuffer[0 := ToChar(c)]), c)
  }

  lemma OverflowKeepsValid(r: Rep, c: int)
    requires r.Valid()
    ensures Overflow(r, c).0.Valid()
  {
  }

  ghost function Sync(r: Rep): (Rep, int)
    requires r.Valid()
  {
    Overflow(r, EOF)
  }

  /** setbuf(s, n), and whether it answered this; isNull says that s is the null pointer. */
  function SetBuf(r: Rep, isNull: bool, n: int): (Rep, bool) {
    if r.pptr == r.pbase && isNull && n == 0 then
      (r.(putBuffer := [], pbase := 0, pptr := 0, epptr := 0), true)
    else
      (r, false)
  }

  // ----- The public functions of std::streambuf -----

  ghost function SPutC(r: Rep, b: byte): (Rep, int)
    requires r.Valid()
  {
    if r.pptr < r.epptr then
      (r.(putBuffer := r.putBuffer[r.pptr := b], pptr := r.pptr + 1), b)
    else
      Overflow(r, b)
  }

  ghost function SGetC(r: Rep): (Rep, int)
    requires r.Valid()
  {
    if r.gptr < r.egptr then (r, r.getBuffer[r.gptr]) else Underflow(r)
  }

  ghost function SBumpC(r: Rep): (Rep, int)
    requires r.Valid()
  {
    var (s, c) := SGetC(r);
    if c == EOF then (s, c) else (s.(gptr := s.gptr + 1), c)
  }

  ghost function SUngetC(r: Rep): (Rep, int)
    requires r.Valid()
  {
    if r.eback < r.gptr then (r.(gptr := r.gptr - 1), r.getBuffer[r.gptr - 1]) else (r, EOF)
  }

  // ----- Construction, closing, moving -----

  function InitBuffers(r: Rep): Rep {
    r.(eback := 0, gptr := PUTBACK_MAX, egptr := PUTBACK_MAX, pbase := 0, pptr := 0, epptr := |r.putBuffer|)
  }

  /** A streambuf around a socket, as the constructors build it. */
  function Fresh(socket: Socket): Rep {
    Rep(Zeros(BUFFER_SIZE), 0, PUTBACK_MAX, PUTBACK_MAX, Zeros(BUFFER_SIZE), 0, 0, BUFFER_SIZE,
        Clear, MAX_EXPIRY_TIME, socket)
  }

  /** basic_socket::close(ec). */
  function DescriptorClosed(r: Rep, outcome: Error): Rep {
    r.(ec := if r.socket.open then outcome else Clear, socket := r.socket.(open := false))
  }

  /** close(), and whether it answered this; outcome is what closing an open descriptor reports. */
  ghost function Close(r: Rep, outcome: Error): (Rep, bool)
    requires r.Valid()
  {
    var t := DescriptorClosed(Sync(r).0, outcome);
    if t.ec == Clear then (InitBuffers(t), true) else (t, false)
  }

  lemma CloseKeepsValid(r: Rep, outcome: Error)
    requires r.Valid()
    ensures Close(r, outcome).0.Valid()
  {
    OverflowKeepsValid(r, EOF);
  }

  /** The socket left in a streambuf whose own socket has been moved away. */
  function MovedFrom(s: Socket): Socket {
    s.(open := false, sent := [], inbound := [])
  }

  /** What a move hands over: note that the put area restarts at pptr. */
  function Moved(other: Rep): Rep {
    other.(pbase := other.pptr)
  }

  lemma MovesKeepValid(r: Rep)
    requires r.Valid()
    ensures Moved(r).Valid() && Fresh(MovedFrom(r.socket)).Valid()
  {
    assert Zeros(BUFFER_SIZE)[..PUTBACK_MAX] == Zeros(PUTBACK_MAX);
  }

  /** What move construction leaves in the source. */
  function MoveConstructLeaves(other: Rep): Rep {
    Fresh(MovedFrom(other.socket))
  }

  /** What swapping arrays with a closed target leaves in the source. */
  function MoveLeaves(closed: Rep, other: Rep): Rep {
    Fresh(MovedFrom(other.socket)).(
      getBuffer := closed.getBuffer,
      putBuffer := if closed.putBuffer == [] then Zeros(BUFFER_SIZE) else closed.putBuffer)
  }

  /** What move assignment to a streambuf that was target leaves in the source. */
  ghost function MoveAssignLeaves(target: Rep, outcome: Error, other: Rep): Rep
    requires target.Valid()
  {
    MoveLeaves(Close(target, outcome).0, other)
  }

  lemma MoveLeavesValid(closed: Rep, other: Rep)
    requires closed.Valid() && other.Valid()
    ensures MoveLeaves(closed, other).Valid()
  {
    MovesKeepValid(other);
  }
}
