/** basic_socket_streambuf: two arrays, six stream positions, an error code and a socket. */
module SocketStreambuf {
  import opened Chars
  import opened Sockets
  import Spec = SocketStreambufSpec
  import opened SocketStreambufSpec
  import opened SocketStreambufTheorems
  import opened Connecting

  class BasicSocketStreambuf {
    var getBuffer: array<byte>
    var putBuffer: array<byte>
    var eback: int
    var gptr: int
    var egptr: int
    var pbase: int
    var pptr: int
    var epptr: int
    var ec: Error
    var expiry: int
    var socket: Socket

    ghost function Rep(): Rep
      reads this, getBuffer, putBuffer
    {
      Spec.Rep.Rep(getBuffer[..], eback, gptr, egptr, putBuffer[..], pbase, pptr, epptr, ec, expiry, socket)
    }

    ghost predicate Valid()
      reads this, getBuffer, putBuffer
    {
      Rep().Valid() && getBuffer != putBuffer
    }

    /** Construct from a socket. */
    constructor (s: Socket)
      requires s.Settles()
      ensures Valid() && fresh(getBuffer) && fresh(putBuffer)
      ensures Rep() == Fresh(s)
    {
      getBuffer := new byte[BUFFER_SIZE](_ => 0);
      putBuffer := new byte[BUFFER_SIZE](_ => 0);
      ec, expiry, socket := Clear, MAX_EXPIRY_TIME, s;
      eback, gptr, egptr := 0, PUTBACK_MAX, PUTBACK_MAX;
      pbase, pptr, epptr := 0, 0, BUFFER_SIZE;
    }

    /** Move-construct: the arrays are swapped, the source gets the new ones. */
    constructor MoveFrom(other: BasicSocketStreambuf)
      requires other.Valid()
      modifies other
      ensures Valid() && other.Valid()
      ensures getBuffer == old(other.getBuffer) && putBuffer == old(other.putBuffer)
      ensures fresh(other.getBuffer) && fresh(other.putBuffer)
      ensures Rep() == Moved(old(other.Rep()))
      ensures other.Rep() == MoveConstructLeaves(old(other.Rep()))
    {
      getBuffer := other.getBuffer;
      putBuffer := other.putBuffer;
      socket, ec, expiry := other.socket, other.ec, other.expiry;
      eback, gptr, egptr := other.eback, other.gptr, other.egptr;
      pbase, pptr, epptr := other.pptr, other.pptr, other.epptr;
      new;
      MovesKeepValid(other.Rep());
      other.Renew();
    }

    /** New arrays, a closed socket, no error: what a move construction does to its source. */
    method Renew()
      modifies this
      ensures fresh(getBuffer) && fresh(putBuffer) && getBuffer != putBuffer
      ensures Rep() == Fresh(MovedFrom(old(socket)))
    {
      getBuffer := new byte[BUFFER_SIZE](_ => 0);
      putBuffer := new byte[BUFFER_SIZE](_ => 0);
      socket := MovedFrom(socket);
      ec, expiry := Clear, MAX_EXPIRY_TIME;
      InitBuffers();
    }

    /** Move-assign: closes this first, then swaps the arrays. closed is the old socket, with its wire. */
    method MoveAssign(other: BasicSocketStreambuf, outcome: Error) returns (ghost closed: Socket)
      requires Valid() && other.Valid() && SharesNothing(other)
      modifies this, putBuffer, other
      ensures Valid() && other.Valid()
      ensures Rep() == Moved(old(other.Rep()))
      ensures other.Rep() == MoveAssignLeaves(old(Rep()), outcome, old(other.Rep()))
      ensures closed == Spec.Close(old(Rep()), outcome).0.socket
    {
      var _ := Close(outcome);
      closed := socket;
      TakeFrom(other);
    }

    ghost predicate SharesNothing(other: BasicSocketStreambuf)
      reads this, other
    {
      && other != this
      && getBuffer != other.getBuffer && getBuffer != other.putBuffer
      && putBuffer != other.getBuffer && putBuffer != other.putBuffer
    }

    /** The part of move assignment behind the close. */
    method TakeFrom(other: BasicSocketStreambuf)
      requires Valid() && other.Valid() && SharesNothing(other)
      modifies this, other
      ensures Valid() && other.Valid()
      ensures Rep() == Moved(old(other.Rep()))
      ensures other.Rep() == MoveLeaves(old(Rep()), old(other.Rep()))
    {
      MovesKeepValid(other.Rep());
      MoveLeavesValid(Rep(), other.Rep());
      SwapWith(other);
      other.ec, other.expiry := Clear, MAX_EXPIRY_TIME;
      if other.putBuffer.Length != BUFFER_SIZE {
        other.putBuffer := new byte[BUFFER_SIZE](_ => 0);
      }
      other.InitBuffers();
    }

    /** Takes socket, error, expiry and stream positions; the arrays change places. */
    method SwapWith(other: BasicSocketStreambuf)
      requires other != this
      modifies this, other
      ensures getBuffer == old(other.getBuffer) && putBuffer == old(other.putBuffer)
      ensures other.getBuffer == old(getBuffer) && other.putBuffer == old(putBuffer)
      ensures Rep() == Moved(old(other.Rep()))
      ensures other.socket == MovedFrom(old(other.socket))
    {
      SwapArrays(other);
      TakePositions(other);
      socket, other.socket := other.socket, MovedFrom(other.socket);
      ec, expiry := other.ec, other.expiry;
    }

    method SwapArrays(other: BasicSocketStreambuf)
      requires other != this
      modifies `getBuffer, `putBuffer, other`getBuffer, other`putBuffer
      ensures getBuffer == old(other.getBuffer) && putBuffer == old(other.putBuffer)
      ensures other.getBuffer == old(getBuffer) && other.putBuffer == old(putBuffer)
    {
      getBuffer, other.getBuffer := other.getBuffer, getBuffer;
      putBuffer, other.putBuffer := other.putBuffer, putBuffer;
    }

    /** The put area restarts at the other's pptr, as the source's setp(pptr, epptr) has it. */
    method TakePositions(other: BasicSocketStreambuf)
      requires other != this
      modifies `eback, `gptr, `egptr, `pbase, `pptr, `epptr
      ensures eback == other.eback && gptr == other.gptr && egptr == other.egptr
      ensures pbase == other.pptr && pptr == other.pptr && epptr == other.epptr
    {
      eback, gptr, egptr := other.eback, other.gptr, other.egptr;
      pbase, pptr, epptr := other.pptr, other.pptr, other.epptr;
    }

    method InitBuffers()
      requires getBuffer.Length == BUFFER_SIZE
      modifies `eback, `gptr, `egptr, `pbase, `pptr, `epptr
      ensures Rep() == Spec.InitBuffers(old(Rep()))
    {
      eback, gptr, egptr := 0, PUTBACK_MAX, PUTBACK_MAX;
      if putBuffer.Length == 0 {
        pbase, pptr, epptr := 0, 0, 0;
      } else {
        pbase, pptr, epptr := 0, 0, putBuffer.Length;
      }
    }

    /** close(): true stands for the returned this. */
    method Close(outcome: Error) returns (ok: bool)
      requires Valid()
      modifies this, putBuffer
      ensures Valid() && getBuffer == old(getBuffer) && putBuffer == old(putBuffer)
      ensures (Rep(), ok) == Spec.Close(old(Rep()), outcome)
    {
      CloseKeepsValid(Rep(), outcome);
      var _ := Sync();
      CloseDescriptor(outcome);
      if ec == Clear {
        InitBuffers();
      }
      ok := ec == Clear;
    }

    /** basic_socket::close(ec). */
    method CloseDescriptor(outcome: Error)
      modifies `ec, `socket
      ensures Rep() == DescriptorClosed(old(Rep()), outcome)
    {
      ec := if socket.open then outcome else Clear;
      socket := socket.(open := false);
    }

    method Underflow() returns (c: int)
      requires Valid()
      modifies this, getBuffer
      ensures Valid() && getBuffer == old(getBuffer) && putBuffer == old(putBuffer)
      ensures (Rep(), c) == Spec.Underflow(old(Rep()))
      ensures Rep().Unread() + socket.inbound == old(Rep().Unread() + socket.inbound)
    {
      UnderflowFills(Rep());
      if gptr != egptr {
        return EOF;
      }
      UnderflowKeepsValid(Rep());
      ghost var f := Refill(socket, expiry);
      while true
        invariant socket.Settles() && Refill(socket, expiry) == f
        invariant getBuffer == old(getBuffer) && putBuffer == old(putBuffer)
        invariant Rep() == old(Rep()).(socket := socket, ec := ec)
        decreases socket.Patience()
      {
        var turn, refusal, k := socket.Turn(), socket.Refusal(), socket.Delivers(getBuffer.Length - PUTBACK_MAX);
        socket := socket.Next();
        if expiry < turn.now {
          ec := TimedOut;
          return EOF;
        }
        if k > 0 {
          Receive(k);
          return getBuffer[gptr];
        }
        ec := refusal;
        if ec == Clear {
          ec := EndOfFile;
          return EOF;
        }
        if !Blocking(ec) {
          return EOF;
        }
        if turn.poll.PollFailed? {
          ec := turn.poll.error;
          return EOF;
        }
        ec := Clear;
      }
    }

    /** The kernel copies the first k inbound bytes behind the putback area, which becomes the get area. */
    method Receive(k: nat)
      requires getBuffer.Length == BUFFER_SIZE && getBuffer != putBuffer
      requires 0 < k <= |socket.inbound| && k <= BUFFER_SIZE - PUTBACK_MAX
      modifies this, getBuffer
      ensures getBuffer == old(getBuffer) && putBuffer == old(putBuffer)
      ensures Rep() == old(Rep()).(
                         socket := old(socket).(inbound := old(socket).inbound[k..]), ec := Clear,
                         getBuffer := old(getBuffer[..PUTBACK_MAX]) + old(socket).inbound[..k]
                                      + old(getBuffer[PUTBACK_MAX + k..]),
                         eback := 0, gptr := PUTBACK_MAX, egptr := PUTBACK_MAX + k)
      ensures getBuffer[PUTBACK_MAX] == old(socket).inbound[0]
    {
      forall i | 0 <= i < k {
        getBuffer[PUTBACK_MAX + i] := socket.inbound[i];
      }
      socket := socket.(inbound := socket.inbound[k..]);
      ec := Clear;
      eback, gptr, egptr := 0, PUTBACK_MAX, PUTBACK_MAX + k;
    }

    method Overflow(c: int) returns (r: int)
      requires Valid()
      modifies this, putBuffer
      ensures Valid() && getBuffer == old(getBuffer) && putBuffer == old(putBuffer)
      ensures (Rep(), r) == Spec.Overflow(old(Rep()), c)
      ensures old(putBuffer.Length) > 0 ==> OverflowMeans(old(Rep()), c, Rep(), r)
    {
      OverflowKeepsValid(Rep(), c);
      if putBuffer.Length > 0 {
        BufferedOverflow(Rep(), c);
      }
      var ch := ToChar(c);
      var output: seq<byte>;
      if putBuffer.Length == 0 {
        if c == EOF {
          return NotEof(c);
        }
        output := [ch];
      } else {
        output := putBuffer[pbase..pptr];
      }
      var ok := SendAll(output);
      if !ok {
        return EOF;
      }
      if putBuffer.Length != 0 {
        pbase, pptr, epptr := 0, 0, putBuffer.Length;
        if c == EOF {
          return NotEof(c);
        }
        putBuffer[pptr] := ch;
        pptr := pptr + 1;
      }
      return c;
    }

    /** The loop of overflow: false stands for its early return of eof. */
    method SendAll(out: seq<byte>) returns (ok: bool)
      requires socket.Settles()
      modifies `socket, `ec
      ensures Flushed(socket, ec, ok) == Flush(old(socket), expiry, old(ec), out)
    {
      var output := out;
      ghost var f := Flush(socket, expiry, ec, output);
      while |output| > 0
        invariant socket.Settles() && Flush(socket, expiry, ec, output) == f
        decreases socket.Patience(), |output|
      {
        var turn, refusal, bytes := socket.Turn(), socket.Refusal(), socket.Takes(output);
        socket := socket.Next();
        if expiry < turn.now {
          ec := TimedOut;
          return false;
        }
        if bytes > 0 {
          socket := socket.(sent := socket.sent + output[..bytes]);
          ec := Clear;
          output := output[bytes..];
          continue;
        }
        ec := refusal;
        if !Blocking(ec) {
          return false;
        }
        if turn.poll.PollFailed? {
          ec := turn.poll.error;
          return false;
        }
        ec := Clear;
      }
      return true;
    }

    method Sync() returns (r: int)
      requires Valid()
      modifies this, putBuffer
      ensures Valid() && getBuffer == old(getBuffer) && putBuffer == old(putBuffer)
      ensures (Rep(), r) == Spec.Sync(old(Rep()))
      ensures old(putBuffer.Length) > 0 ==> OverflowMeans(old(Rep()), EOF, Rep(), r)
    {
      r := Overflow(EOF);
    }

    /** setbuf: true stands for the returned this. */
    method SetBuf(isNull: bool, n: int) returns (ok: bool)
      requires Valid()
      modifies this, putBuffer
      ensures Valid() && getBuffer == old(getBuffer)
      ensures putBuffer == old(putBuffer) || fresh(putBuffer)
      ensures (Rep(), ok) == Spec.SetBuf(old(Rep()), isNull, n)
    {
      if pptr == pbase && isNull && n == 0 {
        putBuffer := new byte[0];
        pbase, pptr, epptr := 0, 0, 0;
        var _ := Sync();
        return true;
      }
      return false;
    }

    method SPutC(b: byte) returns (r: int)
      requires Valid()
      modifies this, putBuffer
      ensures Valid() && getBuffer == old(getBuffer) && putBuffer == old(putBuffer)
      ensures (Rep(), r) == Spec.SPutC(old(Rep()), b)
    {
      if pptr < epptr {
        putBuffer[pptr] := b;
        pptr := pptr + 1;
        return b;
      }
      r := Overflow(b);
    }

    method SGetC() returns (c: int)
      requires Valid()
      modifies this, getBuffer
      ensures Valid() && getBuffer == old(getBuffer) && putBuffer == old(putBuffer)
      ensures (Rep(), c) == Spec.SGetC(old(Rep()))
    {
      if gptr < egptr {
        return getBuffer[gptr];
      }
      c := Underflow();
    }

    method SBumpC() returns (c: int)
      requires Valid()
      modifies this, getBuffer
      ensures Valid() && getBuffer == old(getBuffer) && putBuffer == old(putBuffer)
      ensures (Rep(), c) == Spec.SBumpC(old(Rep()))
    {
      if gptr < egptr {
        c := getBuffer[gptr];
        gptr := gptr + 1;
        return;
      }
      c := Underflow();
      if c != EOF {
        gptr := gptr + 1;
      }
    }

    method SUngetC() returns (c: int)
      requires Valid()
      modifies this
      ensures Valid() && getBuffer == old(getBuffer) && putBuffer == old(putBuffer)
      ensures (Rep(), c) == Spec.SUngetC(old(Rep()))
    {
      if eback < gptr {
        gptr := gptr - 1;
        c := getBuffer[gptr];
      } else {
        c := EOF;
      }
    }

    /** One endpoint: the descriptor is closed and reopened, then connected; the error is left in ec. */
    method TryEndpoint(a: Attempt) returns (stop: bool)
      requires a.now <= expiry
      modifies `ec, `socket
      ensures socket == old(socket).(open := a.opening == Clear, sent := [], inbound := [])
      ensures Try(a, expiry) == if stop then Stop(ec) else NextAfter(ec)
    {
      ec := a.closing;
      socket := socket.(open := a.opening == Clear, sent := [], inbound := []);
      ec := a.opening;
      if ec != Clear {
        return false;
      }
      ec := a.connecting;
      if ec == Clear {
        return true;
      }
      if ec != InProgress && ec != WouldBlock {
        return false;
      }
      match a.readiness
      case PollError(e) =>
        ec := e;
        return false;
      case _ =>
      match a.pending
      case OptionError(e) =>
        ec := e;
        return true;
      case SocketError(e) =>
        ec := e;
        return ec == Clear;
    }

    /**
     Tries the endpoints in turn; world(i) is what happens when the i-th is tried. visited is
     the number of endpoints for which the descriptor was closed and reopened.
     */
    method ConnectToEndpoints<Endpoint>(endpoints: seq<Endpoint>, world: nat -> Attempt)
        returns (visited: nat)
      modifies `ec, `socket
      ensures old(ec) != Clear ==> visited == 0 && ec == old(ec)
      ensures old(ec) == Clear ==>
                Ended(world, expiry, |endpoints|, visited, ec) && Walked(world, expiry, |endpoints|, visited, ec)
      ensures socket == Reopened(old(socket), world, visited)
    {
      visited := 0;
      if ec != Clear {
        return;
      }
      ec := NotFound;
      for i := 0 to |endpoints|
        invariant visited == i
        invariant forall j: nat | j < i :: Try(world(j), expiry).NextAfter?
        invariant ec == if i == 0 then NotFound else Try(world(i - 1), expiry).error
        invariant socket == Reopened(old(socket), world, i)
      {
        if expiry < world(i).now {
          ec := TimedOut;
          EndedIsWalked(world, expiry, |endpoints|, visited, ec);
          return;
        }
        var stop := TryEndpoint(world(i));
        visited := i + 1;
        if stop {
          EndedIsWalked(world, expiry, |endpoints|, visited, ec);
          return;
        }
      }
      EndedIsWalked(world, expiry, |endpoints|, visited, ec);
    }

    /** connect(endpoint): true stands for the returned this. Buffered output is dropped. */
    method Connect<Endpoint>(endpoint: Endpoint, world: nat -> Attempt) returns (ok: bool)
      requires Valid()
      modifies this
      ensures Valid() && getBuffer == old(getBuffer) && putBuffer == old(putBuffer)
      ensures Rep() == Spec.InitBuffers(old(Rep())).(socket := socket, ec := ec)
      ensures ok <==> ec == Clear
      ensures exists visited :: Walked(world, expiry, 1, visited, ec)
                                && socket == Reopened(old(socket), world, visited)
    {
      InitBuffers();
      ec := Clear;
      var visited := ConnectToEndpoints([endpoint], world);
      ok := ec == Clear;
    }

    /** connect(host, service, ...): resolved is the resolver's error, endpoints its results. */
    method ConnectResolved<Endpoint>(resolved: Error, endpoints: seq<Endpoint>, world: nat -> Attempt)
        returns (ok: bool)
      requires Valid()
      modifies this
      ensures Valid() && getBuffer == old(getBuffer) && putBuffer == old(putBuffer)
      ensures Rep() == Spec.InitBuffers(old(Rep())).(socket := socket, ec := ec)
      ensures ok <==> ec == Clear
      ensures resolved != Clear ==> ec == resolved && socket == old(socket)
      ensures resolved == Clear ==>
                exists visited :: Walked(world, expiry, |endpoints|, visited, ec)
                                  && socket == Reopened(old(socket), world, visited)
    {
      InitBuffers();
      ec := resolved;
      var visited := ConnectToEndpoints(endpoints, world);
      ok := ec == Clear;
    }
  }
}
