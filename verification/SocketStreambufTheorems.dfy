/**
 What basic_socket_streambuf does with the bytes: exactly-once delivery until the first failed
 flush, whatever the kernel's chunking, and what failures, moves, closing and putback break.
 */
module SocketStreambufTheorems {
  import opened Chars
  import opened Sockets
  import opened SocketStreambufSpec

  // ----- The two loops -----

  /** How many bytes went onto the wire between two states of a socket. */
  function Gained(s: Socket, t: Socket): int {
    |t.sent| - |s.sent|
  }

  /** The wire gains a prefix of out, in order and without repetition; all of it exactly on success. */
  lemma {:induction false} FlushSendsPrefix(s: Socket, expiry: int, ec: Error, out: seq<byte>)
    requires s.Settles()
    ensures var f := Flush(s, expiry, ec, out); var n := Gained(s, f.socket);
            && 0 <= n <= |out| && f.socket.sent == s.sent + out[..n]
            && (f.ok <==> n == |out|)
            && f.socket == s.(tick := f.socket.tick, sent := f.socket.sent)
            && (f.ok ==> f.ec == if out == [] then ec else Clear)
    decreases s.Patience(), |out|
  {
    if out != [] && s.Turn().now <= expiry {
      var k := s.Takes(out);
      if k > 0 {
        FlushSendsPrefix(s.Next().(sent := s.sent + out[..k]), expiry, Clear, out[k..]);
        var n := Gained(s, Flush(s, expiry, ec, out).socket);
        assert out[..n] == out[..k] + out[k..][..n - k];
      } else if Blocking(s.Refusal()) && s.Turn().poll.Answered? {
        FlushSendsPrefix(s.Next(), expiry, Clear, out);
      }
    }
  }

  /** The number of rounds is bounded by the waits the kernel may still ask for and the bytes to send. */
  lemma {:induction false} FlushTurns(s: Socket, expiry: int, ec: Error, out: seq<byte>)
    requires s.Settles()
    ensures s.tick <= Flush(s, expiry, ec, out).socket.tick <= s.tick + s.Patience() + |out| + 1
    decreases s.Patience(), |out|
  {
    if out != [] && s.Turn().now <= expiry {
      var k := s.Takes(out);
      if k > 0 {
        FlushTurns(s.Next().(sent := s.sent + out[..k]), expiry, Clear, out[k..]);
      } else if Blocking(s.Refusal()) && s.Turn().poll.Answered? {
        FlushTurns(s.Next(), expiry, Clear, out);
      }
    }
  }

  /** What underflow receives is the front of what is inbound; nothing received means an error. */
  lemma {:induction false} RefillTakesPrefix(s: Socket, expiry: int)
    requires s.Settles()
    ensures var f := Refill(s, expiry);
            && f.bytes + f.socket.inbound == s.inbound
            && f.socket == s.(tick := f.socket.tick, inbound := f.socket.inbound)
            && (f.bytes == [] <==> f.ec != Clear)
            && s.tick < f.socket.tick <= s.tick + s.Patience() + 1
    decreases s.Patience()
  {
    var k := s.Delivers(BUFFER_SIZE - PUTBACK_MAX);
    if s.Turn().now <= expiry && k == 0 && Blocking(s.Refusal()) && s.Turn().poll.Answered? {
      RefillTakesPrefix(s.Next(), expiry);
    }
  }

  // ----- Exactly when bytes move: a condition on the socket and the kernel's script before the call -----

  /** The kernel moves nothing for now, and the poll that follows is answered. */
  predicate AsksToWait(t: Turn) {
    (t.refusal == Failed(WouldBlock) || t.refusal == Failed(TryAgain)) && t.poll.Answered?
  }

  /** In time, and either willing to move bytes or asking to wait and then answering the poll. */
  predicate Willing(t: Turn, expiry: int) {
    t.now <= expiry && (t.limit > 0 || AsksToWait(t))
  }

  /** How many bytes the kernel offers to move in the n turns from tick on. */
  function Offered(o: Oracle, tick: nat, n: nat): nat
    decreases n
  {
    if n == 0 then 0 else o.at(tick).limit + Offered(o, tick + 1, n - 1)
  }

  /** The n turns from tick on are all willing and offer at least k bytes. */
  ghost predicate Offers(o: Oracle, tick: nat, expiry: int, n: nat, k: nat) {
    (forall i: nat | tick <= i < tick + n :: Willing(o.at(i), expiry)) && k <= Offered(o, tick, n)
  }

  /** The script lets k bytes through before its first late turn, final refusal or failed poll. */
  ghost predicate CanMove(s: Socket, expiry: int, k: nat) {
    k == 0 || (s.open && exists n: nat :: Offers(s.oracle, s.tick, expiry, n, k))
  }

  lemma OffersNext(o: Oracle, tick: nat, expiry: int, n: nat, k: nat)
    requires n > 0 && Offers(o, tick, expiry, n, k)
    ensures Willing(o.at(tick), expiry)
    ensures Offers(o, tick + 1, expiry, n - 1, if o.at(tick).limit <= k then k - o.at(tick).limit else 0)
  {
  }

  lemma OffersFirst(o: Oracle, tick: nat, expiry: int, n: nat, k: nat)
    requires Willing(o.at(tick), expiry) && Offers(o, tick + 1, expiry, n, k)
    ensures Offers(o, tick, expiry, n + 1, o.at(tick).limit + k)
  {
  }

  /** What the script offers is sent. */
  lemma {:induction false} FlushSendsOffered(s: Socket, expiry: int, ec: Error, out: seq<byte>, n: nat, k: nat)
    requires s.Settles() && s.open && k <= |out| && Offers(s.oracle, s.tick, expiry, n, k)
    ensures Gained(s, Flush(s, expiry, ec, out).socket) >= k
    decreases n
  {
    FlushSendsPrefix(s, expiry, ec, out);
    if k > 0 {
      OffersNext(s.oracle, s.tick, expiry, n, k);
      var m := s.Takes(out);
      if m > 0 {
        var rest := if m <= k then k - m else 0;
        FlushSendsOffered(s.Next().(sent := s.sent + out[..m]), expiry, Clear, out[m..], n - 1, rest);
      } else {
        FlushSendsOffered(s.Next(), expiry, Clear, out, n - 1, k);
      }
    }
  }

  /** What is sent, the script had offered. */
  lemma {:induction false} FlushNeedsOffer(s: Socket, expiry: int, ec: Error, out: seq<byte>, k: nat) returns (n: nat)
    requires s.Settles() && 0 < k <= Gained(s, Flush(s, expiry, ec, out).socket)
    ensures s.open && Offers(s.oracle, s.tick, expiry, n, k)
    decreases s.Patience(), |out|
  {
    assert out != [] && Willing(s.Turn(), expiry);
    var m := s.Takes(out);
    if m > 0 {
      var rest := 0;
      if m < k {
        rest := FlushNeedsOffer(s.Next().(sent := s.sent + out[..m]), expiry, Clear, out[m..], k - m);
      } else {
        assert Offers(s.oracle, s.tick + 1, expiry, 0, 0);
      }
      OffersFirst(s.oracle, s.tick, expiry, rest, if m < k then k - m else 0);
      n := rest + 1;
    } else {
      var rest := FlushNeedsOffer(s.Next(), expiry, Clear, out, k);
      OffersFirst(s.oracle, s.tick, expiry, rest, k);
      n := rest + 1;
    }
  }

  /**
   The flush sends at least k of its bytes exactly when the script lets k bytes through. With k the
   whole length this says when a flush succeeds, with k == 1 when it sends anything at all.
   */
  lemma FlushSendsIff(s: Socket, expiry: int, ec: Error, out: seq<byte>, k: nat)
    requires s.Settles() && k <= |out|
    ensures Gained(s, Flush(s, expiry, ec, out).socket) >= k <==> CanMove(s, expiry, k)
  {
    FlushSendsPrefix(s, expiry, ec, out);
    if k > 0 && Gained(s, Flush(s, expiry, ec, out).socket) >= k {
      var n := FlushNeedsOffer(s, expiry, ec, out, k);
    } else if k > 0 && CanMove(s, expiry, k) {
      var n: nat :| Offers(s.oracle, s.tick, expiry, n, k);
      FlushSendsOffered(s, expiry, ec, out, n, k);
    }
  }

  lemma FlushOkIff(s: Socket, expiry: int, ec: Error, out: seq<byte>)
    requires s.Settles()
    ensures Flush(s, expiry, ec, out).ok <==> CanMove(s, expiry, |out|)
    ensures Gained(s, Flush(s, expiry, ec, out).socket) == 0 <==> out == [] || !CanMove(s, expiry, 1)
  {
    FlushSendsPrefix(s, expiry, ec, out);
    FlushSendsIff(s, expiry, ec, out, |out|);
    if out != [] {
      FlushSendsIff(s, expiry, ec, out, 1);
    }
  }

  lemma {:induction false} RefillTakesOffered(s: Socket, expiry: int, n: nat)
    requires s.Settles() && s.open && s.inbound != [] && Offers(s.oracle, s.tick, expiry, n, 1)
    ensures Refill(s, expiry).bytes != []
    decreases n
  {
    OffersNext(s.oracle, s.tick, expiry, n, 1);
    if s.Delivers(BUFFER_SIZE - PUTBACK_MAX) == 0 {
      RefillTakesOffered(s.Next(), expiry, n - 1);
    }
  }

  lemma {:induction false} RefillNeedsOffer(s: Socket, expiry: int) returns (n: nat)
    requires s.Settles() && Refill(s, expiry).bytes != []
    ensures s.open && s.inbound != [] && Offers(s.oracle, s.tick, expiry, n, 1)
    decreases s.Patience()
  {
    if s.Delivers(BUFFER_SIZE - PUTBACK_MAX) > 0 {
      assert Offers(s.oracle, s.tick + 1, expiry, 0, 0);
      OffersFirst(s.oracle, s.tick, expiry, 0, 0);
      n := 1;
    } else {
      var rest := RefillNeedsOffer(s.Next(), expiry);
      assert s.Turn().limit == 0;
      OffersFirst(s.oracle, s.tick, expiry, rest, 1);
      n := rest + 1;
    }
  }

  /** underflow receives something exactly when something is inbound and the script lets a byte through. */
  lemma RefillOkIff(s: Socket, expiry: int)
    requires s.Settles()
    ensures Refill(s, expiry).bytes != [] <==> s.inbound != [] && CanMove(s, expiry, 1)
  {
    if Refill(s, expiry).bytes != [] {
      var n := RefillNeedsOffer(s, expiry);
    } else if s.inbound != [] && CanMove(s, expiry, 1) {
      var n: nat :| Offers(s.oracle, s.tick, expiry, n, 1);
      RefillTakesOffered(s, expiry, n);
    }
  }

  // ----- overflow and underflow -----

  /**
   overflow with a put area. Anything but eof: the wire gained the whole old put area, and the
   put area holds only the new character, if there is one. Eof: the wire gained a proper prefix
   and the put area is unchanged.
   */
  ghost predicate OverflowMeans(r: Rep, c: int, t: Rep, x: int)
    requires r.Valid()
  {
    var n := Gained(r.socket, t.socket);
    && t.Valid() && !t.Unbuffered() && t.Unread() == r.Unread()
    && t.socket == r.socket.(tick := t.socket.tick, sent := t.socket.sent)
    && 0 <= n <= |r.Pending()| && t.socket.sent == r.socket.sent + r.Pending()[..n]
    && (x != EOF ==> n == |r.Pending()| && t.Pending() == if c == EOF then [] else [ToChar(c)])
    && (x == EOF ==> n < |r.Pending()| && t == r.(socket := t.socket, ec := t.ec))
  }

  lemma BufferedOverflow(r: Rep, c: int)
    requires r.Valid() && !r.Unbuffered()
    ensures OverflowMeans(r, c, Overflow(r, c).0, Overflow(r, c).1)
  {
    OverflowKeepsValid(r, c);
    FlushSendsPrefix(r.socket, r.expiry, r.ec, r.Pending());
  }

  /** overflow without a put area: the character goes straight onto the wire, or nothing happens. */
  lemma UnbufferedOverflow(r: Rep, c: int)
    requires r.Valid() && r.Unbuffered()
    ensures var (t, x) := Overflow(r, c);
            && t.Valid() && t == r.(socket := t.socket, ec := t.ec) && t.Pending() == []
            && t.socket == r.socket.(tick := t.socket.tick, sent := t.socket.sent)
            && t.socket.sent == r.socket.sent + if c == EOF || x == EOF then [] else [ToChar(c)]
  {
    OverflowKeepsValid(r, c);
    if c != EOF {
      FlushSendsPrefix(r.socket, r.expiry, r.ec, [ToChar(c)]);
    }
  }

  /**
   overflow succeeds exactly when the script lets through what has to be sent first: the put area,
   or in unbuffered mode the character. It sends nothing exactly when there is nothing to send or
   the script lets no byte through.
   */
  lemma OverflowIff(r: Rep, c: int)
    requires r.Valid()
    ensures var (t, x) := Overflow(r, c);
            var out := if !r.Unbuffered() then r.Pending() else if c == EOF then [] else [ToChar(c)];
            && (x != EOF <==> CanMove(r.socket, r.expiry, |out|))
            && (t.socket.sent == r.socket.sent <==> out == [] || !CanMove(r.socket, r.expiry, 1))
  {
    var out := if !r.Unbuffered() then r.Pending() else if c == EOF then [] else [ToChar(c)];
    FlushSendsPrefix(r.socket, r.expiry, r.ec, out);
    FlushOkIff(r.socket, r.expiry, r.ec, out);
  }

  /**
   Retrying after a failed flush sends the already delivered prefix again. Each byte of the put
   area crosses exactly once precisely when the kernel's script let no byte through at the first
   attempt.
   */
  lemma RetryDuplicates(r: Rep, c: int, c2: int)
    requires r.Valid() && !r.Unbuffered() && !CanMove(r.socket, r.expiry, |r.Pending()|)
    requires var t := Overflow(r, c).0; t.Valid() && CanMove(t.socket, t.expiry, |r.Pending()|)
    ensures Overflow(r, c).1 == EOF && Overflow(Overflow(r, c).0, c2).1 != EOF
    ensures var t := Overflow(r, c).0; var u := Overflow(t, c2).0;
            var n := Gained(r.socket, t.socket);
            && 0 <= n < |r.Pending()|
            && u.socket.sent == r.socket.sent + r.Pending()[..n] + r.Pending()
            && (u.socket.sent == r.socket.sent + r.Pending() <==> !CanMove(r.socket, r.expiry, 1))
  {
    var t := Overflow(r, c).0;
    OverflowIff(r, c);
    BufferedOverflow(r, c);
    OverflowIff(t, c2);
    BufferedOverflow(t, c2);
  }

  /** A kernel that takes one byte, reports an error, and is willing again from then on. */
  const INTERRUPTED: Oracle :=
    Oracle(i => if i == 1 then Turn(0, 0, Failed(System(104)), Answered)
                else Turn(0, if i == 0 then 1 else 2, Zero, Answered), 0)

  /** Two characters put into a new streambuf on such a kernel. */
  ghost function TwoPending(): (r: Rep)
    ensures r.Valid() && !r.Unbuffered() && r.Pending() == [1, 2]
    ensures r.socket == Socket(true, INTERRUPTED, 0, [], []) && r.expiry == MAX_EXPIRY_TIME
  {
    var s := Socket(true, INTERRUPTED, 0, [], []);
    assert Fresh(s).Valid() by { FreshIsValid(s); }
    SPutC(SPutC(Fresh(s), 1).0, 2).0
  }

  /** A new streambuf: 512 bytes each way, 8 of them for putback, no error and no expiry. */
  lemma FreshIsValid(s: Socket)
    requires s.Settles()
    ensures Fresh(s).Valid() && Fresh(s).Unread() == [] && Fresh(s).Pending() == []
    ensures var r := Fresh(s);
            && |r.getBuffer| == 512 && r.gptr == 8 && r.epptr - r.pptr == |r.putBuffer| == 512
            && r.socket == s && r.ec == Clear && r.expiry == 0x7fff_ffff_ffff_ffff
  {
    assert Zeros(BUFFER_SIZE)[..PUTBACK_MAX] == Zeros(PUTBACK_MAX);
  }

  /** A flush that fails part-way, and the retry that duplicates: 1 2 is delivered as 1 1 2. */
  lemma FlushFailsPartWay()
    ensures var (t, x) := Sync(TwoPending());
            && x == EOF && t.Valid() && t.socket.sent == [1] && t.Pending() == [1, 2]
            && var (u, y) := Sync(t); y != EOF && u.socket.sent == [1, 1, 2]
  {
    var r := TwoPending();
    var s := r.socket;
    var s1, s2 := s.(tick := 1, sent := [1]), s.(tick := 2, sent := [1]);
    assert Flush(s, r.expiry, r.ec, [1, 2]) == Flush(s1, r.expiry, Clear, [2]) by {
      assert s.Takes([1, 2]) == 1 && [1, 2][1..] == [2] && [] + [1, 2][..1] == [1];
    }
    assert Flush(s1, r.expiry, Clear, [2]) == Flushed(s2, System(104), false);
    BufferedOverflow(r, EOF);
    var t := Sync(r).0;
    assert t.socket == s2;
    assert Flush(s2, r.expiry, t.ec, [1, 2]).ok by {
      assert s2.Takes([1, 2]) == 2 && [1, 2][2..] == [];
    }
    BufferedOverflow(t, EOF);
  }

  /** underflow on an empty get area moves the received bytes there, and nothing else. */
  lemma UnderflowFills(r: Rep)
    requires r.Valid()
    ensures var (t, x) := Underflow(r);
            && t.Valid() && t.Pending() == r.Pending() && t.putBuffer == r.putBuffer
            && t.socket.sent == r.socket.sent
            && t.Unread() + t.socket.inbound == r.Unread() + r.socket.inbound
            && (x == EOF ==> t == r.(socket := t.socket, ec := t.ec) && t.Unread() == r.Unread())
            && (x != EOF ==> r.Unread() == [] && t.gptr == PUTBACK_MAX < t.egptr && x == t.Unread()[0]
                             && t.getBuffer[t.gptr] == x)
  {
    UnderflowKeepsValid(r);
    if r.gptr == r.egptr {
      RefillTakesPrefix(r.socket, r.expiry);
      var f := Refill(r.socket, r.expiry);
      if f.bytes != [] {
        var t := Underflow(r).0;
        assert t.Unread() == f.bytes;
      }
    }
  }

  /**
   sungetc right after a refill yields a NUL from the putback area, so it restores the character
   read last exactly when that was a NUL.
   */
  lemma PutbackAcrossRefill(r: Rep)
    requires r.Valid() && r.gptr == r.egptr && r.gptr > 0 && Underflow(r).1 != EOF
    ensures Underflow(r).0.Valid() && SUngetC(Underflow(r).0).1 == 0
    ensures SUngetC(Underflow(r).0).1 == SUngetC(r).1 <==> r.getBuffer[r.gptr - 1] == 0
  {
    UnderflowFills(r);
    var t := Underflow(r).0;
    assert t.getBuffer[PUTBACK_MAX - 1] == t.getBuffer[..PUTBACK_MAX][PUTBACK_MAX - 1] == 0;
  }

  /** A kernel that delivers one byte in every turn. */
  const BYTEWISE: Oracle := Oracle(_ => Turn(0, 1, Zero, Answered), 0)

  lemma UnderflowOfOne(r: Rep, b: byte, rest: seq<byte>)
    requires r.Valid() && r.gptr == r.egptr && r.expiry == MAX_EXPIRY_TIME
    requires r.socket.open && r.socket.oracle == BYTEWISE && r.socket.inbound == [b] + rest
    ensures var (t, x) := Underflow(r);
            && t.Valid() && x == b && t.gptr == PUTBACK_MAX && t.egptr == PUTBACK_MAX + 1 && t.getBuffer[t.gptr] == b
            && t.expiry == r.expiry && t.socket == r.socket.Next().(inbound := rest)
  {
    assert r.socket.inbound[..1] == [b] && r.socket.inbound[1..] == rest;
    assert Refill(r.socket, r.expiry).bytes == [b];
    UnderflowFills(r);
  }

  /** A new streambuf on such a kernel, with two bytes inbound. */
  ghost function TwoInbound(): (r: Rep)
    ensures r.Valid()
  {
    FreshIsValid(Socket(true, BYTEWISE, 0, [], [7, 8]));
    Fresh(Socket(true, BYTEWISE, 0, [], [7, 8]))
  }

  /** After 7 has been received and read, sungetc puts it back; once 8 has been received too, a NUL. */
  lemma PutbackForgets()
    ensures var (r, c) := SBumpC(TwoInbound());
            && c == 7 && r.Valid() && SUngetC(r).1 == 7
            && SGetC(r).1 == 8 && SGetC(r).0.Valid() && SUngetC(SGetC(r).0).1 == 0
  {
    assert [7, 8] == [7] + [8] && [8] == [8] + [];
    UnderflowOfOne(TwoInbound(), 7, [8]);
    var r := SBumpC(TwoInbound()).0;
    UnderflowOfOne(r, 8, []);
    PutbackAcrossRefill(r);
  }

  // ----- setbuf, close, move -----

  /** setbuf takes effect exactly for (0, 0) on an empty put area, and moves no byte. */
  lemma SetBufExact(r: Rep, isNull: bool, n: int)
    requires r.Valid()
    ensures var (t, ok) := SetBuf(r, isNull, n);
            && t.Valid() && t.Unread() == r.Unread() && t.Pending() == r.Pending() && t.socket == r.socket
            && (ok <==> isNull && n == 0 && r.Pending() == [])
            && (if ok then t.Unbuffered() else t == r)
            && t.getBuffer == r.getBuffer && t.gptr == r.gptr && t.egptr == r.egptr
            && t.ec == r.ec && t.expiry == r.expiry
  {
  }

  /** sync sends a prefix of the put area, and empties it exactly when that is all of it. */
  lemma SyncExact(r: Rep)
    requires r.Valid()
    ensures var t := Sync(r).0; var n := Gained(r.socket, t.socket);
            && t.Valid() && 0 <= n <= |r.Pending()|
            && t.socket == r.socket.(tick := t.socket.tick, sent := r.socket.sent + r.Pending()[..n])
            && (n == |r.Pending()| <==> CanMove(r.socket, r.expiry, |r.Pending()|))
            && t.Pending() == (if CanMove(r.socket, r.expiry, |r.Pending()|) then [] else r.Pending())
            && t.getBuffer == r.getBuffer && t.gptr == r.gptr && t.egptr == r.egptr && t.expiry == r.expiry
            && |t.putBuffer| == |r.putBuffer|
  {
    OverflowIff(r, EOF);
    if r.Unbuffered() {
      UnbufferedOverflow(r, EOF);
    } else {
      BufferedOverflow(r, EOF);
    }
  }

  /**
   close puts a prefix of the put area onto the wire, the whole of it exactly when the script lets
   that many bytes through; whether it answers this, and the error it leaves, depend on the
   descriptor alone.
   */
  lemma CloseExact(r: Rep, outcome: Error)
    requires r.Valid()
    ensures var t := Close(r, outcome).0; var n := Gained(r.socket, t.socket);
            && t.Valid() && !t.socket.open && 0 <= n <= |r.Pending()|
            && t.socket.sent == r.socket.sent + r.Pending()[..n] && t.socket.inbound == r.socket.inbound
            && (n == |r.Pending()| <==> CanMove(r.socket, r.expiry, |r.Pending()|))
    ensures var (t, ok) := Close(r, outcome);
            && t.ec == (if r.socket.open then outcome else Clear) && (ok <==> t.ec == Clear)
  {
    SyncExact(r);
    InitBuffersExact(DescriptorClosed(Sync(r).0, outcome));
  }

  /** Both areas are emptied: nothing is unread or pending, and the put area has its full size again. */
  lemma InitBuffersExact(r: Rep)
    requires r.Valid()
    ensures var t := InitBuffers(r);
            && t.Valid() && t.Unread() == [] && t.Pending() == []
            && t.gptr == PUTBACK_MAX && t.epptr - t.pptr == |r.putBuffer|
            && t.socket == r.socket && t.ec == r.ec && t.expiry == r.expiry
            && t.getBuffer == r.getBuffer && t.putBuffer == r.putBuffer
  {
  }

  /**
   What close leaves in the buffers: both areas empty when it answers this. When the descriptor
   reports an error, unread input stays, and pending output stays unless all of it was sent.
   */
  lemma CloseLeaves(r: Rep, outcome: Error)
    requires r.Valid()
    ensures var (t, ok) := Close(r, outcome);
            && t.Valid() && t.expiry == r.expiry && t.getBuffer == r.getBuffer && |t.putBuffer| == |r.putBuffer|
            && (if ok then t.Unread() == [] && t.Pending() == [] && t.gptr == PUTBACK_MAX
                else
                  && t.Unread() == r.Unread() && t.gptr == r.gptr
                  && t.Pending() == if CanMove(r.socket, r.expiry, |r.Pending()|) then [] else r.Pending())
  {
    SyncExact(r);
    InitBuffersExact(DescriptorClosed(Sync(r).0, outcome));
  }

  /** close can answer this with a clear error although the character in the put area was lost. */
  lemma CloseCanLoseSilently(b: byte)
    ensures var oracle := Oracle(_ => Turn(0, 0, Failed(System(104)), Answered), 0);
            var r := SPutC(Fresh(Socket(true, oracle, 0, [], [])), b).0;
            && Fresh(Socket(true, oracle, 0, [], [])).Valid() && r.Valid() && r.Pending() == [b]
            && var (t, ok) := Close(r, Clear);
               ok && t.ec == Clear && t.Valid() && t.Pending() == [] && t.socket.sent == []
  {
    var oracle := Oracle(_ => Turn(0, 0, Failed(System(104)), Answered), 0);
    var s := Socket(true, oracle, 0, [], []);
    MovesKeepValid(Fresh(s));
    var r := SPutC(Fresh(s), b).0;
    assert r.Pending() == [b];
    CloseExact(r, Clear);
    CloseLeaves(r, Clear);
  }

  /**
   A move hands over the unread input, the error and the socket; pending output survives exactly
   when there was none, and the put area has no more room than before. The source is left as
   freshly constructed, around a closed socket.
   */
  lemma MoveExact(r: Rep)
    requires r.Valid()
    ensures var t, s := Moved(r), MoveConstructLeaves(r);
            && t.Valid() && t.Unread() == r.Unread() && t.socket == r.socket && t.ec == r.ec
            && t.expiry == r.expiry && t.getBuffer == r.getBuffer && t.gptr == r.gptr && t.putBuffer == r.putBuffer
            && t.Pending() == [] && (t.Pending() == r.Pending() <==> r.pptr == r.pbase)
            && t.epptr - t.pptr == r.epptr - r.pptr
            && s.Valid() && s.Unread() == [] && s.Pending() == [] && s.epptr - s.pptr == BUFFER_SIZE
            && !s.socket.open && s.socket.sent == s.socket.inbound == []
            && s.ec == Clear && s.expiry == MAX_EXPIRY_TIME
  {
    MovesKeepValid(r);
  }

  /** Pending output that is moved never reaches the wire, although the next sync succeeds. */
  lemma MoveDropsPending(r: Rep)
    requires r.Valid()
    ensures Moved(r).Valid()
    ensures Sync(Moved(r)).1 != EOF && Sync(Moved(r)).0.socket == r.socket
  {
    MovesKeepValid(r);
  }

  /** Two characters that were put into a streambuf and then moved with it are lost. */
  lemma MoveLosesOutput()
    ensures TwoPending().Pending() == [1, 2] && Moved(TwoPending()).Valid()
    ensures var (t, x) := Sync(Moved(TwoPending())); x != EOF && t.Valid() && t.Pending() == [] && t.socket.sent == []
  {
    MoveDropsPending(TwoPending());
    BufferedOverflow(Moved(TwoPending()), EOF);
  }

  /**
   Move assignment leaves an empty source of full size, even when the target was unbuffered. On
   the wire of the target's old socket it puts what closing it puts there: a prefix of the put area.
   */
  lemma MoveAssignExact(target: Rep, outcome: Error, other: Rep)
    requires target.Valid() && other.Valid()
    ensures var s := MoveAssignLeaves(target, outcome, other);
            && s.Valid() && s.Unread() == [] && s.Pending() == []
            && s.epptr - s.pptr == BUFFER_SIZE && s.ec == Clear && s.expiry == MAX_EXPIRY_TIME
            && !s.socket.open && s.socket.sent == s.socket.inbound == []
    ensures var closed := Close(target, outcome).0.socket; var n := Gained(target.socket, closed);
            && !closed.open && 0 <= n <= |target.Pending()|
            && closed.sent == target.socket.sent + target.Pending()[..n]
            && (n == |target.Pending()| <==> CanMove(target.socket, target.expiry, |target.Pending()|))
  {
    CloseExact(target, outcome);
    MoveLeavesValid(Close(target, outcome).0, other);
  }
}
