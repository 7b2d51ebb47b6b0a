/** basic_streambuf: one growable array, shifted and extended in place by reserve. */
module Streambuf {
  import opened Chars
  import Spec = StreambufSpec
  import opened StreambufSpec
  import opened StreambufTheorems

  class BasicStreambuf {
    const maxSize: nat
    var buffer: array<byte>
    var eback: int
    var gptr: int
    var egptr: int
    var pptr: int
    var epptr: int

    ghost function Rep(): Area
      reads this, buffer
    {
      Area(maxSize, buffer[..], eback, gptr, egptr, pptr, epptr)
    }

    ghost predicate Valid()
      reads this, buffer
    {
      Rep().Valid()
    }

    constructor (maximumSize: nat)
      ensures Valid() && fresh(buffer)
      ensures Rep() == Initial(maximumSize)
    {
      var pend := Min(maximumSize, BUFFER_DELTA);
      maxSize := maximumSize;
      buffer := new byte[Max(pend, 1)](_ => 0);
      eback, gptr, egptr := 0, 0, 0;
      pptr, epptr := 0, pend;
    }

    function Size(): (r: int)
      requires Valid()
      reads this, buffer
      ensures r == |Rep().Data()| && 0 <= r <= maxSize
    {
      pptr - gptr
    }

    method Data() returns (r: seq<byte>)
      requires Valid()
      ensures r == Rep().Data()
    {
      r := buffer[gptr..pptr];
    }

    /** memmove of the live part of the array to its front, if it is not there. */
    method ShiftToFront()
      requires Valid()
      modifies buffer
      ensures buffer[..] == Shifted(old(Rep()))
    {
      if gptr > 0 {
        forall i | 0 <= i < pptr - gptr {
          buffer[i] := buffer[i + gptr];
        }
      } else {
        ShiftedParts(Rep());
      }
    }

    /** Makes room for n characters behind pptr; false stands for the thrown length_error. */
    method Reserve(n: nat) returns (ok: bool)
      requires Valid()
      modifies this, buffer
      ensures Valid() && (buffer == old(buffer) || fresh(buffer))
      ensures (Rep(), ok) == Spec.Reserve(old(Rep()), n)
    {
      ghost var s := Rep();
      PrepareKeepsValid(s, n);
      var pnext, pend := pptr, epptr;
      if n <= pend - pnext {
        return true;
      }
      ShiftToFront();
      pnext := pnext - gptr;
      if n > pend - pnext {
        if n <= maxSize && pnext <= maxSize - n {
          pend := pnext + n;
          Resize(Max(pend, 1));
        } else {
          return false;
        }
      }
      GrownToOwnLength(Shifted(s));
      assert buffer[..] == Grown(Shifted(s), Max(pend, 1));
      ReserveMakesRoom(s, n, pend);
      SetPositions(pnext, pend);
      return true;
    }

    /** setg and setp after a shift. */
    method SetPositions(pnext: int, pend: int)
      modifies `eback, `gptr, `egptr, `pptr, `epptr
      ensures Rep() == Area(maxSize, buffer[..], 0, 0, pnext, pnext, pend)
    {
      eback, gptr, egptr := 0, 0, pnext;
      pptr, epptr := pnext, pend;
    }

    /** vector::resize to a length that is not smaller: reallocates, copies, zero-fills. */
    method Resize(length: nat)
      requires buffer.Length <= length
      modifies this`buffer
      ensures fresh(buffer)
      ensures buffer[..] == Grown(old(buffer[..]), length)
    {
      var b := new byte[length](_ => 0);
      forall i | 0 <= i < buffer.Length {
        b[i] := buffer[i];
      }
      buffer := b;
    }

    /** prepare(n): the region [start, start + n) of the array, or a thrown length_error. */
    method Prepare(n: nat) returns (reply: Reply, start: int)
      requires Valid()
      modifies this, buffer
      ensures Valid() && (buffer == old(buffer) || fresh(buffer))
      ensures (Rep(), reply) == Step(old(Rep()), Op.Prepare(n))
      ensures reply == LengthError <==> old(Size()) + n > maxSize
      ensures reply == Done ==> start == pptr && Rep().Data() == old(Rep().Data())
      ensures reply == Done ==> gptr <= pptr <= start && start + n <= buffer.Length
    {
      PrepareExact(Rep(), n);
      var ok := Reserve(n);
      reply, start := if ok then Done else LengthError, pptr;
    }

    method Commit(n: nat)
      requires Valid()
      modifies this
      ensures buffer == old(buffer)
      ensures Rep() == CommitArea(old(Rep()), n)
      ensures var m := Min(n, old(epptr - pptr));
              m <= INT_MAX ==> Valid() && Rep().Data() == old(Rep().Data() + Rep().Staged()[..m])
      ensures Valid() <==> StaysInside(old(Rep()), Op.Commit(n))
    {
      CommitExactIff(Rep(), n);
      CountsKeepValid(Rep(), Op.Commit(n), n);
      var m := Min(n, epptr - pptr);
      pptr := pptr + CastToInt(m);
      egptr := pptr;
    }

    method Consume(n: nat)
      requires Valid()
      modifies this
      ensures buffer == old(buffer)
      ensures Rep() == ConsumeArea(old(Rep()), n)
      ensures var m := Min(n, old(Size()));
              m <= INT_MAX ==> Valid() && Rep().Data() == old(Rep().Data()[m..])
      ensures Valid() <==> StaysInside(old(Rep()), Op.Consume(n))
    {
      ConsumeExactIff(Rep(), n);
      CountsKeepValid(Rep(), Op.Consume(n), n);
      if egptr < pptr {
        eback, egptr := 0, pptr;
      }
      var m := n;
      if gptr + m > pptr {
        m := pptr - gptr;
      }
      gptr := gptr + CastToInt(m);
    }

    method Underflow() returns (c: int)
      requires Valid()
      modifies this
      ensures Valid() && buffer == old(buffer)
      ensures (Rep(), Code(c)) == UnderflowArea(old(Rep()))
    {
      if gptr < pptr {
        eback, egptr := 0, pptr;
        c := buffer[gptr];
      } else {
        c := EOF;
      }
    }

    /** Stores one character at pptr and advances it. */
    method StoreNext(b: byte)
      requires Valid() && pptr < epptr
      modifies this`pptr, buffer
      ensures Valid() && Rep() == Append(old(Rep()), b)
    {
      buffer[pptr] := b;
      pptr := pptr + 1;
    }

    /** What overflow reserves when the put area is full. */
    method MakeRoom() returns (ok: bool)
      requires Valid()
      modifies this, buffer
      ensures Valid() && (buffer == old(buffer) || fresh(buffer))
      ensures (Rep(), ok) == Spec.Reserve(old(Rep()), OverflowRoom(old(Rep())))
    {
      var bufferSize := pptr - gptr;
      if bufferSize < maxSize && maxSize - bufferSize < BUFFER_DELTA {
        ok := Reserve(maxSize - bufferSize);
      } else {
        ok := Reserve(BUFFER_DELTA);
      }
    }

    method Overflow(c: int) returns (reply: Reply)
      requires Valid()
      modifies this, buffer
      ensures Valid() && (buffer == old(buffer) || fresh(buffer))
      ensures (Rep(), reply) == OverflowArea(old(Rep()), c)
      ensures c != EOF ==> Appends(Abs(old(Rep())), ToChar(c), c, Abs(Rep()), reply)
    {
      ghost var s := Rep();
      if c != EOF {
        var ok := true;
        if pptr == epptr {
          OverflowHasRoom(s);
          ok := MakeRoom();
        }
        if ok {
          StoreNext(ToChar(c));
          reply := Code(c);
        } else {
          reply := LengthError;
        }
        assert (Rep(), reply) == OverflowArea(s, c);
        OverflowExact(s, c);
      } else {
        reply := Code(NotEof(c));
      }
    }

    method SPutC(b: byte) returns (reply: Reply)
      requires Valid()
      modifies this, buffer
      ensures Valid() && (buffer == old(buffer) || fresh(buffer))
      ensures (Rep(), reply) == Step(old(Rep()), Op.SPutC(b))
    {
      ghost var s := Rep();
      if pptr < epptr {
        StoreNext(b);
        reply := Code(b);
        assert Step(s, Op.SPutC(b)) == (Append(s, b), Code(b));
      } else {
        assert Step(s, Op.SPutC(b)) == OverflowArea(s, b);
        reply := Overflow(b);
      }
    }

    method SGetC() returns (c: int)
      requires Valid()
      modifies this
      ensures Valid() && buffer == old(buffer)
      ensures (Rep(), Code(c)) == Step(old(Rep()), Op.SGetC)
    {
      if gptr < egptr {
        return buffer[gptr];
      }
      c := Underflow();
    }

    method SBumpC() returns (c: int)
      requires Valid()
      modifies this
      ensures Valid() && buffer == old(buffer)
      ensures (Rep(), Code(c)) == Step(old(Rep()), Op.SBumpC)
    {
      if gptr < egptr {
        c := buffer[gptr];
        gptr := gptr + 1;
        return;
      }
      c := Underflow();
      if c != EOF {
        gptr := gptr + 1;
      }
    }

    method SUngetC() returns (c: int)
      requires Valid()
      modifies this
      ensures Valid() && buffer == old(buffer)
      ensures (Rep(), Code(c)) == Step(old(Rep()), Op.SUngetC)
    {
      if eback < gptr {
        gptr := gptr - 1;
        c := buffer[gptr];
      } else {
        c := EOF;
      }
    }
  }
}
