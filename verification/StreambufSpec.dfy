/**
 What each operation of basic_streambuf does to its array and its five offsets, on values.
 The class in Streambuf.dfy is proved to do exactly this in place; StreambufTheorems.dfy
 proves what it means.
 */
module StreambufSpec {
  import opened Chars

  const BUFFER_DELTA: int := 128

  /** The array and the stream positions, as offsets from the start of the array. */
  datatype Area = Area(
    max: nat, buffer: seq<byte>, eback: int, gptr: int, egptr: int, pptr: int, epptr: int)
  {
    predicate Valid() {
      && 0 == eback <= gptr <= egptr <= pptr <= epptr <= max
      && |buffer| == Max(epptr, 1)
    }

    function Size(): int {
      pptr - gptr
    }

    /** data(): the input sequence. */
    function Data(): seq<byte>
      requires Valid()
    {
      buffer[gptr..pptr]
    }

    /** The characters already consumed and still in front of the input sequence. */
    function Past(): seq<byte>
      requires Valid()
    {
      buffer[..gptr]
    }

    /** The put area behind the input sequence. */
    function Staged(): seq<byte>
      requires Valid()
    {
      buffer[pptr..epptr]
    }
  }

  /** What a call answers: a character code, nothing, or a thrown std::length_error. */
  datatype Reply = Code(c: int) | Done | LengthError

  datatype Op =
    | Prepare(n: nat)
    | Store(at: nat, b: byte)
    | Commit(n: nat)
    | Consume(n: nat)
    | SPutC(b: byte)
    | Overflow(c: int)
    | SBumpC
    | SGetC
    | SUngetC

  function Initial(maximumSize: nat): Area {
    var pend := Min(maximumSize, BUFFER_DELTA);
    Area(maximumSize, seq(Max(pend, 1), _ => 0), 0, 0, 0, 0, pend)
  }

  /** vector::resize to a length that is not smaller: new elements are zero. */
  function Grown(b: seq<byte>, length: nat): (r: seq<byte>)
    requires |b| <= length
    ensures |r| == length && b <= r
  {
    b + seq(length - |b|, _ => 0)
  }

  lemma GrownToOwnLength(b: seq<byte>)
    ensures Grown(b, |b|) == b
  {
  }

  /** The array after its live part has been moved to the front. */
  function Shifted(s: Area): (r: seq<byte>)
    requires s.Valid()
    ensures |r| == |s.buffer|
  {
    s.Data() + s.buffer[s.Size()..]
  }

  /** reserve(n), and whether it returned normally. */
  function Reserve(s: Area, n: nat): (Area, bool)
    requires s.Valid()
  {
    if n <= s.epptr - s.pptr then
      (s, true)
    else if s.Size() + n > s.max then
      (s.(buffer := Shifted(s)), false)
    else
      var pend := Max(s.epptr, s.Size() + n);
      (Area(s.max, Grown(Shifted(s), Max(pend, 1)), 0, 0, s.Size(), s.Size(), pend), true)
  }

  lemma ReserveMakesRoom(s: Area, n: nat, pend: int)
    requires s.Valid() && n > s.epptr - s.pptr && s.Size() + n <= s.max && pend == Max(s.epptr, s.Size() + n)
    ensures Reserve(s, n) == (Area(s.max, Grown(Shifted(s), Max(pend, 1)), 0, 0, s.Size(), s.Size(), pend), true)
  {
  }

  function CommitArea(s: Area, n: nat): Area
    requires s.Valid()
  {
    var pptr := s.pptr + CastToInt(Min(n, s.epptr - s.pptr));
    s.(pptr := pptr, egptr := pptr)
  }

  function ConsumeArea(s: Area, n: nat): Area
    requires s.Valid()
  {
    s.(egptr := s.pptr, gptr := s.gptr + CastToInt(Min(n, s.Size())))
  }

  function UnderflowArea(s: Area): (Area, Reply)
    requires s.Valid()
  {
    if s.gptr < s.pptr then
      (s.(egptr := s.pptr), Code(s.buffer[s.gptr]))
    else
      (s, Code(EOF))
  }

  /** Stores one character at pptr and advances. */
  function Append(s: Area, b: byte): Area
    requires s.Valid() && s.pptr < s.epptr
  {
    s.(buffer := s.buffer[s.pptr := b], pptr := s.pptr + 1)
  }

  /** How much overflow reserves when the put area is full. */
  function OverflowRoom(s: Area): nat
    requires s.Valid()
  {
    if s.Size() < s.max && s.max - s.Size() < BUFFER_DELTA then s.max - s.Size() else BUFFER_DELTA
  }

  function OverflowArea(s: Area, c: int): (Area, Reply)
    requires s.Valid()
  {
    if c == EOF then
      (s, Code(NotEof(c)))
    else if s.pptr < s.epptr then
      (Append(s, ToChar(c)), Code(c))
    else
      var (t, ok) := Reserve(s, OverflowRoom(s));
      if ok then (Append(t, ToChar(c)), Code(c)) else (t, LengthError)
  }

  function Step(s: Area, op: Op): (Area, Reply)
    requires s.Valid()
  {
    match op
    case Prepare(n) =>
      var (t, ok) := Reserve(s, n);
      (t, if ok then Done else LengthError)
    case Store(at, b) =>
      // a write through the buffer that prepare returned
      if s.pptr + at < s.epptr then (s.(buffer := s.buffer[s.pptr + at := b]), Done) else (s, Done)
    case Commit(n) =>
      (CommitArea(s, n), Done)
    case Consume(n) =>
      (ConsumeArea(s, n), Done)
    case SPutC(b) =>
      if s.pptr < s.epptr then (Append(s, b), Code(b)) else OverflowArea(s, b)
    case Overflow(c) =>
      OverflowArea(s, c)
    case SBumpC =>
      if s.gptr < s.egptr then
        (s.(gptr := s.gptr + 1), Code(s.buffer[s.gptr]))
      else
        var (t, r) := UnderflowArea(s);
        if r == Code(EOF) then (t, r) else (t.(gptr := t.gptr + 1), r)
    case SGetC =>
      if s.gptr < s.egptr then (s, Code(s.buffer[s.gptr])) else UnderflowArea(s)
    case SUngetC =>
      if s.eback < s.gptr then (s.(gptr := s.gptr - 1), Code(s.buffer[s.gptr - 1])) else (s, Code(EOF))
  }
}
