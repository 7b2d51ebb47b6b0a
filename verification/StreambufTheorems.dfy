/**
 basic_streambuf behaves as a bounded character queue with a put area behind it and consumed
 characters before it, whatever compactions and reallocations reserve performs.
 */
module StreambufTheorems {
  import opened Chars
  import opened Sequences
  import opened StreambufSpec

  // ----- The reference: three sequences and a bound, no offsets -----

  /** past: still available to sungetc; items: the input sequence; staged: the put area. */
  datatype Tape = Tape(max: nat, past: seq<byte>, items: seq<byte>, staged: seq<byte>)

  function Abs(s: Area): Tape
    requires s.Valid()
  {
    Tape(s.max, s.Past(), s.Data(), s.Staged())
  }

  /**
   Making room keeps the input sequence. If there is not room enough the past is forgotten; its
   place and no more than is missing beyond that goes to the put area.
   */
  ghost predicate MadeRoom(q: Tape, n: nat, q2: Tape) {
    && q2.max == q.max && q2.items == q.items
    && (if n <= |q.staged| then q2 == q else q2.past == [] && |q2.staged| == Max(|q.past| + |q.staged|, n))
    && |q2.items| + |q2.staged| <= q.max
  }

  /** What the input sequence becomes when it has been copied g places towards the front, over itself. */
  function Overlapped(d: seq<byte>, g: nat): seq<byte> {
    if 0 < g < |d| then d[g..] + d[|d| - g..] else d
  }

  /**
   A prepare that throws has already copied the items to the start of the past. When they do not
   fit there, the items behind them are overwritten as well.
   */
  function AfterThrow(q: Tape): Tape {
    var g := |q.past|;
    if |q.items| <= g then q.(past := q.items + q.past[|q.items|..])
    else q.(past := q.items[..g], items := Overlapped(q.items, g))
  }

  /** One character goes to the end of the input sequence, or length_error and no change. */
  ghost predicate Appends(q: Tape, b: byte, c: int, q2: Tape, reply: Reply) {
    if |q.items| == q.max then
      q2 == q && reply == LengthError
    else
      && reply == Code(c) && q2.max == q.max && q2.items == q.items + [b]
      && (if q.staged != [] then q2.past == q.past && q2.staged == q.staged[1..]
          else q2.past == [] && |q2.staged| + 1 == Max(|q.past|, Min(BUFFER_DELTA, q.max - |q.items|)))
  }

  /** m characters move from the put area to the items, or back when the cast made m negative. */
  function Committed(q: Tape, m: int): Tape
    requires -|q.items| <= m <= |q.staged|
  {
    if m >= 0 then q.(items := q.items + q.staged[..m], staged := q.staged[m..])
    else q.(items := q.items[..|q.items| + m], staged := q.items[|q.items| + m..] + q.staged)
  }

  /** m items are consumed, or put back when the cast made m negative. */
  function Consumed(q: Tape, m: int): Tape
    requires -|q.past| <= m <= |q.items|
  {
    if m >= 0 then q.(past := q.past + q.items[..m], items := q.items[m..])
    else q.(past := q.past[..|q.past| + m], items := q.past[|q.past| + m..] + q.items)
  }

  ghost predicate TapeStep(q: Tape, op: Op, q2: Tape, reply: Reply) {
    match op
    case Prepare(n) =>
      if |q.items| + n > q.max then q2 == AfterThrow(q) && reply == LengthError
      else MadeRoom(q, n, q2) && reply == Done
    case Store(at, b) =>
      reply == Done && q2 == if at < |q.staged| then q.(staged := q.staged[at := b]) else q
    case Commit(n) =>
      var m := CastToInt(Min(n, |q.staged|));
      reply == Done && -|q.items| <= m <= |q.staged| && q2 == Committed(q, m)
    case Consume(n) =>
      var m := CastToInt(Min(n, |q.items|));
      reply == Done && -|q.past| <= m <= |q.items| && q2 == Consumed(q, m)
    case SPutC(b) =>
      Appends(q, b, b, q2, reply)
    case Overflow(c) =>
      if c == EOF then q2 == q && reply == Code(0) else Appends(q, ToChar(c), c, q2, reply)
    case SBumpC =>
      if q.items == [] then q2 == q && reply == Code(EOF)
      else reply == Code(q.items[0]) && q2 == q.(past := q.past + [q.items[0]], items := q.items[1..])
    case SGetC =>
      q2 == q && reply == Code(if q.items == [] then EOF else q.items[0])
    case SUngetC =>
      if q.past == [] then q2 == q && reply == Code(EOF)
      else
        var last := q.past[|q.past| - 1];
        && reply == Code(last)
        && q2 == q.(past := q.past[..|q.past| - 1], items := [last] + q.items)
  }

  /**
   The count that commit or consume casts to int keeps the offset it moves inside the array; in
   the other case pbump or gbump leaves the array, which is undefined in C++.
   */
  predicate StaysInside(s: Area, op: Op)
    requires s.Valid()
  {
    match op
    case Commit(n) => -s.Size() <= CastToInt(Min(n, s.epptr - s.pptr))
    case Consume(n) => -s.gptr <= CastToInt(Min(n, s.Size()))
    case _ => true
  }

  // ----- Single steps -----

  lemma CastExact(n: nat)
    ensures CastToInt(n) == n <==> n <= INT_MAX
    ensures CastToInt(n) <= n
  {
  }

  lemma ReserveSucceeds(s: Area, n: nat)
    requires s.Valid() && s.Size() + n <= s.max
    ensures var (t, ok) := Reserve(s, n); ok && t.Valid() && MadeRoom(Abs(s), n, Abs(t))
  {
    var t := Reserve(s, n).0;
    if n > s.epptr - s.pptr {
      var k := s.Size();
      ShiftedParts(s);
      assert t.Data() == t.buffer[..k] == Shifted(s)[..k];
    }
  }

  lemma ShiftedParts(s: Area)
    requires s.Valid()
    ensures var b, k := Shifted(s), s.Size();
            && |b| == |s.buffer| && b[..k] == s.Data() && b[k..] == s.buffer[k..]
            && (s.gptr == 0 ==> b == s.buffer)
  {
  }

  /** The shift does not reach the live range. */
  lemma ShiftInPast(s: Area)
    requires s.Valid() && s.Size() <= s.gptr
    ensures var b, k := Shifted(s), s.Size();
            b[..s.gptr] == s.Data() + s.Past()[k..] && b[s.gptr..s.pptr] == s.Data()
  {
    var b, k := Shifted(s), s.Size();
    ShiftedParts(s);
    TakeTo(b, k, s.gptr);
    SameTail(b, s.buffer, k, k, s.gptr);
    TakeDrop(s.buffer, k, s.gptr);
    SameTail(b, s.buffer, k, s.gptr, s.pptr);
  }

  /** The shift overwrites the front of the live range. */
  lemma ShiftOverlaps(s: Area)
    requires s.Valid() && s.gptr < s.Size()
    ensures var b := Shifted(s);
            b[..s.gptr] == s.Data()[..s.gptr] && b[s.gptr..s.pptr] == Overlapped(s.Data(), s.gptr)
  {
    var b, k, g := Shifted(s), s.Size(), s.gptr;
    ShiftedParts(s);
    assert b[..g] == b[..k][..g];
    TakeDrop(b, g, k);
    SplitSlice(b, g, k, s.pptr);
    SplitSlice(s.buffer, g, k, s.pptr);
    SameTail(b, s.buffer, k, k, s.pptr);
  }

  lemma ShiftIsAfterThrow(s: Area)
    requires s.Valid()
    ensures var t := s.(buffer := Shifted(s)); t.Valid() && Abs(t) == AfterThrow(Abs(s))
  {
    var t := s.(buffer := Shifted(s));
    ShiftKeepsStaged(s);
    if s.Size() <= s.gptr { ShiftInPast(s); } else { ShiftOverlaps(s); }
  }

  lemma ShiftKeepsStaged(s: Area)
    requires s.Valid()
    ensures Shifted(s)[s.pptr..s.epptr] == s.Staged()
  {
    ShiftedParts(s);
    SameTail(Shifted(s), s.buffer, s.Size(), s.pptr, s.epptr);
  }

  lemma ReserveThrows(s: Area, n: nat)
    requires s.Valid() && s.Size() + n > s.max
    ensures Reserve(s, n) == (s.(buffer := Shifted(s)), false)
    ensures s.(buffer := Shifted(s)).Valid() && Abs(s.(buffer := Shifted(s))) == AfterThrow(Abs(s))
  {
    ShiftIsAfterThrow(s);
  }

  lemma AppendAppends(s: Area, b: byte)
    requires s.Valid() && s.pptr < s.epptr
    ensures var t := Append(s, b);
            && t.Valid()
            && Abs(t) == Abs(s).(items := s.Data() + [b], staged := s.Staged()[1..])
  {
    var t := Append(s, b);
    assert t.Data() == s.Data() + [b];
    assert t.Staged() == s.Staged()[1..];
    assert t.Past() == s.Past();
  }

  /** A full put area with room left: reserve makes some, then the character is appended. */
  lemma OverflowGrows(s: Area, b: byte)
    requires s.Valid() && s.pptr == s.epptr && s.Size() < s.max
    ensures var (t, ok) := Reserve(s, OverflowRoom(s));
            && ok && t.Valid() && t.pptr < t.epptr && Append(t, b).Valid() && t.max == s.max
            && t.Data() == s.Data() && t.Past() == [] && Append(t, b).Past() == []
            && Append(t, b).Data() == s.Data() + [b]
  {
    ReserveSucceeds(s, OverflowRoom(s));
    AppendAppends(Reserve(s, OverflowRoom(s)).0, b);
  }

  /** The room overflow makes: the place of the consumed characters, at least 128 if max_size() allows. */
  lemma RoomMade(s: Area)
    requires s.Valid() && s.pptr == s.epptr && s.Size() < s.max
    ensures var t := Reserve(s, OverflowRoom(s)).0;
            t.Valid() && |t.Staged()| == Max(s.gptr, Min(BUFFER_DELTA, s.max - s.Size()))
  {
    ReserveSucceeds(s, OverflowRoom(s));
    assert |s.Past()| == s.gptr && |s.Staged()| == 0;
  }

  lemma GrowthAppends(s: Area, c: int)
    requires s.Valid() && c != EOF && s.pptr == s.epptr && s.Size() < s.max
    ensures var (t, r) := OverflowArea(s, c);
            t.Valid() && r == Code(c) && Appends(Abs(s), ToChar(c), c, Abs(t), r)
  {
    OverflowGrows(s, ToChar(c));
    RoomMade(s);
    AppendAppends(Reserve(s, OverflowRoom(s)).0, ToChar(c));
    assert |s.Past()| == s.gptr && |s.Data()| == s.Size() && s.Staged() == [];
  }

  /** A full put area at the maximum size: reserve throws before it has shifted anything. */
  lemma OverflowThrows(s: Area)
    requires s.Valid() && s.pptr == s.epptr && s.Size() == s.max
    ensures Reserve(s, OverflowRoom(s)) == (s, false)
  {
    ReserveThrows(s, OverflowRoom(s));
    ShiftedParts(s);
  }

  lemma OverflowHasRoom(s: Area)
    requires s.Valid() && s.pptr == s.epptr
    ensures var (t, ok) := Reserve(s, OverflowRoom(s)); ok ==> t.Valid() && t.pptr < t.epptr
  {
    if s.Size() == s.max { OverflowThrows(s); } else { OverflowGrows(s, 0); }
  }

  /**
   overflow with a real character succeeds exactly when size() < max_size(), and then
   appends; when it throws nothing at all has changed.
   */
  lemma OverflowExact(s: Area, c: int)
    requires s.Valid() && c != EOF
    ensures var (t, r) := OverflowArea(s, c);
            && t.Valid()
            && Appends(Abs(s), ToChar(c), c, Abs(t), r)
            && (r == LengthError <==> s.Size() == s.max)
            && (r == LengthError ==> t == s)
  {
    if s.pptr < s.epptr {
      AppendAppends(s, ToChar(c));
    } else if s.Size() == s.max {
      OverflowThrows(s);
    } else {
      GrowthAppends(s, c);
    }
  }

  lemma PrepareKeepsValid(s: Area, n: nat)
    requires s.Valid()
    ensures Step(s, Prepare(n)).0.Valid() && Step(s, Prepare(n)).0.max == s.max
  {
    if s.Size() + n <= s.max { ReserveSucceeds(s, n); } else { ReserveThrows(s, n); }
  }

  lemma CharKeepsValid(s: Area, op: Op, c: int)
    requires s.Valid() && (op == Overflow(c) || (op.SPutC? && c == op.b))
    ensures Step(s, op).0.Valid() && Step(s, op).0.max == s.max
  {
    if c != EOF {
      if s.pptr < s.epptr { AppendAppends(s, ToChar(c)); } else { OverflowExact(s, c); }
    }
  }

  lemma CountsKeepValid(s: Area, op: Op, n: nat)
    requires s.Valid() && (op == Commit(n) || op == Consume(n))
    ensures Step(s, op).0.Valid() <==> StaysInside(s, op)
    ensures Step(s, op).0.max == s.max
  {
    CastExact(Min(n, s.epptr - s.pptr));
    CastExact(Min(n, s.Size()));
  }

  /**
   The representation invariant survives every operation, thrown exceptions included, except a
   commit or consume whose cast count takes the offset out of the array.
   */
  lemma StepKeepsValid(s: Area, op: Op)
    requires s.Valid()
    ensures Step(s, op).0.Valid() <==> StaysInside(s, op)
    ensures Step(s, op).0.max == s.max
  {
    match op
    case Prepare(n) => PrepareKeepsValid(s, n);
    case Store(at, b) =>
    case Commit(n) => CountsKeepValid(s, op, n);
    case Consume(n) => CountsKeepValid(s, op, n);
    case SPutC(b) => CharKeepsValid(s, op, b);
    case Overflow(c) => CharKeepsValid(s, op, c);
    case SBumpC =>
    case SGetC =>
    case SUngetC =>
  }

  lemma PrepareRefines(s: Area, n: nat)
    requires s.Valid()
    ensures var (t, r) := Step(s, Prepare(n)); t.Valid() && TapeStep(Abs(s), Prepare(n), Abs(t), r)
  {
    if s.Size() + n <= s.max { ReserveSucceeds(s, n); } else { ReserveThrows(s, n); }
  }

  lemma SPutCIsOverflow(s: Area, b: byte)
    requires s.Valid()
    ensures Step(s, SPutC(b)) == OverflowArea(s, b)
  {
  }

  lemma CharAppends(s: Area, b: byte)
    requires s.Valid()
    ensures var (t, r) := OverflowArea(s, b); t.Valid() && Appends(Abs(s), b, b, Abs(t), r)
  {
    assert ToChar(b) == b;
    OverflowExact(s, b);
  }

  lemma SPutCRefines(s: Area, b: byte)
    requires s.Valid()
    ensures var (t, r) := Step(s, SPutC(b)); t.Valid() && TapeStep(Abs(s), SPutC(b), Abs(t), r)
  {
    CharAppends(s, b);
    SPutCIsOverflow(s, b);
  }

  lemma OverflowRefines(s: Area, c: int)
    requires s.Valid()
    ensures var (t, r) := Step(s, Overflow(c)); t.Valid() && TapeStep(Abs(s), Overflow(c), Abs(t), r)
  {
    if c != EOF { OverflowExact(s, c); }
  }

  lemma StoreRefines(s: Area, at: nat, b: byte)
    requires s.Valid()
    ensures var (t, r) := Step(s, Store(at, b)); t.Valid() && TapeStep(Abs(s), Store(at, b), Abs(t), r)
  {
    var t := Step(s, Store(at, b)).0;
    assert t.Past() == s.Past() && t.Data() == s.Data();
    assert t.Staged() == if at < |s.Staged()| then s.Staged()[at := b] else s.Staged();
  }

  lemma CommitMoves(s: Area, m: int)
    requires s.Valid() && -s.Size() <= m <= s.epptr - s.pptr
    ensures var t := s.(pptr := s.pptr + m, egptr := s.pptr + m); t.Valid() && Abs(t) == Committed(Abs(s), m)
  {
    MoveCut(s.buffer, s.gptr, s.pptr, s.epptr, m);
  }

  lemma CommitIsMove(s: Area, n: nat, m: int)
    requires s.Valid() && m == CastToInt(Min(n, s.epptr - s.pptr))
    ensures Step(s, Commit(n)) == (s.(pptr := s.pptr + m, egptr := s.pptr + m), Done)
  {
  }

  lemma CommitRefines(s: Area, n: nat)
    requires s.Valid() && StaysInside(s, Commit(n))
    ensures var (t, r) := Step(s, Commit(n)); t.Valid() && TapeStep(Abs(s), Commit(n), Abs(t), r)
  {
    assert |s.Staged()| == s.epptr - s.pptr && |s.Data()| == s.Size();
    var k := Min(n, |s.Staged()|);
    CastExact(k);
    CommitIsMove(s, n, CastToInt(k));
    CommitMoves(s, CastToInt(k));
  }

  lemma ConsumeMoves(s: Area, m: int)
    requires s.Valid() && -s.gptr <= m <= s.Size()
    ensures var t := s.(gptr := s.gptr + m, egptr := s.pptr); t.Valid() && Abs(t) == Consumed(Abs(s), m)
  {
    var g := s.gptr + m;
    if m >= 0 {
      TakeTo(s.buffer, s.gptr, g);
      SplitSlice(s.buffer, s.gptr, g, s.pptr);
    } else {
      TakeTo(s.buffer, g, s.gptr);
      SplitSlice(s.buffer, g, s.gptr, s.pptr);
    }
  }

  lemma ConsumeIsMove(s: Area, n: nat, m: int)
    requires s.Valid() && m == CastToInt(Min(n, s.Size()))
    ensures Step(s, Consume(n)) == (s.(gptr := s.gptr + m, egptr := s.pptr), Done)
  {
  }

  lemma ConsumeRefines(s: Area, n: nat)
    requires s.Valid() && StaysInside(s, Consume(n))
    ensures var (t, r) := Step(s, Consume(n)); t.Valid() && TapeStep(Abs(s), Consume(n), Abs(t), r)
  {
    assert |s.Past()| == s.gptr && |s.Data()| == s.Size();
    var k := Min(n, |s.Data()|);
    CastExact(k);
    ConsumeIsMove(s, n, CastToInt(k));
    ConsumeMoves(s, CastToInt(k));
  }

  lemma SBumpCRefines(s: Area)
    requires s.Valid()
    ensures var (t, r) := Step(s, SBumpC); t.Valid() && TapeStep(Abs(s), SBumpC, Abs(t), r)
  {
    if s.gptr < s.pptr {
      SliceHead(s.buffer, s.gptr, s.pptr);
      assert s.Data()[1..] == s.buffer[s.gptr + 1..s.pptr];
    }
  }

  lemma LastOfPast(s: Area)
    requires s.Valid() && 0 < s.gptr
    ensures var t, last := s.(gptr := s.gptr - 1), s.buffer[s.gptr - 1];
            && t.Valid() && s.Past()[|s.Past()| - 1] == last
            && Abs(t) == Abs(s).(past := s.Past()[..|s.Past()| - 1], items := [last] + s.Data())
  {
    assert |s.Past()| == s.gptr;
    TakeAllButLast(s.buffer, s.gptr);
    SplitSlice(s.buffer, s.gptr - 1, s.gptr, s.pptr);
    assert s.buffer[s.gptr - 1..s.gptr] == [s.buffer[s.gptr - 1]];
  }

  lemma SUngetCRefines(s: Area)
    requires s.Valid()
    ensures var (t, r) := Step(s, SUngetC); t.Valid() && TapeStep(Abs(s), SUngetC, Abs(t), r)
  {
    assert |s.Past()| == s.gptr;
    if 0 < s.gptr { LastOfPast(s); }
  }

  /**
   Every operation, thrown exceptions and truncated counts included, does to the three sequences
   what the reference says, as long as it stays inside the array.
   */
  lemma StepRefines(s: Area, op: Op)
    requires s.Valid() && StaysInside(s, op)
    ensures var (t, r) := Step(s, op); t.Valid() && TapeStep(Abs(s), op, Abs(t), r)
  {
    match op
    case Store(at, b) => StoreRefines(s, at, b);
    case Commit(n) => CommitRefines(s, n);
    case Consume(n) => ConsumeRefines(s, n);
    case Prepare(n) => PrepareRefines(s, n);
    case SPutC(b) => SPutCRefines(s, b);
    case Overflow(c) => OverflowRefines(s, c);
    case SBumpC => SBumpCRefines(s);
    case SUngetC => SUngetCRefines(s);
    case SGetC =>
  }

  // ----- The array and its initial state -----

  /** A new buffer: empty, with min(max_size, 128) characters of put area, at least one element. */
  lemma InitialExact(max: nat)
    ensures var s := Initial(max);
            && s.Valid() && s.max == max && s.Past() == [] && s.Data() == []
            && |s.Staged()| == (if max < 128 then max else 128) && |s.buffer| == (if max == 0 then 1 else |s.Staged()|)
  {
  }

  /**
   Making room moves the live characters to the front of the array, leaves what is behind them
   alone and extends the array by zeros, just as far as the put area reaches.
   */
  lemma ReserveArray(s: Area, n: nat)
    requires s.Valid() && s.epptr - s.pptr < n && s.Size() + n <= s.max
    ensures var t, k := Reserve(s, n).0, s.Size();
            && t.Valid() && t.gptr == 0 && t.egptr == t.pptr == k && |s.buffer| <= |t.buffer|
            && t.buffer[..k] == s.Data() && t.buffer[k..|s.buffer|] == s.buffer[k..]
            && forall i | |s.buffer| <= i < |t.buffer| :: t.buffer[i] == 0
  {
    var t, k := Reserve(s, n).0, s.Size();
    ShiftedParts(s);
    var b := Shifted(s);
    assert t.buffer[..|s.buffer|] == b;
    assert t.buffer[..k] == b[..k] && t.buffer[k..|s.buffer|] == b[k..];
  }

  // ----- Whole runs -----

  /** A run, up to the first step that would take an offset out of the array. */
  function Run(s: Area, ops: seq<Op>): (Area, seq<Reply>)
    requires s.Valid()
    decreases |ops|
  {
    if ops == [] || !Step(s, ops[0]).0.Valid() then
      (s, [])
    else
      var (t, r) := Step(s, ops[0]);
      var (u, rs) := Run(t, ops[1..]);
      (u, [r] + rs)
  }

  ghost predicate TapeRun(q: Tape, ops: seq<Op>, replies: seq<Reply>, q2: Tape)
    decreases |replies|
  {
    if replies == [] then
      q2 == q
    else
      && ops != []
      && exists mid :: TapeStep(q, ops[0], mid, replies[0]) && TapeRun(mid, ops[1..], replies[1..], q2)
  }

  /** Every run, with all its answers, is a run of the reference. */
  lemma {:induction false} RunRefines(s: Area, ops: seq<Op>)
    requires s.Valid()
    ensures var (t, rs) := Run(s, ops); t.Valid() && TapeRun(Abs(s), ops, rs, Abs(t))
    decreases |ops|
  {
    if ops != [] && Step(s, ops[0]).0.Valid() {
      var (t, r) := Step(s, ops[0]);
      StepKeepsValid(s, ops[0]);
      StepRefines(s, ops[0]);
      RunRefines(t, ops[1..]);
      var (u, rs) := Run(t, ops[1..]);
      assert ([r] + rs)[1..] == rs;
      assert TapeStep(Abs(s), ops[0], Abs(t), r) && TapeRun(Abs(t), ops[1..], rs, Abs(u));
    }
  }

  /**
   Every reachable state is valid, whatever throws on the way, and size() <= max_size(). Runs are
   cut short exactly by a count whose cast leaves the array.
   */
  lemma {:induction false} RunKeepsInvariant(max: nat, ops: seq<Op>)
    ensures Initial(max).Valid()
    ensures var t := Run(Initial(max), ops).0; t.Valid() && t.max == max && t.Size() <= max
    ensures var (t, rs) := Run(Initial(max), ops);
            t.Valid() && (|rs| == |ops| || (|rs| < |ops| && !StaysInside(t, ops[|rs|])))
  {
    RunKeepsValid(Initial(max), ops);
  }

  lemma {:induction false} RunKeepsValid(s: Area, ops: seq<Op>)
    requires s.Valid()
    ensures var (t, rs) := Run(s, ops);
            && t.Valid() && t.max == s.max
            && (|rs| == |ops| || (|rs| < |ops| && !StaysInside(t, ops[|rs|])))
    decreases |ops|
  {
    if ops != [] {
      StepKeepsValid(s, ops[0]);
      if Step(s, ops[0]).0.Valid() {
        RunKeepsValid(Step(s, ops[0]).0, ops[1..]);
      }
    }
  }

  /** With a maximum size that fits an int no run is ever cut short. */
  lemma {:induction false} SmallBufferFits(s: Area, ops: seq<Op>)
    requires s.Valid() && s.max <= INT_MAX
    ensures |Run(s, ops).1| == |ops|
    decreases |ops|
  {
    RunKeepsValid(s, ops);
    if ops != [] {
      StepKeepsValid(s, ops[0]);
      SmallBufferFits(Step(s, ops[0]).0, ops[1..]);
    }
  }

  // ----- prepare: exactly when it throws, and what it leaves behind -----

  /** prepare throws exactly when size() + n > max_size(); otherwise it hands out n characters. */
  lemma PrepareExact(s: Area, n: nat)
    requires s.Valid()
    ensures var (t, r) := Step(s, Prepare(n));
            && t.Valid()
            && (r == LengthError <==> s.Size() + n > s.max)
            && (r == Done ==> t.Data() == s.Data() && t.pptr + n <= t.epptr <= |t.buffer|)
  {
    if s.Size() + n <= s.max { ReserveSucceeds(s, n); } else { ReserveThrows(s, n); }
  }

  function StoreAll(s: Area, at: nat, data: seq<byte>): Area
    requires s.Valid()
    decreases |data|
  {
    if data == [] then s else StoreAll(Step(s, Store(at, data[0])).0, at + 1, data[1..])
  }

  lemma StoredFirst(b: seq<byte>, c: seq<byte>, start: nat, x: byte, rest: seq<byte>)
    requires start + 1 + |rest| <= |b| == |c|
    requires c[..start + 1] == b[start := x][..start + 1] && c[start + 1..start + 1 + |rest|] == rest
    ensures c[..start] == b[..start] && c[start..start + 1 + |rest|] == [x] + rest
  {
    assert c[..start] == c[..start + 1][..start] == b[start := x][..start + 1][..start] == b[..start];
    assert c[start] == c[..start + 1][start] == x;
    SliceHead(c, start, start + 1 + |rest|);
  }

  lemma {:induction false} StoreAllStages(s: Area, at: nat, data: seq<byte>)
    requires s.Valid() && at + |data| <= s.epptr - s.pptr
    ensures var t, start := StoreAll(s, at, data), s.pptr + at;
            && t == s.(buffer := t.buffer) && t.Valid()
            && t.buffer[..start] == s.buffer[..start] && t.buffer[start..start + |data|] == data
    decreases |data|
  {
    if data != [] {
      var u := Step(s, Store(at, data[0])).0;
      StoreAllStages(u, at + 1, data[1..]);
      StoredFirst(s.buffer, StoreAll(s, at, data).buffer, s.pptr + at, data[0], data[1..]);
    }
  }

  /**
   prepare(n), fill the region, commit(k) with k <= n: exactly the first k characters stored are
   appended, if and only if k fits an int.
   */
  lemma PrepareFillCommit(s: Area, n: nat, data: seq<byte>, k: nat)
    requires s.Valid() && s.Size() + n <= s.max && |data| == n && k <= n
    ensures Reserve(s, n).0.Valid() && |Reserve(s, n).0.Staged()| >= n
    ensures var t := StoreAll(Reserve(s, n).0, 0, data);
            && t.Valid()
            && (CommitArea(t, k).Valid() && CommitArea(t, k).Data() == s.Data() + data[..k] <==> k <= INT_MAX)
  {
    ReserveSucceeds(s, n);
    FillCommit(Reserve(s, n).0, data, k);
  }

  lemma FilledParts(s: Area, data: seq<byte>, k: nat)
    requires s.Valid() && k <= |data| <= |s.Staged()|
    ensures var t := StoreAll(s, 0, data);
            && t.Valid() && t.Data() == s.Data() && |t.Staged()| == |s.Staged()| && t.Staged()[..k] == data[..k]
  {
    var t := StoreAll(s, 0, data);
    StoreAllStages(s, 0, data);
    SplitSlice(t.buffer, s.pptr, s.pptr + |data|, s.epptr);
    assert t.Staged()[..|data|] == data;
    TakeDrop(t.buffer, s.gptr, s.pptr);
    TakeDrop(s.buffer, s.gptr, s.pptr);
  }

  lemma FillCommit(s: Area, data: seq<byte>, k: nat)
    requires s.Valid() && k <= |data| <= |s.Staged()|
    ensures var t := StoreAll(s, 0, data);
            && t.Valid()
            && (CommitArea(t, k).Valid() && CommitArea(t, k).Data() == s.Data() + data[..k] <==> k <= INT_MAX)
  {
    FilledParts(s, data, k);
    CommitExactIff(StoreAll(s, 0, data), k);
  }

  /**
   A throwing prepare leaves every offset alone and the old input sequence at the start of the
   array; what data() then denotes is that sequence unless the shift overlapped it, and in that
   case its first gptr characters are lost and its last gptr ones doubled.
   */
  lemma ThrowingPrepareLeaves(s: Area, n: nat)
    requires s.Valid() && s.Size() + n > s.max
    ensures var t := Step(s, Prepare(n)).0;
            && t.Valid() && t == s.(buffer := t.buffer)
            && t.buffer[..s.Size()] == s.Data()
            && t.Data() == Overlapped(s.Data(), s.gptr)
  {
    ReserveThrows(s, n);
    ShiftedParts(s);
  }

  predicate DataSurvives(s: Area, n: nat)
    requires s.Valid()
  {
    var t := Step(s, Prepare(n)).0;
    t.Valid() && t.Data() == s.Data()
  }

  lemma OverlapDamages(s: Area, n: nat)
    requires s.Valid() && s.Size() + n > s.max && 0 < s.gptr < s.Size()
    requires s.buffer[s.gptr] != s.buffer[2 * s.gptr]
    ensures !DataSurvives(s, n)
  {
    ThrowingPrepareLeaves(s, n);
    assert Step(s, Prepare(n)).0.Data()[0] == s.Data()[s.gptr] == s.buffer[2 * s.gptr];
    assert s.Data()[0] == s.buffer[s.gptr];
  }

  lemma BenignShift(s: Area, n: nat)
    requires s.Valid() && s.Size() + n > s.max && (s.gptr == 0 || s.Size() <= s.gptr)
    ensures DataSurvives(s, n)
  {
    ThrowingPrepareLeaves(s, n);
  }

  function Marked(length: nat, at: nat): seq<byte> {
    seq(length, i => if i == at then 1 else 0)
  }

  /** Whatever the array holds, data() survives a throwing prepare: exactly at these offsets. */
  lemma ThrowingPrepareIntactIff(max: nat, gptr: int, egptr: int, pptr: int, epptr: int, n: nat)
    requires 0 <= gptr <= egptr <= pptr <= epptr <= max && pptr - gptr + n > max
    ensures (forall b: seq<byte> | |b| == Max(epptr, 1) ::
               DataSurvives(Area(max, b, 0, gptr, egptr, pptr, epptr), n))
            <==> gptr == 0 || pptr - gptr <= gptr
  {
    if 0 < gptr < pptr - gptr {
      var b := Marked(Max(epptr, 1), gptr);
      OverlapDamages(Area(max, b, 0, gptr, egptr, pptr, epptr), n);
    } else {
      forall b: seq<byte> | |b| == Max(epptr, 1)
        ensures DataSurvives(Area(max, b, 0, gptr, egptr, pptr, epptr), n)
      {
        BenignShift(Area(max, b, 0, gptr, egptr, pptr, epptr), n);
      }
    }
  }

  /**
   A buffer of four characters, filled and read once: prepare(2) throws and turns the input
   sequence 2 3 4 into 3 4 4.
   */
  lemma ThrowDamagesReachableInput()
    ensures var ops := [SPutC(1), SPutC(2), SPutC(3), SPutC(4), SBumpC];
            var s := Run(Initial(4), ops).0;
            && s.Valid() && s.Data() == [2, 3, 4]
            && var (t, r) := Step(s, Prepare(2)); r == LengthError && t.Valid() && t.Data() == [3, 4, 4]
  {
    FourPutsAndAGet();
    var s := Area(4, [1, 2, 3, 4], 0, 1, 4, 4, 4);
    ThrowingPrepareLeaves(s, 2);
    assert s.Data() == [2, 3, 4];
    assert Overlapped([2, 3, 4], 1) == [3, 4, 4];
  }

  lemma FourPutsAndAGet()
    ensures Run(Initial(4), [SPutC(1), SPutC(2), SPutC(3), SPutC(4), SBumpC]).0
            == Area(4, [1, 2, 3, 4], 0, 1, 4, 4, 4)
  {
    var s1, s2 := Area(4, [1, 0, 0, 0], 0, 0, 0, 1, 4), Area(4, [1, 2, 0, 0], 0, 0, 0, 2, 4);
    var s3, s4 := Area(4, [1, 2, 3, 0], 0, 0, 0, 3, 4), Area(4, [1, 2, 3, 4], 0, 0, 0, 4, 4);
    assert Initial(4).buffer == [0, 0, 0, 0];
    var rest := [SBumpC];
    RunFirstGet(s4);
    RunPut(s3, 4, s4, rest);
    rest := [SPutC(4)] + rest;
    RunPut(s2, 3, s3, rest);
    rest := [SPutC(3)] + rest;
    RunPut(s1, 2, s2, rest);
    rest := [SPutC(2)] + rest;
    RunPut(Initial(4), 1, s1, rest);
    assert [SPutC(1)] + rest == [SPutC(1), SPutC(2), SPutC(3), SPutC(4), SBumpC];
  }

  lemma RunOne(s: Area, op: Op, rest: seq<Op>)
    requires s.Valid() && Step(s, op).0.Valid()
    ensures Run(s, [op] + rest).0 == Run(Step(s, op).0, rest).0
  {
    assert ([op] + rest)[1..] == rest;
  }

  lemma RunPut(s: Area, b: byte, t: Area, rest: seq<Op>)
    requires s.Valid() && t.Valid() && s.pptr < s.epptr && Append(s, b) == t
    ensures Run(s, [SPutC(b)] + rest).0 == Run(t, rest).0
  {
    RunOne(s, SPutC(b), rest);
  }

  lemma RunFirstGet(s: Area)
    requires s.Valid() && s.gptr == s.egptr < s.pptr
    ensures Run(s, [SBumpC]).0 == s.(gptr := s.gptr + 1, egptr := s.pptr)
  {
    RunOne(s, SBumpC, []);
    assert [SBumpC] + [] == [SBumpC];
  }

  // ----- The casts to int -----

  /** commit appends the characters it was asked for exactly when their count fits an int. */
  lemma CommitExactIff(s: Area, n: nat)
    requires s.Valid()
    ensures var m := Min(n, |s.Staged()|);
            (CommitArea(s, n).Valid() && CommitArea(s, n).Data() == s.Data() + s.Staged()[..m])
            <==> m <= INT_MAX
  {
    assert |s.Staged()| == s.epptr - s.pptr;
    var m := Min(n, |s.Staged()|);
    CastExact(m);
    CommitIsMove(s, n, CastToInt(m));
    if m <= INT_MAX {
      CommitMoves(s, m);
    } else {
      MovedSize(s, 0, CastToInt(m));
      assert |s.Data() + s.Staged()[..m]| == s.Size() + m;
    }
  }

  /** The length of the input sequence once gptr and pptr have moved, if they are still in order. */
  lemma MovedSize(s: Area, g: int, p: int)
    requires s.Valid()
    ensures var t := s.(gptr := s.gptr + g, pptr := s.pptr + p, egptr := s.pptr + p);
            t.Valid() ==> |t.Data()| == s.Size() + p - g
  {
  }

  /** consume removes the characters it was asked for exactly when their count fits an int. */
  lemma ConsumeExactIff(s: Area, n: nat)
    requires s.Valid()
    ensures var m := Min(n, s.Size());
            (ConsumeArea(s, n).Valid() && ConsumeArea(s, n).Data() == s.Data()[m..]) <==> m <= INT_MAX
  {
    var m := Min(n, s.Size());
    CastExact(m);
    ConsumeIsMove(s, n, CastToInt(m));
    if m <= INT_MAX {
      ConsumeMoves(s, m);
    } else {
      MovedSize(s, CastToInt(m), 0);
      assert |s.Data()[m..]| == s.Size() - m;
    }
  }

  const SIZE_MAX: int := 0xffff_ffff_ffff_ffff

  /** The first prepare of a default-sized streambuf that its initial 128 characters do not satisfy. */
  lemma FirstPrepare(n: nat)
    requires BUFFER_DELTA < n <= SIZE_MAX
    ensures var (t, r) := Step(Initial(SIZE_MAX), Prepare(n));
            r == Done && t.Valid() && t.gptr == t.pptr == 0 && t.epptr == n
  {
    var s := Initial(SIZE_MAX);
    assert s.Valid() && s.Size() == 0 && s.epptr == BUFFER_DELTA;
    ReserveSucceeds(s, n);
  }

  /** A default-sized streambuf reaches a state where committing 2^31 characters moves pptr back. */
  lemma CommitCanWrap()
    ensures var (t, r) := Step(Initial(SIZE_MAX), Prepare(0x8000_0000));
            r == Done && t.Valid() && CommitArea(t, 0x8000_0000).pptr == -0x8000_0000
  {
    FirstPrepare(0x8000_0000);
  }

  lemma CommitSmall(s: Area, n: nat)
    requires s.Valid() && n <= s.epptr - s.pptr && n <= INT_MAX
    ensures var t := Step(s, Commit(n)).0;
            t.Valid() && t == s.(pptr := s.pptr + n, egptr := s.pptr + n)
  {
  }

  /**
   A default-sized streambuf reaches a state with 2^31 characters, by two commits of 2^30 each,
   where consuming all of them moves gptr in front of the array.
   */
  lemma ConsumeCanWrap()
    ensures var s := Step(Initial(SIZE_MAX), Prepare(0x8000_0000)).0;
            && s.Valid() && Step(s, Commit(0x4000_0000)).0.Valid()
            && var u := Step(Step(s, Commit(0x4000_0000)).0, Commit(0x4000_0000)).0;
            && u.Valid() && u.Size() == 0x8000_0000
            && ConsumeArea(u, 0x8000_0000).gptr == -0x8000_0000 && !ConsumeArea(u, 0x8000_0000).Valid()
  {
    var half := 0x4000_0000;
    FirstPrepare(2 * half);
    var s := Step(Initial(SIZE_MAX), Prepare(2 * half)).0;
    CommitSmall(s, half);
    CommitSmall(Step(s, Commit(half)).0, half);
  }

  // ----- read_size_helper -----

  /** The preferred read size; capacity is that of the vector, at least the array's length. */
  function ReadSizeHelper(s: Area, capacity: nat, maxSize: nat): int
    requires s.Valid() && |s.buffer| <= capacity
  {
    Min(Max(512, capacity - s.Size()), Min(maxSize, s.max - s.Size()))
  }

  /**
   Preparing the suggested size never throws, and it is positive whenever it can be. Unless the
   limit or the maximum size cuts it short, it is the spare capacity, and at least 512.
   */
  lemma ReadSizeSafeAndProgresses(s: Area, capacity: nat, maxSize: nat)
    requires s.Valid() && |s.buffer| <= capacity
    ensures var n := ReadSizeHelper(s, capacity, maxSize);
            && 0 <= n <= maxSize
            && (0 < n <==> 0 < maxSize && s.Size() < s.max)
            && Step(s, Prepare(n)).1 == Done
            && (n <= 512 || n + s.Size() <= capacity)
            && (n < maxSize && n + s.Size() < s.max ==>
                  n >= 512 && n + s.Size() >= capacity && (n == 512 || n + s.Size() == capacity))
  {
    PrepareExact(s, ReadSizeHelper(s, capacity, maxSize));
  }
}
