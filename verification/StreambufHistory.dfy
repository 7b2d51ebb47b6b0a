/**
 What basic_streambuf holds after a history of operations: it depends on the characters appended
 and on how many were taken off, not on how they were chunked, compacted or reallocated.
 */
module StreambufHistory {
  import opened Chars
  import opened Sequences
  import opened StreambufSpec
  import opened StreambufTheorems

  // ----- What a history appends and removes -----

  /** The count that commit or consume casts to int for pbump or gbump fits. */
  predicate CastFits(s: Area, op: Op)
    requires s.Valid()
  {
    match op
    case Commit(n) => Min(n, s.epptr - s.pptr) <= INT_MAX
    case Consume(n) => Min(n, s.Size()) <= INT_MAX
    case _ => true
  }

  /** What a step appends to the input sequence. */
  function Appended(q: Tape, op: Op): seq<byte> {
    match op
    case Commit(n) => q.staged[..Min(n, |q.staged|)]
    case SPutC(b) => if |q.items| != q.max then [b] else []
    case Overflow(c) => if c != EOF && |q.items| != q.max then [ToChar(c)] else []
    case _ => []
  }

  /** How many characters a step takes off the front of the input sequence; a putback counts back. */
  function Removed(q: Tape, op: Op): int {
    match op
    case Consume(n) => Min(n, |q.items|)
    case SBumpC => Min(1, |q.items|)
    case SUngetC => -Min(1, |q.past|)
    case _ => 0
  }

  function TotalAppended(s: Area, ops: seq<Op>): seq<byte>
    requires s.Valid()
    decreases |ops|
  {
    if ops == [] || !Step(s, ops[0]).0.Valid() then []
    else Appended(Abs(s), ops[0]) + TotalAppended(Step(s, ops[0]).0, ops[1..])
  }

  function TotalRemoved(s: Area, ops: seq<Op>): int
    requires s.Valid()
    decreases |ops|
  {
    if ops == [] || !Step(s, ops[0]).0.Valid() then 0
    else Removed(Abs(s), ops[0]) + TotalRemoved(Step(s, ops[0]).0, ops[1..])
  }

  // ----- Putback -----

  /** The step calls reserve past its early return while characters are held for putback. */
  predicate Compacts(s: Area, op: Op)
    requires s.Valid()
  {
    && 0 < s.gptr
    && match op
       case Prepare(n) => n > s.epptr - s.pptr
       case SPutC(_) => s.pptr == s.epptr
       case Overflow(c) => c != EOF && s.pptr == s.epptr
       case _ => false
  }

  ghost predicate PlainRun(s: Area, ops: seq<Op>)
    requires s.Valid()
    decreases |ops|
  {
    ops != [] ==>
      && CastFits(s, ops[0]) && !Compacts(s, ops[0])
      && Step(s, ops[0]).0.Valid()
      && PlainRun(Step(s, ops[0]).0, ops[1..])
  }

  /** Everything the array still holds of what was appended, consumed or not. */
  function Held(s: Area): seq<byte>
    requires s.Valid()
  {
    s.buffer[..s.pptr]
  }

  lemma AppendHolds(s: Area, b: byte)
    requires s.Valid() && s.pptr < s.epptr
    ensures Append(s, b).Valid() && Held(Append(s, b)) == Held(s) + [b]
  {
  }

  lemma OverflowHolds(s: Area, c: int)
    requires s.Valid() && c != EOF && !Compacts(s, Overflow(c)) && s.Size() != s.max
    ensures var t := OverflowArea(s, c).0; t.Valid() && t.gptr == s.gptr && Held(t) == Held(s) + [ToChar(c)]
  {
    if s.pptr < s.epptr {
      AppendHolds(s, ToChar(c));
    } else {
      OverflowGrows(s, ToChar(c));
      var t := OverflowArea(s, c).0;
      assert t.gptr == s.gptr == 0;
      assert Held(t) == t.Data() && Held(s) == s.Data();
    }
  }

  lemma PrepareHolds(s: Area, n: nat)
    requires s.Valid() && !Compacts(s, Prepare(n))
    ensures var t := Reserve(s, n).0; t.Valid() && t.gptr == s.gptr && Held(t) == Held(s)
  {
    var t := Reserve(s, n).0;
    if s.Size() + n <= s.max { ReserveSucceeds(s, n); } else { ReserveThrows(s, n); }
    if n > s.epptr - s.pptr {
      ShiftedParts(s);
      assert Held(s) == s.Data();
      if s.Size() + n <= s.max {
        assert Held(t) == t.Data();
      }
    }
  }

  lemma CharHolds(s: Area, op: Op, c: int)
    requires s.Valid() && !Compacts(s, op)
    requires op == Overflow(c) || (op.SPutC? && c == op.b)
    ensures var t := Step(s, op).0;
            t.Valid() && t.gptr == s.gptr && Held(t) == Held(s) + Appended(Abs(s), op)
  {
    if c != EOF {
      if s.Size() == s.max {
        OverflowExact(s, c);
      } else if s.pptr < s.epptr {
        AppendHolds(s, ToChar(c));
      } else {
        OverflowHolds(s, c);
      }
    }
  }

  lemma HeldWith(s: Area, m: nat)
    requires s.Valid() && m <= s.epptr - s.pptr
    ensures s.buffer[..s.pptr + m] == Held(s) + s.Staged()[..m]
  {
    SplitSlice(s.buffer, s.pptr, s.pptr + m, s.epptr);
    TakeTo(s.buffer, s.pptr, s.pptr + m);
  }

  lemma CommitHolds(s: Area, n: nat)
    requires s.Valid() && CastFits(s, Commit(n))
    ensures var t := CommitArea(s, n);
            t.Valid() && t.gptr == s.gptr && Held(t) == Held(s) + Appended(Abs(s), Commit(n))
  {
    var m := Min(n, s.epptr - s.pptr);
    assert CommitArea(s, n) == s.(pptr := s.pptr + m, egptr := s.pptr + m);
    HeldWith(s, m);
  }

  lemma GetHolds(s: Area, op: Op)
    requires s.Valid() && (op.SBumpC? || op.SGetC? || op.SUngetC?)
    ensures var t := Step(s, op).0;
            && t.Valid() && t.buffer == s.buffer && t.pptr == s.pptr
            && t.gptr == s.gptr + Removed(Abs(s), op) && Appended(Abs(s), op) == []
  {
  }

  lemma StoreHolds(s: Area, at: nat, b: byte)
    requires s.Valid()
    ensures var t := Step(s, Store(at, b)).0; t.Valid() && Held(t) == Held(s) && t.gptr == s.gptr
  {
  }

  lemma ConsumeHolds(s: Area, n: nat)
    requires s.Valid() && CastFits(s, Consume(n))
    ensures var t := ConsumeArea(s, n);
            t.Valid() && Held(t) == Held(s) && t.gptr == s.gptr + Min(n, s.Size())
  {
  }

  /** Whatever does not compact keeps what is held, appends behind it and moves gptr. */
  lemma StepHolds(s: Area, op: Op)
    requires s.Valid() && CastFits(s, op) && !Compacts(s, op)
    ensures var t := Step(s, op).0;
            && t.Valid() && Held(t) == Held(s) + Appended(Abs(s), op)
            && t.gptr == s.gptr + Removed(Abs(s), op)
  {
    var t := Step(s, op).0;
    match op
    case Prepare(n) => PrepareHolds(s, n);
    case Commit(n) => CommitHolds(s, n);
    case SPutC(b) => CharHolds(s, op, b);
    case Overflow(c) => CharHolds(s, op, c);
    case Store(at, b) => StoreHolds(s, at, b);
    case Consume(n) => ConsumeHolds(s, n);
    case _ =>
      GetHolds(s, op);
      assert Held(t) == Held(s) == Held(s) + [];
  }

  /** Without a compaction, what the array holds only grows at the end. */
  lemma {:induction false} RunHolds(s: Area, ops: seq<Op>)
    requires s.Valid() && PlainRun(s, ops)
    ensures var t := Run(s, ops).0; t.Valid() && Held(t) == Held(s) + TotalAppended(s, ops)
    decreases |ops|
  {
    if ops != [] {
      var t, rest := Step(s, ops[0]).0, ops[1..];
      StepHolds(s, ops[0]);
      RunHolds(t, rest);
      Regroup(Held(s), Appended(Abs(s), ops[0]), TotalAppended(t, rest));
    }
  }

  lemma {:induction false} RunMovesGptr(s: Area, ops: seq<Op>)
    requires s.Valid() && PlainRun(s, ops)
    ensures var t := Run(s, ops).0; t.Valid() && t.gptr == s.gptr + TotalRemoved(s, ops)
    decreases |ops|
  {
    if ops != [] {
      StepHolds(s, ops[0]);
      RunMovesGptr(Step(s, ops[0]).0, ops[1..]);
    }
  }

  function UngetTimes(s: Area, k: nat): Area
    requires s.Valid() && k <= s.gptr
    decreases k
  {
    if k == 0 then s else UngetTimes(Step(s, SUngetC).0, k - 1)
  }

  lemma {:induction false} UngetTimesMoves(s: Area, k: nat)
    requires s.Valid() && k <= s.gptr
    ensures UngetTimes(s, k) == s.(gptr := s.gptr - k)
    decreases k
  {
    if k != 0 {
      UngetTimesMoves(Step(s, SUngetC).0, k - 1);
    }
  }

  lemma SliceAppended(b: seq<byte>, p: nat, c: seq<byte>, q: nat, a: seq<byte>, g: nat)
    requires g <= p <= |b| && q <= |c| && c[..q] == b[..p] + a
    ensures g <= q && c[g..q] == b[g..p] + a
  {
    assert c[g..q] == c[..q][g..];
  }

  /**
   As many sungetc calls as characters are missing, removals less putbacks, bring the earlier
   input sequence back, with everything appended since behind it.
   */
  lemma PutbackRestores(s: Area, ops: seq<Op>)
    requires s.Valid() && PlainRun(s, ops) && TotalRemoved(s, ops) >= 0
    ensures var t, k := Run(s, ops).0, TotalRemoved(s, ops);
            && t.Valid() && k <= t.gptr && UngetTimes(t, k).Valid()
            && UngetTimes(t, k).Data() == s.Data() + TotalAppended(s, ops)
  {
    RunHolds(s, ops);
    RunMovesGptr(s, ops);
    var t, k := Run(s, ops).0, TotalRemoved(s, ops);
    UngetTimesMoves(t, k);
    SliceAppended(s.buffer, s.pptr, t.buffer, t.pptr, TotalAppended(s, ops), s.gptr);
  }

  // ----- Chunking -----

  predicate Throws(s: Area, op: Op)
    requires s.Valid()
  {
    op.Prepare? && s.Size() + op.n > s.max
  }

  /** Copying x over itself, g places towards the front, changes nothing. */
  predicate Repeats(x: seq<byte>, g: nat) {
    forall i | 0 <= i < |x| - g :: x[i] == x[i + g]
  }

  /**
   Counts fit, and the copy made by a throwing prepare changes nothing that shows later: nothing
   of the input sequence, and when putbacks may come nothing of what is held for them either.
   Both always hold when gptr is 0, and the former when gptr is at least size().
   */
  predicate OrderlyStep(s: Area, op: Op, putback: bool)
    requires s.Valid()
  {
    && CastFits(s, op)
    && (Throws(s, op) ==> Repeats(if putback then Held(s) else s.Data(), s.gptr))
    && (op.SUngetC? ==> putback)
  }

  ghost predicate OrderlyRun(s: Area, ops: seq<Op>, putback: bool)
    requires s.Valid()
    decreases |ops|
  {
    ops != [] ==>
      && OrderlyStep(s, ops[0], putback)
      && Step(s, ops[0]).0.Valid()
      && OrderlyRun(Step(s, ops[0]).0, ops[1..], putback)
  }

  /** A compaction forgets the consumed characters and nothing else. */
  lemma CompactionForgets(s: Area, op: Op)
    requires s.Valid() && Compacts(s, op) && !Throws(s, op)
    ensures var t := Step(s, op).0;
            t.Valid() && t.gptr == 0 && Held(t) == Held(s)[s.gptr..] + Appended(Abs(s), op)
    ensures Removed(Abs(s), op) == 0
  {
    var t := Step(s, op).0;
    assert s.Data() == Held(s)[s.gptr..];
    match op
    case Prepare(n) => ReserveSucceeds(s, n); assert Held(t) == t.Data();
    case SPutC(b) => OverflowGrows(s, b); assert Held(t) == t.Data();
    case Overflow(c) => OverflowGrows(s, ToChar(c)); assert Held(t) == t.Data();
  }

  /** y is x with its last k elements copied g places towards the front. */
  lemma CopyKeepsIff(x: seq<byte>, y: seq<byte>, g: nat, k: nat)
    requires g + k == |x| == |y| && y[..k] == x[g..] && y[k..] == x[k..]
    ensures y == x <==> Repeats(x, g)
  {
    forall i | 0 <= i < |x|
      ensures y[i] == if i < k then x[i + g] else x[i]
    {
      assert if i < k then y[i] == y[..k][i] else y[i] == y[k..][i - k];
    }
    if Repeats(x, g) {
      assert forall i | 0 <= i < |x| :: y[i] == x[i];
    } else {
      var i :| 0 <= i < |x| - g && x[i] != x[i + g];
      assert y[i] != x[i];
    }
  }

  /** What is held survives a throwing prepare exactly when the copy changes nothing of it. */
  lemma ThrowKeepsHeldIff(s: Area, n: nat)
    requires s.Valid() && Throws(s, Prepare(n))
    ensures var t := Step(s, Prepare(n)).0;
            && t.Valid() && t.gptr == s.gptr && (Held(t) == Held(s) <==> Repeats(Held(s), s.gptr))
  {
    var b, k := Shifted(s), s.Size();
    ReserveThrows(s, n);
    ShiftedParts(s);
    SameTail(b, s.buffer, k, k, s.pptr);
    TakeDrop(b, k, s.pptr);
    TakeDrop(s.buffer, k, s.pptr);
    TakeDrop(s.buffer, s.gptr, s.pptr);
    assert b[..s.pptr][..k] == b[..k];
    CopyKeepsIff(Held(s), b[..s.pptr], s.gptr, k);
  }

  /** The same for the input sequence alone. */
  lemma ThrowKeepsDataIff(s: Area, n: nat)
    requires s.Valid() && Throws(s, Prepare(n))
    ensures var t := Step(s, Prepare(n)).0;
            t.Valid() && (t.Data() == s.Data() <==> Repeats(s.Data(), s.gptr))
  {
    var d, g := s.Data(), s.gptr;
    ThrowingPrepareLeaves(s, n);
    if g < |d| {
      var k := |d| - g;
      assert g == 0 ==> d == d[g..] + d[k..];
      CopyKeepsIff(d, d[g..] + d[k..], g, k);
    }
  }

  /** With putbacks: what is held becomes a suffix of itself and what is appended, and gptr keeps pace. */
  predicate Steady(s: Area, op: Op)
    requires s.Valid()
  {
    var t, d := Step(s, op).0, s.gptr + Removed(Abs(s), op) - Step(s, op).0.gptr;
    && t.Valid() && 0 <= d <= |Held(s)|
    && Held(t) == Held(s)[d..] + Appended(Abs(s), op)
  }

  lemma SteadyStep(s: Area, op: Op)
    requires s.Valid() && OrderlyStep(s, op, true)
    ensures Steady(s, op)
  {
    if Throws(s, op) {
      ThrowKeepsHeldIff(s, op.n);
      assert Held(s)[0..] + [] == Held(s);
    } else if Compacts(s, op) {
      CompactionForgets(s, op);
    } else {
      StepHolds(s, op);
      assert Held(s)[0..] == Held(s);
    }
  }

  lemma SteadyNeedsOrder(s: Area, op: Op)
    requires s.Valid() && !OrderlyStep(s, op, true)
    ensures !Steady(s, op)
  {
    if Throws(s, op) {
      ThrowKeepsHeldIff(s, op.n);
      assert Held(s)[0..] + [] == Held(s);
    } else if op.Commit? {
      CastExact(Min(op.n, s.epptr - s.pptr));
    } else {
      CastExact(Min(op.n, s.Size()));
    }
  }

  /** The hypothesis of RunTotals for runs with putbacks is exact for every step. */
  lemma SteadyIffOrderly(s: Area, op: Op)
    requires s.Valid()
    ensures Steady(s, op) <==> OrderlyStep(s, op, true)
  {
    if OrderlyStep(s, op, true) { SteadyStep(s, op); } else { SteadyNeedsOrder(s, op); }
  }

  lemma DropTwice(h: seq<byte>, d: nat, a: seq<byte>, a2: seq<byte>, r: nat)
    requires d <= |h| && r <= |h[d..] + a + a2|
    ensures d + r <= |h + (a + a2)|
    ensures (h[d..] + a + a2)[r..] == (h + (a + a2))[d + r..]
  {
    assert h[d..] + a + a2 == (h + (a + a2))[d..];
  }

  lemma SteadyFrom(s: Area, op: Op, a: seq<byte>, k: int)
    requires s.Valid() && OrderlyStep(s, op, true) && Step(s, op).0.Valid()
    requires var t := Step(s, op).0; 0 <= t.gptr + k <= |Held(t) + a|
    ensures var t := Step(s, op).0; var p := s.gptr + (Removed(Abs(s), op) + k);
            && 0 <= p <= |Held(s) + (Appended(Abs(s), op) + a)|
            && (Held(t) + a)[t.gptr + k..] == (Held(s) + (Appended(Abs(s), op) + a))[p..]
  {
    var t := Step(s, op).0;
    SteadyStep(s, op);
    DropTwice(Held(s), s.gptr + Removed(Abs(s), op) - t.gptr, Appended(Abs(s), op), a, t.gptr + k);
  }

  lemma {:induction false} SteadyTotals(s: Area, ops: seq<Op>)
    requires s.Valid() && OrderlyRun(s, ops, true)
    ensures var t, p := Run(s, ops).0, s.gptr + TotalRemoved(s, ops);
            && t.Valid() && 0 <= p <= |Held(s) + TotalAppended(s, ops)|
            && t.Data() == (Held(s) + TotalAppended(s, ops))[p..]
    decreases |ops|
  {
    if ops == [] {
      assert Held(s) + [] == Held(s);
    } else {
      var t, rest := Step(s, ops[0]).0, ops[1..];
      SteadyTotals(t, rest);
      SteadyFrom(s, ops[0], TotalAppended(t, rest), TotalRemoved(t, rest));
    }
  }

  lemma TapeStepTotals(q: Tape, op: Op, q2: Tape, reply: Reply)
    requires TapeStep(q, op, q2, reply) && !op.SUngetC?
    requires op.Commit? ==> Min(op.n, |q.staged|) <= INT_MAX
    requires op.Consume? ==> Min(op.n, |q.items|) <= INT_MAX
    requires op.Prepare? ==> |q.items| + op.n <= q.max
    ensures Removed(q, op) >= 0 && q2.items == q.items[Removed(q, op)..] + Appended(q, op)
  {
  }

  /** Without putbacks only the input sequence matters: it loses its front and grows at its end. */
  predicate Forward(s: Area, op: Op)
    requires s.Valid()
  {
    var t, k := Step(s, op).0, Removed(Abs(s), op);
    t.Valid() && 0 <= k <= s.Size() && t.Data() == s.Data()[k..] + Appended(Abs(s), op)
  }

  lemma ForwardStep(s: Area, op: Op)
    requires s.Valid() && OrderlyStep(s, op, false)
    ensures Forward(s, op)
  {
    if Throws(s, op) {
      ThrowKeepsDataIff(s, op.n);
      assert s.Data()[0..] + [] == s.Data();
    } else {
      StepKeepsValid(s, op);
      StepRefines(s, op);
      var (t, r) := Step(s, op);
      TapeStepTotals(Abs(s), op, Abs(t), r);
    }
  }

  lemma ForwardNeedsOrder(s: Area, op: Op)
    requires s.Valid() && !op.SUngetC? && !OrderlyStep(s, op, false)
    ensures !Forward(s, op)
  {
    if Throws(s, op) {
      ThrowKeepsDataIff(s, op.n);
      assert s.Data()[0..] + [] == s.Data();
    } else if op.Commit? {
      CommitExactIff(s, op.n);
      assert s.Data()[0..] == s.Data();
    } else {
      ConsumeExactIff(s, op.n);
      assert forall k: nat | k <= s.Size() :: s.Data()[k..] + [] == s.Data()[k..];
    }
  }

  /** The hypothesis of RunTotals for runs without putbacks is exact for every step. */
  lemma ForwardIffOrderly(s: Area, op: Op)
    requires s.Valid() && !op.SUngetC?
    ensures Forward(s, op) <==> OrderlyStep(s, op, false)
  {
    if OrderlyStep(s, op, false) { ForwardStep(s, op); } else { ForwardNeedsOrder(s, op); }
  }

  lemma ForwardFrom(s: Area, op: Op, a: seq<byte>, k: nat)
    requires s.Valid() && OrderlyStep(s, op, false) && Step(s, op).0.Valid()
    requires k <= |Step(s, op).0.Data() + a|
    ensures var t, p := Step(s, op).0, Removed(Abs(s), op) + k;
            && 0 <= p <= |s.Data() + (Appended(Abs(s), op) + a)|
            && (t.Data() + a)[k..] == (s.Data() + (Appended(Abs(s), op) + a))[p..]
  {
    ForwardStep(s, op);
    DropTwice(s.Data(), Removed(Abs(s), op), Appended(Abs(s), op), a, k);
  }

  lemma {:induction false} ForwardTotals(s: Area, ops: seq<Op>)
    requires s.Valid() && OrderlyRun(s, ops, false)
    ensures var t, k := Run(s, ops).0, TotalRemoved(s, ops);
            && t.Valid() && 0 <= k <= |s.Data() + TotalAppended(s, ops)|
            && t.Data() == (s.Data() + TotalAppended(s, ops))[k..]
    decreases |ops|
  {
    if ops == [] {
      assert s.Data() + [] == s.Data();
    } else {
      var t, rest := Step(s, ops[0]).0, ops[1..];
      ForwardTotals(t, rest);
      ForwardFrom(s, ops[0], TotalAppended(t, rest), TotalRemoved(t, rest));
    }
  }

  /**
   Over a whole run the input sequence is appended at the end and moved at the front: with what
   was held at first and everything appended as one tape, data() is that tape from the old gptr
   plus removals less putbacks on.
   */
  lemma RunTotals(s: Area, ops: seq<Op>)
    requires s.Valid() && OrderlyRun(s, ops, SUngetC in ops)
    ensures var t, p := Run(s, ops).0, s.gptr + TotalRemoved(s, ops);
            && t.Valid() && 0 <= p <= |Held(s) + TotalAppended(s, ops)|
            && t.Data() == (Held(s) + TotalAppended(s, ops))[p..]
  {
    if SUngetC in ops {
      SteadyTotals(s, ops);
    } else {
      ForwardTotals(s, ops);
      FromGptr(s, TotalAppended(s, ops), TotalRemoved(s, ops));
    }
  }

  lemma FromGptr(s: Area, a: seq<byte>, k: nat)
    requires s.Valid() && k <= |s.Data() + a|
    ensures s.gptr + k <= |Held(s) + a| && (Held(s) + a)[s.gptr + k..] == (s.Data() + a)[k..]
  {
    assert (Held(s) + a)[s.gptr..] == s.Data() + a;
  }

  /** Two buffers, two histories: same appended characters and same net removals, same data(). */
  lemma ChunkingIrrelevant(max1: nat, ops1: seq<Op>, max2: nat, ops2: seq<Op>)
    requires OrderlyRun(Initial(max1), ops1, SUngetC in ops1)
    requires OrderlyRun(Initial(max2), ops2, SUngetC in ops2)
    requires TotalAppended(Initial(max1), ops1) == TotalAppended(Initial(max2), ops2)
    requires TotalRemoved(Initial(max1), ops1) == TotalRemoved(Initial(max2), ops2)
    ensures Run(Initial(max1), ops1).0.Valid() && Run(Initial(max2), ops2).0.Valid()
    ensures Run(Initial(max1), ops1).0.Data() == Run(Initial(max2), ops2).0.Data()
  {
    RunTotals(Initial(max1), ops1);
    RunTotals(Initial(max2), ops2);
  }
}
