/** Whole runs of a stream buffer: it is a bounded first-in first-out queue,
    whatever compactions, growth and length errors happen on the way. */
module StreamBufferRuns {
  import opened Machine
  import opened StreamBufferSpec

  datatype Op =
    | Prepare(n: nat)
    | Fill(at: nat, w: seq<Byte>)
    | CommitOp(n: nat)
    | ConsumeOp(n: nat, base: nat)
    | OverflowOp(c: IntType)
    | UnderflowOp
    | BumpOp

  /** When the 32-bit cast and the wrapping address comparison in `consume`
      do what its documentation says. */
  predicate ConsumeIsExact(s: State, n: nat, base: nat) {
    && Min(n, s.Size()) <= INT_MAX
    && (base + s.gptr + n < SIZE_LIMIT || n % WORD_LIMIT == s.Size())
  }

  predicate CommitIsExact(s: State, n: nat) {
    Min(n, s.epptr - s.pptr) <= INT_MAX
  }

  /** What a caller must respect: sizes are machine words, only prepared places
      are filled, the store lies inside the address space, and counts survive
      the narrowing cast. */
  predicate Legal(s: State, op: Op) {
    match op
    case Prepare(n) => n < SIZE_LIMIT
    case Fill(at, w) => s.pptr + at + |w| <= s.epptr
    case CommitOp(n) => n < SIZE_LIMIT && CommitIsExact(s, n)
    case ConsumeOp(n, base) => n < SIZE_LIMIT && base + |s.mem| < SIZE_LIMIT && ConsumeIsExact(s, n, base)
    case OverflowOp(_) => true
    case UnderflowOp => true
    case BumpOp => true
  }

  /** `commit` appends the first `n` output characters, or all of them when
      there are fewer, exactly if that count fits a signed 32-bit integer. */
  lemma CommitExact(s: State, n: nat)
    requires s.Valid()
    ensures CommitIsExact(s, n) <==>
      var t := Commit(s, n);
      t.Valid() && t.Data() == s.Data() + s.Room()[..Min(n, |s.Room()|)]
  {
  }

  /** The new get position is where it should be exactly when the data are. */
  lemma GetPosition(s: State, g: int, m: nat)
    requires s.Valid() && m <= s.Size()
    ensures var t := s.(gptr := g, egptr := s.pptr);
      g == s.gptr + m <==> t.Valid() && t.Data() == s.Data()[m..]
  {
  }

  lemma ConsumeMoves(s: State, n: nat, base: nat)
    requires s.Valid() && n < SIZE_LIMIT && base + |s.mem| < SIZE_LIMIT
    ensures Consume(s, n, base) == s.(gptr := Consume(s, n, base).gptr, egptr := s.pptr)
    ensures ConsumeIsExact(s, n, base) <==> Consume(s, n, base).gptr == s.gptr + Min(n, s.Size())
  {
  }

  /** `consume` removes the first `n` input characters, or all of them when
      there are fewer, exactly under the condition above. */
  lemma ConsumeExact(s: State, n: nat, base: nat)
    requires s.Valid() && n < SIZE_LIMIT && base + |s.mem| < SIZE_LIMIT
    ensures ConsumeIsExact(s, n, base) <==>
      var t := Consume(s, n, base);
      t.Valid() && t.Data() == s.Data()[Min(n, s.Size())..]
  {
    ConsumeMoves(s, n, base);
    GetPosition(s, Consume(s, n, base).gptr, Min(n, s.Size()));
  }

  // ---- One operation ----

  lemma CommitKeepsValid(s: State, n: nat)
    requires s.Valid() && CommitIsExact(s, n)
    ensures Commit(s, n).Valid()
  {
  }

  lemma ConsumeKeepsValid(s: State, n: nat, base: nat)
    requires s.Valid() && n < SIZE_LIMIT && base + |s.mem| < SIZE_LIMIT && ConsumeIsExact(s, n, base)
    ensures Consume(s, n, base).Valid()
  {
  }

  /** One operation. Every reachable state is valid, also after a length error. */
  function Step(s: State, op: Op): (r: Outcome)
    requires s.Valid() && Legal(s, op)
    ensures r.s.Valid() && r.s.max == s.max
  {
    match op
    case Prepare(n) => Reserve(s, n)
    case Fill(at, w) => Ok(Write(s, at, w))
    case CommitOp(n) => CommitKeepsValid(s, n); Ok(Commit(s, n))
    case ConsumeOp(n, base) => ConsumeKeepsValid(s, n, base); Ok(Consume(s, n, base))
    case OverflowOp(c) => Overflow(s, c)
    case UnderflowOp => Ok(Underflow(s).0)
    case BumpOp => Ok(Bump(s).0)
  }

  // ---- Length errors ----

  /** What a failed `prepare` leaves: the same positions, but shifted characters. */
  lemma AfterFailedReserve(s: State, n: nat)
    requires s.Valid() && s.Size() + n > s.max
    ensures Reserve(s, n) == LengthError(s.(mem := Compacted(s)))
    ensures var after := Reserve(s, n).s.Data();
      |after| == s.Size() &&
      forall k :: 0 <= k < s.Size() ==> after[k] == s.Data()[if k + s.gptr < s.Size() then k + s.gptr else k]
  {
  }

  /** The input sequence repeats with the read offset as period, as far as it
      overlaps its own place after a shift. */
  predicate InputRepeats(s: State)
    requires s.Valid()
  {
    forall k :: 0 <= k < s.Size() - s.gptr ==> s.Data()[k] == s.Data()[k + s.gptr]
  }

  /** `prepare` throws exactly when the request does not fit, and what a caller
      can still rely on then: the positions, not the characters. The characters
      survive the shift exactly when they repeat with the read offset as period. */
  lemma FailedReserveExact(s: State, n: nat)
    requires s.Valid()
    ensures Reserve(s, n).LengthError? <==> s.Size() + n > s.max
    ensures s.Size() + n > s.max ==>
      (Reserve(s, n).s.Data() == s.Data() <==> InputRepeats(s))
  {
    if s.Size() + n > s.max {
      AfterFailedReserve(s, n);
      var after, data := Reserve(s, n).s.Data(), s.Data();
      if InputRepeats(s) {
        forall k | 0 <= k < s.Size()
          ensures after[k] == data[k]
        {
        }
      } else {
        var k :| 0 <= k < s.Size() - s.gptr && data[k] != data[k + s.gptr];
        assert after[k] != data[k];
      }
    }
  }

  /** When the input sequence does not overlap its own place after a shift. */
  predicate ShiftIsHarmless(s: State) {
    s.gptr == 0 || s.Size() <= s.gptr
  }

  /** A failed `prepare` keeps the input sequence whatever it holds exactly when
      the read offset is zero or at least the size. */
  lemma FailedReserveHarmless(s: State, n: nat)
    requires s.Valid() && s.Size() + n > s.max
    ensures ShiftIsHarmless(s) <==>
      forall mem | |mem| == |s.mem| :: Reserve(s.(mem := mem), n).s.Data() == s.(mem := mem).Data()
  {
    if ShiftIsHarmless(s) {
      forall mem | |mem| == |s.mem|
        ensures Reserve(s.(mem := mem), n).s.Data() == s.(mem := mem).Data()
      {
        FailedReserveExact(s.(mem := mem), n);
      }
    } else {
      var mem := seq(|s.mem|, k requires 0 <= k => if k == s.gptr then 1 as Byte else 0);
      var t := s.(mem := mem);
      assert t.Data()[0] == 1 && t.Data()[s.gptr] == 0;
      FailedReserveExact(t, n);
      assert t.Data()[0] != t.Data()[0 + t.gptr];
      assert Reserve(t, n).s.Data() != t.Data();
    }
  }

  // ---- Runs ----

  ghost predicate LegalRun(s: State, ops: seq<Op>)
    requires s.Valid()
    decreases |ops|
  {
    ops != [] ==> Legal(s, ops[0]) && LegalRun(Step(s, ops[0]).s, ops[1..])
  }

  /** The state after all operations; callers catch length errors and go on. */
  ghost function Run(s: State, ops: seq<Op>): (t: State)
    requires s.Valid() && LegalRun(s, ops)
    ensures t.Valid() && t.max == s.max
    decreases |ops|
  {
    if ops == [] then s else Run(Step(s, ops[0]).s, ops[1..])
  }

  /** The characters one operation appends to the input sequence. */
  function Appended(s: State, op: Op): seq<Byte>
    requires s.Valid()
  {
    match op
    case CommitOp(n) => s.Room()[..Min(n, |s.Room()|)]
    case OverflowOp(Char(b)) => if s.Size() == s.max then [] else [b]
    case _ => []
  }

  /** The characters one operation takes from the input sequence. */
  function Taken(s: State, op: Op): seq<Byte>
    requires s.Valid()
  {
    match op
    case ConsumeOp(n, _) => s.Data()[..Min(n, s.Size())]
    case BumpOp => (match Bump(s).1 case Char(b) => [b] case Eof => [])
    case _ => []
  }

  ghost function AllAppended(s: State, ops: seq<Op>): seq<Byte>
    requires s.Valid() && LegalRun(s, ops)
    decreases |ops|
  {
    if ops == [] then [] else Appended(s, ops[0]) + AllAppended(Step(s, ops[0]).s, ops[1..])
  }

  ghost function AllTaken(s: State, ops: seq<Op>): seq<Byte>
    requires s.Valid() && LegalRun(s, ops)
    decreases |ops|
  {
    if ops == [] then [] else Taken(s, ops[0]) + AllTaken(Step(s, ops[0]).s, ops[1..])
  }

  /** The operation is not a `prepare` that throws and damages the input. */
  predicate IsHarmless(s: State, op: Op)
    requires s.Valid()
  {
    op.Prepare? && s.Size() + op.n > s.max ==> InputRepeats(s)
  }

  ghost predicate HarmlessRun(s: State, ops: seq<Op>)
    requires s.Valid() && LegalRun(s, ops)
    decreases |ops|
  {
    ops != [] ==> IsHarmless(s, ops[0]) && HarmlessRun(Step(s, ops[0]).s, ops[1..])
  }

  /** Reading shows the oldest character, or end of file when there is none. */
  lemma ReadsFront(s: State)
    requires s.Valid()
    ensures Underflow(s).1 == Bump(s).1 == if s.Data() == [] then Eof else Char(s.Data()[0])
    ensures Underflow(s).0.Data() == s.Data()
    ensures Bump(s).0.Data() == if s.Data() == [] then [] else s.Data()[1..]
  {
  }

  /** An operation that neither appends nor takes anything keeps the data, unless
      it is a harmful `prepare`. */
  lemma QuietStepIsFifo(s: State, op: Op)
    requires s.Valid() && Legal(s, op) && (op.Prepare? || op.Fill? || op.UnderflowOp?)
    ensures Step(s, op).s.Data() == s.Data() <==> IsHarmless(s, op)
  {
    if op.Prepare? {
      FailedReserveExact(s, op.n);
    }
  }

  /** Operations that only append. */
  lemma AppendingStepIsFifo(s: State, op: Op)
    requires s.Valid() && Legal(s, op) && (op.CommitOp? || op.OverflowOp?)
    ensures Taken(s, op) == [] && Step(s, op).s.Data() == s.Data() + Appended(s, op)
  {
    match op
    case CommitOp(n) => CommitExact(s, n);
    case OverflowOp(_) => assert s.Data() + [] == s.Data();
  }

  /** Operations that only take. */
  lemma TakingStepIsFifo(s: State, op: Op)
    requires s.Valid() && Legal(s, op) && (op.ConsumeOp? || op.BumpOp?)
    ensures Appended(s, op) == [] && s.Data() == Taken(s, op) + Step(s, op).s.Data()
  {
    match op
    case ConsumeOp(n, base) =>
      ConsumeExact(s, n, base);
      var m := Min(n, s.Size());
      assert s.Data() == s.Data()[..m] + s.Data()[m..];
    case BumpOp =>
      ReadsFront(s);
  }

  /** One operation conserves the contents in order exactly when it is harmless. */
  lemma StepIsFifo(s: State, op: Op)
    requires s.Valid() && Legal(s, op)
    ensures s.Data() + Appended(s, op) == Taken(s, op) + Step(s, op).s.Data() <==> IsHarmless(s, op)
  {
    if op.CommitOp? || op.OverflowOp? {
      AppendingStepIsFifo(s, op);
    } else if op.ConsumeOp? || op.BumpOp? {
      TakingStepIsFifo(s, op);
    } else {
      QuietStepIsFifo(s, op);
      assert s.Data() + [] == s.Data() && [] + Step(s, op).s.Data() == Step(s, op).s.Data();
    }
  }

  /** First in, first out, over every run: what was there and what was appended
      is what was taken and what is left, in order. */
  lemma {:induction false} RunIsFifo(s: State, ops: seq<Op>)
    requires s.Valid() && LegalRun(s, ops) && HarmlessRun(s, ops)
    ensures s.Data() + AllAppended(s, ops) == AllTaken(s, ops) + Run(s, ops).Data()
    decreases |ops|
  {
    if ops == [] {
    } else {
      var t := Step(s, ops[0]).s;
      StepIsFifo(s, ops[0]);
      RunIsFifo(t, ops[1..]);
      Chain(s.Data(), Appended(s, ops[0]), Taken(s, ops[0]), t.Data(),
            AllAppended(t, ops[1..]), AllTaken(t, ops[1..]), Run(t, ops[1..]).Data());
    }
  }

  /** The same equation after the first `k` operations. */
  ghost predicate IsFifoAfter(s: State, ops: seq<Op>, k: nat)
    requires s.Valid() && k <= |ops| && LegalRun(s, ops[..k])
  {
    s.Data() + AllAppended(s, ops[..k]) == AllTaken(s, ops[..k]) + Run(s, ops[..k]).Data()
  }

  lemma {:induction false} PrefixIsLegal(s: State, ops: seq<Op>, k: nat)
    requires s.Valid() && LegalRun(s, ops) && k <= |ops|
    ensures LegalRun(s, ops[..k])
    ensures HarmlessRun(s, ops) ==> HarmlessRun(s, ops[..k])
    decreases |ops|
  {
    if k > 0 {
      assert ops[..k][0] == ops[0] && ops[..k][1..] == ops[1..][..k - 1];
      PrefixIsLegal(Step(s, ops[0]).s, ops[1..], k - 1);
    }
  }

  /** After an operation that conserves, conserving further is conserving the rest. */
  lemma LaterIsFifo(s: State, ops: seq<Op>, k: nat)
    requires s.Valid() && LegalRun(s, ops) && 0 < k <= |ops| && IsHarmless(s, ops[0])
    ensures LegalRun(s, ops[..k]) && LegalRun(Step(s, ops[0]).s, ops[1..][..k - 1])
    ensures IsFifoAfter(s, ops, k) ==> IsFifoAfter(Step(s, ops[0]).s, ops[1..], k - 1)
  {
    var t, rest := Step(s, ops[0]).s, ops[1..][..k - 1];
    PrefixIsLegal(s, ops, k);
    PrefixIsLegal(t, ops[1..], k - 1);
    assert ops[..k][0] == ops[0] && ops[..k][1..] == rest;
    StepIsFifo(s, ops[0]);
    if IsFifoAfter(s, ops, k) {
      Unchain(s.Data(), Appended(s, ops[0]), Taken(s, ops[0]), t.Data(),
              AllAppended(t, rest), AllTaken(t, rest), Run(t, rest).Data());
    }
  }

  /** A run conserves the contents in order at every point exactly when none of
      its operations is harmful, judged before each one. */
  lemma {:induction false} FifoThroughout(s: State, ops: seq<Op>)
    requires s.Valid() && LegalRun(s, ops)
    ensures forall k: nat | k <= |ops| :: LegalRun(s, ops[..k])
    ensures HarmlessRun(s, ops) <==> forall k: nat | k <= |ops| :: IsFifoAfter(s, ops, k)
    decreases |ops|
  {
    forall k: nat | k <= |ops|
      ensures LegalRun(s, ops[..k]) && (HarmlessRun(s, ops) ==> IsFifoAfter(s, ops, k))
    {
      PrefixIsLegal(s, ops, k);
      if HarmlessRun(s, ops) {
        RunIsFifo(s, ops[..k]);
      }
    }
    if ops != [] && forall k: nat | k <= |ops| :: IsFifoAfter(s, ops, k) {
      assert IsFifoAfter(s, ops, 1);
      FirstIsFifo(s, ops);
      var t := Step(s, ops[0]).s;
      FifoThroughout(t, ops[1..]);
      forall k: nat | k <= |ops[1..]|
        ensures IsFifoAfter(t, ops[1..], k)
      {
        assert IsFifoAfter(s, ops, k + 1);
        LaterIsFifo(s, ops, k + 1);
      }
    }
  }

  lemma FirstIsFifo(s: State, ops: seq<Op>)
    requires s.Valid() && LegalRun(s, ops) && ops != [] && LegalRun(s, ops[..1]) && IsFifoAfter(s, ops, 1)
    ensures IsHarmless(s, ops[0])
  {
    var t, one := Step(s, ops[0]).s, ops[..1];
    assert one[0] == ops[0] && one[1..] == [];
    assert AllAppended(t, []) == [] && AllTaken(t, []) == [] && Run(t, []) == t;
    assert AllAppended(s, one) == Appended(s, ops[0]) && AllTaken(s, one) == Taken(s, ops[0]);
    StepIsFifo(s, ops[0]);
  }

  /** From a new buffer: everything appended is everything taken, then the rest. */
  lemma NewBufferIsFifo(max: nat, ops: seq<Op>)
    requires max < SIZE_LIMIT && LegalRun(Init(max), ops) && HarmlessRun(Init(max), ops)
    ensures AllAppended(Init(max), ops) == AllTaken(Init(max), ops) + Run(Init(max), ops).Data()
  {
    RunIsFifo(Init(max), ops);
    assert [] + AllAppended(Init(max), ops) == AllAppended(Init(max), ops);
  }

  lemma FillExtends(s: State, w: seq<Byte>)
    requires s.Valid() && s.pptr + |w| <= s.epptr
    ensures Write(s, 0, w).Valid()
    ensures Write(s, 0, w).mem[s.gptr..s.pptr + |w|] == s.Data() + w
  {
  }

  lemma StepConservesCounts(s: State, op: Op)
    requires s.Valid() && Legal(s, op)
    ensures s.Size() + |Appended(s, op)| == |Taken(s, op)| + Step(s, op).s.Size()
  {
    if Step(s, op).Ok? {
      StepIsFifo(s, op);
    } else {
      assert Appended(s, op) == [] && Taken(s, op) == [];
    }
  }

  /** Counts are conserved over every run, whatever length errors happen. */
  lemma {:induction false} RunConservesCounts(s: State, ops: seq<Op>)
    requires s.Valid() && LegalRun(s, ops)
    ensures s.Size() + |AllAppended(s, ops)| == |AllTaken(s, ops)| + Run(s, ops).Size()
    decreases |ops|
  {
    if ops == [] {
    } else {
      StepConservesCounts(s, ops[0]);
      RunConservesCounts(Step(s, ops[0]).s, ops[1..]);
    }
  }

  /** The documented protocol: prepare `n`, fill at most `n`, commit as many. */
  lemma PrepareFillCommit(s: State, n: nat, w: seq<Byte>)
    requires s.Valid() && s.Size() + n <= s.max && |w| <= n && |w| <= INT_MAX
    ensures Legal(Reserve(s, n).s, Fill(0, w))
    ensures var t := Commit(Write(Reserve(s, n).s, 0, w), |w|); t.Valid() && t.Data() == s.Data() + w
  {
    FillCommit(Reserve(s, n).s, w);
  }

  lemma FillCommit(s: State, w: seq<Byte>)
    requires s.Valid() && s.pptr + |w| <= s.epptr && |w| <= INT_MAX
    ensures var t := Commit(Write(s, 0, w), |w|); t.Valid() && t.Data() == s.Data() + w
  {
    FillExtends(s, w);
  }

  // ---- Growth ----

  /** The total size a successful operation asked the buffer to hold. */
  function Request(s: State, op: Op): seq<int>
    requires s.Valid()
  {
    match op
    case Prepare(n) => if s.Size() + n <= s.max then [s.Size() + n] else []
    case OverflowOp(Char(_)) =>
      if s.Size() < s.max && s.pptr == s.epptr then [Min(s.Size() + BUFFER_DELTA, s.max)] else []
    case _ => []
  }

  ghost function AllRequests(s: State, ops: seq<Op>): seq<int>
    requires s.Valid() && LegalRun(s, ops)
    decreases |ops|
  {
    if ops == [] then [] else Request(s, ops[0]) + AllRequests(Step(s, ops[0]).s, ops[1..])
  }

  /** `p` is the largest of `start` and the requests. */
  ghost predicate IsPeak(p: int, start: int, requests: seq<int>) {
    && start <= p
    && (forall r | r in requests :: r <= p)
    && (p == start || p in requests)
  }

  lemma PeakOfOne(start: int, r: int)
    ensures IsPeak(Max(start, r), start, [r])
  {
  }

  lemma OverflowEnd(s: State, b: Byte)
    requires s.Valid()
    ensures Overflow(s, Char(b)).s.epptr ==
      if s.Size() < s.max && s.pptr == s.epptr then Max(s.epptr, Min(s.Size() + BUFFER_DELTA, s.max)) else s.epptr
  {
  }

  lemma OtherStepsKeepEnd(s: State, op: Op)
    requires s.Valid() && Legal(s, op) && !op.Prepare? && !op.OverflowOp?
    ensures Step(s, op).s.epptr == s.epptr
  {
  }

  /** A request moves the end up to the size it asks for; without one it stays. */
  lemma StepEnd(s: State, op: Op)
    requires s.Valid() && Legal(s, op)
    ensures |Request(s, op)| <= 1
    ensures var r := Request(s, op); Step(s, op).s.epptr == if r == [] then s.epptr else Max(s.epptr, r[0])
  {
    match op
    case Prepare(n) =>
    case OverflowOp(Char(b)) => OverflowEnd(s, b);
    case OverflowOp(Eof) =>
    case _ => OtherStepsKeepEnd(s, op);
  }

  lemma StepPeak(s: State, op: Op)
    requires s.Valid() && Legal(s, op)
    ensures IsPeak(Step(s, op).s.epptr, s.epptr, Request(s, op))
  {
    StepEnd(s, op);
    if Request(s, op) != [] {
      PeakOfOne(s.epptr, Request(s, op)[0]);
    }
  }

  /** The end of the put area is exactly the peak of its start and all successful
      requests, and the store holds exactly that many characters, but at least one. */
  lemma {:induction false} PutAreaEndsAtPeak(s: State, ops: seq<Op>)
    requires s.Valid() && LegalRun(s, ops)
    ensures IsPeak(Run(s, ops).epptr, s.epptr, AllRequests(s, ops))
    ensures |Run(s, ops).mem| == Max(Run(s, ops).epptr, 1)
    decreases |ops|
  {
    if ops == [] {
    } else {
      var t := Step(s, ops[0]).s;
      StepPeak(s, ops[0]);
      PutAreaEndsAtPeak(t, ops[1..]);
    }
  }

  /** From a new buffer: the peak of the initial room and all successful requests. */
  lemma NewBufferEndsAtPeak(max: nat, ops: seq<Op>)
    requires max < SIZE_LIMIT && LegalRun(Init(max), ops)
    ensures IsPeak(Run(Init(max), ops).epptr, Min(max, BUFFER_DELTA), AllRequests(Init(max), ops))
    ensures |Run(Init(max), ops).mem| == Max(Run(Init(max), ops).epptr, 1)
  {
    PutAreaEndsAtPeak(Init(max), ops);
  }

  // ---- Sizes for reading ----

  /** With any capacity that holds the store, the suggested read size is a valid
      request, no difference in it is negative, and it is zero only when the
      limit is zero or the buffer is full. */
  lemma ReadSizeFits(s: State, capacity: nat, limit: nat)
    requires s.Valid() && |s.mem| <= capacity < SIZE_LIMIT && limit < SIZE_LIMIT
    ensures 0 <= capacity - s.Size() && 0 <= s.max - s.Size()
    ensures var n := ReadSize(s, capacity, limit);
      && 0 <= n <= limit
      && Reserve(s, n).Ok?
      && (n == 0 <==> limit == 0 || s.Size() == s.max)
  {
  }
}
