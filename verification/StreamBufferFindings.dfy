/** Reachable states in which the stream buffer does not do what its documentation
    says, one for each of the exact conditions in StreamBufferRuns. */
module StreamBufferFindings {
  import opened Machine
  import opened StreamBufferSpec
  import opened StreamBufferRuns

  lemma RunStep(s: State, op: Op, ops: seq<Op>)
    requires s.Valid() && Legal(s, op) && LegalRun(Step(s, op).s, ops)
    ensures LegalRun(s, [op] + ops) && Run(s, [op] + ops) == Run(Step(s, op).s, ops)
  {
    assert ([op] + ops)[0] == op && ([op] + ops)[1..] == ops;
  }

  /** A buffer of four characters with positions as given. */
  function Four(mem: seq<Byte>, gptr: nat, pptr: nat): State {
    State(4, mem, gptr, pptr, pptr, 4)
  }

  lemma FilledFour(w: seq<Byte>)
    requires |w| == 4
    ensures Init(4) == Four(Zeros(4), 0, 0)
    ensures Step(Init(4), Fill(0, w)).s == Four(w, 0, 0)
  {
    assert Write(Init(4), 0, w).mem == w;
  }

  lemma CommittedFour(w: seq<Byte>)
    requires |w| == 4
    ensures Legal(Four(w, 0, 0), CommitOp(4)) && Step(Four(w, 0, 0), CommitOp(4)).s == Four(w, 0, 4)
  {
  }

  lemma ConsumedOne(w: seq<Byte>)
    requires |w| == 4
    ensures Legal(Four(w, 0, 4), ConsumeOp(1, 4096)) && Step(Four(w, 0, 4), ConsumeOp(1, 4096)).s == Four(w, 1, 4)
  {
  }

  /** Four characters are filled in and committed, and one is read. */
  function ReadOneOfFour(w: seq<Byte>): seq<Op> {
    [Fill(0, w), CommitOp(4), ConsumeOp(1, 4096)]
  }

  lemma AfterReadOneOfFour(w: seq<Byte>)
    requires |w| == 4
    ensures LegalRun(Init(4), ReadOneOfFour(w)) && Run(Init(4), ReadOneOfFour(w)) == Four(w, 1, 4)
  {
    FilledFour(w);
    CommittedFour(w);
    ConsumedOne(w);
    RunStep(Four(w, 0, 4), ConsumeOp(1, 4096), []);
    RunStep(Four(w, 0, 0), CommitOp(4), [ConsumeOp(1, 4096)]);
    RunStep(Init(4), Fill(0, w), [CommitOp(4), ConsumeOp(1, 4096)]);
  }

  /** With three characters left in a full buffer, a `prepare` that throws leaves
      other input behind: 2, 3, 4 become 3, 4, 4. */
  lemma PrepareDamagesInput(w: seq<Byte>)
    requires w == [1, 2, 3, 4]
    ensures LegalRun(Init(4), ReadOneOfFour(w))
    ensures var s := Run(Init(4), ReadOneOfFour(w));
      s.Data() == [2, 3, 4] && Reserve(s, 2).LengthError? && Reserve(s, 2).s.Data() == [3, 4, 4]
  {
    AfterReadOneOfFour(w);
    ShiftedFour(w);
  }

  lemma ShiftedFour(w: seq<Byte>)
    requires |w| == 4
    ensures Four(w, 1, 4).Data() == w[1..]
    ensures Reserve(Four(w, 1, 4), 2).LengthError? && Reserve(Four(w, 1, 4), 2).s.Data() == w[2..] + [w[3]]
  {
    AfterFailedReserve(Four(w, 1, 4), 2);
  }

  /** One character in the buffer: consuming the largest count there is moves the
      get position to before the start instead of to the end. */
  lemma ConsumeWraps(b: Byte)
    ensures var ops := [OverflowOp(Char(b))];
      LegalRun(Init(128), ops) &&
      var s := Run(Init(128), ops);
      s.Data() == [b] && Consume(s, SIZE_LIMIT - 1, 4096).gptr == -1
  {
    RunStep(Init(128), OverflowOp(Char(b)), []);
    assert [OverflowOp(Char(b))] + [] == [OverflowOp(Char(b))];
    var s := Step(Init(128), OverflowOp(Char(b))).s;
    assert s.gptr == 0 && s.pptr == 1;
    assert (4096 + SIZE_LIMIT - 1) % SIZE_LIMIT == 4095;
    assert (SIZE_LIMIT - 1) % WORD_LIMIT == WORD_LIMIT - 1;
  }

  /** Committing 2^31 prepared characters moves the put position to before the
      start. */
  lemma CommitTurnsNegative(max: nat)
    requires INT_MAX < max < SIZE_LIMIT
    ensures var ops := [Prepare(INT_MAX + 1)];
      LegalRun(Init(max), ops) &&
      var s := Run(Init(max), ops);
      s.pptr == 0 && |s.Room()| == INT_MAX + 1 && Commit(s, INT_MAX + 1).pptr == -INT_MAX - 1
  {
    RunStep(Init(max), Prepare(INT_MAX + 1), []);
    assert [Prepare(INT_MAX + 1)] + [] == [Prepare(INT_MAX + 1)];
  }
}
