/** Input over whole runs: the reader gets what the network answered, in order. */
module SocketInput {
  import opened Machine
  import opened SocketAnswers
  import opened SocketSpec
  import opened SocketRuns

  /** The characters an operation handed to the reader for good. */
  function Delivered(s: State, op: Op): seq<Byte>
    requires s.Valid()
  {
    match (op, Step(s, op).1)
    case (BumpOp, Char(b)) => [b]
    case _ => []
  }

  ghost function AllDelivered(s: State, ops: seq<Op>): seq<Byte>
    requires s.Valid()
    decreases |ops|
  {
    if ops == [] then [] else Delivered(s, ops[0]) + AllDelivered(Step(s, ops[0]).0, ops[1..])
  }

  /** How many characters one receive asks for. */
  const ROOM := BUFFER_SIZE - PUTBACK_MAX

  /** The bytes of the answers that an operation used. */
  function Arrived(s: State, op: Op): seq<Byte>
    requires s.Valid()
  {
    var until := Step(s, op).0.link.receives;
    if until <= s.link.receives then []
    else AnsweredBytes(s.link.receiveTurns, s.link.receives, until, s.expiry, ROOM)
  }

  ghost function AllArrived(s: State, ops: seq<Op>): seq<Byte>
    requires s.Valid()
    decreases |ops|
  {
    if ops == [] then [] else Arrived(s, ops[0]) + AllArrived(Step(s, ops[0]).0, ops[1..])
  }

  /** The operation reads, and finds the get area empty. */
  predicate Refills(s: State, op: Op) {
    s.gptr == s.egptr && (op.BumpOp? || op.PeekOp? || op.UnderflowOp?)
  }

  /** A refill is decided by the first turn `k` that is late or does not wait: its
      bytes become the get area, behind the putback places, and the reader sees the
      first of them; without any only the code changes. */
  lemma RefillIsAnswered(s: State, op: Op, k: nat)
    requires s.Valid() && Refills(s, op)
    requires Waits(s.link.receiveTurns, s.link.receives, k, s.expiry) && Ends(s.link.receiveTurns(k), s.expiry)
    ensures var (t, c) := Step(s, op);
      var bytes := TurnBytes(s.link.receiveTurns(k), s.expiry, ROOM);
      && t == s.(get := t.get, gptr := t.gptr, egptr := t.egptr, ec := t.ec, link := t.link)
      && t.link == s.link.(receives := k + 1, received := s.link.received + bytes)
      && t.ec == ReceiveCode(s.link.receiveTurns(k), s.expiry)
      && (bytes == [] ==> c == Eof && t.get == s.get && t.gptr == s.gptr && t.egptr == s.egptr)
      && (bytes != [] ==>
            && c == Char(bytes[0]) && t.get[..PUTBACK_MAX] == s.get[..PUTBACK_MAX]
            && t.gptr == PUTBACK_MAX + (if op.BumpOp? then 1 else 0) && t.egptr == PUTBACK_MAX + |bytes|
            && Slice(t.get, PUTBACK_MAX, t.egptr) == bytes)
  {
    ReceiveIsAnswered(s.link.receiveTurns, s.link.receives, s.expiry, ROOM, k);
    assert s.link.received + [] == s.link.received;
  }

  /** A refill that fails leaves the get area empty and where it was. */
  lemma FailedUnderflow(s: State)
    requires s.Valid() && s.gptr == s.egptr && Underflow(s).1.Eof?
    ensures var t := Underflow(s).0;
      t == s.(ec := t.ec, link := s.link.(receives := t.link.receives))
  {
    assert s.link.received + [] == s.link.received;
  }

  /** Only a refill uses up answers, and what it receives is what they brought. */
  lemma ArrivalIsReceived(s: State, op: Op)
    requires s.Valid()
    ensures s.link.receives <= Step(s, op).0.link.receives
    ensures s.link.receives < Step(s, op).0.link.receives <==> Refills(s, op)
    ensures Step(s, op).0.link.received == s.link.received + Arrived(s, op)
  {
    if Refills(s, op) {
      var k := WaitingEnds(s.link.receiveTurns, s.link.receives, s.expiry);
      RefillIsAnswered(s, op, k);
      AnswersOfRefill(s.link.receiveTurns, s.link.receives, k, s.expiry);
    } else {
      QuietInput(s, op);
      assert s.link.received + [] == s.link.received;
    }
  }

  lemma AnswersOfRefill(turns: nat -> Turn<seq<Byte>>, at: nat, k: nat, expiry: int)
    requires Waits(turns, at, k, expiry)
    ensures AnsweredBytes(turns, at, k + 1, expiry, ROOM) == TurnBytes(turns(k), expiry, ROOM)
  {
    AnsweredInTwo(turns, at, k, k + 1, expiry, ROOM);
    WaitingBringsNothing(turns, at, k, expiry, ROOM);
    assert AnsweredBytes(turns, k + 1, k + 1, expiry, ROOM) == [];
  }

  lemma QuietInput(s: State, op: Op)
    requires s.Valid() && !Refills(s, op)
    ensures var l := Step(s, op).0.link; l.receives == s.link.receives && l.received == s.link.received
  {
  }

  /** A reading operation that does not refill moves over the oldest unread
      character, or only shows it. */
  lemma ReadsOldest(s: State, op: Op)
    requires s.Valid() && s.gptr < s.egptr
    ensures op.PeekOp? ==> Step(s, op) == (s, Char(s.Unread()[0]))
    ensures op.BumpOp? ==> Step(s, op) == (s.(gptr := s.gptr + 1), Char(s.Unread()[0]))
    ensures op.UnderflowOp? ==> Step(s, op) == (s, Eof)
  {
  }

  lemma RefilledUnread(s: State, op: Op, bytes: seq<Byte>)
    requires s.Valid() && Refills(s, op)
    requires var t := Step(s, op).0;
      if bytes == [] then Step(s, op).1 == Eof && t.gptr == t.egptr
      else
        && Step(s, op).1 == Char(bytes[0]) && t.egptr == PUTBACK_MAX + |bytes|
        && t.gptr == PUTBACK_MAX + (if op.BumpOp? then 1 else 0) && Slice(t.get, PUTBACK_MAX, t.egptr) == bytes
    ensures bytes == Delivered(s, op) + Step(s, op).0.Unread()
  {
    if bytes != [] {
      var t := Step(s, op).0;
      assert forall k :: PUTBACK_MAX <= k < t.egptr ==> t.get[k] == bytes[k - PUTBACK_MAX];
    }
  }

  lemma UnreadStepInput(s: State, op: Op)
    requires s.Valid() && s.gptr < s.egptr && (op.BumpOp? || op.PeekOp? || op.UnderflowOp?)
    ensures s.Unread() == Delivered(s, op) + Step(s, op).0.Unread()
  {
    ReadsOldest(s, op);
    assert s.Unread() == [s.Unread()[0]] + Slice(s.get, s.gptr + 1, s.egptr);
  }

  lemma RefillInput(s: State, op: Op)
    requires s.Valid() && Refills(s, op)
    ensures Arrived(s, op) == Delivered(s, op) + Step(s, op).0.Unread()
  {
    var k := WaitingEnds(s.link.receiveTurns, s.link.receives, s.expiry);
    RefillIsAnswered(s, op, k);
    AnswersOfRefill(s.link.receiveTurns, s.link.receives, k, s.expiry);
    RefilledUnread(s, op, TurnBytes(s.link.receiveTurns(k), s.expiry, ROOM));
  }

  /** Operations on the output side leave the input as it is. */
  lemma OutputStepsKeepInput(s: State, op: Op)
    requires s.Valid() && !op.BumpOp? && !op.PeekOp? && !op.UnderflowOp?
    ensures Delivered(s, op) == Arrived(s, op) == [] && Step(s, op).0.Unread() == s.Unread()
  {
    QuietInput(s, op);
  }

  lemma StepInput(s: State, op: Op)
    requires s.Valid()
    ensures s.Unread() + Arrived(s, op) == Delivered(s, op) + Step(s, op).0.Unread()
  {
    if Refills(s, op) {
      RefillInput(s, op);
      assert s.Unread() == [];
    } else {
      QuietInput(s, op);
      if op.BumpOp? || op.PeekOp? || op.UnderflowOp? {
        UnreadStepInput(s, op);
      } else {
        OutputStepsKeepInput(s, op);
      }
      assert s.Unread() + [] == s.Unread();
    }
  }

  /** Over every run: what was unread and what the network answered is what the
      reader got and what is left unread, in order; and the answers are logged. */
  lemma {:induction false} InputIsConserved(s: State, ops: seq<Op>)
    requires s.Valid()
    ensures s.Unread() + AllArrived(s, ops) == AllDelivered(s, ops) + Run(s, ops).Unread()
    ensures Run(s, ops).link.received == s.link.received + AllArrived(s, ops)
    decreases |ops|
  {
    if ops == [] {
      assert s.link.received + [] == s.link.received;
    } else {
      var t := Step(s, ops[0]).0;
      StepInput(s, ops[0]);
      ArrivalIsReceived(s, ops[0]);
      InputIsConserved(t, ops[1..]);
      Chain(s.Unread(), Arrived(s, ops[0]), Delivered(s, ops[0]), t.Unread(),
            AllArrived(t, ops[1..]), AllDelivered(t, ops[1..]), Run(s, ops).Unread());
      Regroup(s.link.received, Arrived(s, ops[0]), AllArrived(t, ops[1..]));
    }
  }

  /** While the expiry time stays, what arrives is what the network answered in
      all the turns from the first to the last one used. */
  lemma {:induction false} ArrivalsAreAnswers(s: State, ops: seq<Op>)
    requires s.Valid() && forall op | op in ops :: !op.ExpiresAt?
    ensures s.link.receives <= Run(s, ops).link.receives
    ensures AllArrived(s, ops)
         == AnsweredBytes(s.link.receiveTurns, s.link.receives, Run(s, ops).link.receives, s.expiry, ROOM)
    decreases |ops|
  {
    if ops != [] {
      var t := Step(s, ops[0]).0;
      ArrivalIsReceived(s, ops[0]);
      ExpiryStays(s, ops[0]);
      ArrivalsAreAnswers(t, ops[1..]);
      AnsweredInTwo(s.link.receiveTurns, s.link.receives, t.link.receives, Run(t, ops[1..]).link.receives,
                    s.expiry, ROOM);
    }
  }

  lemma ExpiryStays(s: State, op: Op)
    requires s.Valid() && !op.ExpiresAt?
    ensures Step(s, op).0.expiry == s.expiry
  {
  }

  /** On a new connection the reader gets exactly what the network answered, up to
      what is still unread. */
  lemma ReaderSeesWhatArrived(link: Link, ops: seq<Op>)
    requires link.Valid()
    ensures var t := Run(Init(link), ops);
      var seen := AllDelivered(Init(link), ops) + t.Unread();
      && AllArrived(Init(link), ops) == seen
      && t.link.received == link.received + seen
      && ((forall op | op in ops :: !op.ExpiresAt?) ==>
            && link.receives <= t.link.receives
            && AnsweredBytes(link.receiveTurns, link.receives, t.link.receives, MAX_EXPIRY, ROOM) == seen)
  {
    InputIsConserved(Init(link), ops);
    assert [] + AllArrived(Init(link), ops) == AllArrived(Init(link), ops);
    if forall op | op in ops :: !op.ExpiresAt? {
      ArrivalsAreAnswers(Init(link), ops);
    }
  }
}
