/** Output over whole runs: no accepted character is lost or reordered, and none
    is duplicated unless a failed flush had sent some, whatever the network and
    the clock answer. */
module SocketOutput {
  import opened Machine
  import opened SocketSpec
  import opened SocketRuns

  /** The characters an operation accepted for output. */
  function Accepted(s: State, op: Op): seq<Byte>
    requires s.Valid()
  {
    var ok := Step(s, op).1.Char?;
    match op
    case PutOp(b) => if ok then [b] else []
    case OverflowOp(Char(b)) => if ok then [b] else []
    case _ => []
  }

  /** The characters a failed flush sent; they stay in the put area as well. */
  function Resent(s: State, op: Op): nat
    requires s.Valid()
  {
    var (t, result) := Step(s, op);
    if result.Eof? && |t.link.wire| > |s.link.wire| then |t.link.wire| - |s.link.wire| else 0
  }

  ghost function AllAccepted(s: State, ops: seq<Op>): seq<Byte>
    requires s.Valid()
    decreases |ops|
  {
    if ops == [] then [] else Accepted(s, ops[0]) + AllAccepted(Step(s, ops[0]).0, ops[1..])
  }

  ghost function AllResent(s: State, ops: seq<Op>): nat
    requires s.Valid()
    decreases |ops|
  {
    if ops == [] then 0 else Resent(s, ops[0]) + AllResent(Step(s, ops[0]).0, ops[1..])
  }

  /** A failed flush puts a proper prefix of what was pending on the wire and
      otherwise changes only the error code: the put area keeps every character. */
  lemma FailedOverflow(s: State, c: IntType)
    requires s.Valid() && Overflow(s, c).1.Eof?
    ensures var t := Overflow(s, c).0; exists sent ::
      && sent < (if s.put == [] then [c.b] else s.Pending())
      && t == s.(ec := t.ec, link := s.link.(wire := s.link.wire + sent, sends := t.link.sends))
  {
  }

  /** The network's answers let nothing go out: before any send accepts
      something, the time is up or a call fails. */
  predicate NothingGoesOut(turns: nat -> Turn<nat>, at: nat, expiry: int)
    requires Ticks(turns)
    decreases Patience(turns, at, expiry)
  {
    || expiry < turns(at).now
    || turns(at).io == Done(0)
    || (turns(at).io.Failed? && (!Blocks(turns(at)) || NothingGoesOut(turns, at + 1, expiry)))
  }

  /** The network's answers accept `count` characters before the time is up or a
      call fails. */
  predicate Takes(count: nat, turns: nat -> Turn<nat>, at: nat, expiry: int)
    requires Ticks(turns)
    decreases count, Patience(turns, at, expiry)
  {
    || count == 0
    || (turns(at).now <= expiry &&
        match turns(at).io
        case Done(n) => n > 0 && Takes(count - Min(n, count), turns, at + 1, expiry)
        case Failed(_) => Blocks(turns(at)) && Takes(count, turns, at + 1, expiry))
  }

  lemma {:induction false} SendsNothing(pending: seq<Byte>, turns: nat -> Turn<nat>, at: nat,
                                        expiry: int, ec: ErrorCode)
    requires Ticks(turns) && pending != []
    ensures SendAll(pending, turns, at, expiry, ec).out == [] <==> NothingGoesOut(turns, at, expiry)
    decreases Patience(turns, at, expiry)
  {
    if expiry >= turns(at).now && Blocks(turns(at)) {
      SendsNothing(pending, turns, at + 1, expiry, Success);
    }
  }

  lemma {:induction false} SendCompletes(pending: seq<Byte>, turns: nat -> Turn<nat>, at: nat,
                                         expiry: int, ec: ErrorCode)
    requires Ticks(turns)
    ensures SendAll(pending, turns, at, expiry, ec).done <==> Takes(|pending|, turns, at, expiry)
    decreases |pending|, Patience(turns, at, expiry)
  {
    if pending == [] || expiry < turns(at).now {
    } else if turns(at).io.Done? && turns(at).io.r > 0 {
      SendCompletes(pending[Min(turns(at).io.r, |pending|)..], turns, at + 1, expiry, Success);
    } else if Blocks(turns(at)) {
      SendCompletes(pending, turns, at + 1, expiry, Success);
    }
  }

  /** The operation flushes the put area. */
  predicate Flushes(s: State, op: Op) {
    op.SyncOp? || op.OverflowOp? || (op.PutOp? && s.pptr == s.epptr)
  }

  /** Known before the call, from the state and the network's answers: a flush
      that gets some of the pending characters out, but not all of them. */
  predicate Duplicates(s: State, op: Op)
    requires s.Valid()
  {
    && Flushes(s, op)
    && !Takes(|s.Pending()|, s.link.sendTurns, s.link.sends, s.expiry)
    && !NothingGoesOut(s.link.sendTurns, s.link.sends, s.expiry)
  }

  lemma OverflowResends(s: State, c: IntType)
    requires s.Valid()
    ensures var t := Overflow(s, c).0;
      Overflow(s, c).1.Eof? && |t.link.wire| > |s.link.wire| <==> Duplicates(s, OverflowOp(c))
  {
    if s.put != [] {
      var r := SendAll(s.Pending(), s.link.sendTurns, s.link.sends, s.expiry, s.ec);
      assert |Overflow(s, c).0.link.wire| == |s.link.wire| + |r.out|;
      SendCompletes(s.Pending(), s.link.sendTurns, s.link.sends, s.expiry, s.ec);
      if s.Pending() != [] {
        SendsNothing(s.Pending(), s.link.sendTurns, s.link.sends, s.expiry, s.ec);
      }
    }
  }

  /** An operation sends characters that will be sent again exactly when it
      flushes and the network takes a proper, nonempty part of what is pending. */
  lemma ResentExactly(s: State, op: Op)
    requires s.Valid()
    ensures Resent(s, op) == 0 <==> !Duplicates(s, op)
  {
    match op
    case PutOp(b) =>
      if s.pptr == s.epptr {
        OverflowResends(s, Char(b));
      }
    case SyncOp => OverflowResends(s, Eof);
    case OverflowOp(c) => OverflowResends(s, c);
    case _ => QuietStep(s, op);
  }

  /** A network that takes one character and then fails. */
  function OneThenFail(at: nat, expiry: int): (turns: nat -> Turn<nat>)
    ensures Ticks(turns) && turns(at) == Turn(expiry, Done(1), Polled(1))
    ensures turns(at + 1) == Turn(expiry, Failed(System(32)), Polled(1))
  {
    (i: nat) => Turn(expiry, if i <= at then Done(1) else Failed(System(32)), Polled(1))
  }

  /** A caller can rule out duplicates whatever the network does exactly when at
      most one character is pending. */
  lemma SafeToSync(s: State)
    requires s.Valid()
    ensures |s.Pending()| <= 1 <==>
      forall turns: nat -> Turn<nat> | Ticks(turns) ::
        !Duplicates(s.(link := s.link.(sendTurns := turns)), SyncOp)
  {
    if |s.Pending()| <= 1 {
      forall turns: nat -> Turn<nat> | Ticks(turns)
        ensures !Duplicates(s.(link := s.link.(sendTurns := turns)), SyncOp)
      {
        if |s.Pending()| == 1 {
          OneIsAllOrNothing(turns, s.link.sends, s.expiry);
        }
      }
    } else {
      var turns := OneThenFail(s.link.sends, s.expiry);
      var t := s.(link := s.link.(sendTurns := turns));
      assert !Takes(|s.Pending()| - 1, turns, s.link.sends + 1, s.expiry);
      assert t.Pending() == s.Pending() && Duplicates(t, SyncOp);
    }
  }

  lemma {:induction false} OneIsAllOrNothing(turns: nat -> Turn<nat>, at: nat, expiry: int)
    requires Ticks(turns)
    ensures Takes(1, turns, at, expiry) <==> !NothingGoesOut(turns, at, expiry)
    decreases Patience(turns, at, expiry)
  {
    if turns(at).now <= expiry && Blocks(turns(at)) {
      OneIsAllOrNothing(turns, at + 1, expiry);
    }
  }

  /** A flush that failed left an error code, unless a send accepted nothing. */
  lemma {:induction false} FailedSendHasCode(pending: seq<Byte>, turns: nat -> Turn<nat>, at: nat,
                                             expiry: int, ec: ErrorCode)
    requires Ticks(turns)
    requires forall i: nat :: ReportsFailure(turns(i)) && turns(i).io != Done(0)
    ensures var r := SendAll(pending, turns, at, expiry, ec); !r.done ==> r.ec != Success
    decreases |pending|, Patience(turns, at, expiry)
  {
    if pending == [] || expiry < turns(at).now {
    } else if turns(at).io.Done? {
      FailedSendHasCode(pending[Min(turns(at).io.r, |pending|)..], turns, at + 1, expiry, Success);
    } else if Blocks(turns(at)) {
      FailedSendHasCode(pending, turns, at + 1, expiry, Success);
    }
  }

  /** A strictly increasing choice of places in `b` that spells `a`. */
  ghost predicate Embeds<T>(a: seq<T>, b: seq<T>, places: seq<nat>) {
    && |places| == |a|
    && (forall k :: 0 <= k < |a| ==> places[k] < |b| && b[places[k]] == a[k])
    && (forall j, k :: 0 <= j < k < |a| ==> places[j] < places[k])
  }

  /** The output of `s` with `sent` inserted before what was pending, and with
      `more` appended. */
  function FlowWith(s: State, sent: seq<Byte>, more: seq<Byte>): seq<Byte>
    requires s.Valid()
  {
    s.link.wire + sent + (s.Pending() + more)
  }

  /** Nothing inserted: `more` is appended to the put area. */
  lemma FlowGrows(s: State, t: State, more: seq<Byte>)
    requires s.Valid() && t.Valid() && t.link.wire == s.link.wire && t.Pending() == s.Pending() + more
    ensures Flow(t) == FlowWith(s, [], more)
  {
  }

  /** Everything pending went out. */
  lemma FlowFlushed(s: State, t: State, more: seq<Byte>)
    requires s.Valid() && t.Valid() && t.link.wire == s.link.wire + s.Pending() && t.Pending() == more
    ensures Flow(t) == FlowWith(s, [], more)
  {
  }

  /** A successful flush appends the new character, if any, to the output; a
      failed one inserts a copy of a prefix of the pending characters. */
  lemma OverflowFlow(s: State, c: IntType) returns (sent: seq<Byte>)
    requires s.Valid()
    ensures var (t, result) := Overflow(s, c);
      && Flow(t) == FlowWith(s, sent, if result.Char? && c.Char? then [c.b] else [])
      && (if result.Char? then sent == [] else |t.link.wire| == |s.link.wire| + |sent|)
  {
    var t := Overflow(s, c).0;
    sent := [];
    if Overflow(s, c).1.Eof? {
      FailedOverflow(s, c);
      sent := t.link.wire[|s.link.wire|..];
      assert s.Pending() + [] == s.Pending();
    } else if s.put != [] {
      FlowFlushed(s, t, if c.Char? then [c.b] else []);
    } else {
      assert s.Pending() == t.Pending() == [];
      assert s.link.wire + [] == s.link.wire;
    }
  }

  /** Operations that do not flush leave the output as it is. */
  lemma QuietStep(s: State, op: Op)
    requires s.Valid() && !op.PutOp? && !op.SyncOp? && !op.OverflowOp?
    ensures Flow(Step(s, op).0) == FlowWith(s, [], [])
    ensures Accepted(s, op) == [] && Resent(s, op) == 0
  {
    assert s.Pending() + [] == s.Pending();
    FlowGrows(s, Step(s, op).0, []);
  }

  lemma PutFlow(s: State, b: Byte) returns (sent: seq<Byte>)
    requires s.Valid()
    ensures |sent| == Resent(s, PutOp(b))
    ensures Flow(PutChar(s, b).0) == FlowWith(s, sent, Accepted(s, PutOp(b)))
  {
    if s.pptr < s.epptr {
      sent := [];
      FlowGrows(s, PutChar(s, b).0, [b]);
    } else {
      sent := OverflowFlow(s, Char(b));
    }
  }

  /** What one operation does to the output: it appends what it accepted, or it
      failed and inserted characters it had already sent. */
  lemma StepFlow(s: State, op: Op) returns (sent: seq<Byte>)
    requires s.Valid()
    ensures |sent| == Resent(s, op)
    ensures Flow(Step(s, op).0) == FlowWith(s, sent, Accepted(s, op))
  {
    match op
    case PutOp(b) => sent := PutFlow(s, b);
    case SyncOp => sent := OverflowFlow(s, Eof);
    case OverflowOp(c) => sent := OverflowFlow(s, c);
    case _ =>
      sent := [];
      QuietStep(s, op);
  }

  lemma SplicePlaces<T>(head: seq<T>, sent: seq<T>, tail: seq<T>) returns (places: seq<nat>)
    ensures Embeds(head + tail, head + sent + tail, places)
  {
    places := seq(|head + tail|, k requires 0 <= k => (if k < |head| then k else k + |sent|) as nat);
  }

  /** One operation: everything accepted is still there, in order, and the only
      extra characters are the ones a failed flush had already sent. */
  lemma StepOutput(s: State, op: Op) returns (places: seq<nat>)
    requires s.Valid()
    ensures Embeds(Flow(s) + Accepted(s, op), Flow(Step(s, op).0), places)
    ensures |Flow(Step(s, op).0)| == |Flow(s)| + |Accepted(s, op)| + Resent(s, op)
  {
    var sent := StepFlow(s, op);
    places := SplicePlaces(s.link.wire, sent, s.Pending() + Accepted(s, op));
    Regroup(s.link.wire, s.Pending(), Accepted(s, op));
  }

  lemma ComposePlaces<T>(a: seq<T>, b: seq<T>, x: seq<T>, c: seq<T>, p: seq<nat>, q: seq<nat>)
    returns (places: seq<nat>)
    requires Embeds(a, b, p) && Embeds(b + x, c, q)
    ensures Embeds(a + x, c, places)
  {
    places := seq(|a + x|, k requires 0 <= k < |a + x| => if k < |a| then q[p[k]] else q[|b| + k - |a|]);
  }

  /** Over every run, with any failures: what was there and what was accepted is
      spelled out in order by the wire followed by the put area, so nothing is
      lost or reordered. */
  lemma {:induction false} NothingIsLost(s: State, ops: seq<Op>) returns (places: seq<nat>)
    requires s.Valid()
    ensures Embeds(Flow(s) + AllAccepted(s, ops), Flow(Run(s, ops)), places)
    decreases |ops|
  {
    if ops == [] {
      places := seq(|Flow(s)|, k requires 0 <= k => k as nat);
      assert Flow(s) + [] == Flow(s);
    } else {
      var t, rest := Step(s, ops[0]).0, AllAccepted(Step(s, ops[0]).0, ops[1..]);
      var p := StepOutput(s, ops[0]);
      var q := NothingIsLost(t, ops[1..]);
      places := ComposePlaces(Flow(s) + Accepted(s, ops[0]), Flow(t), rest, Flow(Run(s, ops)), p, q);
      Regroup(Flow(s), Accepted(s, ops[0]), rest);
    }
  }

  /** The surplus over what was accepted is exactly what failed flushes had sent. */
  lemma {:induction false} SurplusIsResent(s: State, ops: seq<Op>)
    requires s.Valid()
    ensures |Flow(Run(s, ops))| == |Flow(s)| + |AllAccepted(s, ops)| + AllResent(s, ops)
    decreases |ops|
  {
    if ops == [] {
    } else {
      var places := StepOutput(s, ops[0]);
      SurplusIsResent(Step(s, ops[0]).0, ops[1..]);
    }
  }

  lemma FullEmbedding<T>(a: seq<T>, b: seq<T>, places: seq<nat>)
    requires Embeds(a, b, places) && |a| == |b|
    ensures a == b
  {
    forall k | 0 <= k < |a|
      ensures places[k] == k
    {
      AtLeast(a, b, places, k);
      AtMost(a, b, places, k);
    }
  }

  lemma {:induction false} AtLeast<T>(a: seq<T>, b: seq<T>, places: seq<nat>, k: nat)
    requires Embeds(a, b, places) && k < |a|
    ensures k <= places[k]
  {
    if k > 0 {
      AtLeast(a, b, places, k - 1);
    }
  }

  lemma {:induction false} AtMost<T>(a: seq<T>, b: seq<T>, places: seq<nat>, k: nat)
    requires Embeds(a, b, places) && k < |a|
    ensures places[k] + (|a| - k) <= |b|
    decreases |a| - k
  {
    if k + 1 < |a| {
      AtMost(a, b, places, k + 1);
    }
  }

  /** No operation of the run duplicates, judged before each one. */
  ghost predicate DuplicateFree(s: State, ops: seq<Op>)
    requires s.Valid()
    decreases |ops|
  {
    ops != [] ==> !Duplicates(s, ops[0]) && DuplicateFree(Step(s, ops[0]).0, ops[1..])
  }

  lemma {:induction false} NothingResent(s: State, ops: seq<Op>)
    requires s.Valid()
    ensures AllResent(s, ops) == 0 <==> DuplicateFree(s, ops)
    decreases |ops|
  {
    if ops != [] {
      ResentExactly(s, ops[0]);
      NothingResent(Step(s, ops[0]).0, ops[1..]);
    }
  }

  /** The wire followed by the put area is exactly what was there and what was
      accepted, without duplication, if and only if no flush of the run met a
      network that would take a proper, nonempty part of what was pending. */
  lemma OutputIsConserved(s: State, ops: seq<Op>)
    requires s.Valid()
    ensures Flow(Run(s, ops)) == Flow(s) + AllAccepted(s, ops) <==> DuplicateFree(s, ops)
  {
    var places := NothingIsLost(s, ops);
    SurplusIsResent(s, ops);
    NothingResent(s, ops);
    if AllResent(s, ops) == 0 {
      FullEmbedding(Flow(s) + AllAccepted(s, ops), Flow(Run(s, ops)), places);
    }
  }

  /** A successful `sync` leaves nothing behind: all output is on the wire. */
  lemma SyncSendsEverything(s: State)
    requires s.Valid()
    ensures Sync(s).1.Char? <==> Sync(s).0.Pending() == [] && Sync(s).0.link.wire == Flow(s)
  {
  }

  lemma UnbufferedStep(s: State, op: Op)
    requires s.Valid() && s.put == []
    ensures var t := Step(s, op).0; t.put == [] && t.link.wire == s.link.wire + Accepted(s, op)
  {
  }

  /** Unbuffered output is exact over every run, failures included: the wire gets
      each accepted character once, in order, at the time it is accepted. */
  lemma {:induction false} UnbufferedIsExact(s: State, ops: seq<Op>)
    requires s.Valid() && s.put == []
    ensures var t := Run(s, ops); t.put == [] && t.link.wire == s.link.wire + AllAccepted(s, ops)
    decreases |ops|
  {
    if ops == [] {
      assert s.link.wire + [] == s.link.wire;
    } else {
      var t := Step(s, ops[0]).0;
      UnbufferedStep(s, ops[0]);
      UnbufferedIsExact(t, ops[1..]);
      Regroup(s.link.wire, Accepted(s, ops[0]), AllAccepted(t, ops[1..]));
    }
  }
}
