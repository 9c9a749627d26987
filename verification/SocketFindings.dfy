/** Concrete runs that show where the socket stream buffer parts from what one
    would expect, one for each of the exact conditions in the other modules. */
module SocketFindings {
  import opened Machine
  import opened SocketSpec
  import opened SocketRuns
  import opened SocketOutput

  /** A network that takes one character at a time, but whose second send fails. */
  function FailsOnce(): (turns: nat -> Turn<nat>)
    ensures Ticks(turns)
  {
    (i: nat) => Turn(0, if i == 1 then Failed(System(32)) else Done(1), Polled(1))
  }

  function OnNetwork(turns: nat -> Turn<nat>): (s: State)
    requires Ticks(turns)
    ensures s.Valid() && s.link.wire == [] && s.Pending() == []
  {
    Init(Link.Closed().(sendTurns := turns))
  }

  lemma PutTwo(s: State, a: Byte, b: Byte)
    requires s.Valid() && s.put != [] && s.Pending() == [] && s.pptr + 2 <= s.epptr
    ensures var t := Run(s, [PutOp(a), PutOp(b)]);
      t.Pending() == [a, b] && t.put != [] && t.link == s.link && t.expiry == s.expiry
  {
    var t := Step(s, PutOp(a)).0;
    assert [PutOp(a), PutOp(b)][1..] == [PutOp(b)];
    assert Run(t, [PutOp(b)]) == Run(Step(t, PutOp(b)).0, []);
  }

  lemma SendsOneOfTwo(a: Byte, b: Byte, expiry: int, ec: ErrorCode)
    requires 0 <= expiry
    ensures SendAll([a, b], FailsOnce(), 0, expiry, ec) == Sending([a], 2, System(32), false)
  {
    assert [a, b][1..] == [b] && [a, b][..1] == [a];
    assert SendAll([b], FailsOnce(), 1, expiry, Success) == Sending([], 2, System(32), false);
  }

  lemma SendsBoth(a: Byte, b: Byte, expiry: int, ec: ErrorCode)
    requires 0 <= expiry
    ensures SendAll([a, b], FailsOnce(), 2, expiry, ec).out == [a, b]
  {
    SendCompletes([a, b], FailsOnce(), 2, expiry, ec);
    assert Takes(1, FailsOnce(), 3, expiry);
  }

  /** Two characters are written and flushed twice, because the first flush failed
      half way: the other side receives the first character twice. */
  lemma RetryDuplicates(a: Byte, b: Byte)
    ensures var s := Run(OnNetwork(FailsOnce()), [PutOp(a), PutOp(b)]);
      && Sync(s).1.Eof? && Sync(s).0.link.wire == [a] && Sync(s).0.Pending() == [a, b]
      && Sync(Sync(s).0).1.Char? && Sync(Sync(s).0).0.link.wire == [a, a, b]
  {
    var s := Run(OnNetwork(FailsOnce()), [PutOp(a), PutOp(b)]);
    PutTwo(OnNetwork(FailsOnce()), a, b);
    SendsOneOfTwo(a, b, s.expiry, s.ec);
    assert Sync(s) == (AfterSending(s, Sending([a], 2, System(32), false)), Eof);
    assert [] + [a] == [a];
    SendsAgain(Sync(s).0, a, b);
  }

  lemma SendsAgain(s: State, a: Byte, b: Byte)
    requires s.Valid() && s.link.sendTurns == FailsOnce() && s.link.sends == 2 && 0 <= s.expiry
    requires s.put != [] && s.Pending() == [a, b] && s.link.wire == [a]
    ensures Sync(s).1.Char? && Sync(s).0.link.wire == [a, a, b]
  {
    SendsBoth(a, b, s.expiry, s.ec);
    assert Sync(s).0.link.wire == [a] + [a, b];
  }

  /** A character is written, and the stream buffer is moved before it is flushed:
      the new owner has the connection, but the character is gone. */
  lemma MoveLosesPending(turns: nat -> Turn<nat>, a: Byte)
    requires Ticks(turns)
    ensures var (s, result) := Step(OnNetwork(turns), PutOp(a));
      var (t, left) := MoveConstruct(s);
      result == Char(a) && Flow(s) == [a] && t.link == s.link && Flow(t) == [] && Flow(left) == []
  {
  }

  /** Past the expiry time, a flush with output pending and a refill of an empty
      get area fail at once, with `TimedOut` and without any transfer. */
  lemma ExpiredOperationsTimeOut(s: State)
    requires s.Valid()
    ensures s.Pending() != [] && s.expiry < s.link.sendTurns(s.link.sends).now ==>
      Sync(s) == (s.(ec := TimedOut, link := s.link.(sends := s.link.sends + 1)), Eof)
    ensures s.gptr == s.egptr && s.expiry < s.link.receiveTurns(s.link.receives).now ==>
      Underflow(s) == (s.(ec := TimedOut, link := s.link.(receives := s.link.receives + 1)), Eof)
  {
    assert s.link.wire + [] == s.link.wire && s.link.received + [] == s.link.received;
  }
}
