/** What the retry loops make of the answers of the network and the clock, found
    from the answers alone: which turn ends a loop, and what comes of it. */
module SocketAnswers {
  import opened Machine
  import opened SocketSpec

  // ---- Receiving ----

  /** All turns from `from` on and before `end` are in time and wait. */
  predicate Waits<R>(turns: nat -> Turn<R>, from: nat, end: nat, expiry: int) {
    from <= end && forall j: nat | from <= j < end :: turns(j).now <= expiry && Blocks(turns(j))
  }

  /** The turn is too late, or does not wait. */
  predicate Ends<R>(t: Turn<R>, expiry: int) {
    expiry < t.now || !Blocks(t)
  }

  /** Some turn ends the waiting. */
  lemma {:induction false} WaitingEnds<R>(turns: nat -> Turn<R>, at: nat, expiry: int) returns (k: nat)
    requires Ticks(turns)
    ensures Waits(turns, at, k, expiry) && Ends(turns(k), expiry)
    decreases Patience(turns, at, expiry)
  {
    if Ends(turns(at), expiry) {
      k := at;
    } else {
      k := WaitingEnds(turns, at + 1, expiry);
    }
  }

  /** The bytes one turn brings, when up to `room` are asked for. */
  function TurnBytes(t: Turn<seq<Byte>>, expiry: int, room: nat): seq<Byte> {
    if t.now <= expiry && t.io.Done? then t.io.r[..Min(|t.io.r|, room)] else []
  }

  /** The code a turn leaves that ends a receive. */
  function ReceiveCode(t: Turn<seq<Byte>>, expiry: int): ErrorCode
    requires Ends(t, expiry)
  {
    if expiry < t.now then TimedOut
    else
      match t.io
      case Done(b) => if b == [] then EndOfFile else Success
      case Failed(e) => if e == WouldBlock || e == TryAgain then t.poll.ec else e
  }

  /** The first turn that does not wait decides: its bytes are received as far as
      there is room, and the code says how it ended. */
  lemma {:induction false} ReceiveIsAnswered(turns: nat -> Turn<seq<Byte>>, at: nat, expiry: int, room: nat, k: nat)
    requires Ticks(turns) && room > 0 && Waits(turns, at, k, expiry) && Ends(turns(k), expiry)
    ensures ReceiveSome(turns, at, expiry, room)
         == Receiving(TurnBytes(turns(k), expiry, room), k + 1, ReceiveCode(turns(k), expiry))
    decreases k - at
  {
    if at < k {
      ReceiveIsAnswered(turns, at + 1, expiry, room, k);
    }
  }

  /** The bytes of the turns from `from` on and before `end`. */
  function AnsweredBytes(turns: nat -> Turn<seq<Byte>>, from: nat, end: nat, expiry: int, room: nat): seq<Byte>
    requires from <= end
    decreases end - from
  {
    if from == end then [] else TurnBytes(turns(from), expiry, room) + AnsweredBytes(turns, from + 1, end, expiry, room)
  }

  lemma {:induction false} AnsweredInTwo(turns: nat -> Turn<seq<Byte>>, a: nat, b: nat, c: nat, expiry: int, room: nat)
    requires a <= b <= c
    ensures AnsweredBytes(turns, a, c, expiry, room)
         == AnsweredBytes(turns, a, b, expiry, room) + AnsweredBytes(turns, b, c, expiry, room)
    decreases b - a
  {
    if a < b {
      AnsweredInTwo(turns, a + 1, b, c, expiry, room);
    }
  }

  lemma {:induction false} WaitingBringsNothing(
    turns: nat -> Turn<seq<Byte>>, from: nat, end: nat, expiry: int, room: nat)
    requires Waits(turns, from, end, expiry)
    ensures AnsweredBytes(turns, from, end, expiry, room) == []
    decreases end - from
  {
    if from < end {
      WaitingBringsNothing(turns, from + 1, end, expiry, room);
    }
  }

  /** A receive loop receives exactly the bytes of the turns it used. */
  lemma ReceivesTheAnswers(turns: nat -> Turn<seq<Byte>>, at: nat, expiry: int, room: nat)
    requires Ticks(turns) && room > 0
    ensures var r := ReceiveSome(turns, at, expiry, room); r.bytes == AnsweredBytes(turns, at, r.at, expiry, room)
  {
    var k := WaitingEnds(turns, at, expiry);
    ReceiveIsAnswered(turns, at, expiry, room, k);
    AnsweredInTwo(turns, at, k, k + 1, expiry, room);
    WaitingBringsNothing(turns, at, k, expiry, room);
    assert AnsweredBytes(turns, k + 1, k + 1, expiry, room) == [];
  }

  // ---- Sending ----

  /** The turn is in time, and a send accepts something or would block. */
  predicate GoesOn(t: Turn<nat>, expiry: int) {
    t.now <= expiry && (Blocks(t) || (t.io.Done? && t.io.r > 0))
  }

  /** How many characters the turns from `from` on and before `end` accept. */
  function Capacity(turns: nat -> Turn<nat>, from: nat, end: nat): nat
    requires from <= end
    decreases end - from
  {
    if from == end then 0 else (if turns(from).io.Done? then turns(from).io.r else 0) + Capacity(turns, from + 1, end)
  }

  /** Turn `k` ends a send of `count` characters: the ones before it go on and
      accept too few, and it is the last one needed or does not go on. */
  ghost predicate SendEndsAt(turns: nat -> Turn<nat>, at: nat, expiry: int, count: nat, k: nat) {
    && at <= k
    && (forall j: nat | at <= j < k :: GoesOn(turns(j), expiry))
    && Capacity(turns, at, k) < count
    && (GoesOn(turns(k), expiry) ==> count <= Capacity(turns, at, k) + if turns(k).io.Done? then turns(k).io.r else 0)
  }

  /** There is one for every send of something. */
  lemma {:induction false} SendingEnds(turns: nat -> Turn<nat>, at: nat, expiry: int, count: nat) returns (k: nat)
    requires Ticks(turns) && count > 0
    ensures SendEndsAt(turns, at, expiry, count, k)
    decreases count, Patience(turns, at, expiry)
  {
    var accepted := if turns(at).io.Done? then turns(at).io.r else 0;
    if !GoesOn(turns(at), expiry) || count <= accepted {
      k := at;
    } else {
      k := SendingEnds(turns, at + 1, expiry, count - accepted);
    }
  }

  /** The code a turn leaves that ends a send. */
  function SendCode(t: Turn<nat>, expiry: int): ErrorCode
    requires !Blocks(t) || expiry < t.now
  {
    if expiry < t.now then TimedOut
    else
      match t.io
      case Done(_) => Success
      case Failed(e) => if e == WouldBlock || e == TryAgain then t.poll.ec else e
  }

  /** That turn decides: everything went out and the code is clear, or as much as
      the turns before it accepted, and the code says why no more. */
  lemma {:induction false} SendIsAnswered(
    pending: seq<Byte>, turns: nat -> Turn<nat>, at: nat, expiry: int, ec: ErrorCode, k: nat)
    requires Ticks(turns) && SendEndsAt(turns, at, expiry, |pending|, k)
    ensures SendAll(pending, turns, at, expiry, ec) ==
      if GoesOn(turns(k), expiry) then Sending(pending, k + 1, Success, true)
      else Sending(pending[..Capacity(turns, at, k)], k + 1, SendCode(turns(k), expiry), false)
    decreases k - at
  {
    if at < k {
      var n := if turns(at).io.Done? then turns(at).io.r else 0;
      SendIsAnswered(pending[n..], turns, at + 1, expiry, Success, k);
      assert pending[n..] == pending || n > 0;
      assert pending[..n] + pending[n..] == pending;
      assert pending[..n] + pending[n..][..Capacity(turns, at + 1, k)] == pending[..Capacity(turns, at, k)];
    }
  }

  /** Sending nothing asks nobody and keeps the code. */
  lemma SendNothing(turns: nat -> Turn<nat>, at: nat, expiry: int, ec: ErrorCode)
    requires Ticks(turns)
    ensures SendAll([], turns, at, expiry, ec) == Sending([], at, ec, true)
  {
  }
}
