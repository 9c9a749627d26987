/** What the socket stream buffer does, stated on plain values. System calls and
    the clock are answered by an oracle: one turn of answers for each time round
    a loop, fixed in advance but otherwise arbitrary. */
module SocketSpec {
  import opened Machine

  const BUFFER_SIZE := 512
  const PUTBACK_MAX := 8

  /** The clock's latest time point. */
  const MAX_EXPIRY: int := 0x7fff_ffff_ffff_ffff

  datatype ErrorCode =
    | Success
    | WouldBlock
    | TryAgain
    | TimedOut
    | EndOfFile
    | NotFound
    | InProgress
    | System(code: nat)

  /** The answer of a transfer call: a result, or minus one with a code. */
  datatype Io<+R> = Done(r: R) | Failed(ec: ErrorCode)

  /** The answer of a poll: how many sockets are ready, which is zero when the
      wait timed out and clears the code anyway, or minus one. */
  datatype Poll = Polled(ready: nat) | PollFailed(ec: ErrorCode)

  /** The answers to the clock reading, the transfer and the poll of one turn. */
  datatype Turn<+R> = Turn(now: int, io: Io<R>, poll: Poll)

  /** The turn ends in another one: the transfer would block, and the wait works. */
  predicate Blocks<R>(t: Turn<R>) {
    t.io.Failed? && (t.io.ec == WouldBlock || t.io.ec == TryAgain) && t.poll.Polled?
  }

  /** The clock never goes back, and waiting takes time. */
  ghost predicate Ticks<R>(turns: nat -> Turn<R>) {
    forall i: nat :: turns(i).now <= turns(i + 1).now && (Blocks(turns(i)) ==> turns(i).now < turns(i + 1).now)
  }

  /** A failing call reports a code. */
  predicate ReportsFailure<R>(t: Turn<R>) {
    && (t.io.Failed? ==> t.io.ec != Success)
    && (t.poll.PollFailed? ==> t.poll.ec != Success)
  }

  /** The time left before the expiry, as a measure for the waiting loops. */
  ghost function Patience<R>(turns: nat -> Turn<R>, at: nat, expiry: int): nat {
    Max(0, expiry - turns(at).now + 1)
  }

  // ---- Sending ----

  /** The end of a send loop: what went out, the next turn, the last code, and
      whether everything went out. */
  datatype Sending = Sending(out: seq<Byte>, at: nat, ec: ErrorCode, done: bool)

  /** Sends until nothing is pending or a call fails. Terminates because each
      turn sends something or waits. */
  function SendAll(pending: seq<Byte>, turns: nat -> Turn<nat>, at: nat, expiry: int, ec: ErrorCode): (r: Sending)
    requires Ticks(turns)
    ensures r.done <==> r.out == pending
    ensures r.out <= pending && at <= r.at
    decreases |pending|, Patience(turns, at, expiry)
  {
    if pending == [] then
      Sending([], at, ec, true)
    else if expiry < turns(at).now then
      Sending([], at + 1, TimedOut, false)
    else
      match turns(at).io
      case Done(k) =>
        if k > 0 then
          var n := Min(k, |pending|);
          var r := SendAll(pending[n..], turns, at + 1, expiry, Success);
          r.(out := pending[..n] + r.out)
        else
          Sending([], at + 1, Success, false)
      case Failed(e) =>
        if e != WouldBlock && e != TryAgain then
          Sending([], at + 1, e, false)
        else
          match turns(at).poll
          case PollFailed(p) => Sending([], at + 1, p, false)
          case Polled(_) => SendAll(pending, turns, at + 1, expiry, Success)
  }

  // ---- Receiving ----

  datatype Receiving = Receiving(bytes: seq<Byte>, at: nat, ec: ErrorCode)

  /** Waits for up to `room` characters; none at all means failure. */
  function ReceiveSome(turns: nat -> Turn<seq<Byte>>, at: nat, expiry: int, room: nat): (r: Receiving)
    requires Ticks(turns) && room > 0
    ensures |r.bytes| <= room && at < r.at
    ensures r.bytes != [] ==> r.ec == Success
    decreases Patience(turns, at, expiry)
  {
    if expiry < turns(at).now then
      Receiving([], at + 1, TimedOut)
    else
      match turns(at).io
      case Done(b) =>
        if b != [] then Receiving(b[..Min(|b|, room)], at + 1, Success) else Receiving([], at + 1, EndOfFile)
      case Failed(e) =>
        if e != WouldBlock && e != TryAgain then
          Receiving([], at + 1, e)
        else
          match turns(at).poll
          case PollFailed(p) => Receiving([], at + 1, p)
          case Polled(_) => ReceiveSome(turns, at + 1, expiry, room)
  }

  // ---- The stream buffer ----

  /** A connection: its oracles, how far each one is used, everything that went
      out on it and everything that came in. */
  datatype Link = Link(
    sendTurns: nat -> Turn<nat>,
    receiveTurns: nat -> Turn<seq<Byte>>,
    sends: nat,
    receives: nat,
    wire: seq<Byte>,
    received: seq<Byte>)
  {
    ghost predicate Valid() {
      Ticks(sendTurns) && Ticks(receiveTurns)
    }

    /** A closed socket: no history, and every call fails. */
    static function Closed(): Link {
      Link((i: nat) => Turn(i, Failed(System(9)), PollFailed(System(9))),
           (i: nat) => Turn(i, Failed(System(9)), PollFailed(System(9))),
           0, 0, [], [])
    }
  }

  /** Positions are offsets into the two buffers. The put buffer is empty when
      the stream buffer is unbuffered. */
  datatype State = State(
    get: seq<Byte>,
    gptr: int,
    egptr: int,
    put: seq<Byte>,
    pbase: int,
    pptr: int,
    epptr: int,
    ec: ErrorCode,
    expiry: int,
    link: Link)
  {
    ghost predicate Valid() {
      && |get| == BUFFER_SIZE && PUTBACK_MAX <= gptr <= egptr <= BUFFER_SIZE
      && (|put| == BUFFER_SIZE || |put| == 0) && 0 <= pbase <= pptr <= epptr == |put|
      && link.Valid()
    }

    /** The characters received and not yet read. */
    function Unread(): seq<Byte>
      requires 0 <= gptr <= egptr <= |get|
    {
      Slice(get, gptr, egptr)
    }

    /** The characters accepted and not yet sent. */
    function Pending(): seq<Byte>
      requires 0 <= pbase <= pptr <= |put|
    {
      Slice(put, pbase, pptr)
    }

    /** `init_buffers`: both areas are empty. */
    function Emptied(): State {
      this.(gptr := PUTBACK_MAX, egptr := PUTBACK_MAX, pbase := 0, pptr := 0, epptr := |put|)
    }
  }

  function Init(link: Link): (s: State)
    requires link.Valid()
    ensures s.Valid() && s.Unread() == [] && s.Pending() == []
  {
    State(Zeros(BUFFER_SIZE), 0, 0, Zeros(BUFFER_SIZE), 0, 0, 0, Success, MAX_EXPIRY, link).Emptied()
  }

  /** The state once `r` is what a send loop did. */
  function AfterSending(s: State, r: Sending): State {
    s.(ec := r.ec, link := s.link.(wire := s.link.wire + r.out, sends := r.at))
  }

  /** Flushes the put area, or sends the character itself when unbuffered. */
  function Overflow(s: State, c: IntType): (State, IntType)
    requires s.Valid()
  {
    if s.put == [] then
      if c.Eof? then (s, Char(0))
      else
        var r := SendAll([c.b], s.link.sendTurns, s.link.sends, s.expiry, s.ec);
        (AfterSending(s, r), if r.done then c else Eof)
    else
      var r := SendAll(s.Pending(), s.link.sendTurns, s.link.sends, s.expiry, s.ec);
      var t := AfterSending(s, r);
      if !r.done then (t, Eof)
      else
        var u := t.(pbase := 0, pptr := 0, epptr := |s.put|);
        if c.Eof? then (u, Char(0)) else (u.(put := u.put[0 := c.b], pptr := 1), c)
  }

  function Sync(s: State): (State, IntType)
    requires s.Valid()
  {
    Overflow(s, Eof)
  }

  /** The inherited public write: stores the character, or makes room first. */
  function PutChar(s: State, b: Byte): (State, IntType)
    requires s.Valid()
  {
    if s.pptr < s.epptr then
      (s.(put := s.put[s.pptr := b], pptr := s.pptr + 1), Char(b))
    else
      Overflow(s, Char(b))
  }

  /** Switches to unbuffered output when asked for no buffer and nothing is pending. */
  function SetBuf(s: State, noBuffer: bool): (State, bool)
    requires s.Valid()
  {
    if s.pptr == s.pbase && noBuffer then
      (Sync(s.(put := [], pbase := 0, pptr := 0, epptr := 0)).0, true)
    else
      (s, false)
  }

  /** Refills an empty get area. */
  function Underflow(s: State): (State, IntType)
    requires s.Valid()
  {
    if s.gptr != s.egptr then (s, Eof)
    else
      var r := ReceiveSome(s.link.receiveTurns, s.link.receives, s.expiry, BUFFER_SIZE - PUTBACK_MAX);
      var t := s.(ec := r.ec, link := s.link.(receives := r.at, received := s.link.received + r.bytes));
      if r.bytes == [] then (t, Eof)
      else
        var end := PUTBACK_MAX + |r.bytes|;
        (t.(get := s.get[..PUTBACK_MAX] + r.bytes + s.get[end..], gptr := PUTBACK_MAX, egptr := end), Char(r.bytes[0]))
  }

  /** The inherited public peek. */
  function Peek(s: State): (State, IntType)
    requires s.Valid()
  {
    if s.gptr < s.egptr then (s, Char(s.get[s.gptr])) else Underflow(s)
  }

  /** The inherited public read. */
  function Bump(s: State): (State, IntType)
    requires s.Valid()
  {
    var (t, c) := Peek(s);
    (if c.Char? then t.(gptr := t.gptr + 1) else t, c)
  }

  /** `close`, where closing the socket itself reports `closing`. */
  function Close(s: State, closing: ErrorCode): State
    requires s.Valid()
  {
    var t := Sync(s).0.(ec := closing);
    if closing == Success then t.Emptied() else t
  }

  /** What a move hands over: both buffers and all positions, except that the
      put area starts where the source's next character would have gone. */
  function TakenFrom(source: State): State {
    source.(pbase := source.pptr)
  }

  /** The new object and the source after a move construction. The source ends
      up with the new object's own fresh buffers and a closed socket. */
  function MoveConstruct(source: State): (State, State) {
    (TakenFrom(source), Init(Link.Closed()))
  }

  /** The target and the source after a move assignment. The target flushes and
      closes first; the source ends up with its get buffer. */
  function MoveAssign(target: State, source: State, closing: ErrorCode): (State, State)
    requires target.Valid()
  {
    var closed := Close(target, closing);
    var put := if closed.put == [] then Zeros(BUFFER_SIZE) else closed.put;
    (TakenFrom(source), Init(Link.Closed()).(get := closed.get, put := put))
  }

  /** The object after a move assignment from itself: it flushes and closes, keeps
      its closed socket, and ends up reset. */
  function MoveAssignSelf(s: State, closing: ErrorCode): State
    requires s.Valid()
  {
    var closed := Close(s, closing);
    var put := if closed.put == [] then Zeros(BUFFER_SIZE) else closed.put;
    Init(closed.link).(get := closed.get, put := put)
  }

  // ---- Connecting ----

  /** The answer to asking a socket for its error. */
  datatype Query = Answer(ec: ErrorCode) | QueryFailed(ec: ErrorCode)

  /** One endpoint, by number, and the answers of the connect loop's turn for it. */
  datatype Attempt = Attempt(
    endpoint: nat,
    now: int,
    opening: ErrorCode,
    connecting: ErrorCode,
    polling: Poll,
    query: Query)
  {
    /** The connect call leaves the connection under way. */
    predicate UnderWay() {
      opening == Success && (connecting == InProgress || connecting == WouldBlock)
    }

    /** The endpoint was reported good, by the connect call or by the query. */
    predicate Good() {
      || (opening == Success && connecting == Success)
      || (UnderWay() && polling.Polled? && query == Answer(Success))
    }

    /** It was reported good and the connection is there: the connect call made
        it, or the socket became ready for writing and has no error. */
    predicate Established() {
      || (opening == Success && connecting == Success)
      || (UnderWay() && polling.Polled? && polling.ready > 0 && query == Answer(Success))
    }

    /** It was reported good only because the wait timed out and nothing had gone
        wrong yet. */
    predicate Premature() {
      UnderWay() && polling == Polled(0) && query == Answer(Success)
    }

    /** The query itself failed, which ends the whole loop. */
    predicate Stuck() {
      UnderWay() && polling.Polled? && query.QueryFailed?
    }

    /** Failing calls report a code. */
    predicate ReportsFailure() {
      && (polling.PollFailed? ==> polling.ec != Success)
      && (query.QueryFailed? ==> query.ec != Success)
    }

    /** The code one turn leaves. */
    function Code(): ErrorCode {
      if opening != Success then opening
      else if !UnderWay() then connecting
      else if polling.PollFailed? then polling.ec
      else query.ec
    }
  }

  /** How the connect loop ends: its code, and the endpoint that the socket was
      last opened for, unless it is closed. */
  datatype Connecting = Connecting(ec: ErrorCode, socket: Option<nat>)

  /** The end of the loop when it arrives at the remaining endpoints. Each turn
      closes the socket and opens it again for its own endpoint. */
  function ConnectRest(attempts: seq<Attempt>, expiry: int, c: Connecting): Connecting
  {
    if attempts == [] then c
    else
      var a := attempts[0];
      if expiry < a.now then c.(ec := TimedOut)
      else
        var turn := Connecting(a.Code(), if a.opening == Success then Some(a.endpoint) else None);
        if a.Good() || a.Stuck() then turn else ConnectRest(attempts[1..], expiry, turn)
  }

  /** The end of the loop when it is entered in state `c`. */
  function Connect(attempts: seq<Attempt>, expiry: int, c: Connecting): Connecting {
    if c.ec != Success then c else ConnectRest(attempts, expiry, c.(ec := NotFound))
  }

  /** The loop reaches endpoint `i`: the ones before it were tried in time and
      failed, and it is in time itself. */
  predicate Reaches(attempts: seq<Attempt>, expiry: int, i: nat)
    requires i < |attempts|
  {
    && attempts[i].now <= expiry
    && forall j :: 0 <= j < i ==> attempts[j].now <= expiry && !attempts[j].Good() && !attempts[j].Stuck()
  }
}
