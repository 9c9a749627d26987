/** Runs over one connection, as sequences of operations. */
module SocketRuns {
  import opened Machine
  import opened SocketSpec

  datatype Op =
    | PutOp(b: Byte)
    | SyncOp
    | OverflowOp(c: IntType)
    | SetBufOp(noBuffer: bool)
    | BumpOp
    | PeekOp
    | UnderflowOp
    | ExpiresAt(expiry: int)

  /** One operation and the value it returns; for `setbuf` that value is `Eof`
      when the request is refused. */
  function Step(s: State, op: Op): (r: (State, IntType))
    requires s.Valid()
    ensures r.0.Valid()
    ensures r.0.link.sendTurns == s.link.sendTurns && r.0.link.receiveTurns == s.link.receiveTurns
  {
    match op
    case PutOp(b) => PutChar(s, b)
    case SyncOp => Sync(s)
    case OverflowOp(c) => Overflow(s, c)
    case SetBufOp(noBuffer) => var (t, taken) := SetBuf(s, noBuffer); (t, if taken then Char(0) else Eof)
    case BumpOp => Bump(s)
    case PeekOp => Peek(s)
    case UnderflowOp => Underflow(s)
    case ExpiresAt(expiry) => (s.(expiry := expiry), Char(0))
  }

  ghost function Run(s: State, ops: seq<Op>): (t: State)
    requires s.Valid()
    ensures t.Valid()
    decreases |ops|
  {
    if ops == [] then s else Run(Step(s, ops[0]).0, ops[1..])
  }

  /** The output of a connection so far: what is on the wire, then what waits. */
  function Flow(s: State): seq<Byte>
    requires s.Valid()
  {
    s.link.wire + s.Pending()
  }
}
