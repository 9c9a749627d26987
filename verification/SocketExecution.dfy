/** The class runs exactly the runs that the theorems are about. */
module SocketExecution {
  import opened Machine
  import opened SocketRuns
  import Impl = SocketStreamBuffer

  method Execute(b: Impl.SocketStreamBuffer, ops: seq<Op>)
    requires b.Valid()
    modifies b, b.getBuffer, b.putBuffer
    ensures b.Valid() && b.Snapshot() == Run(old(b.Snapshot()), ops)
  {
    var i := 0;
    while i < |ops|
      invariant 0 <= i <= |ops|
      invariant b.Valid() && b.getBuffer == old(b.getBuffer)
      invariant b.putBuffer == old(b.putBuffer) || fresh(b.putBuffer)
      invariant Run(b.Snapshot(), ops[i..]) == Run(old(b.Snapshot()), ops)
    {
      assert ops[i..][0] == ops[i] && ops[i..][1..] == ops[i + 1..];
      var c := ExecuteOne(b, ops[i]);
      i := i + 1;
    }
  }

  method ExecuteOne(b: Impl.SocketStreamBuffer, op: Op) returns (c: IntType)
    requires b.Valid()
    modifies b, b.getBuffer, b.putBuffer
    ensures b.Valid() && b.getBuffer == old(b.getBuffer)
    ensures b.putBuffer == old(b.putBuffer) || fresh(b.putBuffer)
    ensures (b.Snapshot(), c) == Step(old(b.Snapshot()), op)
  {
    match op
    case PutOp(x) => c := b.PutChar(x);
    case SyncOp => c := b.Sync();
    case OverflowOp(x) => c := b.Overflow(x);
    case SetBufOp(noBuffer) =>
      var taken := b.SetBuf(noBuffer);
      c := if taken then Char(0) else Eof;
    case BumpOp => c := b.Bump();
    case PeekOp => c := b.Peek();
    case UnderflowOp => c := b.Underflow();
    case ExpiresAt(expiry) =>
      b.expiry := expiry;
      c := Char(0);
  }
}
