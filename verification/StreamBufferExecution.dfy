/** The class runs exactly the runs that the theorems are about. */
module StreamBufferExecution {
  import opened Machine
  import opened StreamBufferRuns
  import Impl = StreamBuffer

  method Execute(b: Impl.StreamBuffer, ops: seq<Op>)
    requires b.Valid() && LegalRun(b.Snapshot(), ops)
    modifies b, b.buffer
    ensures b.Valid() && b.Snapshot() == Run(old(b.Snapshot()), ops)
  {
    var i := 0;
    while i < |ops|
      invariant 0 <= i <= |ops|
      invariant b.Valid() && (b.buffer == old(b.buffer) || fresh(b.buffer))
      invariant LegalRun(b.Snapshot(), ops[i..])
      invariant Run(b.Snapshot(), ops[i..]) == Run(old(b.Snapshot()), ops)
    {
      ghost var s := b.Snapshot();
      assert ops[i..][0] == ops[i] && ops[i..][1..] == ops[i + 1..];
      ExecuteOne(b, ops[i]);
      i := i + 1;
    }
  }

  method ExecuteOne(b: Impl.StreamBuffer, op: Op)
    requires b.Valid() && Legal(b.Snapshot(), op)
    modifies b, b.buffer
    ensures b.Valid() && (b.buffer == old(b.buffer) || fresh(b.buffer))
    ensures b.Snapshot() == Step(old(b.Snapshot()), op).s
  {
    match op
    case Prepare(n) => var threw, start, size := b.Prepare(n as SizeT);
    case Fill(at, w) => b.Write(at, w);
    case CommitOp(n) => b.Commit(n as SizeT);
    case ConsumeOp(n, base) => b.Consume(n as SizeT, base as SizeT);
    case OverflowOp(c) => var threw := b.Overflow(c);
    case UnderflowOp => var c := b.Underflow();
    case BumpOp => var c := b.Bump();
  }
}
