/** Running any operations on the allocator object, which ends in the state that
    the theorems about runs speak of. */
module AlignedExecution {
  import opened Alignment
  import opened AlignedSpec
  import opened AlignedRuns
  import opened AlignedAllocator

  /** The request is a proper one, and its place is the one that `std::align`
      finds in the block. */
  predicate IsPlaced(word: nat, op: Op) {
    op.AllocateOp? ==> IsRequest(word, op.size, op.align) && 0 < op.align && op.p == Place(op.base, op.align)
  }

  lemma RunOne(h: Heap, ops: seq<Op>)
    requires h.Valid() && LegalRun(h, ops) && ops != []
    ensures Legal(h, ops[0]) && Step(h, ops[0]).Valid() && LegalRun(Step(h, ops[0]), ops[1..])
    ensures Run(h, ops) == Run(Step(h, ops[0]), ops[1..])
  {
    StepKeepsValid(h, ops[0]);
  }

  method ExecuteOne(a: AlignedAllocator, op: Op)
    requires a.Valid() && Legal(a.Snapshot(), op) && IsPlaced(a.word, op)
    modifies a`blocks, a`grants, a.mem
    ensures a.Valid() && a.Snapshot() == Step(old(a.Snapshot()), op)
  {
    ghost var h := a.Snapshot();
    StepKeepsValid(h, op);
    match op
    case AllocateOp(size, align, base, p, off) =>
      var place := a.Allocate(size, align, base);
    case WriteOp(p, at, bytes) =>
      BlockHoldsAll(h, p);
      a.WriteBytes(at, bytes);
    case DeallocateOp(p, size, align) =>
      a.Deallocate(p, size, align);
    case OtherAllocate(base, total) =>
      a.TakeBlock(base, total);
    case OtherWrite(base, at, bytes) =>
      a.WriteBytes(at, bytes);
    case OtherFree(base) =>
      a.GiveBlock(base, a.blocks[base]);
  }

  method Execute(a: AlignedAllocator, ops: seq<Op>)
    requires a.Valid() && LegalRun(a.Snapshot(), ops)
    requires forall op | op in ops :: IsPlaced(a.word, op)
    modifies a`blocks, a`grants, a.mem
    ensures a.Valid() && a.Snapshot() == Run(old(a.Snapshot()), ops)
  {
    if ops != [] {
      RunOne(a.Snapshot(), ops);
      ExecuteOne(a, ops[0]);
      Execute(a, ops[1..]);
    }
  }
}
