/** Whole runs of the aligned allocator, with many live blocks, arbitrary writes
    of the users inside their own bytes, and other clients of the same memory. */
module AlignedRuns {
  import opened Machine
  import opened Bits
  import opened Alignment
  import opened AlignedSpec

  // ---- Blocks do not interfere ----

  /** The user's bytes and the hidden distance lie inside the block. */
  lemma BlockHoldsAll(h: Heap, p: nat)
    requires h.Layout() && p in h.grants
    ensures var g := h.grants[p];
      && g.base in h.blocks
      && g.base <= p && h.StashAt(p) + h.word <= g.base + h.blocks[g.base] <= |h.mem|
  {
  }

  /** Another block than that of `p` lies before or behind everything of `p`. */
  lemma OtherBlocksAvoided(h: Heap, base: nat, p: nat)
    requires h.Layout() && base in h.blocks && p in h.grants && h.grants[p].base != base
    ensures base + h.blocks[base] <= p || h.StashAt(p) + h.word <= base
  {
  }

  /** So does a range that is free. */
  lemma FreeRangeAvoided(h: Heap, base: nat, total: nat, p: nat)
    requires h.Layout() && 0 < total && IsFree(h, base, total) && p in h.grants
    ensures base + total <= p || h.StashAt(p) + h.word <= base
  {
  }

  lemma FreeBaseIsNew(h: Heap, base: nat, total: nat)
    requires h.Layout() && 0 < total && IsFree(h, base, total)
    ensures base !in h.blocks
  {
  }

  // ---- Recovering the block ----

  lemma MarkRecovers(h: Heap, p: nat)
    requires p in h.grants && h.Marked(p)
    ensures p + h.grants[p].size + h.word <= |h.mem|
    ensures Recovered(h.word, h.mem, p, h.grants[p].size, h.grants[p].align).0 == h.grants[p].base
  {
  }

  /** It is exactly the block that `allocate` obtained. */
  lemma RecoversGrant(h: Heap, p: nat)
    requires h.Valid() && p in h.grants
    ensures var g := h.grants[p];
      && p + g.size + h.word <= |h.mem|
      && Recovered(h.word, h.mem, p, g.size, g.align) == (g.base, Total(h.word, g.size, g.align))
      && g.base in h.blocks && h.blocks[g.base] == Total(h.word, g.size, g.align)
  {
    MarkRecovers(h, p);
    assert h.InBlock(p);
  }

  // ---- Operations ----

  datatype Op =
    | AllocateOp(size: nat, align: nat, base: nat, p: nat, off: nat)
    | WriteOp(p: nat, at: nat, bytes: seq<Byte>)
    | DeallocateOp(p: nat, size: nat, align: nat)
    | OtherAllocate(base: nat, total: nat)
    | OtherWrite(base: nat, at: nat, bytes: seq<Byte>)
    | OtherFree(base: nat)

  /** The block belongs to another client of the underlying allocator. */
  ghost predicate IsOther(h: Heap, base: nat) {
    base in h.blocks && forall p <- h.grants :: h.grants[p].base != base
  }

  /** What callers must respect: `allocate` gets a proper request and a free
      range, users write their own bytes, `deallocate` gets back what was asked
      for, or null, and other clients stay in their own blocks. */
  ghost predicate Legal(h: Heap, op: Op) {
    match op
    case AllocateOp(size, align, base, p, off) =>
      base + off == p && off < align && IsFree(h, base, Total(h.word, size, align))
    case WriteOp(p, at, bytes) => p in h.grants && p <= at && at + |bytes| <= h.StashAt(p)
    case DeallocateOp(p, size, align) =>
      p == 0 || (p in h.grants && h.grants[p].size == size && h.grants[p].align == align)
    case OtherAllocate(base, total) => 0 < total && IsFree(h, base, total)
    case OtherWrite(base, at, bytes) => IsOther(h, base) && base <= at && at + |bytes| <= base + h.blocks[base]
    case OtherFree(base) => IsOther(h, base)
  }

  lemma ReleaseReadsInBounds(h: Heap, p: nat, size: nat, align: nat)
    requires h.Layout() && Legal(h, DeallocateOp(p, size, align))
    ensures p != 0 ==> p + size + h.word <= |h.mem|
  {
  }

  ghost function Step(h: Heap, op: Op): Heap
    requires h.Valid() && Legal(h, op)
  {
    match op
    case AllocateOp(size, align, base, p, off) => Allocate(h, size, align, base, p, off)
    case WriteOp(p, at, bytes) =>
      BlockHoldsAll(h, p);
      StoreAt(h, at, bytes)
    case DeallocateOp(p, size, align) =>
      ReleaseReadsInBounds(h, p, size, align);
      Deallocate(h, p, size, align)
    case OtherAllocate(base, total) => h.(blocks := h.blocks[base := total])
    case OtherWrite(base, at, bytes) => StoreAt(h, at, bytes)
    case OtherFree(base) => h.(blocks := h.blocks - {base})
  }

  // ---- Every operation keeps the invariant ----

  /** A mark survives any change outside the hidden distance. */
  lemma MarkSurvives(h: Heap, t: Heap, p: nat)
    requires p in h.grants && h.Marked(p)
    requires p in t.grants && t.grants[p] == h.grants[p] && t.word == h.word && |t.mem| == |h.mem|
    requires forall k :: h.StashAt(p) <= k < h.StashAt(p) + h.word ==> t.mem[k] == h.mem[k]
    ensures t.Marked(p)
  {
    var s := h.StashAt(p);
    assert Slice(t.mem, s, s + h.word) == Slice(h.mem, s, s + h.word);
  }

  /** The `count` bytes from `at` on touch no hidden distance. */
  ghost predicate AvoidsStashes(h: Heap, at: nat, count: nat) {
    forall p <- h.grants :: at + count <= h.StashAt(p) || h.StashAt(p) + h.word <= at
  }

  /** Bytes outside all hidden distances may change freely. */
  lemma OverwriteKeepsValid(h: Heap, at: nat, bytes: seq<Byte>)
    requires h.Valid() && at + |bytes| <= |h.mem| && AvoidsStashes(h, at, |bytes|)
    ensures StoreAt(h, at, bytes).Valid()
  {
    var t := StoreAt(h, at, bytes);
    forall p <- t.grants
      ensures t.InBlock(p) && t.Marked(p)
    {
      assert h.InBlock(p) && h.Marked(p);
      MarkSurvives(h, t, p);
    }
  }

  lemma WrittenIsThere(mem: seq<Byte>, at: nat, bytes: seq<Byte>)
    requires at + |bytes| <= |mem|
    ensures Slice(Overwritten(mem, at, bytes), at, at + |bytes|) == bytes
  {
  }

  /** Storing a distance and reading it back. */
  lemma StashRoundTrip(mem: seq<Byte>, word: nat, at: nat, off: nat)
    requires at + word <= |mem| && off < Limit(word)
    ensures Decode(Slice(Overwritten(mem, at, Encode(off, word)), at, at + word)) == off
  {
    WrittenIsThere(mem, at, Encode(off, word));
    DecodeEncode(off, word);
  }

  /** A place whose distance was just stored is marked. */
  lemma StoringMarks(t: Heap, mem: seq<Byte>, p: nat, at: nat, off: nat)
    requires p in t.grants && at == t.StashAt(p) && at + t.word <= |mem| && off < Limit(t.word)
    requires t.grants[p].base + off == p && t.mem == Overwritten(mem, at, Encode(off, t.word))
    ensures t.Marked(p)
  {
    StashRoundTrip(mem, t.word, at, off);
  }

  lemma NewPlaceIsMarked(h: Heap, size: nat, align: nat, base: nat, p: nat, off: nat)
    requires h.Layout() && Legal(h, AllocateOp(size, align, base, p, off))
    ensures Allocate(h, size, align, base, p, off).Marked(p)
  {
    StoringMarks(Allocate(h, size, align, base, p, off), h.mem, p, p + size, off);
  }

  /** A new block fits into the layout, and its place is not in use yet. */
  lemma NewBlockKeepsLayout(h: Heap, p: nat, g: Grant, mem: seq<Byte>)
    requires h.Layout() && 0 < g.align && IsFree(h, g.base, Total(h.word, g.size, g.align))
    requires g.base <= p < g.base + g.align && |mem| == |h.mem|
    ensures p !in h.grants
    ensures Heap(h.word, mem, h.blocks[g.base := Total(h.word, g.size, g.align)], h.grants[p := g]).Layout()
  {
    var t := Heap(h.word, mem, h.blocks[g.base := Total(h.word, g.size, g.align)], h.grants[p := g]);
    FreeBaseIsNew(h, g.base, Total(h.word, g.size, g.align));
    forall q <- h.grants
      ensures q != p && h.grants[q].base != g.base && t.InBlock(q)
    {
      assert h.InBlock(q);
      FreeRangeAvoided(h, g.base, Total(h.word, g.size, g.align), q);
    }
    assert t.InBlock(p);
  }

  lemma AllocateKeepsLayout(h: Heap, size: nat, align: nat, base: nat, p: nat, off: nat)
    requires h.Layout() && Legal(h, AllocateOp(size, align, base, p, off))
    ensures p !in h.grants
    ensures Allocate(h, size, align, base, p, off).Layout()
  {
    NewBlockKeepsLayout(h, p, Grant(base, size, align), Allocate(h, size, align, base, p, off).mem);
  }

  lemma AllocateKeepsValid(h: Heap, size: nat, align: nat, base: nat, p: nat, off: nat)
    requires h.Valid() && Legal(h, AllocateOp(size, align, base, p, off))
    ensures Allocate(h, size, align, base, p, off).Valid()
  {
    var t := Allocate(h, size, align, base, p, off);
    AllocateKeepsLayout(h, size, align, base, p, off);
    forall q <- t.grants
      ensures t.Marked(q)
    {
      if q == p {
        NewPlaceIsMarked(h, size, align, base, p, off);
      } else {
        FreeRangeAvoided(h, base, Total(h.word, size, align), q);
        MarkSurvives(h, t, q);
      }
    }
  }

  /** A user's own bytes avoid all hidden distances. */
  lemma OwnBytesAvoidStashes(h: Heap, p: nat, at: nat, count: nat)
    requires h.Layout() && p in h.grants && p <= at && at + count <= h.StashAt(p)
    ensures at + count <= |h.mem| && AvoidsStashes(h, at, count)
  {
  }

  /** So does the block of another client. */
  lemma OtherBytesAvoidStashes(h: Heap, base: nat, at: nat, count: nat)
    requires h.Layout() && IsOther(h, base) && base <= at && at + count <= base + h.blocks[base]
    ensures at + count <= |h.mem| && AvoidsStashes(h, at, count)
  {
  }

  lemma WriteKeepsValid(h: Heap, p: nat, at: nat, bytes: seq<Byte>)
    requires h.Valid() && p in h.grants && p <= at && at + |bytes| <= h.StashAt(p)
    ensures at + |bytes| <= |h.mem| && StoreAt(h, at, bytes).Valid()
  {
    OwnBytesAvoidStashes(h, p, at, |bytes|);
    OverwriteKeepsValid(h, at, bytes);
  }

  lemma OtherWriteKeepsValid(h: Heap, base: nat, at: nat, bytes: seq<Byte>)
    requires h.Valid() && IsOther(h, base) && base <= at && at + |bytes| <= base + h.blocks[base]
    ensures at + |bytes| <= |h.mem| && StoreAt(h, at, bytes).Valid()
  {
    OtherBytesAvoidStashes(h, base, at, |bytes|);
    OverwriteKeepsValid(h, at, bytes);
  }

  /** Giving back a block together with its only request. */
  lemma ReleaseKeepsLayout(h: Heap, p: nat)
    requires h.Layout() && p in h.grants
    ensures h.(blocks := h.blocks - {h.grants[p].base}, grants := h.grants - {p}).Layout()
  {
    var t := h.(blocks := h.blocks - {h.grants[p].base}, grants := h.grants - {p});
    forall q <- t.grants
      ensures t.InBlock(q)
    {
      assert h.InBlock(q);
    }
  }

  /** Another client taking or giving back a block. */
  lemma OtherStepsKeepLayout(h: Heap, op: Op)
    requires h.Valid() && Legal(h, op) && (op.OtherAllocate? || op.OtherFree?)
    ensures Step(h, op).Layout()
  {
    if op.OtherAllocate? {
      FreeBaseIsNew(h, op.base, op.total);
    }
    forall q <- h.grants
      ensures Step(h, op).InBlock(q)
    {
      assert h.InBlock(q);
    }
  }

  /** Taking or giving back blocks without touching memory keeps the layout. */
  lemma BlockStepsKeepLayout(h: Heap, op: Op)
    requires h.Valid() && Legal(h, op) && (op.DeallocateOp? || op.OtherAllocate? || op.OtherFree?)
    ensures Step(h, op).Layout()
  {
    if !op.DeallocateOp? {
      OtherStepsKeepLayout(h, op);
    } else if op.p != 0 {
      RecoversGrant(h, op.p);
      ReleaseKeepsLayout(h, op.p);
    }
  }

  lemma BlockStepsKeepMarks(h: Heap, op: Op)
    requires h.Valid() && Legal(h, op) && (op.DeallocateOp? || op.OtherAllocate? || op.OtherFree?)
    ensures forall q <- Step(h, op).grants :: Step(h, op).Marked(q)
  {
    forall q <- Step(h, op).grants
      ensures Step(h, op).Marked(q)
    {
      MarkSurvives(h, Step(h, op), q);
    }
  }

  lemma StepKeepsValid(h: Heap, op: Op)
    requires h.Valid() && Legal(h, op)
    ensures Step(h, op).Valid()
  {
    if op.AllocateOp? {
      AllocateKeepsValid(h, op.size, op.align, op.base, op.p, op.off);
    } else if op.WriteOp? {
      WriteKeepsValid(h, op.p, op.at, op.bytes);
    } else if op.OtherWrite? {
      OtherWriteKeepsValid(h, op.base, op.at, op.bytes);
    } else {
      BlockStepsKeepLayout(h, op);
      BlockStepsKeepMarks(h, op);
    }
  }

  /** Only its own release forgets a request. */
  lemma StepKeepsGrant(h: Heap, op: Op, p: nat)
    requires h.Valid() && Legal(h, op) && p in h.grants && (op.DeallocateOp? ==> op.p != p)
    ensures p in Step(h, op).grants && Step(h, op).grants[p] == h.grants[p] && Step(h, op).word == h.word
  {
    match op
    case AllocateOp(size, align, base, p, off) => AllocateKeepsLayout(h, size, align, base, p, off);
    case _ =>
  }

  lemma OverwrittenElsewhere(mem: seq<Byte>, at: nat, bytes: seq<Byte>, lo: nat, hi: nat)
    requires at + |bytes| <= |mem| && lo <= hi <= |mem| && (bytes == [] || at + |bytes| <= lo || hi <= at)
    ensures Slice(Overwritten(mem, at, bytes), lo, hi) == Slice(mem, lo, hi)
  {
  }

  /** Where an operation writes, and what. */
  ghost function Written(h: Heap, op: Op): (nat, seq<Byte>) {
    match op
    case AllocateOp(size, _, _, p, off) => (p + size, Encode(off, h.word))
    case WriteOp(_, at, bytes) => (at, bytes)
    case OtherWrite(_, at, bytes) => (at, bytes)
    case _ => (0, [])
  }

  predicate Writes(op: Op) {
    op.AllocateOp? || op.WriteOp? || op.OtherWrite?
  }

  lemma StepWrites(h: Heap, op: Op)
    requires h.Valid() && Legal(h, op) && Writes(op)
    ensures var (at, bytes) := Written(h, op);
      at + |bytes| <= |h.mem| && Step(h, op).mem == Overwritten(h.mem, at, bytes)
  {
  }

  lemma QuietStep(h: Heap, op: Op)
    requires h.Valid() && Legal(h, op) && !Writes(op)
    ensures Step(h, op).mem == h.mem
  {
  }

  /** Nothing is written into the bytes of `p` except by its own user. */
  lemma WritesAvoidUser(h: Heap, op: Op, p: nat)
    requires h.Valid() && Legal(h, op) && p in h.grants && (op.WriteOp? ==> op.p != p)
    ensures h.StashAt(p) <= |h.mem|
    ensures var (at, bytes) := Written(h, op); bytes == [] || at + |bytes| <= p || h.StashAt(p) <= at
  {
    BlockHoldsAll(h, p);
    match op
    case AllocateOp(size, align, base, _, _) =>
      FreeRangeAvoided(h, base, Total(h.word, size, align), p);
    case WriteOp(q, _, _) =>
      BlockHoldsAll(h, q);
      OtherBlocksAvoided(h, h.grants[q].base, p);
    case OtherWrite(base, _, _) => OtherBlocksAvoided(h, base, p);
    case _ =>
  }

  /** Only its own user changes the bytes of `p`. */
  lemma StepKeepsUserBytes(h: Heap, op: Op, p: nat, end: nat)
    requires h.Valid() && Legal(h, op) && p in h.grants && (op.WriteOp? ==> op.p != p)
    requires end == h.StashAt(p)
    ensures |Step(h, op).mem| == |h.mem| && end <= |h.mem|
    ensures Slice(Step(h, op).mem, p, end) == Slice(h.mem, p, end)
  {
    WritesAvoidUser(h, op, p);
    if Writes(op) {
      StepWrites(h, op);
      var (at, bytes) := Written(h, op);
      OverwrittenElsewhere(h.mem, at, bytes, p, end);
    } else {
      QuietStep(h, op);
    }
  }

  // ---- Runs ----

  ghost predicate LegalRun(h: Heap, ops: seq<Op>)
    requires h.Valid()
    decreases |ops|
  {
    ops != [] ==>
      && Legal(h, ops[0])
      && (StepKeepsValid(h, ops[0]); LegalRun(Step(h, ops[0]), ops[1..]))
  }

  ghost function Run(h: Heap, ops: seq<Op>): (t: Heap)
    requires h.Valid() && LegalRun(h, ops)
    ensures t.Valid()
    decreases |ops|
  {
    if ops == [] then h
    else
      StepKeepsValid(h, ops[0]);
      Run(Step(h, ops[0]), ops[1..])
  }

  /** No operation of the run gives `p` back. */
  predicate Keeps(ops: seq<Op>, p: nat) {
    forall k :: 0 <= k < |ops| ==> ops[k].DeallocateOp? ==> ops[k].p != p
  }

  /** No operation of the run is a write of `p`'s own user. */
  predicate LeavesAlone(ops: seq<Op>, p: nat) {
    forall k :: 0 <= k < |ops| ==> ops[k].WriteOp? ==> ops[k].p != p
  }

  /** Over every run that does not give `p` back, the request stays on record. */
  lemma {:induction false} RunKeepsGrant(h: Heap, ops: seq<Op>, p: nat)
    requires h.Valid() && LegalRun(h, ops) && p in h.grants && Keeps(ops, p)
    ensures var t := Run(h, ops); p in t.grants && t.grants[p] == h.grants[p] && t.word == h.word
    decreases |ops|
  {
    if ops == [] {
    } else {
      StepKeepsValid(h, ops[0]);
      StepKeepsGrant(h, ops[0], p);
      RunKeepsGrant(Step(h, ops[0]), ops[1..], p);
    }
  }

  /** And its bytes change only if its own user writes. */
  lemma {:induction false} RunKeepsUserBytes(h: Heap, ops: seq<Op>, p: nat, end: nat)
    requires h.Valid() && LegalRun(h, ops) && p in h.grants && Keeps(ops, p) && LeavesAlone(ops, p)
    requires end == h.StashAt(p)
    ensures end <= |h.mem| == |Run(h, ops).mem|
    ensures Slice(Run(h, ops).mem, p, end) == Slice(h.mem, p, end)
    decreases |ops|
  {
    BlockHoldsAll(h, p);
    if ops == [] {
    } else {
      StepKeepsValid(h, ops[0]);
      StepKeepsGrant(h, ops[0], p);
      StepKeepsUserBytes(h, ops[0], p, end);
      RunKeepsUserBytes(Step(h, ops[0]), ops[1..], p, end);
    }
  }

  /** A request, any run in between, and the matching release: what `deallocate`
      reads and computes is exactly the block that was obtained, and giving it
      back forgets exactly this request. */
  lemma AllocateRunDeallocate(h: Heap, size: nat, align: nat, base: nat, p: nat, off: nat, ops: seq<Op>)
    requires h.Valid() && LegalRun(h, [AllocateOp(size, align, base, p, off)] + ops) && Keeps(ops, p)
    ensures var t := Run(h, [AllocateOp(size, align, base, p, off)] + ops);
      var release := DeallocateOp(p, size, align);
      && p + size + t.word <= |t.mem|
      && Recovered(t.word, t.mem, p, size, align) == (base, Total(h.word, size, align))
      && base in t.blocks && t.blocks[base] == Total(h.word, size, align)
      && Legal(t, release)
      && Step(t, release) == t.(blocks := t.blocks - {base}, grants := t.grants - {p})
  {
    var request := AllocateOp(size, align, base, p, off);
    assert ([request] + ops)[0] == request && ([request] + ops)[1..] == ops;
    StepKeepsValid(h, request);
    var a := Step(h, request);
    RunKeepsGrant(a, ops, p);
    RecoversGrant(Run(a, ops), p);
  }
}
