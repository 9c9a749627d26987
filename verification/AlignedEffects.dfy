/** What single operations on the heap do to memory, blocks and requests. */
module AlignedEffects {
  import opened Machine
  import opened Bits
  import opened Alignment
  import opened AlignedSpec
  import opened AlignedRuns

  /** The bytes from `at` on are `bytes`, and all others are as before. */
  predicate Lands(mem: seq<Byte>, at: nat, bytes: seq<Byte>, was: seq<Byte>) {
    && |mem| == |was| && at + |bytes| <= |mem|
    && (forall k :: 0 <= k < |bytes| ==> mem[at + k] == bytes[k])
    && (forall k :: 0 <= k < |mem| && (k < at || at + |bytes| <= k) ==> mem[k] == was[k])
  }

  /** Writes of users and of other clients land where they belong, and nowhere else. */
  lemma WritesLand(h: Heap, op: Op)
    requires h.Valid() && Legal(h, op) && (op.WriteOp? || op.OtherWrite?)
    ensures var t := Step(h, op);
      Lands(t.mem, op.at, op.bytes, h.mem) && t == h.(mem := t.mem)
  {
    if op.WriteOp? {
      BlockHoldsAll(h, op.p);
    }
  }

  lemma OverwrittenLands(mem: seq<Byte>, at: nat, bytes: seq<Byte>)
    requires at + |bytes| <= |mem|
    ensures Lands(Overwritten(mem, at, bytes), at, bytes, mem)
    ensures Slice(Overwritten(mem, at, bytes), at, at + |bytes|) == bytes
  {
  }

  /** A request takes one block and goes on record. */
  lemma RequestTakes(h: Heap, size: nat, align: nat, base: nat, p: nat, off: nat)
    requires h.Valid() && Legal(h, AllocateOp(size, align, base, p, off))
    ensures var t := Step(h, AllocateOp(size, align, base, p, off));
      && t.word == h.word
      && t.blocks == h.blocks[base := size + align - 1 + h.word]
      && t.grants == h.grants[p := Grant(base, size, align)]
  {
  }

  lemma MarkLeadsBack(t: Heap, p: nat, size: nat, base: nat)
    requires p in t.grants && t.grants[p].size == size && t.grants[p].base == base && t.Marked(p)
    ensures p + size + t.word <= |t.mem| && base + Decode(Slice(t.mem, p + size, p + size + t.word)) == p
  {
  }

  /** It writes only a distance behind the user's bytes, which is how far the place
      is from the block's start. */
  lemma RequestHides(h: Heap, size: nat, align: nat, base: nat, p: nat, off: nat)
    requires h.Valid() && Legal(h, AllocateOp(size, align, base, p, off))
    ensures var mem := Step(h, AllocateOp(size, align, base, p, off)).mem;
      && p + size + h.word <= |mem| == |h.mem|
      && var hidden := Slice(mem, p + size, p + size + h.word);
         Lands(mem, p + size, hidden, h.mem) && base + Decode(hidden) == p
  {
    var t := Step(h, AllocateOp(size, align, base, p, off));
    NewPlaceIsMarked(h, size, align, base, p, off);
    RequestTakes(h, size, align, base, p, off);
    StepWrites(h, AllocateOp(size, align, base, p, off));
    OverwrittenLands(h.mem, p + size, Encode(off, h.word));
    MarkLeadsBack(t, p, size, base);
  }

  /** Releasing null does nothing. */
  lemma NullIsIgnored(h: Heap, size: nat, align: nat)
    requires h.Valid()
    ensures Step(h, DeallocateOp(0, size, align)) == h
  {
  }

  /** Other clients take and give back blocks of their own. */
  lemma OthersExact(h: Heap, op: Op)
    requires h.Valid() && Legal(h, op)
    ensures op.OtherAllocate? ==> Step(h, op) == h.(blocks := h.blocks[op.base := op.total])
    ensures op.OtherFree? ==> Step(h, op) == h.(blocks := h.blocks - {op.base})
  {
  }

  /** The room asked for is always enough, wherever the block is, and no byte of it
      could be spared, because one place needs all of it. */
  lemma RoomIsTight(word: nat, size: nat, align: nat, base: nat)
    requires 0 < align
    ensures Place(base, align) + size + word <= base + Total(word, size, align)
    ensures Place(1, align) + size + word == 1 + Total(word, size, align)
  {
    PlaceIsAligned(base, align);
    PlaceIsAligned(1, align);
    assert align / align == 1;
    assert Place(1, align) == align;
  }
}
