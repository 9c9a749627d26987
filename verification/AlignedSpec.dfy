/** The aligned allocator of a type-erased handler, on plain values: a byte
    addressed memory, the blocks an underlying allocator has handed out, and the
    requests made on top of it. The distance from a block to the place inside it
    that the user got is remembered only in the block's own bytes. */
module AlignedSpec {
  import opened Machine
  import opened Bits
  import opened Alignment

  /** What one request got from the underlying allocator. */
  datatype Grant = Grant(base: nat, size: nat, align: nat)

  /** `word` is the number of bytes of a pointer difference. `grants` is a record
      of requests for stating properties; the allocator looks nothing up in it. */
  datatype Heap = Heap(word: nat, mem: seq<Byte>, blocks: map<nat, nat>, grants: map<nat, Grant>)
  {
    /** Where the hidden distance of `p` is: just past the user's bytes. */
    function StashAt(p: nat): nat
      requires p in grants
    {
      p + grants[p].size
    }

    /** The user's place lies in the block obtained for it. */
    ghost predicate InBlock(p: nat)
      requires p in grants
    {
      var g := grants[p];
      && 0 < g.align && g.base <= p < g.base + g.align
      && g.base in blocks && blocks[g.base] == Total(word, g.size, g.align)
    }

    /** Live blocks are disjoint parts of the memory, and no two requests share one. */
    ghost predicate Layout() {
      && 0 < word && |mem| <= Limit(word)
      && (forall b <- blocks :: 0 < b && 0 < blocks[b] && b + blocks[b] <= |mem|)
      && (forall b <- blocks, c <- blocks :: b < c ==> b + blocks[b] <= c)
      && (forall p <- grants :: InBlock(p))
      && (forall p <- grants, q <- grants :: p != q ==> grants[p].base != grants[q].base)
    }

    /** The hidden distance leads from the user's place back to the block. */
    ghost predicate Marked(p: nat)
      requires p in grants
    {
      && StashAt(p) + word <= |mem|
      && grants[p].base + Decode(Slice(mem, StashAt(p), StashAt(p) + word)) == p
    }

    ghost predicate Valid() {
      Layout() && forall p <- grants :: Marked(p)
    }
  }

  /** The range of `total` bytes from `base` can be handed out. */
  ghost predicate IsFree(h: Heap, base: nat, total: nat) {
    && 0 < base && base + total <= |h.mem|
    && forall b <- h.blocks :: base + total <= b || b + h.blocks[b] <= base
  }

  function Overwritten(mem: seq<Byte>, at: nat, bytes: seq<Byte>): (r: seq<Byte>)
    requires at + |bytes| <= |mem|
    ensures |r| == |mem|
  {
    seq(|mem|, k requires 0 <= k < |mem| => if at <= k < at + |bytes| then bytes[k - at] else mem[k])
  }

  /** The heap after bytes are stored from `at` on. */
  function StoreAt(h: Heap, at: nat, bytes: seq<Byte>): Heap
    requires at + |bytes| <= |h.mem|
  {
    h.(mem := Overwritten(h.mem, at, bytes))
  }

  /** The whole request, when the underlying allocator answers `base` and the
      user's place `p` is `off` bytes into that block. */
  function Allocate(h: Heap, size: nat, align: nat, base: nat, p: nat, off: nat): Heap
    requires base + off == p && off < align && IsFree(h, base, Total(h.word, size, align))
  {
    Heap(h.word,
         Overwritten(h.mem, p + size, Encode(off, h.word)),
         h.blocks[base := Total(h.word, size, align)],
         h.grants[p := Grant(base, size, align)])
  }

  /** What `deallocate` computes from the place, the size and the alignment it is
      given and from the bytes behind the user's range: a block and its size. */
  function Recovered(word: nat, mem: seq<Byte>, p: nat, size: nat, align: nat): (int, int)
    requires p + size + word <= |mem|
  {
    (p - Decode(Slice(mem, p + size, p + size + word)), Total(word, size, align))
  }

  /** The release of a place; null is ignored. */
  function Deallocate(h: Heap, p: nat, size: nat, align: nat): Heap
    requires p != 0 ==> p + size + h.word <= |h.mem|
  {
    if p == 0 then h
    else h.(blocks := h.blocks - {Recovered(h.word, h.mem, p, size, align).0}, grants := h.grants - {p})
  }
}
