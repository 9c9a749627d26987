/** The aligned allocator itself, over one array of bytes. What it knows when it
    releases a block, it reads back from the bytes behind the user's range. */
module AlignedAllocator {
  import opened Machine
  import opened Bits
  import opened Alignment
  import opened AlignedSpec
  import opened AlignedRuns

  class AlignedAllocator {
    const word: nat
    const mem: array<Byte>

    // The live blocks of the underlying allocator, with their sizes.
    var blocks: map<nat, nat>

    // The requests so far, for stating properties only.
    ghost var grants: map<nat, Grant>

    ghost function Snapshot(): Heap
      reads this, mem
    {
      Heap(word, mem[..], blocks, grants)
    }

    ghost predicate Valid()
      reads this, mem
    {
      Snapshot().Valid()
    }

    constructor (word: nat, mem: array<Byte>)
      requires 0 < word && mem.Length <= Limit(word)
      ensures this.word == word && this.mem == mem
      ensures Valid() && Snapshot() == Heap(word, mem[..], map[], map[])
    {
      this.word, this.mem := word, mem;
      blocks, grants := map[], map[];
    }

    /** The underlying allocator gives out a free block. */
    method TakeBlock(base: nat, total: nat)
      requires 0 < total && IsFree(Snapshot(), base, total)
      modifies this`blocks
      ensures blocks == old(blocks)[base := total]
    {
      blocks := blocks[base := total];
    }

    /** The underlying allocator takes a block back, which must be live and of
        exactly the size that is claimed. */
    method GiveBlock(base: int, total: int)
      requires 0 <= base && base in blocks && blocks[base] == total
      modifies this`blocks
      ensures blocks == old(blocks) - {base}
    {
      blocks := blocks - {base};
    }

    /** A write of some client of the memory. */
    method WriteBytes(at: nat, bytes: seq<Byte>)
      requires at + |bytes| <= mem.Length
      modifies mem
      ensures Snapshot() == StoreAt(old(Snapshot()), at, bytes)
    {
      var i := 0;
      while i < |bytes|
        invariant 0 <= i <= |bytes|
        invariant forall k :: 0 <= k < mem.Length ==> mem[k] == if at <= k < at + i then bytes[k - at] else old(mem[k])
      {
        mem[at + i] := bytes[i];
        i := i + 1;
      }
    }

    /** `memcpy` of a distance into the memory, lowest byte first. */
    method StoreOffset(at: nat, off: nat)
      requires at + word <= mem.Length
      modifies mem
      ensures Snapshot() == StoreAt(old(Snapshot()), at, Encode(off, word))
    {
      ghost var bytes := Encode(off, word);
      var i, rest := 0, off;
      while i < word
        invariant 0 <= i <= word
        invariant forall k :: 0 <= k < mem.Length ==> mem[k] == if at <= k < at + i then bytes[k - at] else old(mem[k])
        invariant rest == Shifted(off, i)
      {
        mem[at + i] := (rest % 256) as Byte;
        rest := rest / 256;
        i := i + 1;
      }
    }

    /** `memcpy` of a distance out of the memory, lowest byte first. */
    method LoadOffset(at: nat) returns (off: nat)
      requires at + word <= mem.Length
      ensures off == Decode(Slice(mem[..], at, at + word))
    {
      ghost var bytes := Slice(mem[..], at, at + word);
      off := 0;
      var i := word;
      while i > 0
        invariant 0 <= i <= word
        invariant off == Decode(Slice(bytes, i, word))
      {
        i := i - 1;
        assert Slice(Slice(bytes, i, word), 1, word - i) == Slice(bytes, i + 1, word);
        off := mem[at + i] as nat + 256 * off;
      }
      assert Slice(bytes, 0, word) == bytes;
    }

    /** The call of `std::align` in the block. */
    method FindPlace(size: nat, align: nat, base: nat) returns (place: Option<nat>)
      requires 0 < word && 0 < base && IsRequest(word, size, align)
      requires base + Total(word, size, align) <= Limit(word)
      ensures place == Some(Place(base, align))
      ensures base <= Place(base, align) < base + align && Place(base, align) % align == 0
    {
      AlignNeverFails(word, align, size, base);
      PlaceIsAligned(base, align);
      place := Align(word, align, size, base, size + align - 1);
    }

    /** `base` is what the underlying allocator answers. */
    method Allocate(size: nat, align: nat, base: nat) returns (p: nat)
      requires Valid() && IsRequest(word, size, align) && IsFree(Snapshot(), base, Total(word, size, align))
      modifies this`blocks, this`grants, mem
      ensures p == Place(base, align) && base <= p < base + align && p % align == 0
      ensures Valid() && Snapshot() == AlignedSpec.Allocate(old(Snapshot()), size, align, base, p, p - base)
    {
      p := TakeAligned(size, align, base);
      AllocateKeepsValid(old(Snapshot()), size, align, base, p, p - base);
      Remember(size, align, base, p, p - base);
      assert Snapshot() == AlignedSpec.Allocate(old(Snapshot()), size, align, base, p, p - base);
    }

    /** Takes the block and finds the place in it. */
    method TakeAligned(size: nat, align: nat, base: nat) returns (p: nat)
      requires 0 < word && mem.Length <= Limit(word)
      requires IsRequest(word, size, align) && IsFree(Snapshot(), base, Total(word, size, align))
      modifies this`blocks
      ensures p == Place(base, align) && base <= p < base + align && p % align == 0
      ensures blocks == old(blocks)[base := Total(word, size, align)]
    {
      var space := size + align - 1;
      TakeBlock(base, space + word);
      var place := FindPlace(size, align, base);
      match place
      case Some(found) =>
        return found;
      case None =>
        assert false;
    }

    /** Notes behind the user's bytes how far they are from the block's start. */
    method Remember(size: nat, align: nat, base: nat, p: nat, off: nat)
      requires p + size + word <= mem.Length
      modifies this`grants, mem
      ensures
        var h := old(Snapshot());
        Snapshot() == StoreAt(h.(grants := h.grants[p := Grant(base, size, align)]), p + size, Encode(off, word))
    {
      grants := grants[p := Grant(base, size, align)];
      StoreOffset(p + size, off);
    }

    method Deallocate(p: nat, size: nat, align: nat)
      requires Valid() && Legal(Snapshot(), DeallocateOp(p, size, align))
      modifies this`blocks, this`grants
      ensures p != 0 ==> p + size + word <= mem.Length
      ensures Valid() && Snapshot() == AlignedSpec.Deallocate(old(Snapshot()), p, size, align)
    {
      StepKeepsValid(Snapshot(), DeallocateOp(p, size, align));
      if p != 0 {
        RecoversGrant(Snapshot(), p);
        Release(p, size, align);
      }
    }

    /** The release of a place that is not null: the block and its size come from
        the hidden distance, and giving the block back must be in order. */
    method Release(p: nat, size: nat, align: nat)
      requires p != 0 && p + size + word <= mem.Length
      requires var (base, total) := Recovered(word, mem[..], p, size, align);
        0 <= base && base in blocks && blocks[base] == total
      modifies this`blocks, this`grants
      ensures Snapshot() == AlignedSpec.Deallocate(old(Snapshot()), p, size, align)
    {
      var off := LoadOffset(p + size);
      GiveBlock(p - off, size + align - 1 + word);
      grants := grants - {p};
    }
  }
}
