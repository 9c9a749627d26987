/** The stream buffer itself: one contiguous array, four stream positions, and
    operations that update them in place. Every method is proved against
    StreamBufferSpec. */
module StreamBuffer {
  import opened Machine
  import Spec = StreamBufferSpec

  class StreamBuffer {
    const maxSize: SizeT

    // The vector: its capacity is buffer.Length, its size is length.
    var buffer: array<Byte>
    var length: nat

    // The stream positions, as offsets from the first stored character.
    var gptr: int
    var egptr: int
    var pptr: int
    var epptr: int

    ghost predicate Stored()
      reads this
    {
      length <= buffer.Length < SIZE_LIMIT
    }

    ghost function Snapshot(): Spec.State
      requires Stored()
      reads this, buffer
    {
      Spec.State(maxSize as nat, buffer[..length], gptr, egptr, pptr, epptr)
    }

    ghost predicate Valid()
      reads this, buffer
    {
      Stored() && Snapshot().Valid()
    }

    constructor (maximumSize: SizeT)
      ensures Valid() && fresh(buffer)
      ensures Snapshot() == Spec.Init(maximumSize as nat)
    {
      maxSize := maximumSize;
      var pend := if maximumSize < 128 then maximumSize as nat else 128;
      var size := if pend > 1 then pend else 1;
      buffer := new Byte[size](_ => 0);
      length := size;
      gptr, egptr, pptr, epptr := 0, 0, 0, pend;
      new;
      assert buffer[..length] == Zeros(length);
    }

    /** `std::memmove` from a higher or equal place to the front of the store:
        copying upwards is safe although the two ranges overlap. */
    method MoveToFront(from: nat, count: nat)
      requires Stored() && from + count <= length
      modifies buffer
      ensures buffer[..length] == old(buffer[..length])[from..from + count] + old(buffer[..length])[count..]
    {
      var i := 0;
      while i < count
        invariant 0 <= i <= count
        invariant forall k :: 0 <= k < i ==> buffer[k] == old(buffer[from + k])
        invariant forall k :: i <= k < buffer.Length ==> buffer[k] == old(buffer[k])
      {
        buffer[i] := buffer[from + i];
        i := i + 1;
      }
    }

    /** `std::vector::resize` to a larger size. Within the capacity the new
        characters are cleared in place; otherwise the vector picks a capacity
        that is large enough and copies. */
    method Resize(size: nat)
      requires Stored() && length <= size < SIZE_LIMIT
      modifies this`buffer, this`length, buffer
      ensures Stored() && length == size
      ensures buffer == old(buffer) || fresh(buffer)
      ensures buffer[..length] == Spec.Padded(old(buffer[..length]), size)
    {
      if size > buffer.Length {
        var capacity: nat :| size <= capacity < SIZE_LIMIT;
        var larger := new Byte[capacity](_ => 0);
        var i := 0;
        while i < length
          invariant 0 <= i <= length
          invariant larger[..i] == buffer[..i]
          invariant forall k :: i <= k < larger.Length ==> larger[k] == 0
          invariant buffer[..] == old(buffer[..])
          modifies larger
        {
          larger[i] := buffer[i];
          i := i + 1;
        }
        buffer := larger;
      } else {
        var i := length;
        while i < size
          invariant length <= i <= size
          invariant buffer[..length] == old(buffer[..length])
          invariant forall k :: length <= k < i ==> buffer[k] == 0
          modifies buffer
        {
          buffer[i] := 0;
          i := i + 1;
        }
      }
      length := size;
    }

    /** Shifts the input sequence to the front, if it is not there yet, and
        returns its size. The positions are left for the caller to update. */
    method Shift() returns (pnext: SizeT)
      requires Valid()
      modifies buffer
      ensures Stored() && pnext as int == Snapshot().Size()
      ensures Snapshot() == old(Snapshot()).(mem := Spec.Compacted(old(Snapshot())))
    {
      ghost var was := Snapshot();
      pnext := pptr as SizeT;
      if gptr > 0 {
        pnext := pnext - gptr as SizeT;
        MoveToFront(gptr, pnext as nat);
      } else {
        Spec.CompactedInPlace(was);
      }
    }

    /** Makes room for `n` characters that do not fit behind the put position. The
        offsets are machine words, and no sum or difference of them can wrap. */
    method ShiftOrGrow(n: SizeT) returns (threw: bool)
      requires Valid() && n as int > epptr - pptr
      modifies this, buffer
      ensures Valid() && (buffer == old(buffer) || fresh(buffer))
      ensures threw <==> old(Snapshot()).Size() + n as int > maxSize as int
      ensures threw ==> Snapshot() == old(Snapshot()).(mem := Spec.Compacted(old(Snapshot())))
      ensures !threw ==>
        var s := old(Snapshot());
        var pend := Max(s.epptr, s.Size() + n as int);
        Snapshot() == Spec.State(s.max, Spec.Padded(Spec.Compacted(s), Max(pend, 1)), 0, s.Size(), s.Size(), pend)
    {
      var pend := epptr as SizeT;
      var pnext := Shift();
      // Both sides of each guard are within a machine word.
      if n > pend - pnext {
        if n <= maxSize && pnext <= maxSize - n {
          pend := pnext + n;
          Resize(if pend > 1 then pend as nat else 1);
        } else {
          return true;
        }
      }
      gptr, egptr := 0, pnext as int;
      pptr, epptr := pnext as int, pend as int;
      return false;
    }

    method Reserve(n: SizeT) returns (threw: bool)
      requires Valid()
      modifies this, buffer
      ensures Valid() && (buffer == old(buffer) || fresh(buffer))
      ensures var r := Spec.Reserve(old(Snapshot()), n as nat); threw == r.LengthError? && Snapshot() == r.s
    {
      if n <= epptr as SizeT - pptr as SizeT {
        return false;
      }
      threw := ShiftOrGrow(n);
    }

    /** The offset and the length of a region with room for `n` characters. */
    method Prepare(n: SizeT) returns (threw: bool, start: int, size: SizeT)
      requires Valid()
      modifies this, buffer
      ensures Valid() && (buffer == old(buffer) || fresh(buffer))
      ensures threw <==> old(Snapshot().Size()) + n as int > maxSize as int
      ensures var r := Spec.Reserve(old(Snapshot()), n as nat); threw == r.LengthError? && Snapshot() == r.s
      ensures !threw ==> start == pptr && size == n && start + size as int <= epptr
    {
      threw := Reserve(n);
      start, size := pptr, n;
    }

    /** The caller's own writes into a prepared region. */
    method Write(at: nat, w: seq<Byte>)
      requires Valid() && pptr + at + |w| <= epptr
      modifies buffer
      ensures Valid() && Snapshot() == Spec.Write(old(Snapshot()), at, w)
    {
      var start, i := pptr + at, 0;
      while i < |w|
        invariant 0 <= i <= |w|
        invariant forall k :: 0 <= k < i ==> buffer[start + k] == w[k]
        invariant forall k :: 0 <= k < start || start + i <= k < length ==> buffer[k] == old(buffer[k])
      {
        buffer[start + i] := w[i];
        i := i + 1;
      }
    }

    method Commit(n: SizeT)
      requires Valid()
      modifies this`pptr, this`egptr
      ensures Snapshot() == Spec.Commit(old(Snapshot()), n as nat)
    {
      var room := (epptr - pptr) as SizeT;
      var count := if n < room then n else room;
      pptr := pptr + AsInt32(count as int);
      egptr := pptr;
    }

    /** `base` is the machine address of the first stored character. */
    method Consume(n: SizeT, base: SizeT)
      requires Valid() && base as int + length < SIZE_LIMIT
      modifies this`gptr, this`egptr
      ensures Snapshot() == Spec.Consume(old(Snapshot()), n as nat, base as nat)
    {
      if egptr < pptr {
        egptr := pptr;
      }
      var count := n;
      if (base as int + gptr + n as int) % SIZE_LIMIT > base as int + pptr {
        count := (pptr - gptr) as SizeT;
      }
      gptr := gptr + AsInt32(count as int);
    }

    method Underflow() returns (c: IntType)
      requires Valid()
      modifies this`egptr
      ensures Valid() && (Snapshot(), c) == Spec.Underflow(old(Snapshot()))
    {
      if gptr < pptr {
        egptr := pptr;
        return Char(buffer[gptr]);
      } else {
        return Eof;
      }
    }

    /** One character stored at the put position, which then advances. */
    method Store(b: Byte)
      requires Valid() && pptr < epptr
      modifies this`pptr, buffer
      ensures Valid() && Snapshot() == Spec.Stored(old(Snapshot()), b)
    {
      buffer[pptr] := b;
      pptr := pptr + 1;
      assert buffer[..length] == old(buffer[..length])[old(pptr) := b];
    }

    /** The room that `overflow` asks for when the put area is full: a fixed step,
        or less when the maximum is near. */
    method MakeRoom() returns (threw: bool)
      requires Valid() && pptr == epptr
      modifies this, buffer
      ensures Valid() && (buffer == old(buffer) || fresh(buffer))
      ensures threw <==> old(Snapshot().Size()) == maxSize as int
      ensures threw ==> Snapshot() == old(Snapshot())
      ensures !threw ==>
        var s := old(Snapshot());
        Snapshot() == Spec.Reserve(s, Min(Spec.BUFFER_DELTA, s.max - s.Size())).s
    {
      ghost var was := Snapshot();
      var bufferSize := (pptr - gptr) as SizeT;
      if bufferSize < maxSize && maxSize - bufferSize < 128 {
        threw := Reserve(maxSize - bufferSize);
      } else {
        threw := Reserve(128);
      }
      if threw {
        Spec.CompactedInPlace(was);
      }
    }

    method Overflow(c: IntType) returns (threw: bool)
      requires Valid()
      modifies this, buffer
      ensures Valid() && (buffer == old(buffer) || fresh(buffer))
      ensures threw <==> c.Char? && old(Snapshot().Size()) == maxSize as int
      ensures threw ==> Snapshot() == old(Snapshot())
      ensures var r := Spec.Overflow(old(Snapshot()), c); threw == r.LengthError? && Snapshot() == r.s
    {
      if c.Char? {
        if pptr == epptr {
          threw := MakeRoom();
          if threw {
            return true;
          }
        }
        Store(c.b);
      }
      return false;
    }

    /** The inherited public read: takes from the get area, or refills it first. */
    method Bump() returns (c: IntType)
      requires Valid()
      modifies this`gptr, this`egptr
      ensures Valid() && (Snapshot(), c) == Spec.Bump(old(Snapshot()))
    {
      if gptr < egptr {
        c := Char(buffer[gptr]);
        gptr := gptr + 1;
      } else {
        c := Underflow();
        if c.Char? {
          gptr := gptr + 1;
        }
      }
    }

    /** A size for the next read; no difference here can wrap around. */
    method ReadSizeHelper(limit: SizeT) returns (n: SizeT)
      requires Valid()
      ensures n as int == Spec.ReadSize(Snapshot(), buffer.Length, limit as int)
      ensures n as int + Snapshot().Size() <= maxSize as int
      ensures n == 0 <==> limit == 0 || Snapshot().Size() == maxSize as int
    {
      var size := (pptr - gptr) as SizeT;
      var spare := buffer.Length as SizeT - size;
      var wanted := if spare > 512 then spare else 512;
      var allowed := if limit < maxSize - size then limit else maxSize - size;
      n := if wanted < allowed then wanted else allowed;
    }
  }
}
