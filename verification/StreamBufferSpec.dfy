/** What each stream buffer operation does, stated on plain values.

    A state holds the stored characters and the four stream positions as
    offsets from the first stored character. The start of the get area always
    has offset 0, and no operation reads the start of the put area. */
module StreamBufferSpec {
  import opened Machine

  /** The growth step of `overflow`, and the initial size of the put area. */
  const BUFFER_DELTA := 128

  datatype State = State(
    max: nat,
    mem: seq<Byte>,
    gptr: int,
    egptr: int,
    pptr: int,
    epptr: int)
  {
    ghost predicate Valid() {
      && 0 <= gptr <= egptr <= pptr <= epptr <= max < SIZE_LIMIT
      && |mem| == Max(epptr, 1)
    }

    /** The number of characters in the input sequence. */
    function Size(): int {
      pptr - gptr
    }

    /** The input sequence. */
    function Data(): seq<Byte>
      requires 0 <= gptr <= pptr <= |mem|
    {
      Slice(mem, gptr, pptr)
    }

    /** The output sequence: the places that can be filled and committed. */
    function Room(): seq<Byte>
      requires 0 <= pptr <= epptr <= |mem|
    {
      Slice(mem, pptr, epptr)
    }
  }

  /** A call either returns or throws a length error; both leave a state. */
  datatype Outcome = Ok(s: State) | LengthError(s: State)

  function Init(max: nat): (s: State)
    requires max < SIZE_LIMIT
    ensures s.Valid() && s.Data() == []
  {
    var pend := Min(max, BUFFER_DELTA);
    State(max, Zeros(Max(pend, 1)), 0, 0, 0, pend)
  }

  /** The store after its input sequence is copied to the front. */
  function Compacted(s: State): (mem: seq<Byte>)
    requires s.Valid()
    ensures |mem| == |s.mem|
    ensures Slice(mem, 0, s.Size()) == s.Data()
  {
    seq(|s.mem|, k requires 0 <= k < |s.mem| => if k < s.Size() then s.mem[s.gptr + k] else s.mem[k])
  }

  lemma CompactedInPlace(s: State)
    requires s.Valid() && s.gptr == 0
    ensures Compacted(s) == s.mem
  {
  }

  /** A store of at least `size` characters; new ones are zero. */
  function Padded(mem: seq<Byte>, size: nat): (r: seq<Byte>)
    ensures |r| == Max(|mem|, size) && mem <= r
  {
    if size <= |mem| then mem
    else seq(size, k requires 0 <= k < size => if k < |mem| then mem[k] else 0)
  }

  /** Room for `n` more characters. The call throws exactly when the input
      sequence and `n` more characters exceed the maximum. */
  function Reserve(s: State, n: nat): (r: Outcome)
    requires s.Valid()
    ensures r.Ok? ==> r.s.Valid() && r.s.Data() == s.Data()
    ensures r.Ok? ==> n <= |r.s.Room()| && r.s.epptr == Max(s.epptr, s.Size() + n)
    ensures r.LengthError? ==> r.s == s.(mem := r.s.mem) && r.s.Valid()
  {
    var size := s.Size();
    if size + n > s.max then
      LengthError(s.(mem := Compacted(s)))
    else if s.pptr + n <= s.epptr then
      Ok(s)
    else
      var pend := Max(s.epptr, size + n);
      Ok(State(s.max, Padded(Compacted(s), Max(pend, 1)), 0, size, size, pend))
  }

  /** The bytes `w` stored at offset `at` of the output sequence. */
  function Write(s: State, at: nat, w: seq<Byte>): State
    requires s.Valid() && s.pptr + at + |w| <= s.epptr
  {
    var start := s.pptr + at;
    s.(mem := seq(|s.mem|, k requires 0 <= k < |s.mem| => if start <= k < start + |w| then w[k - start] else s.mem[k]))
  }

  /** At most `n` characters move from the output to the input sequence. The
      put position advances by a count that was cast to a signed 32-bit integer. */
  function Commit(s: State, n: nat): State {
    var count := AsInt32(Min(n, s.epptr - s.pptr));
    s.(pptr := s.pptr + count, egptr := s.pptr + count)
  }

  /** At most `n` characters leave the input sequence. The end position is
      computed on addresses, which wrap around at 2^64; `base` is the address
      of the first stored character. */
  function Consume(s: State, n: nat, base: nat): State {
    var end := (base + s.gptr + n) % SIZE_LIMIT;
    var count := if end > base + s.pptr then s.Size() else n;
    s.(gptr := s.gptr + AsInt32(count), egptr := Max(s.egptr, s.pptr))
  }

  /** One character stored at the put position, which moves past it. */
  function Stored(s: State, b: Byte): (t: State)
    requires s.Valid() && s.pptr < s.epptr
    ensures t.Valid() && t.Data() == s.Data() + [b]
  {
    s.(mem := s.mem[s.pptr := b], pptr := s.pptr + 1)
  }

  /** Refills the get area and peeks. */
  function Underflow(s: State): (State, IntType)
    requires s.Valid()
  {
    if s.gptr < s.pptr then (s.(egptr := s.pptr), Char(s.mem[s.gptr])) else (s, Eof)
  }

  /** Appends one character. The call throws exactly when the input sequence is
      already as long as the maximum, and then changes nothing. */
  function Overflow(s: State, c: IntType): (r: Outcome)
    requires s.Valid()
    ensures r.s.Valid()
    ensures r.LengthError? ==> r.s == s
    ensures r.Ok? && c.Char? ==> r.s.Data() == s.Data() + [c.b]
  {
    match c
    case Eof => Ok(s)
    case Char(b) =>
      if s.Size() == s.max then
        LengthError(s)
      else
        var t := if s.pptr < s.epptr then s else Reserve(s, Min(BUFFER_DELTA, s.max - s.Size())).s;
        Ok(Stored(t, b))
  }

  /** Reads one character and moves past it. */
  function Bump(s: State): (State, IntType)
    requires s.Valid()
  {
    if s.gptr < s.egptr then
      (s.(gptr := s.gptr + 1), Char(s.mem[s.gptr]))
    else
      var (t, c) := Underflow(s);
      (if c.Eof? then t else t.(gptr := t.gptr + 1), c)
  }

  /** A good size for the next read, from the capacity of the store and a limit. */
  function ReadSize(s: State, capacity: int, limit: int): int {
    Min(Max(512, capacity - s.Size()), Min(limit, s.max - s.Size()))
  }
}
