/** Reading from a stream into a stream buffer up to a delimiter: the loop that
    relies on every promise of `prepare`, `commit` and the read size together. */
module ReadUntil {
  import opened Machine
  import opened StreamBufferRuns
  import opened StreamBuffer

  /** The answer of one read: some characters, and whether it reports an error.
      A read that does not fail delivers at least one character. */
  datatype Answer = Answer(bytes: seq<Byte>, failed: bool)

  type Read = a: Answer | a.failed || a.bytes != [] witness Answer([], true)

  /** A stream, as the answers it gives. */
  class Source {
    const answers: nat -> Read
    var at: nat
    ghost var delivered: seq<Byte>
    ghost var failures: nat

    constructor (answers: nat -> Read) {
      this.answers, at, delivered, failures := answers, 0, [], 0;
    }

    method ReadSome(room: nat) returns (bytes: seq<Byte>, failed: bool)
      requires 0 < room
      modifies this
      ensures bytes == answers(old(at)).bytes[..Min(|answers(old(at)).bytes|, room)]
      ensures failed == answers(old(at)).failed
      ensures at == old(at) + 1 && delivered == old(delivered) + bytes
      ensures failures == old(failures) + if failed then 1 else 0
    {
      var read := answers(at);
      at := at + 1;
      bytes, failed := read.bytes[..Min(|read.bytes|, room)], read.failed;
      delivered := delivered + bytes;
      failures := failures + if failed then 1 else 0;
    }
  }

  datatype Error = NoError | NotFound | StreamError

  /** The first place from `start` on where the input sequence has `delim`, or
      its size. */
  method Find(b: StreamBuffer, start: nat, delim: Byte) returns (place: nat)
    requires b.Valid() && start <= |b.Snapshot().Data()|
    ensures var data := b.Snapshot().Data();
      start <= place <= |data| && delim !in data[start..place] && (place < |data| ==> data[place] == delim)
  {
    place := start;
    while place < b.pptr - b.gptr && b.buffer[b.gptr + place] != delim
      invariant start <= place <= |b.Snapshot().Data()|
      invariant forall k :: start <= k < place ==> b.Snapshot().Data()[k] != delim
    {
      place := place + 1;
    }
  }

  /** What a stream stored in the prepared places becomes input. */
  method Deliver(b: StreamBuffer, w: seq<Byte>)
    requires b.Valid() && b.pptr + |w| <= b.epptr && |w| <= 65536
    modifies b, b.buffer
    ensures b.Valid() && b.buffer == old(b.buffer)
    ensures b.Snapshot().Data() == old(b.Snapshot().Data()) + w
  {
    FillExtends(b.Snapshot(), w);
    b.Write(0, w);
    b.Commit(|w| as SizeT);
  }

  /** One read into a buffer that is not full. The length error of `prepare` does
      not happen, and exactly what the stream answers is appended, as far as it was
      asked for. */
  method ReadMore(source: Source, b: StreamBuffer) returns (bytes: seq<Byte>, failed: bool)
    requires b.Valid() && b.Snapshot().Size() < b.maxSize as int
    modifies source, b, b.buffer
    ensures b.Valid() && (b.buffer == old(b.buffer) || fresh(b.buffer))
    ensures source.delivered == old(source.delivered) + bytes
    ensures b.Snapshot().Data() == old(b.Snapshot().Data()) + bytes
    ensures source.at == old(source.at) + 1 && source.failures == old(source.failures) + if failed then 1 else 0
    ensures var answer := source.answers(old(source.at));
      var room := Spec.ReadSize(old(b.Snapshot()), old(b.buffer.Length), 65536);
      0 < room && bytes == answer.bytes[..Min(|answer.bytes|, room)] && failed == answer.failed
  {
    ReadSizeFits(b.Snapshot(), b.buffer.Length, 65536);
    var size := b.ReadSizeHelper(65536);
    var threw, start, room := b.Prepare(size);
    assert !threw;
    bytes, failed := source.ReadSome(room as nat);
    Deliver(b, bytes);
  }

  /** How one time round the loop ends. */
  datatype Progress = Done(n: nat, ec: Error) | More(searched: nat)

  /** A finished search. If a read failed, that is reported. If not, and there is a
      delimiter, it is the length up to and including the first one; if there is
      none, the buffer is full. */
  ghost predicate IsOutcome(n: nat, ec: Error, data: seq<Byte>, max: nat, delim: Byte, failed: bool) {
    if failed then n == 0 && ec == StreamError
    else if delim in data then 0 < n <= |data| && ec == NoError && data[n - 1] == delim && delim !in data[..n - 1]
    else n == 0 && ec == NotFound && |data| == max
  }

  /** Once round the loop: search what is new, then read more. */
  method Round(source: Source, b: StreamBuffer, delim: Byte, searched: nat)
    returns (progress: Progress, ghost bytes: seq<Byte>)
    requires b.Valid()
    requires searched <= |b.Snapshot().Data()| && delim !in b.Snapshot().Data()[..searched]
    modifies source, b, b.buffer
    ensures b.Valid() && (b.buffer == old(b.buffer) || fresh(b.buffer))
    ensures source.delivered == old(source.delivered) + bytes
    ensures b.Snapshot().Data() == old(b.Snapshot().Data()) + bytes
    ensures match progress
      case Done(n, ec) =>
        IsOutcome(n, ec, b.Snapshot().Data(), b.maxSize as nat, delim, source.failures > old(source.failures))
      case More(next) =>
        && bytes != [] && source.failures == old(source.failures)
        && next <= |b.Snapshot().Data()| && delim !in b.Snapshot().Data()[..next]
    ensures old(source.failures) <= source.failures <= old(source.failures) + 1
    ensures delim in old(b.Snapshot().Data()) ==>
      progress.Done? && bytes == [] && source.at == old(source.at) && source.failures == old(source.failures)
    ensures delim !in old(b.Snapshot().Data()) && |old(b.Snapshot().Data())| < b.maxSize as int ==>
      source.at == old(source.at) + 1
  {
    ghost var data := b.Snapshot().Data();
    bytes := [];
    assert data + [] == data && source.delivered + [] == source.delivered;
    var place := Find(b, searched, delim);
    assert data[..place] == data[..searched] + data[searched..place];
    if place < b.pptr - b.gptr {
      return Done(place + 1, NoError), bytes;
    }
    assert data[..place] == data;
    if b.pptr - b.gptr == b.maxSize as int {
      return Done(0, NotFound), bytes;
    }
    var read, failed := ReadMore(source, b);
    bytes := read;
    assert (data + bytes)[..place] == data;
    return if failed then Done(0, StreamError) else More(place), bytes;
  }

  /** The buffer keeps what it had and gains exactly what the stream delivered. A
      delimiter that is there from the start is found without reading. */
  method ReadUntil(source: Source, b: StreamBuffer, delim: Byte)
    returns (n: nat, ec: Error, ghost got: seq<Byte>)
    requires b.Valid()
    modifies source, b, b.buffer
    ensures b.Valid() && source.delivered == old(source.delivered) + got
    ensures b.Snapshot().Data() == old(b.Snapshot().Data()) + got
    ensures IsOutcome(n, ec, b.Snapshot().Data(), b.maxSize as nat, delim, source.failures > old(source.failures))
    ensures source.failures <= old(source.failures) + 1
    ensures delim in old(b.Snapshot().Data()) ==>
      got == [] && source.at == old(source.at) && source.failures == old(source.failures)
  {
    got := [];
    var progress := More(0);
    while progress.More?
      invariant b.Valid() && (b.buffer == old(b.buffer) || fresh(b.buffer))
      invariant source.delivered == old(source.delivered) + got
      invariant b.Snapshot().Data() == old(b.Snapshot().Data()) + got
      invariant match progress
        case Done(n, ec) =>
          IsOutcome(n, ec, b.Snapshot().Data(), b.maxSize as nat, delim, source.failures > old(source.failures))
        case More(next) =>
          && source.failures == old(source.failures)
          && next <= |b.Snapshot().Data()| && delim !in b.Snapshot().Data()[..next]
      invariant source.failures <= old(source.failures) + 1
      invariant delim in old(b.Snapshot().Data()) ==>
        got == [] && source.at == old(source.at) && source.failures == old(source.failures)
      decreases progress.More?, b.maxSize as int - |got|
    {
      ghost var bytes;
      progress, bytes := Round(source, b, delim, progress.searched);
      Regroup(old(b.Snapshot().Data()), got, bytes);
      Regroup(old(source.delivered), got, bytes);
      got := got + bytes;
    }
    return progress.n, progress.ec, got;
  }
}
