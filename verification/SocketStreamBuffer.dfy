/** The socket stream buffer itself: two buffers updated in place and retry loops
    over the socket calls. Every method is proved against SocketSpec. */
module SocketStreamBuffer {
  import opened Machine
  import opened SocketSpec

  class SocketStreamBuffer {
    var getBuffer: array<Byte>
    var putBuffer: array<Byte>

    // The stream positions, as offsets into the two buffers.
    var gptr: int
    var egptr: int
    var pbase: int
    var pptr: int
    var epptr: int

    var ec: ErrorCode
    var expiry: int
    var link: Link

    ghost function Snapshot(): State
      reads this, getBuffer, putBuffer
    {
      State(getBuffer[..], gptr, egptr, putBuffer[..], pbase, pptr, epptr, ec, expiry, link)
    }

    ghost predicate Valid()
      reads this, getBuffer, putBuffer
    {
      getBuffer != putBuffer && Snapshot().Valid()
    }

    constructor (socket: Link)
      requires socket.Valid()
      ensures Valid() && fresh(getBuffer) && fresh(putBuffer)
      ensures Snapshot() == Init(socket)
    {
      getBuffer := new Byte[512](_ => 0);
      putBuffer := new Byte[512](_ => 0);
      ec, expiry, link := Success, MAX_EXPIRY, socket;
      gptr, egptr, pbase, pptr, epptr := 0, 0, 0, 0, 0;
      new;
      InitBuffers();
      assert getBuffer[..] == Zeros(512) && putBuffer[..] == Zeros(512);
    }

    /** Takes over the socket and both buffers of `other`, which gets the fresh
        buffers of the new object and a closed socket. */
    constructor Move(other: SocketStreamBuffer)
      requires other.Valid()
      modifies other
      ensures Valid() && other.Valid()
      ensures getBuffer == old(other.getBuffer) && putBuffer == old(other.putBuffer)
      ensures fresh(other.getBuffer) && fresh(other.putBuffer)
      ensures (Snapshot(), other.Snapshot()) == MoveConstruct(old(other.Snapshot()))
    {
      link, ec, expiry := other.link, other.ec, other.expiry;
      getBuffer, putBuffer := other.getBuffer, other.putBuffer;
      gptr, egptr := other.gptr, other.egptr;
      pbase, pptr, epptr := other.pptr, other.pptr, other.epptr;
      new;
      other.link := Link.Closed();
      other.getBuffer := new Byte[512](_ => 0);
      other.putBuffer := new Byte[512](_ => 0);
      other.Reset();
      assert other.getBuffer[..] == Zeros(512) && other.putBuffer[..] == Zeros(512);
    }

    /** Closes this object, then swaps buffers with `other` and takes its socket
        and positions. `closing` is what closing this socket reports. */
    method MoveFrom(other: SocketStreamBuffer, closing: ErrorCode)
      requires Valid() && other.Valid()
      requires this != other ==> {getBuffer, putBuffer} !! {other.getBuffer, other.putBuffer}
      modifies this, other, putBuffer
      ensures Valid() && other.Valid()
      ensures this != other ==>
        && {getBuffer, putBuffer} !! {other.getBuffer, other.putBuffer}
        && (Snapshot(), other.Snapshot()) == MoveAssign(old(Snapshot()), old(other.Snapshot()), closing)
      ensures this == other ==> Snapshot() == MoveAssignSelf(old(Snapshot()), closing)
    {
      CloseSocket(closing);
      ghost var closed := Snapshot();
      assert this != other ==> other.Snapshot() == old(other.Snapshot());
      TakeBuffers(other);
      assert other.getBuffer[..] == closed.get && other.putBuffer[..] == closed.put;
      other.Reset();
    }

    /** Swaps buffers with `other`, takes its socket unless that is this one, and
        copies its positions and error. */
    method TakeBuffers(other: SocketStreamBuffer)
      modifies this, other`getBuffer, other`putBuffer, other`link
      ensures getBuffer == old(other.getBuffer) && putBuffer == old(other.putBuffer)
      ensures other.getBuffer == old(getBuffer) && other.putBuffer == old(putBuffer)
      ensures other.link == if this == other then old(link) else Link.Closed()
      ensures Snapshot() == TakenFrom(old(other.Snapshot()))
    {
      if this != other {
        link := other.link;
        other.link := Link.Closed();
      }
      ec, expiry := other.ec, other.expiry;
      getBuffer, other.getBuffer := other.getBuffer, getBuffer;
      putBuffer, other.putBuffer := other.putBuffer, putBuffer;
      gptr, egptr := other.gptr, other.egptr;
      pbase, pptr, epptr := other.pptr, other.pptr, other.epptr;
    }

    /** The state a move leaves behind, on the socket and buffers it left behind:
        a resized put buffer, no error, no expiry, and empty areas. */
    method Reset()
      requires link.Valid() && getBuffer != putBuffer
      requires getBuffer.Length == 512 && (putBuffer.Length == 512 || putBuffer.Length == 0)
      modifies this
      ensures getBuffer == old(getBuffer) && (putBuffer == old(putBuffer) || fresh(putBuffer))
      ensures Valid()
      ensures var put := if old(putBuffer[..]) == [] then Zeros(BUFFER_SIZE) else old(putBuffer[..]);
        Snapshot() == Init(old(link)).(get := old(getBuffer[..]), put := put)
    {
      ec, expiry := Success, MAX_EXPIRY;
      if putBuffer.Length == 0 {
        putBuffer := new Byte[512](_ => 0);
        assert putBuffer[..] == Zeros(512);
      }
      InitBuffers();
    }

    method InitBuffers()
      modifies this`gptr, this`egptr, this`pbase, this`pptr, this`epptr
      ensures Snapshot() == old(Snapshot()).Emptied()
    {
      gptr, egptr := 8, 8;
      if putBuffer.Length == 0 {
        pbase, pptr, epptr := 0, 0, 0;
      } else {
        pbase, pptr, epptr := 0, 0, putBuffer.Length;
      }
    }

    /** `close`; the outcome of the flush is overwritten by that of closing. */
    method CloseSocket(closing: ErrorCode)
      requires Valid()
      modifies this`ec, this`link, this`gptr, this`egptr, this`pbase, this`pptr, this`epptr, putBuffer
      ensures Valid() && Snapshot() == Close(old(Snapshot()), closing)
    {
      var flushed := Overflow(Eof);
      ec := closing;
      if ec == Success {
        InitBuffers();
      }
    }

    /** Once round the send loop: `sent` characters went out, or the loop stops. */
    method SendTurn(output: seq<Byte>) returns (sent: nat, stop: bool)
      requires link.Valid() && output != []
      modifies this`ec, this`link
      ensures sent <= |output|
      ensures link == old(link).(wire := old(link).wire + output[..sent], sends := old(link).sends + 1)
      ensures
        var all := SendAll(output, link.sendTurns, old(link).sends, expiry, old(ec));
        if stop then
          sent == 0 && all == Sending([], link.sends, ec, false)
        else
          var rest := SendAll(output[sent..], link.sendTurns, link.sends, expiry, ec);
          all == Continued(output[..sent], rest)
      ensures !stop && sent == 0 ==>
        Patience(link.sendTurns, link.sends, expiry) < Patience(link.sendTurns, old(link).sends, expiry)
    {
      var turn := link.sendTurns(link.sends);
      link := link.(sends := link.sends + 1);
      assert link.wire + output[..0] == link.wire && output[0..] == output;

      if expiry < turn.now {
        ec := TimedOut;
        return 0, true;
      }
      var bytes := if turn.io.Done? then Min(turn.io.r, |output|) else -1;
      ec := if turn.io.Failed? then turn.io.ec else Success;
      if bytes > 0 {
        link := link.(wire := link.wire + output[..bytes]);
        return bytes, false;
      }
      if ec != WouldBlock && ec != TryAgain {
        return 0, true;
      }
      ec := if turn.poll.PollFailed? then turn.poll.ec else Success;
      return 0, turn.poll.PollFailed?;
    }

    /** The send loop: `output` is what still has to go out. */
    method SendOutput(pending: seq<Byte>) returns (done: bool)
      requires link.Valid()
      modifies this`ec, this`link
      ensures var r := SendAll(pending, old(link).sendTurns, old(link).sends, expiry, old(ec));
        && done == r.done && ec == r.ec
        && link == old(link).(wire := old(link).wire + r.out, sends := r.at)
    {
      ghost var whole := SendAll(pending, link.sendTurns, link.sends, expiry, ec);
      var output := pending;
      ghost var out: seq<Byte> := [];
      assert link.wire + out == link.wire;
      while |output| > 0
        invariant link == old(link).(wire := old(link).wire + out, sends := link.sends)
        invariant whole == Continued(out, SendAll(output, link.sendTurns, link.sends, expiry, ec))
        decreases |output|, Patience(link.sendTurns, link.sends, expiry)
      {
        var sent, stop := SendTurn(output);
        if stop {
          assert out + [] == out;
          return false;
        }
        ContinuedTwice(out, output[..sent], SendAll(output[sent..], link.sendTurns, link.sends, expiry, ec));
        Regroup(old(link).wire, out, output[..sent]);
        out := out + output[..sent];
        output := output[sent..];
      }
      assert out + [] == out;
      return true;
    }

    lemma ContinuedTwice(a: seq<Byte>, b: seq<Byte>, r: Sending)
      ensures Continued(a, Continued(b, r)) == Continued(a + b, r)
    {
    }

    /** A send loop that had already sent `out` when it got to `r`. */
    ghost function Continued(out: seq<Byte>, r: Sending): Sending {
      r.(out := out + r.out)
    }

    method Overflow(c: IntType) returns (result: IntType)
      requires Valid()
      modifies this`ec, this`link, this`pbase, this`pptr, this`epptr, putBuffer
      ensures Valid() && (Snapshot(), result) == SocketSpec.Overflow(old(Snapshot()), c)
    {
      var done: bool;
      if putBuffer.Length == 0 {
        if c.Eof? {
          return Char(0);
        }
        done := SendOutput([c.b]);
      } else {
        done := SendOutput(putBuffer[pbase..pptr]);
        assert old(Snapshot()).Pending() == putBuffer[pbase..pptr];
      }
      if !done {
        return Eof;
      }
      if putBuffer.Length != 0 {
        pbase, pptr, epptr := 0, 0, putBuffer.Length;
        if c.Eof? {
          return Char(0);
        }
        putBuffer[pptr] := c.b;
        pptr := pptr + 1;
      }
      return c;
    }

    method Sync() returns (result: IntType)
      requires Valid()
      modifies this`ec, this`link, this`pbase, this`pptr, this`epptr, putBuffer
      ensures Valid() && (Snapshot(), result) == SocketSpec.Sync(old(Snapshot()))
    {
      result := Overflow(Eof);
    }

    method PutChar(b: Byte) returns (result: IntType)
      requires Valid()
      modifies this`ec, this`link, this`pbase, this`pptr, this`epptr, putBuffer
      ensures Valid() && (Snapshot(), result) == SocketSpec.PutChar(old(Snapshot()), b)
    {
      if pptr < epptr {
        putBuffer[pptr] := b;
        pptr := pptr + 1;
        return Char(b);
      } else {
        result := Overflow(Char(b));
      }
    }

    method SetBuf(noBuffer: bool) returns (taken: bool)
      requires Valid()
      modifies this, putBuffer
      ensures Valid() && (Snapshot(), taken) == SocketSpec.SetBuf(old(Snapshot()), noBuffer)
      ensures getBuffer == old(getBuffer) && (putBuffer == old(putBuffer) || fresh(putBuffer))
    {
      if pptr == pbase && noBuffer {
        putBuffer := new Byte[0];
        pbase, pptr, epptr := 0, 0, 0;
        assert putBuffer[..] == [];
        var flushed := Sync();
        return true;
      }
      return false;
    }

    method Underflow() returns (result: IntType)
      requires Valid()
      modifies this`ec, this`link, this`gptr, this`egptr, getBuffer
      ensures Valid() && (Snapshot(), result) == SocketSpec.Underflow(old(Snapshot()))
    {
      if gptr != egptr {
        return Eof;
      }
      ghost var whole := ReceiveSome(link.receiveTurns, link.receives, expiry, 504);
      ghost var was := Snapshot();
      var bytes, again := [], true;
      while again
        invariant link == old(link).(receives := link.receives)
        invariant Snapshot() == was.(ec := ec, link := link)
        invariant if again then whole == ReceiveSome(link.receiveTurns, link.receives, expiry, 504)
                  else whole == Receiving(bytes, link.receives, ec)
        decreases again, Patience(link.receiveTurns, link.receives, expiry)
      {
        bytes, again := ReceiveTurn();
      }
      if bytes == [] {
        assert link.received + bytes == link.received;
        return Eof;
      }
      StoreReceived(bytes);
      return Char(getBuffer[gptr]);
    }

    /** Once round the receive loop: some characters, or none and whether to go on. */
    method ReceiveTurn() returns (bytes: seq<Byte>, again: bool)
      requires link.Valid()
      modifies this`ec, this`link
      ensures link == old(link).(receives := old(link).receives + 1)
      ensures
        var all := ReceiveSome(link.receiveTurns, old(link).receives, expiry, 504);
        if again then all == ReceiveSome(link.receiveTurns, link.receives, expiry, 504)
        else all == Receiving(bytes, link.receives, ec)
      ensures again ==>
        Patience(link.receiveTurns, link.receives, expiry) < Patience(link.receiveTurns, old(link).receives, expiry)
    {
      var turn := link.receiveTurns(link.receives);
      link := link.(receives := link.receives + 1);

      if expiry < turn.now {
        ec := TimedOut;
        return [], false;
      }
      var count := if turn.io.Done? then Min(|turn.io.r|, 504) else -1;
      ec := if turn.io.Failed? then turn.io.ec else Success;
      if count > 0 {
        return turn.io.r[..count], false;
      }
      if count == 0 {
        ec := EndOfFile;
        return [], false;
      }
      if ec != WouldBlock && ec != TryAgain {
        return [], false;
      }
      ec := if turn.poll.PollFailed? then turn.poll.ec else Success;
      return [], turn.poll.Polled?;
    }

    /** What a receive does: it fills the get buffer behind the putback places. */
    method StoreReceived(bytes: seq<Byte>)
      requires Valid() && gptr == egptr && 0 < |bytes| <= 504
      modifies this`link, this`gptr, this`egptr, getBuffer
      ensures Valid()
      ensures var s := old(Snapshot());
        var end := PUTBACK_MAX + |bytes|;
        Snapshot() == s.(get := s.get[..PUTBACK_MAX] + bytes + s.get[end..], gptr := PUTBACK_MAX, egptr := end,
                         link := s.link.(received := s.link.received + bytes))
    {
      var i := 0;
      while i < |bytes|
        invariant 0 <= i <= |bytes|
        invariant forall k :: 0 <= k < i ==> getBuffer[8 + k] == bytes[k]
        invariant forall k :: 0 <= k < 8 || 8 + i <= k < 512 ==> getBuffer[k] == old(getBuffer[k])
        modifies getBuffer
      {
        getBuffer[8 + i] := bytes[i];
        i := i + 1;
      }
      assert getBuffer[..] == old(getBuffer[..])[..8] + bytes + old(getBuffer[..])[8 + |bytes|..];
      link := link.(received := link.received + bytes);
      gptr, egptr := 8, 8 + |bytes|;
    }

    method Peek() returns (c: IntType)
      requires Valid()
      modifies this`ec, this`link, this`gptr, this`egptr, getBuffer
      ensures Valid() && (Snapshot(), c) == SocketSpec.Peek(old(Snapshot()))
    {
      if gptr < egptr {
        return Char(getBuffer[gptr]);
      } else {
        c := Underflow();
      }
    }

    method Bump() returns (c: IntType)
      requires Valid()
      modifies this`ec, this`link, this`gptr, this`egptr, getBuffer
      ensures Valid() && (Snapshot(), c) == SocketSpec.Bump(old(Snapshot()))
    {
      c := Peek();
      if c.Char? {
        gptr := gptr + 1;
      }
    }

    /** The connect loop over the endpoints that a resolver delivered. `socket` is
        the endpoint the socket is open for, before and after. */
    method ConnectToEndpoints(attempts: seq<Attempt>, before: Option<nat>) returns (socket: Option<nat>)
      modifies this`ec
      ensures Connecting(ec, socket) == Connect(attempts, expiry, Connecting(old(ec), before))
    {
      socket := before;
      if ec != Success {
        return;
      }
      ec := NotFound;
      var i := 0;
      while i < |attempts|
        invariant 0 <= i <= |attempts|
        invariant ConnectRest(attempts[i..], expiry, Connecting(ec, socket))
               == Connect(attempts, expiry, Connecting(old(ec), before))
      {
        var a := attempts[i];
        assert attempts[i..][0] == a && attempts[i..][1..] == attempts[i + 1..];
        i := i + 1;
        if expiry < a.now {
          ec := TimedOut;
          return;
        }

        // A new socket for every endpoint, whatever closing the old one reports.
        socket := None;
        ec := a.opening;
        if ec != Success {
          continue;
        }
        socket := Some(a.endpoint);
        ec := a.connecting;
        if ec == Success {
          return;
        }
        if ec != InProgress && ec != WouldBlock {
          continue;
        }

        // The connection is under way; a wait that times out goes on as well.
        ec := if a.polling.PollFailed? then a.polling.ec else Success;
        if a.polling.PollFailed? {
          continue;
        }
        ec := a.query.ec;
        if a.query.QueryFailed? || ec == Success {
          return;
        }
      }
    }
  }
}
