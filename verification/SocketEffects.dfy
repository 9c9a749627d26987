/** What single operations of the socket stream buffer do, in terms of its areas,
    its connection and the answers of the network. */
module SocketEffects {
  import opened Machine
  import opened SocketAnswers
  import opened SocketSpec
  import opened SocketRuns

  /** What a flush has to send: everything pending, or without a put buffer only
      the new character. */
  function ToSend(s: State, c: IntType): seq<Byte>
    requires s.Valid()
  {
    if s.put != [] then s.Pending() else if c.Char? then [c.b] else []
  }

  /** The value of a successful flush: the character, or anything but end of file. */
  function Accepting(c: IntType): IntType {
    if c.Char? then c else Char(0)
  }

  /** A put area of its full size, empty but for a new character. */
  predicate IsFlushed(t: State, put: seq<Byte>, c: IntType) {
    if put == [] then t.put == [] && t.pbase == t.pptr == t.epptr == 0
    else
      && |t.put| == |put| == t.epptr && t.pbase == 0
      && (if c.Char? then t.pptr == 1 && t.put[0] == c.b && t.put[1..] == put[1..] else t.pptr == 0 && t.put == put)
  }

  /** A flush is decided by turn `k`. If that accepts the last of what there is to
      send, all of it is on the wire, the code is clear, and the put area has only
      the new character; if not, what earlier turns accepted is on the wire, the
      code says why no more, and the areas are untouched. */
  lemma FlushIsAnswered(s: State, c: IntType, k: nat)
    requires s.Valid() && SendEndsAt(s.link.sendTurns, s.link.sends, s.expiry, |ToSend(s, c)|, k)
    ensures var (t, result) := Step(s, OverflowOp(c));
      var turns := s.link.sendTurns;
      && t.link == s.link.(wire := t.link.wire, sends := k + 1)
      && t == s.(put := t.put, pbase := t.pbase, pptr := t.pptr, epptr := t.epptr, ec := t.ec, link := t.link)
      && if GoesOn(turns(k), s.expiry) then
           && t.link.wire == s.link.wire + ToSend(s, c) && t.ec == Success
           && IsFlushed(t, s.put, c) && result == Accepting(c)
         else
           && t.link.wire == s.link.wire + ToSend(s, c)[..Capacity(turns, s.link.sends, k)]
           && t == s.(ec := SendCode(turns(k), s.expiry), link := t.link) && result == Eof
  {
    SendIsAnswered(ToSend(s, c), s.link.sendTurns, s.link.sends, s.expiry, s.ec, k);
  }

  /** With nothing to send a flush succeeds at once and asks nobody. */
  lemma FlushOfNothing(s: State, c: IntType)
    requires s.Valid() && ToSend(s, c) == []
    ensures var (t, result) := Step(s, OverflowOp(c));
      && t == s.(put := t.put, pbase := t.pbase, pptr := t.pptr, epptr := t.epptr)
      && IsFlushed(t, s.put, c) && result == Accepting(c)
  {
    assert s.link.wire + [] == s.link.wire;
  }

  /** A write into a put area with room stores the character there; without room,
      and as `sync` without a character, it is a flush. */
  lemma PutStoresOrFlushes(s: State, b: Byte)
    requires s.Valid()
    ensures s.pptr < s.epptr ==>
      && Step(s, PutOp(b)).1 == Char(b)
      && var t := Step(s, PutOp(b)).0;
         t == s.(put := t.put, pptr := s.pptr + 1) && t.put == s.put[..s.pptr] + [b] + s.put[s.pptr + 1..]
    ensures s.pptr == s.epptr ==> Step(s, PutOp(b)) == Step(s, OverflowOp(Char(b)))
    ensures Step(s, SyncOp) == Step(s, OverflowOp(Eof))
  {
  }

  /** Unbuffered output is asked for and nothing is pending: the put buffer is
      gone, and nothing else changes. In every other case the request is refused
      without any effect. */
  lemma SetBufExact(s: State, noBuffer: bool)
    requires s.Valid()
    ensures Step(s, SetBufOp(noBuffer)) ==
      if noBuffer && s.Pending() == [] then (s.(put := [], pbase := 0, pptr := 0, epptr := 0), Char(0)) else (s, Eof)
  {
  }

  /** From then on a character is on the wire at once when the network takes it, and
      refused when not; it is never kept. */
  lemma UnbufferedPut(s: State, b: Byte, k: nat)
    requires s.Valid() && s.Pending() == []
    ensures Step(s, SetBufOp(true)).1.Char?
    ensures SendEndsAt(s.link.sendTurns, s.link.sends, s.expiry, 1, k) ==>
      var (t, result) := Step(Step(s, SetBufOp(true)).0, PutOp(b));
      && t.Pending() == [] && t.put == []
      && if GoesOn(s.link.sendTurns(k), s.expiry) then result == Char(b) && t.link.wire == s.link.wire + [b]
         else result == Eof && t.link.wire == s.link.wire
  {
    SetBufExact(s, true);
    var u := Step(s, SetBufOp(true)).0;
    if SendEndsAt(s.link.sendTurns, s.link.sends, s.expiry, 1, k) {
      PutStoresOrFlushes(u, b);
      FlushIsAnswered(u, Char(b), k);
      assert [b][..0] == [] && s.link.wire + [] == s.link.wire;
    }
  }

  /** Setting the expiry time changes nothing else. */
  lemma ExpiryIsSet(s: State, expiry: int)
    requires s.Valid()
    ensures Step(s, ExpiresAt(expiry)) == (s.(expiry := expiry), Char(0))
  {
  }

  /** Closing flushes, and then leaves the code of closing the socket, whatever the
      flush left. Only when that is clear, both areas are emptied. */
  lemma CloseExact(s: State, closing: ErrorCode)
    requires s.Valid()
    ensures var t, flushed := Close(s, closing), Step(s, SyncOp).0;
      && t.ec == closing && t.link == flushed.link && t.expiry == s.expiry && t.get == s.get && t.put == s.put
      && (closing == Success ==>
            && t.gptr == t.egptr == PUTBACK_MAX && t.pbase == t.pptr == 0 && t.epptr == |s.put|
            && t.Unread() == [] && t.Pending() == [])
      && (closing != Success ==>
            && t.gptr == s.gptr && t.egptr == s.egptr && t.Unread() == s.Unread()
            && t.Pending() == flushed.Pending())
  {
  }

  /** A new object: 512 characters of room for output, nothing to read behind the 8
      putback places, a clear code, and no expiry. */
  lemma NewIsEmpty(link: Link)
    requires link.Valid()
    ensures var s := Init(link);
      && s.link == link && s.ec == Success && s.expiry == 0x7fff_ffff_ffff_ffff
      && |s.get| == 512 && s.gptr == s.egptr == 8 && |s.put| == s.epptr == 512 && s.pbase == s.pptr == 0
  {
  }

  /** Nothing gets through a closed socket. */
  lemma ClosedIsSilent(s: State)
    requires s.Valid() && s.link == Link.Closed() && 0 <= s.expiry
    ensures s.Pending() != [] ==>
      Step(s, SyncOp) == (s.(ec := System(9), link := s.link.(sends := 1)), Eof)
    ensures s.gptr == s.egptr ==>
      Step(s, UnderflowOp) == (s.(ec := System(9), link := s.link.(receives := 1)), Eof)
  {
    assert s.link.wire + [] == s.link.wire && s.link.received + [] == s.link.received;
  }
}
