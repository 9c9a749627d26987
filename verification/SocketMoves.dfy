/** What a move carries over, and what it leaves behind. */
module SocketMoves {
  import opened Machine
  import opened SocketSpec
  import opened SocketRuns

  /** An object with empty areas, buffered, without error, on a closed socket. */
  ghost predicate IsReset(s: State) {
    s.Valid() && s == s.Emptied() && |s.put| == BUFFER_SIZE
    && s.ec == Success && s.expiry == MAX_EXPIRY && s.link == Link.Closed()
  }

  /** The new owner `t` of what `source` held: same connection, same unread input
      at the same places, and the same output exactly when nothing was pending. */
  ghost predicate Inherits(t: State, source: State)
    requires source.Valid()
  {
    && t.Valid() && t.link == source.link
    && t.gptr == source.gptr && t.egptr == source.egptr && t.Unread() == source.Unread()
    && t.ec == source.ec && t.expiry == source.expiry && |t.put| == |source.put|
    && t.Pending() == []
    && (Flow(t) == Flow(source) <==> source.Pending() == [])
  }

  lemma MoveConstructInherits(source: State)
    requires source.Valid()
    ensures var (t, left) := MoveConstruct(source); Inherits(t, source) && IsReset(left)
  {
  }

  /** The assigned-to object inherits the same way, and its own old connection
      got a prefix of what it had pending before the socket was closed. */
  lemma MoveAssignInherits(target: State, source: State, closing: ErrorCode) returns (sent: seq<Byte>)
    requires target.Valid() && source.Valid()
    ensures var (t, left) := MoveAssign(target, source, closing); Inherits(t, source) && IsReset(left)
    ensures sent <= target.Pending() && Close(target, closing).link.wire == target.link.wire + sent
    ensures sent == target.Pending() <==> Sync(target).1.Char?
  {
    TakenFromInherits(source);
    if target.put == [] {
      sent := [];
      assert target.link.wire + [] == target.link.wire;
    } else {
      sent := SendAll(target.Pending(), target.link.sendTurns, target.link.sends, target.expiry, target.ec).out;
    }
  }

  /** Assigning an object to itself is no exception: its connection gets a prefix
      of what was pending and is closed, and everything else it held, such as
      unread input, is gone. */
  lemma SelfAssignmentResets(s: State, closing: ErrorCode) returns (sent: seq<Byte>)
    requires s.Valid()
    ensures var t := MoveAssignSelf(s, closing);
      && IsReset(t.(link := Link.Closed())) && t.Unread() == [] && t.Pending() == []
      && t.link == s.link.(wire := s.link.wire + sent, sends := t.link.sends)
    ensures sent <= s.Pending() && (sent == s.Pending() <==> Sync(s).1.Char?)
  {
    if s.put == [] {
      sent := [];
      assert s.link.wire + [] == s.link.wire;
    } else {
      sent := SendAll(s.Pending(), s.link.sendTurns, s.link.sends, s.expiry, s.ec).out;
    }
  }

  lemma TakenFromInherits(source: State)
    requires source.Valid()
    ensures Inherits(TakenFrom(source), source)
  {
  }
}
