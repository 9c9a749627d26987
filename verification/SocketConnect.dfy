/** Which endpoint the connect loop settles on, and when its success is genuine. */
module SocketConnect {
  import opened Machine
  import opened SocketSpec

  lemma ReachesLater(attempts: seq<Attempt>, expiry: int, i: nat)
    requires i + 1 < |attempts|
    requires attempts[0].now <= expiry && !attempts[0].Good() && !attempts[0].Stuck()
    ensures Reaches(attempts[1..], expiry, i) <==> Reaches(attempts, expiry, i + 1)
  {
    var rest := attempts[1..];
    if Reaches(attempts, expiry, i + 1) {
      assert forall j :: 0 <= j < i ==> rest[j] == attempts[j + 1];
    }
  }

  /** The loop ends without error exactly when it reaches an endpoint that was
      reported good; by `Reaches`, that is the first good one. */
  lemma {:induction false} ConnectFindsFirstGood(attempts: seq<Attempt>, expiry: int, c: Connecting)
    requires c.ec != Success
    requires forall i | 0 <= i < |attempts| :: attempts[i].ReportsFailure()
    ensures ConnectRest(attempts, expiry, c).ec == Success <==>
      exists i: nat | i < |attempts| :: attempts[i].Good() && Reaches(attempts, expiry, i)
    ensures forall i: nat | i < |attempts| && attempts[i].Good() && Reaches(attempts, expiry, i) ::
      ConnectRest(attempts, expiry, c) == Connecting(Success, Some(attempts[i].endpoint))
    decreases |attempts|
  {
    if attempts == [] {
    } else if attempts[0].now <= expiry && !attempts[0].Good() && !attempts[0].Stuck() {
      var a, rest := attempts[0], attempts[1..];
      var socket := if a.opening == Success then Some(a.endpoint) else None;
      ConnectFindsFirstGood(rest, expiry, Connecting(a.Code(), socket));
      forall i: nat | i < |rest|
        ensures Reaches(rest, expiry, i) <==> Reaches(attempts, expiry, i + 1)
      {
        ReachesLater(attempts, expiry, i);
      }
      if i: nat :| i < |rest| && rest[i].Good() && Reaches(rest, expiry, i) {
        assert attempts[i + 1].Good() && Reaches(attempts, expiry, i + 1);
      }
      forall i: nat | i < |attempts| && attempts[i].Good() && Reaches(attempts, expiry, i)
        ensures i > 0 && rest[i - 1].Good() && Reaches(rest, expiry, i - 1)
      {
      }
    } else {
      assert attempts[0].Good() && attempts[0].now <= expiry ==> Reaches(attempts, expiry, 0);
    }
  }

  /** Entered without error, the connect loop succeeds exactly when it reaches a
      good endpoint, and then the socket is open for that one; an empty sequence
      gives `NotFound`, and an error found on entry stays. */
  lemma ConnectOutcome(attempts: seq<Attempt>, expiry: int, c: Connecting)
    requires forall i | 0 <= i < |attempts| :: attempts[i].ReportsFailure()
    ensures c.ec == Success ==>
      (Connect(attempts, expiry, c).ec == Success <==>
       exists i: nat | i < |attempts| :: attempts[i].Good() && Reaches(attempts, expiry, i))
    ensures c.ec == Success ==>
      forall i: nat | i < |attempts| && attempts[i].Good() && Reaches(attempts, expiry, i) ::
        Connect(attempts, expiry, c).socket == Some(attempts[i].endpoint)
    ensures c.ec == Success && attempts == [] ==> Connect(attempts, expiry, c) == c.(ec := NotFound)
    ensures c.ec != Success ==> Connect(attempts, expiry, c) == c
  {
    if c.ec == Success {
      ConnectFindsFirstGood(attempts, expiry, c.(ec := NotFound));
    }
  }

  /** The turn for one endpoint ends the loop: it is reported good, directly or
      after a wait, or the query after the wait fails. Otherwise it leaves the code
      of the call that failed last. */
  lemma AttemptEnds(a: Attempt)
    ensures a.Good() <==> a.Established() || a.Premature()
    ensures a.opening != Success ==> !a.Good() && !a.Stuck() && a.Code() == a.opening
    ensures a.opening == Success && a.connecting != InProgress && a.connecting != WouldBlock ==>
      !a.Stuck() && (a.Good() <==> a.connecting == Success) && a.Code() == a.connecting
    ensures a.opening == Success && (a.connecting == InProgress || a.connecting == WouldBlock) ==>
      match a.polling
      case PollFailed(e) => !a.Good() && !a.Stuck() && a.Code() == e
      case Polled(_) =>
        a.Code() == a.query.ec && (a.Stuck() <==> a.query.QueryFailed?) && (a.Good() <==> a.query == Answer(Success))
  {
  }

  /** The turns before `i` were all tried in time and did not end the loop. */
  predicate Tried(attempts: seq<Attempt>, expiry: int, i: nat) {
    i <= |attempts| &&
    forall j :: 0 <= j < i ==> attempts[j].now <= expiry && !attempts[j].Good() && !attempts[j].Stuck()
  }

  /** The code and the socket after the turns before `i`. */
  function After(attempts: seq<Attempt>, c: Connecting, i: nat): Connecting
    requires i <= |attempts|
  {
    if i == 0 then c
    else Connecting(attempts[i - 1].Code(),
                    if attempts[i - 1].opening == Success then Some(attempts[i - 1].endpoint) else None)
  }

  /** The loop ends at turn `i`: late, with the timeout code and the socket of the
      turn before; otherwise with the code and the socket of its own endpoint. When
      no turn ends it, it has the code and the socket of the last one. */
  lemma {:induction false} ConnectEnds(attempts: seq<Attempt>, expiry: int, c: Connecting, i: nat)
    requires Tried(attempts, expiry, i)
    ensures i == |attempts| ==> ConnectRest(attempts, expiry, c) == After(attempts, c, i)
    ensures i < |attempts| && expiry < attempts[i].now ==>
      ConnectRest(attempts, expiry, c) == After(attempts, c, i).(ec := TimedOut)
    ensures i < |attempts| && attempts[i].now <= expiry && (attempts[i].Good() || attempts[i].Stuck()) ==>
      ConnectRest(attempts, expiry, c) == After(attempts, c, i + 1)
    decreases i
  {
    if i > 0 {
      var rest := attempts[1..];
      assert Tried(rest, expiry, i - 1) by {
        assert forall j :: 0 <= j < i - 1 ==> rest[j] == attempts[j + 1];
      }
      ConnectEnds(rest, expiry, After(attempts, c, 1), i - 1);
    }
  }

  /** There is always such an `i`. */
  lemma {:induction false} SomeTurnIsLast(attempts: seq<Attempt>, expiry: int, from: nat) returns (i: nat)
    requires Tried(attempts, expiry, from)
    ensures Tried(attempts, expiry, i)
    ensures i < |attempts| ==> expiry < attempts[i].now || attempts[i].Good() || attempts[i].Stuck()
    decreases |attempts| - from
  {
    i := from;
    if from < |attempts| && attempts[from].now <= expiry && !attempts[from].Good() && !attempts[from].Stuck() {
      i := SomeTurnIsLast(attempts, expiry, from + 1);
    }
  }

  /** The loop settles on at most one endpoint. */
  lemma GoodIsUnique(attempts: seq<Attempt>, expiry: int, i: nat, j: nat)
    requires i < |attempts| && attempts[i].Good() && Reaches(attempts, expiry, i)
    requires j < |attempts| && attempts[j].Good() && Reaches(attempts, expiry, j)
    ensures i == j
  {
  }

  /** Reported success is genuine exactly when no reached endpoint was taken for
      connected after a wait that timed out. */
  lemma SuccessIsGenuine(attempts: seq<Attempt>, expiry: int, c: Connecting)
    requires forall i | 0 <= i < |attempts| :: attempts[i].ReportsFailure()
    requires c.ec == Success && Connect(attempts, expiry, c).ec == Success
    ensures (exists i: nat | i < |attempts| :: attempts[i].Established() && Reaches(attempts, expiry, i)) <==>
      !exists i: nat | i < |attempts| :: attempts[i].Premature() && Reaches(attempts, expiry, i)
  {
    ConnectOutcome(attempts, expiry, c);
    var i: nat :| i < |attempts| && attempts[i].Good() && Reaches(attempts, expiry, i);
    assert attempts[i].Established() || attempts[i].Premature();
    forall j: nat | j < |attempts| && attempts[j].Good() && Reaches(attempts, expiry, j)
      ensures i == j
    {
      GoodIsUnique(attempts, expiry, i, j);
    }
  }

  /** An attempt whose wait timed out and that is reported as success. */
  lemma TimedOutWaitCountsAsConnected(now: int)
    ensures var a := Attempt(0, now, Success, InProgress, Polled(0), Answer(Success));
      !a.Established() && Connect([a], now, Connecting(Success, None)) == Connecting(Success, Some(0))
  {
  }
}
