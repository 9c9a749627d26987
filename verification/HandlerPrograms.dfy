/** Whole programs: what holds in every reachable state, as long as the code of a
    destructor leaves the variable that is being destroyed with its target. */
module HandlerPrograms {
  import opened HandlerSpec
  import opened HandlerFrames
  import opened HandlerRuns
  import opened HandlerDestructors

  /** Whenever a wrapper's destructor has a target to release, the code of that
      target's destructor would leave it in the wrapper, judged before it runs. */
  predicate Careful(w: World, op: Op)
    decreases op, 1
  {
    match op
    case MoveAssign(i, j, body) =>
      InScope(w, i) && InScope(w, j) && i != j && HasTarget(w.cells[i]) ==>
        CarefulRun(BeginRelease(Handed(w, i, j), w.cells[i]), body)
    case NullAssign(i, body) =>
      InScope(w, i) && HasTarget(w.cells[i]) ==> CarefulRun(BeginRelease(Put(w, i, EMPTY), w.cells[i]), body)
    case Destruct(i, body) =>
      InScope(w, i) && HasTarget(w.cells[i]) ==>
        CarefulRun(w, body) && Holds(Run(w, body).cells, i, w.cells[i].impl.value)
    case Call(i, body) =>
      InScope(w, i) && w.cells[i].impl.Some? ==> CarefulRun(Launch(w, i), body)
    case _ => true
  }

  predicate CarefulRun(w: World, ops: seq<Op>)
    decreases ops, 0
  {
    ops != [] ==> Careful(w, ops[0]) && CarefulRun(Step(w, ops[0]), ops[1..])
  }

  /** From the start of a destructor to the end of the release. */
  lemma {:induction false} FinishKeepsGood(w: World, s: World, id: nat, body: seq<Op>)
    requires Good(s) && CarefulRun(s, body)
    requires id !in w.dying && id in s.dying && s.dying == w.dying[id := s.dying[id]]
    ensures Good(EndRelease(Run(s, body), id)) && EndRelease(Run(s, body), id).dying == w.dying
    decreases body, 1
  {
    RunKeepsGood(s, body);
    EndKeepsGood(Run(s, body), id);
  }

  lemma {:induction false} MoveAssignKeepsGood(w: World, i: nat, j: nat, body: seq<Op>)
    requires Good(w) && Careful(w, MoveAssign(i, j, body))
    ensures var t := Step(w, MoveAssign(i, j, body)); Good(t) && t.dying == w.dying
    decreases body, 2
  {
    if InScope(w, i) && InScope(w, j) && i != j {
      if HasTarget(w.cells[i]) {
        HandedKeepsGood(w, i, j);
        FinishKeepsGood(w, BeginRelease(Handed(w, i, j), w.cells[i]), w.cells[i].impl.value, body);
      } else {
        HandedEmptyKeepsGood(w, i, j);
      }
    }
  }

  lemma {:induction false} NullAssignKeepsGood(w: World, i: nat, body: seq<Op>)
    requires Good(w) && Careful(w, NullAssign(i, body))
    ensures var t := Step(w, NullAssign(i, body)); Good(t) && t.dying == w.dying
    decreases body, 2
  {
    if InScope(w, i) {
      if HasTarget(w.cells[i]) {
        StartKeepsGood(w, i, EMPTY);
        FinishKeepsGood(w, BeginRelease(Put(w, i, EMPTY), w.cells[i]), w.cells[i].impl.value, body);
      } else {
        NoTargetHoldsNothing(w, i);
        EmptyKeepsGood(w, i, EMPTY);
      }
    }
  }

  lemma {:induction false} DestructKeepsGood(w: World, i: nat, body: seq<Op>)
    requires Good(w) && Careful(w, Destruct(i, body))
    ensures var t := Step(w, Destruct(i, body)); Good(t) && t.dying == w.dying
    decreases body, 2
  {
    if InScope(w, i) {
      if HasTarget(w.cells[i]) {
        var id := w.cells[i].impl.value;
        assert Holds(w.cells, i, id);
        RunKeepsGood(w, body);
        DestructExact(w, i, id, body);
        StartsShadow(w, i, id);
        RunFollows(w, BeginRelease(w, w.cells[i]), id, body);
      } else {
        NoTargetHoldsNothing(w, i);
        EmptyKeepsGood(w, i, Gone);
      }
    }
  }

  /** Every operation keeps the invariant, including everything that handlers do
      while they are called or destroyed. */
  lemma {:induction false} StepKeepsGood(w: World, op: Op)
    requires Good(w) && Careful(w, op)
    ensures Good(Step(w, op)) && Step(w, op).dying == w.dying
    decreases op, 3
  {
    match op
    case ConstructEmpty(i) =>
      if IsGone(w, i) {
        EmptyKeepsGood(w, i, EMPTY);
      }
    case Construct(i, kind, allocator, throws) => ConstructKeepsGood(w, i, kind, allocator, throws);
    case MoveConstruct(i, j) => MoveConstructKeepsGood(w, i, j);
    case MoveAssign(i, j, body) => MoveAssignKeepsGood(w, i, j, body);
    case NullAssign(i, body) => NullAssignKeepsGood(w, i, body);
    case Swap(i, j) =>
      if InScope(w, i) && InScope(w, j) {
        SwapKeepsGood(w, i, j);
      }
    case Destruct(i, body) => DestructKeepsGood(w, i, body);
    case Call(i, body) =>
      if InScope(w, i) && w.cells[i].impl.Some? {
        LaunchKeepsGood(w, i);
        RunKeepsGood(Launch(w, i), body);
      }
  }

  lemma {:induction false} RunKeepsGood(w: World, ops: seq<Op>)
    requires Good(w) && CarefulRun(w, ops)
    ensures Good(Run(w, ops)) && Run(w, ops).dying == w.dying
    decreases ops, 0
  {
    if ops != [] {
      StepKeepsGood(w, ops[0]);
      RunKeepsGood(Step(w, ops[0]), ops[1..]);
    }
  }

  /** Move assignment between different variables. When the old target's
      destructor starts, the new target has changed hands, the source is empty,
      nobody else is affected and the invariant holds, so its code may use any
      wrapper in any way; whatever it does, that life is then properly over. */
  lemma MoveAssignTransfers(w: World, i: nat, j: nat, body: seq<Op>, id: nat)
    requires Good(w) && InScope(w, i) && InScope(w, j) && i != j
    requires Holds(w.cells, i, id) && Careful(w, MoveAssign(i, j, body))
    ensures w.cells[i].table.Some?
    ensures var s := StartRelease(Handed(w, i, j), id, w.cells[i].table.value);
      && Good(s) && id in s.dying && s.log == w.log + [Destroyed(id, w.cells[i].table.value)]
      && (forall x: nat :: Holds(s.cells, i, x) <==> Holds(w.cells, j, x))
      && HoldsNothing(s.cells[j])
      && (forall k: nat, x: nat | k != i && k != j :: Holds(s.cells, k, x) <==> Holds(w.cells, k, x))
    ensures var t := Step(w, MoveAssign(i, j, body));
      id !in t.live && id !in t.dying && IsOver(History(t.log, id), id)
  {
    HandedKeepsGood(w, i, j);
    MoveAssignKeepsGood(w, i, j, body);
    DeadStaysDead(StartRelease(Handed(w, i, j), id, w.cells[i].table.value), body, id);
    assert RecordedOne(Step(w, MoveAssign(i, j, body)), id);
  }

  /** Code that never uses a variable whose destructor is running is careful. */
  lemma {:induction false} ProperIsCareful(w: World, ops: seq<Op>)
    requires AllProper(ops)
    ensures CarefulRun(w, ops)
    decreases ops, 0
  {
    if ops != [] {
      ProperStepIsCareful(w, ops[0]);
      ProperIsCareful(Step(w, ops[0]), ops[1..]);
    }
  }

  lemma {:induction false} ProperStepIsCareful(w: World, op: Op)
    requires Proper(op)
    ensures Careful(w, op)
    decreases op, 1
  {
    match op
    case MoveAssign(i, j, body) =>
      if InScope(w, i) && InScope(w, j) {
        ProperIsCareful(BeginRelease(Handed(w, i, j), w.cells[i]), body);
      }
    case NullAssign(i, body) =>
      if InScope(w, i) {
        ProperIsCareful(BeginRelease(Put(w, i, EMPTY), w.cells[i]), body);
      }
    case Destruct(i, body) =>
      if InScope(w, i) {
        ProperIsCareful(w, body);
        RunFrame(w, body, i, w.cells[i]);
        assert Put(w, i, w.cells[i]) == w;
      }
    case Call(i, body) => ProperIsCareful(Launch(w, i), body);
    case _ =>
  }

  // ---- Consequences for whole programs ----

  /** Over every run of a program over `n` wrapper variables: targets are alive
      and properly typed, ownership is one to one, no destructor is left half
      done, and every life that is over was properly ended, exactly once. */
  lemma ProgramIsGood(n: nat, ops: seq<Op>)
    requires CarefulRun(Start(n), ops)
    ensures Good(Run(Start(n), ops)) && Run(Start(n), ops).dying == map[]
  {
    RunKeepsGood(Start(n), ops);
  }

  predicate AllEmpty(w: World) {
    forall i :: 0 <= i < |w.cells| ==> HoldsNothing(w.cells[i])
  }

  /** Nothing leaks: once no variable holds a target, every implementation that
      was ever created has come to a proper end. */
  lemma NothingLeaks(n: nat, ops: seq<Op>)
    requires CarefulRun(Start(n), ops) && AllEmpty(Run(Start(n), ops))
    ensures var t := Run(Start(n), ops);
      t.live == map[] && forall id: nat | id < t.next :: IsOver(History(t.log, id), id)
  {
    var t := Run(Start(n), ops);
    ProgramIsGood(n, ops);
    assert forall id <- t.live :: exists i: nat :: Holds(t.cells, i, id);
    assert forall i: nat, id: nat :: !Holds(t.cells, i, id);
    forall id: nat | id < t.next
      ensures IsOver(History(t.log, id), id)
    {
      assert RecordedOne(t, id);
    }
  }

  /** In every reachable state each implementation was freed and invoked at most
      once, invoked exactly when it was moved out, and then only after it was
      freed, and freed with the allocator it came from. */
  lemma AtMostOnce(n: nat, ops: seq<Op>, id: nat)
    requires CarefulRun(Start(n), ops)
    ensures var h := History(Run(Start(n), ops).log, id);
      && (forall i, j :: 0 <= i < j < |h| ==>
            h[i] != h[j] && (h[i].Freed? ==> !h[j].Freed?) && (h[i].Invoked? ==> !h[j].Invoked?))
      && (forall i, j :: 0 <= i < |h| && 0 <= j < |h| ==>
            h[i].Allocated? && h[j].Freed? ==> h[i].allocator == h[j].allocator)
      && (forall j :: 0 <= j < |h| && h[j].Invoked? ==> exists i :: 0 <= i < j && h[i].Freed?)
      && ((exists i :: 0 <= i < |h| && h[i].MovedOut?) <==> (exists j :: 0 <= j < |h| && h[j].Invoked?))
  {
    ProgramIsGood(n, ops);
    var t := Run(Start(n), ops);
    assert RecordedOne(t, id);
    var h := History(t.log, id);
    if |h| == 6 {
      assert h[2].MovedOut? && h[4].Freed? && h[5].Invoked?;
    } else {
      assert forall k :: 0 <= k < |h| ==> !h[k].MovedOut? && !h[k].Invoked?;
    }
  }

  /** A life in which the storage of a constructed handler went back: before that the
      handler was destroyed, once, as the type it was constructed as, and after it
      was moved out, if it was; and if it was invoked, then after all that. */
  predicate DestroyedOnce(h: seq<Event>, d: nat) {
    && d < |h| && h[d].Destroyed?
    && (forall k :: 0 <= k < |h| && h[k].Destroyed? ==> k == d)
    && (forall k :: 0 <= k < |h| && h[k].Constructed? ==> k < d && h[k].kind == h[d].kind)
    && (forall k :: 0 <= k < |h| && h[k].MovedOut? ==> k < d && h[k].kind == h[d].kind)
    && (forall k :: 0 <= k < |h| && h[k].Freed? ==> d < k)
    && (forall k, f :: 0 <= k < |h| && 0 <= f < |h| && h[k].Invoked? && h[f].Freed? ==>
          f < k && h[k].kind == h[d].kind)
  }

  predicate WasConstructed(h: seq<Event>) {
    exists k :: 0 <= k < |h| && h[k].Constructed?
  }

  predicate WasFreed(h: seq<Event>) {
    exists k :: 0 <= k < |h| && h[k].Freed?
  }

  lemma OverIsDestroyed(h: seq<Event>, id: nat)
    requires IsOver(h, id) && WasConstructed(h)
    ensures WasFreed(h) && DestroyedOnce(h, if |h| == 4 then 2 else 3)
  {
    assert |h| == 2 || |h| == 4 || |h| == 6;
    if |h| == 4 {
      assert h[2].Destroyed? && h[3].Freed?;
    } else if |h| == 6 {
      assert h[2].MovedOut? && h[3].Destroyed? && h[4].Freed? && h[5].Invoked?;
    }
  }

  /** In every reachable state: no storage goes back with a constructed handler in
      it. That handler was destroyed before, exactly once and as its own type. */
  lemma DestroyedBeforeFreed(n: nat, ops: seq<Op>, id: nat) returns (d: nat)
    requires CarefulRun(Start(n), ops)
    ensures var h := History(Run(Start(n), ops).log, id);
      WasConstructed(h) && WasFreed(h) ==> DestroyedOnce(h, d)
  {
    ProgramIsGood(n, ops);
    var t := Run(Start(n), ops);
    assert RecordedOne(t, id);
    var h := History(t.log, id);
    d := if |h| == 4 then 2 else 3;
    if id < t.next && id !in t.live && WasConstructed(h) {
      OverIsDestroyed(h, id);
    }
  }

  /** Once no wrapper has a target, this is true of every handler ever constructed. */
  lemma AllDestroyed(n: nat, ops: seq<Op>, id: nat) returns (d: nat)
    requires CarefulRun(Start(n), ops) && AllEmpty(Run(Start(n), ops))
    ensures var h := History(Run(Start(n), ops).log, id);
      WasConstructed(h) ==> WasFreed(h) && DestroyedOnce(h, d)
  {
    ProgramIsGood(n, ops);
    NothingLeaks(n, ops);
    var t := Run(Start(n), ops);
    assert RecordedOne(t, id);
    var h := History(t.log, id);
    d := if |h| == 4 then 2 else 3;
    if WasConstructed(h) {
      OverIsDestroyed(h, id);
    }
  }
}
