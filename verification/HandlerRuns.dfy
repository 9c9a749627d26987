/** The ownership invariant of wrappers and implementations, how the parts of each
    operation keep it, and what every run does to targets and to the log. */
module HandlerRuns {
  import opened Machine
  import opened HandlerSpec

  // ---- What happened to one implementation ----

  /** The events of implementation `id`, in order. */
  function History(log: seq<Event>, id: nat): seq<Event> {
    if log == [] then []
    else
      var last := log[|log| - 1];
      History(log[..|log| - 1], id) + if last.id == id then [last] else []
  }

  lemma {:induction false} HistoryOfAppend(log: seq<Event>, more: seq<Event>, id: nat)
    ensures History(log + more, id) == History(log, id) + History(more, id)
    decreases |more|
  {
    if more == [] {
      assert log + more == log;
    } else {
      var front, last := more[..|more| - 1], more[|more| - 1];
      HistoryOfAppend(log, front, id);
      assert (log + more)[..|log + more| - 1] == log + front;
      assert (log + more)[|log + more| - 1] == last;
    }
  }

  lemma {:induction false} HistoryOfOthers(log: seq<Event>, id: nat)
    requires forall k :: 0 <= k < |log| ==> log[k].id != id
    ensures History(log, id) == []
  {
    if log != [] {
      HistoryOfOthers(log[..|log| - 1], id);
    }
  }

  lemma {:induction false} HistoryOfOne(log: seq<Event>, id: nat)
    requires forall k :: 0 <= k < |log| ==> log[k].id == id
    ensures History(log, id) == log
  {
    if log != [] {
      HistoryOfOne(log[..|log| - 1], id);
    }
  }

  /** How a wrapper's destructor ends a life. */
  function EndByDestroy(id: nat, kind: Kind, allocator: nat): seq<Event> {
    [Destroyed(id, kind), Freed(id, allocator)]
  }

  /** The whole life of an implementation that is over: its constructor threw, or
      a wrapper destroyed it, or it was called. Each step happens once, through
      the type it was built for; the storage goes back to the allocator it came
      from; and a called handler runs only after that. */
  predicate IsOver(h: seq<Event>, id: nat) {
    |h| >= 2 && h[0].Allocated? &&
    var allocator := h[0].allocator;
    || h == [Allocated(id, allocator), Freed(id, allocator)]
    || (h[1].Constructed? &&
        var impl := Impl(h[1].kind, allocator);
        || h == Born(id, impl) + EndByDestroy(id, impl.kind, allocator)
        || h == Born(id, impl) + EndByCall(id, impl.kind, allocator))
  }

  /** The life so far of an implementation that is alive. */
  function Born(id: nat, impl: Impl): seq<Event> {
    [Allocated(id, impl.allocator), Constructed(id, impl.kind)]
  }

  /** And of one whose handler's destructor is running. */
  function Ending(id: nat, impl: Impl): seq<Event> {
    Born(id, impl) + [Destroyed(id, impl.kind)]
  }

  // ---- The invariant ----

  predicate Holds(cells: seq<Cell>, i: nat, id: nat) {
    i < |cells| && cells[i].Cell? && cells[i].impl == Some(id)
  }

  predicate HoldsNothing(c: Cell) {
    c.Gone? || c.impl.None?
  }

  /** Every target is alive, and its wrapper's table is the one for its type. */
  ghost predicate Typed(cells: seq<Cell>, live: map<nat, Impl>) {
    forall i: nat, id: nat :: Holds(cells, i, id) ==> id in live && cells[i].table == Some(live[id].kind)
  }

  /** Every live implementation has an owner, and no implementation has two. */
  ghost predicate Owned(cells: seq<Cell>, live: map<nat, Impl>) {
    && (forall id <- live :: exists i: nat :: Holds(cells, i, id))
    && (forall i: nat, j: nat, id: nat :: Holds(cells, i, id) && Holds(cells, j, id) ==> i == j)
  }

  /** Every implementation is alive and untouched, or in its destructor, or its
      life is properly over. */
  ghost predicate Recorded(w: World) {
    && (forall id <- w.live :: id < w.next && id !in w.dying)
    && (forall id <- w.dying :: id < w.next)
    && (forall id: nat :: RecordedOne(w, id))
  }

  predicate RecordedOne(w: World, id: nat) {
    var h := History(w.log, id);
    if id in w.live then h == Born(id, w.live[id])
    else if id in w.dying then h == Ending(id, w.dying[id])
    else if id < w.next then IsOver(h, id)
    else h == []
  }

  ghost predicate Good(w: World) {
    Typed(w.cells, w.live) && Owned(w.cells, w.live) && Recorded(w)
  }

  // ---- Steps on the log ----

  /** Events of one implementation leave all other histories alone. */
  lemma LogOne(log: seq<Event>, more: seq<Event>, id: nat, other: nat)
    requires forall k :: 0 <= k < |more| ==> more[k].id == id
    ensures History(log + more, other) == if other == id then History(log, id) + more else History(log, other)
  {
    HistoryOfAppend(log, more, other);
    if other == id {
      HistoryOfOne(more, id);
    } else {
      HistoryOfOthers(more, other);
    }
  }

  lemma CreateIsRecorded(w: World, kind: Kind, allocator: nat, throws: bool)
    requires Recorded(w)
    ensures Recorded(Create(w, kind, allocator, throws))
  {
    var t, impl := Create(w, kind, allocator, throws), Impl(kind, allocator);
    forall id: nat
      ensures RecordedOne(t, id)
    {
      assert RecordedOne(w, id);
      LogOne(w.log, if throws then [Allocated(w.next, allocator), Freed(w.next, allocator)] else Born(w.next, impl),
             w.next, id);
    }
  }

  lemma StartIsRecorded(w: World, id: nat)
    requires Recorded(w) && id in w.live
    ensures Recorded(StartRelease(w, id, w.live[id].kind))
  {
    var t := StartRelease(w, id, w.live[id].kind);
    forall other: nat
      ensures RecordedOne(t, other)
    {
      assert RecordedOne(w, other);
      LogOne(w.log, [Destroyed(id, w.live[id].kind)], id, other);
    }
  }

  lemma EndIsRecorded(w: World, id: nat)
    requires Recorded(w) && id in w.dying
    ensures Recorded(EndRelease(w, id))
  {
    forall other: nat
      ensures RecordedOne(EndRelease(w, id), other)
    {
      assert RecordedOne(w, other);
      LogOne(w.log, [Freed(id, w.dying[id].allocator)], id, other);
      EndsProperly(id, w.dying[id]);
    }
  }

  lemma EndsProperly(id: nat, impl: Impl)
    ensures IsOver(Ending(id, impl) + [Freed(id, impl.allocator)], id)
  {
    var over := Ending(id, impl) + [Freed(id, impl.allocator)];
    assert over == Born(id, impl) + EndByDestroy(id, impl.kind, impl.allocator);
  }

  lemma LaunchIsRecorded(w: World, id: nat)
    requires Recorded(w) && id in w.live
    ensures var end := EndByCall(id, w.live[id].kind, w.live[id].allocator);
      Recorded(w.(live := w.live - {id}, log := w.log + end))
  {
    var impl := w.live[id];
    var t := w.(live := w.live - {id}, log := w.log + EndByCall(id, impl.kind, impl.allocator));
    forall other: nat
      ensures RecordedOne(t, other)
    {
      assert RecordedOne(w, other);
      LogOne(w.log, EndByCall(id, impl.kind, impl.allocator), id, other);
    }
  }

  // ---- Steps on the variables ----

  lemma FillKeepsOwners(cells: seq<Cell>, live: map<nat, Impl>, i: nat, id: nat, impl: Impl)
    requires Typed(cells, live) && Owned(cells, live)
    requires i < |cells| && HoldsNothing(cells[i]) && id !in live
    ensures var t := cells[i := Cell(Some(impl.kind), Some(id))];
      Typed(t, live[id := impl]) && Owned(t, live[id := impl])
  {
    var t := cells[i := Cell(Some(impl.kind), Some(id))];
    assert Holds(t, i, id);
    forall x <- live
      ensures exists k: nat :: Holds(t, k, x)
    {
      var k: nat :| Holds(cells, k, x);
      assert Holds(t, k, x);
    }
    forall k: nat, x: nat | Holds(t, k, x) && k != i
      ensures Holds(cells, k, x)
    {
    }
  }

  /** Variable `i` gives up its target, if any, and the target dies. */
  lemma DropKeepsOwners(cells: seq<Cell>, live: map<nat, Impl>, i: nat, c: Cell)
    requires Typed(cells, live) && Owned(cells, live) && i < |cells| && HoldsNothing(c)
    ensures var rest := if HoldsNothing(cells[i]) then live else live - {cells[i].impl.value};
      Typed(cells[i := c], rest) && Owned(cells[i := c], rest)
  {
    var t := cells[i := c];
    var rest := if HoldsNothing(cells[i]) then live else live - {cells[i].impl.value};
    forall k: nat, x: nat | Holds(t, k, x)
      ensures k != i && Holds(cells, k, x)
    {
    }
    forall x <- rest
      ensures exists k: nat :: Holds(t, k, x)
    {
      var k: nat :| Holds(cells, k, x);
      assert Holds(t, k, x);
    }
    if !HoldsNothing(cells[i]) {
      assert Holds(cells, i, cells[i].impl.value);
    }
  }

  /** Two variables exchange what they hold. */
  lemma SwapKeepsOwners(cells: seq<Cell>, live: map<nat, Impl>, i: nat, j: nat)
    requires Typed(cells, live) && Owned(cells, live) && i < |cells| && j < |cells|
    ensures var t := cells[i := cells[j]][j := cells[i]]; Typed(t, live) && Owned(t, live)
  {
    var t := cells[i := cells[j]][j := cells[i]];
    forall k: nat, x: nat
      ensures Holds(t, k, x) <==> Holds(cells, Swapped(i, j, k), x)
    {
    }
    forall x <- live
      ensures exists k: nat :: Holds(t, k, x)
    {
      var k: nat :| Holds(cells, k, x);
      assert Holds(t, Swapped(i, j, k), x);
    }
  }

  function Swapped(i: nat, j: nat, k: nat): nat {
    if k == i then j else if k == j then i else k
  }

  /** Different empty states make no difference. */
  lemma EmptyKeepsOwners(cells: seq<Cell>, live: map<nat, Impl>, i: nat, c: Cell)
    requires Typed(cells, live) && Owned(cells, live) && i < |cells| && HoldsNothing(cells[i]) && HoldsNothing(c)
    ensures Typed(cells[i := c], live) && Owned(cells[i := c], live)
  {
    DropKeepsOwners(cells, live, i, c);
  }

  // ---- Operations ----

  /** Variable `i` becomes `c`, which holds nothing, and the destructor of its
      target starts. */
  lemma StartKeepsGood(w: World, i: nat, c: Cell)
    requires Good(w) && InScope(w, i) && HasTarget(w.cells[i]) && HoldsNothing(c)
    ensures var id := w.cells[i].impl.value;
      var t := StartRelease(Put(w, i, c), id, w.cells[i].table.value);
      Good(t) && id in w.live && t.dying == w.dying[id := w.live[id]]
  {
    var id := w.cells[i].impl.value;
    assert Holds(w.cells, i, id);
    DropKeepsOwners(w.cells, w.live, i, c);
    StartIsRecorded(w, id);
    RecordedIgnoresCells(StartRelease(w, id, w.live[id].kind), StartRelease(Put(w, i, c), id, w.live[id].kind));
  }

  /** The record does not depend on the variables. */
  lemma RecordedIgnoresCells(w: World, t: World)
    requires Recorded(w) && t == w.(cells := t.cells)
    ensures Recorded(t)
  {
    forall id: nat
      ensures RecordedOne(t, id)
    {
      assert RecordedOne(w, id);
    }
  }

  /** The storage goes back when the destructor is done. */
  lemma EndKeepsGood(w: World, id: nat)
    requires Good(w) && id in w.dying
    ensures Good(EndRelease(w, id)) && EndRelease(w, id).dying == w.dying - {id}
  {
    EndIsRecorded(w, id);
  }

  lemma LaunchKeepsGood(w: World, i: nat)
    requires Good(w)
    ensures Good(Launch(w, i)) && Launch(w, i).dying == w.dying
  {
    if InScope(w, i) && HasTarget(w.cells[i]) {
      var id := w.cells[i].impl.value;
      assert Holds(w.cells, i, id);
      DropKeepsOwners(w.cells, w.live, i, w.cells[i].(impl := None));
      LaunchIsRecorded(w, id);
      var impl := w.live[id];
      RecordedIgnoresCells(
        w.(live := w.live - {id}, log := w.log + EndByCall(id, impl.kind, impl.allocator)), Launch(w, i));
    }
  }

  lemma ConstructKeepsGood(w: World, i: nat, kind: Kind, allocator: nat, throws: bool)
    requires Good(w)
    ensures Good(Step(w, Construct(i, kind, allocator, throws)))
  {
    if IsGone(w, i) {
      CreateIsRecorded(w, kind, allocator, throws);
      if !throws {
        FillKeepsOwners(w.cells, w.live, i, w.next, Impl(kind, allocator));
        RecordedIgnoresCells(Create(w, kind, allocator, throws), Step(w, Construct(i, kind, allocator, throws)));
      }
    }
  }

  lemma EmptyKeepsGood(w: World, i: nat, c: Cell)
    requires Good(w) && i < |w.cells| && HoldsNothing(w.cells[i]) && HoldsNothing(c)
    ensures Good(Put(w, i, c))
  {
    EmptyKeepsOwners(w.cells, w.live, i, c);
    RecordedIgnoresCells(w, Put(w, i, c));
  }

  lemma SwapKeepsGood(w: World, i: nat, j: nat)
    requires Good(w) && i < |w.cells| && j < |w.cells|
    ensures Good(Put(Put(w, i, w.cells[j]), j, w.cells[i]))
  {
    SwapKeepsOwners(w.cells, w.live, i, j);
    RecordedIgnoresCells(w, Put(Put(w, i, w.cells[j]), j, w.cells[i]));
  }

  lemma MoveConstructKeepsGood(w: World, i: nat, j: nat)
    requires Good(w)
    ensures Good(Step(w, MoveConstruct(i, j)))
  {
    if IsGone(w, i) && InScope(w, j) {
      var t := Put(w, i, EMPTY);
      EmptyKeepsGood(w, i, EMPTY);
      SwapKeepsGood(t, i, j);
      assert Step(w, MoveConstruct(i, j)) == Put(Put(t, i, t.cells[j]), j, t.cells[i]);
    }
  }

  /** When move assignment starts to release what `i` held, it is complete. */
  lemma HandedKeepsGood(w: World, i: nat, j: nat)
    requires Good(w) && InScope(w, i) && InScope(w, j) && i != j && HasTarget(w.cells[i])
    ensures var id := w.cells[i].impl.value;
      var t := StartRelease(Handed(w, i, j), id, w.cells[i].table.value);
      Good(t) && id in w.live && t.dying == w.dying[id := w.live[id]]
  {
    StartKeepsGood(w, i, EMPTY);
    var id := w.cells[i].impl.value;
    var t := StartRelease(Put(w, i, EMPTY), id, w.cells[i].table.value);
    SwapKeepsGood(t, i, j);
    assert StartRelease(Handed(w, i, j), id, w.cells[i].table.value) == Put(Put(t, i, t.cells[j]), j, t.cells[i]);
  }

  /** Handing over without anything to release. */
  lemma HandedEmptyKeepsGood(w: World, i: nat, j: nat)
    requires Good(w) && InScope(w, i) && InScope(w, j) && i != j && !HasTarget(w.cells[i])
    ensures Good(Handed(w, i, j))
  {
    NoTargetHoldsNothing(w, i);
    EmptyKeepsGood(w, i, EMPTY);
    var t := Put(w, i, EMPTY);
    SwapKeepsGood(t, i, j);
    assert Handed(w, i, j) == Put(Put(t, i, t.cells[j]), j, t.cells[i]);
  }

  lemma NoTargetHoldsNothing(w: World, i: nat)
    requires Good(w) && i < |w.cells|
    ensures HoldsNothing(w.cells[i]) <==> !HasTarget(w.cells[i])
  {
    if !HoldsNothing(w.cells[i]) {
      assert Holds(w.cells, i, w.cells[i].impl.value);
    }
  }

  // ---- Where targets go ----

  /** An implementation that is gone never comes back. */
  lemma {:induction false} DeadStaysDead(w: World, ops: seq<Op>, id: nat)
    requires id !in w.live && id < w.next
    ensures id !in Run(w, ops).live && id < Run(w, ops).next
    decreases ops, 0
  {
    if ops != [] {
      DeadStaysDeadStep(w, ops[0], id);
      DeadStaysDead(Step(w, ops[0]), ops[1..], id);
    }
  }

  lemma {:induction false} DeadStaysDeadStep(w: World, op: Op, id: nat)
    requires id !in w.live && id < w.next
    ensures id !in Step(w, op).live && id < Step(w, op).next
    decreases op, 1
  {
    match op
    case MoveAssign(i, j, body) =>
      if InScope(w, i) && InScope(w, j) && i != j {
        DeadStaysDeadRelease(Handed(w, i, j), w.cells[i], body, id);
      }
    case NullAssign(i, body) =>
      if InScope(w, i) {
        DeadStaysDeadRelease(Put(w, i, EMPTY), w.cells[i], body, id);
      }
    case Destruct(i, body) =>
      if InScope(w, i) {
        DeadStaysDeadRelease(w, w.cells[i], body, id);
      }
    case Call(i, body) => DeadStaysDead(Launch(w, i), body, id);
    case _ =>
  }

  lemma {:induction false} DeadStaysDeadRelease(w: World, c: Cell, body: seq<Op>, id: nat)
    requires id !in w.live && id < w.next
    ensures id !in Release(w, c, body).live && id < Release(w, c, body).next
    decreases body, 1
  {
    if HasTarget(c) {
      DeadStaysDead(StartRelease(w, c.impl.value, c.table.value), body, id);
    }
  }

  /** The log is only ever extended. */
  lemma {:induction false} RunExtendsLog(w: World, ops: seq<Op>)
    ensures w.log <= Run(w, ops).log
    decreases ops, 0
  {
    if ops != [] {
      StepExtendsLog(w, ops[0]);
      RunExtendsLog(Step(w, ops[0]), ops[1..]);
    }
  }

  lemma {:induction false} StepExtendsLog(w: World, op: Op)
    ensures w.log <= Step(w, op).log
    decreases op, 1
  {
    match op
    case MoveAssign(i, j, body) =>
      if InScope(w, i) && InScope(w, j) && i != j {
        ReleaseExtendsLog(Handed(w, i, j), w.cells[i], body);
      }
    case NullAssign(i, body) =>
      if InScope(w, i) {
        ReleaseExtendsLog(Put(w, i, EMPTY), w.cells[i], body);
      }
    case Destruct(i, body) =>
      if InScope(w, i) {
        ReleaseExtendsLog(w, w.cells[i], body);
      }
    case Call(i, body) => RunExtendsLog(Launch(w, i), body);
    case _ =>
  }

  lemma {:induction false} ReleaseExtendsLog(w: World, c: Cell, body: seq<Op>)
    ensures w.log <= Release(w, c, body).log
    ensures HasTarget(c) ==> w.log + [Destroyed(c.impl.value, c.table.value)] <= Release(w, c, body).log
    decreases body, 1
  {
    if HasTarget(c) {
      RunExtendsLog(StartRelease(w, c.impl.value, c.table.value), body);
    }
  }

  /** Swapping twice, and moving into a new variable and back, change nothing;
      no handler is released on the way. */
  lemma MovesCanBeUndone(w: World, i: nat, j: nat, a: seq<Op>, b: seq<Op>)
    ensures Run(w, [Swap(i, j), Swap(i, j)]) == w
    ensures IsGone(w, i) && InScope(w, j) ==>
      Run(w, [MoveConstruct(i, j), MoveAssign(j, i, a), Destruct(i, b)]) == w
  {
    var swapped := Step(w, Swap(i, j));
    assert Step(swapped, Swap(i, j)) == w;
    RunTwo(w, Swap(i, j), Swap(i, j));
    if IsGone(w, i) && InScope(w, j) {
      var moved := Step(w, MoveConstruct(i, j));
      var back := Step(moved, MoveAssign(j, i, a));
      assert moved.cells[i] == w.cells[j] && moved.cells[j] == EMPTY;
      NothingToRelease(moved, j, i, a);
      assert Step(back, Destruct(i, b)) == w;
      RunThree(w, MoveConstruct(i, j), MoveAssign(j, i, a), Destruct(i, b));
    }
  }

  lemma NothingToRelease(w: World, i: nat, j: nat, body: seq<Op>)
    requires InScope(w, i) && InScope(w, j) && i != j && !HasTarget(w.cells[i])
    ensures Step(w, MoveAssign(i, j, body)) == Handed(w, i, j)
  {
    ReleaseNothing(Handed(w, i, j), w.cells[i], body);
  }

  lemma ReleaseNothing(w: World, c: Cell, body: seq<Op>)
    requires !HasTarget(c)
    ensures Release(w, c, body) == w
  {
  }

  lemma RunTwo(w: World, a: Op, b: Op)
    ensures Run(w, [a, b]) == Step(Step(w, a), b)
  {
    assert [a, b][1..] == [b] && [b][1..] == [];
    assert Run(Step(w, a), [b]) == Run(Step(Step(w, a), b), []);
  }

  lemma RunThree(w: World, a: Op, b: Op, c: Op)
    ensures Run(w, [a, b, c]) == Step(Step(Step(w, a), b), c)
  {
    assert [a, b, c][1..] == [b, c];
    RunTwo(Step(w, a), b, c);
  }

  // ---- Calls ----

  /** When a called handler's own code starts, its wrapper is empty and its
      implementation is gone; the log shows the whole end of that life, and the
      invariant holds, so the code may use any wrapper in any way. */
  lemma FreeBeforeInvoke(w: World, i: nat, id: nat)
    requires Good(w) && Holds(w.cells, i, id)
    ensures id in w.live
    ensures var t, impl := Launch(w, i), w.live[id];
      && HoldsNothing(t.cells[i]) && t.live == w.live - {id} && Good(t)
      && History(t.log, id) == Born(id, impl) + EndByCall(id, impl.kind, impl.allocator)
  {
    LaunchKeepsGood(w, i);
    assert RecordedOne(w, id);
    var impl := w.live[id];
    LogOne(w.log, EndByCall(id, impl.kind, impl.allocator), id, id);
  }

  /** So a call invokes exactly the wrapper's target, whatever the handler then
      does, and that life is over for good. */
  lemma CallInvokesTarget(w: World, i: nat, body: seq<Op>, id: nat)
    requires Good(w) && Holds(w.cells, i, id)
    ensures var impl, t := w.live[id], Step(w, Call(i, body));
      && id in w.live
      && w.log + EndByCall(id, impl.kind, impl.allocator) <= t.log
      && id !in t.live
  {
    RunExtendsLog(Launch(w, i), body);
    DeadStaysDead(Launch(w, i), body, id);
  }
}
