/** When a wrapper's destructor is safe. Unlike assignment it leaves the target in
    its variable while the handler's own destructor runs, so code that uses the
    variable finds a target that is already being destroyed. What that code does is
    compared with what it would do to a target that is still alive. */
module HandlerDestructors {
  import opened Machine
  import opened HandlerSpec
  import opened HandlerRuns

  // ---- A run beside the same run with a target that is already ending ----

  /** `v` is `w`, but for the destructor of `id` having started. */
  ghost predicate Shadows(w: World, v: World, id: nat) {
    && id in w.live && id !in w.dying && id < w.next
    && v.cells == w.cells && v.next == w.next
    && v.live == w.live - {id} && v.dying == w.dying[id := w.live[id]]
    && forall x: nat :: SameHistory(w, v, id, x)
  }

  predicate SameHistory(w: World, v: World, id: nat, x: nat)
    requires id in w.live
  {
    History(v.log, x) == History(w.log, x) + if x == id then [Destroyed(id, w.live[id].kind)] else []
  }

  /** A life that ends again after it has ended. */
  predicate EndsTwice(h: seq<Event>) {
    exists a, b :: 0 <= a < b < |h| && h[a].Destroyed? && (h[b].Destroyed? || h[b].MovedOut?)
  }

  /** `v` follows `w` until `id` dies in `w`, which then is its second end in `v`. */
  ghost predicate Follows(w: World, v: World, id: nat) {
    if id in w.live then Shadows(w, v, id) else id < w.next && EndsTwice(History(v.log, id))
  }

  lemma EndsTwiceLater(log: seq<Event>, later: seq<Event>, id: nat)
    requires EndsTwice(History(log, id)) && log <= later
    ensures EndsTwice(History(later, id))
  {
    var h, h' := History(log, id), History(later, id);
    assert later == log + later[|log|..];
    HistoryOfAppend(log, later[|log|..], id);
    var a, b :| 0 <= a < b < |h| && h[a].Destroyed? && (h[b].Destroyed? || h[b].MovedOut?);
    assert h'[a] == h[a] && h'[b] == h[b];
  }

  /** Another end of `id` in the shadow. */
  lemma SecondEnd(w: World, v: World, id: nat, second: Event, later: seq<Event>)
    requires Shadows(w, v, id) && second.id == id && (second.Destroyed? || second.MovedOut?)
    requires v.log + [second] <= later
    ensures EndsTwice(History(later, id))
  {
    assert SameHistory(w, v, id, id);
    LogOne(v.log, [second], id, id);
    var h := History(v.log + [second], id);
    assert h[|h| - 2].Destroyed? && h[|h| - 1] == second;
    EndsTwiceLater(v.log + [second], later, id);
  }

  /** Both logs get the same events, of another implementation. */
  lemma ShadowLogs(w: World, v: World, id: nat, more: seq<Event>, other: nat, w': World, v': World)
    requires Shadows(w, v, id) && other != id && forall k :: 0 <= k < |more| ==> more[k].id == other
    requires w'.log == w.log + more && v'.log == v.log + more && id in w'.live && w'.live[id] == w.live[id]
    ensures forall x: nat :: SameHistory(w', v', id, x)
  {
    forall x: nat
      ensures SameHistory(w', v', id, x)
    {
      assert SameHistory(w, v, id, x);
      LogOne(w.log, more, other, x);
      LogOne(v.log, more, other, x);
    }
  }

  lemma CreateShadows(w: World, v: World, id: nat, kind: Kind, allocator: nat, throws: bool)
    requires Shadows(w, v, id)
    ensures Shadows(Create(w, kind, allocator, throws), Create(v, kind, allocator, throws), id)
  {
    var more := if throws then [Allocated(w.next, allocator), Freed(w.next, allocator)]
                else Born(w.next, Impl(kind, allocator));
    ShadowLogs(w, v, id, more, w.next, Create(w, kind, allocator, throws), Create(v, kind, allocator, throws));
  }

  lemma StartShadows(w: World, v: World, id: nat, x: nat, kind: Kind)
    requires Shadows(w, v, id) && x != id
    ensures Shadows(StartRelease(w, x, kind), StartRelease(v, x, kind), id)
  {
    ShadowLogs(w, v, id, [Destroyed(x, kind)], x, StartRelease(w, x, kind), StartRelease(v, x, kind));
  }

  lemma EndShadows(w: World, v: World, id: nat, x: nat)
    requires Shadows(w, v, id) && x != id
    ensures Shadows(EndRelease(w, x), EndRelease(v, x), id)
  {
    if x in w.dying {
      ShadowLogs(w, v, id, [Freed(x, w.dying[x].allocator)], x, EndRelease(w, x), EndRelease(v, x));
    }
  }

  /** Changes of the variables alone make no difference. */
  lemma CellsShadow(w: World, v: World, id: nat, cells: seq<Cell>)
    requires Shadows(w, v, id)
    ensures Shadows(w.(cells := cells), v.(cells := cells), id)
  {
    forall x: nat
      ensures SameHistory(w.(cells := cells), v.(cells := cells), id, x)
    {
      assert SameHistory(w, v, id, x);
    }
  }

  lemma LaunchFollows(w: World, v: World, id: nat, i: nat)
    requires Shadows(w, v, id)
    ensures Follows(Launch(w, i), Launch(v, i), id)
  {
    if InScope(w, i) && HasTarget(w.cells[i]) {
      var x, kind := w.cells[i].impl.value, w.cells[i].table.value;
      if x == id {
        SecondEnd(w, v, id, MovedOut(id, kind), Launch(v, i).log);
      } else {
        var more := if x in w.live then EndByCall(x, kind, w.live[x].allocator) else [MovedOut(x, kind)];
        ShadowLogs(w, v, id, more, x, Launch(w, i), Launch(v, i));
      }
    }
  }

  /** Once `id` is gone, it stays gone, and so does its second end. */
  lemma GoneFollows(w: World, v: World, id: nat, w': World, v': World)
    requires Follows(w, v, id) && id !in w.live
    requires id !in w'.live && w.next <= w'.next && v.log <= v'.log
    ensures Follows(w', v', id)
  {
    EndsTwiceLater(v.log, v'.log, id);
  }

  lemma {:induction false} ReleaseFollows(w: World, v: World, id: nat, c: Cell, body: seq<Op>)
    requires Shadows(w, v, id)
    ensures Follows(Release(w, c, body), Release(v, c, body), id)
    decreases body, 1
  {
    if HasTarget(c) {
      var x, kind := c.impl.value, c.table.value;
      if x == id {
        DeadStaysDead(StartRelease(w, id, kind), body, id);
        ReleaseExtendsLog(v, c, body);
        SecondEnd(w, v, id, Destroyed(id, kind), Release(v, c, body).log);
      } else {
        var s, t := StartRelease(w, x, kind), StartRelease(v, x, kind);
        StartShadows(w, v, id, x, kind);
        RunFollows(s, t, id, body);
        EndFollows(Run(s, body), Run(t, body), id, x);
      }
    }
  }

  lemma EndFollows(w: World, v: World, id: nat, x: nat)
    requires Follows(w, v, id) && x != id
    ensures Follows(EndRelease(w, x), EndRelease(v, x), id)
  {
    if id in w.live {
      EndShadows(w, v, id, x);
    } else {
      GoneFollows(w, v, id, EndRelease(w, x), EndRelease(v, x));
    }
  }

  lemma {:induction false} StepFollows(w: World, v: World, id: nat, op: Op)
    requires Shadows(w, v, id)
    ensures Follows(Step(w, op), Step(v, op), id)
    decreases op, 1
  {
    if op.MoveAssign? {
      if InScope(w, op.i) && InScope(w, op.j) && op.i != op.j {
        CellsShadow(w, v, id, Handed(w, op.i, op.j).cells);
        ReleaseFollows(Handed(w, op.i, op.j), Handed(v, op.i, op.j), id, w.cells[op.i], op.body);
      }
    } else if op.NullAssign? {
      if InScope(w, op.i) {
        CellsShadow(w, v, id, Put(w, op.i, EMPTY).cells);
        ReleaseFollows(Put(w, op.i, EMPTY), Put(v, op.i, EMPTY), id, w.cells[op.i], op.body);
      }
    } else if op.Destruct? {
      if InScope(w, op.i) {
        ReleaseFollows(w, v, id, w.cells[op.i], op.body);
        PutFollows(Release(w, w.cells[op.i], op.body), Release(v, w.cells[op.i], op.body), id, op.i, Gone);
      }
    } else if op.Call? {
      if InScope(w, op.i) && w.cells[op.i].impl.Some? {
        LaunchFollows(w, v, id, op.i);
        RunFollows(Launch(w, op.i), Launch(v, op.i), id, op.body);
      }
    } else {
      PlainFollows(w, v, id, op);
    }
  }

  lemma PutFollows(w: World, v: World, id: nat, i: nat, c: Cell)
    requires Follows(w, v, id) && i < |w.cells| && i < |v.cells|
    ensures Follows(Put(w, i, c), Put(v, i, c), id)
  {
    if id in w.live {
      CellsShadow(w, v, id, w.cells[i := c]);
    }
  }

  /** Operations that run no handler code. */
  lemma PlainFollows(w: World, v: World, id: nat, op: Op)
    requires Shadows(w, v, id) && !op.MoveAssign? && !op.NullAssign? && !op.Destruct? && !op.Call?
    ensures Shadows(Step(w, op), Step(v, op), id)
  {
    if op.Construct? {
      if IsGone(w, op.i) {
        var a, b := Create(w, op.kind, op.allocator, op.throws), Create(v, op.kind, op.allocator, op.throws);
        CreateShadows(w, v, id, op.kind, op.allocator, op.throws);
        CellsShadow(a, b, id, Step(w, op).cells);
      }
    } else {
      CellsShadow(w, v, id, Step(w, op).cells);
    }
  }

  lemma {:induction false} RunFollows(w: World, v: World, id: nat, ops: seq<Op>)
    requires Follows(w, v, id)
    ensures Follows(Run(w, ops), Run(v, ops), id)
    decreases ops, 0
  {
    if id !in w.live {
      DeadStaysDead(w, ops, id);
      RunExtendsLog(v, ops);
      EndsTwiceLater(v.log, Run(v, ops).log, id);
    } else if ops != [] {
      StepFollows(w, v, id, ops[0]);
      RunFollows(Step(w, ops[0]), Step(v, ops[0]), id, ops[1..]);
    }
  }

  // ---- The exact condition ----

  lemma EndsTwiceIsWrong(w: World, id: nat)
    requires EndsTwice(History(w.log, id))
    ensures !Good(w)
  {
    assert !RecordedOne(w, id);
  }

  /** The destructor of the target starts: the two runs to compare. */
  lemma StartsShadow(w: World, i: nat, id: nat)
    requires Good(w) && Holds(w.cells, i, id)
    ensures HasTarget(w.cells[i]) && id in w.live
    ensures Shadows(w, BeginRelease(w, w.cells[i]), id)
  {
    var v := StartRelease(w, id, w.live[id].kind);
    forall x: nat
      ensures SameHistory(w, v, id, x)
    {
      LogOne(w.log, [Destroyed(id, w.live[id].kind)], id, x);
    }
  }

  /** Variable `i` with the target `id`. */
  function Given(w: World, i: nat, id: nat): World
    requires i < |w.cells| && id in w.live
  {
    Put(w, i, Cell(Some(w.live[id].kind), Some(id)))
  }

  /** The record depends on the log only by its histories. */
  lemma GoodByHistory(w: World, t: World)
    requires Good(w) && t == w.(log := t.log) && forall x: nat :: History(t.log, x) == History(w.log, x)
    ensures Good(t)
  {
    forall x: nat
      ensures RecordedOne(t, x)
    {
      assert RecordedOne(w, x);
    }
  }

  /** What is left of the shadow when the destructor is done and the variable is
      out of scope. */
  function Ended(v: World, i: nat, id: nat): World
    requires i < |v.cells|
  {
    Put(EndRelease(v, id), i, Gone)
  }

  lemma EndedHistory(w: World, v: World, id: nat, i: nat, x: nat)
    requires Shadows(w, v, id) && i < |w.cells|
    ensures var end := EndByDestroy(id, w.live[id].kind, w.live[id].allocator);
      History(Ended(v, i, id).log, x) == History(w.log, x) + if x == id then end else []
  {
    assert SameHistory(w, v, id, x);
    LogOne(v.log, [Freed(id, w.live[id].allocator)], id, x);
  }

  /** The ordinary end of a target, with no code in its destructor. */
  function PlainEnd(w: World, i: nat, id: nat): World
    requires i < |w.cells| && id in w.live
  {
    EndRelease(StartRelease(Put(w, i, Gone), id, w.live[id].kind), id)
  }

  lemma PlainEndHistory(w: World, i: nat, id: nat, x: nat)
    requires i < |w.cells| && id in w.live
    ensures var end := EndByDestroy(id, w.live[id].kind, w.live[id].allocator);
      History(PlainEnd(w, i, id).log, x) == History(w.log, x) + if x == id then end else []
  {
    var start := [Destroyed(id, w.live[id].kind)];
    LogOne(w.log, start, id, x);
    LogOne(w.log + start, [Freed(id, w.live[id].allocator)], id, x);
  }

  lemma PlainEndIsGood(w: World, i: nat, id: nat)
    requires i < |w.cells| && id in w.live && Good(Given(w, i, id))
    ensures Good(PlainEnd(w, i, id))
  {
    var g := Given(w, i, id);
    StartKeepsGood(g, i, Gone);
    EndKeepsGood(StartRelease(Put(g, i, Gone), id, w.live[id].kind), id);
    assert Put(g, i, Gone) == Put(w, i, Gone);
  }

  /** If `id` could go back to `i` in the one run, all is well in the other. */
  lemma EndedIsGood(w: World, v: World, id: nat, i: nat)
    requires Shadows(w, v, id) && i < |w.cells| && Good(Given(w, i, id))
    ensures Good(Ended(v, i, id))
  {
    PlainEndIsGood(w, i, id);
    forall x: nat
      ensures History(Ended(v, i, id).log, x) == History(PlainEnd(w, i, id).log, x)
    {
      EndedHistory(w, v, id, i, x);
      PlainEndHistory(w, i, id, x);
    }
    GoodByHistory(PlainEnd(w, i, id), Ended(v, i, id));
  }

  /** Only a life that had just begun can have ended like this. */
  lemma EndedWasBorn(h: seq<Event>, id: nat, impl: Impl)
    requires IsOver(h + EndByDestroy(id, impl.kind, impl.allocator), id)
    ensures h == Born(id, impl)
  {
    var over := h + EndByDestroy(id, impl.kind, impl.allocator);
    assert over[|h|] == Destroyed(id, impl.kind) && over[|h| + 1] == Freed(id, impl.allocator);
    assert h == over[..|h|];
  }

  lemma WasRecorded(w: World, v: World, id: nat, i: nat, x: nat)
    requires Shadows(w, v, id) && i < |w.cells| && RecordedOne(Ended(v, i, id), x)
    ensures RecordedOne(Given(w, i, id), x)
  {
    EndedHistory(w, v, id, i, x);
    if x == id {
      EndedWasBorn(History(w.log, id), id, w.live[id]);
    }
  }

  lemma WasOwned(w: World, v: World, id: nat, i: nat)
    requires Shadows(w, v, id) && i < |w.cells| && Good(Ended(v, i, id))
    ensures Typed(Given(w, i, id).cells, w.live) && Owned(Given(w, i, id).cells, w.live)
  {
    var t, impl := Ended(v, i, id), w.live[id];
    FillKeepsOwners(t.cells, t.live, i, id, impl);
    assert Given(w, i, id).cells == t.cells[i := Cell(Some(impl.kind), Some(id))];
    assert w.live == t.live[id := impl];
  }

  /** And only then. */
  lemma GoodWasGiven(w: World, v: World, id: nat, i: nat)
    requires Shadows(w, v, id) && i < |w.cells| && Good(Ended(v, i, id))
    ensures Good(Given(w, i, id))
  {
    WasOwned(w, v, id, i);
    forall x: nat
      ensures RecordedOne(Given(w, i, id), x)
    {
      WasRecorded(w, v, id, i, x);
    }
    var t := Ended(v, i, id);
    assert w.dying == t.dying && w.next == t.next;
    assert forall x <- w.live | x != id :: x in t.live;
  }

  /** For every code of the handler's destructor: a wrapper's destructor keeps the
      invariant exactly when the same code, run before it as ordinary code, leaves
      the target alive and a state that is good with it back in the wrapper. */
  lemma DestructOfAnyCode(w: World, i: nat, id: nat, body: seq<Op>)
    requires Good(w) && Holds(w.cells, i, id)
    ensures var u := Run(w, body);
      Good(Step(w, Destruct(i, body))) <==> id in u.live && Good(Given(u, i, id))
  {
    var v := BeginRelease(w, w.cells[i]);
    var u, s := Run(w, body), Run(v, body);
    StartsShadow(w, i, id);
    RunFollows(w, v, id, body);
    assert Step(w, Destruct(i, body)) == Ended(s, i, id);
    if id !in u.live {
      EndsTwiceLater(s.log, Ended(s, i, id).log, id);
      EndsTwiceIsWrong(Ended(s, i, id), id);
    } else if Good(Ended(s, i, id)) {
      GoodWasGiven(u, s, id, i);
    } else if Good(Given(u, i, id)) {
      EndedIsGood(u, s, id, i);
    }
  }

  /** Putting the target back changes nothing if and only if it is there. */
  lemma GivenIsGood(w: World, i: nat, id: nat)
    requires Good(w) && id in w.live && i < |w.cells|
    ensures Good(Given(w, i, id)) <==> Holds(w.cells, i, id)
  {
    var g := Given(w, i, id);
    if Holds(w.cells, i, id) {
      assert g.cells == w.cells;
    } else {
      var k: nat :| Holds(w.cells, k, id);
      assert Holds(g.cells, k, id) && Holds(g.cells, i, id);
    }
  }

  /** When the code by itself keeps the invariant: exactly when, run before the
      destruction, it leaves the wrapper its target. */
  lemma DestructExact(w: World, i: nat, id: nat, body: seq<Op>)
    requires Good(w) && Holds(w.cells, i, id) && Good(Run(w, body))
    ensures Good(Step(w, Destruct(i, body))) <==> Holds(Run(w, body).cells, i, id)
  {
    var u := Run(w, body);
    DestructOfAnyCode(w, i, id, body);
    if id in u.live {
      GivenIsGood(u, i, id);
    } else {
      assert Typed(u.cells, u.live);
    }
  }
}
