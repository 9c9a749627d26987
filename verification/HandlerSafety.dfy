/** Code that only ever reaches targets that are alive, through the right table.
    That is all the wrapper objects need, and careful programs have it. */
module HandlerSafety {
  import opened Machine
  import opened HandlerSpec
  import opened HandlerRuns
  import opened HandlerDestructors
  import opened HandlerPrograms

  /** If the wrapper has a target, that is alive and of the table's type. */
  predicate Fits(w: World, c: Cell) {
    c.Cell? && c.impl.Some? ==> c.impl.value in w.live && c.table == Some(w.live[c.impl.value].kind)
  }

  predicate SafeRelease(w: World, c: Cell, body: seq<Op>)
    decreases body, 1
  {
    Fits(w, c) && (HasTarget(c) ==> SafeRun(BeginRelease(w, c), body))
  }

  predicate Safe(w: World, op: Op)
    decreases op, 1
  {
    match op
    case MoveAssign(i, j, body) =>
      InScope(w, i) && InScope(w, j) && i != j ==> SafeRelease(Handed(w, i, j), w.cells[i], body)
    case NullAssign(i, body) => InScope(w, i) ==> SafeRelease(Put(w, i, EMPTY), w.cells[i], body)
    case Destruct(i, body) => InScope(w, i) ==> SafeRelease(w, w.cells[i], body)
    case Call(i, body) =>
      InScope(w, i) && w.cells[i].impl.Some? ==> Fits(w, w.cells[i]) && SafeRun(Launch(w, i), body)
    case _ => true
  }

  predicate SafeRun(w: World, ops: seq<Op>)
    decreases ops, 0
  {
    ops != [] ==> Safe(w, ops[0]) && SafeRun(Step(w, ops[0]), ops[1..])
  }

  // ---- Destructors nest ----

  /** No implementation is both alive and dying, and all are old. */
  predicate Tidy(w: World) {
    && (forall id <- w.live :: id < w.next && id !in w.dying)
    && (forall id <- w.dying :: id < w.next)
  }

  lemma {:induction false} ReleaseIsTidy(w: World, c: Cell, body: seq<Op>)
    requires Tidy(w) && SafeRelease(w, c, body)
    ensures Tidy(Release(w, c, body)) && Release(w, c, body).dying == w.dying
    decreases body, 1
  {
    if HasTarget(c) {
      RunIsTidy(BeginRelease(w, c), body);
    }
  }

  lemma {:induction false} StepIsTidy(w: World, op: Op)
    requires Tidy(w) && Safe(w, op)
    ensures Tidy(Step(w, op)) && Step(w, op).dying == w.dying
    decreases op, 1
  {
    match op
    case MoveAssign(i, j, body) =>
      if InScope(w, i) && InScope(w, j) && i != j {
        ReleaseIsTidy(Handed(w, i, j), w.cells[i], body);
      }
    case NullAssign(i, body) =>
      if InScope(w, i) {
        ReleaseIsTidy(Put(w, i, EMPTY), w.cells[i], body);
      }
    case Destruct(i, body) =>
      if InScope(w, i) {
        ReleaseIsTidy(w, w.cells[i], body);
      }
    case Call(i, body) =>
      if InScope(w, i) && w.cells[i].impl.Some? {
        RunIsTidy(Launch(w, i), body);
      }
    case _ =>
  }

  lemma {:induction false} RunIsTidy(w: World, ops: seq<Op>)
    requires Tidy(w) && SafeRun(w, ops)
    ensures Tidy(Run(w, ops)) && Run(w, ops).dying == w.dying
    decreases ops, 0
  {
    if ops != [] {
      StepIsTidy(w, ops[0]);
      RunIsTidy(Step(w, ops[0]), ops[1..]);
    }
  }

  // ---- Safe code stays safe beside a target that is ending ----

  lemma {:induction false} ShadowReleaseIsSafe(w: World, v: World, id: nat, c: Cell, body: seq<Op>)
    requires Shadows(w, v, id) && SafeRelease(w, c, body) && id in Release(w, c, body).live
    ensures SafeRelease(v, c, body)
    decreases body, 1
  {
    if HasTarget(c) {
      var x, kind := c.impl.value, c.table.value;
      if x == id {
        DeadStaysDead(StartRelease(w, id, kind), body, id);
      } else {
        StartShadows(w, v, id, x, kind);
        ShadowRunIsSafe(BeginRelease(w, c), BeginRelease(v, c), id, body);
      }
    }
  }

  lemma {:induction false} ShadowCallIsSafe(w: World, v: World, id: nat, i: nat, body: seq<Op>)
    requires Shadows(w, v, id) && Safe(w, Call(i, body)) && id in Step(w, Call(i, body)).live
    ensures Safe(v, Call(i, body))
    decreases body, 1
  {
    if InScope(w, i) && w.cells[i].impl.Some? {
      if w.cells[i].impl.value == id {
        DeadStaysDead(Launch(w, i), body, id);
      } else {
        LaunchFollows(w, v, id, i);
        ShadowRunIsSafe(Launch(w, i), Launch(v, i), id, body);
      }
    }
  }

  lemma {:induction false} ShadowStepIsSafe(w: World, v: World, id: nat, op: Op)
    requires Shadows(w, v, id) && Safe(w, op) && id in Step(w, op).live
    ensures Safe(v, op)
    decreases op, 1
  {
    match op
    case MoveAssign(i, j, body) =>
      if InScope(w, i) && InScope(w, j) && i != j {
        CellsShadow(w, v, id, Handed(w, i, j).cells);
        ShadowReleaseIsSafe(Handed(w, i, j), Handed(v, i, j), id, w.cells[i], body);
      }
    case NullAssign(i, body) =>
      if InScope(w, i) {
        CellsShadow(w, v, id, Put(w, i, EMPTY).cells);
        ShadowReleaseIsSafe(Put(w, i, EMPTY), Put(v, i, EMPTY), id, w.cells[i], body);
      }
    case Destruct(i, body) =>
      if InScope(w, i) {
        ShadowReleaseIsSafe(w, v, id, w.cells[i], body);
      }
    case Call(i, body) => ShadowCallIsSafe(w, v, id, i, body);
    case _ =>
  }

  /** Code that is safe and lets `id` live is as safe when `id` is ending. */
  lemma {:induction false} ShadowRunIsSafe(w: World, v: World, id: nat, ops: seq<Op>)
    requires Shadows(w, v, id) && SafeRun(w, ops) && id in Run(w, ops).live
    ensures SafeRun(v, ops)
    decreases ops, 0
  {
    if ops != [] {
      StepFollows(w, v, id, ops[0]);
      if id !in Step(w, ops[0]).live {
        DeadStaysDead(Step(w, ops[0]), ops[1..], id);
      }
      ShadowStepIsSafe(w, v, id, ops[0]);
      ShadowRunIsSafe(Step(w, ops[0]), Step(v, ops[0]), id, ops[1..]);
    }
  }

  // ---- Careful programs are safe ----

  lemma TargetFits(w: World, i: nat)
    requires Good(w) && InScope(w, i)
    ensures Fits(w, w.cells[i])
    ensures HasTarget(w.cells[i]) <==> w.cells[i].impl.Some?
  {
    NoTargetHoldsNothing(w, i);
    if w.cells[i].impl.Some? {
      assert Holds(w.cells, i, w.cells[i].impl.value);
    }
  }

  lemma {:induction false} CarefulDestructIsSafe(w: World, i: nat, body: seq<Op>)
    requires Good(w) && InScope(w, i) && Careful(w, Destruct(i, body))
    ensures SafeRelease(w, w.cells[i], body)
    decreases body, 1
  {
    TargetFits(w, i);
    if HasTarget(w.cells[i]) {
      var id := w.cells[i].impl.value;
      CarefulRunIsSafe(w, body);
      RunKeepsGood(w, body);
      assert Typed(Run(w, body).cells, Run(w, body).live);
      StartsShadow(w, i, id);
      ShadowRunIsSafe(w, BeginRelease(w, w.cells[i]), id, body);
    }
  }

  lemma {:induction false} CarefulStepIsSafe(w: World, op: Op)
    requires Good(w) && Careful(w, op)
    ensures Safe(w, op)
    decreases op, 1
  {
    match op
    case MoveAssign(i, j, body) =>
      if InScope(w, i) && InScope(w, j) && i != j {
        TargetFits(w, i);
        if HasTarget(w.cells[i]) {
          HandedKeepsGood(w, i, j);
          CarefulRunIsSafe(BeginRelease(Handed(w, i, j), w.cells[i]), body);
        }
      }
    case NullAssign(i, body) =>
      if InScope(w, i) {
        TargetFits(w, i);
        if HasTarget(w.cells[i]) {
          StartKeepsGood(w, i, EMPTY);
          CarefulRunIsSafe(BeginRelease(Put(w, i, EMPTY), w.cells[i]), body);
        }
      }
    case Destruct(i, body) =>
      if InScope(w, i) {
        CarefulDestructIsSafe(w, i, body);
      }
    case Call(i, body) =>
      if InScope(w, i) && w.cells[i].impl.Some? {
        TargetFits(w, i);
        LaunchKeepsGood(w, i);
        CarefulRunIsSafe(Launch(w, i), body);
      }
    case _ =>
  }

  /** A careful program never reaches a target that is not alive, nor one through
      the wrong table. */
  lemma {:induction false} CarefulRunIsSafe(w: World, ops: seq<Op>)
    requires Good(w) && CarefulRun(w, ops)
    ensures SafeRun(w, ops)
    decreases ops, 0
  {
    if ops != [] {
      CarefulStepIsSafe(w, ops[0]);
      StepKeepsGood(w, ops[0]);
      CarefulRunIsSafe(Step(w, ops[0]), ops[1..]);
    }
  }
}
