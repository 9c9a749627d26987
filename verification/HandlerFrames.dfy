/** Code that does not use a variable neither sees nor changes it. */
module HandlerFrames {
  import opened HandlerSpec

  lemma {:induction false} StepFrame(w: World, op: Op, i: nat, c: Cell)
    requires i < |w.cells| && !Uses(op, i)
    ensures Step(Put(w, i, c), op) == Put(Step(w, op), i, c)
    decreases op, 2
  {
    if op.MoveAssign? {
      MoveAssignFrame(w, op.i, op.j, op.body, i, c);
    } else if op.NullAssign? {
      NullAssignFrame(w, op.i, op.body, i, c);
    } else if op.Destruct? {
      DestructFrame(w, op.i, op.body, i, c);
    } else if op.Call? {
      CallFrame(w, op.i, op.body, i, c);
    } else if op.Swap? || op.MoveConstruct? {
      ExchangeFrame(w, op, i, c);
    } else {
      ConstructFrame(w, op, i, c);
    }
  }

  lemma ExchangeFrame(w: World, op: Op, i: nat, c: Cell)
    requires i < |w.cells| && !Uses(op, i) && (op.Swap? || op.MoveConstruct?)
    ensures Step(Put(w, i, c), op) == Put(Step(w, op), i, c)
  {
  }

  lemma ConstructFrame(w: World, op: Op, i: nat, c: Cell)
    requires i < |w.cells| && !Uses(op, i) && (op.ConstructEmpty? || op.Construct?)
    ensures Step(Put(w, i, c), op) == Put(Step(w, op), i, c)
  {
  }

  lemma {:induction false} NullAssignFrame(w: World, k: nat, body: seq<Op>, i: nat, c: Cell)
    requires i < |w.cells| && k != i && !BodyUses(body, i)
    ensures Step(Put(w, i, c), NullAssign(k, body)) == Put(Step(w, NullAssign(k, body)), i, c)
    decreases body, 2
  {
    if InScope(w, k) {
      ReleaseFrame(Put(w, k, EMPTY), w.cells[k], body, i, c);
      assert Put(Put(w, k, EMPTY), i, c) == Put(Put(w, i, c), k, EMPTY);
    }
  }

  lemma {:induction false} DestructFrame(w: World, k: nat, body: seq<Op>, i: nat, c: Cell)
    requires i < |w.cells| && k != i && !BodyUses(body, i)
    ensures Step(Put(w, i, c), Destruct(k, body)) == Put(Step(w, Destruct(k, body)), i, c)
    decreases body, 2
  {
    if InScope(w, k) {
      ReleaseFrame(w, w.cells[k], body, i, c);
    }
  }

  lemma {:induction false} CallFrame(w: World, k: nat, body: seq<Op>, i: nat, c: Cell)
    requires i < |w.cells| && k != i && !BodyUses(body, i)
    ensures Step(Put(w, i, c), Call(k, body)) == Put(Step(w, Call(k, body)), i, c)
    decreases body, 2
  {
    if InScope(w, k) && w.cells[k].impl.Some? {
      LaunchFrame(w, k, i, c);
      RunFrame(Launch(w, k), body, i, c);
    }
  }

  lemma LaunchFrame(w: World, k: nat, i: nat, c: Cell)
    requires i < |w.cells| && k != i
    ensures Launch(Put(w, i, c), k) == Put(Launch(w, k), i, c)
  {
  }

  lemma {:induction false} MoveAssignFrame(w: World, k: nat, j: nat, body: seq<Op>, i: nat, c: Cell)
    requires i < |w.cells| && k != i && j != i && !BodyUses(body, i)
    ensures Step(Put(w, i, c), MoveAssign(k, j, body)) == Put(Step(w, MoveAssign(k, j, body)), i, c)
    decreases body, 2
  {
    if InScope(w, k) && InScope(w, j) && k != j {
      ReleaseFrame(Handed(w, k, j), w.cells[k], body, i, c);
      assert Handed(Put(w, i, c), k, j) == Put(Handed(w, k, j), i, c);
    }
  }

  lemma {:induction false} ReleaseFrame(w: World, held: Cell, body: seq<Op>, i: nat, c: Cell)
    requires i < |w.cells| && !BodyUses(body, i)
    ensures Release(Put(w, i, c), held, body) == Put(Release(w, held, body), i, c)
    decreases body, 1
  {
    if HasTarget(held) {
      var s := StartRelease(w, held.impl.value, held.table.value);
      assert StartRelease(Put(w, i, c), held.impl.value, held.table.value) == Put(s, i, c);
      RunFrame(s, body, i, c);
    }
  }

  lemma {:induction false} RunFrame(w: World, ops: seq<Op>, i: nat, c: Cell)
    requires i < |w.cells| && !BodyUses(ops, i)
    ensures Run(Put(w, i, c), ops) == Put(Run(w, ops), i, c)
    decreases ops, 0
  {
    if ops == [] {
    } else {
      StepFrame(w, ops[0], i, c);
      RunFrame(Step(w, ops[0]), ops[1..], i, c);
    }
  }
}
