/** A program's wrapper variables as objects, and the proof that operating on the
    objects is exactly the runs that the ownership theorems are about. */
module HandlerExecution {
  import opened Machine
  import opened HandlerSpec
  import opened HandlerRuns
  import opened HandlerPrograms
  import opened HandlerSafety
  import opened CompletionHandler

  /** A variable that is out of scope has no object. */
  ghost function CellOf(v: AnyCompletionHandler?): Cell
    reads v
  {
    if v == null then Gone else v.Snapshot()
  }

  class Scope {
    const store: Store
    var vars: seq<AnyCompletionHandler?>

    ghost function Objects(): set<AnyCompletionHandler?>
      reads this
    {
      set v | v in vars
    }

    ghost function Cells(): seq<Cell>
      reads this, Objects()
    {
      seq(|vars|, i requires 0 <= i < |vars| reads this, Objects() => CellOf(vars[i]))
    }

    ghost function Snapshot(): World
      requires store.Valid()
      reads this, store, Objects()
    {
      store.Snapshot(Cells())
    }

    /** Variables are separate objects. */
    ghost predicate Valid()
      reads this, store, Objects()
    {
      store.Valid() && forall i, j :: 0 <= i < j < |vars| && vars[i] != null ==> vars[i] != vars[j]
    }

    constructor (n: nat)
      ensures Valid() && fresh(store) && Objects() <= {null} && Snapshot() == Start(n)
    {
      store := new Store();
      vars := seq(n, _ => null);
      new;
      assert Cells() == seq(n, _ => Gone);
    }

    predicate Alive(i: nat)
      reads this
    {
      i < |vars| && vars[i] != null
    }

    method ConstructEmpty(i: nat)
      requires Valid()
      modifies this`vars
      ensures Valid() && fresh(Objects() - old(Objects()) - {null})
      ensures Snapshot() == Step(old(Snapshot()), Op.ConstructEmpty(i))
    {
      if i < |vars| && vars[i] == null {
        var v := new AnyCompletionHandler();
        vars := vars[i := v];
        assert Cells() == old(Cells())[i := EMPTY];
      }
    }

    method Swap(i: nat, j: nat)
      requires Valid()
      modifies Objects()
      ensures Valid() && fresh(Objects() - old(Objects()) - {null})
      ensures Snapshot() == Step(old(Snapshot()), Op.Swap(i, j))
      ensures var was := old(Snapshot()).cells;
        Snapshot().cells ==
          if InScope(old(Snapshot()), i) && InScope(old(Snapshot()), j) then was[i := was[j]][j := was[i]] else was
    {
      if Alive(i) && Alive(j) {
        vars[i].Swap(vars[j]);
        assert Cells() == old(Cells())[i := old(Cells())[j]][j := old(Cells())[i]];
      }
    }

    method Construct(i: nat, kind: Kind, allocator: nat, throws: bool)
      requires Valid()
      modifies this`vars, store
      ensures Valid() && fresh(Objects() - old(Objects()) - {null})
      ensures Snapshot() == Step(old(Snapshot()), Op.Construct(i, kind, allocator, throws))
    {
      if i < |vars| && vars[i] == null {
        var id := store.Create(kind, allocator, throws);
        assert Cells() == old(Cells());
        if id.Some? {
          var v := new AnyCompletionHandler.Wrap(kind, id.value);
          vars := vars[i := v];
          assert Cells() == old(Cells())[i := Cell(Some(kind), id)];
        }
      }
    }

    method MoveConstruct(i: nat, j: nat)
      requires Valid()
      modifies this`vars, Objects()
      ensures Valid() && fresh(Objects() - old(Objects()) - {null})
      ensures Snapshot() == Step(old(Snapshot()), Op.MoveConstruct(i, j))
    {
      if i < |vars| && vars[i] == null && Alive(j) {
        var v := new AnyCompletionHandler.Move(vars[j]);
        vars := vars[i := v];
        assert Cells() == old(Cells())[i := old(Cells())[j]][j := EMPTY];
      }
    }

    /** Move assignment, up to the code of the old target's destructor. */
    method MoveAssign(i: nat, j: nat) returns (rest: Option<Deallocation>)
      requires Valid()
      requires Alive(i) && Alive(j) && i != j ==> Fits(Snapshot(), Cells()[i])
      modifies store, Objects()
      ensures Valid() && fresh(Objects() - old(Objects()) - {null})
      ensures var w := old(Snapshot());
        if InScope(w, i) && InScope(w, j) && i != j then
          && Snapshot() == BeginRelease(Handed(w, i, j), w.cells[i])
          && rest == DeallocationOf(w.live, w.cells[i])
        else
          Snapshot() == w && rest == None
    {
      ghost var w := Snapshot();
      rest := None;
      if Alive(i) && Alive(j) {
        rest := vars[i].MoveAssign(store, vars[j]);
        if i == j {
          assert Cells() == w.cells;
        } else {
          assert Cells() == w.cells[i := w.cells[j]][j := EMPTY];
        }
      }
    }

    method NullAssign(i: nat) returns (rest: Option<Deallocation>)
      requires Valid() && (Alive(i) ==> Fits(Snapshot(), Cells()[i]))
      modifies store, Objects()
      ensures Valid() && fresh(Objects() - old(Objects()) - {null})
      ensures var w := old(Snapshot());
        if InScope(w, i) then
          Snapshot() == BeginRelease(Put(w, i, EMPTY), w.cells[i]) && rest == DeallocationOf(w.live, w.cells[i])
        else
          Snapshot() == w && rest == None
    {
      ghost var w := Snapshot();
      rest := None;
      if Alive(i) {
        rest := vars[i].AssignNull(store);
        assert Cells() == w.cells[i := EMPTY];
      }
    }

    /** The destructor of variable `i`, up to the code of its target's destructor,
        which still sees the variable with its target. */
    method Destruct(i: nat) returns (rest: Option<Deallocation>)
      requires Valid() && (Alive(i) ==> Fits(Snapshot(), Cells()[i]))
      modifies store
      ensures Valid() && Objects() == old(Objects())
      ensures var w := old(Snapshot());
        if InScope(w, i) then
          Snapshot() == BeginRelease(w, w.cells[i]) && rest == DeallocationOf(w.live, w.cells[i])
        else
          Snapshot() == w && rest == None
    {
      ghost var w := Snapshot();
      rest := None;
      if Alive(i) {
        rest := vars[i].Destruct(store);
      }
      assert Cells() == w.cells;
    }

    /** Variable `i` goes out of scope. */
    method Leave(i: nat)
      requires Valid() && i < |vars|
      modifies this`vars
      ensures Valid() && Objects() <= old(Objects()) + {null}
      ensures Snapshot() == Put(old(Snapshot()), i, Gone)
    {
      vars := vars[i := null];
      assert Cells() == old(Cells())[i := Gone];
    }

    /** The call of variable `i` up to the start of the handler's own code. */
    method Launch(i: nat) returns (threw: bool)
      requires Valid() && (Alive(i) ==> Fits(Snapshot(), Cells()[i]))
      modifies store, Objects()
      ensures Valid() && fresh(Objects() - old(Objects()) - {null})
      ensures threw <==> !(InScope(old(Snapshot()), i) && old(Snapshot()).cells[i].impl.Some?)
      ensures Snapshot() == HandlerSpec.Launch(old(Snapshot()), i)
    {
      ghost var w := Snapshot();
      threw := true;
      if Alive(i) {
        threw := vars[i].Call(store);
        assert Cells() == w.cells[i := Cell(vars[i].table, None)];
        assert Snapshot() == HandlerSpec.Launch(w, i);
      }
    }

    /** The code of a destructor that has started, and the end of the release. */
    method Finish(rest: Deallocation, body: seq<Op>)
      requires Valid() && SafeRun(Snapshot(), body)
      requires rest.id in Snapshot().dying && Snapshot().dying[rest.id].allocator == rest.allocator
      modifies this`vars, store, Objects()
      ensures Valid() && fresh(Objects() - old(Objects()) - {null})
      ensures Snapshot() == EndRelease(Run(old(Snapshot()), body), rest.id)
      decreases body, 1
    {
      RunIsTidy(Snapshot(), body);
      ExecuteAll(body);
      ghost var t := Snapshot();
      store.Deallocate(rest);
      assert Cells() == t.cells;
    }

    method FinishMoveAssign(i: nat, j: nat, body: seq<Op>)
      requires Valid() && Safe(Snapshot(), Op.MoveAssign(i, j, body))
      modifies this`vars, store, Objects()
      ensures Valid() && fresh(Objects() - old(Objects()) - {null})
      ensures Snapshot() == Step(old(Snapshot()), Op.MoveAssign(i, j, body))
      decreases body, 2
    {
      var rest := MoveAssign(i, j);
      if rest.Some? {
        Finish(rest.value, body);
      }
    }

    method FinishNullAssign(i: nat, body: seq<Op>)
      requires Valid() && Safe(Snapshot(), Op.NullAssign(i, body))
      modifies this`vars, store, Objects()
      ensures Valid() && fresh(Objects() - old(Objects()) - {null})
      ensures Snapshot() == Step(old(Snapshot()), Op.NullAssign(i, body))
      decreases body, 2
    {
      var rest := NullAssign(i);
      if rest.Some? {
        Finish(rest.value, body);
      }
    }

    method FinishDestruct(i: nat, body: seq<Op>)
      requires Valid() && Safe(Snapshot(), Op.Destruct(i, body))
      modifies this`vars, store, Objects()
      ensures Valid() && fresh(Objects() - old(Objects()) - {null})
      ensures Snapshot() == Step(old(Snapshot()), Op.Destruct(i, body))
      decreases body, 2
    {
      if i < |vars| && vars[i] != null {
        ghost var w := Snapshot();
        var rest := Destruct(i);
        if rest.Some? {
          Finish(rest.value, body);
        }
        assert |vars| == |w.cells|;
        Leave(i);
      }
    }

    method Execute(op: Op)
      requires Valid() && Safe(Snapshot(), op)
      modifies this`vars, store, Objects()
      ensures Valid() && fresh(Objects() - old(Objects()) - {null})
      ensures Snapshot() == Step(old(Snapshot()), op)
      decreases op, 3
    {
      match op
      case ConstructEmpty(i) => ConstructEmpty(i);
      case Construct(i, kind, allocator, throws) => Construct(i, kind, allocator, throws);
      case MoveConstruct(i, j) => MoveConstruct(i, j);
      case Swap(i, j) => Swap(i, j);
      case MoveAssign(i, j, body) => FinishMoveAssign(i, j, body);
      case NullAssign(i, body) => FinishNullAssign(i, body);
      case Destruct(i, body) => FinishDestruct(i, body);
      case Call(i, body) =>
        var threw := Launch(i);
        if !threw {
          ExecuteAll(body);
        }
    }

    method ExecuteAll(ops: seq<Op>)
      requires Valid() && SafeRun(Snapshot(), ops)
      modifies this`vars, store, Objects()
      ensures Valid() && fresh(Objects() - old(Objects()) - {null})
      ensures Snapshot() == Run(old(Snapshot()), ops)
      decreases ops, 0
    {
      if ops != [] {
        Execute(ops[0]);
        ExecuteAll(ops[1..]);
      }
    }
  }

  /** A careful program on new objects: it runs, and leaves them in a good state. */
  method RunProgram(n: nat, ops: seq<Op>) returns (scope: Scope)
    requires CarefulRun(Start(n), ops)
    ensures scope.Valid() && scope.Snapshot() == Run(Start(n), ops) && Good(scope.Snapshot())
  {
    scope := new Scope(n);
    CarefulRunIsSafe(Start(n), ops);
    ProgramIsGood(n, ops);
    scope.ExecuteAll(ops);
  }
}
