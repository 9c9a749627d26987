/** Ownership of type-erased completion handlers, on plain values: wrapper
    variables, the implementations alive behind them, and a log of everything
    that happened to each implementation. */
module HandlerSpec {
  import opened Machine

  /** A handler type; a wrapper's function table is named by the type it is for. */
  type Kind = nat

  /** What happened to implementation `id`. Steps that go through a function
      table record the type the table casts to. */
  datatype Event =
    | Allocated(id: nat, allocator: nat)
    | Constructed(id: nat, kind: Kind)
    | MovedOut(id: nat, kind: Kind)
    | Destroyed(id: nat, kind: Kind)
    | Freed(id: nat, allocator: nat)
    | Invoked(id: nat, kind: Kind)

  /** An implementation: its handler's type and associated allocator. */
  datatype Impl = Impl(kind: Kind, allocator: nat)

  /** A wrapper variable: out of scope, or a table and a target. */
  datatype Cell = Gone | Cell(table: Option<Kind>, impl: Option<nat>)

  const EMPTY := Cell(None, None)

  /** `dying` are the implementations whose handler's destructor is running, so
      that their storage is still there. */
  datatype World = World(
    cells: seq<Cell>,
    live: map<nat, Impl>,
    dying: map<nat, Impl>,
    next: nat,
    log: seq<Event>)

  /** Operations on wrapper variables. A `body` is the code of a handler: of its
      destructor when a wrapper releases it, or of the handler itself when it is
      called. It is any sequence of operations on the same variables. */
  datatype Op =
    | ConstructEmpty(i: nat)
    | Construct(i: nat, kind: Kind, allocator: nat, throws: bool)
    | MoveConstruct(i: nat, j: nat)
    | MoveAssign(i: nat, j: nat, body: seq<Op>)
    | NullAssign(i: nat, body: seq<Op>)
    | Swap(i: nat, j: nat)
    | Destruct(i: nat, body: seq<Op>)
    | Call(i: nat, body: seq<Op>)

  /** Variable `i` exists and is out of scope, so it can be constructed. */
  predicate IsGone(w: World, i: nat) {
    i < |w.cells| && w.cells[i].Gone?
  }

  predicate InScope(w: World, i: nat) {
    i < |w.cells| && w.cells[i].Cell?
  }

  /** A wrapper that has a target and a table to reach it. */
  predicate HasTarget(c: Cell) {
    c.Cell? && c.impl.Some? && c.table.Some?
  }

  /** How a call ends a life: the storage goes back before the handler runs. */
  function EndByCall(id: nat, kind: Kind, allocator: nat): seq<Event> {
    [MovedOut(id, kind), Destroyed(id, kind), Freed(id, allocator), Invoked(id, kind)]
  }

  /** `w` with variable `i` being `c`. */
  function Put(w: World, i: nat, c: Cell): World
    requires i < |w.cells|
  {
    w.(cells := w.cells[i := c])
  }

  /** A new implementation. When constructing it throws, its storage goes back at
      once and nothing else remains. */
  function Create(w: World, kind: Kind, allocator: nat, throws: bool): World {
    if throws then
      w.(next := w.next + 1, log := w.log + [Allocated(w.next, allocator), Freed(w.next, allocator)])
    else
      w.(live := w.live[w.next := Impl(kind, allocator)], next := w.next + 1,
         log := w.log + [Allocated(w.next, allocator), Constructed(w.next, kind)])
  }

  /** The handler's destructor starts. A target that is not alive any more is
      destroyed all the same, and the log shows it. */
  function StartRelease(w: World, id: nat, kind: Kind): World {
    var t := w.(log := w.log + [Destroyed(id, kind)]);
    if id in w.live then t.(live := w.live - {id}, dying := w.dying[id := w.live[id]]) else t
  }

  /** The handler's destructor is done, and the storage goes back. */
  function EndRelease(w: World, id: nat): World {
    if id in w.dying then
      w.(dying := w.dying - {id}, log := w.log + [Freed(id, w.dying[id].allocator)])
    else w
  }

  /** The destructor of a wrapper that held `c`, until the code of the target's
      own destructor. */
  function BeginRelease(w: World, c: Cell): World {
    if HasTarget(c) then StartRelease(w, c.impl.value, c.table.value) else w
  }

  /** The whole destructor of a wrapper that held `c`; `body` is the code of the
      target's own destructor. */
  function Release(w: World, c: Cell, body: seq<Op>): (t: World)
    ensures |t.cells| == |w.cells|
    decreases body, 1
  {
    if HasTarget(c) then EndRelease(Run(BeginRelease(w, c), body), c.impl.value) else w
  }

  /** What a call does before the handler's own code runs: the wrapper is empty,
      and the implementation is moved out, destroyed and freed. */
  function Launch(w: World, i: nat): (t: World)
    ensures |t.cells| == |w.cells|
  {
    if InScope(w, i) && HasTarget(w.cells[i]) then
      var id, kind := w.cells[i].impl.value, w.cells[i].table.value;
      var t := Put(w, i, w.cells[i].(impl := None));
      if id in w.live then
        t.(live := w.live - {id}, log := w.log + EndByCall(id, kind, w.live[id].allocator))
      else
        t.(log := w.log + [MovedOut(id, kind)])
    else w
  }

  /** The variables after move assignment from `j` to `i`, before what `i` held is
      released. */
  function Handed(w: World, i: nat, j: nat): World
    requires i < |w.cells| && j < |w.cells|
  {
    Put(Put(w, i, w.cells[j]), j, EMPTY)
  }

  /** One operation; operations on variables in the wrong scope do nothing, and
      calling an empty wrapper throws without any effect. Assignments release the
      old target last, when the variables are as they will be. A destructor does
      not touch its variable, which keeps its target until it is out of scope. */
  function Step(w: World, op: Op): (t: World)
    ensures |t.cells| == |w.cells|
    decreases op, 1
  {
    match op
    case ConstructEmpty(i) =>
      if IsGone(w, i) then Put(w, i, EMPTY) else w
    case Construct(i, kind, allocator, throws) =>
      if !IsGone(w, i) then w
      else if throws then Create(w, kind, allocator, true)
      else Put(Create(w, kind, allocator, false), i, Cell(Some(kind), Some(w.next)))
    case MoveConstruct(i, j) =>
      if IsGone(w, i) && InScope(w, j) then Put(Put(w, i, w.cells[j]), j, EMPTY) else w
    case MoveAssign(i, j, body) =>
      if InScope(w, i) && InScope(w, j) && i != j then Release(Handed(w, i, j), w.cells[i], body) else w
    case NullAssign(i, body) =>
      if InScope(w, i) then Release(Put(w, i, EMPTY), w.cells[i], body) else w
    case Swap(i, j) =>
      if InScope(w, i) && InScope(w, j) then Put(Put(w, i, w.cells[j]), j, w.cells[i]) else w
    case Destruct(i, body) =>
      if InScope(w, i) then Put(Release(w, w.cells[i], body), i, Gone) else w
    case Call(i, body) =>
      if InScope(w, i) && w.cells[i].impl.Some? then Run(Launch(w, i), body) else w
  }

  function Run(w: World, ops: seq<Op>): (t: World)
    ensures |t.cells| == |w.cells|
    decreases ops, 0
  {
    if ops == [] then w else Run(Step(w, ops[0]), ops[1..])
  }

  /** `n` wrapper variables that are all still out of scope. */
  function Start(n: nat): World {
    World(seq(n, _ => Gone), map[], map[], 0, [])
  }

  // ---- What code may do ----

  /** The operation uses variable `i`, possibly in the code of a handler. */
  predicate Uses(op: Op, i: nat)
    decreases op, 1
  {
    match op
    case ConstructEmpty(k) => k == i
    case Construct(k, _, _, _) => k == i
    case MoveConstruct(k, j) => k == i || j == i
    case MoveAssign(k, j, body) => k == i || j == i || BodyUses(body, i)
    case NullAssign(k, body) => k == i || BodyUses(body, i)
    case Swap(k, j) => k == i || j == i
    case Destruct(k, body) => k == i || BodyUses(body, i)
    case Call(k, body) => k == i || BodyUses(body, i)
  }

  predicate BodyUses(ops: seq<Op>, i: nat)
    decreases ops, 0
  {
    ops != [] && (Uses(ops[0], i) || BodyUses(ops[1..], i))
  }

  /** While a variable's destructor runs, no code uses that variable. Assignment
      and calls put no limit on what code does. */
  predicate Proper(op: Op)
    decreases op, 1
  {
    match op
    case MoveAssign(_, _, body) => AllProper(body)
    case NullAssign(_, body) => AllProper(body)
    case Destruct(i, body) => AllProper(body) && !BodyUses(body, i)
    case Call(_, body) => AllProper(body)
    case _ => true
  }

  predicate AllProper(ops: seq<Op>)
    decreases ops, 0
  {
    ops != [] ==> Proper(ops[0]) && AllProper(ops[1..])
  }
}
