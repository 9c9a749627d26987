/** The wrapper itself and the implementations behind it. Each method follows the
    steps of the source and is proved against HandlerSpec. */
module CompletionHandler {
  import opened Machine
  import opened HandlerSpec

  /** The handler inside an implementation. Its associated allocator can be asked
      for only until it is moved out. */
  datatype Handler = Handler(allocator: nat) | MovedFrom

  datatype Stored = Stored(kind: Kind, handler: Handler)

  /** What a destructor still has to do: `deallocate` with an allocator that it
      asked for before. */
  datatype Deallocation = Deallocation(id: nat, allocator: nat)

  /** The free store: the implementations in it, and the log. */
  class Store {
    var impls: map<nat, Stored>

    // Implementations in their destructors, with where their storage came from.
    var dying: map<nat, Impl>

    var next: nat
    var log: seq<Event>

    constructor ()
      ensures impls == map[] && dying == map[] && next == 0 && log == []
    {
      impls, dying, next, log := map[], map[], 0, [];
    }

    /** No handler is left behind moved out, and no number is given twice. */
    ghost predicate Valid()
      reads this
    {
      && (forall id <- impls :: impls[id].handler.Handler? && id < next && id !in dying)
      && (forall id <- dying :: id < next)
    }

    ghost function Live(): map<nat, Impl>
      requires Valid()
      reads this
    {
      map id | id in impls :: Impl(impls[id].kind, impls[id].handler.allocator)
    }

    ghost function Snapshot(cells: seq<Cell>): World
      requires Valid()
      reads this
    {
      World(cells, Live(), dying, next, log)
    }

    /** `create`: allocates, constructs, and gives the storage back when
        constructing throws. */
    method Create(kind: Kind, allocator: nat, throws: bool) returns (id: Option<nat>)
      requires Valid()
      modifies this
      ensures Valid()
      ensures id == if throws then None else Some(old(next))
      ensures forall cells ::
        Snapshot(cells) == HandlerSpec.Create(old(Snapshot([])), kind, allocator, throws).(cells := cells)
    {
      var ptr := next;
      next := next + 1;
      log := log + [Allocated(ptr, allocator)];
      if throws {
        log := log + [Freed(ptr, allocator)];
        return None;
      }
      impls := impls[ptr := Stored(kind, Handler(allocator))];
      log := log + [Constructed(ptr, kind)];
      return Some(ptr);
    }

    /** `destroy` through the table for `kind`, until the code of the handler's
        destructor: the cast needs the right type, and the allocator is taken
        before the handler goes away. */
    method Destroy(kind: Kind, id: nat) returns (rest: Deallocation)
      requires Valid() && id in impls && impls[id].kind == kind
      modifies this
      ensures Valid()
      ensures Snapshot([]) == StartRelease(old(Snapshot([])), id, kind)
      ensures rest == Deallocation(id, old(Live())[id].allocator)
    {
      rest := Deallocation(id, impls[id].handler.allocator);
      dying := dying[id := Impl(kind, rest.allocator)];
      log := log + [Destroyed(id, kind)];
      impls := impls - {id};
    }

    /** The end of `destroy`: the storage must go back to where it came from. */
    method Deallocate(rest: Deallocation)
      requires Valid() && rest.id in dying && dying[rest.id].allocator == rest.allocator
      modifies this`dying, this`log
      ensures Valid() && Snapshot([]) == EndRelease(old(Snapshot([])), rest.id)
    {
      dying := dying - {rest.id};
      log := log + [Freed(rest.id, rest.allocator)];
    }

    /** `call` through the table for `kind`, up to the start of the handler. */
    method Launch(kind: Kind, id: nat)
      requires Valid() && id in impls && impls[id].kind == kind
      modifies this`impls, this`log
      ensures Valid() && Live() == old(Live()) - {id}
      ensures log == old(log) + EndByCall(id, kind, old(Live())[id].allocator)
    {
      var allocator := impls[id].handler.allocator;
      impls := impls[id := Stored(kind, MovedFrom)];
      log := log + [MovedOut(id, kind)];
      log := log + [Destroyed(id, kind)];
      impls := impls - {id};
      log := log + [Freed(id, allocator)];
      log := log + [Invoked(id, kind)];
    }
  }

  /** What is left to do once the destructor of a wrapper `c` has started. */
  function DeallocationOf(live: map<nat, Impl>, c: Cell): Option<Deallocation> {
    if HasTarget(c) && c.impl.value in live then
      Some(Deallocation(c.impl.value, live[c.impl.value].allocator))
    else None
  }

  class AnyCompletionHandler {
    var table: Option<Kind>
    var impl: Option<nat>

    /** The wrapper can be used: its target is alive, and its table casts right. */
    ghost predicate Fits(store: Store)
      reads this, store
    {
      impl.Some? ==> impl.value in store.impls && table == Some(store.impls[impl.value].kind)
    }

    ghost function Snapshot(): Cell
      reads this
    {
      Cell(table, impl)
    }

    constructor ()
      ensures Snapshot() == EMPTY
    {
      table, impl := None, None;
    }

    constructor Wrap(kind: Kind, id: nat)
      ensures Snapshot() == Cell(Some(kind), Some(id))
    {
      table, impl := Some(kind), Some(id);
    }

    constructor Move(other: AnyCompletionHandler)
      modifies other
      ensures Snapshot() == old(other.Snapshot()) && other.Snapshot() == EMPTY
    {
      table, impl := other.table, other.impl;
      new;
      other.table, other.impl := None, None;
    }

    method Swap(other: AnyCompletionHandler)
      modifies this, other
      ensures Snapshot() == old(other.Snapshot()) && other.Snapshot() == old(Snapshot())
    {
      var t := other.table;
      other.table := table;
      table := t;
      var p := other.impl;
      other.impl := impl;
      impl := p;
    }

    /** The destructor, until the code of the target's own destructor. It does not
        touch the wrapper's fields. */
    method Destruct(store: Store) returns (rest: Option<Deallocation>)
      requires store.Valid() && Fits(store)
      modifies store
      ensures store.Valid()
      ensures store.Snapshot([]) == BeginRelease(old(store.Snapshot([])), Snapshot())
      ensures rest == DeallocationOf(old(store.Live()), Snapshot())
    {
      rest := None;
      if impl.Some? {
        var deallocation := store.Destroy(table.value, impl.value);
        rest := Some(deallocation);
      }
    }

    /** Move assignment, also from itself: what `other` held goes through a
        temporary, whose destructor ends what this wrapper held. */
    method MoveAssign(store: Store, other: AnyCompletionHandler) returns (rest: Option<Deallocation>)
      requires store.Valid() && (this != other ==> Fits(store))
      modifies this, other, store
      ensures store.Valid()
      ensures this == other ==>
        && Snapshot() == old(Snapshot())
        && store.Snapshot([]) == old(store.Snapshot([])) && rest == None
      ensures this != other ==>
        && Snapshot() == old(other.Snapshot()) && other.Snapshot() == EMPTY
        && store.Snapshot([]) == BeginRelease(old(store.Snapshot([])), old(Snapshot()))
        && rest == DeallocationOf(old(store.Live()), old(Snapshot()))
    {
      var temporary := new AnyCompletionHandler.Move(other);
      temporary.Swap(this);
      rest := temporary.Destruct(store);
    }

    method AssignNull(store: Store) returns (rest: Option<Deallocation>)
      requires store.Valid() && Fits(store)
      modifies this, store
      ensures store.Valid() && Snapshot() == EMPTY
      ensures store.Snapshot([]) == BeginRelease(old(store.Snapshot([])), old(Snapshot()))
      ensures rest == DeallocationOf(old(store.Live()), old(Snapshot()))
    {
      var temporary := new AnyCompletionHandler();
      temporary.Swap(this);
      rest := temporary.Destruct(store);
    }

    /** The call operator, up to the start of the handler's own code; an empty
        wrapper throws instead. */
    method Call(store: Store) returns (threw: bool)
      requires store.Valid() && Fits(store)
      modifies this, store
      ensures store.Valid() && threw == old(impl.None?)
      ensures Snapshot() == Cell(old(table), None)
      ensures threw ==> store.Snapshot([]) == old(store.Snapshot([]))
      ensures !threw ==>
        var id, kind := old(impl.value), table.value;
        store.Snapshot([]) == old(store.Snapshot([])).(
          live := old(store.Live()) - {id},
          log := old(store.log) + EndByCall(id, kind, old(store.Live())[id].allocator))
    {
      if impl.Some? {
        var target := impl.value;
        impl := None;
        store.Launch(table.value, target);
        return false;
      }
      return true;
    }
  }
}
