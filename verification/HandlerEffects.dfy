/** What single operations on wrappers do, in terms of the variables, the
    implementations and the log. */
module HandlerEffects {
  import opened Machine
  import opened HandlerSpec
  import opened HandlerRuns

  /** The variables are as given, and nothing else has changed. */
  predicate OnlyCells(w: World, t: World, cells: seq<Cell>) {
    t.cells == cells && t.live == w.live && t.dying == w.dying && t.next == w.next && t.log == w.log
  }

  /** Construction puts a wrapper into scope, without a target, or with a new
      implementation of the given type from the given allocator. When constructing
      that throws, its storage goes back and the variable stays out of scope. */
  lemma ConstructExact(w: World, i: nat, kind: Kind, allocator: nat)
    requires IsGone(w, i)
    ensures OnlyCells(w, Step(w, ConstructEmpty(i)), w.cells[i := Cell(None, None)])
    ensures Step(w, Construct(i, kind, allocator, false)) ==
      World(w.cells[i := Cell(Some(kind), Some(w.next))], w.live[w.next := Impl(kind, allocator)], w.dying,
            w.next + 1, w.log + [Allocated(w.next, allocator), Constructed(w.next, kind)])
    ensures Step(w, Construct(i, kind, allocator, true)) ==
      World(w.cells, w.live, w.dying, w.next + 1, w.log + [Allocated(w.next, allocator), Freed(w.next, allocator)])
  {
  }

  /** A swap exchanges table and target of two variables, which may be the same. */
  lemma SwapExchanges(w: World, i: nat, j: nat)
    requires InScope(w, i) && InScope(w, j)
    ensures var t := Step(w, Swap(i, j));
      && |t.cells| == |w.cells| && t.cells[i] == w.cells[j] && t.cells[j] == w.cells[i]
      && (forall k :: 0 <= k < |w.cells| && k != i && k != j ==> t.cells[k] == w.cells[k])
      && OnlyCells(w, t, t.cells)
  {
  }

  /** Move construction takes table and target over, and leaves the source empty. */
  lemma MoveConstructTakes(w: World, i: nat, j: nat)
    requires IsGone(w, i) && InScope(w, j)
    ensures var t := Step(w, MoveConstruct(i, j));
      && |t.cells| == |w.cells| && t.cells[i] == w.cells[j] && t.cells[j] == Cell(None, None)
      && (forall k :: 0 <= k < |w.cells| && k != i && k != j ==> t.cells[k] == w.cells[k])
      && OnlyCells(w, t, t.cells)
  {
  }

  /** The state when the destructor of the target of `c` starts: the target is not
      alive any more, and the log says which type it was destroyed as. */
  predicate DestructorStarts(w: World, c: Cell, s: World, cells: seq<Cell>)
    requires HasTarget(c) && c.impl.value in w.live
  {
    var id := c.impl.value;
    && s.cells == cells && s.next == w.next
    && s.live == w.live - {id} && s.dying == w.dying[id := w.live[id]]
    && s.log == w.log + [Destroyed(id, c.table.value)]
  }

  /** The state when it is done: the storage goes back to its allocator, and nothing
      else changes. */
  predicate DestructorEnds(u: World, id: nat, t: World, cells: seq<Cell>)
    requires id in u.dying
  {
    && t.cells == cells && t.next == u.next && t.live == u.live && t.dying == u.dying - {id}
    && t.log == u.log + [Freed(id, u.dying[id].allocator)]
  }

  /** Move assignment is complete when the old target's destructor starts; then the
      destructor's code runs, and then the storage goes back. Without an old target
      that is all there is. */
  lemma MoveAssignExact(w: World, i: nat, j: nat, body: seq<Op>) returns (s: World)
    requires InScope(w, i) && InScope(w, j) && i != j
    requires HasTarget(w.cells[i]) ==> w.cells[i].impl.value in w.live
    ensures var cells := w.cells[i := w.cells[j]][j := Cell(None, None)];
      var t := Step(w, MoveAssign(i, j, body));
      if !HasTarget(w.cells[i]) then OnlyCells(w, t, cells)
      else
        var id, u := w.cells[i].impl.value, Run(s, body);
        DestructorStarts(w, w.cells[i], s, cells) && (id in u.dying ==> DestructorEnds(u, id, t, u.cells))
  {
    s := BeginRelease(Handed(w, i, j), w.cells[i]);
    if !HasTarget(w.cells[i]) {
      NothingToRelease(w, i, j, body);
    }
  }

  /** Assigning a variable to itself changes nothing. */
  lemma SelfMoveAssign(w: World, i: nat, body: seq<Op>)
    ensures Step(w, MoveAssign(i, i, body)) == w
  {
  }

  /** Null assignment empties the wrapper before the destructor starts. */
  lemma NullAssignExact(w: World, i: nat, body: seq<Op>) returns (s: World)
    requires InScope(w, i) && (HasTarget(w.cells[i]) ==> w.cells[i].impl.value in w.live)
    ensures var cells := w.cells[i := Cell(None, None)];
      var t := Step(w, NullAssign(i, body));
      if !HasTarget(w.cells[i]) then OnlyCells(w, t, cells)
      else
        var id, u := w.cells[i].impl.value, Run(s, body);
        DestructorStarts(w, w.cells[i], s, cells) && (id in u.dying ==> DestructorEnds(u, id, t, u.cells))
  {
    s := BeginRelease(Put(w, i, EMPTY), w.cells[i]);
    ReleaseNothing(Put(w, i, EMPTY), EMPTY, body);
  }

  /** A wrapper's destructor keeps it as it is until the target's destructor is done
      and the storage is back; then it goes out of scope. */
  lemma DestructIsLate(w: World, i: nat, body: seq<Op>) returns (s: World)
    requires InScope(w, i) && (HasTarget(w.cells[i]) ==> w.cells[i].impl.value in w.live)
    ensures var t := Step(w, Destruct(i, body));
      if !HasTarget(w.cells[i]) then OnlyCells(w, t, w.cells[i := Gone])
      else
        var id, u := w.cells[i].impl.value, Run(s, body);
        && |u.cells| == |w.cells| && DestructorStarts(w, w.cells[i], s, w.cells)
        && (id in u.dying ==> DestructorEnds(u, id, t, u.cells[i := Gone]))
  {
    s := BeginRelease(w, w.cells[i]);
  }

  /** A call empties the wrapper and ends its target, which is moved out, destroyed
      and freed in this order, and then runs the handler; an empty wrapper throws
      and changes nothing. */
  lemma CallExact(w: World, i: nat, body: seq<Op>)
    requires InScope(w, i) && (HasTarget(w.cells[i]) ==> w.cells[i].impl.value in w.live)
    ensures w.cells[i].impl.None? ==> Step(w, Call(i, body)) == w
    ensures HasTarget(w.cells[i]) ==>
      var id, kind := w.cells[i].impl.value, w.cells[i].table.value;
      Step(w, Call(i, body)) == Run(
        World(w.cells[i := Cell(Some(kind), None)], w.live - {id}, w.dying, w.next,
              w.log + [MovedOut(id, kind), Destroyed(id, kind), Freed(id, w.live[id].allocator), Invoked(id, kind)]),
        body)
  {
  }

  /** Constructing what is in scope, and using what is not, do nothing. */
  lemma WrongScopeDoesNothing(w: World, i: nat, j: nat, body: seq<Op>)
    ensures !IsGone(w, i) ==>
      && Step(w, ConstructEmpty(i)) == Step(w, MoveConstruct(i, j)) == w
      && forall kind, allocator, throws :: Step(w, Construct(i, kind, allocator, throws)) == w
    ensures !InScope(w, i) ==>
      && Step(w, MoveAssign(i, j, body)) == Step(w, MoveAssign(j, i, body)) == Step(w, NullAssign(i, body)) == w
      && Step(w, Swap(i, j)) == Step(w, Swap(j, i)) == Step(w, Destruct(i, body)) == Step(w, Call(i, body)) == w
      && Step(w, MoveConstruct(j, i)) == w
  {
  }

  /** A program starts with `n` variables, all out of scope, and nothing else. */
  lemma StartIsEmpty(n: nat)
    ensures |Start(n).cells| == n && forall i: nat | i < n :: IsGone(Start(n), i)
    ensures Start(n) == World(Start(n).cells, map[], map[], 0, [])
  {
  }

  /** A run is its operations one after another. */
  lemma {:induction false} RunInTwo(w: World, a: seq<Op>, b: seq<Op>)
    ensures Run(w, a + b) == Run(Run(w, a), b)
    ensures forall op :: a == [op] ==> Run(w, a) == Step(w, op)
    decreases |a|
  {
    if a == [] {
      assert a + b == b;
    } else {
      assert (a + b)[0] == a[0] && (a + b)[1..] == a[1..] + b;
      RunInTwo(Step(w, a[0]), a[1..], b);
    }
  }
}
