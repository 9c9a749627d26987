/** Runs in which the code of a handler's destructor uses the very wrapper whose
    destructor is running, with the worst outcome and with none. */
module HandlerFindings {
  import opened HandlerSpec
  import opened HandlerRuns
  import opened HandlerDestructors
  import opened HandlerPrograms

  /** One wrapper with a target, whose destructor empties the wrapper: when the
      wrapper goes out of scope, the target is destroyed twice. Emptying the
      wrapper instead runs the same code without harm. */
  lemma DestructorEmptiesItsWrapper(kind: Kind, allocator: nat)
    ensures var code, start := [NullAssign(0, [])], [Construct(0, kind, allocator, false)];
      && !Good(Run(Start(1), start + [Destruct(0, code)]))
      && Good(Run(Start(1), start + [NullAssign(0, code)]))
  {
    var code, construct := [NullAssign(0, [])], Construct(0, kind, allocator, false);
    var w := Step(Start(1), construct);
    StepKeepsGood(Start(1), construct);
    assert Holds(w.cells, 0, 0);
    ProperIsCareful(w, code);
    RunKeepsGood(w, code);
    assert Run(w, code) == Run(Step(w, code[0]), []);
    DestructExact(w, 0, 0, code);
    ProperStepIsCareful(w, NullAssign(0, code));
    StepKeepsGood(w, NullAssign(0, code));
    RunTwo(Start(1), construct, Destruct(0, code));
    RunTwo(Start(1), construct, NullAssign(0, code));
    assert [construct] + [Destruct(0, code)] == [construct, Destruct(0, code)];
    assert [construct] + [NullAssign(0, code)] == [construct, NullAssign(0, code)];
  }

  /** Code that takes the target out and puts it back is harmless. */
  lemma SwapThereAndBack(w: World, i: nat, k: nat, id: nat)
    requires Good(w) && Holds(w.cells, i, id)
    ensures Good(Step(w, Destruct(i, [Swap(k, i), Swap(k, i)])))
  {
    MovesCanBeUndone(w, k, i, [], []);
    DestructExact(w, i, id, [Swap(k, i), Swap(k, i)]);
  }
}
