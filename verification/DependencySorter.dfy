/** The loops of `sort_to_dependencies`, which change the pending list, the current list and the
    `steps` dictionary in place. */
module DependencySorter {
  import opened Common
  import opened DependencySort

  // ----- removing from a list

  function Drop(libs: seq<Library>, m: Library): seq<Library> {
    if libs == [] then []
    else
      var n := |libs| - 1;
      if libs[n] == m then Drop(libs[..n], m) else Drop(libs[..n], m) + [libs[n]]
  }

  function Without(libs: seq<Library>, removed: seq<Library>): seq<Library> {
    if removed == [] then libs else Drop(Without(libs, removed[..|removed| - 1]), removed[|removed| - 1])
  }

  lemma {:induction false} DropMember(libs: seq<Library>, m: Library)
    requires Distinct(libs)
    ensures Distinct(Drop(libs, m))
    ensures forall x :: x in Drop(libs, m) <==> x in libs && x != m
    decreases |libs|
  {
    if libs != [] {
      var n := |libs| - 1;
      DropMember(libs[..n], m);
      assert libs == libs[..n] + [libs[n]];
      assert libs[n] !in libs[..n];
    }
  }

  lemma {:induction false} DropOther(libs: seq<Library>, m: Library)
    requires m !in libs
    ensures Drop(libs, m) == libs
    decreases |libs|
  {
    if libs != [] {
      DropOther(libs[..|libs| - 1], m);
    }
  }

  /** In a list without repetitions, removing the first occurrence removes the element. */
  lemma {:induction false} DropAt(libs: seq<Library>, k: nat)
    requires Distinct(libs) && k < |libs|
    ensures Drop(libs, libs[k]) == libs[..k] + libs[k + 1..]
    decreases |libs|
  {
    var n := |libs| - 1;
    if k < n {
      DropAt(libs[..n], k);
      assert libs[..n][..k] + libs[..n][k + 1..] + [libs[n]] == libs[..k] + libs[k + 1..];
    } else {
      DropOther(libs[..n], libs[n]);
    }
  }

  lemma {:induction false} WithoutMember(libs: seq<Library>, removed: seq<Library>)
    requires Distinct(libs)
    ensures Distinct(Without(libs, removed))
    ensures forall x :: x in Without(libs, removed) <==> x in libs && x !in removed
    decreases |removed|
  {
    if removed != [] {
      var n := |removed| - 1;
      WithoutMember(libs, removed[..n]);
      DropMember(Without(libs, removed[..n]), removed[n]);
      assert removed == removed[..n] + [removed[n]];
    }
  }

  lemma {:induction false} WithoutSnoc(libs: seq<Library>, m: Library, removed: seq<Library>)
    requires m !in libs
    ensures Without(libs + [m], removed) == if m in removed then Without(libs, removed) else Without(libs, removed) + [m]
    decreases |removed|
  {
    if removed != [] {
      var n := |removed| - 1;
      WithoutSnoc(libs, m, removed[..n]);
      assert removed == removed[..n] + [removed[n]];
      var w := Without(libs, removed[..n]);
      assert (w + [m])[..|w|] == w;
    }
  }

  lemma {:induction false} WaitingDistinct(deps: Dependencies, order: seq<Library>, k: nat)
    requires Distinct(order)
    ensures Distinct(Waiting(deps, order, k))
    decreases |order|
  {
    if order != [] {
      var n := |order| - 1;
      WaitingDistinct(deps, order[..n], k);
      LayerMember(deps, order[..n], k, order[n]);
    }
  }

  /** Removing layer `k` from the waiting list leaves the next waiting list. */
  lemma {:induction false} WaitingWithoutLayer(deps: Dependencies, order: seq<Library>, k: nat, layer: seq<Library>)
    requires Distinct(order)
    requires forall m :: m in order ==> (m in layer <==> InLayer(deps, k, m))
    ensures Without(Waiting(deps, order, k), layer) == Waiting(deps, order, k + 1)
    decreases |order|
  {
    if order == [] {
      WithoutNothing(layer);
    } else {
      var n := |order| - 1;
      var m := order[n];
      WaitingWithoutLayer(deps, order[..n], k, layer);
      LayerMember(deps, order[..n], k, m);
      if Loaded(deps, k, m) {
        LoadedLater(deps, k, m);
      } else {
        WithoutSnoc(Waiting(deps, order[..n], k), m, layer);
      }
    }
  }

  lemma {:induction false} WithoutNothing(removed: seq<Library>)
    ensures Without([], removed) == []
    decreases |removed|
  {
    if removed != [] {
      WithoutNothing(removed[..|removed| - 1]);
    }
  }

  // ----- one round

  function Loadable(deps: Dependencies, pending: seq<Library>, current: seq<Library>): seq<Library>
    requires forall i :: 0 <= i < |pending| ==> pending[i] in deps
  {
    if pending == [] then []
    else
      var n := |pending| - 1;
      if Ready(deps, current, pending[n]) then Loadable(deps, pending[..n], current) + [pending[n]]
      else Loadable(deps, pending[..n], current)
  }

  lemma {:induction false} WaitingInMap(deps: Dependencies, order: seq<Library>, k: nat)
    requires forall i :: 0 <= i < |order| ==> order[i] in deps
    ensures forall i :: 0 <= i < |Waiting(deps, order, k)| ==> Waiting(deps, order, k)[i] in deps
    decreases |order|
  {
    if order != [] {
      WaitingInMap(deps, order[..|order| - 1], k);
    }
  }

  lemma LoadableSnoc(deps: Dependencies, pending: seq<Library>, current: seq<Library>, m: Library)
    requires (forall i :: 0 <= i < |pending| ==> pending[i] in deps) && m in deps
    ensures Loadable(deps, pending + [m], current)
         == if Ready(deps, current, m) then Loadable(deps, pending, current) + [m]
            else Loadable(deps, pending, current)
  {
    assert (pending + [m])[..|pending|] == pending;
  }

  /** What a round loads is layer `k`. */
  lemma {:induction false} LoadableIsLayer(deps: Dependencies, order: seq<Library>, k: nat, n: nat)
    requires KeyList(deps, order) && n <= |order|
    ensures forall i :: 0 <= i < |Waiting(deps, order[..n], k)| ==> Waiting(deps, order[..n], k)[i] in deps
    ensures Loadable(deps, Waiting(deps, order[..n], k), Layers(deps, order, k)) == Layer(deps, order[..n], k)
    decreases n
  {
    hide Ready, Layers;
    WaitingInMap(deps, order[..n], k);
    if n > 0 {
      LoadableIsLayer(deps, order, k, n - 1);
      var m := order[n - 1];
      assert order[..n][..n - 1] == order[..n - 1];
      if Loaded(deps, k, m) {
        assert !InLayer(deps, k, m);
      } else {
        ReadyIff(deps, order, k, m);
        LoadableSnoc(deps, Waiting(deps, order[..n - 1], k), Layers(deps, order, k), m);
      }
    }
  }

  lemma {:induction false} WaitingEmpty(deps: Dependencies, order: seq<Library>, k: nat)
    requires KeyList(deps, order)
    ensures Waiting(deps, order, k) == [] <==> AllLoaded(deps, k)
  {
    if Waiting(deps, order, k) == [] {
      forall m | m in deps ensures Loaded(deps, k, m) {
        LayerMember(deps, order, k, m);
      }
    } else {
      var m := Waiting(deps, order, k)[0];
      assert m in Waiting(deps, order, k);
      LayerMember(deps, order, k, m);
    }
  }

  lemma {:induction false} AllLoadedLater(deps: Dependencies, k: nat, n: nat)
    requires AllLoaded(deps, k) && k <= n
    ensures AllLoaded(deps, n)
  {
    forall m | m in deps ensures Loaded(deps, n, m) {
      LoadedMuchLater(deps, k, n, m);
    }
  }

  /** A layer is a part of the waiting list, and removing it leaves the next one. */
  lemma LayerFacts(deps: Dependencies, order: seq<Library>, k: nat)
    requires KeyList(deps, order)
    ensures Distinct(Waiting(deps, order, k)) && Distinct(Layer(deps, order, k))
    ensures forall i :: 0 <= i < |Layer(deps, order, k)| ==> Layer(deps, order, k)[i] in Waiting(deps, order, k)
    ensures Without(Waiting(deps, order, k), Layer(deps, order, k)) == Waiting(deps, order, k + 1)
    ensures Layers(deps, order, k + 1) == Layers(deps, order, k) + Layer(deps, order, k)
  {
    hide Waiting, Layer;
    WaitingDistinct(deps, order, k);
    LayerDistinct(deps, order, k);
    forall m | m in order ensures m in Layer(deps, order, k) <==> InLayer(deps, k, m) {
      LayerMember(deps, order, k, m);
    }
    forall i | 0 <= i < |Layer(deps, order, k)| ensures Layer(deps, order, k)[i] in Waiting(deps, order, k) {
      LayerIsWaiting(deps, order, k, Layer(deps, order, k)[i]);
    }
    WaitingWithoutLayer(deps, order, k, Layer(deps, order, k));
  }

  /** The dictionary holds the first `k` layers. */
  ghost predicate StepsAre(deps: Dependencies, order: seq<Library>, steps: map<nat, seq<Library>>, k: nat) {
    (forall j: nat :: j in steps <==> j < k) && (forall j: nat :: j < k ==> steps[j] == Layer(deps, order, j))
  }

  lemma StepsGrow(deps: Dependencies, order: seq<Library>, steps: map<nat, seq<Library>>, k: nat)
    requires StepsAre(deps, order, steps, k)
    ensures k !in steps
    ensures StepsAre(deps, order, steps[k := Layer(deps, order, k)], k + 1)
  {
    hide Layer;
  }

  /** What a round finds and leaves after `k` rounds. */
  lemma RoundFacts(deps: Dependencies, order: seq<Library>, steps: map<nat, seq<Library>>, k: nat)
    requires KeyList(deps, order) && StepsAre(deps, order, steps, k)
    ensures forall i :: 0 <= i < |Waiting(deps, order, k)| ==> Waiting(deps, order, k)[i] in deps
    ensures Loadable(deps, Waiting(deps, order, k), Layers(deps, order, k)) == Layer(deps, order, k)
    ensures Distinct(Waiting(deps, order, k)) && Distinct(Layer(deps, order, k))
    ensures forall i :: 0 <= i < |Layer(deps, order, k)| ==> Layer(deps, order, k)[i] in Waiting(deps, order, k)
    ensures Without(Waiting(deps, order, k), Layer(deps, order, k)) == Waiting(deps, order, k + 1)
    ensures Layers(deps, order, k + 1) == Layers(deps, order, k) + Layer(deps, order, k)
    ensures k !in steps && StepsAre(deps, order, steps[k := Layer(deps, order, k)], k + 1)
  {
    assert order[..|order|] == order;
    LoadableIsLayer(deps, order, k, |order|);
    LayerFacts(deps, order, k);
    StepsGrow(deps, order, steps, k);
  }

  class Sorter {
    const deps: Dependencies
    ghost const order: seq<Library>
    var pending: seq<Library>
    var current: seq<Library>
    var steps: map<nat, seq<Library>>

    constructor (deps: Dependencies, order: seq<Library>)
      requires KeyList(deps, order)
      ensures this.deps == deps && this.order == order && After(0)
    {
      this.deps := deps;
      this.order := order;
      pending, current, steps := order, [], map[];
      new;
      WaitingAtStart(deps, order);
    }

    /** The three containers after `k` rounds. */
    ghost predicate After(k: nat)
      reads this
    {
      && KeyList(deps, order)
      && pending == Waiting(deps, order, k)
      && current == Layers(deps, order, k)
      && StepsAre(deps, order, steps, k)
    }

    method ModulesThatCanBeLoaded() returns (modules: seq<Library>)
      requires forall i :: 0 <= i < |pending| ==> pending[i] in deps
      ensures modules == Loadable(deps, pending, current)
    {
      modules := [];
      for i := 0 to |pending|
        invariant modules == Loadable(deps, pending[..i], current)
      {
        var canBeLoaded := true;
        var dependencies := deps[pending[i]];
        for d := 0 to |dependencies|
          invariant canBeLoaded && forall e :: 0 <= e < d ==> dependencies[e] in current
        {
          if dependencies[d] !in current {
            canBeLoaded := false;
            break;
          }
        }
        assert canBeLoaded == Ready(deps, current, pending[i]);
        assert pending[..i + 1][..i] == pending[..i];
        if !canBeLoaded {
          continue;
        }
        modules := modules + [pending[i]];
      }
      assert pending[..|pending|] == pending;
    }

    /** `pending_modules.remove(module)`. */
    method RemovePending(module_: Library)
      requires Distinct(pending) && module_ in pending
      modifies this`pending
      ensures pending == Drop(old(pending), module_)
    {
      var k := 0;
      while pending[k] != module_
        invariant k < |pending| && module_ in pending[k..]
        decreases |pending| - k
      {
        k := k + 1;
      }
      DropAt(pending, k);
      pending := pending[..k] + pending[k + 1..];
    }

    /** Moves the modules of one round from the pending list to the current one. */
    method LoadModules(step: nat, modules: seq<Library>)
      requires step in steps && steps[step] == []
      requires Distinct(pending) && Distinct(modules) && forall i :: 0 <= i < |modules| ==> modules[i] in pending
      modifies this`pending, this`current, this`steps
      ensures steps == old(steps)[step := modules]
      ensures pending == Without(old(pending), modules)
      ensures current == old(current) + modules
    {
      hide Drop;
      ghost var before, was := pending, steps;
      for i := 0 to |modules|
        invariant step in steps && steps == was[step := modules[..i]]
        invariant pending == Without(before, modules[..i])
        invariant current == old(current) + modules[..i]
      {
        WithoutMember(before, modules[..i]);
        assert modules[i] !in modules[..i];
        assert modules[..i + 1] == modules[..i] + [modules[i]];
        assert modules[..i + 1][..i] == modules[..i];
        steps := steps[step := steps[step] + [modules[i]]];
        RemovePending(modules[i]);
        current := current + [modules[i]];
      }
      assert modules[..|modules|] == modules;
    }

    /** The body of one call of `dependency_order`. */
    method Round(step: nat)
      requires step !in steps && forall i :: 0 <= i < |pending| ==> pending[i] in deps
      requires Distinct(pending) && Distinct(Loadable(deps, pending, current))
      requires forall i :: 0 <= i < |Loadable(deps, pending, current)| ==> Loadable(deps, pending, current)[i] in pending
      modifies this
      ensures steps == old(steps)[step := Loadable(deps, old(pending), old(current))]
      ensures pending == Without(old(pending), Loadable(deps, old(pending), old(current)))
      ensures current == old(current) + Loadable(deps, old(pending), old(current))
    {
      hide Loadable, Without, Distinct;
      if step !in steps {
        steps := steps[step := []];
      }
      var modules := ModulesThatCanBeLoaded();
      LoadModules(step, modules);
    }

    /** The recursion, with as many stack frames left as Python allows; true when they run out. */
    method DependencyOrder(step: nat, frames: nat) returns (raised: bool, ghost rounds: nat)
      requires After(step)
      modifies this
      ensures !raised ==> step <= rounds < step + frames && After(rounds) && pending == []
      ensures raised <==> forall k: nat :: step <= k < step + frames ==> Waiting(deps, order, k) != []
      decreases frames
    {
      hide Waiting, Layer, Layers, Loadable, Without, StepsAre, KeyList, Distinct;
      rounds := step;
      if frames == 0 {
        return true, step;
      }
      assert pending == Waiting(deps, order, step);
      if |pending| == 0 {
        return false, step;
      }
      RoundFacts(deps, order, steps, step);
      Round(step);
      raised, rounds := DependencyOrder(step + 1, frames - 1);
    }

    /** The whole function. `None` stands for the RecursionError that ends a recursion which does not
        reach an empty pending list within `frames` calls. */
    method SortToDependencies(frames: nat) returns (sorted: Option<seq<Library>>)
      requires After(0)
      modifies this
      ensures sorted.Some? <==> Sortable(deps, frames)
      ensures sorted.Some? ==>
                && Distinct(sorted.value) && (forall m :: m in sorted.value <==> m in deps)
                && DependenciesFirst(deps, sorted.value)
      ensures sorted.Some? ==> forall k: nat :: k in steps ==> steps[k] == Layer(deps, order, k)
    {
      var raised;
      ghost var rounds;
      raised, rounds := DependencyOrder(0, frames);
      CallsIff(deps, order, frames);
      if raised {
        return None;
      }
      var libraries := [];
      var step := 0;
      while step in steps
        invariant 0 <= step <= rounds
        invariant libraries == Layers(deps, order, step)
        decreases rounds - step
      {
        libraries := libraries + steps[step];
        step := step + 1;
      }
      LayersDistinct(deps, order, rounds);
      LayersInOrder(deps, order, rounds);
      WaitingEmpty(deps, order, rounds);
      forall m ensures m in libraries <==> m in deps {
        LayersMember(deps, order, rounds, m);
      }
      sorted := Some(libraries);
    }
  }

  lemma {:induction false} WaitingAtStart(deps: Dependencies, order: seq<Library>)
    ensures Waiting(deps, order, 0) == order
    decreases |order|
  {
    if order != [] {
      WaitingAtStart(deps, order[..|order| - 1]);
    }
  }

  lemma CallsIff(deps: Dependencies, order: seq<Library>, frames: nat)
    requires KeyList(deps, order)
    ensures (forall k: nat :: k < frames ==> Waiting(deps, order, k) != []) <==>
            frames == 0 || !AllLoaded(deps, frames - 1)
  {
    if k: nat :| k < frames && Waiting(deps, order, k) == [] {
      WaitingEmpty(deps, order, k);
      AllLoadedLater(deps, k, frames - 1);
    }
    if frames > 0 {
      WaitingEmpty(deps, order, frames - 1);
    }
  }

  /** With this many stack frames the sort succeeds. */
  ghost predicate Sortable(deps: Dependencies, frames: nat) {
    frames > 0 && AllLoaded(deps, frames - 1)
  }

  /** The sort can succeed exactly for a closed map without cycles, and then one stack frame more than
      there are libraries is enough. */
  lemma SortSucceedsIff(deps: Dependencies)
    ensures (exists frames: nat :: Sortable(deps, frames)) <==> Closed(deps) && !Cyclic(deps)
    ensures Closed(deps) && !Cyclic(deps) <==> Sortable(deps, |deps| + 1)
  {
    SortableIff(deps);
    if frames: nat :| Sortable(deps, frames) {
      assert AllLoaded(deps, frames - 1);
    }
    if Closed(deps) && !Cyclic(deps) {
      forall m | m in deps ensures Loaded(deps, |deps|, m) {
        if !Loaded(deps, |deps|, m) {
          NotLoadedMeansCycle(deps, m);
        }
      }
      assert Sortable(deps, |deps| + 1);
    }
  }
}
