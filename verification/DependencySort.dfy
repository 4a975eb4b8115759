/** `sort_to_dependencies` of the Python bindings: the shared libraries are put into layers, each layer
    holding what can be loaded once the layers before it are. */
module DependencySort {
  import opened Common

  datatype Library = Library(name: string)

  type Dependencies = map<Library, seq<Library>>

  // ----- the layers, from the dependency map alone

  /** Can be loaded within the first `k` layers. */
  predicate Loaded(deps: Dependencies, k: nat, m: Library)
    decreases k
  {
    m in deps && k > 0 && forall i :: 0 <= i < |deps[m]| ==> Loaded(deps, k - 1, deps[m][i])
  }

  predicate InLayer(deps: Dependencies, k: nat, m: Library) {
    Loaded(deps, k + 1, m) && !Loaded(deps, k, m)
  }

  function Layer(deps: Dependencies, order: seq<Library>, k: nat): seq<Library> {
    if order == [] then []
    else
      var n := |order| - 1;
      if InLayer(deps, k, order[n]) then Layer(deps, order[..n], k) + [order[n]] else Layer(deps, order[..n], k)
  }

  /** The libraries left after `k` layers. */
  function Waiting(deps: Dependencies, order: seq<Library>, k: nat): seq<Library> {
    if order == [] then []
    else
      var n := |order| - 1;
      if Loaded(deps, k, order[n]) then Waiting(deps, order[..n], k) else Waiting(deps, order[..n], k) + [order[n]]
  }

  /** The first `k` layers one after the other. */
  function Layers(deps: Dependencies, order: seq<Library>, k: nat): seq<Library> {
    if k == 0 then [] else Layers(deps, order, k - 1) + Layer(deps, order, k - 1)
  }

  // ----- chains and cycles

  /** Each element depends on the next; the last one may be missing from the map. */
  predicate Chain(deps: Dependencies, path: seq<Library>) {
    path != [] && forall i :: 0 <= i < |path| - 1 ==> path[i] in deps && path[i + 1] in deps[path[i]]
  }

  predicate Closed(deps: Dependencies) {
    forall m :: m in deps ==> forall i :: 0 <= i < |deps[m]| ==> deps[m][i] in deps
  }

  ghost predicate Cyclic(deps: Dependencies) {
    exists path :: Chain(deps, path) && |path| > 1 && path[0] == path[|path| - 1]
  }

  /** A chain that keeps its start out of the first `k` layers: it is too long, or leaves the map. */
  predicate Blocks(deps: Dependencies, k: nat, path: seq<Library>) {
    Chain(deps, path) && |path| <= k + 1 && (|path| == k + 1 || path[|path| - 1] !in deps)
  }

  lemma ChainCons(deps: Dependencies, m: Library, path: seq<Library>)
    requires Chain(deps, path) && m in deps && path[0] in deps[m]
    ensures Chain(deps, [m] + path)
  {
    var longer := [m] + path;
    forall i | 0 <= i < |longer| - 1 ensures longer[i] in deps && longer[i + 1] in deps[longer[i]] {
      if i > 0 {
        assert longer[i] == path[i - 1] && longer[i + 1] == path[i - 1 + 1];
      }
    }
  }

  lemma ChainPart(deps: Dependencies, path: seq<Library>, i: nat, j: nat)
    requires Chain(deps, path) && i < j <= |path|
    ensures Chain(deps, path[i..j])
  {
    forall k | 0 <= k < j - i - 1 ensures path[i..j][k] in deps && path[i..j][k + 1] in deps[path[i..j][k]] {
      assert path[i..j][k] == path[i + k] && path[i..j][k + 1] == path[i + k + 1];
    }
  }

  lemma {:induction false} BlockingChain(deps: Dependencies, k: nat, m: Library) returns (path: seq<Library>)
    requires !Loaded(deps, k, m)
    ensures Blocks(deps, k, path) && path[0] == m
    decreases k
  {
    if m !in deps || k == 0 {
      path := [m];
    } else {
      var i :| 0 <= i < |deps[m]| && !Loaded(deps, k - 1, deps[m][i]);
      var rest := BlockingChain(deps, k - 1, deps[m][i]);
      ChainCons(deps, m, rest);
      path := [m] + rest;
    }
  }

  lemma {:induction false} BlockedNotLoaded(deps: Dependencies, k: nat, path: seq<Library>)
    requires Blocks(deps, k, path)
    ensures !Loaded(deps, k, path[0])
    decreases k
  {
    if |path| > 1 {
      ChainPart(deps, path, 1, |path|);
      BlockedNotLoaded(deps, k - 1, path[1..]);
      assert path[0 + 1] in deps[path[0]];
      var i :| 0 <= i < |deps[path[0]]| && deps[path[0]][i] == path[1];
      assert !Loaded(deps, k - 1, deps[path[0]][i]);
    }
  }

  /** A library is not loaded in `k` layers exactly when some chain of `k` dependencies, or a shorter
      one that leaves the map, starts at it. */
  lemma LoadedIff(deps: Dependencies, k: nat, m: Library)
    ensures !Loaded(deps, k, m) <==> exists path :: Blocks(deps, k, path) && path[0] == m
  {
    if !Loaded(deps, k, m) {
      var path := BlockingChain(deps, k, m);
    }
    forall path | Blocks(deps, k, path) && path[0] == m ensures !Loaded(deps, k, m) {
      BlockedNotLoaded(deps, k, path);
    }
  }

  /** Layer `k` holds exactly the libraries whose longest dependency chain has length `k`. */
  lemma LayerIsChainLength(deps: Dependencies, k: nat, m: Library)
    requires Closed(deps) && m in deps
    ensures InLayer(deps, k, m) <==>
            (exists path :: Chain(deps, path) && path[0] == m && |path| == k + 1) &&
            (forall path :: Chain(deps, path) && path[0] == m ==> |path| <= k + 1)
  {
    LoadedIff(deps, k, m);
    LoadedIff(deps, k + 1, m);
    forall path | Chain(deps, path) && path[0] == m ensures path[|path| - 1] in deps {
      if |path| > 1 {
        assert path[|path| - 2] in deps && path[|path| - 2 + 1] in deps[path[|path| - 2]];
      }
    }
    if path :| Chain(deps, path) && path[0] == m && |path| > k + 1 {
      ChainPart(deps, path, 0, k + 2);
      assert Blocks(deps, k + 1, path[0..k + 2]) && path[0..k + 2][0] == m;
    }
    if path :| Chain(deps, path) && path[0] == m && |path| == k + 1 {
      assert Blocks(deps, k, path);
    }
  }

  lemma {:induction false} CycleNeverLoaded(deps: Dependencies, path: seq<Library>, k: nat)
    requires Chain(deps, path) && |path| > 1 && path[0] == path[|path| - 1]
    ensures forall i :: 0 <= i < |path| ==> !Loaded(deps, k, path[i])
    decreases k
  {
    if k > 0 {
      CycleNeverLoaded(deps, path, k - 1);
      forall i | 0 <= i < |path| ensures !Loaded(deps, k, path[i]) {
        var at := if i < |path| - 1 then i else 0;
        assert path[at + 1] in deps[path[at]];
        var d :| 0 <= d < |deps[path[at]]| && deps[path[at]][d] == path[at + 1];
        assert !Loaded(deps, k - 1, deps[path[at]][d]);
      }
    }
  }

  lemma {:induction false} Pigeonhole(path: seq<Library>, libs: set<Library>) returns (i: nat, j: nat)
    requires forall k :: 0 <= k < |path| ==> path[k] in libs
    requires |path| > |libs|
    ensures i < j < |path| && path[i] == path[j]
    decreases |path|
  {
    if k :| 1 <= k < |path| && path[k] == path[0] {
      i, j := 0, k;
    } else {
      forall k | 0 <= k < |path[1..]| ensures path[1..][k] in libs - {path[0]} {
        assert path[1..][k] == path[k + 1];
      }
      assert path[0] in libs;
      i, j := Pigeonhole(path[1..], libs - {path[0]});
      i, j := i + 1, j + 1;
    }
  }

  lemma ChainStaysClosed(deps: Dependencies, path: seq<Library>)
    requires Closed(deps) && Chain(deps, path) && path[0] in deps
    ensures forall i :: 0 <= i < |path| ==> path[i] in deps
  {
    forall i | 0 <= i < |path| ensures path[i] in deps {
      if i > 0 {
        assert path[i - 1] in deps && path[i - 1 + 1] in deps[path[i - 1]];
      }
    }
  }

  /** With no library missing, one that is not loaded in as many layers as there are libraries is
      behind a cycle. */
  lemma NotLoadedMeansCycle(deps: Dependencies, m: Library)
    requires Closed(deps) && m in deps && !Loaded(deps, |deps|, m)
    ensures Cyclic(deps)
  {
    var path := BlockingChain(deps, |deps|, m);
    ChainStaysClosed(deps, path);
    assert |deps.Keys| == |deps|;
    LongChainRepeats(deps, path, deps.Keys);
  }

  lemma LongChainRepeats(deps: Dependencies, path: seq<Library>, libs: set<Library>)
    requires Chain(deps, path) && |path| > |libs| && forall i :: 0 <= i < |path| ==> path[i] in libs
    ensures Cyclic(deps)
  {
    hide Chain;
    var i, j := Pigeonhole(path, libs);
    ChainPart(deps, path, i, j + 1);
    var cycle := path[i..j + 1];
    assert cycle[0] == path[i] && cycle[|cycle| - 1] == path[j];
  }

  ghost predicate AllLoaded(deps: Dependencies, k: nat) {
    forall m :: m in deps ==> Loaded(deps, k, m)
  }

  /** Enough layers load everything exactly when no dependency is missing and none is circular. */
  lemma SortableIff(deps: Dependencies)
    ensures (exists k: nat :: AllLoaded(deps, k)) <==> Closed(deps) && !Cyclic(deps)
  {
    if k: nat :| AllLoaded(deps, k) {
      forall m, i | m in deps && 0 <= i < |deps[m]| ensures deps[m][i] in deps {
        assert Loaded(deps, k, m);
        assert Loaded(deps, k - 1, deps[m][i]);
      }
      if path :| Chain(deps, path) && |path| > 1 && path[0] == path[|path| - 1] {
        assert path[0] in deps;
        CycleNeverLoaded(deps, path, k);
      }
    }
    if Closed(deps) && !Cyclic(deps) {
      forall m | m in deps ensures Loaded(deps, |deps|, m) {
        if !Loaded(deps, |deps|, m) {
          NotLoadedMeansCycle(deps, m);
        }
      }
      assert AllLoaded(deps, |deps|);
    }
  }

  // ----- the layers as the loops build them

  /** `list(module_dependencies.keys())`. */
  ghost predicate KeyList(deps: Dependencies, order: seq<Library>) {
    Distinct(order) && forall m :: m in order <==> m in deps
  }

  lemma {:induction false} LoadedLater(deps: Dependencies, k: nat, m: Library)
    requires Loaded(deps, k, m)
    ensures Loaded(deps, k + 1, m)
    decreases k
  {
    forall i | 0 <= i < |deps[m]| ensures Loaded(deps, k, deps[m][i]) {
      LoadedLater(deps, k - 1, deps[m][i]);
    }
  }

  lemma {:induction false} LayerMember(deps: Dependencies, order: seq<Library>, k: nat, m: Library)
    ensures m in Layer(deps, order, k) <==> m in order && InLayer(deps, k, m)
    ensures m in Waiting(deps, order, k) <==> m in order && !Loaded(deps, k, m)
    decreases |order|
  {
    if order != [] {
      LayerMember(deps, order[..|order| - 1], k, m);
    }
  }

  /** The places of one list in another. */
  predicate InOrder(part: seq<Library>, whole: seq<Library>, at: seq<nat>) {
    && |at| == |part| && (forall i :: 0 <= i < |at| ==> at[i] < |whole| && whole[at[i]] == part[i])
    && (forall i, j :: 0 <= i < j < |at| ==> at[i] < at[j])
  }

  lemma InOrderLonger(part: seq<Library>, whole: seq<Library>, at: seq<nat>, m: Library)
    requires InOrder(part, whole, at)
    ensures InOrder(part, whole + [m], at) && InOrder(part + [m], whole + [m], at + [|whole|])
  {
  }

  /** A layer keeps the order of the keys. */
  lemma {:induction false} LayerKeepsOrder(deps: Dependencies, order: seq<Library>, k: nat) returns (at: seq<nat>)
    ensures InOrder(Layer(deps, order, k), order, at)
    decreases |order|
  {
    hide InLayer, InOrder;
    if order == [] {
      at := NoPlaces();
    } else {
      var n := |order| - 1;
      var before := LayerKeepsOrder(deps, order[..n], k);
      InOrderLonger(Layer(deps, order[..n], k), order[..n], before, order[n]);
      assert order[..n] + [order[n]] == order;
      at := if InLayer(deps, k, order[n]) then before + [n] else before;
    }
  }

  lemma NoPlaces() returns (at: seq<nat>)
    ensures InOrder([], [], at)
  {
    at := [];
  }

  lemma {:induction false} LayersMember(deps: Dependencies, order: seq<Library>, k: nat, m: Library)
    ensures m in Layers(deps, order, k) <==> m in order && Loaded(deps, k, m)
    decreases k
  {
    if k > 0 {
      LayersMember(deps, order, k - 1, m);
      LayerMember(deps, order, k - 1, m);
      hide Layer;
      if Loaded(deps, k - 1, m) {
        LoadedLater(deps, k - 1, m);
      }
    }
  }

  /** Every dependency of the library comes before it. */
  predicate DependenciesFirst(deps: Dependencies, libs: seq<Library>) {
    forall i :: 0 <= i < |libs| ==>
      libs[i] in deps && forall d :: d in deps[libs[i]] ==> d in libs[..i]
  }

  lemma {:induction false} LayerDistinct(deps: Dependencies, order: seq<Library>, k: nat)
    requires Distinct(order)
    ensures Distinct(Layer(deps, order, k))
    decreases |order|
  {
    if order != [] {
      var n := |order| - 1;
      LayerDistinct(deps, order[..n], k);
      LayerMember(deps, order[..n], k, order[n]);
    }
  }

  lemma {:induction false} LayersDistinct(deps: Dependencies, order: seq<Library>, k: nat)
    requires Distinct(order)
    ensures Distinct(Layers(deps, order, k))
    decreases k
  {
    if k > 0 {
      var a, b := Layers(deps, order, k - 1), Layer(deps, order, k - 1);
      hide Layer, Distinct, Loaded;
      LayersDistinct(deps, order, k - 1);
      LayerDistinct(deps, order, k - 1);
      DistinctConcat(a, b);
      forall m | m in a ensures m !in b {
        NotTwice(deps, order, k - 1, m);
      }
    }
  }

  lemma NotTwice(deps: Dependencies, order: seq<Library>, k: nat, m: Library)
    requires m in Layers(deps, order, k)
    ensures m !in Layer(deps, order, k)
  {
    LayersMember(deps, order, k, m);
    LayerMember(deps, order, k, m);
    hide Layer, Layers;
  }

  lemma {:induction false} LayersInOrder(deps: Dependencies, order: seq<Library>, k: nat)
    requires KeyList(deps, order)
    ensures DependenciesFirst(deps, Layers(deps, order, k))
    decreases k
  {
    if k > 0 {
      var a, b := Layers(deps, order, k - 1), Layer(deps, order, k - 1);
      LayersInOrder(deps, order, k - 1);
      hide Layer;
      forall i | 0 <= i < |a + b|
        ensures (a + b)[i] in deps && forall d :: d in deps[(a + b)[i]] ==> d in (a + b)[..i]
      {
        var m := (a + b)[i];
        if i < |a| {
          assert (a + b)[..i] == a[..i];
        } else {
          assert m in b;
          LayerMember(deps, order, k - 1, m);
          forall d | d in deps[m] ensures d in (a + b)[..i] {
            var j :| 0 <= j < |deps[m]| && deps[m][j] == d;
            assert Loaded(deps, k - 1, deps[m][j]);
            LayersMember(deps, order, k - 1, d);
            var p :| 0 <= p < |a| && a[p] == d;
            assert (a + b)[..i][p] == d;
          }
        }
      }
    }
  }

  predicate Ready(deps: Dependencies, current: seq<Library>, m: Library)
    requires m in deps
  {
    forall i :: 0 <= i < |deps[m]| ==> deps[m][i] in current
  }

  /** A waiting library is ready after `k` layers exactly when it belongs to layer `k`. */
  lemma ReadyIff(deps: Dependencies, order: seq<Library>, k: nat, m: Library)
    requires KeyList(deps, order) && m in order && !Loaded(deps, k, m)
    ensures Ready(deps, Layers(deps, order, k), m) <==> InLayer(deps, k, m)
  {
    forall i | 0 <= i < |deps[m]|
      ensures deps[m][i] in Layers(deps, order, k) <==> Loaded(deps, k, deps[m][i])
    {
      LayersMember(deps, order, k, deps[m][i]);
    }
  }

  /** Some dependency of `m` is missing from the map or itself waiting. */
  predicate HeldBack(deps: Dependencies, waiting: seq<Library>, m: Library) {
    m in deps && exists i :: 0 <= i < |deps[m]| && (deps[m][i] !in deps || deps[m][i] in waiting)
  }

  lemma HeldBackIff(deps: Dependencies, order: seq<Library>, k: nat, m: Library)
    requires KeyList(deps, order) && m in Waiting(deps, order, k)
    ensures HeldBack(deps, Waiting(deps, order, k), m) <==> m !in Layer(deps, order, k)
  {
    LayerMember(deps, order, k, m);
    forall i | 0 <= i < |deps[m]|
      ensures deps[m][i] !in deps || deps[m][i] in Waiting(deps, order, k) <==> !Loaded(deps, k, deps[m][i])
    {
      LayerMember(deps, order, k, deps[m][i]);
    }
  }

  /** A round adds nothing exactly when each waiting library is held back. */
  lemma NoProgressIff(deps: Dependencies, order: seq<Library>, k: nat)
    requires KeyList(deps, order)
    ensures Layer(deps, order, k) == [] <==>
            forall m :: m in Waiting(deps, order, k) ==> HeldBack(deps, Waiting(deps, order, k), m)
  {
    hide HeldBack, InLayer;
    if Layer(deps, order, k) == [] {
      forall m | m in Waiting(deps, order, k) ensures HeldBack(deps, Waiting(deps, order, k), m) {
        HeldBackIff(deps, order, k, m);
      }
    } else {
      var m := Layer(deps, order, k)[0];
      LayerIsWaiting(deps, order, k, m);
      HeldBackIff(deps, order, k, m);
    }
  }

  lemma LayerIsWaiting(deps: Dependencies, order: seq<Library>, k: nat, m: Library)
    requires m in Layer(deps, order, k)
    ensures m in Waiting(deps, order, k)
  {
    LayerMember(deps, order, k, m);
  }

  /** With every dependency in the map, a round that adds nothing to a waiting list means a cycle. */
  lemma NoProgressMeansCycle(deps: Dependencies, order: seq<Library>, k: nat)
    requires KeyList(deps, order) && Closed(deps)
    requires Layer(deps, order, k) == [] && Waiting(deps, order, k) != []
    ensures Cyclic(deps)
  {
    var m := Waiting(deps, order, k)[0];
    assert m in Waiting(deps, order, k);
    LayerMember(deps, order, k, m);
    NeverLoaded(deps, order, k, k + |deps|, m);
    if Loaded(deps, |deps|, m) {
      LoadedMuchLater(deps, |deps|, k + |deps|, m);
      assert false;
    }
    NotLoadedMeansCycle(deps, m);
  }

  lemma {:induction false} LoadedMuchLater(deps: Dependencies, k: nat, n: nat, m: Library)
    requires k <= n && Loaded(deps, k, m)
    ensures Loaded(deps, n, m)
    decreases n
  {
    if k < n {
      LoadedMuchLater(deps, k, n - 1, m);
      LoadedLater(deps, n - 1, m);
    }
  }

  /** After a round that adds nothing every later round adds nothing. */
  lemma {:induction false} NeverLoaded(deps: Dependencies, order: seq<Library>, k: nat, n: nat, m: Library)
    requires KeyList(deps, order) && Layer(deps, order, k) == [] && k <= n
    ensures Loaded(deps, n, m) ==> Loaded(deps, k, m)
    decreases n
  {
    if k < n && Loaded(deps, n, m) {
      forall i | 0 <= i < |deps[m]| ensures Loaded(deps, k, deps[m][i]) {
        NeverLoaded(deps, order, k, n - 1, deps[m][i]);
      }
      assert Loaded(deps, k + 1, m);
      LayerMember(deps, order, k, m);
    }
  }
}
