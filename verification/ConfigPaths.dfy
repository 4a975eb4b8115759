/** `StaticInformation` of print-introspected-doxygen.cc: the backtracking search for the
    configuration paths of every type. */
module ConfigPaths {
  import opened Common
  import opened ConfigGraph
  import opened ConfigEdges

  // ----- the paths, from the registry alone

  /** A recorded path goes on over whatever its type leads to, unless that was visited. */
  lemma PathGrows(reg: Registry, aggregates: seq<(TypeId, TypeId)>, g: Graph, root: TypeId, walk: seq<nat>, path: string,
                  o: Origin, component: string, target: TypeId) returns (longer: seq<nat>)
    requires ValidAggregates(reg, aggregates) && g == GraphOf(reg, aggregates) && g.Valid() && root < |g.edges|
    requires Simple(g, root, walk) && path == PathString(Labels(g, root, walk))
    requires EndIsType(g, root, walk) && target !in Visits(g, root, walk)
    requires LeadsTo(reg, aggregates, End(g, root, walk), o, component, target)
    ensures Reaches(g, root, longer, target, path + "/" + component)
    ensures (target, path + "/" + component) in Gathered(g, root, [], [])
  {
    var tid, e := End(g, root, walk), Edge(component, target);
    EdgeIff(reg, aggregates, tid, e);
    assert g.edges[tid] == EdgesOf(reg, aggregates, tid);
    hide EdgesOf, GraphOf, LeadsTo, Gathered, Simple, Reaches;
    var k: nat :| k < |g.edges[tid]| && g.edges[tid][k] == e;
    SimpleSnoc(g, root, walk, k);
    PathSnoc(Labels(g, root, walk), component);
    longer := walk + [k];
    RecordedIff(g, root, target, path + "/" + component);
  }

  lemma NoStep(g: Graph, root: TypeId)
    requires g.Valid() && root < |g.edges|
    ensures Simple(g, root, []) && EndIsType(g, root, []) && End(g, root, []) == root
    ensures Visits(g, root, []) == [root] && Labels(g, root, []) == [] && PathString([]) == ""
    ensures (root, "") in Gathered(g, root, [], [])
  {
    hide Gathered;
    assert Reaches(g, root, [], root, "");
    RecordedIff(g, root, root, "");
  }

  /** The root is recorded with the empty path, and everything it leads to with the one component. */
  lemma FirstSteps(reg: Registry, aggregates: seq<(TypeId, TypeId)>, g: Graph, root: TypeId)
    requires ValidAggregates(reg, aggregates) && g == GraphOf(reg, aggregates) && g.Valid() && root < |g.edges|
    ensures (root, "") in Gathered(g, root, [], [])
    ensures forall o, c, t :: LeadsTo(reg, aggregates, root, o, c, t) && t != root ==>
              (t, "/" + c) in Gathered(g, root, [], [])
  {
    NoStep(g, root);
    hide GraphOf, LeadsTo, Gathered, Simple, Visits, Labels, PathString;
    forall o, c: string, t: TypeId
      | LeadsTo(reg, aggregates, root, o, c, t) && t != root
      ensures (t, "/" + c) in Gathered(g, root, [], [])
    {
      var longer := PathGrows(reg, aggregates, g, root, [], "", o, c, t);
      assert "" + "/" + c == "/" + c;
    }
  }

  /** Every other recorded path comes from a shorter one in this way. */
  lemma PathsComeFrom(reg: Registry, aggregates: seq<(TypeId, TypeId)>, g: Graph, root: TypeId, target: TypeId,
                      path: string) returns (walk: seq<nat>, o: Origin, component: string)
    requires ValidAggregates(reg, aggregates) && g == GraphOf(reg, aggregates) && g.Valid() && root < |g.edges|
    requires (target, path) in Gathered(g, root, [], []) && (target, path) != (root, "")
    ensures Simple(g, root, walk) && EndIsType(g, root, walk) && target !in Visits(g, root, walk)
    ensures LeadsTo(reg, aggregates, End(g, root, walk), o, component, target)
    ensures path == PathString(Labels(g, root, walk)) + "/" + component
  {
    RecordedIff(g, root, target, path);
    hide Gathered;
    var w :| Reaches(g, root, w, target, path);
    assert w != [];
    var e := SimpleInit(g, root, w);
    walk, component := w[..|w| - 1], e.component;
    var tid := End(g, root, walk);
    assert g.edges[tid] == EdgesOf(reg, aggregates, tid);
    hide EdgesOf, GraphOf, LeadsTo, Simple;
    EdgeIff(reg, aggregates, tid, e);
    o :| LeadsTo(reg, aggregates, tid, o, e.component, e.target);
  }

  /** The paths recorded for one type. */
  function PathsOf(output: seq<(TypeId, string)>, tid: TypeId): seq<string> {
    if output == [] then []
    else
      var n := |output| - 1;
      PathsOf(output[..n], tid) + if output[n].0 == tid then [output[n].1] else []
  }

  lemma {:induction false} PathsOfIff(output: seq<(TypeId, string)>, tid: TypeId, path: string)
    ensures path in PathsOf(output, tid) <==> (tid, path) in output
    decreases |output|
  {
    if output != [] {
      var n := |output| - 1;
      PathsOfIff(output[..n], tid, path);
      assert output == output[..n] + [output[n]];
    }
  }

  /** The paths are those of the type's entries, each once and in the order of the entries. */
  predicate Selects(output: seq<(TypeId, string)>, tid: TypeId, paths: seq<string>, at: seq<nat>) {
    && |at| == |paths|
    && (forall k :: 0 <= k < |at| ==> at[k] < |output| && output[at[k]] == (tid, paths[k]))
    && (forall j, k :: 0 <= j < k < |at| ==> at[j] < at[k])
    && (forall i :: 0 <= i < |output| && output[i].0 == tid ==> i in at)
  }

  lemma {:induction false} PathsOfInOrder(output: seq<(TypeId, string)>, tid: TypeId) returns (at: seq<nat>)
    ensures Selects(output, tid, PathsOf(output, tid), at)
    decreases |output|
  {
    if output == [] {
      at := [];
    } else {
      var n := |output| - 1;
      var before := PathsOfInOrder(output[..n], tid);
      at := if output[n].0 == tid then before + [n] else before;
      var paths := PathsOf(output[..n], tid);
      assert PathsOf(output, tid) == paths + if output[n].0 == tid then [output[n].1] else [];
      hide PathsOf;
      if output[n].0 == tid {
        SelectsMore(output, n, tid, paths, before);
      } else {
        SelectsSame(output, n, tid, paths, before);
      }
    }
  }

  lemma SelectsMore(output: seq<(TypeId, string)>, n: nat, tid: TypeId, paths: seq<string>, at: seq<nat>)
    requires |output| == n + 1 && output[n].0 == tid && Selects(output[..n], tid, paths, at)
    ensures Selects(output, tid, paths + [output[n].1], at + [n])
  {
    forall k | 0 <= k < |at| ensures (at + [n])[k] < n && output[at[k]] == (tid, paths[k]) {
      assert output[..n][at[k]] == output[at[k]];
    }
    forall i | 0 <= i < n && output[i].0 == tid ensures i in at + [n] {
      assert output[..n][i] == output[i] && i in at;
    }
  }

  lemma SelectsSame(output: seq<(TypeId, string)>, n: nat, tid: TypeId, paths: seq<string>, at: seq<nat>)
    requires |output| == n + 1 && output[n].0 != tid && Selects(output[..n], tid, paths, at)
    ensures Selects(output, tid, paths + [], at)
  {
    forall k | 0 <= k < |at| ensures at[k] < n && output[at[k]] == (tid, paths[k]) {
      assert output[..n][at[k]] == output[at[k]];
    }
    forall i | 0 <= i < n && output[i].0 == tid ensures i in at {
      assert output[..n][i] == output[i];
    }
    assert paths + [] == paths;
  }

  /** After `Gather` for each of the roots on a fresh object, `Get(tid)` returns exactly the label paths
      of the node-simple walks from one of them that end at `tid`. */
  lemma GetExact(reg: Registry, aggregates: seq<(TypeId, TypeId)>, g: Graph, roots: seq<TypeId>, tid: TypeId,
                 path: string)
    requires ValidAggregates(reg, aggregates) && g == GraphOf(reg, aggregates) && g.Valid() && Roots(g, roots)
    ensures path in PathsOf(GatheredFrom(g, roots), tid) <==>
            exists r: nat, walk :: ReachesFrom(g, roots, r, walk, tid, path)
  {
    hide GatheredFrom, Reaches;
    PathsOfIff(GatheredFrom(g, roots), tid, path);
    RecordedFromIff(g, roots, tid, path);
  }

  // ----- what a working Uniquefy would have removed

  lemma {:induction false} AggregatePrefix(reg: Registry, tid: TypeId, aggregates: seq<(TypeId, TypeId)>, i: nat, j: nat)
    requires ValidAggregates(reg, aggregates) && i <= j <= |aggregates|
    ensures AggregateEdges(reg, tid, aggregates[..i]) <= AggregateEdges(reg, tid, aggregates[..j])
    decreases j
  {
    hide AggregateEdges, AggregateEdge;
    if i < j {
      AggregatePrefix(reg, tid, aggregates, i, j - 1);
      AggregateSnoc(reg, tid, aggregates, j - 1);
    }
  }

  /** The edge of aggregation `i` stands behind those of the aggregations before it. */
  lemma AggregateEdgeAt(reg: Registry, tid: TypeId, aggregates: seq<(TypeId, TypeId)>, i: nat, e: Edge)
    requires ValidAggregates(reg, aggregates) && i < |aggregates|
    requires AggregateEdge(reg, tid, aggregates[i]) == [e]
    ensures AggregateEdges(reg, tid, aggregates[..i]) + [e] <= AggregateEdges(reg, tid, aggregates)
  {
    hide AggregateEdges, AggregateEdge;
    AggregateSnoc(reg, tid, aggregates, i);
    AggregatePrefix(reg, tid, aggregates, i + 1, |aggregates|);
    assert aggregates[..|aggregates|] == aggregates;
  }

  /** The edges of either end `a` contain the aggregation at two places. */
  lemma RepeatedEdge(reg: Registry, aggregates: seq<(TypeId, TypeId)>, a: TypeId, i: nat, j: nat, e: Edge)
    returns (v: nat, w: nat)
    requires ValidAggregates(reg, aggregates) && i < j < |aggregates| && aggregates[i] == aggregates[j]
    requires a < |reg.types| && AggregateEdge(reg, a, aggregates[i]) == [e]
    ensures v < w < |EdgesOf(reg, aggregates, a)|
    ensures EdgesOf(reg, aggregates, a)[v] == e == EdgesOf(reg, aggregates, a)[w]
  {
    hide AggregateEdges, AttributeEdges, ChildEdges, AggregateEdge;
    AggregateEdgeAt(reg, a, aggregates, i, e);
    AggregateEdgeAt(reg, a, aggregates, j, e);
    AggregateSnoc(reg, a, aggregates, i);
    AggregatePrefix(reg, a, aggregates, i + 1, j);
    var skip := AttributeEdges(reg, reg.types[a].attributes) + ChildEdges(reg, a, |reg.types|);
    v := |skip| + |AggregateEdges(reg, a, aggregates[..i])|;
    w := |skip| + |AggregateEdges(reg, a, aggregates[..j])|;
  }

  /** The aggregation leads from `a` to `b`. */
  predicate Joins(pair: (TypeId, TypeId), a: TypeId, b: TypeId) {
    a != b && (pair == (a, b) || pair == (b, a))
  }

  /** Recording the same aggregation twice, as `GetTypicalAggregations` does for the node and its ICMP
      protocol, makes `Gather` leave a repeated entry in `m_output`, whatever the root, as soon as the
      search comes to one end of the aggregation without having visited the other. */
  lemma RepeatedAggregationRepeatsOutput(reg: Registry, aggregates: seq<(TypeId, TypeId)>, g: Graph, i: nat, j: nat,
                                         root: TypeId, walk: seq<nat>, b: TypeId)
    requires ValidAggregates(reg, aggregates) && g == GraphOf(reg, aggregates) && g.Valid()
    requires i < j < |aggregates| && aggregates[i] == aggregates[j]
    requires root < |g.edges| && Simple(g, root, walk) && b !in Visits(g, root, walk)
    requires Joins(aggregates[i], End(g, root, walk), b)
    ensures !Distinct(Gathered(g, root, [], []))
  {
    EndIsVisited(g, root, walk);
    hide Simple, Visits, Gathered, GraphOf;
    var v, w := ParallelEdges(reg, aggregates, g, i, j, End(g, root, walk), b);
    ParallelEdgesRepeat(g, root, walk, v, w);
  }

  lemma ParallelEdges(reg: Registry, aggregates: seq<(TypeId, TypeId)>, g: Graph, i: nat, j: nat, a: TypeId, b: TypeId)
    returns (v: nat, w: nat)
    requires ValidAggregates(reg, aggregates) && g == GraphOf(reg, aggregates) && a < |g.edges|
    requires i < j < |aggregates| && aggregates[i] == aggregates[j] && Joins(aggregates[i], a, b)
    ensures v < w < |g.edges[a]| && g.edges[a][v] == g.edges[a][w] && g.edges[a][v].target == b
  {
    hide EdgesOf;
    var e := AggregateEdge(reg, a, aggregates[i])[0];
    assert AggregateEdge(reg, a, aggregates[i]) == [e] && e.target == b;
    v, w := RepeatedEdge(reg, aggregates, a, i, j, e);
  }

  /** Two equal edges to a type not visited give two walks that look the same. */
  lemma ParallelEdgesRepeat(g: Graph, root: TypeId, walk: seq<nat>, v: nat, w: nat)
    requires g.Valid() && root < |g.edges| && Simple(g, root, walk) && EndIsType(g, root, walk)
    requires v < w < |g.edges[End(g, root, walk)]|
    requires g.edges[End(g, root, walk)][v] == g.edges[End(g, root, walk)][w]
    requires g.edges[End(g, root, walk)][v].target !in Visits(g, root, walk)
    ensures !Distinct(Gathered(g, root, [], []))
  {
    SimpleSnoc(g, root, walk, v);
    SimpleSnoc(g, root, walk, w);
    assert (walk + [v])[|walk|] != (walk + [w])[|walk|];
    hide Simple, Visits, Labels, Reaches, Gathered, End;
    RepeatsIff(g, root);
  }

  /** The repetition stays whatever else is gathered. */
  lemma RepetitionStays(g: Graph, roots: seq<TypeId>, r: nat)
    requires g.Valid() && Roots(g, roots) && r < |roots| && !Distinct(Gathered(g, roots[r], [], []))
    ensures !Distinct(GatheredFrom(g, roots))
  {
    hide Gathered, GatheredFrom, Reaches;
    RepeatsIff(g, roots[r]);
    RepeatsFromIff(g, roots);
    var v, w, t, path :| Reaches(g, roots[r], v, t, path) && Reaches(g, roots[r], w, t, path) && v != w;
    assert ReachesFrom(g, roots, r, v, t, path) && ReachesFrom(g, roots, r, w, t, path);
  }

  class StaticInformation {
    const reg: Registry
    var m_output: seq<(TypeId, string)>
    var m_currentPath: seq<string>
    var m_alreadyProcessed: seq<TypeId>
    var m_aggregates: seq<(TypeId, TypeId)>

    constructor (reg: Registry, aggregates: seq<(TypeId, TypeId)>)
      requires reg.Valid() && ValidAggregates(reg, aggregates)
      ensures this.reg == reg && m_aggregates == aggregates && Valid()
      ensures m_output == [] && m_currentPath == [] && m_alreadyProcessed == []
    {
      this.reg := reg;
      m_aggregates := aggregates;
      m_output, m_currentPath, m_alreadyProcessed := [], [], [];
    }

    ghost predicate Valid()
      reads this`m_aggregates
    {
      reg.Valid() && ValidAggregates(reg, m_aggregates)
    }

    /** No type is on the path twice, and there is one component for each type on it. */
    ghost predicate OnPath()
      reads this`m_currentPath, this`m_alreadyProcessed
    {
      Distinct(m_alreadyProcessed) && |m_currentPath| == |m_alreadyProcessed|
    }

    /** The graph the object searches. */
    ghost predicate Searches(g: Graph)
      reads this`m_aggregates
    {
      Valid() && g.Valid() && |g.edges| == |reg.types| &&
      forall t: TypeId :: t < |reg.types| ==> HasEdges(reg, m_aggregates, g, t)
    }

    method GetCurrentPath() returns (path: string)
      ensures path == PathString(m_currentPath)
    {
      path := "";
      for i := 0 to |m_currentPath|
        invariant path == PathString(m_currentPath[..i])
      {
        assert m_currentPath[..i + 1][..i] == m_currentPath[..i];
        path := path + "/" + m_currentPath[i];
      }
      assert m_currentPath[..|m_currentPath|] == m_currentPath;
    }

    method RecordOutput(tid: TypeId)
      modifies this`m_output
      ensures m_output == old(m_output) + [(tid, PathString(m_currentPath))]
    {
      var path := GetCurrentPath();
      m_output := m_output + [(tid, path)];
    }

    method HasAlreadyBeenProcessed(tid: TypeId) returns (found: bool)
      ensures found <==> tid in m_alreadyProcessed
    {
      for i := 0 to |m_alreadyProcessed|
        invariant tid !in m_alreadyProcessed[..i]
      {
        if m_alreadyProcessed[i] == tid {
          return true;
        }
      }
      return false;
    }

    method Get(tid: TypeId) returns (paths: seq<string>)
      ensures paths == PathsOf(m_output, tid)
    {
      paths := [];
      for i := 0 to |m_output|
        invariant paths == PathsOf(m_output[..i], tid)
      {
        assert m_output[..i + 1][..i] == m_output[..i];
        if m_output[i].0 == tid {
          paths := paths + [m_output[i].1];
        }
      }
      assert m_output[..|m_output|] == m_output;
    }

    /** Follows one more edge of `tid`: pushes both stacks, searches its target, and pops both. */
    method Descend(tid: TypeId, component: string, target: TypeId, ghost g: Graph, ghost done: seq<Edge>,
                   ghost start: seq<(TypeId, string)>)
      requires Searches(g) && OnPath() && tid < |g.edges| && target < |g.edges| && tid !in m_alreadyProcessed && Targets(g, done)
      requires m_output == start + GatheredAlong(g, done, m_currentPath, m_alreadyProcessed + [tid])
      modifies this`m_output, this`m_currentPath, this`m_alreadyProcessed
      ensures m_currentPath == old(m_currentPath) && m_alreadyProcessed == old(m_alreadyProcessed)
      ensures Targets(g, done + [Edge(component, target)])
      ensures m_output == start + GatheredAlong(g, done + [Edge(component, target)],
                                                m_currentPath, m_alreadyProcessed + [tid])
      decreases Free(g, m_alreadyProcessed), 0
    {
      FreeShrinks(g, m_alreadyProcessed, tid);
      FollowEdge(g, done, Edge(component, target), m_currentPath, m_alreadyProcessed + [tid]);
      DistinctSnoc(m_alreadyProcessed, tid);
      hide GatheredAlong, Gathered, Distinct;
      m_currentPath := m_currentPath + [component];
      m_alreadyProcessed := m_alreadyProcessed + [tid];
      DoGather(target, g);
      m_alreadyProcessed := m_alreadyProcessed[..|m_alreadyProcessed| - 1];
      m_currentPath := m_currentPath[..|m_currentPath| - 1];
    }

    /** First loop of `DoGather`: pointer and container attributes. */
    method GatherAttributes(tid: TypeId, ghost g: Graph, ghost start: seq<(TypeId, string)>) returns (ghost done: seq<Edge>)
      requires Searches(g) && OnPath() && tid < |g.edges| && tid !in m_alreadyProcessed
      requires m_output == start + GatheredAlong(g, [], m_currentPath, m_alreadyProcessed + [tid])
      modifies this`m_output, this`m_currentPath, this`m_alreadyProcessed
      ensures m_currentPath == old(m_currentPath) && m_alreadyProcessed == old(m_alreadyProcessed)
      ensures done == AttributeEdges(reg, reg.types[tid].attributes) && Targets(g, done)
      ensures AllFrom(reg, m_aggregates, tid, Attributes, AttributeEdges(reg, reg.types[tid].attributes))
      ensures m_output == start + GatheredAlong(g, done, m_currentPath, m_alreadyProcessed + [tid])
      decreases Free(g, m_alreadyProcessed), 1
    {
      hide GatheredAlong, Gathered, AllFrom, LeadsTo, In;
      LoopEdges(reg, m_aggregates, tid);
      ghost var path, onPath := m_currentPath, m_alreadyProcessed + [tid];
      done := [];
      var attributes := reg.types[tid].attributes;
      assert AttributeEdges(reg, attributes[..0]) == [];
      hide AttributeEdges;
      for i := 0 to |attributes|
        invariant m_currentPath == path && m_alreadyProcessed == old(m_alreadyProcessed)
        invariant done == AttributeEdges(reg, attributes[..i]) && Targets(g, done)
        invariant m_output == start + GatheredAlong(g, done, path, onPath)
      {
        AttributeSnoc(reg, attributes, i);
        match attributes[i]
        case Plain(_) =>
        case Pointer(name, pointee) =>
          if pointee == reg.objectType {
            continue;
          }
          Descend(tid, name, pointee, g, done, start);
          done := done + [Edge(name, pointee)];
        case Container(name, item) =>
          Descend(tid, name + "/[i]", item, g, done, start);
          done := done + [Edge(name + "/[i]", item)];
      }
      assert attributes[..|attributes|] == attributes;
    }

    /** Second loop of `DoGather`: the registered child types. */
    method GatherChildren(tid: TypeId, ghost g: Graph, ghost before: seq<Edge>, ghost start: seq<(TypeId, string)>)
      returns (ghost done: seq<Edge>)
      requires Searches(g) && OnPath() && tid < |g.edges| && tid !in m_alreadyProcessed && Targets(g, before)
      requires m_output == start + GatheredAlong(g, before, m_currentPath, m_alreadyProcessed + [tid])
      modifies this`m_output, this`m_currentPath, this`m_alreadyProcessed
      ensures m_currentPath == old(m_currentPath) && m_alreadyProcessed == old(m_alreadyProcessed)
      ensures done == before + ChildEdges(reg, tid, |reg.types|) && Targets(g, done)
      ensures AllFrom(reg, m_aggregates, tid, Children, ChildEdges(reg, tid, |reg.types|))
      ensures m_output == start + GatheredAlong(g, done, m_currentPath, m_alreadyProcessed + [tid])
      decreases Free(g, m_alreadyProcessed), 1
    {
      hide GatheredAlong, Gathered, AllFrom, LeadsTo, In;
      LoopEdges(reg, m_aggregates, tid);
      ghost var path, onPath := m_currentPath, m_alreadyProcessed + [tid];
      done := before;
      for j := 0 to |reg.types|
        invariant m_currentPath == path && m_alreadyProcessed == old(m_alreadyProcessed)
        invariant done == before + ChildEdges(reg, tid, j) && Targets(g, done)
        invariant m_output == start + GatheredAlong(g, done, path, onPath)
      {
        if (j, tid) in reg.childOf {
          Descend(tid, "$" + reg.types[j].name, j, g, done, start);
          done := done + [Edge("$" + reg.types[j].name, j)];
        }
      }
    }

    /** Third loop of `DoGather`: the aggregations `tid` takes part in. */
    method GatherAggregates(tid: TypeId, ghost g: Graph, ghost before: seq<Edge>, ghost start: seq<(TypeId, string)>)
      returns (ghost done: seq<Edge>)
      requires Searches(g) && OnPath() && tid < |g.edges| && tid !in m_alreadyProcessed && Targets(g, before)
      requires m_output == start + GatheredAlong(g, before, m_currentPath, m_alreadyProcessed + [tid])
      modifies this`m_output, this`m_currentPath, this`m_alreadyProcessed
      ensures m_currentPath == old(m_currentPath) && m_alreadyProcessed == old(m_alreadyProcessed)
      ensures done == before + AggregateEdges(reg, tid, m_aggregates) && Targets(g, done)
      ensures AllFrom(reg, m_aggregates, tid, Aggregations, AggregateEdges(reg, tid, m_aggregates))
      ensures m_output == start + GatheredAlong(g, done, m_currentPath, m_alreadyProcessed + [tid])
      decreases Free(g, m_alreadyProcessed), 1
    {
      hide GatheredAlong, Gathered, AllFrom, LeadsTo, In;
      ghost var path, onPath := m_currentPath, m_alreadyProcessed + [tid];
      done := before;
      assert AggregateEdges(reg, tid, m_aggregates[..0]) == [];
      hide AggregateEdges;
      for i := 0 to |m_aggregates|
        invariant m_currentPath == path && m_alreadyProcessed == old(m_alreadyProcessed)
        invariant done == before + AggregateEdges(reg, tid, m_aggregates[..i]) && Targets(g, done)
        invariant m_output == start + GatheredAlong(g, done, path, onPath)
      {
        AggregateSnoc(reg, tid, m_aggregates, i);
        var item := m_aggregates[i];
        if item.0 == tid || item.1 == tid {
          var other := 0;
          if item.0 == tid {
            other := item.1;
          }
          if item.1 == tid {
            other := item.0;
          }
          Descend(tid, "$" + reg.types[other].name, other, g, done, start);
          done := done + [Edge("$" + reg.types[other].name, other)];
        }
      }
      assert m_aggregates[..|m_aggregates|] == m_aggregates;
      LoopEdges(reg, m_aggregates, tid);
    }

    method DoGather(tid: TypeId, ghost g: Graph)
      requires Searches(g) && OnPath() && tid < |g.edges|
      modifies this`m_output, this`m_currentPath, this`m_alreadyProcessed
      ensures m_currentPath == old(m_currentPath) && m_alreadyProcessed == old(m_alreadyProcessed)
      ensures m_output == old(m_output) + Gathered(g, tid, m_currentPath, m_alreadyProcessed)
      decreases Free(g, m_alreadyProcessed), 2
    {
      var processed := HasAlreadyBeenProcessed(tid);
      if processed {
        return;
      }
      hide GatheredAlong, Gathered;
      VisitType(g, tid, m_currentPath, m_alreadyProcessed, m_output);
      RecordOutput(tid);
      ghost var start := m_output;
      ghost var done := GatherAttributes(tid, g, start);
      done := GatherChildren(tid, g, done, start);
      done := GatherAggregates(tid, g, done, start);
      assert HasEdges(reg, m_aggregates, g, tid);
      assert done == g.edges[tid];
    }

    /** `Uniquefy` works on a copy of `m_output`, so all that `Gather` leaves behind is what the search
        appended, in the order of the search. */
    method Gather(tid: TypeId)
      requires Valid() && tid < |reg.types| && m_currentPath == [] && m_alreadyProcessed == []
      modifies this`m_output, this`m_currentPath, this`m_alreadyProcessed
      ensures Valid() && m_currentPath == [] && m_alreadyProcessed == []
      ensures GraphOf(reg, m_aggregates).Valid()
      ensures m_output == old(m_output) + Gathered(GraphOf(reg, m_aggregates), tid, [], [])
      ensures (tid, "") in m_output[|old(m_output)|..]
      ensures forall o, c, t :: LeadsTo(reg, m_aggregates, tid, o, c, t) && t != tid ==>
                (t, "/" + c) in m_output[|old(m_output)|..]
    {
      GraphIsValid(reg, m_aggregates);
      FirstSteps(reg, m_aggregates, GraphOf(reg, m_aggregates), tid);
      assert forall t: TypeId :: t < |reg.types| ==> HasEdges(reg, m_aggregates, GraphOf(reg, m_aggregates), t);
      DoGather(tid, GraphOf(reg, m_aggregates));
    }

    /** The loop over the root namespace objects. */
    method GatherRoots(roots: seq<TypeId>)
      requires Valid() && m_currentPath == [] && m_alreadyProcessed == [] && m_output == []
      requires forall r :: 0 <= r < |roots| ==> roots[r] < |reg.types|
      modifies this`m_output, this`m_currentPath, this`m_alreadyProcessed
      ensures GraphOf(reg, m_aggregates).Valid()
      ensures m_output == GatheredFrom(GraphOf(reg, m_aggregates), roots)
    {
      GraphIsValid(reg, m_aggregates);
      ghost var g := GraphOf(reg, m_aggregates);
      assert roots[..0] == [];
      hide Gathered;
      for i := 0 to |roots|
        invariant Valid() && m_currentPath == [] && m_alreadyProcessed == []
        invariant m_output == GatheredFrom(g, roots[..i])
      {
        GatherOneMore(g, roots, i);
        Gather(roots[i]);
      }
      assert roots[..|roots|] == roots;
    }
  }
}
