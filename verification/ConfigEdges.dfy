/** What the search of print-introspected-doxygen.cc follows from a type: its attributes, the registered
    types below it, and the aggregations it takes part in. */
module ConfigEdges {
  import opened Common
  import opened ConfigGraph

  datatype Attribute = Plain(name: string) | Pointer(name: string, pointee: TypeId) | Container(name: string, item: TypeId)

  datatype TypeInfo = TypeInfo(name: string, attributes: seq<Attribute>)

  /** What the TypeId system answers: the registered types, `IsChildOf` and `Object`. */
  datatype Registry = Registry(types: seq<TypeInfo>, childOf: set<(TypeId, TypeId)>, objectType: TypeId)
  {
    predicate Valid() {
      forall t, i :: 0 <= t < |types| && 0 <= i < |types[t].attributes| ==>
        match types[t].attributes[i]
        case Plain(_) => true
        case Pointer(_, pointee) => pointee < |types|
        case Container(_, item) => item < |types|
    }
  }

  predicate ValidAggregates(reg: Registry, aggregates: seq<(TypeId, TypeId)>) {
    forall i :: 0 <= i < |aggregates| ==> aggregates[i].0 < |reg.types| && aggregates[i].1 < |reg.types|
  }

  // ----- the four kinds of edge

  /** A pointer to `Object` is not followed, because anything can be behind it. */
  function AttributeEdge(reg: Registry, a: Attribute): seq<Edge> {
    match a
    case Plain(_) => []
    case Pointer(name, pointee) => if pointee == reg.objectType then [] else [Edge(name, pointee)]
    case Container(name, item) => [Edge(name + "/[i]", item)]
  }

  function AttributeEdges(reg: Registry, attributes: seq<Attribute>): seq<Edge> {
    if attributes == [] then []
    else AttributeEdges(reg, attributes[..|attributes| - 1]) + AttributeEdge(reg, attributes[|attributes| - 1])
  }

  function ChildEdge(reg: Registry, tid: TypeId, child: TypeId): seq<Edge>
    requires child < |reg.types|
  {
    if (child, tid) in reg.childOf then [Edge("$" + reg.types[child].name, child)] else []
  }

  function ChildEdges(reg: Registry, tid: TypeId, n: nat): seq<Edge>
    requires n <= |reg.types|
  {
    if n == 0 then [] else ChildEdges(reg, tid, n - 1) + ChildEdge(reg, tid, n - 1)
  }

  /** An aggregation is followed from either end. */
  function AggregateEdge(reg: Registry, tid: TypeId, pair: (TypeId, TypeId)): seq<Edge>
    requires pair.0 < |reg.types| && pair.1 < |reg.types|
  {
    if pair.1 == tid then [Edge("$" + reg.types[pair.0].name, pair.0)]
    else if pair.0 == tid then [Edge("$" + reg.types[pair.1].name, pair.1)]
    else []
  }

  function AggregateEdges(reg: Registry, tid: TypeId, aggregates: seq<(TypeId, TypeId)>): seq<Edge>
    requires ValidAggregates(reg, aggregates)
  {
    if aggregates == [] then []
    else
      var n := |aggregates| - 1;
      AggregateEdges(reg, tid, aggregates[..n]) + AggregateEdge(reg, tid, aggregates[n])
  }

  function EdgesOf(reg: Registry, aggregates: seq<(TypeId, TypeId)>, tid: TypeId): seq<Edge>
    requires tid < |reg.types| && ValidAggregates(reg, aggregates)
  {
    AttributeEdges(reg, reg.types[tid].attributes) + ChildEdges(reg, tid, |reg.types|)
    + AggregateEdges(reg, tid, aggregates)
  }

  function GraphOf(reg: Registry, aggregates: seq<(TypeId, TypeId)>): Graph
    requires ValidAggregates(reg, aggregates)
  {
    Graph(seq(|reg.types|, tid requires 0 <= tid < |reg.types| => EdgesOf(reg, aggregates, tid)))
  }

  predicate HasEdges(reg: Registry, aggregates: seq<(TypeId, TypeId)>, g: Graph, tid: TypeId)
    requires ValidAggregates(reg, aggregates) && |g.edges| == |reg.types|
  {
    tid < |reg.types| && g.edges[tid] == EdgesOf(reg, aggregates, tid)
  }

  predicate InRegistry(reg: Registry, edges: seq<Edge>) {
    forall k :: 0 <= k < |edges| ==> edges[k].target < |reg.types|
  }

  lemma {:induction false} AttributeTargets(reg: Registry, attributes: seq<Attribute>)
    requires forall i :: 0 <= i < |attributes| ==> InRegistry(reg, AttributeEdge(reg, attributes[i]))
    ensures InRegistry(reg, AttributeEdges(reg, attributes))
    decreases |attributes|
  {
    if attributes != [] {
      AttributeTargets(reg, attributes[..|attributes| - 1]);
    }
  }

  lemma {:induction false} ChildTargets(reg: Registry, tid: TypeId, n: nat)
    requires n <= |reg.types|
    ensures InRegistry(reg, ChildEdges(reg, tid, n))
    decreases n
  {
    if n > 0 {
      ChildTargets(reg, tid, n - 1);
    }
  }

  lemma {:induction false} AggregateTargets(reg: Registry, tid: TypeId, aggregates: seq<(TypeId, TypeId)>)
    requires ValidAggregates(reg, aggregates)
    ensures InRegistry(reg, AggregateEdges(reg, tid, aggregates))
    decreases |aggregates|
  {
    if aggregates != [] {
      AggregateTargets(reg, tid, aggregates[..|aggregates| - 1]);
    }
  }

  lemma GraphIsValid(reg: Registry, aggregates: seq<(TypeId, TypeId)>)
    requires reg.Valid() && ValidAggregates(reg, aggregates)
    ensures GraphOf(reg, aggregates).Valid()
  {
    forall t | 0 <= t < |reg.types| ensures InRegistry(reg, EdgesOf(reg, aggregates, t)) {
      AttributeTargets(reg, reg.types[t].attributes);
      ChildTargets(reg, t, |reg.types|);
      AggregateTargets(reg, t, aggregates);
    }
  }

  lemma AttributeSnoc(reg: Registry, attributes: seq<Attribute>, i: nat)
    requires i < |attributes|
    ensures AttributeEdges(reg, attributes[..i + 1])
         == AttributeEdges(reg, attributes[..i]) + AttributeEdge(reg, attributes[i])
  {
    assert attributes[..i + 1][..i] == attributes[..i];
  }

  lemma AggregateSnoc(reg: Registry, tid: TypeId, aggregates: seq<(TypeId, TypeId)>, i: nat)
    requires ValidAggregates(reg, aggregates) && i < |aggregates|
    ensures AggregateEdges(reg, tid, aggregates[..i + 1])
         == AggregateEdges(reg, tid, aggregates[..i]) + AggregateEdge(reg, tid, aggregates[i])
  {
    assert aggregates[..i + 1][..i] == aggregates[..i];
  }

  // ----- the edges, from the registry alone

  /** Where an edge of a type comes from, in the order in which the three loops come to it. */
  datatype Origin = OfAttribute(i: nat) | OfChild(child: TypeId) | OfAggregate(i: nat)

  predicate Earlier(a: Origin, b: Origin) {
    match (a, b)
    case (OfAttribute(i), OfAttribute(j)) => i < j
    case (OfChild(i), OfChild(j)) => i < j
    case (OfAggregate(i), OfAggregate(j)) => i < j
    case (OfAttribute(_), _) => true
    case (OfChild(_), OfAggregate(_)) => true
    case _ => false
  }

  /** The other end of an aggregation; for one of a type with itself the loop picks the type. */
  predicate OtherEnd(pair: (TypeId, TypeId), tid: TypeId, other: TypeId) {
    pair == (other, tid) || (pair == (tid, other) && other != tid)
  }

  /** What each origin leads to: a pointer to anything but an object, the items of a container, a child
      type, or the other end of an aggregation. */
  predicate LeadsTo(reg: Registry, aggregates: seq<(TypeId, TypeId)>, tid: TypeId, o: Origin, component: string,
                    target: TypeId)
    requires tid < |reg.types|
  {
    match o
    case OfAttribute(i) =>
      i < |reg.types[tid].attributes| &&
      ((reg.types[tid].attributes[i] == Pointer(component, target) && target != reg.objectType) ||
       (reg.types[tid].attributes[i].Container? && reg.types[tid].attributes[i].item == target &&
        component == reg.types[tid].attributes[i].name + "/[i]"))
    case OfChild(child) =>
      child == target < |reg.types| && (child, tid) in reg.childOf && component == "$" + reg.types[child].name
    case OfAggregate(i) =>
      i < |aggregates| && target < |reg.types| && OtherEnd(aggregates[i], tid, target) &&
      component == "$" + reg.types[target].name
  }

  /** The edges come one from each origin that leads somewhere, in the order of the origins. */
  ghost predicate From(reg: Registry, aggregates: seq<(TypeId, TypeId)>, tid: TypeId, origins: seq<Origin>,
                       edges: seq<Edge>)
    requires tid < |reg.types|
  {
    && |origins| == |edges|
    && (forall k :: 0 <= k < |edges| ==> LeadsTo(reg, aggregates, tid, origins[k], edges[k].component, edges[k].target))
    && (forall j, k :: 0 <= j < k < |origins| ==> Earlier(origins[j], origins[k]))
  }

  lemma FromConcat(reg: Registry, aggregates: seq<(TypeId, TypeId)>, tid: TypeId, origins1: seq<Origin>,
                   edges1: seq<Edge>, origins2: seq<Origin>, edges2: seq<Edge>)
    requires tid < |reg.types| && From(reg, aggregates, tid, origins1, edges1)
    requires From(reg, aggregates, tid, origins2, edges2)
    requires forall a, b :: a in origins1 && b in origins2 ==> Earlier(a, b)
    ensures From(reg, aggregates, tid, origins1 + origins2, edges1 + edges2)
  {
    hide LeadsTo, Earlier;
    var origins := origins1 + origins2;
    forall j, k | 0 <= j < k < |origins| ensures Earlier(origins[j], origins[k]) {
      if j < |origins1| <= k {
        assert origins[j] in origins1 && origins[k] in origins2;
      }
    }
  }

  /** If the origin leads anywhere, it is among these. */
  ghost predicate Complete(reg: Registry, aggregates: seq<(TypeId, TypeId)>, tid: TypeId, o: Origin,
                           origins: seq<Origin>)
    requires tid < |reg.types|
  {
    (exists c, t :: LeadsTo(reg, aggregates, tid, o, c, t)) ==> o in origins
  }

  /** An origin of the same loop, before this one. */
  predicate Below(p: Origin, o: Origin) {
    match (p, o)
    case (OfAttribute(i), OfAttribute(n)) => i < n
    case (OfChild(i), OfChild(n)) => i < n
    case (OfAggregate(i), OfAggregate(n)) => i < n
    case _ => false
  }

  /** These are the edges and their origins for the part of a loop that is before `o`. */
  ghost predicate UpTo(reg: Registry, aggregates: seq<(TypeId, TypeId)>, tid: TypeId, o: Origin,
                       origins: seq<Origin>, edges: seq<Edge>)
    requires tid < |reg.types|
  {
    && From(reg, aggregates, tid, origins, edges) && (forall p :: p in origins ==> Below(p, o))
    && (forall p :: Below(p, o) ==> Complete(reg, aggregates, tid, p, origins))
  }

  /** The origin leads to this edge, or to nothing if there is none. */
  ghost predicate OneStep(reg: Registry, aggregates: seq<(TypeId, TypeId)>, tid: TypeId, o: Origin, more: seq<Edge>)
    requires tid < |reg.types|
  {
    && |more| <= 1 && (more == [] ==> forall c, t :: !LeadsTo(reg, aggregates, tid, o, c, t))
    && (more != [] ==> LeadsTo(reg, aggregates, tid, o, more[0].component, more[0].target))
  }

  /** One origin more, behind the others. */
  lemma Grow(reg: Registry, aggregates: seq<(TypeId, TypeId)>, tid: TypeId, o: Origin, next: Origin,
             before: seq<Origin>, edges: seq<Edge>, more: seq<Edge>) returns (origins: seq<Origin>)
    requires tid < |reg.types| && UpTo(reg, aggregates, tid, o, before, edges)
    requires OneStep(reg, aggregates, tid, o, more) && forall p :: Below(p, next) <==> Below(p, o) || p == o
    ensures UpTo(reg, aggregates, tid, next, origins, edges + more)
  {
    var last := if more == [] then [] else [o];
    origins := before + last;
    forall p | Below(p, o) ensures Earlier(p, o) {
    }
    hide LeadsTo, Earlier, Below;
    FromConcat(reg, aggregates, tid, before, edges, last, more);
    hide From;
    forall p | Below(p, next) ensures Complete(reg, aggregates, tid, p, origins) {
      assert p == o || Complete(reg, aggregates, tid, p, before);
    }
  }

  /** One pass of the attribute loop adds at most one edge. */
  lemma AttributeStep(reg: Registry, aggregates: seq<(TypeId, TypeId)>, tid: TypeId, i: nat)
    requires tid < |reg.types| && i < |reg.types[tid].attributes|
    ensures OneStep(reg, aggregates, tid, OfAttribute(i), AttributeEdge(reg, reg.types[tid].attributes[i]))
  {
  }

  lemma NextAttribute(i: nat)
    ensures forall p :: Below(p, OfAttribute(i + 1)) <==> Below(p, OfAttribute(i)) || p == OfAttribute(i)
  {
  }

  lemma {:induction false} AttributeOrigins(reg: Registry, aggregates: seq<(TypeId, TypeId)>, tid: TypeId, n: nat)
    returns (origins: seq<Origin>)
    requires tid < |reg.types| && n <= |reg.types[tid].attributes|
    ensures UpTo(reg, aggregates, tid, OfAttribute(n), origins, AttributeEdges(reg, reg.types[tid].attributes[..n]))
    decreases n
  {
    if n == 0 {
      origins := [];
      assert reg.types[tid].attributes[..0] == [];
    } else {
      hide AttributeEdge, AttributeEdges, UpTo, OneStep, LeadsTo, Below;
      var before := AttributeOrigins(reg, aggregates, tid, n - 1);
      AttributeStep(reg, aggregates, tid, n - 1);
      NextAttribute(n - 1);
      AttributeSnoc(reg, reg.types[tid].attributes, n - 1);
      origins := Grow(reg, aggregates, tid, OfAttribute(n - 1), OfAttribute(n), before,
                      AttributeEdges(reg, reg.types[tid].attributes[..n - 1]),
                      AttributeEdge(reg, reg.types[tid].attributes[n - 1]));
    }
  }

  /** One pass of the child loop adds at most one edge. */
  lemma ChildStep(reg: Registry, aggregates: seq<(TypeId, TypeId)>, tid: TypeId, i: nat)
    requires tid < |reg.types| && i < |reg.types|
    ensures OneStep(reg, aggregates, tid, OfChild(i), ChildEdge(reg, tid, i))
  {
  }

  lemma {:induction false} ChildOrigins(reg: Registry, aggregates: seq<(TypeId, TypeId)>, tid: TypeId, n: nat)
    returns (origins: seq<Origin>)
    requires tid < |reg.types| && n <= |reg.types|
    ensures UpTo(reg, aggregates, tid, OfChild(n), origins, ChildEdges(reg, tid, n))
    decreases n
  {
    if n == 0 {
      origins := [];
    } else {
      hide ChildEdge, UpTo, OneStep, LeadsTo;
      var before := ChildOrigins(reg, aggregates, tid, n - 1);
      ChildStep(reg, aggregates, tid, n - 1);
      origins := Grow(reg, aggregates, tid, OfChild(n - 1), OfChild(n), before, ChildEdges(reg, tid, n - 1),
                      ChildEdge(reg, tid, n - 1));
    }
  }

  /** One pass of the aggregation loop adds at most one edge. */
  lemma AggregateStep(reg: Registry, aggregates: seq<(TypeId, TypeId)>, tid: TypeId, i: nat)
    requires tid < |reg.types| && i < |aggregates| && ValidAggregates(reg, aggregates)
    ensures OneStep(reg, aggregates, tid, OfAggregate(i), AggregateEdge(reg, tid, aggregates[i]))
  {
  }

  lemma ValidPrefix(reg: Registry, aggregates: seq<(TypeId, TypeId)>, n: nat)
    requires ValidAggregates(reg, aggregates) && n <= |aggregates|
    ensures ValidAggregates(reg, aggregates[..n])
  {
  }

  lemma NextAggregate(i: nat)
    ensures forall p :: Below(p, OfAggregate(i + 1)) <==> Below(p, OfAggregate(i)) || p == OfAggregate(i)
  {
  }

  lemma {:induction false} AggregateOrigins(reg: Registry, aggregates: seq<(TypeId, TypeId)>, tid: TypeId, n: nat)
    returns (origins: seq<Origin>)
    requires tid < |reg.types| && n <= |aggregates| && ValidAggregates(reg, aggregates)
    ensures ValidAggregates(reg, aggregates[..n])
    ensures UpTo(reg, aggregates, tid, OfAggregate(n), origins, AggregateEdges(reg, tid, aggregates[..n]))
    decreases n
  {
    ValidPrefix(reg, aggregates, n);
    if n == 0 {
      origins := [];
      assert aggregates[..0] == [];
    } else {
      hide AggregateEdge, AggregateEdges, UpTo, OneStep, LeadsTo, ValidAggregates, Below;
      var before := AggregateOrigins(reg, aggregates, tid, n - 1);
      AggregateStep(reg, aggregates, tid, n - 1);
      AggregateSnoc(reg, tid, aggregates, n - 1);
      NextAggregate(n - 1);
      origins := Grow(reg, aggregates, tid, OfAggregate(n - 1), OfAggregate(n), before,
                      AggregateEdges(reg, tid, aggregates[..n - 1]), AggregateEdge(reg, tid, aggregates[n - 1]));
    }
  }

  /** The edges of a type are exactly what its attributes, the registered types and the aggregations lead
      to, one edge for each of them, in the order of the loops. */
  lemma EdgesFromRegistry(reg: Registry, aggregates: seq<(TypeId, TypeId)>, tid: TypeId) returns (origins: seq<Origin>)
    requires tid < |reg.types| && ValidAggregates(reg, aggregates)
    ensures From(reg, aggregates, tid, origins, EdgesOf(reg, aggregates, tid))
    ensures forall o :: Complete(reg, aggregates, tid, o, origins)
  {
    var n := |reg.types[tid].attributes|;
    assert reg.types[tid].attributes[..n] == reg.types[tid].attributes && aggregates[..|aggregates|] == aggregates;
    hide AttributeEdges, ChildEdges, AggregateEdges, LeadsTo, Complete;
    var a := AttributeOrigins(reg, aggregates, tid, n);
    var b := ChildOrigins(reg, aggregates, tid, |reg.types|);
    var c := AggregateOrigins(reg, aggregates, tid, |aggregates|);
    var x, y := AttributeEdges(reg, reg.types[tid].attributes), ChildEdges(reg, tid, |reg.types|);
    hide From;
    FromConcat(reg, aggregates, tid, a, x, b, y);
    FromConcat(reg, aggregates, tid, a + b, x + y, c, AggregateEdges(reg, tid, aggregates));
    origins := a + b + c;
    forall o ensures Complete(reg, aggregates, tid, o, origins) {
      AllComplete(reg, aggregates, tid, a, b, c, o);
    }
  }

  lemma AllComplete(reg: Registry, aggregates: seq<(TypeId, TypeId)>, tid: TypeId, a: seq<Origin>, b: seq<Origin>,
                    c: seq<Origin>, o: Origin)
    requires tid < |reg.types|
    requires o.OfAttribute? && o.i < |reg.types[tid].attributes| ==> Complete(reg, aggregates, tid, o, a)
    requires o.OfChild? && o.child < |reg.types| ==> Complete(reg, aggregates, tid, o, b)
    requires o.OfAggregate? && o.i < |aggregates| ==> Complete(reg, aggregates, tid, o, c)
    ensures Complete(reg, aggregates, tid, o, a + b + c)
  {
  }

  lemma OneTarget(reg: Registry, aggregates: seq<(TypeId, TypeId)>, tid: TypeId, o: Origin, e: Edge, f: Edge)
    requires tid < |reg.types|
    requires LeadsTo(reg, aggregates, tid, o, e.component, e.target)
    requires LeadsTo(reg, aggregates, tid, o, f.component, f.target)
    ensures e == f
  {
  }

  /** An edge is there exactly when an attribute, a child type or an aggregation leads to its target. */
  lemma EdgeIff(reg: Registry, aggregates: seq<(TypeId, TypeId)>, tid: TypeId, e: Edge)
    requires tid < |reg.types| && ValidAggregates(reg, aggregates)
    ensures e in EdgesOf(reg, aggregates, tid) <==>
            exists o :: LeadsTo(reg, aggregates, tid, o, e.component, e.target)
  {
    var origins := EdgesFromRegistry(reg, aggregates, tid);
    var edges := EdgesOf(reg, aggregates, tid);
    hide EdgesOf, LeadsTo;
    if e in edges {
      var k :| 0 <= k < |edges| && edges[k] == e;
      assert LeadsTo(reg, aggregates, tid, origins[k], e.component, e.target);
    }
    if o :| LeadsTo(reg, aggregates, tid, o, e.component, e.target) {
      assert Complete(reg, aggregates, tid, o, origins);
      var k :| 0 <= k < |origins| && origins[k] == o;
      OneTarget(reg, aggregates, tid, o, e, edges[k]);
    }
  }

  datatype Loop = Attributes | Children | Aggregations

  predicate In(o: Origin, loop: Loop) {
    match loop
    case Attributes => o.OfAttribute?
    case Children => o.OfChild?
    case Aggregations => o.OfAggregate?
  }

  /** The edges are exactly those that the origins of one loop lead to. */
  ghost predicate AllFrom(reg: Registry, aggregates: seq<(TypeId, TypeId)>, tid: TypeId, loop: Loop, edges: seq<Edge>)
    requires tid < |reg.types|
  {
    forall e :: e in edges <==> exists o :: In(o, loop) && LeadsTo(reg, aggregates, tid, o, e.component, e.target)
  }

  /** The loops one by one. */
  lemma LoopEdges(reg: Registry, aggregates: seq<(TypeId, TypeId)>, tid: TypeId)
    requires tid < |reg.types| && ValidAggregates(reg, aggregates)
    ensures AllFrom(reg, aggregates, tid, Attributes, AttributeEdges(reg, reg.types[tid].attributes))
    ensures AllFrom(reg, aggregates, tid, Children, ChildEdges(reg, tid, |reg.types|))
    ensures AllFrom(reg, aggregates, tid, Aggregations, AggregateEdges(reg, tid, aggregates))
  {
    var n := |reg.types[tid].attributes|;
    assert reg.types[tid].attributes[..n] == reg.types[tid].attributes && aggregates[..|aggregates|] == aggregates;
    hide AttributeEdges, ChildEdges, AggregateEdges, UpTo, LeadsTo, AllFrom;
    var a := AttributeOrigins(reg, aggregates, tid, n);
    OfOneLoop(reg, aggregates, tid, Attributes, a, AttributeEdges(reg, reg.types[tid].attributes));
    var b := ChildOrigins(reg, aggregates, tid, |reg.types|);
    OfOneLoop(reg, aggregates, tid, Children, b, ChildEdges(reg, tid, |reg.types|));
    var c := AggregateOrigins(reg, aggregates, tid, |aggregates|);
    OfOneLoop(reg, aggregates, tid, Aggregations, c, AggregateEdges(reg, tid, aggregates));
  }

  /** Where the loop ends. */
  function Top(reg: Registry, aggregates: seq<(TypeId, TypeId)>, tid: TypeId, loop: Loop): Origin
    requires tid < |reg.types|
  {
    match loop
    case Attributes => OfAttribute(|reg.types[tid].attributes|)
    case Children => OfChild(|reg.types|)
    case Aggregations => OfAggregate(|aggregates|)
  }

  /** Whatever an origin of the loop leads to is met before its end. */
  lemma BelowTop(reg: Registry, aggregates: seq<(TypeId, TypeId)>, tid: TypeId, loop: Loop, o: Origin)
    requires tid < |reg.types|
    ensures Below(o, Top(reg, aggregates, tid, loop)) ==> In(o, loop)
    ensures In(o, loop) && (exists c, t :: LeadsTo(reg, aggregates, tid, o, c, t)) ==>
              Below(o, Top(reg, aggregates, tid, loop))
  {
  }

  lemma OfOneLoop(reg: Registry, aggregates: seq<(TypeId, TypeId)>, tid: TypeId, loop: Loop, origins: seq<Origin>,
                  edges: seq<Edge>)
    requires tid < |reg.types| && UpTo(reg, aggregates, tid, Top(reg, aggregates, tid, loop), origins, edges)
    ensures AllFrom(reg, aggregates, tid, loop, edges)
  {
    hide LeadsTo, Below, In, Top;
    forall e ensures e in edges <==> exists o :: In(o, loop) && LeadsTo(reg, aggregates, tid, o, e.component, e.target) {
      if e in edges {
        var k :| 0 <= k < |edges| && edges[k] == e;
        assert origins[k] in origins;
        BelowTop(reg, aggregates, tid, loop, origins[k]);
      }
      if o :| In(o, loop) && LeadsTo(reg, aggregates, tid, o, e.component, e.target) {
        BelowTop(reg, aggregates, tid, loop, o);
        assert Complete(reg, aggregates, tid, o, origins);
        var k :| 0 <= k < |origins| && origins[k] == o;
        OneTarget(reg, aggregates, tid, o, e, edges[k]);
      }
    }
  }
}
