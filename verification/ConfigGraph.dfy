/** The labelled multigraph that `StaticInformation::DoGather` searches, and what it should find:
    every walk that visits no type twice. */
module ConfigGraph {
  import opened Common

  type TypeId = nat

  datatype Edge = Edge(component: string, target: TypeId)

  /** Node `t` has the ordered edge list `edges[t]`. */
  datatype Graph = Graph(edges: seq<seq<Edge>>)
  {
    predicate Valid() {
      forall t, k :: 0 <= t < |edges| && 0 <= k < |edges[t]| ==> edges[t][k].target < |edges|
    }
  }

  function PathString(path: seq<string>): string {
    if path == [] then "" else PathString(path[..|path| - 1]) + "/" + path[|path| - 1]
  }

  // ----- walks, as the edge indices taken from the start

  predicate IsWalk(g: Graph, from: TypeId, walk: seq<nat>)
    requires g.Valid() && from < |g.edges|
    decreases |walk|
  {
    walk == [] ||
    (walk[0] < |g.edges[from]| && IsWalk(g, g.edges[from][walk[0]].target, walk[1..]))
  }

  /** The types a walk visits, its start included. */
  function Visits(g: Graph, from: TypeId, walk: seq<nat>): seq<TypeId>
    requires g.Valid() && from < |g.edges| && IsWalk(g, from, walk)
    decreases |walk|
  {
    if walk == [] then [from] else [from] + Visits(g, g.edges[from][walk[0]].target, walk[1..])
  }

  function Labels(g: Graph, from: TypeId, walk: seq<nat>): seq<string>
    requires g.Valid() && from < |g.edges| && IsWalk(g, from, walk)
    decreases |walk|
  {
    if walk == [] then []
    else [g.edges[from][walk[0]].component] + Labels(g, g.edges[from][walk[0]].target, walk[1..])
  }

  function End(g: Graph, from: TypeId, walk: seq<nat>): TypeId
    requires g.Valid() && from < |g.edges| && IsWalk(g, from, walk)
    decreases |walk|
  {
    if walk == [] then from else End(g, g.edges[from][walk[0]].target, walk[1..])
  }

  predicate Simple(g: Graph, from: TypeId, walk: seq<nat>)
    requires g.Valid() && from < |g.edges|
  {
    IsWalk(g, from, walk) && Distinct(Visits(g, from, walk))
  }

  /** Preorder: a walk comes before its extensions, and those by an earlier edge come first. */
  predicate Before(a: seq<nat>, b: seq<nat>) {
    b != [] && (a == [] || a[0] < b[0] || (a[0] == b[0] && Before(a[1..], b[1..])))
  }

  predicate Preordered(walks: seq<seq<nat>>) {
    forall i, j :: 0 <= i < j < |walks| ==> Before(walks[i], walks[j])
  }

  // ----- the search

  /** Types that are not on the path: what bounds the recursion. */
  function Free(g: Graph, onPath: seq<TypeId>): nat {
    |set t: TypeId | t < |g.edges| && t !in onPath|
  }

  lemma FreeShrinks(g: Graph, onPath: seq<TypeId>, tid: TypeId)
    requires tid < |g.edges| && tid !in onPath
    ensures Free(g, onPath + [tid]) == Free(g, onPath) - 1
  {
    var before := set t: TypeId | t < |g.edges| && t !in onPath;
    assert (set t: TypeId | t < |g.edges| && t !in onPath + [tid]) == before - {tid};
  }

  predicate Targets(g: Graph, edges: seq<Edge>) {
    forall k :: 0 <= k < |edges| ==> edges[k].target < |g.edges|
  }

  /** The (type, path) pairs a call of `DoGather(tid)` appends. */
  function Gathered(g: Graph, tid: TypeId, path: seq<string>, onPath: seq<TypeId>): seq<(TypeId, string)>
    requires g.Valid() && tid < |g.edges|
    decreases Free(g, onPath), 0
  {
    if tid in onPath then []
    else
      FreeShrinks(g, onPath, tid);
      [(tid, PathString(path))] + GatheredAlong(g, g.edges[tid], path, onPath + [tid])
  }

  /** ... and those appended while it follows a list of edges. */
  function GatheredAlong(g: Graph, edges: seq<Edge>, path: seq<string>, onPath: seq<TypeId>): seq<(TypeId, string)>
    requires g.Valid() && Targets(g, edges)
    decreases Free(g, onPath), |edges|
  {
    if edges == [] then []
    else
      var n := |edges| - 1;
      GatheredAlong(g, edges[..n], path, onPath) + Gathered(g, edges[n].target, path + [edges[n].component], onPath)
  }

  lemma FollowEdge(g: Graph, done: seq<Edge>, e: Edge, path: seq<string>, onPath: seq<TypeId>)
    requires g.Valid() && Targets(g, done) && e.target < |g.edges|
    ensures GatheredAlong(g, done + [e], path, onPath)
         == GatheredAlong(g, done, path, onPath) + Gathered(g, e.target, path + [e.component], onPath)
  {
    assert (done + [e])[..|done|] == done;
  }

  lemma VisitType(g: Graph, tid: TypeId, path: seq<string>, onPath: seq<TypeId>, output: seq<(TypeId, string)>)
    requires g.Valid() && tid < |g.edges| && tid !in onPath
    ensures output + Gathered(g, tid, path, onPath)
         == output + [(tid, PathString(path))] + GatheredAlong(g, g.edges[tid], path, onPath + [tid])
    ensures GatheredAlong(g, [], path, onPath + [tid]) == []
  {
  }

  // ----- the walks behind the search

  function Through(k: nat, walks: seq<seq<nat>>): seq<seq<nat>> {
    seq(|walks|, i requires 0 <= i < |walks| => [k] + walks[i])
  }

  function Walks(g: Graph, tid: TypeId, onPath: seq<TypeId>): seq<seq<nat>>
    requires g.Valid() && tid < |g.edges|
    decreases Free(g, onPath), 0
  {
    if tid in onPath then []
    else
      FreeShrinks(g, onPath, tid);
      [[]] + WalksFrom(g, tid, |g.edges[tid]|, onPath)
  }

  function WalksFrom(g: Graph, tid: TypeId, k: nat, onPath: seq<TypeId>): seq<seq<nat>>
    requires g.Valid() && tid < |g.edges| && k <= |g.edges[tid]|
    decreases Free(g, onPath + [tid]), k
  {
    if k == 0 then []
    else WalksFrom(g, tid, k - 1, onPath) + Through(k - 1, Walks(g, g.edges[tid][k - 1].target, onPath + [tid]))
  }

  /** A walk that repeats no type and avoids the types on the path. */
  predicate Avoiding(g: Graph, tid: TypeId, onPath: seq<TypeId>, walk: seq<nat>)
    requires g.Valid() && tid < |g.edges|
    decreases |walk|
  {
    IsWalk(g, tid, walk) && tid !in onPath &&
    (walk == [] || Avoiding(g, g.edges[tid][walk[0]].target, onPath + [tid], walk[1..]))
  }

  lemma {:induction false} AvoidingIff(g: Graph, tid: TypeId, onPath: seq<TypeId>, walk: seq<nat>)
    requires g.Valid() && tid < |g.edges| && IsWalk(g, tid, walk)
    ensures Avoiding(g, tid, onPath, walk) <==>
            Distinct(Visits(g, tid, walk)) && forall t :: t in Visits(g, tid, walk) ==> t !in onPath
    decreases |walk|
  {
    var v := Visits(g, tid, walk);
    assert v[0] == tid;
    if walk != [] {
      var rest := Visits(g, g.edges[tid][walk[0]].target, walk[1..]);
      assert v == [tid] + rest;
      AvoidingIff(g, g.edges[tid][walk[0]].target, onPath + [tid], walk[1..]);
      assert v[1..] == rest;
      DistinctCons(tid, rest);
    }
  }

  lemma DistinctCons(t: TypeId, rest: seq<TypeId>)
    ensures Distinct([t] + rest) <==> t !in rest && Distinct(rest)
  {
    var v := [t] + rest;
    if Distinct(v) {
      forall i | 0 <= i < |rest| ensures rest[i] != t {
        assert v[0] != v[i + 1];
      }
      forall i, j | 0 <= i < j < |rest| ensures rest[i] != rest[j] {
        assert v[i + 1] != v[j + 1];
      }
    }
  }

  /** The search follows exactly the avoiding walks. */
  lemma {:induction false} WalksComplete(g: Graph, tid: TypeId, onPath: seq<TypeId>, walk: seq<nat>)
    requires g.Valid() && tid < |g.edges|
    ensures walk in Walks(g, tid, onPath) <==> Avoiding(g, tid, onPath, walk)
    decreases Free(g, onPath), 0
  {
    if tid !in onPath {
      FreeShrinks(g, onPath, tid);
      WalksFromComplete(g, tid, |g.edges[tid]|, onPath, walk);
    }
  }

  lemma {:induction false} WalksFromComplete(g: Graph, tid: TypeId, k: nat, onPath: seq<TypeId>, walk: seq<nat>)
    requires g.Valid() && tid < |g.edges| && k <= |g.edges[tid]|
    ensures walk in WalksFrom(g, tid, k, onPath) <==>
            walk != [] && walk[0] < k && Avoiding(g, g.edges[tid][walk[0]].target, onPath + [tid], walk[1..])
    decreases Free(g, onPath + [tid]), k
  {
    if k > 0 {
      WalksFromComplete(g, tid, k - 1, onPath, walk);
      var deeper := Walks(g, g.edges[tid][k - 1].target, onPath + [tid]);
      if walk != [] {
        WalksComplete(g, g.edges[tid][k - 1].target, onPath + [tid], walk[1..]);
        ThroughIff(k - 1, deeper, walk);
      }
    }
  }

  lemma ThroughIff(k: nat, walks: seq<seq<nat>>, walk: seq<nat>)
    requires walk != []
    ensures walk in Through(k, walks) <==> walk[0] == k && walk[1..] in walks
  {
    if walk in Through(k, walks) {
      var i :| 0 <= i < |walks| && Through(k, walks)[i] == walk;
      assert walk[1..] == walks[i];
    }
    if walk[0] == k && walk[1..] in walks {
      var i :| 0 <= i < |walks| && walks[i] == walk[1..];
      assert Through(k, walks)[i] == walk;
    }
  }

  /** The search follows them in preorder, so each once. */
  lemma {:induction false} WalksPreordered(g: Graph, tid: TypeId, onPath: seq<TypeId>)
    requires g.Valid() && tid < |g.edges|
    ensures Preordered(Walks(g, tid, onPath))
    decreases Free(g, onPath), 0
  {
    if tid !in onPath {
      FreeShrinks(g, onPath, tid);
      WalksFromPreordered(g, tid, |g.edges[tid]|, onPath);
    }
  }

  lemma {:induction false} WalksFromPreordered(g: Graph, tid: TypeId, k: nat, onPath: seq<TypeId>)
    requires g.Valid() && tid < |g.edges| && k <= |g.edges[tid]|
    ensures Preordered(WalksFrom(g, tid, k, onPath))
    ensures forall walk :: walk in WalksFrom(g, tid, k, onPath) ==> walk != [] && walk[0] < k
    decreases Free(g, onPath + [tid]), k
  {
    if k > 0 {
      WalksFromPreordered(g, tid, k - 1, onPath);
      var first := WalksFrom(g, tid, k - 1, onPath);
      var deeper := Walks(g, g.edges[tid][k - 1].target, onPath + [tid]);
      WalksPreordered(g, g.edges[tid][k - 1].target, onPath + [tid]);
      ThroughPreordered(k - 1, deeper);
      PreorderedConcat(k - 1, first, Through(k - 1, deeper));
    }
  }

  lemma ThroughPreordered(k: nat, walks: seq<seq<nat>>)
    requires Preordered(walks)
    ensures Preordered(Through(k, walks))
    ensures forall walk :: walk in Through(k, walks) ==> walk != [] && walk[0] == k
  {
    forall i, j | 0 <= i < j < |walks| ensures Before(Through(k, walks)[i], Through(k, walks)[j]) {
      assert Through(k, walks)[i][1..] == walks[i] && Through(k, walks)[j][1..] == walks[j];
    }
  }

  lemma PreorderedConcat(k: nat, first: seq<seq<nat>>, second: seq<seq<nat>>)
    requires Preordered(first) && Preordered(second)
    requires forall walk :: walk in first ==> walk != [] && walk[0] < k
    requires forall walk :: walk in second ==> walk != [] && walk[0] == k
    ensures Preordered(first + second)
  {
    var all := first + second;
    forall i, j | 0 <= i < j < |all| ensures Before(all[i], all[j]) {
      if i < |first| <= j {
        assert all[i] in first && all[j] in second;
      }
    }
  }

  /** The entry a walk stands for. */
  function Entry(g: Graph, tid: TypeId, path: seq<string>, walk: seq<nat>): (TypeId, string)
    requires g.Valid() && tid < |g.edges| && IsWalk(g, tid, walk)
  {
    (End(g, tid, walk), PathString(path + Labels(g, tid, walk)))
  }

  /** Entry `i` is the one of the `i`-th walk. */
  predicate EntriesOf(g: Graph, tid: TypeId, path: seq<string>, walks: seq<seq<nat>>, output: seq<(TypeId, string)>)
    requires g.Valid() && tid < |g.edges|
  {
    |output| == |walks| &&
    forall i :: 0 <= i < |walks| ==> IsWalk(g, tid, walks[i]) && output[i] == Entry(g, tid, path, walks[i])
  }

  /** The search appends the entries of the walks, in their order. */
  lemma {:induction false} GatheredAreWalks(g: Graph, tid: TypeId, path: seq<string>, onPath: seq<TypeId>)
    requires g.Valid() && tid < |g.edges|
    ensures EntriesOf(g, tid, path, Walks(g, tid, onPath), Gathered(g, tid, path, onPath))
    decreases Free(g, onPath), 0
  {
    if tid !in onPath {
      FreeShrinks(g, onPath, tid);
      GatheredAlongAreWalks(g, tid, |g.edges[tid]|, path, onPath);
      assert g.edges[tid][..|g.edges[tid]|] == g.edges[tid];
      assert path + Labels(g, tid, []) == path;
      assert EntriesOf(g, tid, path, [[]], [(tid, PathString(path))]);
      EntriesConcat(g, tid, path, [[]], [(tid, PathString(path))], WalksFrom(g, tid, |g.edges[tid]|, onPath),
                    GatheredAlong(g, g.edges[tid], path, onPath + [tid]));
    }
  }

  lemma {:induction false} GatheredAlongAreWalks(g: Graph, tid: TypeId, k: nat, path: seq<string>, onPath: seq<TypeId>)
    requires g.Valid() && tid < |g.edges| && k <= |g.edges[tid]|
    ensures EntriesOf(g, tid, path, WalksFrom(g, tid, k, onPath),
                      GatheredAlong(g, g.edges[tid][..k], path, onPath + [tid]))
    decreases Free(g, onPath + [tid]), k
  {
    if k > 0 {
      var e := g.edges[tid][k - 1];
      var deeper, output := Walks(g, e.target, onPath + [tid]), Gathered(g, e.target, path + [e.component], onPath + [tid]);
      GatheredAlongAreWalks(g, tid, k - 1, path, onPath);
      GatheredAreWalks(g, e.target, path + [e.component], onPath + [tid]);
      assert g.edges[tid][..k] == g.edges[tid][..k - 1] + [e];
      FollowEdge(g, g.edges[tid][..k - 1], e, path, onPath + [tid]);
      hide EntriesOf, Gathered, GatheredAlong;
      EntriesThrough(g, tid, path, k - 1, deeper, output);
      EntriesConcat(g, tid, path, WalksFrom(g, tid, k - 1, onPath),
                    GatheredAlong(g, g.edges[tid][..k - 1], path, onPath + [tid]), Through(k - 1, deeper), output);
    }
  }

  lemma EntriesConcat(g: Graph, tid: TypeId, path: seq<string>, walks1: seq<seq<nat>>, output1: seq<(TypeId, string)>,
                      walks2: seq<seq<nat>>, output2: seq<(TypeId, string)>)
    requires g.Valid() && tid < |g.edges|
    requires EntriesOf(g, tid, path, walks1, output1) && EntriesOf(g, tid, path, walks2, output2)
    ensures EntriesOf(g, tid, path, walks1 + walks2, output1 + output2)
  {
    hide Entry, IsWalk;
  }

  lemma EntriesThrough(g: Graph, tid: TypeId, path: seq<string>, k: nat, walks: seq<seq<nat>>,
                       output: seq<(TypeId, string)>)
    requires g.Valid() && tid < |g.edges| && k < |g.edges[tid]|
    requires EntriesOf(g, g.edges[tid][k].target, path + [g.edges[tid][k].component], walks, output)
    ensures EntriesOf(g, tid, path, Through(k, walks), output)
  {
    hide Entry, IsWalk;
    forall i | 0 <= i < |walks|
      ensures IsWalk(g, tid, Through(k, walks)[i]) && output[i] == Entry(g, tid, path, Through(k, walks)[i])
    {
      EntryThrough(g, tid, path, k, walks[i]);
    }
  }

  lemma EntryThrough(g: Graph, tid: TypeId, path: seq<string>, k: nat, walk: seq<nat>)
    requires g.Valid() && tid < |g.edges| && k < |g.edges[tid]|
    requires IsWalk(g, g.edges[tid][k].target, walk)
    ensures IsWalk(g, tid, [k] + walk)
    ensures Entry(g, tid, path, [k] + walk)
         == Entry(g, g.edges[tid][k].target, path + [g.edges[tid][k].component], walk)
  {
    assert ([k] + walk)[1..] == walk;
    var e := g.edges[tid][k];
    assert path + ([e.component] + Labels(g, e.target, walk)) == (path + [e.component]) + Labels(g, e.target, walk);
  }

  // ----- the search from an empty path

  lemma SimpleIff(g: Graph, root: TypeId, walk: seq<nat>)
    requires g.Valid() && root < |g.edges|
    ensures walk in Walks(g, root, []) <==> Simple(g, root, walk)
  {
    WalksComplete(g, root, [], walk);
    if IsWalk(g, root, walk) {
      AvoidingIff(g, root, [], walk);
    }
  }

  lemma {:induction false} VisitsAreTypes(g: Graph, from: TypeId, walk: seq<nat>)
    requires g.Valid() && from < |g.edges| && IsWalk(g, from, walk)
    ensures |Visits(g, from, walk)| == |walk| + 1
    ensures forall k :: 0 <= k < |Visits(g, from, walk)| ==> Visits(g, from, walk)[k] < |g.edges|
    decreases |walk|
  {
    if walk != [] {
      VisitsAreTypes(g, g.edges[from][walk[0]].target, walk[1..]);
    }
  }

  lemma {:induction false} DistinctIsShort(s: seq<TypeId>, n: nat)
    requires Distinct(s) && forall k :: 0 <= k < |s| ==> s[k] < n
    ensures |s| <= n
    decreases n
  {
    if s != [] {
      assert s[0] < n;
      if i :| 0 <= i < |s| && s[i] == n - 1 {
        var rest := s[..i] + s[i + 1..];
        forall k | 0 <= k < |rest| ensures rest[k] < n - 1 {
          var m := if k < i then k else k + 1;
          assert rest[k] == s[m] && s[m] != s[i];
        }
        DistinctIsShort(rest, n - 1);
      } else {
        DistinctIsShort(s, n - 1);
      }
    }
  }

  /** No recorded path has as many components as there are types. */
  lemma SimpleIsShort(g: Graph, root: TypeId, walk: seq<nat>)
    requires g.Valid() && root < |g.edges| && Simple(g, root, walk)
    ensures |walk| < |g.edges|
  {
    VisitsAreTypes(g, root, walk);
    DistinctIsShort(Visits(g, root, walk), |g.edges|);
  }

  /** From an empty path the search appends, in preorder, one entry for each node-simple walk and
      nothing else, and every one of them is shorter than the number of types. */
  lemma SearchExact(g: Graph, root: TypeId)
    requires g.Valid() && root < |g.edges|
    ensures var walks, output := Walks(g, root, []), Gathered(g, root, [], []);
            && |output| == |walks| && Preordered(walks)
            && (forall walk :: walk in walks <==> Simple(g, root, walk))
            && (forall i :: 0 <= i < |walks| ==>
                  IsWalk(g, root, walks[i]) && |walks[i]| < |g.edges| &&
                  output[i] == (End(g, root, walks[i]), PathString(Labels(g, root, walks[i]))))
  {
    var walks, output := Walks(g, root, []), Gathered(g, root, [], []);
    GatheredAreWalks(g, root, [], []);
    WalksPreordered(g, root, []);
    forall walk ensures walk in walks <==> Simple(g, root, walk) {
      SimpleIff(g, root, walk);
    }
    forall i | 0 <= i < |walks|
      ensures |walks[i]| < |g.edges|
      ensures output[i] == (End(g, root, walks[i]), PathString(Labels(g, root, walks[i])))
    {
      assert walks[i] in walks;
      SimpleIsShort(g, root, walks[i]);
      assert [] + Labels(g, root, walks[i]) == Labels(g, root, walks[i]);
    }
  }

  ghost predicate Reaches(g: Graph, root: TypeId, walk: seq<nat>, t: TypeId, path: string)
    requires g.Valid() && root < |g.edges|
  {
    Simple(g, root, walk) && End(g, root, walk) == t && PathString(Labels(g, root, walk)) == path
  }

  /** A path is recorded for a type exactly when some node-simple walk with these labels ends there. */
  lemma RecordedIff(g: Graph, root: TypeId, t: TypeId, path: string)
    requires g.Valid() && root < |g.edges|
    ensures (t, path) in Gathered(g, root, [], []) <==> exists walk :: Reaches(g, root, walk, t, path)
  {
    var walks, output := Walks(g, root, []), Gathered(g, root, [], []);
    SearchExact(g, root);
    if (t, path) in output {
      var i :| 0 <= i < |output| && output[i] == (t, path);
      assert walks[i] in walks;
      assert Reaches(g, root, walks[i], t, path);
    }
    if walk :| Reaches(g, root, walk, t, path) {
      assert walk in walks;
      var i :| 0 <= i < |walks| && walks[i] == walk;
      assert output[i] == (t, path);
    }
  }

  lemma {:induction false} BeforeIsStrict(a: seq<nat>)
    ensures !Before(a, a)
    decreases |a|
  {
    if a != [] {
      BeforeIsStrict(a[1..]);
    }
  }

  /** The output repeats an entry exactly when two different node-simple walks have the same end and
      the same labels. */
  lemma RepeatsIff(g: Graph, root: TypeId)
    requires g.Valid() && root < |g.edges|
    ensures Distinct(Gathered(g, root, [], [])) <==>
            forall v, w, t, path :: Reaches(g, root, v, t, path) && Reaches(g, root, w, t, path) ==> v == w
  {
    hide Walks, Gathered;
    var walks, output := Walks(g, root, []), Gathered(g, root, [], []);
    SearchExact(g, root);
    if Distinct(output) {
      forall v, w, t, path | Reaches(g, root, v, t, path) && Reaches(g, root, w, t, path) ensures v == w {
        assert v in walks && w in walks;
        var i :| 0 <= i < |walks| && walks[i] == v;
        var j :| 0 <= j < |walks| && walks[j] == w;
        assert output[i] == output[j];
      }
    } else {
      var i, j :| 0 <= i < j < |output| && output[i] == output[j];
      assert walks[i] in walks && walks[j] in walks;
      assert Before(walks[i], walks[j]);
      BeforeIsStrict(walks[i]);
      assert Reaches(g, root, walks[i], output[i].0, output[i].1);
      assert Reaches(g, root, walks[j], output[i].0, output[i].1);
    }
  }

  // ----- one edge more

  lemma {:induction false} WalkSnoc(g: Graph, from: TypeId, walk: seq<nat>, k: nat)
    requires g.Valid() && from < |g.edges| && IsWalk(g, from, walk)
    requires EndIsType(g, from, walk) && k < |g.edges[End(g, from, walk)]|
    ensures IsWalk(g, from, walk + [k])
    ensures var e := g.edges[End(g, from, walk)][k];
            && Visits(g, from, walk + [k]) == Visits(g, from, walk) + [e.target]
            && Labels(g, from, walk + [k]) == Labels(g, from, walk) + [e.component]
            && End(g, from, walk + [k]) == e.target
    decreases |walk|
  {
    if walk == [] {
      assert walk + [k] == [k] && [k][1..] == [];
    } else {
      assert (walk + [k])[1..] == walk[1..] + [k];
      WalkSnoc(g, g.edges[from][walk[0]].target, walk[1..], k);
    }
  }

  /** A walk without its last edge. */
  lemma {:induction false} WalkInit(g: Graph, from: TypeId, walk: seq<nat>)
    requires g.Valid() && from < |g.edges| && IsWalk(g, from, walk) && walk != []
    ensures var n := |walk| - 1;
            IsWalk(g, from, walk[..n]) && EndIsType(g, from, walk[..n]) && walk[n] < |g.edges[End(g, from, walk[..n])]|
    decreases |walk|
  {
    var n := |walk| - 1;
    if n == 0 {
      assert walk[..0] == [];
    } else {
      assert walk[..n][1..] == walk[1..][..n - 1] && walk[..n][0] == walk[0] && walk[1..][n - 1] == walk[n];
      WalkInit(g, g.edges[from][walk[0]].target, walk[1..]);
    }
  }

  predicate EndIsType(g: Graph, from: TypeId, walk: seq<nat>)
    requires g.Valid() && from < |g.edges| && IsWalk(g, from, walk)
  {
    End(g, from, walk) < |g.edges|
  }

  lemma {:induction false} EndIsVisited(g: Graph, from: TypeId, walk: seq<nat>)
    requires g.Valid() && from < |g.edges| && IsWalk(g, from, walk)
    ensures EndIsType(g, from, walk) && End(g, from, walk) in Visits(g, from, walk)
    decreases |walk|
  {
    if walk != [] {
      EndIsVisited(g, g.edges[from][walk[0]].target, walk[1..]);
    }
  }

  /** A node-simple walk goes on over every edge to a type it has not visited. */
  lemma SimpleSnoc(g: Graph, root: TypeId, walk: seq<nat>, k: nat)
    requires g.Valid() && root < |g.edges| && Simple(g, root, walk)
    requires EndIsType(g, root, walk) && k < |g.edges[End(g, root, walk)]|
    requires g.edges[End(g, root, walk)][k].target !in Visits(g, root, walk)
    ensures var e := g.edges[End(g, root, walk)][k];
            Reaches(g, root, walk + [k], e.target, PathString(Labels(g, root, walk) + [e.component]))
  {
    WalkSnoc(g, root, walk, k);
    DistinctSnoc(Visits(g, root, walk), g.edges[End(g, root, walk)][k].target);
  }

  /** A node-simple walk without its last edge is one to the type before, from where the edge goes on to a
      type not visited. */
  lemma SimpleInit(g: Graph, root: TypeId, walk: seq<nat>) returns (e: Edge)
    requires g.Valid() && root < |g.edges| && Simple(g, root, walk) && walk != []
    ensures var rest := walk[..|walk| - 1];
            && Simple(g, root, rest) && EndIsType(g, root, rest) && e in g.edges[End(g, root, rest)]
            && e.target == End(g, root, walk) && e.target !in Visits(g, root, rest)
            && PathString(Labels(g, root, walk)) == PathString(Labels(g, root, rest)) + "/" + e.component
  {
    var n := |walk| - 1;
    var rest := walk[..n];
    WalkInit(g, root, walk);
    e := g.edges[End(g, root, rest)][walk[n]];
    assert walk == rest + [walk[n]];
    WalkSnoc(g, root, rest, walk[n]);
    DistinctConcat(Visits(g, root, rest), [e.target]);
    PathSnoc(Labels(g, root, rest), e.component);
  }

  lemma PathSnoc(path: seq<string>, component: string)
    ensures PathString(path + [component]) == PathString(path) + "/" + component
  {
    assert (path + [component])[..|path|] == path;
  }

  // ----- several roots

  predicate Roots(g: Graph, roots: seq<TypeId>) {
    forall r :: 0 <= r < |roots| ==> roots[r] < |g.edges|
  }

  /** What the searches from the roots, one after the other, leave behind. */
  function GatheredFrom(g: Graph, roots: seq<TypeId>): seq<(TypeId, string)>
    requires g.Valid() && Roots(g, roots)
  {
    if roots == [] then []
    else GatheredFrom(g, roots[..|roots| - 1]) + Gathered(g, roots[|roots| - 1], [], [])
  }

  lemma GatherOneMore(g: Graph, roots: seq<TypeId>, i: nat)
    requires g.Valid() && Roots(g, roots) && i < |roots|
    ensures GatheredFrom(g, roots[..i + 1]) == GatheredFrom(g, roots[..i]) + Gathered(g, roots[i], [], [])
  {
    hide Gathered;
    assert roots[..i + 1][..i] == roots[..i];
  }

  ghost predicate ReachesFrom(g: Graph, roots: seq<TypeId>, r: nat, walk: seq<nat>, t: TypeId, path: string)
    requires g.Valid() && Roots(g, roots)
  {
    r < |roots| && Reaches(g, roots[r], walk, t, path)
  }

  /** With several roots a path is recorded for a type exactly when a node-simple walk from one of them
      with these labels ends there. */
  lemma {:induction false} RecordedFromIff(g: Graph, roots: seq<TypeId>, t: TypeId, path: string)
    requires g.Valid() && Roots(g, roots)
    ensures (t, path) in GatheredFrom(g, roots) <==> exists r: nat, walk :: ReachesFrom(g, roots, r, walk, t, path)
    decreases |roots|
  {
    hide Gathered, Reaches;
    if roots != [] {
      var n := |roots| - 1;
      RecordedIff(g, roots[n], t, path);
      RecordedFromIff(g, roots[..n], t, path);
      if walk :| Reaches(g, roots[n], walk, t, path) {
        assert ReachesFrom(g, roots, n, walk, t, path);
      }
      if r: nat, walk :| ReachesFrom(g, roots[..n], r, walk, t, path) {
        assert ReachesFrom(g, roots, r, walk, t, path);
      }
      if r: nat, walk :| ReachesFrom(g, roots, r, walk, t, path) && r < n {
        assert ReachesFrom(g, roots[..n], r, walk, t, path);
      }
    }
  }

  /** No two node-simple walks, from the same or from different roots, have the same end and labels. */
  ghost predicate AllApart(g: Graph, roots: seq<TypeId>)
    requires g.Valid() && Roots(g, roots)
  {
    forall q: nat, r: nat, v, w, t, path ::
      ReachesFrom(g, roots, q, v, t, path) && ReachesFrom(g, roots, r, w, t, path) ==> q == r && v == w
  }

  lemma ApartSnoc(g: Graph, roots: seq<TypeId>, n: nat)
    requires g.Valid() && Roots(g, roots) && |roots| == n + 1
    ensures AllApart(g, roots) <==>
            && AllApart(g, roots[..n])
            && (forall v, w, t, path :: Reaches(g, roots[n], v, t, path) && Reaches(g, roots[n], w, t, path) ==> v == w)
            && (forall q: nat, v, w, t, path ::
                  ReachesFrom(g, roots[..n], q, v, t, path) ==> !Reaches(g, roots[n], w, t, path))
  {
    hide Reaches;
    if AllApart(g, roots) {
      forall v, w, t, path | Reaches(g, roots[n], v, t, path) && Reaches(g, roots[n], w, t, path) ensures v == w {
        assert ReachesFrom(g, roots, n, v, t, path) && ReachesFrom(g, roots, n, w, t, path);
      }
      forall q: nat, v, w, t, path | ReachesFrom(g, roots[..n], q, v, t, path)
        ensures !Reaches(g, roots[n], w, t, path)
      {
        assert ReachesFrom(g, roots, q, v, t, path);
        assert Reaches(g, roots[n], w, t, path) <==> ReachesFrom(g, roots, n, w, t, path);
      }
      forall q: nat, r: nat, v, w, t, path
        | ReachesFrom(g, roots[..n], q, v, t, path) && ReachesFrom(g, roots[..n], r, w, t, path)
        ensures q == r && v == w
      {
        assert ReachesFrom(g, roots, q, v, t, path) && ReachesFrom(g, roots, r, w, t, path);
      }
    } else {
      var q: nat, r: nat, v, w, t, path :| ReachesFrom(g, roots, q, v, t, path)
                                           && ReachesFrom(g, roots, r, w, t, path) && !(q == r && v == w);
      assert q < n ==> ReachesFrom(g, roots[..n], q, v, t, path);
      assert r < n ==> ReachesFrom(g, roots[..n], r, w, t, path);
    }
  }

  /** With several roots the output has no repetition exactly when no two walks share end and labels. */
  lemma {:induction false} RepeatsFromIff(g: Graph, roots: seq<TypeId>)
    requires g.Valid() && Roots(g, roots)
    ensures Distinct(GatheredFrom(g, roots)) <==> AllApart(g, roots)
    decreases |roots|
  {
    if roots != [] {
      var n := |roots| - 1;
      var a, b := GatheredFrom(g, roots[..n]), Gathered(g, roots[n], [], []);
      RepeatsFromIff(g, roots[..n]);
      RepeatsIff(g, roots[n]);
      ApartSnoc(g, roots, n);
      DistinctConcat(a, b);
      NothingShared(g, roots, n);
    }
  }

  lemma NothingShared(g: Graph, roots: seq<TypeId>, n: nat)
    requires g.Valid() && Roots(g, roots) && |roots| == n + 1
    ensures (forall x :: x in GatheredFrom(g, roots[..n]) ==> x !in Gathered(g, roots[n], [], [])) <==>
            (forall q: nat, v, w, t, path ::
               ReachesFrom(g, roots[..n], q, v, t, path) ==> !Reaches(g, roots[n], w, t, path))
  {
    hide Gathered, GatheredFrom, Reaches, ReachesFrom;
    var a, b := GatheredFrom(g, roots[..n]), Gathered(g, roots[n], [], []);
    forall t: TypeId, path: string
      ensures (t, path) in a <==> exists q: nat, v :: ReachesFrom(g, roots[..n], q, v, t, path)
      ensures (t, path) in b <==> exists w :: Reaches(g, roots[n], w, t, path)
    {
      RecordedFromIff(g, roots[..n], t, path);
      RecordedIff(g, roots[n], t, path);
    }
    if x :| x in a && x in b {
      assert x == (x.0, x.1);
    }
    if q: nat, v, w, t: TypeId, path :| ReachesFrom(g, roots[..n], q, v, t, path) && Reaches(g, roots[n], w, t, path) {
      assert (t, path) in a && (t, path) in b;
    }
  }
}
