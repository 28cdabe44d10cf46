/** The graph builder: the methods that fill its maps and cut the snapshot out of them. */
module Engine {
  import opened Graph
  import opened Order
  import opened Selectors
  import opened Traversal
  import opened Bounds
  import opened Inference

  /** Whether a workload is a candidate for a Service, and its score. */
  method RankWorkload(service: Node, w: Node, p: Policy) returns (eligible: bool, score: nat)
    ensures eligible <==> Eligible(service, w, p)
    ensures eligible ==> score == RankScore(service, w)
  {
    hide Score, MatchedKeys, ConflictingKeys, WorkloadLabels, SystemIdentity;
    var base, matched, conflicts := SelectorInferenceScore(service.selector, WorkloadLabels(w));
    var serviceSystem, workloadSystem := SystemIdentity(service.labels), SystemIdentity(w.labels);
    assert matched.Keys == MatchedKeys(service.selector, WorkloadLabels(w));
    score := base;
    if !(w.kind.ResourceNode? && w.resource.namespace == service.resource.namespace && IsWorkloadKind(w.resource.kind)) {
      return false, score;
    }
    if base < p.possibleThreshold || matched == map[] {
      return false, score;
    }
    if serviceSystem != "" && workloadSystem != "" && serviceSystem != workloadSystem {
      return false, score;
    }
    if Lookup(service.annotations, "kubechan.io/renamed-from") == w.resource.name {
      score := score + 100;
    }
    if serviceSystem != "" && serviceSystem == workloadSystem {
      score := score + 80;
    }
    eligible := true;
  }

  class Builder {
    var nodes: NodeMap
    var edges: EdgeMap
    const policy: Policy
    const naming: Naming

    ghost predicate Valid()
      reads this
    {
      Keyed(nodes, NodeKey) && Keyed(edges, EdgeKey) && Discerns(naming, nodes) && 0 <= policy.maxCandidatesPerGap
    }

    constructor (policy: Policy, naming: Naming, nodes: NodeMap, edges: EdgeMap)
      requires Keyed(nodes, NodeKey) && Keyed(edges, EdgeKey) && Discerns(naming, nodes) && 0 <= policy.maxCandidatesPerGap
      ensures Valid() && this.nodes == nodes && this.edges == edges && this.policy == policy && this.naming == naming
    {
      this.policy, this.naming, this.nodes, this.edges := policy, naming, nodes, edges;
    }

    // ---- Edges between Services and their targets ---------------------------------

    method AddEdge(kind: string, from: string, to: string, state: string, sourceIds: seq<string>)
      modifies this`edges
      ensures var e := Edge(StableId(naming, [kind, from, to]), kind, from, to, state, false, 0, false, SourceSet(sourceIds));
        edges == old(edges)[e.id := e]
    {
      var id := StableId(naming, [kind, from, to]);
      var ids := UniqueSorted(sourceIds);
      edges := edges[id := Edge(id, kind, from, to, state, false, 0, false, ids)];
    }

    method AddInferredEdge(kind: string, from: string, to: string, score: int, sourceIds: seq<string>)
      modifies this`edges
      ensures var e := Edge(StableId(naming, ["inferred", kind, from, to]), kind, from, to, "proposed", true, score,
                            score >= policy.strongThreshold, SourceSet(sourceIds));
        edges == old(edges)[e.id := e]
    {
      var id := StableId(naming, ["inferred", kind, from, to]);
      var ids := UniqueSorted(sourceIds);
      edges := edges[id := Edge(id, kind, from, to, "proposed", true, score, score >= policy.strongThreshold, ids)];
    }

    /** The eligible workloads of a Service with their scores, ranging over the nodes in any order. */
    method RankWorkloads(s: string) returns (ranked: seq<Ranked>)
      requires s in nodes
      ensures Elements(ranked) == Candidates(nodes, s, policy)
      ensures forall i, j :: 0 <= i < j < |ranked| ==> ranked[i].id != ranked[j].id
    {
      ranked := [];
      var service := nodes[s];
      var todo := nodes.Keys;
      hide Eligible, RankScore;
      while todo != {}
        invariant todo <= nodes.Keys
        invariant forall c :: c in ranked <==>
                    c.id in nodes && c.id !in todo && Eligible(service, nodes[c.id], policy) && c.score == RankScore(service, nodes[c.id])
        invariant forall i, j :: 0 <= i < j < |ranked| ==> ranked[i].id != ranked[j].id
        decreases todo
      {
        var w :| w in todo;
        var eligible, score := RankWorkload(service, nodes[w], policy);
        todo := todo - {w};
        if eligible {
          ranked := ranked + [Ranked(w, score)];
        }
      }
    }

    /** Infer edges from an orphaned Service to its best candidates. The ghost
        arguments say what the pass has written so far, over which maps. */
    method InferServiceWorkloads(s: string, ghost base: NodeMap, ghost before: EdgeMap, ghost written: set<Edge>)
      requires Discerns(naming, base) && 0 <= policy.maxCandidatesPerGap
      requires SameButState(nodes, base) && Orphan(base, s)
      requires Overlay(edges, before, written) && written <= ServiceEdges(naming, base, base.Keys, policy)
      modifies this`edges
      ensures Overlay(edges, before, written + InferredEdges(naming, base, s, policy))
    {
      var ranked := RankWorkloads(s);
      StateIsIrrelevant(nodes, base, s, policy);
      BetterIsStrictWeakOrder();
      var sorted := Sort(ranked, Better);
      SortKeepsRanked(ranked, sorted);
      TopAreChosen(sorted, policy);
      var top := if |sorted| > policy.maxCandidatesPerGap then sorted[..policy.maxCandidatesPerGap] else sorted;
      TopAreInferred(naming, base, s, top, policy);
      WriteInferred(s, top, base, before, written);
    }

    method WriteInferred(s: string, top: seq<Ranked>, ghost base: NodeMap, ghost before: EdgeMap,
            ghost written: set<Edge>)
      requires Discerns(naming, base) && SameButState(nodes, base) && s in base
      requires forall c :: c in top ==> c.id in base
      requires EdgesTo(naming, base, s, Elements(top), policy) <= ServiceEdges(naming, base, base.Keys, policy)
      requires Overlay(edges, before, written) && written <= ServiceEdges(naming, base, base.Keys, policy)
      modifies this`edges
      ensures Overlay(edges, before, written + EdgesTo(naming, base, s, Elements(top), policy))
    {
      hide Overlay, ServiceEdges, Discerns, EdgesTo;
      ghost var added: set<Edge> := EdgesTo(naming, base, s, Elements(top[..0]), policy);
      NoEdgesToNothing(naming, base, s, top, policy);
      assert written + added == written;
      for i := 0 to |top|
        invariant nodes == old(nodes)
        invariant added == EdgesTo(naming, base, s, Elements(top[..i]), policy)
        invariant Overlay(edges, before, written + added)
      {
        var c := top[i];
        assert c in top;
        ghost var e := InferredEdge(naming, base, s, c, policy);
        EdgesToGrow(naming, base, s, top, i, policy);
        assert e in EdgesTo(naming, base, s, Elements(top[..i + 1]), policy);
        PassEdgeOverlays(naming, base, policy, edges, before, written + added, e);
        AddInferredEdge("possible_selector_target", s, c.id, c.score,
                        naming.sources(nodes[s].resource, "/selector") + naming.sources(nodes[c.id].resource, "/templateLabels"));
        assert written + added + {e} == written + (added + {e});
        added := added + {e};
      }
      assert top[..|top|] == top;
    }

    /** Connect one selecting Service to the Pods its selector matches exactly. */
    method ConnectPods(s: string, ghost base: NodeMap, ghost before: EdgeMap, ghost written: set<Edge>)
      returns (matched: nat)
      requires Discerns(naming, base) && SameButState(nodes, base) && s in base && IsSelectingService(base[s])
      requires Overlay(edges, before, written) && written <= ServiceEdges(naming, base, base.Keys, policy)
      modifies this`edges
      ensures Overlay(edges, before, written + SelectsEdges(naming, base, s))
      ensures matched == 0 <==> Orphan(base, s)
    {
      hide Overlay, ServiceEdges, Discerns, LabelsMatch, IsSelectingService, StableId;
      matched := 0;
      var service := nodes[s];
      var todo := nodes.Keys;
      ghost var added: set<Edge> := {};
      assert written + added == written;
      while todo != {}
        invariant nodes == old(nodes) && todo <= nodes.Keys
        invariant added == set q | q in base && q !in todo && SelectsPod(base[s], base[q]) :: SelectsEdge(naming, base, s, q)
        invariant added <= ServiceEdges(naming, base, base.Keys, policy)
        invariant Overlay(edges, before, written + added)
        invariant matched == 0 <==> forall q :: q in base && q !in todo ==> !SelectsPod(base[s], base[q])
        decreases todo
      {
        var q :| q in todo;
        todo := todo - {q};
        var pod := nodes[q];
        var exact := MatchLabels(service.selector, pod.labels);
        if pod.resource.kind == "Pod" && pod.resource.namespace == service.resource.namespace && exact {
          ghost var e := SelectsEdge(naming, base, s, q);
          SelectsEdgeBelongs(naming, base, s, q, policy);
          PassEdgeOverlays(naming, base, policy, edges, before, written + added, e);
          AddEdge("selects", s, q, "resolved", naming.sources(service.resource, "/selector"));
          assert written + added + {e} == written + (added + {e});
          added := added + {e};
          matched := matched + 1;
        }
      }
      assert added == SelectsEdges(naming, base, s);
    }

    /** One Service: exact matches first, inference only when there is none. */
    method ConnectService(s: string, ghost base: NodeMap, ghost before: EdgeMap, ghost done: set<string>)
      requires Discerns(naming, base) && 0 <= policy.maxCandidatesPerGap
      requires s in base && done <= base.Keys && s !in done && nodes == Degraded(base, done)
      requires Overlay(edges, before, ServiceEdges(naming, base, done, policy))
      modifies this`nodes, this`edges
      ensures nodes == Degraded(base, done + {s})
      ensures Overlay(edges, before, ServiceEdges(naming, base, done + {s}, policy))
    {
      var node := nodes[s];
      ServiceEdgesGrow(naming, base, done, s, policy);
      ghost var written := ServiceEdges(naming, base, done, policy);
      DegradedGrows(base, done, s);
      NothingToAdd(naming, base, s, policy);
      ServiceEdgesContain(naming, base, s, policy);
      hide Overlay, ServiceEdges, Discerns, SelectsEdges, InferredEdges, Degraded, SameButState, Orphan, IsSelectingService;
      if IsSelectingService(node) {
        var matched := ConnectPods(s, base, before, written);
        if matched == 0 {
          nodes := nodes[s := node.(state := "degraded")];
          InferServiceWorkloads(s, base, before, written + SelectsEdges(naming, base, s));
        } else {
          assert written + SelectsEdges(naming, base, s) + {} == written + SelectsEdges(naming, base, s);
        }
      } else {
        assert written + {} + {} == written;
      }
    }

    /** One pass over the nodes in any order, marking orphaned Services as it goes. */
    method ConnectServicesToPods()
      requires Valid()
      modifies this`nodes, this`edges
      ensures Valid()
      ensures nodes == Degraded(old(nodes), old(nodes).Keys)
      ensures Overlay(edges, old(edges), ServiceEdges(naming, old(nodes), old(nodes).Keys, policy))
    {
      ghost var base, before := nodes, edges;
      ghost var done: set<string> := {};
      var todo := nodes.Keys;
      assert ServiceEdges(naming, base, {}, policy) == {};
      while todo != {}
        invariant done + todo == base.Keys && done !! todo
        invariant nodes == Degraded(base, done)
        invariant Overlay(edges, before, ServiceEdges(naming, base, done, policy))
        decreases todo
      {
        var s :| s in todo;
        todo := todo - {s};
        ConnectService(s, base, before, done);
        done := done + {s};
      }
      assert done == base.Keys;
      OverlayStaysKeyed(edges, before, ServiceEdges(naming, base, base.Keys, policy));
    }

    // ---- The bounded snapshot -----------------------------------------------------

    method AllSorted() returns (allNodes: seq<Node>, allEdges: seq<Edge>)
      requires Valid()
      ensures IsListing(allNodes, nodes, NodeKey) && IsListing(allEdges, edges, EdgeKey)
    {
      allNodes := Listing(nodes, NodeKey);
      allEdges := Listing(edges, EdgeKey);
    }

    /** Append every edge to the lists of both its ends. */
    method FileEdges(allEdges: seq<Edge>) returns (adj: map<string, seq<Edge>>)
      ensures forall id :: EdgesAt(adj, id) == Adjacent(allEdges, id)
    {
      adj := map[];
      for i := 0 to |allEdges|
        invariant forall id :: EdgesAt(adj, id) == Adjacent(allEdges[..i], id)
      {
        var e := allEdges[i];
        assert allEdges[..i + 1][..i] == allEdges[..i];
        ghost var before := adj;
        adj := adj[e.from := EdgesAt(adj, e.from) + [e]];
        adj := adj[e.to := EdgesAt(adj, e.to) + [e]];
        forall id
          ensures EdgesAt(adj, id) == Adjacent(allEdges[..i + 1], id)
        {
          var was := EdgesAt(before, id);
          assert was == Adjacent(allEdges[..i], id) && was + [] == was;
          assert EdgesAt(adj, id) == was + (if e.from == id then [e] else []) + (if e.to == id then [e] else []);
        }
      }
      assert allEdges[..|allEdges|] == allEdges;
    }

    /** The edges at every id. Listing order is id order, so sorting each list again
        changes nothing. */
    method BuildAdjacency(allEdges: seq<Edge>) returns (adj: map<string, seq<Edge>>)
      requires Ascending(allEdges, EdgeKey) && KeysIdentify(allEdges, EdgeKey)
      ensures forall id :: EdgesAt(adj, id) == Adjacent(allEdges, id)
    {
      adj := FileEdges(allEdges);
      var todo := adj.Keys;
      while todo != {}
        invariant todo <= adj.Keys
        invariant forall id :: EdgesAt(adj, id) == Adjacent(allEdges, id)
        decreases todo
      {
        var id :| id in todo;
        todo := todo - {id};
        AdjacentIsSorted(allEdges, id);
        assert adj[id] == EdgesAt(adj, id);
        hide Ascending, KeysIdentify, Adjacent;
        var sorted := SortBy(adj[id], EdgeKey);
        SortedUnique(adj[id], sorted, EdgeKey);
        adj := adj[id := sorted];
      }
    }

    /** The inner loop of the walk, with its break. */
    method ScanNode(cur: Visit, adj: seq<Edge>, seen: Seen, queue: seq<Visit>) returns (seen': Seen, queue': seq<Visit>)
      ensures (seen', queue') == Scan(cur, adj, seen, queue, policy)
    {
      seen', queue' := seen, queue;
      var i := 0;
      while i < |adj|
        invariant 0 <= i <= |adj|
        invariant Scan(cur, adj, seen, queue, policy) == Scan(cur, adj[i..], seen', queue', policy)
      {
        var edge := adj[i];
        assert adj[i..][0] == edge && adj[i..][1..] == adj[i + 1..];
        i := i + 1;
        var next := edge.to;
        if next == cur.id {
          next := edge.from;
        }
        var depth := cur.depth + 1;
        var inferred := cur.hops;
        if edge.inferred {
          inferred := inferred + 1;
        }
        if depth <= policy.maxObservedDepth && inferred <= policy.maxInferredHops && next !in seen' {
          var state := Visit(next, depth, inferred);
          seen' := seen'[next := state];
          queue' := queue' + [state];
          if |seen'| >= policy.maxNodes {
            return;
          }
        }
      }
    }

    method Walk(allEdges: seq<Edge>, adj: map<string, seq<Edge>>, entry: string) returns (seen: Seen)
      requires forall id :: EdgesAt(adj, id) == Adjacent(allEdges, id)
      ensures seen == Visited(allEdges, entry, policy)
    {
      seen := map[entry := Visit(entry, 0, 0)];
      var queue := [Visit(entry, 0, 0)];
      while queue != [] && |seen| < policy.maxNodes
        invariant Traverse(allEdges, seen, queue, policy) == Visited(allEdges, entry, policy)
        decreases Ends(allEdges) - seen.Keys, |queue|
      {
        var cur := queue[0];
        var here := EdgesAt(adj, cur.id);
        ScanGrows(cur, here, seen, queue[1..], policy);
        AdjacentIsIncident(allEdges, cur.id);
        ghost var before := seen;
        seen, queue := ScanNode(cur, here, seen, queue[1..]);
        assert seen != before ==> seen.Keys != before.Keys;
      }
    }

    /** bounded: the walk, the two context passes, and the cut. */
    method Bound(entry: string) returns (outNodes: seq<Node>, outEdges: seq<Edge>, truncated: bool)
      requires Valid()
      ensures exists allNodes, allEdges ::
                && IsListing(allNodes, nodes, NodeKey) && IsListing(allEdges, edges, EdgeKey)
                && Bounded(allNodes, allEdges, entry, policy) == Snapshot(outNodes, outEdges, truncated)
    {
      var allNodes, allEdges := AllSorted();
      ListedKeysIdentify(allEdges, edges, EdgeKey);
      var adj := BuildAdjacency(allEdges);
      var seen := Walk(allEdges, adj, entry);
      var kept := KeepRelated(allNodes, seen.Keys);
      kept := KeepContext(allEdges, kept);
      outNodes := [];
      for i := 0 to |allNodes|
        invariant outNodes == KeptNodes(allNodes[..i], kept)
      {
        assert allNodes[..i + 1][..i] == allNodes[..i];
        if allNodes[i].id in kept {
          outNodes := outNodes + [allNodes[i]];
        }
      }
      assert allNodes[..|allNodes|] == allNodes;
      outEdges := CutEdges(allEdges, kept);
      truncated := |outNodes| < |allNodes| || |outEdges| < |allEdges|;
      assert Bounded(allNodes, allEdges, entry, policy) == Snapshot(outNodes, outEdges, truncated);
    }

    method KeepRelated(allNodes: seq<Node>, visited: set<string>) returns (kept: set<string>)
      ensures kept == AddRelated(allNodes, visited, policy.maxNodes)
    {
      kept := visited;
      var i := 0;
      while i < |allNodes| && |kept| < policy.maxNodes
        invariant 0 <= i <= |allNodes| && kept == AddRelated(allNodes[..i], visited, policy.maxNodes)
      {
        assert allNodes[..i + 1][..i] == allNodes[..i];
        if allNodes[i].role == "related" {
          kept := kept + {allNodes[i].id};
        }
        i := i + 1;
      }
      FullAddsNoRelated(allNodes, i, visited, policy.maxNodes);
    }

    method KeepContext(allEdges: seq<Edge>, base: set<string>) returns (kept: set<string>)
      ensures kept == AddContext(allEdges, base, policy.maxNodes)
    {
      kept := base;
      var i := 0;
      while i < |allEdges| && |kept| < policy.maxNodes
        invariant 0 <= i <= |allEdges| && kept == AddContext(allEdges[..i], base, policy.maxNodes)
      {
        assert allEdges[..i + 1][..i] == allEdges[..i];
        var e := allEdges[i];
        if (e.from in kept) != (e.to in kept) {
          kept := kept + {e.from, e.to};
        }
        i := i + 1;
      }
      FullAddsNoContext(allEdges, i, base, policy.maxNodes);
    }

    method CutEdges(allEdges: seq<Edge>, kept: set<string>) returns (out: seq<Edge>)
      ensures out == KeptEdges(allEdges, kept, policy.maxEdges)
    {
      out := [];
      var i := 0;
      while i < |allEdges| && |out| < policy.maxEdges
        invariant 0 <= i <= |allEdges| && out == KeptEdges(allEdges[..i], kept, policy.maxEdges)
      {
        assert allEdges[..i + 1][..i] == allEdges[..i];
        if allEdges[i].from in kept && allEdges[i].to in kept {
          out := out + [allEdges[i]];
        }
        i := i + 1;
      }
      FullKeepsNoEdge(allEdges, i, kept, policy.maxEdges);
    }
  }

  lemma SortKeepsRanked(a: seq<Ranked>, b: seq<Ranked>)
    requires multiset(a) == multiset(b)
    requires forall i, j :: 0 <= i < j < |a| ==> a[i].id != a[j].id
    ensures Elements(a) == Elements(b)
    ensures forall i, j :: 0 <= i < j < |b| ==> b[i].id != b[j].id
  {
    DistinctKeysSurvive(a, b, RankedKey);
    assert forall i, j :: 0 <= i < j < |b| ==> RankedKey(b[i]) != RankedKey(b[j]);
    forall c
      ensures c in a <==> c in b
    {
      assert c in multiset(a) <==> c in multiset(b);
    }
  }

  function RankedKey(c: Ranked): string {
    c.id
  }

  function EdgesAt(adj: map<string, seq<Edge>>, id: string): seq<Edge> {
    if id in adj then adj[id] else []
  }

  lemma AdjacentIsSorted(edges: seq<Edge>, id: string)
    requires Ascending(edges, EdgeKey) && KeysIdentify(edges, EdgeKey)
    ensures Ascending(Adjacent(edges, id), EdgeKey) && KeysIdentify(Adjacent(edges, id), EdgeKey)
  {
    AdjacentIsAscending(edges, id);
    AdjacentIsIncident(edges, id);
  }

  lemma {:induction false} AdjacentIsAscending(edges: seq<Edge>, id: string)
    requires Ascending(edges, EdgeKey)
    ensures Ascending(Adjacent(edges, id), EdgeKey)
  {
    if edges != [] {
      var front, last := edges[..|edges| - 1], edges[|edges| - 1];
      AdjacentIsAscending(front, id);
      AdjacentIsIncident(front, id);
      LastIsGreatest(edges);
      var once := Adjacent(front, id) + if last.from == id then [last] else [];
      assert Adjacent(edges, id) == once + if last.to == id then [last] else [];
      hide Adjacent, Ends;
      AppendKeepsAscending(Adjacent(front, id), last);
      assert forall e :: e in once ==> e in front || e == last;
      AppendKeepsAscending(once, last);
    }
  }

  lemma LastIsGreatest(edges: seq<Edge>)
    requires Ascending(edges, EdgeKey) && edges != []
    ensures forall e :: e in edges ==> !Before(edges[|edges| - 1].id, e.id)
  {
    var last := edges[|edges| - 1];
    BeforeIsTotal(last.id, last.id);
    forall e | e in edges
      ensures !Before(last.id, e.id)
    {
      var i :| 0 <= i < |edges| && edges[i] == e;
      assert i < |edges| - 1 ==> !Before(EdgeKey(last), EdgeKey(edges[i]));
    }
  }

  lemma AppendKeepsAscending(s: seq<Edge>, e: Edge)
    requires Ascending(s, EdgeKey) && forall x :: x in s ==> !Before(e.id, x.id)
    ensures Ascending(s + [e], EdgeKey) && Ascending(s + [], EdgeKey)
  {
    assert s + [] == s;
  }

  lemma ListedKeysIdentify<T>(s: seq<T>, m: map<string, T>, key: T -> string)
    requires IsListing(s, m, key)
    ensures KeysIdentify(s, key)
  {
  }

  /** Once the node cap is reached, the rest of a pass adds nothing. */
  lemma {:induction false} FullAddsNoRelated(nodes: seq<Node>, i: nat, kept: set<string>, cap: int)
    requires i <= |nodes| && (i < |nodes| ==> |AddRelated(nodes[..i], kept, cap)| >= cap)
    ensures AddRelated(nodes, kept, cap) == AddRelated(nodes[..i], kept, cap)
  {
    if i == |nodes| {
      assert nodes[..i] == nodes;
    } else {
      var front := nodes[..|nodes| - 1];
      assert front[..i] == nodes[..i];
      FullAddsNoRelated(front, i, kept, cap);
    }
  }

  lemma {:induction false} FullAddsNoContext(edges: seq<Edge>, i: nat, kept: set<string>, cap: int)
    requires i <= |edges| && (i < |edges| ==> |AddContext(edges[..i], kept, cap)| >= cap)
    ensures AddContext(edges, kept, cap) == AddContext(edges[..i], kept, cap)
  {
    if i == |edges| {
      assert edges[..i] == edges;
    } else {
      var front := edges[..|edges| - 1];
      assert front[..i] == edges[..i];
      FullAddsNoContext(front, i, kept, cap);
    }
  }

  lemma {:induction false} FullKeepsNoEdge(edges: seq<Edge>, i: nat, kept: set<string>, cap: int)
    requires i <= |edges| && (i < |edges| ==> |KeptEdges(edges[..i], kept, cap)| >= cap)
    ensures KeptEdges(edges, kept, cap) == KeptEdges(edges[..i], kept, cap)
  {
    if i == |edges| {
      assert edges[..i] == edges;
    } else {
      var front := edges[..|edges| - 1];
      assert front[..i] == edges[..i];
      FullKeepsNoEdge(front, i, kept, cap);
    }
  }

  // ---- Order independence ---------------------------------------------------------

  /** Whatever order the maps were ranged over in, the pass leaves the same edges and
      the snapshot cut from equal maps is the same. */
  lemma OrderDoesNotMatter(nm: Naming, p: Policy, nodes: NodeMap, edges: EdgeMap, edges1: EdgeMap, edges2: EdgeMap,
                           entry: string, ns1: seq<Node>, es1: seq<Edge>, ns2: seq<Node>, es2: seq<Edge>)
    requires Overlay(edges1, edges, ServiceEdges(nm, nodes, nodes.Keys, p))
    requires Overlay(edges2, edges, ServiceEdges(nm, nodes, nodes.Keys, p))
    requires IsListing(ns1, Degraded(nodes, nodes.Keys), NodeKey) && IsListing(es1, edges1, EdgeKey)
    requires IsListing(ns2, Degraded(nodes, nodes.Keys), NodeKey) && IsListing(es2, edges2, EdgeKey)
    ensures edges1 == edges2
    ensures Bounded(ns1, es1, entry, p) == Bounded(ns2, es2, entry, p)
  {
    OverlayIsUnique(edges1, edges2, edges, ServiceEdges(nm, nodes, nodes.Keys, p));
    ListingIsUnique(ns1, ns2, Degraded(nodes, nodes.Keys), NodeKey);
    ListingIsUnique(es1, es2, edges1, EdgeKey);
  }

  // ---- Candidates of the snapshot ---------------------------------------------------

  /** BuildWithPolicy keeps a candidate when both its source and its target survived the cut. */
  method FilterCandidates(candidates: map<string, Candidate>, nodes: seq<Node>) returns (out: seq<Candidate>)
    requires Keyed(candidates, CandidateKey)
    ensures Ascending(out, CandidateKey)
    ensures forall c :: c in out <==> c.id in candidates && candidates[c.id] == c && c.source in Ids(nodes) && c.target in Ids(nodes)
    ensures forall i, j :: 0 <= i < j < |out| ==> out[i].id != out[j].id
  {
    out := [];
    var todo := candidates.Keys;
    while todo != {}
      invariant todo <= candidates.Keys
      invariant forall c :: c in out <==>
                  c.id in candidates && c.id !in todo && candidates[c.id] == c && c.source in Ids(nodes) && c.target in Ids(nodes)
      invariant forall i, j :: 0 <= i < j < |out| ==> CandidateKey(out[i]) != CandidateKey(out[j])
      decreases todo
    {
      var id :| id in todo;
      todo := todo - {id};
      var c := candidates[id];
      if (exists n :: n in nodes && n.id == c.source) && (exists n :: n in nodes && n.id == c.target) {
        out := out + [c];
      }
    }
    var sorted := SortBy(out, CandidateKey);
    assert forall c :: c in sorted <==> c in multiset(sorted);
    assert forall c :: c in out <==> c in multiset(out);
    DistinctKeysSurvive(out, sorted, CandidateKey);
    assert forall i :: 0 <= i < |sorted| ==> CandidateKey(sorted[i]) == sorted[i].id;
    out := sorted;
  }

  function CandidateKey(c: Candidate): string {
    c.id
  }
}
