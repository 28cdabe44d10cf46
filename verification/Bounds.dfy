/** The rest of bounded: context passes, caps and truncation, and what the returned
    snapshot guarantees. */
module Bounds {
  import opened Graph
  import opened Order
  import opened Traversal

  /** Resources tagged by the user stay, in listing order, while there is room. */
  function AddRelated(nodes: seq<Node>, kept: set<string>, cap: int): set<string> {
    if nodes == [] then kept
    else
      var before := AddRelated(nodes[..|nodes| - 1], kept, cap);
      var last := nodes[|nodes| - 1];
      if |before| < cap && last.role == "related" then before + {last.id} else before
  }

  /** An edge with exactly one kept end adds the other, while there is room. */
  function AddContext(edges: seq<Edge>, kept: set<string>, cap: int): set<string> {
    if edges == [] then kept
    else
      var before := AddContext(edges[..|edges| - 1], kept, cap);
      var last := edges[|edges| - 1];
      if |before| < cap && (last.from in before) != (last.to in before) then before + {last.from, last.to} else before
  }

  function KeptNodes(nodes: seq<Node>, kept: set<string>): seq<Node> {
    if nodes == [] then []
    else
      var last := nodes[|nodes| - 1];
      KeptNodes(nodes[..|nodes| - 1], kept) + if last.id in kept then [last] else []
  }

  function KeptEdges(edges: seq<Edge>, kept: set<string>, cap: int): seq<Edge> {
    if edges == [] then []
    else
      var before := KeptEdges(edges[..|edges| - 1], kept, cap);
      var last := edges[|edges| - 1];
      before + if |before| < cap && last.from in kept && last.to in kept then [last] else []
  }

  ghost function KeptIds(nodes: seq<Node>, edges: seq<Edge>, entry: string, p: Policy): set<string> {
    AddContext(edges, AddRelated(nodes, Visited(edges, entry, p).Keys, p.maxNodes), p.maxNodes)
  }

  datatype Snapshot = Snapshot(nodes: seq<Node>, edges: seq<Edge>, truncated: bool)

  /** What bounded returns for the sorted nodes and edges. */
  ghost function Bounded(nodes: seq<Node>, edges: seq<Edge>, entry: string, p: Policy): Snapshot {
    var kept := KeptIds(nodes, edges, entry, p);
    var ns, es := KeptNodes(nodes, kept), KeptEdges(edges, kept, p.maxEdges);
    Snapshot(ns, es, |ns| < |nodes| || |es| < |edges|)
  }

  // ---- Caps --------------------------------------------------------------------

  function Room(p: Policy): nat {
    if p.maxNodes < 1 then 1 else p.maxNodes
  }

  lemma {:induction false} ScanRespectsCap(cur: Visit, adj: seq<Edge>, seen: Seen, queue: seq<Visit>, p: Policy)
    requires |seen| < p.maxNodes
    ensures |Scan(cur, adj, seen, queue, p).0| <= p.maxNodes
    decreases |adj|
  {
    if adj != [] {
      var v := Follow(cur, adj[0]);
      if !WithinBudget(v, p) || v.id in seen {
        ScanRespectsCap(cur, adj[1..], seen, queue, p);
      } else if |seen[v.id := v]| < p.maxNodes {
        ScanRespectsCap(cur, adj[1..], seen[v.id := v], queue + [v], p);
      }
    }
  }

  lemma {:induction false} TraverseRespectsCap(edges: seq<Edge>, seen: Seen, queue: seq<Visit>, p: Policy)
    requires |seen| <= Room(p)
    ensures |Traverse(edges, seen, queue, p)| <= Room(p)
    decreases Ends(edges) - seen.Keys, |queue|
  {
    if queue != [] && |seen| < p.maxNodes {
      var cur := queue[0];
      var adj := Adjacent(edges, cur.id);
      var (seen', queue') := Scan(cur, adj, seen, queue[1..], p);
      ScanGrows(cur, adj, seen, queue[1..], p);
      AdjacentIsIncident(edges, cur.id);
      ScanRespectsCap(cur, adj, seen, queue[1..], p);
      assert seen' != seen ==> seen'.Keys != seen.Keys;
      TraverseRespectsCap(edges, seen', queue', p);
    }
  }

  lemma {:induction false} RelatedRespectsCap(nodes: seq<Node>, kept: set<string>, p: Policy)
    requires |kept| <= Room(p)
    ensures kept <= AddRelated(nodes, kept, p.maxNodes) && |AddRelated(nodes, kept, p.maxNodes)| <= Room(p)
  {
    if nodes != [] {
      RelatedRespectsCap(nodes[..|nodes| - 1], kept, p);
    }
  }

  lemma {:induction false} ContextRespectsCap(edges: seq<Edge>, kept: set<string>, p: Policy)
    requires |kept| <= Room(p)
    ensures kept <= AddContext(edges, kept, p.maxNodes) && |AddContext(edges, kept, p.maxNodes)| <= Room(p)
  {
    if edges != [] {
      ContextRespectsCap(edges[..|edges| - 1], kept, p);
      var before, last := AddContext(edges[..|edges| - 1], kept, p.maxNodes), edges[|edges| - 1];
      if last.from in before {
        assert before + {last.from, last.to} == before + {last.to};
      } else {
        assert last.to in before ==> before + {last.from, last.to} == before + {last.from};
      }
    }
  }

  /** Kept ids fit the node cap, and the traversal loop's finds are among them. */
  lemma KeptIdsRespectCap(nodes: seq<Node>, edges: seq<Edge>, entry: string, p: Policy)
    ensures |KeptIds(nodes, edges, entry, p)| <= Room(p)
    ensures Visited(edges, entry, p).Keys <= KeptIds(nodes, edges, entry, p)
  {
    var seen := Visited(edges, entry, p);
    TraverseRespectsCap(edges, map[entry := Start(entry)], [Start(entry)], p);
    RelatedRespectsCap(nodes, seen.Keys, p);
    ContextRespectsCap(edges, AddRelated(nodes, seen.Keys, p.maxNodes), p);
  }

  ghost predicate DistinctIds(nodes: seq<Node>) {
    forall i, j :: 0 <= i < j < |nodes| ==> nodes[i].id != nodes[j].id
  }

  ghost function Ids(nodes: seq<Node>): set<string> {
    set n | n in nodes :: n.id
  }

  /** The node filter keeps exactly the listed nodes with a kept id. */
  lemma {:induction false} KeptNodesAreFiltered(nodes: seq<Node>, kept: set<string>)
    ensures forall n :: n in KeptNodes(nodes, kept) <==> n in nodes && n.id in kept
    ensures |KeptNodes(nodes, kept)| <= |nodes|
    ensures |KeptNodes(nodes, kept)| == |nodes| <==> KeptNodes(nodes, kept) == nodes
  {
    if nodes != [] {
      var front, last := nodes[..|nodes| - 1], nodes[|nodes| - 1];
      assert nodes == front + [last];
      KeptNodesAreFiltered(front, kept);
    }
  }

  lemma {:induction false} KeptNodesFit(nodes: seq<Node>, kept: set<string>)
    requires DistinctIds(nodes)
    ensures |KeptNodes(nodes, kept)| == |Ids(KeptNodes(nodes, kept))|
  {
    if nodes == [] {
      assert Ids([]) == {};
    } else {
      var front, last := nodes[..|nodes| - 1], nodes[|nodes| - 1];
      KeptNodesFit(front, kept);
      KeptNodesAreFiltered(front, kept);
      var inner := KeptNodes(front, kept);
      if last.id in kept {
        assert last.id !in Ids(inner);
        assert Ids(inner + [last]) == Ids(inner) + {last.id};
        assert KeptNodes(nodes, kept) == inner + [last];
      } else {
        assert KeptNodes(nodes, kept) == inner;
      }
    }
  }

  /** The edge filter keeps listed edges between kept ids, up to the cap, and it
      keeps them all exactly when nothing is lost. */
  lemma {:induction false} KeptEdgesAreFiltered(edges: seq<Edge>, kept: set<string>, cap: int)
    ensures forall e :: e in KeptEdges(edges, kept, cap) ==> e in edges && e.from in kept && e.to in kept
    ensures |KeptEdges(edges, kept, cap)| <= if cap < 0 then 0 else cap
    ensures |KeptEdges(edges, kept, cap)| <= |edges|
    ensures |KeptEdges(edges, kept, cap)| == |edges| <==> KeptEdges(edges, kept, cap) == edges
    ensures |KeptEdges(edges, kept, cap)| < cap ==>
              forall e :: e in edges && e.from in kept && e.to in kept ==> e in KeptEdges(edges, kept, cap)
  {
    if edges != [] {
      var front, last := edges[..|edges| - 1], edges[|edges| - 1];
      assert edges == front + [last];
      KeptEdgesAreFiltered(front, kept, cap);
    }
  }

  // ---- Connection ----------------------------------------------------------------

  /** A trail of the full graph leads to the id from the entry or from a related node. */
  ghost predicate Anchored(nodes: seq<Node>, edges: seq<Edge>, entry: string, id: string) {
    exists vs, path :: AnchorTrail(nodes, edges, entry, id, vs, path)
  }

  ghost predicate AnchorTrail(nodes: seq<Node>, edges: seq<Edge>, entry: string, id: string, vs: seq<string>,
          path: seq<Edge>) {
    && Trail(edges, vs, path) && vs[|path|] == id
    && (vs[0] == entry || exists n :: n in nodes && n.role == "related" && n.id == vs[0])
  }

  lemma NeighbourIsAnchored(nodes: seq<Node>, edges: seq<Edge>, entry: string, e: Edge, a: string, b: string)
    requires Anchored(nodes, edges, entry, a) && e in edges && Joins(e, a, b)
    ensures Anchored(nodes, edges, entry, b)
  {
    var vs, path :| AnchorTrail(nodes, edges, entry, a, vs, path);
    assert AnchorTrail(nodes, edges, entry, b, vs + [b], path + [e]);
  }

  lemma {:induction false} RelatedIsAnchored(nodes: seq<Node>, k: nat, edges: seq<Edge>, entry: string,
          kept: set<string>, cap: int)
    requires k <= |nodes| && forall id :: id in kept ==> Anchored(nodes, edges, entry, id)
    ensures forall id :: id in AddRelated(nodes[..k], kept, cap) ==> Anchored(nodes, edges, entry, id)
  {
    if k > 0 {
      RelatedIsAnchored(nodes, k - 1, edges, entry, kept, cap);
      assert nodes[..k][..k - 1] == nodes[..k - 1];
      if nodes[k - 1].role == "related" {
        assert AnchorTrail(nodes, edges, entry, nodes[k - 1].id, [nodes[k - 1].id], []);
      }
    }
  }

  lemma {:induction false} ContextIsAnchored(nodes: seq<Node>, edges: seq<Edge>, k: nat, entry: string,
          kept: set<string>, cap: int)
    requires k <= |edges| && forall id :: id in kept ==> Anchored(nodes, edges, entry, id)
    ensures forall id :: id in AddContext(edges[..k], kept, cap) ==> Anchored(nodes, edges, entry, id)
  {
    if k > 0 {
      ContextIsAnchored(nodes, edges, k - 1, entry, kept, cap);
      assert edges[..k][..k - 1] == edges[..k - 1];
      var before, e := AddContext(edges[..k - 1], kept, cap), edges[k - 1];
      if e.from in before {
        NeighbourIsAnchored(nodes, edges, entry, e, e.from, e.to);
      } else if e.to in before {
        NeighbourIsAnchored(nodes, edges, entry, e, e.to, e.from);
      }
    }
  }

  /** Everything kept hangs together with the entry or with a related node. */
  lemma KeptIdsAreAnchored(nodes: seq<Node>, edges: seq<Edge>, entry: string, p: Policy)
    requires 0 <= p.maxObservedDepth && 0 <= p.maxInferredHops
    ensures forall id :: id in KeptIds(nodes, edges, entry, p) ==> Anchored(nodes, edges, entry, id)
  {
    var seen := Visited(edges, entry, p);
    VisitsAreWitnessed(edges, entry, p);
    forall id | id in seen
      ensures Anchored(nodes, edges, entry, id)
    {
      var vs, path :| TrailTo(edges, entry, seen[id], vs, path);
      assert AnchorTrail(nodes, edges, entry, id, vs, path);
    }
    RelatedIsAnchored(nodes, |nodes|, edges, entry, seen.Keys, p.maxNodes);
    assert nodes[..|nodes|] == nodes && edges[..|edges|] == edges;
    ContextIsAnchored(nodes, edges, |edges|, entry, AddRelated(nodes, seen.Keys, p.maxNodes), p.maxNodes);
  }

  // ---- The snapshot --------------------------------------------------------------

  /** Size, content and connection of the returned nodes. */
  lemma SnapshotNodes(nodes: seq<Node>, edges: seq<Edge>, entry: string, p: Policy)
    requires DistinctIds(nodes) && 0 <= p.maxObservedDepth && 0 <= p.maxInferredHops
    ensures var s := Bounded(nodes, edges, entry, p);
      && |s.nodes| <= Room(p)
      && (forall n :: n in nodes && n.id in Visited(edges, entry, p) ==> n in s.nodes)
      && (forall n :: n in s.nodes ==> n in nodes && Anchored(nodes, edges, entry, n.id))
  {
    var kept := KeptIds(nodes, edges, entry, p);
    KeptIdsRespectCap(nodes, edges, entry, p);
    KeptIdsAreAnchored(nodes, edges, entry, p);
    KeptNodesAreFiltered(nodes, kept);
    KeptNodesFit(nodes, kept);
    SubsetCardinality(Ids(KeptNodes(nodes, kept)), kept);
  }

  /** Size of the returned edges; where every built edge ends in nodes, a returned
      edge ends in returned nodes. */
  lemma SnapshotEdges(nodes: seq<Node>, edges: seq<Edge>, entry: string, p: Policy)
    ensures var s := Bounded(nodes, edges, entry, p);
      && |s.edges| <= (if p.maxEdges < 0 then 0 else p.maxEdges)
      && (forall e :: e in s.edges ==> e in edges)
      && (Ends(edges) <= Ids(nodes) ==> Ends(s.edges) <= Ids(s.nodes))
  {
    var kept := KeptIds(nodes, edges, entry, p);
    var s := Bounded(nodes, edges, entry, p);
    KeptNodesAreFiltered(nodes, kept);
    KeptEdgesAreFiltered(edges, kept, p.maxEdges);
    if Ends(edges) <= Ids(nodes) {
      forall id | id in Ends(s.edges)
        ensures id in Ids(s.nodes)
      {
        assert id in kept && id in Ends(edges);
        var n :| n in nodes && n.id == id;
        assert n in s.nodes;
      }
    }
  }

  /** The ids of the listed resources that the user tagged. */
  ghost function Tagged(nodes: seq<Node>): set<string> {
    set n | n in nodes && n.role == "related" :: n.id
  }

  lemma TaggedFirst(nodes: seq<Node>)
    requires nodes != []
    ensures var last := nodes[|nodes| - 1];
      Tagged(nodes) == Tagged(nodes[..|nodes| - 1]) + if last.role == "related" then {last.id} else {}
  {
    var front, last := nodes[..|nodes| - 1], nodes[|nodes| - 1];
    assert forall n :: n in nodes <==> n in front || n == last;
  }

  /** The pass adds exactly the tagged resources of the listing up to some place, the end unless the cap
      was reached. */
  lemma {:induction false} RelatedExactly(nodes: seq<Node>, base: set<string>, cap: int) returns (n: nat)
    ensures n <= |nodes| && (n == |nodes| || |AddRelated(nodes, base, cap)| >= cap)
    ensures AddRelated(nodes, base, cap) == base + Tagged(nodes[..n])
    ensures n > 0 ==> |base + Tagged(nodes[..n - 1])| < cap
  {
    if nodes == [] {
      n := 0;
      TaggedNone();
    } else {
      var front := nodes[..|nodes| - 1];
      n := RelatedExactly(front, base, cap);
      if |AddRelated(front, base, cap)| < cap {
        RelatedWhole(nodes, base, cap, n);
        n := |nodes|;
      } else {
        RelatedFull(nodes, base, cap, n);
      }
    }
  }

  lemma RelatedWhole(nodes: seq<Node>, base: set<string>, cap: int, n: nat)
    requires nodes != [] && n == |nodes| - 1 && |AddRelated(nodes[..n], base, cap)| < cap
    requires AddRelated(nodes[..n], base, cap) == base + Tagged(nodes[..n][..n])
    ensures AddRelated(nodes, base, cap) == base + Tagged(nodes[..|nodes|]) && |base + Tagged(nodes[..|nodes| - 1])| < cap
  {
    assert nodes[..|nodes|] == nodes && nodes[..n][..n] == nodes[..n];
    TaggedFirst(nodes);
    hide Tagged;
    RelatedLast(nodes, base, cap);
    hide AddRelated;
  }

  lemma RelatedFull(nodes: seq<Node>, base: set<string>, cap: int, n: nat)
    requires nodes != [] && n <= |nodes| - 1 && |AddRelated(nodes[..|nodes| - 1], base, cap)| >= cap
    ensures nodes[..|nodes| - 1][..n] == nodes[..n] && (n > 0 ==> nodes[..|nodes| - 1][..n - 1] == nodes[..n - 1])
    ensures AddRelated(nodes, base, cap) == AddRelated(nodes[..|nodes| - 1], base, cap)
  {
  }

  lemma RelatedLast(nodes: seq<Node>, base: set<string>, cap: int)
    requires nodes != [] && |AddRelated(nodes[..|nodes| - 1], base, cap)| < cap
    ensures var last := nodes[|nodes| - 1];
      AddRelated(nodes, base, cap) == AddRelated(nodes[..|nodes| - 1], base, cap) + if last.role == "related" then {last.id} else {}
  {
  }

  lemma TaggedNone()
    ensures Tagged([]) == {}
  {
  }

  /** With room to spare every tagged resource is returned, connected or not. */
  lemma TaggedAreReturned(nodes: seq<Node>, edges: seq<Edge>, entry: string, p: Policy, n: Node)
    requires |KeptIds(nodes, edges, entry, p)| < p.maxNodes
    requires n in nodes && n.role == "related"
    ensures n in Bounded(nodes, edges, entry, p).nodes
  {
    var visited := Visited(edges, entry, p).Keys;
    var related := AddRelated(nodes, visited, p.maxNodes);
    var m := RelatedExactly(nodes, visited, p.maxNodes);
    ContextWithin(edges, related, p.maxNodes);
    SubsetCardinality(related, KeptIds(nodes, edges, entry, p));
    assert nodes[..|nodes|] == nodes;
    KeptNodesAreFiltered(nodes, KeptIds(nodes, edges, entry, p));
  }

  /** What is kept: the ends of rising trails over a first part of the edges, from what the walk visited
      and the tagged resources of a first part of the nodes; each part the whole unless the cap was reached. */
  lemma KeptExactly(nodes: seq<Node>, edges: seq<Edge>, entry: string, p: Policy) returns (n: nat, m: nat)
    ensures n <= |nodes| && m <= |edges|
    ensures var base := Visited(edges, entry, p).Keys + Tagged(nodes[..n]);
      && (n == |nodes| || |base| >= p.maxNodes)
      && (m == |edges| || |KeptIds(nodes, edges, entry, p)| >= p.maxNodes)
      && (forall id :: id in KeptIds(nodes, edges, entry, p) <==> RisesTo(edges[..m], base, id))
  {
    var visited := Visited(edges, entry, p).Keys;
    n := RelatedExactly(nodes, visited, p.maxNodes);
    m := ContextExactly(edges, visited + Tagged(nodes[..n]), p.maxNodes);
  }

  // ---- The cut ----------------------------------------------------------------------

  ghost function NodeIds(nodes: seq<Node>): (r: seq<string>)
    ensures |r| == |nodes| && forall i :: 0 <= i < |nodes| ==> r[i] == nodes[i].id
  {
    seq(|nodes|, i requires 0 <= i < |nodes| => nodes[i].id)
  }

  ghost function EdgeIds(edges: seq<Edge>): (r: seq<string>)
    ensures |r| == |edges| && forall i :: 0 <= i < |edges| ==> r[i] == edges[i].id
  {
    seq(|edges|, i requires 0 <= i < |edges| => edges[i].id)
  }

  /** Both ends are kept. */
  ghost predicate Inside(e: Edge, edges: seq<Edge>, kept: set<string>) {
    e in edges && e.from in kept && e.to in kept
  }

  lemma AscendingMore(ids: seq<string>, id: string)
    requires StrictlyAscending(ids) && forall x :: x in ids ==> Before(x, id)
    ensures StrictlyAscending(ids + [id])
  {
    hide Before;
    assert forall i :: 0 <= i < |ids| ==> ids[i] in ids;
  }

  lemma AscendingFront(ids: seq<string>, id: string)
    requires StrictlyAscending(ids + [id])
    ensures StrictlyAscending(ids) && forall x :: x in ids ==> Before(x, id)
  {
    hide Before;
    var all := ids + [id];
    assert all[|ids|] == id && forall i :: 0 <= i < |ids| ==> all[i] == ids[i];
    forall i, j | 0 <= i < j < |ids|
      ensures Before(ids[i], ids[j])
    {
      assert Before(all[i], all[j]);
    }
    forall x | x in ids
      ensures Before(x, id)
    {
      var i :| 0 <= i < |ids| && ids[i] == x;
      assert Before(all[i], all[|ids|]);
    }
  }

  lemma {:induction false} KeptNodesStayListed(nodes: seq<Node>, kept: set<string>)
    requires StrictlyAscending(NodeIds(nodes))
    ensures StrictlyAscending(NodeIds(KeptNodes(nodes, kept)))
    ensures forall x :: x in NodeIds(KeptNodes(nodes, kept)) ==> x in NodeIds(nodes)
  {
    hide StrictlyAscending, Before;
    if nodes == [] {
      assert NodeIds(KeptNodes(nodes, kept)) == NodeIds(nodes);
    } else {
      var front, last := nodes[..|nodes| - 1], nodes[|nodes| - 1];
      var ids := NodeIds(KeptNodes(front, kept));
      assert NodeIds(nodes) == NodeIds(front) + [last.id];
      AscendingFront(NodeIds(front), last.id);
      KeptNodesStayListed(front, kept);
      if last.id in kept {
        assert NodeIds(KeptNodes(nodes, kept)) == ids + [last.id];
        AscendingMore(ids, last.id);
      } else {
        assert KeptNodes(nodes, kept) == KeptNodes(front, kept);
      }
    }
  }

  lemma {:induction false} KeptEdgesStayListed(edges: seq<Edge>, kept: set<string>, cap: int)
    requires StrictlyAscending(EdgeIds(edges))
    ensures StrictlyAscending(EdgeIds(KeptEdges(edges, kept, cap)))
    ensures forall x :: x in EdgeIds(KeptEdges(edges, kept, cap)) ==> x in EdgeIds(edges)
  {
    hide StrictlyAscending, Before;
    if edges == [] {
      assert EdgeIds(KeptEdges(edges, kept, cap)) == EdgeIds(edges);
    } else {
      var front, last := edges[..|edges| - 1], edges[|edges| - 1];
      var r := KeptEdges(front, kept, cap);
      assert EdgeIds(edges) == EdgeIds(front) + [last.id];
      AscendingFront(EdgeIds(front), last.id);
      KeptEdgesStayListed(front, kept, cap);
      if |r| < cap && last.from in kept && last.to in kept {
        assert EdgeIds(KeptEdges(edges, kept, cap)) == EdgeIds(r) + [last.id];
        AscendingMore(EdgeIds(r), last.id);
      } else {
        assert KeptEdges(edges, kept, cap) == r;
      }
    }
  }

  /** The cut keeps the edges inside up to some place of the listing. */
  lemma {:induction false} CutAt(edges: seq<Edge>, kept: set<string>, cap: int) returns (n: nat)
    ensures n <= |edges| && (n == |edges| || |KeptEdges(edges, kept, cap)| >= cap)
    ensures forall e :: e in KeptEdges(edges, kept, cap) <==> Inside(e, edges[..n], kept)
  {
    if edges == [] {
      n := 0;
    } else {
      var front, last := edges[..|edges| - 1], edges[|edges| - 1];
      n := CutAt(front, kept, cap);
      assert front[..n] == edges[..n];
      if |KeptEdges(front, kept, cap)| < cap {
        n := |edges|;
        assert edges[..n] == edges && front[..|front|] == front && edges == front + [last];
      }
    }
  }

  /** An edge inside that is left out comes after every edge that is returned. */
  lemma FirstEdgesStay(edges: seq<Edge>, kept: set<string>, cap: int, e: Edge, f: Edge)
    requires StrictlyAscending(EdgeIds(edges)) && e in KeptEdges(edges, kept, cap) && Inside(f, edges, kept)
    requires f !in KeptEdges(edges, kept, cap)
    ensures Before(e.id, f.id)
  {
    var n := CutAt(edges, kept, cap);
    var i :| 0 <= i < n && edges[i] == e;
    assert edges == edges[..n] + edges[n..] && f !in edges[..n];
    var k :| 0 <= k < |edges[n..]| && edges[n..][k] == f;
    assert Before(EdgeIds(edges)[i], EdgeIds(edges)[n + k]);
  }

  /** What is returned, in full: the listed nodes that are kept; of the edges between kept ids the
      first ones up to the cap; both by ascending id; and whether anything is missing. */
  lemma SnapshotInFull(nodes: seq<Node>, edges: seq<Edge>, entry: string, p: Policy)
    requires StrictlyAscending(NodeIds(nodes)) && StrictlyAscending(EdgeIds(edges))
    ensures var s, kept := Bounded(nodes, edges, entry, p), KeptIds(nodes, edges, entry, p);
      && (forall n :: n in s.nodes <==> n in nodes && n.id in kept) && StrictlyAscending(NodeIds(s.nodes))
      && (forall e :: e in s.edges ==> Inside(e, edges, kept)) && StrictlyAscending(EdgeIds(s.edges))
      && |s.edges| <= (if p.maxEdges < 0 then 0 else p.maxEdges)
      && (forall f :: Inside(f, edges, kept) && f !in s.edges ==>
            |s.edges| >= p.maxEdges && forall e :: e in s.edges ==> Before(e.id, f.id))
      && (s.truncated <==> (exists n :: n in nodes && n !in s.nodes) || exists e :: e in edges && e !in s.edges)
  {
    var s, kept := Bounded(nodes, edges, entry, p), KeptIds(nodes, edges, entry, p);
    KeptNodesAreFiltered(nodes, kept);
    KeptEdgesAreFiltered(edges, kept, p.maxEdges);
    KeptNodesStayListed(nodes, kept);
    KeptEdgesStayListed(edges, kept, p.maxEdges);
    forall e, f | e in s.edges && Inside(f, edges, kept) && f !in s.edges
      ensures Before(e.id, f.id)
    {
      FirstEdgesStay(edges, kept, p.maxEdges, e, f);
    }
    NothingMissing(nodes, edges, s);
  }

  lemma NothingMissing(nodes: seq<Node>, edges: seq<Edge>, s: Snapshot)
    requires StrictlyAscending(NodeIds(nodes)) && StrictlyAscending(EdgeIds(edges))
    requires StrictlyAscending(NodeIds(s.nodes)) && StrictlyAscending(EdgeIds(s.edges))
    requires forall n :: n in s.nodes ==> n in nodes
    requires forall e :: e in s.edges ==> e in edges
    ensures (forall n :: n in nodes ==> n in s.nodes) ==> |s.nodes| == |nodes|
    ensures (forall e :: e in edges ==> e in s.edges) ==> |s.edges| == |edges|
  {
    hide StrictlyAscending;
    IdsOfNodes(s.nodes, nodes);
    IdsOfNodes(nodes, s.nodes);
    IdsOfEdges(s.edges, edges);
    IdsOfEdges(edges, s.edges);
    WholeExactly(NodeIds(nodes), NodeIds(s.nodes));
    WholeExactly(EdgeIds(edges), EdgeIds(s.edges));
  }

  lemma IdsOfNodes(some: seq<Node>, all: seq<Node>)
    ensures (forall n :: n in some ==> n in all) ==> forall x :: x in NodeIds(some) ==> x in NodeIds(all)
  {
    if forall n :: n in some ==> n in all {
      forall x | x in NodeIds(some)
        ensures x in NodeIds(all)
      {
        var i :| 0 <= i < |some| && some[i].id == x;
        assert some[i] in all;
        var k :| 0 <= k < |all| && all[k] == some[i];
        assert NodeIds(all)[k] == x;
      }
    }
  }

  lemma IdsOfEdges(some: seq<Edge>, all: seq<Edge>)
    ensures (forall e :: e in some ==> e in all) ==> forall x :: x in EdgeIds(some) ==> x in EdgeIds(all)
  {
    if forall e :: e in some ==> e in all {
      forall x | x in EdgeIds(some)
        ensures x in EdgeIds(all)
      {
        var i :| 0 <= i < |some| && some[i].id == x;
        assert some[i] in all;
        var k :| 0 <= k < |all| && all[k] == some[i];
        assert EdgeIds(all)[k] == x;
      }
    }
  }

  lemma WholeExactly(all: seq<string>, some: seq<string>)
    requires StrictlyAscending(all) && StrictlyAscending(some) && forall x :: x in some ==> x in all
    ensures (forall x :: x in all ==> x in some) ==> all == some
  {
    if forall x :: x in all ==> x in some {
      ListsIsUnique(all, some, set x | x in all);
    }
  }

  lemma {:induction false} RelatedWithin(nodes: seq<Node>, kept: set<string>, cap: int)
    ensures kept <= AddRelated(nodes, kept, cap) <= kept + Ids(nodes)
  {
    if nodes != [] {
      var front, last := nodes[..|nodes| - 1], nodes[|nodes| - 1];
      RelatedWithin(front, kept, cap);
      assert last in nodes && forall n :: n in front ==> n in nodes;
    }
  }

  lemma {:induction false} ContextWithin(edges: seq<Edge>, kept: set<string>, cap: int)
    ensures kept <= AddContext(edges, kept, cap) <= kept + Ends(edges)
  {
    if edges != [] {
      var front, last := edges[..|edges| - 1], edges[|edges| - 1];
      ContextWithin(front, kept, cap);
      assert last in edges && forall e :: e in front ==> e in edges;
    }
  }

  /** With room to spare, the context pass keeps the far end of every edge at a kept id. */
  lemma {:induction false} ContextReaches(edges: seq<Edge>, kept: set<string>, cap: int, e: Edge)
    requires e in edges && e.from in kept && |kept + Ends(edges)| < cap
    ensures e.to in AddContext(edges, kept, cap)
  {
    var front, last := edges[..|edges| - 1], edges[|edges| - 1];
    assert edges == front + [last];
    ContextWithin(front, kept, cap);
    var before := AddContext(front, kept, cap);
    assert forall x :: x in front ==> x in edges;
    assert kept + Ends(front) <= kept + Ends(edges);
    SubsetCardinality(before, kept + Ends(edges));
    if e in front {
      SubsetCardinality(kept + Ends(front), kept + Ends(edges));
      ContextReaches(front, kept, cap, e);
    }
  }

  /** A policy with room for everything that does not walk. */
  function Roomy(nodes: nat, edges: nat): Policy {
    Policy(0, 0, nodes, edges, 0, 0, 0)
  }

  lemma EntryIsVisited(edges: seq<Edge>, entry: string, p: Policy)
    requires 0 <= p.maxObservedDepth && 0 <= p.maxInferredHops
    ensures entry in Visited(edges, entry, p)
    ensures Visited(edges, entry, p).Keys <= {entry} + Ends(edges)
  {
    VisitsAreWitnessed(edges, entry, p);
    forall id | id in Visited(edges, entry, p) && id != entry
      ensures id in Ends(edges)
    {
      var v := Visited(edges, entry, p)[id];
      var vs, path :| TrailTo(edges, entry, v, vs, path);
      assert |path| > 0;
      assert Joins(path[|path| - 1], vs[|path| - 1], vs[|path|]) && path[|path| - 1] in edges;
    }
  }

  /** Every edge is returned, with both its ends kept, when its first end is the entry and there is room. */
  lemma EdgeIsReturned(nodes: seq<Node>, edges: seq<Edge>, e: Edge)
    requires e in edges
    ensures var p := Roomy(|{e.from} + Ends(edges) + Ids(nodes)| + 1, |edges|);
            e in Bounded(nodes, edges, e.from, p).edges
  {
    var all := {e.from} + Ends(edges) + Ids(nodes);
    var p := Roomy(|all| + 1, |edges|);
    EntryIsVisited(edges, e.from, p);
    var visited := Visited(edges, e.from, p).Keys;
    var related := AddRelated(nodes, visited, p.maxNodes);
    RelatedWithin(nodes, visited, p.maxNodes);
    hide Visited, AddRelated;
    SubsetCardinality(related + Ends(edges), all);
    ContextReaches(edges, related, p.maxNodes, e);
    ContextWithin(edges, related, p.maxNodes);
    var kept := KeptIds(nodes, edges, e.from, p);
    assert kept == AddContext(edges, related, p.maxNodes);
    KeptEdgesAreFiltered(edges, kept, p.maxEdges);
  }

  /** Returned edges end in returned nodes for every entry and policy exactly when every built edge
      ends in nodes. */
  lemma SnapshotsAreClosedExactly(nodes: seq<Node>, edges: seq<Edge>)
    ensures (forall entry, p :: Ends(Bounded(nodes, edges, entry, p).edges) <= Ids(Bounded(nodes, edges, entry, p).nodes))
       <==> Ends(edges) <= Ids(nodes)
  {
    if Ends(edges) <= Ids(nodes) {
      forall entry, p
        ensures Ends(Bounded(nodes, edges, entry, p).edges) <= Ids(Bounded(nodes, edges, entry, p).nodes)
      {
        SnapshotEdges(nodes, edges, entry, p);
      }
    } else {
      var id :| id in Ends(edges) && id !in Ids(nodes);
      var e :| e in edges && (e.from == id || e.to == id);
      DanglingEdgeIsReturned(nodes, edges, e);
    }
  }

  /** An edge that ends in no node, such as a mounts edge to a claim that was not collected, is returned
      for some entry and policy. */
  lemma DanglingEdgeIsReturned(nodes: seq<Node>, edges: seq<Edge>, e: Edge)
    requires e in edges && !({e.from, e.to} <= Ids(nodes))
    ensures exists entry, p :: !(Ends(Bounded(nodes, edges, entry, p).edges) <= Ids(Bounded(nodes, edges, entry, p).nodes))
  {
    var p := Roomy(|{e.from} + Ends(edges) + Ids(nodes)| + 1, |edges|);
    var s := Bounded(nodes, edges, e.from, p);
    EdgeIsReturned(nodes, edges, e);
    assert e.from in Ends(s.edges) && e.to in Ends(s.edges);
    assert Ids(s.nodes) <= Ids(nodes) by {
      KeptNodesAreFiltered(nodes, KeptIds(nodes, edges, e.from, p));
    }
  }

  /** The truncation flag is exact: it is off precisely when nothing was left out. */
  lemma TruncationIsExact(nodes: seq<Node>, edges: seq<Edge>, entry: string, p: Policy)
    ensures var s := Bounded(nodes, edges, entry, p);
      !s.truncated <==> s.nodes == nodes && s.edges == edges
  {
    KeptNodesAreFiltered(nodes, KeptIds(nodes, edges, entry, p));
    KeptEdgesAreFiltered(edges, KeptIds(nodes, edges, entry, p), p.maxEdges);
  }

  // ---- What the context pass adds --------------------------------------------------

  /** A trail whose edges come later and later in the listing. */
  ghost predicate RisingTrail(edges: seq<Edge>, vs: seq<string>, at: seq<int>) {
    && |vs| == |at| + 1
    && (forall k :: 0 <= k < |at| ==> 0 <= at[k] < |edges| && Joins(edges[at[k]], vs[k], vs[k + 1]))
    && (forall i, k :: 0 <= i < k < |at| ==> at[i] < at[k])
  }

  ghost predicate RisesTo(edges: seq<Edge>, base: set<string>, id: string) {
    exists vs, at :: RisingTrail(edges, vs, at) && vs[0] in base && vs[|at|] == id
  }

  lemma RisingOverPrefix(edges: seq<Edge>, n: nat, vs: seq<string>, at: seq<int>)
    requires n <= |edges|
    ensures RisingTrail(edges[..n], vs, at) <==> RisingTrail(edges, vs, at) && (at != [] ==> at[|at| - 1] < n)
  {
    if RisingTrail(edges, vs, at) && at != [] && at[|at| - 1] < n {
      forall k | 0 <= k < |at|
        ensures at[k] < n
      {
        assert k < |at| - 1 ==> at[k] < at[|at| - 1];
      }
    }
  }

  lemma RisesFurther(front: seq<Edge>, last: Edge, base: set<string>, a: string, b: string)
    requires RisesTo(front, base, a) && Joins(last, a, b)
    ensures RisesTo(front + [last], base, b)
  {
    var vs, at :| RisingTrail(front, vs, at) && vs[0] in base && vs[|at|] == a;
    var vs', at' := vs + [b], at + [|front|];
    hide Joins;
    assert (front + [last])[..|front|] == front;
    RisingOverPrefix(front + [last], |front|, vs, at);
    assert RisingTrail(front + [last], vs', at');
    assert vs'[0] == vs[0] && vs'[|at'|] == b;
  }

  lemma RisesStill(edges: seq<Edge>, n: nat, base: set<string>, id: string)
    requires n <= |edges| && RisesTo(edges[..n], base, id)
    ensures RisesTo(edges, base, id)
  {
    var vs, at :| RisingTrail(edges[..n], vs, at) && vs[0] in base && vs[|at|] == id;
    RisingOverPrefix(edges, n, vs, at);
  }

  /** Off the base, a rising trail ends with some edge, and rises to its near end before. */
  lemma RisingEnds(edges: seq<Edge>, base: set<string>, id: string) returns (k: nat, a: string)
    requires RisesTo(edges, base, id) && id !in base
    ensures k < |edges| && RisesTo(edges[..k], base, a) && Joins(edges[k], a, id)
  {
    var vs, at :| RisingTrail(edges, vs, at) && vs[0] in base && vs[|at|] == id;
    var m := |at| - 1;
    k, a := at[m] as nat, vs[m];
    assert RisingTrail(edges, vs[..m + 1], at[..m]);
    RisingOverPrefix(edges, k, vs[..m + 1], at[..m]);
  }

  ghost predicate RisesOver(front: seq<Edge>, last: Edge, base: set<string>, id: string) {
    exists a :: RisesTo(front, base, a) && Joins(last, a, id)
  }

  /** A rising trail either avoids the last edge or ends with it. */
  lemma RisingBoth(front: seq<Edge>, last: Edge, base: set<string>, id: string)
    ensures RisesTo(front + [last], base, id) <==> RisesTo(front, base, id) || RisesOver(front, last, base, id)
  {
    var edges := front + [last];
    assert edges[..|front|] == front;
    if RisesTo(front, base, id) {
      RisesStill(edges, |front|, base, id);
    }
    if a :| RisesTo(front, base, a) && Joins(last, a, id) {
      RisesFurther(front, last, base, a, id);
    }
    if RisesTo(edges, base, id) {
      if id in base {
        assert RisingTrail(front, [id], []);
      } else {
        var k, a := RisingEnds(edges, base, id);
        if k < |front| {
          assert edges[..k] == front[..k] && edges[k] == front[k];
          RisesFurther(front[..k], front[k], base, a, id);
          assert front[..k + 1] == front[..k] + [front[k]];
          RisesStill(front, k + 1, base, id);
        } else {
          assert edges[..k] == front;
        }
      }
    }
  }

  ghost predicate JoinedTo(before: set<string>, last: Edge, id: string) {
    exists a :: a in before && Joins(last, a, id)
  }

  lemma ContextStep(front: seq<Edge>, last: Edge, base: set<string>, cap: int)
    requires |AddContext(front, base, cap)| < cap
    ensures forall id :: id in AddContext(front + [last], base, cap) <==>
              id in AddContext(front, base, cap) || JoinedTo(AddContext(front, base, cap), last, id)
  {
    var before := AddContext(front, base, cap);
    assert (front + [last])[..|front|] == front;
    assert Joins(last, last.from, last.to) && Joins(last, last.to, last.from);
  }

  /** While there is room before each edge, the pass adds exactly the ends of rising trails from
      what was kept before. */
  lemma {:induction false} ContextIsRising(edges: seq<Edge>, base: set<string>, cap: int)
    requires edges != [] ==> |AddContext(edges[..|edges| - 1], base, cap)| < cap
    ensures forall id :: id in AddContext(edges, base, cap) <==> RisesTo(edges, base, id)
  {
    if edges == [] {
      forall id
        ensures id in base <==> RisesTo(edges, base, id)
      {
        if id in base {
          assert RisingTrail(edges, [id], []);
        } else if RisesTo(edges, base, id) {
          var k, a := RisingEnds(edges, base, id);
        }
      }
    } else {
      var front, last := edges[..|edges| - 1], edges[|edges| - 1];
      assert edges == front + [last];
      if front != [] {
        ContextOnlyGrows(front, base, cap);
      }
      ContextIsRising(front, base, cap);
      ContextStep(front, last, base, cap);
      hide AddContext, RisesTo, Joins;
      forall id
        ensures id in AddContext(edges, base, cap) <==> RisesTo(edges, base, id)
      {
        RisingBoth(front, last, base, id);
      }
    }
  }

  lemma ContextOnlyGrows(edges: seq<Edge>, base: set<string>, cap: int)
    requires edges != []
    ensures |AddContext(edges[..|edges| - 1], base, cap)| <= |AddContext(edges, base, cap)|
  {
    SubsetCardinality(AddContext(edges[..|edges| - 1], base, cap), AddContext(edges, base, cap));
  }

  /** With any cap: the pass scans the listing up to some edge, the last unless the cap was reached,
      and keeps exactly the ends of rising trails so far. */
  lemma {:induction false} ContextExactly(edges: seq<Edge>, base: set<string>, cap: int) returns (n: nat)
    ensures n <= |edges| && (n == |edges| || |AddContext(edges, base, cap)| >= cap)
    ensures forall id :: id in AddContext(edges, base, cap) <==> RisesTo(edges[..n], base, id)
  {
    if edges == [] || |AddContext(edges[..|edges| - 1], base, cap)| < cap {
      n := |edges|;
      assert edges[..n] == edges;
      ContextIsRising(edges, base, cap);
    } else {
      n := ContextExactly(edges[..|edges| - 1], base, cap);
      assert edges[..|edges| - 1][..n] == edges[..n];
    }
  }

  /** Kept before the pass, or joined by an edge to something that was. */
  ghost predicate Near(edges: seq<Edge>, base: set<string>, id: string) {
    id in base || exists e, a :: e in edges && a in base && Joins(e, a, id)
  }

  /** The pass keeps to immediate context exactly when, among the edges it scans, none leads from the
      end of a rising trail before it to something further off. */
  lemma ContextIsImmediateExactly(edges: seq<Edge>, base: set<string>, cap: int) returns (n: nat)
    ensures n <= |edges| && (n == |edges| || |AddContext(edges, base, cap)| >= cap)
    ensures (forall id :: id in AddContext(edges, base, cap) ==> Near(edges, base, id))
       <==> forall k, c :: 0 <= k < n && RisesOver(edges[..k], edges[k], base, c) ==> Near(edges, base, c)
  {
    n := ContextExactly(edges, base, cap);
    var scanned := edges[..n];
    forall k, c | 0 <= k < n && RisesOver(edges[..k], edges[k], base, c)
      ensures c in AddContext(edges, base, cap)
    {
      assert scanned[..k + 1] == edges[..k] + [edges[k]];
      RisingBoth(edges[..k], edges[k], base, c);
      RisesStill(scanned, k + 1, base, c);
    }
    forall id | id in AddContext(edges, base, cap) && id !in base
      ensures exists k :: 0 <= k < n && RisesOver(edges[..k], edges[k], base, id)
    {
      var k, a := RisingEnds(scanned, base, id);
      assert scanned[..k] == edges[..k];
      assert RisesOver(edges[..k], edges[k], base, id);
    }
  }

  // ---- The budgets bound only the walk -----------------------------------------------

  lemma {:induction false} ScanOverBudget(cur: Visit, adj: seq<Edge>, seen: Seen, queue: seq<Visit>, p: Policy)
    requires cur.depth >= p.maxObservedDepth
    ensures Scan(cur, adj, seen, queue, p) == (seen, queue)
  {
    if adj != [] {
      ScanOverBudget(cur, adj[1..], seen, queue, p);
    }
  }

  /** With a depth budget of zero the walk stays at the entry, and the context pass still adds a
      neighbour and the neighbour's neighbour. */
  lemma ContextChainsPastBudget(e: Edge, f: Edge, p: Policy)
    requires e.from != e.to && f.from == e.to && f.to != e.from && f.to != e.to
    requires p.maxObservedDepth == 0 && p.maxNodes >= 3
    ensures Visited([e, f], e.from, p).Keys == {e.from}
    ensures KeptIds([], [e, f], e.from, p) == {e.from, e.to, f.to}
  {
    var start := Start(e.from);
    ScanOverBudget(start, Adjacent([e, f], e.from), map[e.from := start], [], p);
    assert [start][1..] == [] && |map[e.from := start]| == 1;
    assert Visited([e, f], e.from, p) == Traverse([e, f], map[e.from := start], [], p);
    assert Traverse([e, f], map[e.from := start], [], p) == map[e.from := start];
    assert AddRelated([], {e.from}, p.maxNodes) == {e.from};
    assert [e, f][..1] == [e] && [e][..0] == [];
    assert AddContext([e], {e.from}, p.maxNodes) == {e.from} + {e.from, e.to};
  }
}
