/** bounded: the breadth-first walk under a depth and an inferred-hop budget. */
module Traversal {
  import opened Graph

  /** A queue entry, and what is remembered of a visited id. */
  datatype Visit = Visit(id: string, depth: nat, hops: nat)

  type Seen = map<string, Visit>

  // ---- What the walk computes ---------------------------------------------------

  function OtherEnd(e: Edge, id: string): string {
    if e.to == id then e.from else e.to
  }

  /** Edges at an id in listing order; a self-loop occurs twice. */
  function Adjacent(edges: seq<Edge>, id: string): seq<Edge> {
    if edges == [] then []
    else
      var last := edges[|edges| - 1];
      Adjacent(edges[..|edges| - 1], id)
      + (if last.from == id then [last] else []) + (if last.to == id then [last] else [])
  }

  /** The visit that following e from cur would record. */
  function Follow(cur: Visit, e: Edge): Visit {
    Visit(OtherEnd(e, cur.id), cur.depth + 1, cur.hops + if e.inferred then 1 else 0)
  }

  predicate WithinBudget(v: Visit, p: Policy) {
    v.depth <= p.maxObservedDepth && v.hops <= p.maxInferredHops
  }

  /** One pass over the edges at cur, stopped when the node cap is reached. */
  function Scan(cur: Visit, adj: seq<Edge>, seen: Seen, queue: seq<Visit>, p: Policy): (Seen, seq<Visit>) {
    if adj == [] then (seen, queue)
    else
      var v := Follow(cur, adj[0]);
      if !WithinBudget(v, p) || v.id in seen then Scan(cur, adj[1..], seen, queue, p)
      else if |seen[v.id := v]| >= p.maxNodes then (seen[v.id := v], queue + [v])
      else Scan(cur, adj[1..], seen[v.id := v], queue + [v], p)
  }

  ghost function Ends(edges: seq<Edge>): set<string> {
    (set e | e in edges :: e.from) + (set e | e in edges :: e.to)
  }

  ghost predicate Extends(seen: Seen, seen': Seen) {
    seen.Keys <= seen'.Keys && forall id :: id in seen ==> seen'[id] == seen[id]
  }

  lemma EndsOfFirst(cur: Visit, adj: seq<Edge>)
    requires adj != []
    ensures Follow(cur, adj[0]).id in Ends(adj) && Ends(adj[1..]) <= Ends(adj)
  {
    assert adj[0] in adj;
  }

  /** A scan only adds far ends of its edges. */
  lemma {:induction false} ScanGrows(cur: Visit, adj: seq<Edge>, seen: Seen, queue: seq<Visit>, p: Policy)
    ensures Extends(seen, Scan(cur, adj, seen, queue, p).0)
    ensures Scan(cur, adj, seen, queue, p).0.Keys <= seen.Keys + Ends(adj)
    ensures Scan(cur, adj, seen, queue, p).0 == seen ==> Scan(cur, adj, seen, queue, p).1 == queue
    decreases |adj|
  {
    if adj != [] {
      var v := Follow(cur, adj[0]);
      EndsOfFirst(cur, adj);
      hide Ends, Follow, WithinBudget;
      if !WithinBudget(v, p) || v.id in seen {
        ScanGrows(cur, adj[1..], seen, queue, p);
      } else if |seen[v.id := v]| < p.maxNodes {
        ScanGrows(cur, adj[1..], seen[v.id := v], queue + [v], p);
      }
    }
  }

  lemma {:induction false} AdjacentIsIncident(edges: seq<Edge>, id: string)
    ensures forall e :: e in Adjacent(edges, id) <==> e in edges && (e.from == id || e.to == id)
    ensures Ends(Adjacent(edges, id)) <= Ends(edges)
  {
    if edges != [] {
      var front, last := edges[..|edges| - 1], edges[|edges| - 1];
      assert edges == front + [last];
      AdjacentIsIncident(front, id);
    }
  }

  /** The loop over the queue. */
  ghost function Traverse(edges: seq<Edge>, seen: Seen, queue: seq<Visit>, p: Policy): Seen
    decreases Ends(edges) - seen.Keys, |queue|
  {
    if queue == [] || |seen| >= p.maxNodes then seen
    else
      var cur := queue[0];
      var (seen', queue') := Scan(cur, Adjacent(edges, cur.id), seen, queue[1..], p);
      ScanGrows(cur, Adjacent(edges, cur.id), seen, queue[1..], p);
      AdjacentIsIncident(edges, cur.id);
      assert seen' != seen ==> seen'.Keys != seen.Keys;
      Traverse(edges, seen', queue', p)
  }

  function Start(entry: string): Visit {
    Visit(entry, 0, 0)
  }

  ghost function Visited(edges: seq<Edge>, entry: string, p: Policy): Seen {
    Traverse(edges, map[entry := Start(entry)], [Start(entry)], p)
  }

  /** One round of the loop over the queue. */
  lemma TraverseOnce(edges: seq<Edge>, seen: Seen, queue: seq<Visit>, p: Policy)
    requires queue != [] && |seen| < p.maxNodes
    ensures var (seen', queue') := Scan(queue[0], Adjacent(edges, queue[0].id), seen, queue[1..], p);
            Traverse(edges, seen, queue, p) == Traverse(edges, seen', queue', p)
  {
    hide Scan, Adjacent;
  }

  lemma ScanAdvances(edges: seq<Edge>, cur: Visit, seen: Seen, queue: seq<Visit>, p: Policy)
    ensures var (seen', queue') := Scan(cur, Adjacent(edges, cur.id), seen, queue, p);
            && (seen' == seen ==> queue' == queue)
            && (seen' != seen ==> seen.Keys < seen'.Keys && seen'.Keys - seen.Keys <= Ends(edges))
  {
    ScanGrows(cur, Adjacent(edges, cur.id), seen, queue, p);
    AdjacentIsIncident(edges, cur.id);
    hide Scan, Adjacent, Ends;
    var (seen', _) := Scan(cur, Adjacent(edges, cur.id), seen, queue, p);
    assert seen' != seen ==> seen'.Keys != seen.Keys;
  }

  // ---- Every visit has a witness path -------------------------------------------

  ghost predicate Joins(e: Edge, a: string, b: string) {
    (e.from == a && e.to == b) || (e.from == b && e.to == a)
  }

  /** vs is walked along path, each step over an edge of the graph in either direction. */
  ghost predicate Trail(edges: seq<Edge>, vs: seq<string>, path: seq<Edge>) {
    && |vs| == |path| + 1
    && forall i :: 0 <= i < |path| ==> path[i] in edges && Joins(path[i], vs[i], vs[i + 1])
  }

  ghost function InferredCount(path: seq<Edge>): nat {
    if path == [] then 0
    else InferredCount(path[..|path| - 1]) + if path[|path| - 1].inferred then 1 else 0
  }

  ghost predicate TrailTo(edges: seq<Edge>, entry: string, v: Visit, vs: seq<string>, path: seq<Edge>) {
    && Trail(edges, vs, path) && vs[0] == entry && vs[|path|] == v.id
    && |path| == v.depth && InferredCount(path) == v.hops
  }

  ghost predicate Reached(edges: seq<Edge>, entry: string, v: Visit) {
    exists vs, path :: TrailTo(edges, entry, v, vs, path)
  }

  ghost predicate Witnessed(edges: seq<Edge>, entry: string, seen: Seen, p: Policy) {
    forall id :: id in seen ==> seen[id].id == id && WithinBudget(seen[id], p) && Reached(edges, entry, seen[id])
  }

  lemma FollowReaches(edges: seq<Edge>, entry: string, cur: Visit, e: Edge)
    requires Reached(edges, entry, cur) && e in edges && (e.from == cur.id || e.to == cur.id)
    ensures Reached(edges, entry, Follow(cur, e))
  {
    var vs, path :| TrailTo(edges, entry, cur, vs, path);
    TrailGoesOn(edges, entry, cur, vs, path, e);
  }

  lemma TrailGoesOn(edges: seq<Edge>, entry: string, cur: Visit, vs: seq<string>, path: seq<Edge>, e: Edge)
    requires TrailTo(edges, entry, cur, vs, path) && e in edges && (e.from == cur.id || e.to == cur.id)
    ensures TrailTo(edges, entry, Follow(cur, e), vs + [Follow(cur, e).id], path + [e])
  {
    var v := Follow(cur, e);
    var path', vs' := path + [e], vs + [v.id];
    assert path'[..|path|] == path && InferredCount(path') == v.hops;
    assert Joins(e, cur.id, v.id);
    hide InferredCount, Joins, Follow;
    assert Trail(edges, vs', path');
  }

  ghost predicate QueueSeen(seen: Seen, queue: seq<Visit>) {
    forall v :: v in queue ==> v.id in seen && seen[v.id] == v
  }

  lemma {:induction false} ScanWitnesses(edges: seq<Edge>, entry: string, cur: Visit, adj: seq<Edge>, seen: Seen,
          queue: seq<Visit>, p: Policy)
    requires Witnessed(edges, entry, seen, p) && QueueSeen(seen, queue) && Reached(edges, entry, cur)
    requires forall e :: e in adj ==> e in edges && (e.from == cur.id || e.to == cur.id)
    ensures Witnessed(edges, entry, Scan(cur, adj, seen, queue, p).0, p)
    ensures QueueSeen(Scan(cur, adj, seen, queue, p).0, Scan(cur, adj, seen, queue, p).1)
    decreases |adj|
  {
    if adj != [] {
      var v := Follow(cur, adj[0]);
      assert adj[0] in adj;
      FollowReaches(edges, entry, cur, adj[0]);
      if !WithinBudget(v, p) || v.id in seen {
        ScanWitnesses(edges, entry, cur, adj[1..], seen, queue, p);
      } else if |seen[v.id := v]| < p.maxNodes {
        ScanWitnesses(edges, entry, cur, adj[1..], seen[v.id := v], queue + [v], p);
      }
    }
  }

  lemma {:induction false} TraverseWitnesses(edges: seq<Edge>, entry: string, seen: Seen, queue: seq<Visit>, p: Policy)
    requires Witnessed(edges, entry, seen, p) && QueueSeen(seen, queue)
    ensures Witnessed(edges, entry, Traverse(edges, seen, queue, p), p)
    ensures Extends(seen, Traverse(edges, seen, queue, p))
    decreases Ends(edges) - seen.Keys, |queue|
  {
    if queue != [] && |seen| < p.maxNodes {
      var cur := queue[0];
      var adj := Adjacent(edges, cur.id);
      var (seen', queue') := Scan(cur, adj, seen, queue[1..], p);
      ScanGrows(cur, adj, seen, queue[1..], p);
      AdjacentIsIncident(edges, cur.id);
      assert cur in queue;
      ScanWitnesses(edges, entry, cur, adj, seen, queue[1..], p);
      assert seen' != seen ==> seen'.Keys != seen.Keys;
      TraverseWitnesses(edges, entry, seen', queue', p);
    }
  }

  /** Every visited id has a path from the entry of exactly its recorded depth and
      inferred hops, both within their budgets. */
  lemma VisitsAreWitnessed(edges: seq<Edge>, entry: string, p: Policy)
    requires 0 <= p.maxObservedDepth && 0 <= p.maxInferredHops
    ensures Witnessed(edges, entry, Visited(edges, entry, p), p)
    ensures forall id :: id in Visited(edges, entry, p) ==>
              var v := Visited(edges, entry, p)[id];
              v.depth <= p.maxObservedDepth && v.hops <= p.maxInferredHops && exists vs, path :: TrailTo(edges, entry, v, vs, path)
    ensures entry in Visited(edges, entry, p) && Visited(edges, entry, p)[entry] == Visit(entry, 0, 0)
  {
    assert TrailTo(edges, entry, Start(entry), [entry], []);
    TraverseWitnesses(edges, entry, map[entry := Start(entry)], [Start(entry)], p);
  }

  // ---- Nothing within reach of observed edges is missed ---------------------------

  /** Queue entries ascend by depth and span at most the depths d - 1 and d; nothing
      visited is deeper than d. */
  ghost predicate Layered(seen: Seen, queue: seq<Visit>, d: int) {
    && QueueSeen(seen, queue)
    && (forall i :: 0 <= i < |queue| ==> d - 1 <= queue[i].depth <= d)
    && (forall i, j :: 0 <= i < j < |queue| ==> queue[i].depth <= queue[j].depth)
    && (forall id :: id in seen ==> seen[id].id == id && seen[id].depth <= d)
  }

  /** Every admissible step over e from the visit cur arrives at something visited no later. */
  ghost predicate Covered(seen: Seen, cur: Visit, e: Edge, p: Policy) {
    var v := Follow(cur, e);
    WithinBudget(v, p) ==> v.id in seen && seen[v.id].depth <= v.depth
  }

  ghost predicate Closed(edges: seq<Edge>, seen: Seen, cur: Visit, p: Policy) {
    forall e :: e in edges && (e.from == cur.id || e.to == cur.id) ==> Covered(seen, cur, e, p)
  }

  lemma PushKeepsLayered(seen: Seen, queue: seq<Visit>, v: Visit)
    requires Layered(seen, queue, v.depth) && v.id !in seen
    ensures Layered(seen[v.id := v], queue + [v], v.depth)
  {
  }

  lemma {:induction false} ScanLayers(cur: Visit, adj: seq<Edge>, seen: Seen, queue: seq<Visit>, p: Policy)
    requires Layered(seen, queue, cur.depth + 1)
    ensures Layered(Scan(cur, adj, seen, queue, p).0, Scan(cur, adj, seen, queue, p).1, cur.depth + 1)
    ensures queue <= Scan(cur, adj, seen, queue, p).1
    ensures forall id :: id in Scan(cur, adj, seen, queue, p).0 && id !in seen ==>
              Scan(cur, adj, seen, queue, p).0[id] in Scan(cur, adj, seen, queue, p).1
    decreases |adj|
  {
    if adj != [] {
      var v := Follow(cur, adj[0]);
      if !WithinBudget(v, p) || v.id in seen {
        ScanLayers(cur, adj[1..], seen, queue, p);
      } else {
        PushKeepsLayered(seen, queue, v);
        hide Layered;
        if |seen[v.id := v]| < p.maxNodes {
          ScanLayers(cur, adj[1..], seen[v.id := v], queue + [v], p);
          ScanGrows(cur, adj[1..], seen[v.id := v], queue + [v], p);
          assert v in queue + [v];
        }
      }
    }
  }

  lemma {:induction false} ScanCovers(cur: Visit, adj: seq<Edge>, seen: Seen, queue: seq<Visit>, p: Policy)
    requires forall id :: id in seen ==> seen[id].depth <= cur.depth + 1
    requires |Scan(cur, adj, seen, queue, p).0| < p.maxNodes
    ensures forall e :: e in adj ==> Covered(Scan(cur, adj, seen, queue, p).0, cur, e, p)
    decreases |adj|
  {
    if adj != [] {
      var v := Follow(cur, adj[0]);
      assert forall e :: e in adj <==> e == adj[0] || e in adj[1..];
      if !WithinBudget(v, p) || v.id in seen {
        ScanCovers(cur, adj[1..], seen, queue, p);
        ScanGrows(cur, adj[1..], seen, queue, p);
      } else {
        ScanCovers(cur, adj[1..], seen[v.id := v], queue + [v], p);
        ScanGrows(cur, adj[1..], seen[v.id := v], queue + [v], p);
      }
    }
  }

  /** Whatever is not queued has been expanded. */
  ghost predicate Expanded(edges: seq<Edge>, seen: Seen, queue: seq<Visit>, p: Policy) {
    forall id :: id in seen && seen[id] !in queue ==> Closed(edges, seen, seen[id], p)
  }

  lemma {:induction false} TraverseCloses(edges: seq<Edge>, seen: Seen, queue: seq<Visit>, d: int, p: Policy)
    requires Layered(seen, queue, d) && Expanded(edges, seen, queue, p)
    ensures var all := Traverse(edges, seen, queue, p);
      |all| < p.maxNodes ==> Expanded(edges, all, [], p)
    decreases Ends(edges) - seen.Keys, |queue|
  {
    if queue != [] && |seen| < p.maxNodes {
      hide Layered, Expanded, Scan, Adjacent, Ends;
      var cur := queue[0];
      var rest := queue[1..];
      var adj := Adjacent(edges, cur.id);
      var (seen', queue') := Scan(cur, adj, seen, rest, p);
      HeadBounds(seen, queue, d);
      ScanAdvances(edges, cur, seen, rest, p);
      ScanLayers(cur, adj, seen, rest, p);
      if |seen'| < p.maxNodes {
        ScanExpands(edges, seen, queue, d, p);
        TraverseCloses(edges, seen', queue', cur.depth + 1, p);
      }
    }
  }

  lemma HeadBounds(seen: Seen, queue: seq<Visit>, d: int)
    requires Layered(seen, queue, d) && queue != []
    ensures Layered(seen, queue[1..], queue[0].depth + 1)
    ensures queue[0].id in seen && seen[queue[0].id] == queue[0]
  {
    assert queue[0] in queue;
    if queue[0].depth == d {
      assert forall i :: 0 <= i < |queue| ==> queue[i].depth == d;
    }
  }

  lemma ScanExpands(edges: seq<Edge>, seen: Seen, queue: seq<Visit>, d: int, p: Policy)
    requires Layered(seen, queue, d) && queue != [] && Expanded(edges, seen, queue, p)
    requires var (seen', queue') := Scan(queue[0], Adjacent(edges, queue[0].id), seen, queue[1..], p);
      |seen'| < p.maxNodes
    ensures var (seen', queue') := Scan(queue[0], Adjacent(edges, queue[0].id), seen, queue[1..], p);
      Expanded(edges, seen', queue', p)
  {
    var cur := queue[0];
    var adj := Adjacent(edges, cur.id);
    var (seen', queue') := Scan(cur, adj, seen, queue[1..], p);
    HeadBounds(seen, queue, d);
    ScanGrows(cur, adj, seen, queue[1..], p);
    ScanLayers(cur, adj, seen, queue[1..], p);
    AdjacentIsIncident(edges, cur.id);
    assert forall id :: id in seen ==> seen[id].depth <= cur.depth + 1 by {
      assert Layered(seen, queue[1..], cur.depth + 1);
    }
    ScanCovers(cur, adj, seen, queue[1..], p);
    assert Closed(edges, seen', cur, p);
    hide Scan, Adjacent, Layered, Closed, Covered, Ends;
    forall id | id in seen' && seen'[id] !in queue'
      ensures Closed(edges, seen', seen'[id], p)
    {
      if id != cur.id {
        assert id in seen && seen'[id] == seen[id];
        assert seen[id] !in queue by {
          assert forall v :: v in queue ==> v == cur || v in queue[1..];
        }
        ClosedStays(edges, seen, seen', seen[id], p);
      }
    }
  }

  lemma ClosedStays(edges: seq<Edge>, seen: Seen, seen': Seen, v: Visit, p: Policy)
    requires Closed(edges, seen, v, p) && Extends(seen, seen')
    ensures Closed(edges, seen', v, p)
  {
    hide Follow, WithinBudget;
  }

  ghost predicate ObservedOnly(path: seq<Edge>) {
    forall i :: 0 <= i < |path| ==> !path[i].inferred
  }

  /** No step within the depth budget exceeds the hop budget. */
  ghost predicate HopsToSpare(all: Seen, p: Policy) {
    forall id :: id in all && all[id].depth < p.maxObservedDepth ==> all[id].hops < p.maxInferredHops
  }

  lemma {:induction false} ClosureCoversTrail(edges: seq<Edge>, all: Seen, p: Policy, vs: seq<string>, path: seq<Edge>)
    requires Expanded(edges, all, [], p)
    requires forall id :: id in all ==> all[id].id == id && WithinBudget(all[id], p)
    requires Trail(edges, vs, path) && (ObservedOnly(path) || HopsToSpare(all, p)) && |path| <= p.maxObservedDepth
    requires vs[0] in all && all[vs[0]].depth == 0
    ensures vs[|path|] in all && all[vs[|path|]].depth <= |path|
  {
    if path != [] {
      var k := |path| - 1;
      ClosureCoversTrail(edges, all, p, vs[..k + 1], path[..k]);
      var cur := all[vs[k]];
      assert cur in all.Values && Closed(edges, all, cur, p);
      assert Joins(path[k], vs[k], vs[k + 1]);
      assert path[k] in edges && Covered(all, cur, path[k], p);
    }
  }

  /** If the node cap was not reached, the end of every path that fits the depth budget is visited, no
      deeper than the path is long, when the path is observed only or the hop budget never binds. */
  lemma WalkIsComplete(edges: seq<Edge>, entry: string, p: Policy, vs: seq<string>, path: seq<Edge>)
    requires 0 <= p.maxObservedDepth && 0 <= p.maxInferredHops
    requires |Visited(edges, entry, p)| < p.maxNodes
    requires Trail(edges, vs, path) && vs[0] == entry && |path| <= p.maxObservedDepth
    requires ObservedOnly(path) || HopsToSpare(Visited(edges, entry, p), p)
    ensures vs[|path|] in Visited(edges, entry, p)
    ensures Visited(edges, entry, p)[vs[|path|]].depth <= |path|
  {
    VisitsAreWitnessed(edges, entry, p);
    TraverseCloses(edges, map[entry := Start(entry)], [Start(entry)], 0, p);
    hide Traverse;
    ClosureCoversTrail(edges, Visited(edges, entry, p), p, vs, path);
  }
}
