/** Whether the walk misses something over inferred edges: exactly which policies keep it
    complete for every graph. */
module HopBudget {
  import opened Graph
  import opened Traversal

  /** Unless the node cap is reached, the end of every path within both budgets is visited. */
  ghost predicate FindsAll(edges: seq<Edge>, entry: string, p: Policy) {
    |Visited(edges, entry, p)| < p.maxNodes ==>
      forall vs, path ::
        Trail(edges, vs, path) && vs[0] == entry && |path| <= p.maxObservedDepth && InferredCount(path) <= p.maxInferredHops ==>
          vs[|path|] in Visited(edges, entry, p)
  }

  // ---- Policies that keep it complete -------------------------------------------------

  lemma {:induction false} FewerHopsThanSteps(path: seq<Edge>)
    ensures InferredCount(path) <= |path|
    ensures InferredCount(path) == 0 ==> ObservedOnly(path)
  {
    if path != [] {
      FewerHopsThanSteps(path[..|path| - 1]);
    }
  }

  lemma HopsWithinDepth(edges: seq<Edge>, entry: string, p: Policy, id: string)
    requires 0 <= p.maxObservedDepth && 0 <= p.maxInferredHops && id in Visited(edges, entry, p)
    ensures Visited(edges, entry, p)[id].hops <= Visited(edges, entry, p)[id].depth
  {
    VisitsAreWitnessed(edges, entry, p);
    var v := Visited(edges, entry, p)[id];
    var vs, path :| TrailTo(edges, entry, v, vs, path);
    FewerHopsThanSteps(path);
  }

  /** Above the entry, every visit was made from one at the depth before. */
  ghost predicate Stepped(seen: Seen) {
    forall id :: id in seen ==> seen[id].depth >= 0 && (seen[id].depth > 0 ==> AtDepth(seen, seen[id].depth - 1))
  }

  ghost predicate AtDepth(seen: Seen, d: int) {
    exists id :: id in seen && seen[id].depth == d
  }

  lemma VisitKeepsStepped(cur: Visit, v: Visit, seen: Seen, queue: seq<Visit>)
    requires Stepped(seen) && cur.id in seen && seen[cur.id] == cur && QueueSeen(seen, queue)
    requires v.id !in seen && v.depth == cur.depth + 1
    ensures Stepped(seen[v.id := v]) && QueueSeen(seen[v.id := v], queue + [v])
  {
    var next := seen[v.id := v];
    assert forall id :: id in seen ==> next[id] == seen[id];
    assert next[cur.id].depth == cur.depth;
    assert forall d :: AtDepth(seen, d) ==> AtDepth(next, d);
  }

  lemma {:induction false} ScanStaysStepped(cur: Visit, adj: seq<Edge>, seen: Seen, queue: seq<Visit>, p: Policy)
    requires Stepped(seen) && cur.id in seen && seen[cur.id] == cur && QueueSeen(seen, queue)
    ensures Stepped(Scan(cur, adj, seen, queue, p).0)
    ensures QueueSeen(Scan(cur, adj, seen, queue, p).0, Scan(cur, adj, seen, queue, p).1)
  {
    hide Stepped, QueueSeen, WithinBudget;
    if adj != [] {
      var v := Follow(cur, adj[0]);
      if WithinBudget(v, p) && v.id !in seen {
        VisitKeepsStepped(cur, v, seen, queue);
        ScanStaysStepped(cur, adj[1..], seen[v.id := v], queue + [v], p);
      } else {
        ScanStaysStepped(cur, adj[1..], seen, queue, p);
      }
    }
  }

  lemma {:induction false} TraverseStaysStepped(edges: seq<Edge>, seen: Seen, queue: seq<Visit>, p: Policy)
    requires Stepped(seen) && QueueSeen(seen, queue)
    ensures Stepped(Traverse(edges, seen, queue, p))
    decreases Ends(edges) - seen.Keys, |queue|
  {
    if queue != [] && |seen| < p.maxNodes {
      hide Stepped, Scan, Adjacent, Ends;
      var cur := queue[0];
      var adj := Adjacent(edges, cur.id);
      var (seen', queue') := Scan(cur, adj, seen, queue[1..], p);
      ScanAdvances(edges, cur, seen, queue[1..], p);
      ScanStaysStepped(cur, adj, seen, queue[1..], p);
      TraverseStaysStepped(edges, seen', queue', p);
    }
  }

  /** A visit at depth d has d others below it. */
  lemma {:induction false} DepthBelowSize(seen: Seen, id: string) returns (below: set<string>)
    requires Stepped(seen) && id in seen
    ensures below <= seen.Keys && |below| == seen[id].depth + 1
    ensures forall x :: x in below ==> seen[x].depth <= seen[id].depth
    ensures seen[id].depth < |seen|
    decreases seen[id].depth
  {
    below := {};
    if seen[id].depth > 0 {
      var next :| next in seen && seen[next].depth == seen[id].depth - 1;
      below := DepthBelowSize(seen, next);
    }
    assert id !in below;
    below := below + {id};
    SubsetCardinality(below, seen.Keys);
  }

  /** The hop budget cannot bind when it is at least the depth budget, or when the node cap leaves no
      room for as many nodes as hops. */
  lemma SparesHops(edges: seq<Edge>, entry: string, p: Policy)
    requires 0 <= p.maxObservedDepth && 0 <= p.maxInferredHops && |Visited(edges, entry, p)| < p.maxNodes
    requires p.maxObservedDepth <= p.maxInferredHops || p.maxNodes <= p.maxInferredHops + 1
    ensures HopsToSpare(Visited(edges, entry, p), p)
  {
    var all := Visited(edges, entry, p);
    TraverseStaysStepped(edges, map[entry := Start(entry)], [Start(entry)], p);
    hide Traverse;
    forall id | id in all && all[id].depth < p.maxObservedDepth
      ensures all[id].hops < p.maxInferredHops
    {
      HopsWithinDepth(edges, entry, p, id);
      var below := DepthBelowSize(all, id);
    }
  }

  lemma CompletePolicies(edges: seq<Edge>, entry: string, p: Policy)
    requires 0 <= p.maxObservedDepth && 0 <= p.maxInferredHops
    requires p.maxObservedDepth <= p.maxInferredHops || p.maxInferredHops == 0 || p.maxNodes <= p.maxInferredHops + 1
    ensures FindsAll(edges, entry, p)
  {
    hide Traverse;
    if |Visited(edges, entry, p)| < p.maxNodes {
      if p.maxInferredHops > 0 {
        SparesHops(edges, entry, p);
      }
      forall vs, path | Trail(edges, vs, path) && vs[0] == entry && |path| <= p.maxObservedDepth
                        && InferredCount(path) <= p.maxInferredHops
        ensures vs[|path|] in Visited(edges, entry, p)
      {
        FewerHopsThanSteps(path);
        WalkIsComplete(edges, entry, p, vs, path);
      }
    }
  }

  // ---- A graph that any other policy fails on ------------------------------------------

  /** Ids that differ in length; a longer one comes later. */
  function Name(k: nat): (s: string)
    ensures |s| == k
  {
    seq(k, _ => 'n')
  }

  function Link(i: nat, from: nat, to: nat, inferred: bool): Edge {
    Edge(Name(i), "link", Name(from), Name(to), "resolved", inferred, 0, false, [])
  }

  /** A line of hops + 2 nodes joined by inferred edges, and an observed edge beside the first. */
  function Line(hops: nat): (edges: seq<Edge>)
    ensures |edges| == hops + 2 && edges[0] == Link(0, 0, 1, true) && edges[1] == Link(1, 0, 1, false)
    ensures forall i :: 2 <= i < |edges| ==> edges[i] == Link(i, i - 1, i, true)
  {
    seq(hops + 2, i requires 0 <= i < hops + 2 =>
      if i == 0 then Link(0, 0, 1, true) else if i == 1 then Link(1, 0, 1, false) else Link(i, i - 1, i, true))
  }

  lemma {:induction false} AllInferred(path: seq<Edge>)
    requires path != [] && forall i :: 1 <= i < |path| ==> path[i].inferred
    requires !path[0].inferred
    ensures InferredCount(path) == |path| - 1
  {
    if |path| > 1 {
      AllInferred(path[..|path| - 1]);
    }
  }

  /** Past the entry, the line is walked in hops: each visited node was reached over inferred edges alone. */
  ghost predicate InLine(seen: Seen) {
    && Name(0) in seen && Name(1) in seen
    && (forall id :: id in seen ==> seen[id].id == id && seen[id].depth == seen[id].hops == |id| && id == Name(|id|))
    && (forall id :: id in seen && |id| > 0 ==> Name(|id| - 1) in seen)
  }

  lemma LineNeighbour(hops: nat, e: Edge, k: nat)
    requires e in Line(hops) && k > 0 && (e.from == Name(k) || e.to == Name(k))
    ensures OtherEnd(e, Name(k)) == Name(k - 1) || (OtherEnd(e, Name(k)) == Name(k + 1) && e.inferred)
  {
    var i :| 0 <= i < hops + 2 && Line(hops)[i] == e;
    var from, to := if i < 2 then 0 else i - 1, if i < 2 then 1 else i;
    assert e.from == Name(from) && e.to == Name(to) && |e.from| == from && |e.to| == to;
  }

  ghost predicate Walking(seen: Seen, queue: seq<Visit>) {
    InLine(seen) && QueueSeen(seen, queue) && forall v :: v in queue ==> v.depth > 0
  }

  ghost predicate Fits(seen: Seen, v: Visit) {
    v.depth == v.hops == |v.id| && |v.id| > 0 && v.id == Name(|v.id|) && Name(|v.id| - 1) in seen
  }

  lemma InLineGrows(seen: Seen, queue: seq<Visit>, v: Visit)
    requires Walking(seen, queue) && Fits(seen, v) && v.id !in seen
    ensures Walking(seen[v.id := v], queue + [v])
  {
    InLineExtends(seen, v);
    hide InLine, Name;
    var queue' := queue + [v];
    assert forall x :: x in queue' <==> x in queue || x == v;
  }

  lemma InLineExtends(seen: Seen, v: Visit)
    requires InLine(seen) && Fits(seen, v)
    ensures InLine(seen[v.id := v])
  {
    hide Name;
  }

  lemma {:induction false} ScanStaysInLine(hops: nat, cur: Visit, adj: seq<Edge>, seen: Seen, queue: seq<Visit>, p: Policy)
    requires Walking(seen, queue) && cur.id in seen && seen[cur.id] == cur && cur.depth > 0
    requires forall e :: e in adj ==> e in Line(hops) && (e.from == cur.id || e.to == cur.id)
    ensures Walking(Scan(cur, adj, seen, queue, p).0, Scan(cur, adj, seen, queue, p).1)
  {
    if adj != [] {
      hide Line, Walking, Follow, Fits;
      var v := Follow(cur, adj[0]);
      FollowInLine(hops, cur, adj[0], seen, queue);
      assert forall e :: e in adj[1..] ==> e in adj;
      if WithinBudget(v, p) && v.id !in seen {
        InLineGrows(seen, queue, v);
        FollowLeaves(cur, adj[0]);
        ScanStaysInLine(hops, cur, adj[1..], seen[v.id := v], queue + [v], p);
      } else {
        ScanStaysInLine(hops, cur, adj[1..], seen, queue, p);
      }
    }
  }

  lemma FollowLeaves(cur: Visit, e: Edge)
    ensures Follow(cur, e) != cur
  {
  }

  lemma FollowInLine(hops: nat, cur: Visit, e: Edge, seen: Seen, queue: seq<Visit>)
    requires Walking(seen, queue) && cur.id in seen && seen[cur.id] == cur && cur.depth > 0
    requires e in Line(hops) && (e.from == cur.id || e.to == cur.id)
    ensures Follow(cur, e).id in seen || Fits(seen, Follow(cur, e))
  {
    LineNeighbour(hops, e, |cur.id|);
  }

  lemma Dequeue(seen: Seen, queue: seq<Visit>)
    requires Walking(seen, queue)
    ensures InLine(seen)
    ensures queue != [] ==> Walking(seen, queue[1..])
    ensures queue != [] ==> queue[0].id in seen && seen[queue[0].id] == queue[0] && queue[0].depth > 0
  {
  }

  lemma {:induction false} TraverseStaysInLine(hops: nat, seen: Seen, queue: seq<Visit>, p: Policy)
    requires Walking(seen, queue)
    ensures InLine(Traverse(Line(hops), seen, queue, p))
    decreases Ends(Line(hops)) - seen.Keys, |queue|
  {
    var edges := Line(hops);
    hide Line, InLine, Walking, Scan, Ends, Adjacent;
    Dequeue(seen, queue);
    if queue != [] && |seen| < p.maxNodes {
      var cur := queue[0];
      var adj := Adjacent(edges, cur.id);
      var (seen', queue') := Scan(cur, adj, seen, queue[1..], p);
      TraverseOnce(edges, seen, queue, p);
      ScanAdvances(edges, cur, seen, queue[1..], p);
      AdjacentIsIncident(edges, cur.id);
      ScanStaysInLine(hops, cur, adj, seen, queue[1..], p);
      hide Traverse;
      TraverseStaysInLine(hops, seen', queue', p);
    }
  }

  /** At the entry the inferred edge is listed first. */
  lemma {:induction false} AdjacentToEntry(hops: nat, n: nat)
    requires 2 <= n <= hops + 2
    ensures Adjacent(Line(hops)[..n], Name(0)) == [Link(0, 0, 1, true), Link(1, 0, 1, false)]
  {
    var edges := Line(hops);
    if n > 2 {
      AdjacentToEntry(hops, n - 1);
      assert edges[..n][..n - 1] == edges[..n - 1];
      assert |edges[n - 1].from| == n - 2 && |edges[n - 1].to| == n - 1;
    } else {
      assert edges[..2] == [edges[0], edges[1]] && edges[..2][..1] == [edges[0]] && [edges[0]][..0] == [];
      assert |Name(0)| == 0 && |Name(1)| == 1;
      assert Adjacent([], Name(0)) == [] && Adjacent([edges[0]], Name(0)) == [edges[0]];
    }
  }

  lemma FirstStep(hops: nat, p: Policy)
    requires p.maxObservedDepth >= 1 && p.maxInferredHops >= 1 && p.maxNodes >= 3
    ensures var v := Visit(Name(1), 1, 1);
            Visited(Line(hops), Name(0), p) == Traverse(Line(hops), map[Name(0) := Start(Name(0))][Name(1) := v], [v], p)
  {
    hide Traverse, Scan, Line, Adjacent, Link, Name;
    var start, v := Start(Name(0)), Visit(Name(1), 1, 1);
    var seen := map[Name(0) := start];
    AdjacentToEntry(hops, hops + 2);
    FirstScan(start, v, p);
    assert Line(hops)[..hops + 2] == Line(hops);
    assert [start][1..] == [] && |seen| == 1;
    TraverseOnce(Line(hops), seen, [start], p);
  }

  lemma FirstScan(start: Visit, v: Visit, p: Policy)
    requires start == Start(Name(0)) && v == Visit(Name(1), 1, 1)
    requires p.maxObservedDepth >= 1 && p.maxInferredHops >= 1 && p.maxNodes >= 3
    ensures Scan(start, [Link(0, 0, 1, true), Link(1, 0, 1, false)], map[Name(0) := start], [], p)
         == (map[Name(0) := start][Name(1) := v], [v])
  {
    var e, f := Link(0, 0, 1, true), Link(1, 0, 1, false);
    var seen := map[Name(0) := start][Name(1) := v];
    assert |Name(0)| == 0 && |Name(1)| == 1 && Name(0) != Name(1);
    assert Follow(start, e) == v && Follow(start, f).id == Name(1);
    assert |seen| == 2;
    assert [e, f][1..] == [f] && [f][1..] == [];
    assert Scan(start, [], seen, [v], p) == (seen, [v]);
    assert Scan(start, [f], seen, [v], p) == (seen, [v]);
    assert [] + [v] == [v];
  }

  function Names(n: nat): (s: set<string>)
    ensures |s| <= n && forall k: nat :: k < n ==> Name(k) in s
  {
    if n == 0 then {} else Names(n - 1) + {Name(n - 1)}
  }

  lemma SubsetOfNames(ids: set<string>, n: nat)
    requires forall id :: id in ids ==> |id| < n && id == Name(|id|)
    ensures |ids| <= n
  {
    SubsetCardinality(ids, Names(n));
  }

  lemma LineIsBounded(p: Policy)
    requires 1 <= p.maxInferredHops < p.maxObservedDepth && p.maxNodes > p.maxInferredHops + 1
    ensures forall id :: id in Visited(Line(p.maxInferredHops), Name(0), p) ==> |id| < p.maxInferredHops + 1 && id == Name(|id|)
  {
    var hops, v := p.maxInferredHops, Visit(Name(1), 1, 1);
    var seen := map[Name(0) := Start(Name(0))][Name(1) := v];
    FirstStep(hops, p);
    VisitsAreWitnessed(Line(hops), Name(0), p);
    FirstIsWalking(v);
    hide Walking, Visited, Traverse, Line;
    TraverseStaysInLine(hops, seen, [v], p);
    LineBound(Line(hops), Visited(Line(hops), Name(0), p), p);
    hide *;
  }

  lemma FirstIsWalking(v: Visit)
    requires v == Visit(Name(1), 1, 1)
    ensures Walking(map[Name(0) := Start(Name(0))][Name(1) := v], [v])
  {
    assert |Name(0)| == 0 && |Name(1)| == 1;
  }

  lemma LineBound(edges: seq<Edge>, all: Seen, p: Policy)
    requires InLine(all) && Witnessed(edges, Name(0), all, p)
    ensures forall id :: id in all ==> |id| <= p.maxInferredHops && id == Name(|id|)
  {
    hide Reached;
  }

  /** The walk of the line, with room for every node, misses its last node, although the path over the
      observed edge is within both budgets. */
  lemma LineIsMissed(p: Policy)
    requires 1 <= p.maxInferredHops < p.maxObservedDepth && p.maxNodes > p.maxInferredHops + 1
    ensures !FindsAll(Line(p.maxInferredHops), Name(0), p)
  {
    var hops := p.maxInferredHops;
    var edges := Line(hops);
    var all := Visited(edges, Name(0), p);
    LineIsBounded(p);
    hide Traverse, Visited;
    SubsetOfNames(all.Keys, hops + 1);
    var vs, path := LinePath(hops);
    assert |vs[|path|]| == hops + 1;
  }

  lemma LinePath(hops: nat) returns (vs: seq<string>, path: seq<Edge>)
    ensures Trail(Line(hops), vs, path) && |path| == hops + 1 && InferredCount(path) == hops
    ensures vs[0] == Name(0) && vs[|path|] == Name(hops + 1)
  {
    vs, path := seq(hops + 2, i requires 0 <= i < hops + 2 => Name(i)), Line(hops)[1..];
    AllInferred(path);
    forall i | 0 <= i < |path|
      ensures path[i] in Line(hops) && Joins(path[i], vs[i], vs[i + 1])
    {
      assert path[i] == Line(hops)[i + 1];
    }
  }

  /** Exactly these policies keep the walk complete for every graph: the hop budget is zero or at least
      the depth budget, or the node cap leaves no room to use it up. */
  lemma CompleteExactly(p: Policy)
    requires 0 <= p.maxObservedDepth && 0 <= p.maxInferredHops
    ensures (forall edges, entry :: FindsAll(edges, entry, p))
       <==> p.maxObservedDepth <= p.maxInferredHops || p.maxInferredHops == 0 || p.maxNodes <= p.maxInferredHops + 1
  {
    hide FindsAll;
    if p.maxObservedDepth <= p.maxInferredHops || p.maxInferredHops == 0 || p.maxNodes <= p.maxInferredHops + 1 {
      forall edges, entry
        ensures FindsAll(edges, entry, p)
      {
        CompletePolicies(edges, entry, p);
      }
    } else {
      LineIsMissed(p);
    }
  }
}
