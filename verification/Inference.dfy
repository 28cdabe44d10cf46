/** Which edges connectServicesToPods and inferServiceWorkloads must leave behind. */
module Inference {
  import opened Graph
  import opened Order
  import opened Selectors
  import opened Text

  type NodeMap = map<string, Node>
  type EdgeMap = map<string, Edge>

  predicate IsWorkloadKind(kind: string) {
    kind == "Deployment" || kind == "StatefulSet" || kind == "DaemonSet" || kind == "Job" || kind == "CronJob"
  }

  predicate IsSelectingService(n: Node) {
    n.kind.ResourceNode? && n.resource.kind == "Service" && n.selector != map[]
  }

  ghost predicate SelectsPod(service: Node, pod: Node) {
    && pod.resource.kind == "Pod" && pod.resource.namespace == service.resource.namespace
    && LabelsMatch(service.selector, pod.labels)
  }

  /** A selecting Service without an exactly matching Pod. */
  ghost predicate Orphan(nodes: NodeMap, s: string) {
    s in nodes && IsSelectingService(nodes[s]) && forall q :: q in nodes ==> !SelectsPod(nodes[s], nodes[q])
  }

  /** The first identity label that is set, with its key. */
  function SystemIdentity(labels: Labels): string {
    if Lookup(labels, "kubechan.io/system") != "" then "kubechan.io/system=" + labels["kubechan.io/system"]
    else if Lookup(labels, "app.kubernetes.io/part-of") != "" then "app.kubernetes.io/part-of=" + labels["app.kubernetes.io/part-of"]
    else if Lookup(labels, "app.kubernetes.io/instance") != "" then "app.kubernetes.io/instance=" + labels["app.kubernetes.io/instance"]
    else ""
  }

  function WorkloadLabels(w: Node): Labels {
    if w.templateLabels == map[] then w.labels else w.templateLabels
  }

  /** Explicitly different application identities rule a candidate out. */
  ghost predicate Eligible(service: Node, w: Node, p: Policy) {
    && w.kind.ResourceNode? && w.resource.namespace == service.resource.namespace && IsWorkloadKind(w.resource.kind)
    && Score(service.selector, WorkloadLabels(w)) >= p.possibleThreshold
    && MatchedKeys(service.selector, WorkloadLabels(w)) != {}
    && !(SystemIdentity(service.labels) != "" && SystemIdentity(w.labels) != "" && SystemIdentity(service.labels) != SystemIdentity(w.labels))
  }

  ghost function RankScore(service: Node, w: Node): nat {
    Score(service.selector, WorkloadLabels(w))
    + (if Lookup(service.annotations, "kubechan.io/renamed-from") == w.resource.name then 100 else 0)
    + (if SystemIdentity(service.labels) != "" && SystemIdentity(service.labels) == SystemIdentity(w.labels) then 80 else 0)
  }

  datatype Ranked = Ranked(id: string, score: int)

  /** Higher score first, then smaller id. */
  predicate Better(a: Ranked, b: Ranked) {
    if a.score != b.score then a.score > b.score else Before(a.id, b.id)
  }

  ghost function Candidates(nodes: NodeMap, s: string, p: Policy): set<Ranked>
    requires s in nodes
  {
    set w | w in nodes && Eligible(nodes[s], nodes[w], p) :: Ranked(w, RankScore(nodes[s], nodes[w]))
  }

  ghost function BetterThan(c: Ranked, all: set<Ranked>): set<Ranked> {
    set d | d in all && Better(d, c)
  }

  /** Among the best maxCandidatesPerGap: fewer than that many candidates are better. */
  ghost predicate Chosen(c: Ranked, all: set<Ranked>, p: Policy) {
    c in all && |BetterThan(c, all)| < p.maxCandidatesPerGap
  }

  // ---- Ranking --------------------------------------------------------------------

  lemma BetterIsStrictWeakOrder()
    ensures StrictWeakOrder(Better)
  {
    forall x, y, z
      ensures Better(x, y) ==> !Better(y, x)
      ensures Better(x, z) ==> Better(x, y) || Better(y, z)
    {
      BeforeIsTotal(x.id, y.id);
      if Before(x.id, z.id) && Before(y.id, x.id) {
        BeforeIsTransitive(y.id, x.id, z.id);
      }
    }
  }

  function Elements(r: seq<Ranked>): set<Ranked> {
    set c | c in r
  }

  /** On candidates with distinct ids the ranking is total, so in a ranked list the
      elements better than the k-th are exactly the k before it. */
  lemma RankIsPosition(r: seq<Ranked>, k: nat)
    requires Arranged(r, Better) && k < |r|
    requires forall i, j :: 0 <= i < j < |r| ==> r[i].id != r[j].id
    ensures |BetterThan(r[k], Elements(r))| == k
  {
    var all := Elements(r);
    forall i | 0 <= i < |r|
      ensures Better(r[i], r[k]) <==> i < k
    {
      BeforeIsTotal(r[i].id, r[k].id);
      assert i < k ==> !Better(r[k], r[i]);
      assert k < i ==> !Better(r[i], r[k]);
    }
    var before := Elements(r[..k]);
    assert BetterThan(r[k], all) == before by {
      forall c
        ensures c in BetterThan(r[k], all) <==> c in r[..k]
      {
        if c in all {
          var i :| 0 <= i < |r| && r[i] == c;
        }
        if c in r[..k] {
          var i :| 0 <= i < k && r[i] == c;
          assert c in r;
        }
      }
    }
    PrefixSize(r, k);
  }

  lemma {:induction false} PrefixSize(r: seq<Ranked>, k: nat)
    requires k <= |r| && forall i, j :: 0 <= i < j < |r| ==> r[i].id != r[j].id
    ensures |Elements(r[..k])| == k
  {
    if k == 0 {
      assert Elements(r[..0]) == {};
    } else {
      PrefixSize(r, k - 1);
      assert r[..k] == r[..k - 1] + [r[k - 1]];
      assert Elements(r[..k]) == Elements(r[..k - 1]) + {r[k - 1]};
    }
  }

  /** Cutting a ranked list after k elements keeps exactly the chosen candidates. */
  lemma TopAreChosen(r: seq<Ranked>, p: Policy)
    requires Arranged(r, Better) && 0 <= p.maxCandidatesPerGap
    requires forall i, j :: 0 <= i < j < |r| ==> r[i].id != r[j].id
    ensures var all := Elements(r);
      var top := if |r| > p.maxCandidatesPerGap then r[..p.maxCandidatesPerGap] else r;
      forall c :: c in top <==> Chosen(c, all, p)
  {
    var all := Elements(r);
    var top := if |r| > p.maxCandidatesPerGap then r[..p.maxCandidatesPerGap] else r;
    forall i | 0 <= i < |r|
      ensures Chosen(r[i], all, p) <==> i < |top|
    {
      RankIsPosition(r, i);
    }
    forall c | Chosen(c, all, p)
      ensures c in top
    {
      var i :| 0 <= i < |r| && r[i] == c;
      assert top[i] == c;
    }
    forall c | c in top
      ensures Chosen(c, all, p)
    {
      var i :| 0 <= i < |top| && top[i] == c;
      assert r[i] == c;
    }
  }

  // ---- The edges -------------------------------------------------------------------

  /** How ids and evidence references are made: a hash of the joined parts, and the catalog's
      sources for a resource and a path. */
  datatype Naming = Naming(hash: string -> string, sources: (ResourceRef, string) -> seq<string>)

  function Joined(parts: seq<string>): string {
    if parts == [] then "" else if |parts| == 1 then parts[0] else parts[0] + "|" + Joined(parts[1..])
  }

  function StableId(nm: Naming, parts: seq<string>): string {
    "edge:" + nm.hash(Joined(parts))
  }

  predicate Plain(parts: seq<string>) {
    forall i :: 0 <= i < |parts| ==> '|' !in parts[i]
  }

  /** The hash is injective, and node ids, made of names, have no bar. */
  ghost predicate Discerns(nm: Naming, nodes: NodeMap) {
    && (forall a, b :: nm.hash(a) == nm.hash(b) ==> a == b)
    && (forall id :: id in nodes ==> '|' !in id)
  }

  lemma BarIn(parts: seq<string>)
    requires |parts| > 1
    ensures '|' in Joined(parts)
  {
    assert Joined(parts)[|parts[0]|] == '|';
  }

  /** Joining tells lists of bar-free parts apart. */
  lemma {:induction false} JoinedIdentifies(a: seq<string>, b: seq<string>)
    requires a != [] && b != [] && Plain(a) && Plain(b) && Joined(a) == Joined(b)
    ensures a == b
    decreases |a|
  {
    if |a| == 1 || |b| == 1 {
      if |a| > 1 {
        BarIn(a);
      }
      if |b| > 1 {
        BarIn(b);
      }
    } else {
      SplitAtFirst('|', a[0], b[0], Joined(a[1..]), Joined(b[1..]));
      JoinedIdentifies(a[1..], b[1..]);
      assert a == [a[0]] + a[1..] && b == [b[0]] + b[1..];
    }
  }

  /** With a bar in an id, different edges of one kind can have one id. */
  lemma BarInIdCollides(nm: Naming, kind: string, a: string, b: string, c: string)
    ensures StableId(nm, [kind, a + "|" + b, c]) == StableId(nm, [kind, a, b + "|" + c])
  {
    var x, y := [kind, a + "|" + b, c], [kind, a, b + "|" + c];
    assert x[1..] == [a + "|" + b, c] && y[1..] == [a, b + "|" + c];
    assert x[1..][1..] == [c] && y[1..][1..] == [b + "|" + c];
    assert Joined(x[1..]) == (a + "|" + b) + "|" + c;
    assert Joined(y[1..]) == a + "|" + (b + "|" + c);
    assert (a + "|" + b) + "|" + c == a + "|" + (b + "|" + c);
  }

  ghost function SourceSet(ids: seq<string>): seq<string> {
    SortedSet(set v | v in ids && v != "")
  }

  ghost function SelectsEdge(nm: Naming, nodes: NodeMap, s: string, q: string): Edge
    requires s in nodes
  {
    Edge(StableId(nm, ["selects", s, q]), "selects", s, q, "resolved", false, 0, false,
         SourceSet(nm.sources(nodes[s].resource, "/selector")))
  }

  ghost function InferredEdge(nm: Naming, nodes: NodeMap, s: string, c: Ranked, p: Policy): Edge
    requires s in nodes && c.id in nodes
  {
    Edge(StableId(nm, ["inferred", "possible_selector_target", s, c.id]), "possible_selector_target", s, c.id, "proposed",
         true, c.score, c.score >= p.strongThreshold,
         SourceSet(nm.sources(nodes[s].resource, "/selector") + nm.sources(nodes[c.id].resource, "/templateLabels")))
  }

  ghost function SelectsEdges(nm: Naming, nodes: NodeMap, s: string): set<Edge>
    requires s in nodes
  {
    if IsSelectingService(nodes[s]) then
      set q | q in nodes && SelectsPod(nodes[s], nodes[q]) :: SelectsEdge(nm, nodes, s, q)
    else {}
  }

  ghost function InferredEdges(nm: Naming, nodes: NodeMap, s: string, p: Policy): set<Edge>
    requires s in nodes
  {
    if Orphan(nodes, s) then
      EdgesTo(nm, nodes, s, (set c | c in Candidates(nodes, s, p) && Chosen(c, Candidates(nodes, s, p), p)), p)
    else {}
  }

  ghost function EdgesTo(nm: Naming, nodes: NodeMap, s: string, chosen: set<Ranked>, p: Policy): set<Edge>
    requires s in nodes
  {
    set c | c in chosen && c.id in nodes :: InferredEdge(nm, nodes, s, c, p)
  }

  /** Everything the pass adds for a set of Services. */
  ghost function ServiceEdges(nm: Naming, nodes: NodeMap, services: set<string>, p: Policy): set<Edge>
    requires services <= nodes.Keys
  {
    set s, e | s in services && e in SelectsEdges(nm, nodes, s) + InferredEdges(nm, nodes, s, p) :: e
  }

  /** Orphaned Services are marked; nothing else changes. */
  ghost function Degraded(nodes: NodeMap, services: set<string>): NodeMap {
    map s | s in nodes :: if s in services && Orphan(nodes, s) then nodes[s].(state := "degraded") else nodes[s]
  }

  /** The edge map after writing a set of edges under their ids over a base. */
  ghost predicate Overlay(result: EdgeMap, base: EdgeMap, written: set<Edge>) {
    && (forall e :: e in written ==> e.id in result && result[e.id] == e)
    && (forall id :: id in base ==> id in result)
    && (forall id :: id in result ==> (exists e :: e in written && e.id == id) || (id in base && result[id] == base[id]))
  }

  lemma OverlayIsUnique(a: EdgeMap, b: EdgeMap, base: EdgeMap, written: set<Edge>)
    requires Overlay(a, base, written) && Overlay(b, base, written)
    ensures a == b
  {
    forall id
      ensures id in a <==> id in b
      ensures id in a && id in b ==> a[id] == b[id]
    {
    }
  }

  lemma OverlayStaysKeyed(result: EdgeMap, base: EdgeMap, written: set<Edge>)
    requires Overlay(result, base, written) && Keyed(base, EdgeKey)
    ensures Keyed(result, EdgeKey)
  {
  }

  /** Writing one more edge, when no different edge was written under its id. */
  lemma OverlayGrows(result: EdgeMap, base: EdgeMap, written: set<Edge>, e: Edge)
    requires Overlay(result, base, written)
    requires forall d :: d in written && d.id == e.id ==> d == e
    ensures Overlay(result[e.id := e], base, written + {e})
  {
  }

  /** Ids tell the pass's edges apart, because a hash determines its parts. */
  lemma EdgeIdsIdentify(nm: Naming, nodes: NodeMap, p: Policy, s: string, t: string, d: Edge, e: Edge)
    requires Discerns(nm, nodes) && s in nodes && t in nodes
    requires d in SelectsEdges(nm, nodes, s) + InferredEdges(nm, nodes, s, p)
    requires e in SelectsEdges(nm, nodes, t) + InferredEdges(nm, nodes, t, p)
    requires d.id == e.id
    ensures d == e
  {
    PassPartsArePlain(nm, nodes, p, s, d);
    PassPartsArePlain(nm, nodes, p, t, e);
    hide SelectsEdges, InferredEdges, StableId;
    SameIdSameParts(nm, nodes, PartsOf(d), PartsOf(e));
    hide Discerns, Plain;
    assert PartsOf(d)[|PartsOf(d)| - 1] == d.to && PartsOf(e)[|PartsOf(e)| - 1] == e.to;
    assert PartsOf(d)[|PartsOf(d)| - 2] == d.from && PartsOf(e)[|PartsOf(e)| - 2] == e.from;
    assert |PartsOf(d)| == (if d.inferred then 4 else 3) && |PartsOf(e)| == (if e.inferred then 4 else 3);
    SameEndsSameEdge(nm, nodes, p, s, d, e);
  }

  lemma SameEndsSameEdge(nm: Naming, nodes: NodeMap, p: Policy, s: string, d: Edge, e: Edge)
    requires s in nodes && d.to == e.to && d.inferred == e.inferred
    requires d in SelectsEdges(nm, nodes, s) + InferredEdges(nm, nodes, s, p)
    requires e in SelectsEdges(nm, nodes, s) + InferredEdges(nm, nodes, s, p)
    ensures d == e
  {
    hide LabelsMatch, Chosen, Eligible, Orphan, StableId;
  }

  lemma PassPartsArePlain(nm: Naming, nodes: NodeMap, p: Policy, s: string, e: Edge)
    requires Discerns(nm, nodes) && s in nodes
    requires e in SelectsEdges(nm, nodes, s) + InferredEdges(nm, nodes, s, p)
    ensures e.id == StableId(nm, PartsOf(e)) && Plain(PartsOf(e)) && e.from == s
  {
    hide LabelsMatch, Chosen, Eligible, StableId, IsSelectingService, SelectsPod, Candidates, Orphan;
    if e in SelectsEdges(nm, nodes, s) {
      var q :| q in nodes && e == SelectsEdge(nm, nodes, s, q);
      PlainParts(["selects", s, q]);
    } else {
      var c: Ranked :| c.id in nodes && e == InferredEdge(nm, nodes, s, c, p);
      PlainParts(["inferred", "possible_selector_target", s, c.id]);
    }
  }

  lemma PlainParts(parts: seq<string>)
    requires |parts| >= 2 && '|' !in parts[|parts| - 1] && '|' !in parts[|parts| - 2]
    requires |parts| == 3 ==> parts[0] == "selects"
    requires |parts| == 4 ==> parts[0] == "inferred" && parts[1] == "possible_selector_target"
    requires |parts| <= 4
    ensures Plain(parts)
  {
    assert '|' !in "selects" && '|' !in "inferred" && '|' !in "possible_selector_target";
  }

  lemma SameIdSameParts(nm: Naming, nodes: NodeMap, a: seq<string>, b: seq<string>)
    requires Discerns(nm, nodes) && a != [] && b != [] && Plain(a) && Plain(b) && StableId(nm, a) == StableId(nm, b)
    ensures a == b
  {
    var x, y := nm.hash(Joined(a)), nm.hash(Joined(b));
    assert ("edge:" + x)[5..] == x && ("edge:" + y)[5..] == y;
    JoinedIdentifies(a, b);
  }

  ghost function PartsOf(e: Edge): seq<string> {
    if e.inferred then ["inferred", "possible_selector_target", e.from, e.to] else ["selects", e.from, e.to]
  }

  /** Writing an edge of the pass over others of the pass. */
  lemma PassEdgeOverlays(nm: Naming, nodes: NodeMap, p: Policy, result: EdgeMap, base: EdgeMap, written: set<Edge>,
          e: Edge)
    requires Discerns(nm, nodes) && Overlay(result, base, written)
    requires written <= ServiceEdges(nm, nodes, nodes.Keys, p) && e in ServiceEdges(nm, nodes, nodes.Keys, p)
    ensures Overlay(result[e.id := e], base, written + {e})
  {
    forall d | d in written && d.id == e.id
      ensures d == e
    {
      var s :| s in nodes && d in SelectsEdges(nm, nodes, s) + InferredEdges(nm, nodes, s, p);
      var t :| t in nodes && e in SelectsEdges(nm, nodes, t) + InferredEdges(nm, nodes, t, p);
      EdgeIdsIdentify(nm, nodes, p, s, t, d, e);
    }
    OverlayGrows(result, base, written, e);
  }

  ghost predicate SameButState(a: NodeMap, b: NodeMap) {
    a.Keys == b.Keys && forall k :: k in a ==> a[k] == b[k].(state := a[k].state)
  }

  /** The pass reads no state, so the states it writes do not disturb it. */
  lemma StateIsIrrelevant(a: NodeMap, b: NodeMap, s: string, p: Policy)
    requires SameButState(a, b) && s in a
    ensures Candidates(a, s, p) == Candidates(b, s, p)
    ensures Orphan(a, s) <==> Orphan(b, s)
  {
    forall k | k in a
      ensures Eligible(a[s], a[k], p) <==> Eligible(b[s], b[k], p)
      ensures RankScore(a[s], a[k]) == RankScore(b[s], b[k])
      ensures SelectsPod(a[s], a[k]) <==> SelectsPod(b[s], b[k])
    {
      hide Score, SystemIdentity, LabelsMatch, Lookup, IsWorkloadKind, MatchedKeys;
    }
    hide Eligible, RankScore, SelectsPod;
  }

  lemma ServiceEdgesContain(nm: Naming, nodes: NodeMap, s: string, p: Policy)
    requires s in nodes
    ensures SelectsEdges(nm, nodes, s) <= ServiceEdges(nm, nodes, nodes.Keys, p)
    ensures InferredEdges(nm, nodes, s, p) <= ServiceEdges(nm, nodes, nodes.Keys, p)
  {
    hide SelectsEdges, InferredEdges;
    assert forall e :: e in SelectsEdges(nm, nodes, s) + InferredEdges(nm, nodes, s, p) ==> e in ServiceEdges(nm, nodes, nodes.Keys, p);
  }

  lemma NoEdgesToNothing(nm: Naming, nodes: NodeMap, s: string, top: seq<Ranked>, p: Policy)
    requires s in nodes
    ensures EdgesTo(nm, nodes, s, Elements(top[..0]), p) == {}
  {
  }

  lemma EdgesToGrow(nm: Naming, nodes: NodeMap, s: string, top: seq<Ranked>, i: nat, p: Policy)
    requires s in nodes && i < |top| && top[i].id in nodes
    ensures EdgesTo(nm, nodes, s, Elements(top[..i + 1]), p)
         == EdgesTo(nm, nodes, s, Elements(top[..i]), p) + {InferredEdge(nm, nodes, s, top[i], p)}
    ensures EdgesTo(nm, nodes, s, Elements(top[..i + 1]), p) <= EdgesTo(nm, nodes, s, Elements(top), p)
  {
    assert top[..i + 1] == top[..i] + [top[i]];
    assert Elements(top[..i + 1]) == Elements(top[..i]) + {top[i]};
    assert Elements(top[..i + 1]) <= Elements(top);
  }

  lemma TopAreInferred(nm: Naming, nodes: NodeMap, s: string, top: seq<Ranked>, p: Policy)
    requires Orphan(nodes, s)
    requires forall c :: c in top <==> Chosen(c, Candidates(nodes, s, p), p)
    ensures forall c :: c in top ==> c.id in nodes
    ensures EdgesTo(nm, nodes, s, Elements(top), p) == InferredEdges(nm, nodes, s, p)
    ensures InferredEdges(nm, nodes, s, p) <= ServiceEdges(nm, nodes, nodes.Keys, p)
  {
    ServiceEdgesContain(nm, nodes, s, p);
    hide EdgesTo, ServiceEdges;
    assert Elements(top) == set c | c in Candidates(nodes, s, p) && Chosen(c, Candidates(nodes, s, p), p);
    assert forall c :: c in Candidates(nodes, s, p) ==> c.id in nodes;
  }

  lemma ServiceEdgesGrow(nm: Naming, nodes: NodeMap, done: set<string>, s: string, p: Policy)
    requires done <= nodes.Keys && s in nodes
    ensures ServiceEdges(nm, nodes, done + {s}, p)
         == ServiceEdges(nm, nodes, done, p) + SelectsEdges(nm, nodes, s) + InferredEdges(nm, nodes, s, p)
    ensures ServiceEdges(nm, nodes, done, p) <= ServiceEdges(nm, nodes, nodes.Keys, p)
  {
    hide SelectsEdges, InferredEdges;
    forall e
      ensures e in ServiceEdges(nm, nodes, done + {s}, p) <==>
              e in ServiceEdges(nm, nodes, done, p) + SelectsEdges(nm, nodes, s) + InferredEdges(nm, nodes, s, p)
    {
      if e in ServiceEdges(nm, nodes, done + {s}, p) {
        var t :| t in done + {s} && e in SelectsEdges(nm, nodes, t) + InferredEdges(nm, nodes, t, p);
        assert t == s || t in done;
      }
      if e in SelectsEdges(nm, nodes, s) + InferredEdges(nm, nodes, s, p) {
        assert s in done + {s};
      }
    }
  }

  lemma SelectsEdgeBelongs(nm: Naming, nodes: NodeMap, s: string, q: string, p: Policy)
    requires s in nodes && q in nodes && IsSelectingService(nodes[s]) && SelectsPod(nodes[s], nodes[q])
    ensures SelectsEdge(nm, nodes, s, q) in ServiceEdges(nm, nodes, nodes.Keys, p)
  {
    ServiceEdgesContain(nm, nodes, s, p);
    hide ServiceEdges, InferredEdges;
    assert SelectsEdge(nm, nodes, s, q) in SelectsEdges(nm, nodes, s);
  }

  lemma NothingToAdd(nm: Naming, nodes: NodeMap, s: string, p: Policy)
    requires s in nodes
    ensures !IsSelectingService(nodes[s]) ==> SelectsEdges(nm, nodes, s) == {} && !Orphan(nodes, s)
    ensures !Orphan(nodes, s) ==> InferredEdges(nm, nodes, s, p) == {}
  {
  }

  lemma DegradedGrows(nodes: NodeMap, done: set<string>, s: string)
    requires done <= nodes.Keys && s in nodes && s !in done
    ensures SameButState(Degraded(nodes, done + {s}), nodes) && SameButState(Degraded(nodes, done), nodes)
    ensures Degraded(nodes, done)[s] == nodes[s]
    ensures Degraded(nodes, done + {s})
         == if Orphan(nodes, s) then Degraded(nodes, done)[s := nodes[s].(state := "degraded")] else Degraded(nodes, done)
  {
    hide Orphan;
  }
}
