/** What validation guarantees: nothing but the catalog is cited, nothing unproven keeps its
    verdict, nothing outside the graph is annotated, and doing it twice changes nothing. */
module Validation {
  import opened Order
  import opened Assessment
  import opened Wrappers

  // ---- Citations --------------------------------------------------------------------

  /** Cites only the catalog, and is unsupported when it cites nothing. */
  ghost predicate Settled(c: Claim, catalog: set<string>) {
    CitesOnly(c.citations, catalog) && (c.citations == [] ==> c.verdict.Unsupported?)
  }

  /** The claim as the model wrote it, up to its citations, with its verdict kept exactly
      when something is cited. */
  predicate Judged(original: Claim, c: Claim) {
    c == original.(citations := c.citations, verdict := if c.citations == [] then Unsupported else original.verdict)
  }

  ghost predicate AllSettled(cs: seq<Claim>, catalog: set<string>) {
    forall i :: 0 <= i < |cs| ==> Settled(cs[i], catalog)
  }

  predicate AllJudged(originals: seq<Claim>, cs: seq<Claim>) {
    |cs| == |originals| && forall i :: 0 <= i < |cs| ==> Judged(originals[i], cs[i])
  }

  lemma CheckingSettles(cs: seq<Claim>, catalog: set<string>)
    ensures AllSettled(CheckedAll(cs, catalog), catalog) && AllJudged(cs, CheckedAll(cs, catalog))
    ensures AllSettled(cs, catalog) ==> CheckedAll(cs, catalog) == cs
  {
    forall i | 0 <= i < |cs|
      ensures Settled(CheckedAll(cs, catalog)[i], catalog) && Judged(cs[i], CheckedAll(cs, catalog)[i])
      ensures Settled(cs[i], catalog) ==> CheckedAll(cs, catalog)[i] == cs[i]
    {
      AcceptedAreCited(cs[i].citations, catalog);
    }
  }

  lemma RecoveredAreCited(st: PathStep, g: Graph, catalog: set<string>)
    ensures CitesOnly(GraphCitations(Recovered(st, g, catalog)), catalog)
  {
    var ids := Recovered(st, g, catalog);
    forall c | c in GraphCitations(ids)
      ensures c.sourceId in catalog
    {
      var i :| 0 <= i < |ids| && GraphCitations(ids)[i] == c;
      assert ids[i] in ids;
    }
  }

  lemma {:induction false} RecoveryKeepsJudgement(originals: seq<Claim>, cs: seq<Claim>, steps: seq<PathStep>,
          g: Graph, catalog: set<string>)
    requires AllSettled(cs, catalog) && AllJudged(originals, cs)
    ensures AllSettled(Recover(cs, Verdicts(originals), steps, g, catalog), catalog)
    ensures AllJudged(originals, Recover(cs, Verdicts(originals), steps, g, catalog))
  {
    if steps != [] {
      RecoveryKeepsJudgement(originals, cs, steps[..|steps| - 1], g, catalog);
      RecoveredAreCited(steps[|steps| - 1], g, catalog);
    }
  }

  ghost predicate CitesOnlyCatalog(b: Body, catalog: set<string>) {
    && AllSettled(b.claims, catalog)
    && AllSettled(b.alternatives, catalog)
    && forall i :: 0 <= i < |b.remediation| ==> CitesOnly(b.remediation[i].citations, catalog)
  }

  /** Every final citation is a catalog id, and a claim has its original verdict when it cites
      something and is unsupported when it does not. */
  lemma CitationsAreSound(b: Body, catalog: set<string>, g: Graph)
    ensures CitesOnlyCatalog(Validated(b, catalog, g), catalog)
    ensures AllJudged(b.claims, Validated(b, catalog, g).claims)
    ensures AllJudged(b.alternatives, Validated(b, catalog, g).alternatives)
  {
    CheckingSettles(b.claims, catalog);
    CheckingSettles(b.alternatives, catalog);
    var path := CheckedPath(b.path, g);
    if path.Some? {
      RecoveryKeepsJudgement(b.claims, CheckedAll(b.claims, catalog), path.value.steps, g, catalog);
    }
    forall i | 0 <= i < |b.remediation|
      ensures CitesOnly(Validated(b, catalog, g).remediation[i].citations, catalog)
    {
      AcceptedAreCited(b.remediation[i].citations, catalog);
    }
  }

  // ---- Accounting -------------------------------------------------------------------

  lemma {:induction false} CountAdds(a: seq<seq<Citation>>, b: seq<seq<Citation>>)
    ensures Count(a + b) == Count(a) + Count(b)
  {
    if b == [] {
      assert a + b == a;
    } else {
      assert (a + b)[..|a + b| - 1] == a + b[..|b| - 1];
      CountAdds(a, b[..|b| - 1]);
    }
  }

  lemma {:induction false} RejectedAdds(a: seq<seq<Citation>>, b: seq<seq<Citation>>, catalog: set<string>)
    ensures RejectedIn(a + b, catalog) == RejectedIn(a, catalog) + RejectedIn(b, catalog)
  {
    if b == [] {
      assert a + b == a;
    } else {
      assert (a + b)[..|a + b| - 1] == a + b[..|b| - 1];
      RejectedAdds(a, b[..|b| - 1], catalog);
    }
  }

  lemma {:induction false} ListsAddUp(before: seq<seq<Citation>>, after: seq<seq<Citation>>, catalog: set<string>)
    requires |after| == |before| && forall i :: 0 <= i < |before| ==> after[i] == Accepted(before[i], catalog)
    ensures Count(before) == Count(after) + |RejectedIn(before, catalog)|
  {
    if before != [] {
      var n := |before| - 1;
      AcceptedAreCited(before[n], catalog);
      ListsAddUp(before[..n], after[..n], catalog);
    }
  }

  /** The assessment after its citations are checked and before any are recovered. */
  ghost function CheckedBody(b: Body, catalog: set<string>): Body {
    b.(claims := CheckedAll(b.claims, catalog),
       alternatives := CheckedAll(b.alternatives, catalog),
       remediation := CheckedSteps(b.remediation, catalog))
  }

  /** The reported total is the accepted citations plus the invalid ones. */
  lemma EveryCitationIsCounted(b: Body, catalog: set<string>)
    ensures ReportOf(b, catalog).total == Count(CitationLists(CheckedBody(b, catalog))) + ReportOf(b, catalog).invalid
    ensures ReportOf(b, catalog).valid <==> ReportOf(b, catalog).invalidSourceIds == []
  {
    hide RejectedIn, Count, Accepted;
    var before, after := CitationLists(b), CitationLists(CheckedBody(b, catalog));
    assert |after| == |before|;
    assert forall i :: 0 <= i < |before| ==> after[i] == Accepted(before[i], catalog);
    ListsAddUp(before, after, catalog);
    EmptyIds(InvalidIn(b, catalog));
  }

  lemma EmptyIds(ids: seq<string>)
    ensures SortedSet(set id | id in ids) == [] <==> ids == []
  {
    var found := set id | id in ids;
    if ids != [] {
      assert ids[0] in found;
    } else {
      assert found == {};
    }
    EmptyLists(SortedSet(found), found);
  }

  lemma {:induction false} NothingRejected(lists: seq<seq<Citation>>, catalog: set<string>)
    requires forall i :: 0 <= i < |lists| ==> CitesOnly(lists[i], catalog)
    ensures RejectedIn(lists, catalog) == []
  {
    if lists != [] {
      AcceptedAreCited(lists[|lists| - 1], catalog);
      NothingRejected(lists[..|lists| - 1], catalog);
    }
  }

  lemma CitesOnlyCatalogIsValid(b: Body, catalog: set<string>)
    requires CitesOnlyCatalog(b, catalog)
    ensures InvalidIn(b, catalog) == []
  {
    NothingRejected(ClaimLists(b.claims), catalog);
    NothingRejected(ClaimLists(b.alternatives), catalog);
    NothingRejected(StepLists(b.remediation), catalog);
    RejectedAdds(ClaimLists(b.claims), ClaimLists(b.alternatives), catalog);
    RejectedAdds(ClaimLists(b.claims) + ClaimLists(b.alternatives), StepLists(b.remediation), catalog);
  }

  // ---- Insights ---------------------------------------------------------------------

  ghost predicate Anchored(n: Insight, graphIds: set<string>, catalog: set<string>, claimIds: set<string>) {
    && n.nodeId in graphIds
    && (forall id :: id in n.sourceIds ==> id in catalog)
    && (forall id :: id in n.claimIds ==> id in claimIds)
    && StrictlyAscending(n.sourceIds) && StrictlyAscending(n.claimIds)
    && (n.relevance.Relevant? ==> n.sourceIds != [] || n.claimIds != [])
  }

  predicate OneEach(ns: seq<Insight>) {
    forall i, j :: 0 <= i < j < |ns| ==> ns[i].nodeId != ns[j].nodeId
  }

  lemma NodeIdsAdd(ns: seq<Insight>, n: Insight)
    ensures NodeIdsOf(ns + [n]) == NodeIdsOf(ns) + {n.nodeId}
  {
    forall id
      ensures id in NodeIdsOf(ns + [n]) <==> id in NodeIdsOf(ns) + {n.nodeId}
    {
      assert forall m :: m in ns + [n] <==> m in ns || m == n;
    }
  }

  /** Kept insights annotate distinct nodes of the graph, and are exactly the first ones for
      each node that has any. */
  lemma {:induction false} InsightsAreAnchored(ns: seq<Insight>, graphIds: set<string>, catalog: set<string>,
          claimIds: set<string>)
    ensures var kept := KeptInsights(ns, graphIds, catalog, claimIds);
            && OneEach(kept) && NodeIdsOf(kept) == NodeIdsOf(ns) * graphIds
            && forall i :: 0 <= i < |kept| ==> Anchored(kept[i], graphIds, catalog, claimIds)
  {
    KeptNone(graphIds, catalog, claimIds);
    hide *;
    if ns != [] {
      var front, last := ns[..|ns| - 1], ns[|ns| - 1];
      assert ns == front + [last];
      InsightsAreAnchored(front, graphIds, catalog, claimIds);
      KeptAtEnd(front, last, graphIds, catalog, claimIds);
      NodeIdsAdd(front, last);
      var before, cleaned := KeptInsights(front, graphIds, catalog, claimIds), Cleaned(last, catalog, claimIds);
      if last.nodeId in graphIds && last.nodeId !in NodeIdsOf(before) {
        NodeIdsAdd(before, cleaned);
        CleanedKeepsNode(last, catalog, claimIds);
        AddingKeepsOneEach(before, cleaned);
        CleanedIsAnchored(last, graphIds, catalog, claimIds);
      }
    }
  }

  lemma KeptNone(graphIds: set<string>, catalog: set<string>, claimIds: set<string>)
    ensures KeptInsights([], graphIds, catalog, claimIds) == [] && OneEach([]) && NodeIdsOf([]) == {}
  {
  }

  lemma CleanedKeepsNode(n: Insight, catalog: set<string>, claimIds: set<string>)
    ensures Cleaned(n, catalog, claimIds).nodeId == n.nodeId
  {
  }

  lemma AddingKeepsOneEach(ns: seq<Insight>, n: Insight)
    requires OneEach(ns) && n.nodeId !in NodeIdsOf(ns)
    ensures OneEach(ns + [n])
  {
    forall i | 0 <= i < |ns|
      ensures ns[i].nodeId != n.nodeId
    {
      assert ns[i] in ns;
    }
  }

  lemma CleanedIsAnchored(n: Insight, graphIds: set<string>, catalog: set<string>, claimIds: set<string>)
    requires n.nodeId in graphIds
    ensures Anchored(Cleaned(n, catalog, claimIds), graphIds, catalog, claimIds)
  {
  }

  lemma AnchoredIsClean(n: Insight, graphIds: set<string>, catalog: set<string>, claimIds: set<string>)
    requires Anchored(n, graphIds, catalog, claimIds)
    ensures n.nodeId in graphIds && Cleaned(n, catalog, claimIds) == n
  {
    var sources := set id | id in n.sourceIds && id in catalog;
    var claims := set id | id in n.claimIds && id in claimIds;
    ListsIsUnique(n.sourceIds, SortedSet(sources), sources);
    ListsIsUnique(n.claimIds, SortedSet(claims), claims);
  }

  lemma LastIsNew(ns: seq<Insight>)
    requires ns != [] && OneEach(ns)
    ensures OneEach(ns[..|ns| - 1]) && ns[|ns| - 1].nodeId !in NodeIdsOf(ns[..|ns| - 1])
  {
    var front := ns[..|ns| - 1];
    forall n | n in front
      ensures n.nodeId != ns[|ns| - 1].nodeId
    {
      var i :| 0 <= i < |front| && front[i] == n;
      assert ns[i] == n;
    }
  }

  lemma {:induction false} AnchoredAreKept(ns: seq<Insight>, graphIds: set<string>, catalog: set<string>,
          claimIds: set<string>)
    requires forall i :: 0 <= i < |ns| ==> Anchored(ns[i], graphIds, catalog, claimIds)
    requires OneEach(ns)
    ensures KeptInsights(ns, graphIds, catalog, claimIds) == ns
  {
    if ns == [] {
      assert KeptInsights(ns, graphIds, catalog, claimIds) == [];
    }
    hide Anchored, Cleaned, OneEach, NodeIdsOf, KeptInsights;
    if ns != [] {
      var front, last := ns[..|ns| - 1], ns[|ns| - 1];
      LastIsNew(ns);
      assert ns == front + [last];
      AnchoredAreKept(front, graphIds, catalog, claimIds);
      AnchoredIsClean(last, graphIds, catalog, claimIds);
      KeptAtEnd(front, last, graphIds, catalog, claimIds);
    }
  }

  lemma KeptAtEnd(front: seq<Insight>, last: Insight, graphIds: set<string>, catalog: set<string>,
          claimIds: set<string>)
    ensures var before := KeptInsights(front, graphIds, catalog, claimIds);
            KeptInsights(front + [last], graphIds, catalog, claimIds) ==
              if last.nodeId in graphIds && last.nodeId !in NodeIdsOf(before) then before + [Cleaned(last, catalog, claimIds)] else before
  {
    hide Cleaned, NodeIdsOf;
    assert (front + [last])[..|front|] == front;
  }

  // ---- Recovery ---------------------------------------------------------------------

  predicate SameIds(a: seq<Claim>, b: seq<Claim>) {
    |a| == |b| && forall i :: 0 <= i < |a| ==> a[i].id == b[i].id
  }

  lemma {:induction false} ClaimIndexById(a: seq<Claim>, b: seq<Claim>, id: string)
    requires SameIds(a, b)
    ensures ClaimIndex(a, id) == ClaimIndex(b, id)
  {
    if a != [] {
      ClaimIndexById(a[..|a| - 1], b[..|b| - 1], id);
    }
  }

  lemma ClaimIdsById(a: seq<Claim>, b: seq<Claim>)
    requires SameIds(a, b)
    ensures ClaimIds(a) <= ClaimIds(b)
  {
    forall id | id in ClaimIds(a)
      ensures id in ClaimIds(b)
    {
      var i :| 0 <= i < |a| && a[i].id == id;
      assert b[i] in b;
    }
  }

  /** The step has nothing more to give. */
  ghost predicate Spent(cs: seq<Claim>, st: PathStep, g: Graph, catalog: set<string>) {
    var i := ClaimIndex(cs, st.claimId);
    i.None? || cs[i.value].citations != [] || Recovered(st, g, catalog) == []
  }

  lemma SpentStays(cs: seq<Claim>, originals: seq<Verdict>, st: PathStep, st': PathStep, g: Graph, catalog: set<string>)
    requires |originals| == |cs|
    ensures SameIds(cs, RecoverStep(cs, originals, st, g, catalog))
    ensures Spent(RecoverStep(cs, originals, st, g, catalog), st, g, catalog)
    ensures Spent(cs, st', g, catalog) ==> Spent(RecoverStep(cs, originals, st, g, catalog), st', g, catalog)
  {
    var next := RecoverStep(cs, originals, st, g, catalog);
    ClaimIndexById(cs, next, st.claimId);
    ClaimIndexById(cs, next, st'.claimId);
  }

  lemma {:induction false} RecoverySpendsSteps(cs: seq<Claim>, originals: seq<Verdict>, steps: seq<PathStep>,
          g: Graph, catalog: set<string>)
    requires |originals| == |cs|
    ensures SameIds(cs, Recover(cs, originals, steps, g, catalog))
    ensures forall k :: 0 <= k < |steps| ==> Spent(Recover(cs, originals, steps, g, catalog), steps[k], g, catalog)
  {
    if steps != [] {
      hide Spent, RecoverStep, SameIds;
      var n := |steps| - 1;
      RecoverySpendsSteps(cs, originals, steps[..n], g, catalog);
      var before := Recover(cs, originals, steps[..n], g, catalog);
      forall k | 0 <= k < |steps|
        ensures Spent(RecoverStep(before, originals, steps[n], g, catalog), steps[k], g, catalog)
      {
        SpentStays(before, originals, steps[n], steps[k], g, catalog);
        if k < n {
          assert Spent(before, steps[..n][k], g, catalog);
        }
      }
      SpentStays(before, originals, steps[n], steps[n], g, catalog);
    }
  }

  lemma {:induction false} SpentStepsRecoverNothing(cs: seq<Claim>, originals: seq<Verdict>, steps: seq<PathStep>,
          g: Graph, catalog: set<string>)
    requires |originals| == |cs|
    requires forall k :: 0 <= k < |steps| ==> Spent(cs, steps[k], g, catalog)
    ensures Recover(cs, originals, steps, g, catalog) == cs
  {
    if steps != [] {
      SpentStepsRecoverNothing(cs, originals, steps[..|steps| - 1], g, catalog);
    }
  }

  lemma NoEvidence(st: PathStep, g: Graph, catalog: set<string>)
    ensures Recovered(st, g, catalog) == [] <==> forall id :: id in RawEvidence(st, g) ==> id !in catalog
  {
    var found := set id | id in RawEvidence(st, g) && id in catalog;
    EmptyLists(Recovered(st, g, catalog), found);
    if found == {} {
      forall id | id in RawEvidence(st, g)
        ensures id !in catalog
      {
        assert id !in found;
      }
    }
  }

  /** A claim left without citations is one no step of the surviving path can give any. */
  lemma UncitedHasNoEvidence(b: Body, catalog: set<string>, g: Graph, st: PathStep)
    requires Validated(b, catalog, g).path.Some? && st in Validated(b, catalog, g).path.value.steps
    ensures var v := Validated(b, catalog, g);
            var i := ClaimIndex(v.claims, st.claimId);
            i.Some? && v.claims[i.value].citations == [] ==>
              v.claims[i.value].verdict.Unsupported? && forall id :: id in RawEvidence(st, g) ==> id !in catalog
  {
    CitationsAreSound(b, catalog, g);
    var steps := CheckedPath(b.path, g).value.steps;
    var checked := CheckedAll(b.claims, catalog);
    RecoverySpendsSteps(checked, Verdicts(b.claims), steps, g, catalog);
    var k :| 0 <= k < |steps| && steps[k] == st;
    NoEvidence(st, g, catalog);
  }

  // ---- Idempotence ------------------------------------------------------------------

  lemma ClaimsAreStable(b: Body, catalog: set<string>, g: Graph)
    ensures var v := Validated(b, catalog, g);
            && Validated(v, catalog, g).claims == v.claims
            && ClaimIds(CheckedAll(v.claims, catalog)) == ClaimIds(CheckedAll(b.claims, catalog))
  {
    var v, path, checked := Validated(b, catalog, g), CheckedPath(b.path, g), CheckedAll(b.claims, catalog);
    CitationsAreSound(b, catalog, g);
    CheckingSettles(v.claims, catalog);
    if path.Some? {
      RecoverySpendsSteps(checked, Verdicts(b.claims), path.value.steps, g, catalog);
      SpentStepsRecoverNothing(v.claims, Verdicts(v.claims), path.value.steps, g, catalog);
    }
    assert SameIds(checked, v.claims) && SameIds(v.claims, checked);
    ClaimIdsById(checked, v.claims);
    ClaimIdsById(v.claims, checked);
  }

  /** Every surviving annotation is about the graph of the request: one insight a node, resting
      on known evidence or claims, and a path only through known entities. */
  lemma AnnotationsStayInTheGraph(b: Body, catalog: set<string>, g: Graph)
    ensures var v := Validated(b, catalog, g);
            && OneEach(v.insights) && NodeIdsOf(v.insights) == NodeIdsOf(b.insights) * IdsOf(Nodes(g))
            && (forall i :: 0 <= i < |v.insights| ==> Anchored(v.insights[i], IdsOf(Nodes(g)), catalog, ClaimIds(v.claims)))
            && (g.Graph? && v.path.Some? ==>
                  var p := v.path.value;
                  && g.entryResourceId == Some(p.entryResourceId) && p.rootCauseEntityId in IdsOf(g.nodes) && p.steps != []
                  && forall i :: 0 <= i < |p.steps| ==>
                       && p.steps[i].entityId in IdsOf(g.nodes)
                       && (p.steps[i].edgeId != "" ==> p.steps[i].edgeId in IdsOf(g.edges))
                       && (p.steps[i].candidateId != "" ==> p.steps[i].candidateId in IdsOf(g.candidates)))
  {
    var checked := CheckedAll(b.claims, catalog);
    InsightsAreAnchored(b.insights, IdsOf(Nodes(g)), catalog, ClaimIds(checked));
    var path := CheckedPath(b.path, g);
    if path.Some? {
      RecoverySpendsSteps(checked, Verdicts(b.claims), path.value.steps, g, catalog);
      var v := Validated(b, catalog, g);
      ClaimIdsById(checked, v.claims);
      ClaimIdsById(v.claims, checked);
    }
  }

  lemma StepsAreStable(rs: seq<RemediationStep>, catalog: set<string>)
    requires forall i :: 0 <= i < |rs| ==> CitesOnly(rs[i].citations, catalog)
    ensures CheckedSteps(rs, catalog) == rs
  {
    forall i | 0 <= i < |rs|
      ensures CheckedSteps(rs, catalog)[i] == rs[i]
    {
      AcceptedAreCited(rs[i].citations, catalog);
    }
  }

  /** Validating a validated assessment changes nothing and finds nothing invalid. */
  lemma ValidationIsIdempotent(b: Body, catalog: set<string>, g: Graph)
    ensures Validated(Validated(b, catalog, g), catalog, g) == Validated(b, catalog, g)
    ensures ReportOf(Validated(b, catalog, g), catalog).valid && ReportOf(Validated(b, catalog, g), catalog).invalid == 0
  {
    var v := Validated(b, catalog, g);
    CitationsAreSound(b, catalog, g);
    CitesOnlyCatalogIsValid(v, catalog);
    ClaimsAreStable(b, catalog, g);
    CheckingSettles(v.alternatives, catalog);
    StepsAreStable(v.remediation, catalog);
    var claimIds := ClaimIds(CheckedAll(b.claims, catalog));
    InsightsAreAnchored(b.insights, IdsOf(Nodes(g)), catalog, claimIds);
    AnchoredAreKept(v.insights, IdsOf(Nodes(g)), catalog, claimIds);
  }
}
