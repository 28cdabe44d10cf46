/** The assessment a model returns, the request it is checked against, and what the
    gateway's validation must make of it. */
module Assessment {
  import opened Order
  import opened Wrappers

  datatype Verdict = Supported | PartiallySupported | Unsupported

  datatype Citation = Citation(sourceId: string, quote: string, relevance: string)

  datatype Claim = Claim(id: string, statement: string, verdict: Verdict, citations: seq<Citation>)

  datatype RemediationStep = RemediationStep(title: string, citations: seq<Citation>)

  datatype Relevance = Relevant | Context | NotRelevant

  datatype Insight = Insight(nodeId: string, relevance: Relevance, comment: string, claimIds: seq<string>, sourceIds: seq<string>)

  datatype PathStep = PathStep(entityId: string, edgeId: string, candidateId: string, claimId: string)

  datatype CausalPath = CausalPath(entryResourceId: string, rootCauseEntityId: string, steps: seq<PathStep>)

  datatype Body = Body(
    claims: seq<Claim>,
    alternatives: seq<Claim>,
    remediation: seq<RemediationStep>,
    insights: seq<Insight>,
    path: Option<CausalPath>,
    confidence: real)

  /** A graph entity with its evidence; for a candidate, that of all its reasons. */
  datatype Entity = Entity(id: string, sourceIds: seq<string>)

  /** The graph sent with the request, or none when it was missing or empty. */
  datatype Graph = NoGraph | Graph(entryResourceId: Option<string>, nodes: seq<Entity>, edges: seq<Entity>, candidates: seq<Entity>)

  function Nodes(g: Graph): seq<Entity> {
    if g.NoGraph? then [] else g.nodes
  }

  function Edges(g: Graph): seq<Entity> {
    if g.NoGraph? then [] else g.edges
  }

  function Candidates(g: Graph): seq<Entity> {
    if g.NoGraph? then [] else g.candidates
  }

  function IdsOf(entities: seq<Entity>): set<string> {
    set e | e in entities && e.id != "" :: e.id
  }

  // ---- Citations --------------------------------------------------------------------

  /** The part of a source id after its last colon. */
  function Suffix(id: string): (r: string)
    ensures ':' !in r && |r| <= |id| && id[|id| - |r|..] == r
    ensures r != id ==> id[|id| - |r| - 1] == ':'
  {
    if id == "" then ""
    else if id[|id| - 1] == ':' then ""
    else Suffix(id[..|id| - 1]) + [id[|id| - 1]]
  }

  function WithSuffix(catalog: set<string>, suffix: string): set<string> {
    set id | id in catalog && Suffix(id) == suffix
  }

  /** A catalog id stands for itself; the suffix of exactly one catalog id stands for that id. */
  ghost predicate ResolvesTo(catalog: set<string>, cited: string, id: string) {
    id in catalog && if cited in catalog then id == cited else WithSuffix(catalog, cited) == {id}
  }

  ghost function Resolved(catalog: set<string>, cited: string): (r: Option<string>)
    ensures r.Some? <==> exists id :: ResolvesTo(catalog, cited, id)
    ensures r.Some? ==> ResolvesTo(catalog, cited, r.value)
  {
    if id :| ResolvesTo(catalog, cited, id) then Some(id) else None
  }

  ghost function Accepted(cs: seq<Citation>, catalog: set<string>): seq<Citation> {
    if cs == [] then []
    else
      var last := cs[|cs| - 1];
      var r := Resolved(catalog, last.sourceId);
      Accepted(cs[..|cs| - 1], catalog) + if r.Some? then [last.(sourceId := r.value)] else []
  }

  ghost function Rejected(cs: seq<Citation>, catalog: set<string>): seq<string> {
    if cs == [] then []
    else
      var last := cs[|cs| - 1];
      Rejected(cs[..|cs| - 1], catalog) + if Resolved(catalog, last.sourceId).Some? then [] else [last.sourceId]
  }

  ghost predicate CitesOnly(cs: seq<Citation>, catalog: set<string>) {
    forall c :: c in cs ==> c.sourceId in catalog
  }

  /** Checked citations are catalog ids, every citation is accounted for, and a list of
      catalog ids passes unchanged. */
  lemma {:induction false} AcceptedAreCited(cs: seq<Citation>, catalog: set<string>)
    ensures CitesOnly(Accepted(cs, catalog), catalog)
    ensures |Accepted(cs, catalog)| + |Rejected(cs, catalog)| == |cs|
    ensures CitesOnly(cs, catalog) ==> Accepted(cs, catalog) == cs && Rejected(cs, catalog) == []
  {
    if cs != [] {
      var front, last := cs[..|cs| - 1], cs[|cs| - 1];
      assert cs == front + [last];
      AcceptedAreCited(front, catalog);
      if last.sourceId in catalog {
        assert ResolvesTo(catalog, last.sourceId, last.sourceId);
      }
    }
  }

  ghost function Checked(c: Claim, catalog: set<string>): Claim {
    var accepted := Accepted(c.citations, catalog);
    c.(citations := accepted, verdict := if accepted == [] then Unsupported else c.verdict)
  }

  ghost function CheckedAll(cs: seq<Claim>, catalog: set<string>): (r: seq<Claim>)
    ensures |r| == |cs| && forall i :: 0 <= i < |cs| ==> r[i] == Checked(cs[i], catalog)
  {
    seq(|cs|, i requires 0 <= i < |cs| => Checked(cs[i], catalog))
  }

  ghost function CheckedSteps(rs: seq<RemediationStep>, catalog: set<string>): (r: seq<RemediationStep>)
    ensures |r| == |rs| && forall i :: 0 <= i < |rs| ==> r[i] == rs[i].(citations := Accepted(rs[i].citations, catalog))
  {
    seq(|rs|, i requires 0 <= i < |rs| => rs[i].(citations := Accepted(rs[i].citations, catalog)))
  }

  function ClaimLists(cs: seq<Claim>): (r: seq<seq<Citation>>)
    ensures |r| == |cs| && forall i :: 0 <= i < |cs| ==> r[i] == cs[i].citations
  {
    seq(|cs|, i requires 0 <= i < |cs| => cs[i].citations)
  }

  function StepLists(rs: seq<RemediationStep>): (r: seq<seq<Citation>>)
    ensures |r| == |rs| && forall i :: 0 <= i < |rs| ==> r[i] == rs[i].citations
  {
    seq(|rs|, i requires 0 <= i < |rs| => rs[i].citations)
  }

  /** The citation lists in the order they are checked. */
  function CitationLists(b: Body): seq<seq<Citation>> {
    ClaimLists(b.claims) + ClaimLists(b.alternatives) + StepLists(b.remediation)
  }

  function Count(lists: seq<seq<Citation>>): nat {
    if lists == [] then 0 else Count(lists[..|lists| - 1]) + |lists[|lists| - 1]|
  }

  ghost function RejectedIn(lists: seq<seq<Citation>>, catalog: set<string>): seq<string> {
    if lists == [] then []
    else RejectedIn(lists[..|lists| - 1], catalog) + Rejected(lists[|lists| - 1], catalog)
  }

  // ---- Insights ---------------------------------------------------------------------

  ghost function Cleaned(n: Insight, catalog: set<string>, claimIds: set<string>): Insight {
    var sources := SortedSet(set id | id in n.sourceIds && id in catalog);
    var claims := SortedSet(set id | id in n.claimIds && id in claimIds);
    n.(sourceIds := sources, claimIds := claims,
       relevance := if n.relevance.Relevant? && sources == [] && claims == [] then Context else n.relevance)
  }

  function NodeIdsOf(ns: seq<Insight>): set<string> {
    set n | n in ns :: n.nodeId
  }

  /** The first insight for each node of the graph. */
  ghost function KeptInsights(ns: seq<Insight>, graphIds: set<string>, catalog: set<string>,
          claimIds: set<string>): seq<Insight> {
    if ns == [] then []
    else
      var before := KeptInsights(ns[..|ns| - 1], graphIds, catalog, claimIds);
      var last := ns[|ns| - 1];
      before + if last.nodeId in graphIds && last.nodeId !in NodeIdsOf(before) then [Cleaned(last, catalog, claimIds)] else []
  }

  function ClaimIds(cs: seq<Claim>): set<string> {
    set c | c in cs && c.id != "" :: c.id
  }

  // ---- Causal path ------------------------------------------------------------------

  predicate PathStepOk(st: PathStep, g: Graph) {
    && st.entityId in IdsOf(Nodes(g))
    && (st.edgeId == "" || st.edgeId in IdsOf(Edges(g)))
    && (st.candidateId == "" || st.candidateId in IdsOf(Candidates(g)))
  }

  predicate PathOk(p: CausalPath, g: Graph)
    requires g.Graph?
  {
    && g.entryResourceId == Some(p.entryResourceId)
    && p.rootCauseEntityId in IdsOf(g.nodes)
    && p.steps != []
    && forall i :: 0 <= i < |p.steps| ==> PathStepOk(p.steps[i], g)
  }

  function CheckedPath(path: Option<CausalPath>, g: Graph): Option<CausalPath> {
    if path.Some? && g.Graph? && !PathOk(path.value, g) then None else path
  }

  // ---- Recovery ---------------------------------------------------------------------

  /** Evidence of the last entity of that id, as a dictionary keeps it. */
  function EvidenceOf(entities: seq<Entity>, id: string): seq<string> {
    if id == "" || entities == [] then []
    else if entities[|entities| - 1].id == id then entities[|entities| - 1].sourceIds
    else EvidenceOf(entities[..|entities| - 1], id)
  }

  function RawEvidence(st: PathStep, g: Graph): seq<string> {
    EvidenceOf(Nodes(g), st.entityId) + EvidenceOf(Edges(g), st.edgeId) + EvidenceOf(Candidates(g), st.candidateId)
  }

  ghost function Recovered(st: PathStep, g: Graph, catalog: set<string>): seq<string> {
    SortedSet(set id | id in RawEvidence(st, g) && id in catalog)
  }

  /** Index of the last claim of a non-empty id. */
  function ClaimIndex(cs: seq<Claim>, id: string): (r: Option<nat>)
    ensures r.Some? ==> r.value < |cs| && cs[r.value].id == id && id != ""
  {
    if cs == [] || id == "" then None
    else if cs[|cs| - 1].id == id then Some(|cs| - 1)
    else ClaimIndex(cs[..|cs| - 1], id)
  }

  function GraphCitations(ids: seq<string>): (r: seq<Citation>)
    ensures |r| == |ids| && forall i :: 0 <= i < |ids| ==> r[i].sourceId == ids[i]
  {
    seq(|ids|, i requires 0 <= i < |ids| => Citation(ids[i], "", "Deterministic graph evidence"))
  }

  /** One path step gives an uncited claim the evidence of its graph entities, and its
      original verdict back. */
  ghost function RecoverStep(cs: seq<Claim>, originals: seq<Verdict>, st: PathStep, g: Graph,
          catalog: set<string>): seq<Claim>
    requires |originals| == |cs|
  {
    var i := ClaimIndex(cs, st.claimId);
    if i.None? || cs[i.value].citations != [] || Recovered(st, g, catalog) == [] then cs
    else cs[i.value := cs[i.value].(citations := GraphCitations(Recovered(st, g, catalog)), verdict := originals[i.value])]
  }

  ghost function Recover(cs: seq<Claim>, originals: seq<Verdict>, steps: seq<PathStep>, g: Graph,
          catalog: set<string>): (r: seq<Claim>)
    requires |originals| == |cs|
    ensures |r| == |cs|
  {
    if steps == [] then cs
    else RecoverStep(Recover(cs, originals, steps[..|steps| - 1], g, catalog), originals, steps[|steps| - 1], g, catalog)
  }

  // ---- The whole validation ----------------------------------------------------------

  datatype Report = Report(valid: bool, total: nat, invalid: nat, invalidSourceIds: seq<string>)

  function Verdicts(cs: seq<Claim>): (r: seq<Verdict>)
    ensures |r| == |cs| && forall i :: 0 <= i < |cs| ==> r[i] == cs[i].verdict
  {
    seq(|cs|, i requires 0 <= i < |cs| => cs[i].verdict)
  }

  ghost function InvalidIn(b: Body, catalog: set<string>): seq<string> {
    RejectedIn(CitationLists(b), catalog)
  }

  ghost function ReportOf(b: Body, catalog: set<string>): Report {
    var invalid := InvalidIn(b, catalog);
    Report(invalid == [], Count(CitationLists(b)), |invalid|, SortedSet(set id | id in invalid))
  }

  ghost function Validated(b: Body, catalog: set<string>, g: Graph): Body {
    var claims := CheckedAll(b.claims, catalog);
    var path := CheckedPath(b.path, g);
    Body(
      if path.Some? then Recover(claims, Verdicts(b.claims), path.value.steps, g, catalog) else claims,
      CheckedAll(b.alternatives, catalog),
      CheckedSteps(b.remediation, catalog),
      KeptInsights(b.insights, IdsOf(Nodes(g)), catalog, ClaimIds(claims)),
      path,
      if InvalidIn(b, catalog) != [] && b.confidence > 0.69 then 0.69 else b.confidence)
  }
}
