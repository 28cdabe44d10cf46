/** The investigation graph: its nodes, edges and policy. */
module Graph {

  datatype ResourceRef = ResourceRef(apiGroup: string, kind: string, namespace: string, name: string)

  datatype NodeKind = ResourceNode | ReferenceNode

  /** The attributes that the engine reads; "templateLabels" and the rest are label maps. */
  datatype Node = Node(
    id: string,
    kind: NodeKind,
    resource: ResourceRef,
    state: string,
    role: string,
    selector: map<string, string>,
    labels: map<string, string>,
    templateLabels: map<string, string>,
    annotations: map<string, string>)

  datatype Edge = Edge(
    id: string,
    kind: string,
    from: string,
    to: string,
    state: string,
    inferred: bool,
    score: int,
    strong: bool,
    sourceIds: seq<string>)

  datatype Candidate = Candidate(id: string, source: string, reference: string, target: string)

  datatype Policy = Policy(
    maxObservedDepth: int,
    maxInferredHops: int,
    maxNodes: int,
    maxEdges: int,
    maxCandidatesPerGap: int,
    strongThreshold: int,
    possibleThreshold: int)

  function NodeKey(n: Node): string {
    n.id
  }

  function EdgeKey(e: Edge): string {
    e.id
  }

  lemma SubsetCardinality(a: set<string>, b: set<string>)
    requires a <= b
    ensures |a| <= |b|
  {
    assert b == a + (b - a);
  }
}
