# KubeChan: incidents, investigation graph, evidence and timers

KubeChan watches a Kubernetes cluster, groups failing resources into Incidents, builds a bounded
graph of evidence around one and has a language model assess it. These modules model its
protocols and algorithms in Dafny and prove what they are for.

**Incidents** (`Cluster`, `Correlation`, `Lifecycle`, `IncidentProtocol`, `Recurrence`, `Fates`,
`CorrelationSteps`, `CaseLabels`). Detectors open ProblemCases, a reconciler resolves them, and
the correlation controller groups them by workload root, creating, reusing, reopening and
resolving Incidents; exclusion rules and the Resolve endpoint resolve Incidents too. The store
is a pair of maps and the clock an integer that only grows. `IncidentProtocol` takes each
reconcile as one step and proves safety over every run and agreement whenever the queue is
empty; `Recurrence` says when an Incident is reused and what it remembers, `Fates` exactly which
action changes what. `CorrelationSteps` takes each API call as a step, with a crash possible
after any call, and shows that an uninterrupted reconcile is the one-step one.

**Workload roots** (`RootFinding`). The walk up the controller owners, and from a Service to the
single workload behind it.

**Investigation graph** (`Order`, `Graph`, `Traversal`, `Bounds`, `Selectors`, `Inference`,
`Targets`, `HopBudget`, `Engine`, `LastWriter`, `IngressBackends`, `WorkloadDependencies`,
`Discovery`). A builder over maps, inference of missing Service targets, a breadth-first walk
under two budgets and hard caps. Ranging over a map is an arbitrary choice of the next key, so
what is proved holds for every order.

**Evidence and assessment** (`Decimal`, `JsonPointer`, `Catalog`, `Assessment`, `Validation`,
`Vetting`, `Validator`, `SourceBudget`). Resources are flattened to JSON Pointers of RFC 6901,
rendered within a budget, and the model's assessment is rewritten so that it cites only the
catalog. `Assessment` defines the validated assessment, `Validation` proves what it guarantees,
`Vetting` tells it part by part from the request alone, and `Validator` is the in-place pass
that computes it.

**Timers and windows** (`Debounce`, `Windows`). The debouncer with its lock and the runtime's
timers, and the two readings of an exclusion rule's time window.

Lemmas such as those named `InFull` tie the definitions down: they say what an operation does in
the terms of its input and with the source's own constants, not through the definitions it is
modelled with.

Where the code does not do what its comments or an obvious reading say, the model follows the
code: a lemma gives a failing input or run, and another says exactly when the property holds.
Three comparisons are settled one way only: two labels that are both truncated, labels of
resources with a dot in the kind or namespace or a capital in the namespace or name, and edge
ids of nodes with a bar in theirs. `dafny verify dfyconfig.toml` checks the whole project;
`Wrappers` and `Text` are shared.

## Model

| member | source | states |
|---|---|---|
| IncidentProtocol.Quiescence | services/cluster-watcher/controllers/correlation_reconciler.go:65-130 | in every run of all controllers without deletions and user resolutions, whenever no reconcile is pending each active ProblemCase is labelled with and listed in exactly one Incident, which is not resolved, and every Incident counts its active members and is resolved exactly when it has members and none is active |
| IncidentProtocol.RunsAreTracked | services/cluster-watcher/controllers/correlation_reconciler.go:392-424 | over every such run an Incident is up to date or a case that will bring it up to date is still queued |
| IncidentProtocol.RunsAreSafe | services/cluster-watcher/controllers/correlation_reconciler.go:65-130 | in every reachable state, with deletions and user resolutions too: one unresolved auto Incident a root, one open case a label and detector, labels and member lists agree, no member list repeats, and an auto Incident that the user did not resolve is resolved only without active members |
| IncidentProtocol.NextKeepsSafe | services/cluster-watcher/controllers/correlation_reconciler.go:65-130 | each single action of any controller keeps all of that |
| IncidentProtocol.NewNameIsFresh | services/cluster-watcher/controllers/correlation_reconciler.go:317-347 | when the search finds nothing to reuse, the name of the Incident to be created is unused, so the branch for an existing Incident is dead |
| IncidentProtocol.CasesAreMonotone | services/cluster-watcher/problemcase/lifecycle.go:49-58 | a resolved ProblemCase never reopens and an incident label never changes |
| IncidentProtocol.CorrelateConverges | services/cluster-watcher/controllers/correlation_reconciler.go:65-130 | each reconcile lowers the queue length plus the number of unlabelled active cases by exactly one, so a burst of changes ends |
| IncidentProtocol.DeletionUpsetsExactly | services/cluster-watcher/controllers/correlation_reconciler.go:373-388 | deleting a case of a quiet state leaves every case placed and every Incident true to its members exactly when the case was not active |
| IncidentProtocol.DeletionStrandsExactly | services/cluster-watcher/controllers/correlation_reconciler.go:404-415 | it leaves an auto Incident open without an active member, and nothing queued, exactly when it takes the last active one |
| IncidentProtocol.UserResolutionUpsetsExactly | services/backend-api/handler/incidents.go:203-231 | the Resolve endpoint keeps a quiet state in agreement exactly when the Incident is missing, already resolved or manual |
| IncidentProtocol.QuietRun | services/cluster-watcher/controllers/correlation_reconciler.go:65-130 | for every case and root, a detection and two reconciles lead from the start to a quiet state with that one active case in an open Incident |
| IncidentProtocol.SuppressKeepsSafe | services/cluster-watcher/controllers/exclusionrule_reconciler.go:175-199 | suppression by an exclusion rule keeps every safety property |
| Recurrence.ReusedExactly | services/cluster-watcher/controllers/correlation_reconciler.go:245-280 | an unresolved Incident of the root is reused if there is one; otherwise one is reused exactly when some auto Incident of the root was resolved no longer ago than the window, 24 hours unless configured, and then the one resolved last |
| Recurrence.RecurrenceIsRespected | services/cluster-watcher/controllers/correlation_reconciler.go:266-280 | in every run a reconcile leaves an Incident resolved longer ago than that as it was, and creates none while one of its root is unresolved or was resolved within it |
| Recurrence.RecurrencesAreSpaced | services/cluster-watcher/controllers/correlation_reconciler.go:266-280 | in every state of every run, of any two auto Incidents of a root one was resolved more than a window before the other was created |
| Recurrence.IncidentsRemember | services/cluster-watcher/controllers/correlation_reconciler.go:282-293 | in every run an auto Incident counts the steps that opened it, dates the last of them, and carries a resolution time exactly while it is resolved, that of the step that resolved it |
| Recurrence.CorrelationInFull | services/cluster-watcher/controllers/correlation_reconciler.go:94-126 | in every safe state, the reconcile of an active case without a label writes one label and one Incident: which one, and each of its fields, when it is new, reopened or was unresolved |
| Recurrence.ResolutionInFull | services/cluster-watcher/controllers/correlation_reconciler.go:73-86 | every other reconcile recounts at most the Incident of a resolved case, resolves it exactly when no member is active, and changes nothing else |
| Fates.CasesComeAndGoExactly | services/cluster-watcher/problemcase/lifecycle.go:22-46 | a case appears exactly by a detection that finds no unresolved one of its resource and detector, and disappears exactly by a deletion |
| Fates.CaseChangesExactly | services/cluster-watcher/controllers/problemcase_reconciler.go:45-91 | of any action: a stored case becomes resolved exactly by recovering while open or by the suppression of its Incident, gets a label exactly by its own reconcile, and is refreshed exactly by a detection of its resource and detector |
| Fates.IncidentChangesExactly | services/cluster-watcher/controllers/correlation_reconciler.go:361-424 | an Incident appears, is resolved, is reopened and gains a member each by exactly the actions named, and none is removed |
| Fates.CountChangesExactly | services/cluster-watcher/controllers/correlation_reconciler.go:372-388 | its count changes exactly by suppression, to zero, and by a reconcile of a case attached to it or labelled with it, to the number of its active members |
| Fates.QueueChangesExactly | services/cluster-watcher/controllers/correlation_reconciler.go:58-63 | a case is pending exactly when it was written, or was pending and not deleted and its reconcile did not finish it |
| Cluster.ActiveCountIsCardinality | services/cluster-watcher/controllers/correlation_reconciler.go:373-385 | the counting loop over a member list without repetitions gives the number of active members |
| Cluster.ActiveCountZero | services/cluster-watcher/controllers/correlation_reconciler.go:403-422 | the count is zero exactly when no member is active |
| Correlation.CorrelationReconciler.FindReusableIncident | services/cluster-watcher/controllers/correlation_reconciler.go:245-280 | whatever order the list call answers in: an unresolved Incident of the root wins, otherwise the most recently resolved one if it is within the window, otherwise none |
| Correlation.CorrelationReconciler.CreateIncident | services/cluster-watcher/controllers/correlation_reconciler.go:317-359 | creates the Incident named by root and window bucket, or hands back an existing one of that name |
| Correlation.CorrelationReconciler.ReopenIncident | services/cluster-watcher/controllers/correlation_reconciler.go:282-293 | opens the Incident, clears the resolution and counts at least the second occurrence |
| Correlation.CorrelationReconciler.AddProblemCaseToIncident | services/cluster-watcher/controllers/correlation_reconciler.go:361-389 | appends the case once and recounts the active members over the whole list |
| Correlation.CorrelationReconciler.MaybeResolveIncident | services/cluster-watcher/controllers/correlation_reconciler.go:392-424 | recounts an unresolved Incident with members and resolves it exactly when none is active; a missing case counts as resolved |
| Correlation.CorrelationReconciler.Reconcile | services/cluster-watcher/controllers/correlation_reconciler.go:65-130 | one whole reconcile is one step of the protocol: which branch is taken, which Incident is used, and the resulting store |
| Lifecycle.ControlPlane.FindOpen | services/cluster-watcher/problemcase/lookup.go:37-57 | finds an unresolved case of that label and detector exactly when there is one |
| Lifecycle.ControlPlane.CreateOrUpdate | services/cluster-watcher/problemcase/lifecycle.go:22-46 | refreshes an open case of the label and detector, or else creates one and leaves every other case alone |
| Lifecycle.ControlPlane.AutoResolve | services/cluster-watcher/controllers/problemcase_reconciler.go:45-91 | resolves the case when it is open and its resource is gone or shows no symptoms, and changes nothing otherwise |
| Lifecycle.ControlPlane.Suppress | services/cluster-watcher/controllers/exclusionrule_reconciler.go:175-199 | resolves the unresolved members and the Incident together, with a count of zero |
| Lifecycle.ControlPlane.Resolve | services/backend-api/handler/incidents.go:203-231 | resolves an unresolved Incident and touches neither its count nor its members |
| CorrelationSteps.CrashSafety | services/cluster-watcher/controllers/correlation_reconciler.go:83-125 | with every API call a step of its own, any interleaving with the other writers and a crash after any call: one unresolved auto Incident a root, a label implies membership, member lists never repeat, and what the controller knows stays true |
| CorrelationSteps.NextKeepsConsistent | services/cluster-watcher/controllers/correlation_reconciler.go:83-125 | each call, crash and foreign write keeps that |
| CorrelationSteps.CallsInFull | services/cluster-watcher/controllers/correlation_reconciler.go:83-125 | in every reachable state each call of the controller writes one label, creates one Incident without a status, or rewrites the fields named of one Incident, its count only when that differs from the one it had read |
| CorrelationSteps.CreateNeverCollides | services/cluster-watcher/controllers/correlation_reconciler.go:338-347 | the create call made after a search never meets an existing Incident |
| CorrelationSteps.LabelsAreWriteOnce | services/cluster-watcher/controllers/correlation_reconciler.go:119-126 | no step changes a written label or reopens a resolved case, and only a deletion removes one |
| CorrelationSteps.ControllerResolvesOnlyInactive | services/cluster-watcher/controllers/correlation_reconciler.go:403-423 | although it counts one call at a time, the controller resolves an Incident only when no member is active at that moment |
| CorrelationSteps.ClashArisesExactly | services/cluster-watcher/controllers/correlation_reconciler.go:361-371 | with every call a step, an active member of a resolved Incident appears exactly when the Incident is resolved over it from outside or its case is appended after such a resolution |
| CorrelationSteps.ClashRun | services/cluster-watcher/controllers/correlation_reconciler.go:95-116 | for every case and root, a run from the start that ends in one |
| CorrelationSteps.RevisitedExactly | services/cluster-watcher/controllers/correlation_reconciler.go:73-81 | in every reachable state, an Incident without active members is looked at again by some reconcile exactly when a listed case carries its label |
| CorrelationSteps.RevisitResolves | services/cluster-watcher/controllers/correlation_reconciler.go:392-424 | and that reconcile, uninterrupted, resolves it |
| CorrelationSteps.CrashStrandsIncident | services/cluster-watcher/controllers/correlation_reconciler.go:114-126 | after a crash before the label and the recovery of the case, the Incident stays open without active members, and unvisited exactly when no other listed case carries its label |
| CorrelationSteps.StrandedRun | services/cluster-watcher/controllers/correlation_reconciler.go:114-126 | for every case and root, a run from the start that ends in such an Incident |
| CorrelationSteps.UninterruptedWithoutSearch | services/cluster-watcher/controllers/correlation_reconciler.go:73-86 | the calls of a reconcile that needs no search, made back to back, are the one-step reconcile |
| CorrelationSteps.UninterruptedAfterSearch | services/cluster-watcher/controllers/correlation_reconciler.go:94-125 | and so are the calls after a search, on each of its three outcomes |
| CaseLabels.LabelsIdentifyResources | services/cluster-watcher/problemcase/lookup.go:23-33 | ordinary resources, one of them untruncated, share a label exactly when name and lower-cased kind agree and so do the namespaces, none counting as cluster |
| CaseLabels.LabelInFull | services/cluster-watcher/problemcase/lookup.go:23-33 | the label is kind, namespace and name with dots between, cut to 63 characters, with only capitals lowered |
| CaseLabels.ClusterNamespaceCollides | services/cluster-watcher/problemcase/lookup.go:24-27 | a cluster-wide resource always has the label of its namesake in a namespace called cluster |
| CaseLabels.LongNamesCollide | services/cluster-watcher/problemcase/lookup.go:29-31 | names that agree up to the truncation have one label, whatever follows |
| RootFinding.FindRootResource | services/cluster-watcher/controllers/correlation_reconciler.go:135-165 | ends on every acyclic ownership and returns the root that the ownership defines |
| RootFinding.FindServiceRoot | services/cluster-watcher/controllers/correlation_reconciler.go:169-234 | whatever order pods and workloads are listed in, returns the one candidate if there is exactly one and the Service otherwise |
| RootFinding.RootInFull | services/cluster-watcher/controllers/correlation_reconciler.go:135-165 | the root of a resource is that of the first owner that controls it, for the seven kinds that are read, and otherwise the resource |
| RootFinding.ServiceRootInFull | services/cluster-watcher/controllers/correlation_reconciler.go:169-234 | the root of a Service with a selector and no external name is the only workload behind it, root of a selected pod or Deployment, StatefulSet or DaemonSet of a selected template, if there is exactly one |
| RootFinding.RootIsFixed | services/cluster-watcher/controllers/correlation_reconciler.go:135-165 | without a Service on the way up, a root has no controller and is its own root |
| RootFinding.SharedOwnerSharesRoot | services/cluster-watcher/controllers/correlation_reconciler.go:154-163 | resources whose chains of controllers meet anywhere have one root |
| RootFinding.RankIsIrrelevant | services/cluster-watcher/controllers/correlation_reconciler.go:135-165 | the root does not depend on the measure that shows the search ends |
| RootFinding.OwnershipSuffices | services/cluster-watcher/controllers/correlation_reconciler.go:154-163 | acyclic ownership alone is enough when no Service controls anything |
| RootFinding.ServiceMovesExactly | services/cluster-watcher/controllers/correlation_reconciler.go:228-233 | a Service resolves away from itself exactly when it selects something and has one candidate, and then to that one |
| RootFinding.ServiceAgreesWithItsPods | services/cluster-watcher/controllers/correlation_reconciler.go:187-196 | when a Service moves, every pod behind it with a root besides itself has the same root |
| RootFinding.ServiceRootIsFixedExactly | services/cluster-watcher/controllers/correlation_reconciler.go:203-207 | a workload found by its pod template is not climbed: the root of a Service is a fixed point exactly when it has no controller |
| RootFinding.ServiceRootCanHaveAController | services/cluster-watcher/controllers/correlation_reconciler.go:203-207 | a cluster where the root of a Service is not a root |
| RootFinding.RootStaysInNamespace | services/cluster-watcher/controllers/correlation_reconciler.go:154-163 | a root is always in the namespace it was looked up from |
| RootFinding.KeysIdentifyResources | services/cluster-watcher/controllers/correlation_reconciler.go:236-238 | within a namespace resource keys are equal exactly for equal resources |
| Traversal.VisitsAreWitnessed | services/diagnostics-worker/graphengine/engine.go:449-477 | every id the loop visits has a path from the entry of its recorded length and inferred hops, within both budgets |
| Traversal.WalkIsComplete | services/diagnostics-worker/graphengine/engine.go:449-477 | unless the node cap is reached, the end of every path within the depth budget is visited at no greater depth, when the path is observed only or no step within the depth budget exceeds the hop budget |
| HopBudget.CompleteExactly | services/diagnostics-worker/graphengine/engine.go:449-477 | for every policy with budgets: the walk finds the end of every path within both budgets, in every graph where the cap is not reached, exactly when the hop budget is zero or at least the depth budget, or the cap leaves no room to use it up |
| HopBudget.CompletePolicies | services/diagnostics-worker/graphengine/engine.go:464-469 | under such a policy it does in every graph |
| HopBudget.LineIsMissed | services/diagnostics-worker/graphengine/engine.go:467-471 | under any other, the first visit over an inferred edge fixes the hop count and the last node of a line is missed |
| Bounds.KeptIdsRespectCap | services/diagnostics-worker/graphengine/engine.go:478-504 | everything kept fits max(1, MaxNodes) and includes all that was visited |
| Bounds.KeptIdsAreAnchored | services/diagnostics-worker/graphengine/engine.go:480-504 | everything kept hangs together with the entry or with a related node |
| Bounds.RelatedExactly | services/diagnostics-worker/graphengine/engine.go:478-487 | for any cap the pass over tagged resources adds exactly those up to some place of the listing, the end unless the cap was reached |
| Bounds.TaggedAreReturned | services/diagnostics-worker/graphengine/engine.go:478-487 | with room to spare every tagged resource is returned, connected or not |
| Bounds.KeptExactly | services/diagnostics-worker/graphengine/engine.go:449-504 | what is kept: the ends of trails of rising edges from the visited ids and those tagged resources |
| Bounds.SnapshotInFull | services/diagnostics-worker/graphengine/engine.go:505-523 | the snapshot is the kept nodes and the first edges between kept ids up to MaxEdges, both by ascending id, and truncated exactly when a node or an edge is missing |
| Bounds.SnapshotNodes | services/diagnostics-worker/graphengine/engine.go:505-510 | at most max(1, MaxNodes) listed nodes are returned, every visited one among them and so the entry, and each hangs together with the entry or a related node |
| Bounds.SnapshotEdges | services/diagnostics-worker/graphengine/engine.go:511-521 | at most MaxEdges listed edges are returned; where all built edges end in nodes, both ends of a returned edge are returned nodes |
| Bounds.SnapshotsAreClosedExactly | services/diagnostics-worker/graphengine/engine.go:511-521 | returned edges end in returned nodes for every entry and policy exactly when every built edge ends in nodes |
| Bounds.DanglingEdgeIsReturned | services/diagnostics-worker/graphengine/engine.go:98-100 | an edge to a missing node, such as a mounts edge to a claim that was not collected, is returned without it for some entry and policy |
| Bounds.TruncationIsExact | services/diagnostics-worker/graphengine/engine.go:522-523 | truncated is false exactly when both outputs are the full sorted lists |
| Bounds.ContextExactly | services/diagnostics-worker/graphengine/engine.go:488-504 | for any cap the context pass scans the edges up to one where the cap is reached, or all, and keeps exactly the ends of trails from what was visited or related whose edges come later and later in the listing |
| Bounds.ContextIsImmediateExactly | services/diagnostics-worker/graphengine/engine.go:488-504 | it stays within one edge of that exactly when no scanned edge leads from the end of such a trail before it to something further off |
| Bounds.ContextChainsPastBudget | services/diagnostics-worker/graphengine/engine.go:490-504 | it does not always: with a depth budget of zero it adds a neighbour and that one’s neighbour |
| Engine.Builder.Bound | services/diagnostics-worker/graphengine/engine.go:439-524 | the loops with their breaks return the snapshot that the sorted listings of the two maps define |
| Engine.Builder.Walk | services/diagnostics-worker/graphengine/engine.go:449-477 | ends, and visits exactly what the queue discipline defines |
| Engine.Builder.BuildAdjacency | services/diagnostics-worker/graphengine/engine.go:441-448 | each list holds the edges at its id, and sorting it again changes nothing |
| Engine.Builder.AllSorted | services/diagnostics-worker/graphengine/engine.go:152-164 | the unique listings of nodes and edges in id order, for any order of ranging over the maps |
| Engine.Builder.KeepRelated | services/diagnostics-worker/graphengine/engine.go:478-487 | keeps related nodes in listing order until the cap |
| Engine.Builder.KeepContext | services/diagnostics-worker/graphengine/engine.go:488-504 | keeps the far end of half-kept edges in listing order until the cap |
| Engine.Builder.CutEdges | services/diagnostics-worker/graphengine/engine.go:511-521 | keeps edges between kept ids in listing order until the cap |
| Engine.FilterCandidates | services/diagnostics-worker/graphengine/engine.go:117-128 | exactly the candidates whose source and target were returned, each once, in id order |
| Order.ListingIsUnique | services/diagnostics-worker/graphengine/engine.go:152-164 | a map has only one listing in key order, so no order of ranging can show |
| Order.UniqueSorted | services/diagnostics-worker/graphengine/engine.go:693-703 | the non-empty values in byte order, each once |
| Engine.Builder.ConnectServicesToPods | services/diagnostics-worker/graphengine/engine.go:216-240 | for any order of ranging over the nodes: the exact matches of every selecting Service, inferred edges only for one without any, and exactly those Services marked degraded |
| Engine.Builder.InferServiceWorkloads | services/diagnostics-worker/graphengine/engine.go:242-296 | writes edges to the best eligible workloads of one Service and nothing else |
| Engine.Builder.RankWorkloads | services/diagnostics-worker/graphengine/engine.go:251-281 | the eligible workloads, each once with its score, in whatever order the nodes are ranged over |
| Inference.TopAreChosen | services/diagnostics-worker/graphengine/engine.go:282-291 | cutting the ranked list keeps exactly the workloads with fewer than MaxCandidatesPerGap better ones, by score and then id |
| Inference.RankIsPosition | services/diagnostics-worker/graphengine/engine.go:282-287 | a workload’s place in the ranking is the number of better ones |
| Targets.TargetsInFull | services/diagnostics-worker/graphengine/engine.go:242-296 | an orphaned Service gets edges only to suitable workloads, as many as MaxCandidatesPerGap allows, and every suitable workload without one has fewer points or as many and a later id; any other Service gets none |
| Targets.SuitsExactly | services/diagnostics-worker/graphengine/engine.go:251-281 | a workload is suitable by kind, namespace, weighted percentage, a matched label and no different system; its points are the percentage, 100 for a former name and 80 for the same system |
| Targets.SystemsAgreeExactly | services/diagnostics-worker/graphengine/engine.go:658-666 | identities agree exactly when the same one of the three labels is the first set in both, with the same value |
| Targets.LeadsNowhereExactly | services/diagnostics-worker/graphengine/engine.go:216-240 | a Service is orphaned exactly when it selects and no Pod of its namespace carries its whole selector |
| Targets.ObservedExactly | services/diagnostics-worker/graphengine/engine.go:226-234 | an observed edge is written exactly for each Pod that does, with that id, state and sources |
| Targets.PassInFull | services/diagnostics-worker/graphengine/engine.go:216-240 | the whole pass degrades exactly the orphaned Services, writes exactly these edges and leaves every other entry of both maps |
| Order.BeforeExactly | services/diagnostics-worker/graphengine/engine.go:284-289 | byte order: a first string ends, or has the smaller character, where the two first differ |
| Inference.EdgeIdsIdentify | services/diagnostics-worker/graphengine/engine.go:673-676 | hashing the parts joined with a bar, the pass never writes two different edges under one id when node ids hold no bar |
| Inference.JoinedIdentifies | services/diagnostics-worker/graphengine/engine.go:673-676 | joining with a bar tells lists of bar-free parts apart |
| Inference.BarInIdCollides | services/diagnostics-worker/graphengine/engine.go:673-676 | with a bar in an id, different edges of one kind share an id |
| Inference.StateIsIrrelevant | services/diagnostics-worker/graphengine/engine.go:236-239 | marking Services while ranging does not change what the pass does for the others |
| Engine.OrderDoesNotMatter | services/diagnostics-worker/graphengine/engine.go:216-296 | for any two orders of ranging over the maps, the pass leaves the same edges and the cut returns the same snapshot |
| IngressBackends.IngressOrderIsHiddenExactly | services/diagnostics-worker/graphengine/engine.go:298-328 | the order of ranging over the Ingresses does not show in the candidates exactly when no two Ingresses propose one Service for one missing Service |
| IngressBackends.WritesPropose | services/diagnostics-worker/graphengine/engine.go:526-558 | an Ingress writes a candidate exactly when one of its paths breaks and the Service scores at least 40 for it, and names itself as its source |
| IngressBackends.WritesInFull | services/diagnostics-worker/graphengine/engine.go:526-558 | and with the points of the last such path: 100 for a former name, 40 for a selected Pod, 20 for the port, strong from 100 |
| IngressBackends.RankServiceCandidates | services/diagnostics-worker/graphengine/engine.go:526-558 | writes the candidates of one broken path, for any order of ranging over the nodes |
| IngressBackends.ConnectIngresses | services/diagnostics-worker/graphengine/engine.go:298-328 | the passes of the Ingresses overwrite the candidates in turn |
| WorkloadDependencies.WorkloadOrderIsHiddenExactly | services/diagnostics-worker/graphengine/engine.go:330-358 | the order of ranging over the workloads does not show in the nodes exactly when any two that miss one dependency have the same sources for it |
| WorkloadDependencies.ConnectWorkloads | services/diagnostics-worker/graphengine/engine.go:330-358 | the dependencies of the workloads overwrite the nodes in turn, present ones only where there was no node at the start |
| WorkloadDependencies.NodesInFull | services/diagnostics-worker/graphengine/engine.go:330-358 | a workload writes a present node for each existing dependency without one, and for each missing one a node with the sources of the last field that names it |
| LastWriter.OrderIsHiddenExactly | services/diagnostics-worker/graphengine/engine.go:298-358 | writers that overwrite one map leave the same map in every order exactly when no two give one key different values |
| Selectors.SelectorInferenceScore | services/diagnostics-worker/graphengine/engine.go:624-643 | for any order of ranging over the selector: the weighted percentage and the matched and conflicting labels |
| Selectors.ScoreIsPercentage | services/diagnostics-worker/graphengine/engine.go:624-643 | the score is between 0 and 100, and matched and conflicting keys are disjoint and together the shared keys |
| Selectors.ScoreIsWeighed | services/diagnostics-worker/graphengine/engine.go:624-656 | it is the share of the selector’s weight that matches, rounded down, where instance and name weigh four, app three, component two and any other key one |
| Selectors.ScoreIsMonotone | services/diagnostics-worker/graphengine/engine.go:624-643 | labels that match more of the selector never score less |
| Selectors.FullScoreIsExactMatch | services/diagnostics-worker/graphengine/engine.go:762-772 | a score of 100 is exactly a match of a non-empty selector whose keys are all present |
| Selectors.MatchLabels | services/diagnostics-worker/graphengine/engine.go:762-772 | true exactly when every selector key reads as its value, a missing label reading as empty |
| Discovery.Discoverer.SelectConnected | services/diagnostics-worker/controllers/diagnosticrun_reconciler.go:415-436 | the three nested passes select what three passes define |
| Discovery.Discoverer.VisitService | services/diagnostics-worker/controllers/diagnosticrun_reconciler.go:418-434 | one Service pulls in its targets if selected, and is pulled in by any selected target |
| Discovery.CompatibleExactly | services/diagnostics-worker/controllers/diagnosticrun_reconciler.go:417-434 | a workload is a target exactly when its template matches some of the selector and 60 percent of its weight |
| Discovery.PassesAreBetween | services/diagnostics-worker/controllers/diagnosticrun_reconciler.go:416-436 | after k passes the selection contains the k-hop ball around the seeds and lies inside every closed selection with the seeds |
| Discovery.FixedPointIsLeast | services/diagnostics-worker/controllers/diagnosticrun_reconciler.go:415-436 | a further pass adds nothing exactly when the selection is the least fixed point |
| Discovery.ThreePassesSufficeExactly | services/diagnostics-worker/controllers/diagnosticrun_reconciler.go:415-436 | three passes are the least fixed point in every order of listing the Services exactly when nothing is more than three hops from the seeds |
| Discovery.PassesSufficeExactly | services/diagnostics-worker/controllers/diagnosticrun_reconciler.go:415-436 | the same for any number of passes |
| Discovery.PassIsGrown | services/diagnostics-worker/controllers/diagnosticrun_reconciler.go:417-435 | a pass over Services listed with the unselected first adds the direct neighbours of the selection and no more |
| Discovery.WorstOrder | services/diagnostics-worker/controllers/diagnosticrun_reconciler.go:417-435 | some listing order makes k passes select only the k-hop ball |
| Discovery.BallIsEnough | services/diagnostics-worker/controllers/diagnosticrun_reconciler.go:415-436 | when nothing is more than k hops away, k passes select exactly the k-hop ball in every order |
| Discovery.ThreePassesCanStopShort | services/diagnostics-worker/controllers/diagnosticrun_reconciler.go:415-416 | three passes are not always a fixed point: a chain where the fourth pass still adds a Service |
| Catalog.FlatteningRoundTrip | services/diagnostics-worker/collector/catalog.go:113-140 | a source is emitted for a non-empty path and a value exactly when that path, evaluated by section 4 of RFC 6901, gives that leaf; no path is emitted twice |
| Catalog.FlatPathsDiffer | services/diagnostics-worker/collector/catalog.go:113-140 | all emitted paths are distinct, from any starting path |
| Catalog.Collector.FlattenFields | services/diagnostics-worker/collector/catalog.go:113-140 | appends exactly the sources of the tree, keys in byte order |
| JsonPointer.EscapeRoundTrip | services/diagnostics-worker/collector/catalog.go:148-150 | unescaping by section 4 of RFC 6901 undoes escaping for every string, and an escaped token is well formed |
| JsonPointer.UnescapeRoundTrip | services/diagnostics-worker/collector/catalog.go:148-150 | escaping undoes unescaping for every well-formed token |
| JsonPointer.WellFormedHasNoSlash | services/diagnostics-worker/collector/catalog.go:148-150 | a well-formed token has no raw slash |
| Decimal.ItoaRoundTrip | services/diagnostics-worker/collector/catalog.go:124-127 | every index is written as an array token that reads back as itself |
| Decimal.IndexRoundTrip | services/diagnostics-worker/collector/catalog.go:124-127 | and there is no other legal way to write it |
| Catalog.DedupeSources | services/diagnostics-worker/collector/catalog.go:152-163 | keeps the first source of each id, in order |
| Catalog.DedupedNamesEachOnce | services/diagnostics-worker/collector/catalog.go:152-163 | no id is lost or repeated, and a list is kept whole exactly when its ids differ |
| Catalog.IdsIdentify | services/diagnostics-worker/collector/catalog.go:142-146 | ids of different resources or kinds of evidence never meet, and an id without bars in its path determines everything it was made of |
| Catalog.DedupeKeepsLeavesExactly | services/diagnostics-worker/collector/catalog.go:142-146 | deduplication keeps every leaf of a flattened tree exactly when no leaf’s path runs on with a bar from where another’s stops into its value |
| Catalog.SameIdExactly | services/diagnostics-worker/collector/catalog.go:142-146 | two sources of a resource share an id exactly in that case |
| Catalog.BarFreeKeepsLeaves | services/diagnostics-worker/collector/catalog.go:142-146 | without a bar in any key every leaf is kept |
| Catalog.BarInKeyDropsLeaf | services/diagnostics-worker/collector/catalog.go:142-146 | a whole family of trees in which one leaf is dropped |
| Catalog.DedupeCanDropALeaf | services/diagnostics-worker/collector/catalog.go:152-163 | such a tree exists |
| Validation.CitationsAreSound | services/llm-gateway/app/routes.py:111-149 | every final citation of every claim, alternative and remediation step is a catalog id; a claim that cites something has its original verdict and one that cites nothing is unsupported |
| Validation.EveryCitationIsCounted | services/llm-gateway/app/routes.py:230-235 | the reported total is the accepted plus the invalid citations before recovery, and valid means an empty list of invalid ids |
| Validation.ValidationIsIdempotent | services/llm-gateway/app/routes.py:109-237 | validating a validated assessment against the same request changes nothing and reports no invalid citation |
| Validation.AnnotationsStayInTheGraph | services/llm-gateway/app/routes.py:151-184 | surviving insights annotate distinct nodes of the graph, exactly those that had any, rest on catalog ids and known claims, and are relevant only with one of them; with a graph, a surviving path uses only its ids |
| Vetting.PathSurvivesExactly | services/llm-gateway/app/routes.py:170-184 | with a graph a path survives, unchanged, exactly when it starts at the graph’s entry, ends at one of its nodes, has steps, and each step names a node and, if any, an edge and a candidate of the graph; without a graph always |
| Vetting.InsightsInFull | services/llm-gateway/app/routes.py:155-168 | the insights kept are the first for each node of the graph, in order, each with exactly its catalog ids and known claims in byte order and relevant no longer when it has none |
| Validation.InsightsAreAnchored | services/llm-gateway/app/routes.py:157-169 | the insight loop keeps the first insight of each graph node, cleaned |
| Validation.UncitedHasNoEvidence | services/llm-gateway/app/routes.py:208-229 | a claim left without citations is one for which no step of the surviving path has catalog evidence |
| Vetting.RecoveryInFull | services/llm-gateway/app/routes.py:192-229 | the last claim of an id that is left without citations gets exactly the catalog evidence of the first step of the surviving path that has any for it; every other claim keeps what was accepted |
| Vetting.OthersInFull | services/llm-gateway/app/routes.py:121-149 | alternatives and remediation steps keep what was accepted and all else as written, up to the verdict |
| Vetting.ReportInFull | services/llm-gateway/app/routes.py:230-237 | the report counts all citations and those that stand for nothing, lists the latter in byte order, and one of them caps the confidence at 0.69 |
| Assessment.AcceptedAreCited | services/llm-gateway/app/routes.py:124-133 | accepted citations are catalog ids, none is lost uncounted, and a list of catalog ids passes unchanged |
| Vetting.StandsForExactly | services/llm-gateway/app/routes.py:111-131 | a catalog id stands for itself, anything else for the only catalog id that is it or ends in a colon and it |
| Vetting.OneCitation | services/llm-gateway/app/routes.py:123-135 | a citation is kept under the id it stands for, or rejected as written |
| Vetting.CitationsInOrder | services/llm-gateway/app/routes.py:123-149 | and lists of citations are checked one by one, in order |
| Validator.OneSuffix | services/llm-gateway/app/routes.py:112-131 | a citation that is no catalog id resolves exactly when one catalog id ends in it, and to that id |
| Validator.TabulateSuffixes | services/llm-gateway/app/routes.py:112-114 | lists under each suffix the catalog ids that end in it, each once, for any order of the set |
| Validator.CheckCitations | services/llm-gateway/app/routes.py:123-133 | the accepted citations in order under their canonical ids, and the rejected ones |
| Validator.CheckClaims | services/llm-gateway/app/routes.py:121-137 | checks every claim, with the total and the invalid ids in order |
| Validator.CheckRemediation | services/llm-gateway/app/routes.py:138-149 | checks every remediation step, with the total and the invalid ids in order |
| Validator.RecoverFrom | services/llm-gateway/app/routes.py:209-229 | one path step gives an uncited claim the sorted catalog evidence of its node, edge and candidate and its original verdict back |
| Validator.Draft.CheckInsights | services/llm-gateway/app/routes.py:157-169 | replaces the insights by the kept ones |
| Validator.Draft.CheckPath | services/llm-gateway/app/routes.py:170-184 | drops a path exactly when there is a graph and some part of the path is not in it |
| Validator.Draft.RecoverClaims | services/llm-gateway/app/routes.py:192-229 | recovers along the surviving path in order of its steps |
| Validator.Draft.Validate | services/llm-gateway/app/routes.py:109-237 | the whole in-place validation gives the validated assessment and its report, with confidence capped at 0.69 exactly when a citation was invalid |
| SourceBudget.FmtSources | services/llm-gateway/app/prompt.py:30-67 | the loop renders the first-fit choice of blocks, joined by empty lines, and the number left out |
| SourceBudget.BudgetHolds | services/llm-gateway/app/prompt.py:60-65 | kept lengths sum to at most the budget, kept and omitted add up to all, and no omitted block would fit beside all that were kept |
| SourceBudget.EarliestFirst | services/llm-gateway/app/prompt.py:60-65 | no other choice that fits prefers an earlier block |
| SourceBudget.KeptExactly | services/llm-gateway/app/prompt.py:60-65 | a block is kept exactly when it and the text of all kept before it fit the budget |
| SourceBudget.SelectedInOrder | services/llm-gateway/app/prompt.py:64-67 | the kept blocks stand in the order of the catalog |
| SourceBudget.JoinInOrder | services/llm-gateway/app/prompt.py:67 | with an empty line between two and nothing else |
| SourceBudget.OmissionsAreSaid | services/llm-gateway/app/prompt.py:66 | and the number of the others, in decimal, exactly when there is any |
| SourceBudget.RenderedLength | services/llm-gateway/app/prompt.py:66-67 | the joined blocks have at most the budget and two characters a gap |
| DebounceTimeline.RunsExactlyWhenUntouched | services/cluster-watcher/debounce/debouncer.go:35-60 | with expiry and callback one step and nothing on the key at the very deadline: a call is executed exactly when no later call or cancellation of its key comes before its deadline |
| DebounceTimeline.QuietWindowExactly | services/cluster-watcher/debounce/debouncer.go:35-49 | in the times of the run: once it is past a call’s window, the call was executed exactly when nothing on its key came within it, ties at its end aside, and then at its end; a negative window ends at once |
| DebounceTimeline.TimersExactly | services/cluster-watcher/debounce/debouncer.go:35-60 | a timer runs exactly for each call that nothing on its key followed and that did not expire, set to the end of its window |
| DebounceTimeline.RanUntouched | services/cluster-watcher/debounce/debouncer.go:35-60 | an executed call ran at its deadline, with nothing on its key in between, ties included |
| DebounceTimeline.UntouchedRuns | services/cluster-watcher/debounce/debouncer.go:43-48 | a call that nothing touches by its deadline is executed |
| DebounceTimeline.MapHoldsPendingCalls | services/cluster-watcher/debounce/debouncer.go:35-60 | in every run the map holds exactly the pending calls, each under its key with its timer running to its deadline |
| DebounceTimeline.RunsAtMostOnce | services/cluster-watcher/debounce/debouncer.go:43-48 | no call is executed twice |
| DebounceTimeline.RanInOrder | services/cluster-watcher/debounce/debouncer.go:43-48 | calls are executed in the order in which their timers expire |
| DebounceRace.RunsStayConsistent | services/cluster-watcher/debounce/debouncer.go:35-60 | with expiry, delete and execution apart, in every interleaving no call is executed twice and a timer in the map is running or waits for the lock: never one whose delete already ran |
| DebounceRace.CancelMissesExactlyStrays | services/cluster-watcher/debounce/debouncer.go:52-60 | Cancel leaves running exactly the timers of its key that the map has lost |
| DebounceRace.StraysAriseExactly | services/cluster-watcher/debounce/debouncer.go:43-48 | the map first loses a running timer exactly when a callback deletes the entry of a later call |
| DebounceRace.CancelHoldsExactly | services/cluster-watcher/debounce/debouncer.go:51-60 | in every run and whatever follows, no call of the key made before a Cancel is executed after it exactly when none had expired on its way to execution and the map had lost none of its running timers |
| DebounceRace.CancelStopsExactly | services/cluster-watcher/debounce/debouncer.go:52-60 | the same for one Cancel: nothing of the key is left running or on its way |
| DebounceRace.CancelStopsAll | services/cluster-watcher/debounce/debouncer.go:51-60 | in a run where no call is made while an expired one of its key waits for the lock, Cancel stops every running call of its key, and keeps every earlier one from being executed exactly when none was on its way |
| DebounceRace.ExpiredIsNotCancelled | services/cluster-watcher/debounce/debouncer.go:43-60 | such a run in which Cancel does not keep its promise: a call that has expired is executed after it |
| DebounceRace.CallOverExpiredIsMissed | services/cluster-watcher/debounce/debouncer.go:43-60 | a call made over an expired one always outlives the Cancel that follows its callback |
| DebounceRace.CancelCanBeMissed | services/cluster-watcher/debounce/debouncer.go:51-60 | such a run exists from the start |
| Debounce.Debouncer.Debounce | services/cluster-watcher/debounce/debouncer.go:35-49 | replaces the timer of the key, stopping the old one if it still runs |
| Debounce.Debouncer.Cancel | services/cluster-watcher/debounce/debouncer.go:52-60 | stops the timer the map holds for the key and removes the entry |
| Debounce.Debouncer.Callback | services/cluster-watcher/debounce/debouncer.go:43-48 | deletes whatever entry its key has and lets go of the lock |
| Windows.WindowsAgreeExactly | services/cluster-watcher/exclusion/matcher.go:168-192 | on windows whose times both parsers read alike, the matcher is on exactly when the reconciler is, or in the early hours of a listed day in which a period that spans midnight ends |
| Windows.WindowAgreement | services/cluster-watcher/controllers/exclusionrule_reconciler.go:212-227 | on well-formed windows the reconciler’s reading implies the matcher’s, and they are the same when no period spans midnight |
| Windows.PeriodAgreesExactly | services/cluster-watcher/exclusion/matcher.go:181-191 | the same for one period, to the nanosecond |
| Windows.ImpliesExactly | services/cluster-watcher/controllers/exclusionrule_reconciler.go:212-227 | for times of any shape: on a listed day the reconciler’s reading implies the matcher’s at every instant exactly when the minutes it reads are none or among the matcher’s |
| Windows.ImpliedExactly | services/cluster-watcher/exclusion/matcher.go:168-192 | and the matcher’s implies the reconciler’s exactly when its minutes are none or among the reconciler’s |
| Windows.SameExactly | services/cluster-watcher/exclusion/matcher.go:168-192 | so the two are the same at every instant exactly when each covers the other |
| Windows.ReadingsAgree | services/cluster-watcher/exclusion/matcher.go:151-164 | both parsers read a well-formed time alike |
| Windows.TimesReadBack | services/cluster-watcher/exclusion/matcher.go:151-164 | every two-digit hour and minute reads back as itself, in both readings |
| Windows.DayMinutesInFull | services/cluster-watcher/controllers/exclusionrule_reconciler.go:238-244 | the reconciler reads any other shape as midnight, and what stands for a digit by its byte |
| Windows.ScanExactly | services/cluster-watcher/exclusion/matcher.go:157-161 | the matcher reads blanks, a sign, digits and whatever follows, unless the number leaves 64 bits |
| Windows.MinutesInFull | services/cluster-watcher/exclusion/matcher.go:151-164 | around the first colon, in 64-bit arithmetic |
| Windows.WindowsInFull | services/cluster-watcher/exclusion/matcher.go:166-192 | and when a window is on for each of the two, in minutes and in nanoseconds |
| Windows.NightPeriodDisagrees | services/cluster-watcher/controllers/exclusionrule_reconciler.go:219-225 | on a night period the two disagree in the early hours |
| Windows.MalformedStartDisagrees | services/cluster-watcher/controllers/exclusionrule_reconciler.go:238-244 | without two-digit hours the implication fails |
| Windows.InTimeWindow | services/cluster-watcher/exclusion/matcher.go:143-194 | an error for an unknown timezone, otherwise whether some period matches |
| Windows.IsWindowActive | services/cluster-watcher/controllers/exclusionrule_reconciler.go:204-229 | UTC for an unknown timezone; active exactly when some period is, with no delay then and five minutes otherwise |

## Left out

- Kubernetes client calls, streaming, HTTP, SQLite and the model providers: only their effect on the store is a step, and a failed call is a crash between steps.
- The UI, users, settings, detectors, generated code and the analysis states of a DiagnosticRun: single-branch logic around I/O.
- Hashes and generated ids: injective constructors or an injective function, the twelve hexadecimal digits of an Incident name included; generated case names are unused ones.
- Stale caches: reads are fresh and the correlation controller is single-threaded, its default; with a stale read the merge patch of a member list could drop a member.
- ProblemCase creation: one step; the late status write could otherwise reopen a case that was resolved in between.
- A recurrence window under one second: the code divides by zero there, so the window is a whole second or more, or zero for the default.
- Which Incidents an exclusion rule matches: any Incident may be suppressed at any time.
- RootFinding.FindRootResource: does not model failing reads, which end the search with an error; kinds are plain identifiers without a slash.
- IngressBackends.IngressOrderIsHiddenExactly and WorkloadDependencies.WorkloadOrderIsHiddenExactly: candidates and nodes only, not the edges, whose ids hold the Ingress or workload; candidate and node ids are their parts.
- The other passes of Build (pods of workloads, autoscalers, endpoint slices, storage classes).
- Engine.Builder.ConnectServicesToPods: does not model the attributes and reasons of an edge, only its ends, state, origin, score, strength and sources.
- Traversal.WalkIsComplete: under a hop budget that can bind, paths with inferred edges are not covered, because there it is false; HopBudget says exactly for which policies.
- Bounds.SnapshotEdges: needs built edges to end in nodes for its last part, as Bounds.SnapshotsAreClosedExactly shows it must.
- The fixed point that the comment at diagnosticrun_reconciler.go:415 promises: the code makes three passes, and the model follows the code; Service names are distinct, as they are within a namespace.
- Inference.EdgeIdsIdentify: node ids without a bar, as Kubernetes names of these kinds are.
- Discovery seeds other than as given sets, and the reading of cluster objects before them.
- BuildSourceCatalog and logSources: concatenations of evidence; a flattened leaf is known by its printed form, so the slice types that the collector treats alike are one array.
- Catalog.DedupeKeepsLeavesExactly: one flattened resource; Catalog.IdsIdentify compares ids across resources and kinds of evidence, for names without a bar.
- Python validation of the payload, its exceptions and string conversions of ids: the model starts from well-typed values, confidence a real number.
- SourceBudget.FmtSources: takes rendered blocks; how a source is rendered into a block is formatting.
- Strings: sequences of characters, one a byte where the code counts bytes; lower-casing and digits are those of ASCII.
- DebounceTimeline.RunsExactlyWhenUntouched and DebounceTimeline.QuietWindowExactly: timers expire exactly at their deadline and callbacks take no time; DebounceRace drops both.
- Windows.WindowsAgreeExactly: a day without a change of the timezone's offset, and periods whose times both parsers read alike; Windows.SameExactly covers one period of any other shape.
- CaseLabels.LabelsIdentifyResources: kinds and namespaces without dots, lower-case namespaces and names.
