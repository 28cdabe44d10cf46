/** Every controller that touches ProblemCases and Incidents, each action one step:
    what holds in every reachable state, and what holds once the queue is empty. */
module IncidentProtocol {
  import opened Cluster
  import opened Correlation
  import opened Lifecycle
  import opened Wrappers

  /** queue: cases whose reconcile is pending. used: every case name ever
      generated. byUser: incidents whose current resolution came from the user. */
  datatype World = World(
    store: Store,
    clock: nat,
    queue: set<CaseName>,
    used: set<CaseName>,
    byUser: set<IncidentName>)

  datatype Action =
    | Detect(affected: string, detector: string, symptoms: seq<string>, newName: CaseName)
    | Clear(c: CaseName)
    | Correlate(c: CaseName, root: ResourceRef, searched: nat)
    | Suppress(n: IncidentName)
    | UserResolve(n: IncidentName)
    | FileManual(id: string)
    | DeleteCase(c: CaseName)
    | Tick(now: nat)

  /** CreateOrUpdate: refresh an open case of the same labels, or create one under
      a generated name. */
  ghost predicate DetectNext(w: World, affected: string, detector: string, symptoms: seq<string>, newName: CaseName,
          w': World) {
    if exists c :: OpenCaseFor(w.store.cases, c, affected, detector) then
      exists c :: OpenCaseFor(w.store.cases, c, affected, detector)
                  && w' == WithCase(w, c, Refreshed(w.store.cases[c], symptoms, w.clock))
    else
      newName !in w.used && w' == WithCase(w, newName, Opened(affected, detector, symptoms, w.clock))
  }

  /** A written case is a change event, which queues its reconcile. */
  function WithCase(w: World, c: CaseName, pc: ProblemCase): World {
    w.(store := w.store.(cases := w.store.cases[c := pc]), queue := w.queue + {c}, used := w.used + {c})
  }

  function ClearNext(w: World, c: CaseName): World {
    var cases' := Cleared(w.store.cases, c);
    w.(store := w.store.(cases := cases'), queue := if cases' == w.store.cases then w.queue else w.queue + {c})
  }

  /** A correlation reconcile leaves the queue; the label it writes is a change
      that puts the case back. */
  ghost predicate CorrelateNext(w: World, c: CaseName, root: ResourceRef, searched: nat, window: nat, w': World)
    requires WindowOk(window)
  {
    && c in w.queue && searched <= w.clock
    && Reconciles(w.store, w'.store, c, root, searched, w.clock, window)
    && w'.clock == w.clock && w'.used == w.used
    && w'.queue == (if w'.store.cases == w.store.cases then w.queue - {c} else w.queue)
    && w'.byUser == set n | n in w.byUser && n in w'.store.incidents && w'.store.incidents[n].state.Resolved?
  }

  function SuppressNext(w: World, n: IncidentName): World {
    var s' := Suppressed(w.store, n, w.clock);
    w.(store := s', queue := w.queue + set c | c in w.store.cases && c in s'.cases && s'.cases[c] != w.store.cases[c])
  }

  function UserResolveNext(w: World, n: IncidentName): World {
    var s' := ResolvedByUser(w.store, n, w.clock);
    w.(store := s', byUser := if s' == w.store then w.byUser else w.byUser + {n})
  }

  ghost predicate Next(w: World, a: Action, window: nat, w': World)
    requires WindowOk(window)
  {
    match a
    case Detect(affected, detector, symptoms, newName) => DetectNext(w, affected, detector, symptoms, newName, w')
    case Clear(c) => w' == ClearNext(w, c)
    case Correlate(c, root, searched) => CorrelateNext(w, c, root, searched, window, w')
    case Suppress(n) => w' == SuppressNext(w, n)
    case UserResolve(n) => w' == UserResolveNext(w, n)
    case FileManual(id) =>
      && ManualName(id) !in w.store.incidents
      && var inc := Incident(true, None, w.clock, [], Open, None, 0, 0, 0);
         w' == w.(store := w.store.(incidents := w.store.incidents[ManualName(id) := inc]))
    case DeleteCase(c) => w' == w.(store := w.store.(cases := w.store.cases - {c}), queue := w.queue - {c})
    case Tick(now) => w.clock <= now && w' == w.(clock := now)
  }

  ghost predicate Init(w: World) {
    w.store == Store(map[], map[]) && w.queue == {} && w.used == {} && w.byUser == {}
  }

  /** A finite run from an initial state; acts[i] leads from trace[i] to trace[i + 1]. */
  ghost predicate IsRun(trace: seq<World>, acts: seq<Action>, window: nat)
    requires WindowOk(window)
  {
    && |trace| == |acts| + 1
    && Init(trace[0])
    && forall i :: 0 <= i < |acts| ==> Next(trace[i], acts[i], window, trace[i + 1])
  }

  // ---- Safety, over every run ------------------------------------------------

  ghost predicate OneOpenCasePerLabel(cases: map<CaseName, ProblemCase>) {
    forall c, d, affected, detector ::
      OpenCaseFor(cases, c, affected, detector) && OpenCaseFor(cases, d, affected, detector) ==> c == d
  }

  /** A stored case is listed in exactly the Incident its label names. */
  ghost predicate LabelsAreMembership(s: Store) {
    && (forall c :: c in s.cases && s.cases[c].incident.Some? ==>
          s.cases[c].incident.value in s.incidents && c in s.incidents[s.cases[c].incident.value].members)
    && (forall n, c :: n in s.incidents && c in s.incidents[n].members && c in s.cases ==>
          s.cases[c].incident == Some(n))
  }

  /** An Incident that the user did not resolve is resolved only without active members. */
  ghost predicate ResolvedMeansInactive(w: World) {
    forall n, c :: n in w.store.incidents && c in w.store.incidents[n].members ==>
      (w.store.incidents[n].state.Resolved? && n !in w.byUser ==> !IsActive(w.store.cases, c))
  }

  ghost predicate Recorded(w: World, window: nat)
    requires WindowOk(window)
  {
    && (forall n :: n in w.store.incidents ==>
          && Named(n, w.store.incidents[n], w.clock, window)
          && Distinct(w.store.incidents[n].members)
          && forall c :: c in w.store.incidents[n].members ==> c in w.used)
    && w.store.cases.Keys <= w.used
    && w.byUser <= w.store.incidents.Keys
  }

  ghost predicate Safe(w: World, window: nat)
    requires WindowOk(window)
  {
    && Recorded(w, window)
    && OneUnresolvedPerRoot(w.store.incidents)
    && OneOpenCasePerLabel(w.store.cases)
    && LabelsAreMembership(w.store)
    && ResolvedMeansInactive(w)
  }

  /** The search and the creation cannot disagree: an Incident that already had the
      new name would have been found reusable. */
  lemma NewNameIsFresh(w: World, root: ResourceRef, searched: nat, window: nat)
    requires WindowOk(window) && Safe(w, window)
    requires searched <= w.clock
    requires Reusable(w.store.incidents, root, searched, window, None, false)
    ensures AutoName(root, Bucket(w.clock, window)) !in w.store.incidents
  {
    var n := AutoName(root, Bucket(w.clock, window));
    if n in w.store.incidents {
      var inc := w.store.incidents[n];
      assert Named(n, inc, w.clock, window);
      assert AutoFor(w.store.incidents, n, root);
      assert !UnresolvedFor(w.store.incidents, n, root);
      SameBucketWithinWindow(inc.createdAt, searched, w.clock, inc.resolvedAt.value, window);
      assert Recent(inc, searched, window);
      assert false;
    }
  }

  lemma AttachKeepsSafe(w: World, c: CaseName, root: ResourceRef, searched: nat, window: nat,
                        found: Option<IncidentName>, reopen: bool, w': World)
    requires WindowOk(window) && Safe(w, window)
    requires CorrelateNext(w, c, root, searched, window, w')
    requires IsActive(w.store.cases, c) && w.store.cases[c].incident.None?
    requires Reusable(w.store.incidents, root, searched, window, found, reopen)
    requires w'.store == Attached(w.store, c, root, found, reopen, w.clock, window)
    ensures Safe(w', window)
  {
    if found.None? {
      NewNameIsFresh(w, root, searched, window);
    }
    var n := if found.Some? then found.value else AutoName(root, Bucket(w.clock, window));
    var base := if found.None? then Created(root, w.clock)
                else if reopen then Reopened(w.store.incidents[n], w.clock) else w.store.incidents[n];
    assert found.Some? ==> Named(n, base, w.clock, window) && !base.state.Resolved? by {
      if found.Some? {
        assert Named(n, w.store.incidents[n], w.clock, window);
      }
    }
    hide LabelsAreMembership, OneUnresolvedPerRoot, OneOpenCasePerLabel, Recorded, ResolvedMeansInactive;
    AttachedIsSafe(w, c, root, n, base, window, w');
  }

  /** The store after attaching case c to the unresolved Incident base of name n. */
  lemma AttachedIsSafe(w: World, c: CaseName, root: ResourceRef, n: IncidentName, base: Incident, window: nat,
          w': World)
    requires WindowOk(window) && Safe(w, window)
    requires IsActive(w.store.cases, c) && w.store.cases[c].incident.None?
    requires base.fingerprint == Some(root) && !base.manual && !base.state.Resolved? && Named(n, base, w.clock, window)
    requires base.members == if n in w.store.incidents then w.store.incidents[n].members else []
    requires forall m :: UnresolvedFor(w.store.incidents, m, root) ==> m == n
    requires w'.store == Store(Labelled(w.store.cases, c, n), w.store.incidents[n := WithMember(base, c, w.store.cases)])
    requires w'.clock == w.clock && w'.used == w.used
    requires w'.byUser == set m | m in w.byUser && m in w'.store.incidents && w'.store.incidents[m].state.Resolved?
    ensures Safe(w', window)
  {
    hide LabelsAreMembership, OneUnresolvedPerRoot, OneOpenCasePerLabel, Recorded, ResolvedMeansInactive;
    var s, s' := w.store, w'.store;
    UnlabelledIsUnlisted(s, c, n);
    assert s'.incidents[n] == base.(members := base.members + [c], active := ActiveCount(base.members + [c], s.cases));
    AttachedIsUnique(s, s', c, root, n);
    AttachedIsLabelled(s, s', c, n);
    AttachedIsRecorded(w, c, n, window, w');
    AttachedIsInactive(w, c, n, w');
  }

  lemma UnlabelledIsUnlisted(s: Store, c: CaseName, n: IncidentName)
    requires LabelsAreMembership(s) && c in s.cases && s.cases[c].incident.None?
    ensures n in s.incidents ==> c !in s.incidents[n].members
  {
  }

  lemma AttachedIsRecorded(w: World, c: CaseName, n: IncidentName, window: nat, w': World)
    requires WindowOk(window) && Recorded(w, window) && c in w.store.cases
    requires n in w'.store.incidents && Named(n, w'.store.incidents[n], w.clock, window)
    requires n in w.store.incidents ==> c !in w.store.incidents[n].members
    requires w'.store.incidents[n].members == (if n in w.store.incidents then w.store.incidents[n].members else []) + [c]
    requires w'.store == Store(Labelled(w.store.cases, c, n), w.store.incidents[n := w'.store.incidents[n]])
    requires w'.clock == w.clock && w'.used == w.used && w'.byUser <= w.byUser
    ensures Recorded(w', window)
  {
  }

  lemma AttachedIsInactive(w: World, c: CaseName, n: IncidentName, w': World)
    requires ResolvedMeansInactive(w) && c in w.store.cases
    requires n in w'.store.incidents && !w'.store.incidents[n].state.Resolved?
    requires w'.store == Store(Labelled(w.store.cases, c, n), w.store.incidents[n := w'.store.incidents[n]])
    requires w'.byUser == set m | m in w.byUser && m in w'.store.incidents && w'.store.incidents[m].state.Resolved?
    ensures ResolvedMeansInactive(w')
  {
    assert forall d :: IsActive(w'.store.cases, d) <==> IsActive(w.store.cases, d);
  }

  lemma AttachedIsUnique(s: Store, s': Store, c: CaseName, root: ResourceRef, n: IncidentName)
    requires OneUnresolvedPerRoot(s.incidents) && OneOpenCasePerLabel(s.cases) && c in s.cases
    requires forall m :: UnresolvedFor(s.incidents, m, root) ==> m == n
    requires n in s'.incidents && s'.incidents[n].fingerprint == Some(root)
    requires s'.incidents == s.incidents[n := s'.incidents[n]] && s'.cases == Labelled(s.cases, c, n)
    ensures OneUnresolvedPerRoot(s'.incidents) && OneOpenCasePerLabel(s'.cases)
  {
    assert forall m, r :: UnresolvedFor(s'.incidents, m, r) ==> (m == n && r == root) || UnresolvedFor(s.incidents, m, r);
    assert forall d, a, e :: OpenCaseFor(s'.cases, d, a, e) ==> OpenCaseFor(s.cases, d, a, e);
  }

  lemma AttachedIsLabelled(s: Store, s': Store, c: CaseName, n: IncidentName)
    requires LabelsAreMembership(s) && c in s.cases && s.cases[c].incident.None?
    requires n in s'.incidents
    requires s'.incidents[n].members == (if n in s.incidents then s.incidents[n].members else []) + [c]
    requires s'.incidents == s.incidents[n := s'.incidents[n]] && s'.cases == Labelled(s.cases, c, n)
    ensures LabelsAreMembership(s')
  {
  }

  lemma CorrelateKeepsSafe(w: World, c: CaseName, root: ResourceRef, searched: nat, window: nat, w': World)
    requires WindowOk(window) && Safe(w, window)
    requires CorrelateNext(w, c, root, searched, window, w')
    ensures Safe(w', window)
  {
    hide Recorded, LabelsAreMembership, OneUnresolvedPerRoot, OneOpenCasePerLabel, ResolvedMeansInactive;
    if IsActive(w.store.cases, c) && w.store.cases[c].incident.None? {
      var found, reopen :|
        && Reusable(w.store.incidents, root, searched, window, found, reopen)
        && w'.store == Attached(w.store, c, root, found, reopen, w.clock, window);
      AttachKeepsSafe(w, c, root, searched, window, found, reopen, w');
    } else {
      SameCasesKeepSafe(w, w', c, window);
    }
  }

  /** A reconcile that attaches nothing rewrites at most the Incident of the label. */
  lemma SameCasesKeepSafe(w: World, w': World, c: CaseName, window: nat)
    requires WindowOk(window) && Safe(w, window)
    requires w'.store.cases == w.store.cases && w'.clock == w.clock && w'.used == w.used
    requires w'.store.incidents == w.store.incidents
          || (c in w.store.cases && w.store.cases[c].incident.Some? && w.store.cases[c].incident.value in w.store.incidents
              && w'.store.incidents == w.store.incidents[w.store.cases[c].incident.value :=
                   MaybeResolved(w.store.incidents[w.store.cases[c].incident.value], w.store.cases, w.clock)])
    requires w'.byUser == set m | m in w.byUser && m in w'.store.incidents && w'.store.incidents[m].state.Resolved?
    ensures Safe(w', window)
  {
    if w'.store.incidents != w.store.incidents {
      var n := w.store.cases[c].incident.value;
      var inc := w.store.incidents[n];
      ActiveCountZero(inc.members, w.store.cases);
      assert UnixSeconds(inc.createdAt) <= UnixSeconds(w.clock);
      assert forall m, r :: UnresolvedFor(w'.store.incidents, m, r) ==> UnresolvedFor(w.store.incidents, m, r);
    }
  }

  /** Steps that leave the Incidents alone and activate nothing. */
  lemma FewerActiveCasesKeepSafe(w: World, w': World, window: nat)
    requires WindowOk(window) && Safe(w, window)
    requires w'.store.incidents == w.store.incidents && w'.clock == w.clock && w'.used == w.used && w'.byUser == w.byUser
    requires forall d :: d in w'.store.cases ==>
               (d in w.store.cases
                && w'.store.cases[d].(state := w.store.cases[d].state) == w.store.cases[d]
                && (IsActive(w'.store.cases, d) ==> IsActive(w.store.cases, d)))
    ensures Safe(w', window)
  {
    assert forall d, a, e :: OpenCaseFor(w'.store.cases, d, a, e) ==> OpenCaseFor(w.store.cases, d, a, e);
  }

  /** Steps that leave the cases alone and resolve or add nothing but these. */
  lemma FewerUnresolvedKeepSafe(w: World, w': World, window: nat)
    requires WindowOk(window) && Safe(w, window)
    requires w'.store.cases == w.store.cases && w.clock <= w'.clock && w'.used == w.used
    requires w.byUser <= w'.byUser <= w'.store.incidents.Keys
    requires forall n :: n in w.store.incidents ==>
               (n in w'.store.incidents
                && w'.store.incidents[n].members == w.store.incidents[n].members
                && (w'.store.incidents[n] == w.store.incidents[n] || n in w'.byUser))
    requires forall n :: n in w'.store.incidents && n !in w.store.incidents ==>
               w'.store.incidents[n].members == [] && w'.store.incidents[n].manual
    requires forall n :: n in w'.store.incidents ==> Named(n, w'.store.incidents[n], w'.clock, window)
    requires forall m, r :: UnresolvedFor(w'.store.incidents, m, r) ==> UnresolvedFor(w.store.incidents, m, r)
    ensures Safe(w', window)
  {
  }

  lemma SuppressKeepsSafe(w: World, n: IncidentName, window: nat)
    requires WindowOk(window) && Safe(w, window)
    ensures Safe(SuppressNext(w, n), window)
  {
    SuppressKeepsLabels(w.store, n, w.clock);
    SuppressKeepsUnique(w.store, n, w.clock);
    SuppressKeepsRecorded(w, n, window);
    SuppressKeepsInactive(w, n);
    hide LabelsAreMembership, OneUnresolvedPerRoot, OneOpenCasePerLabel, Recorded, ResolvedMeansInactive, Suppressed;
  }

  lemma SuppressKeepsUnique(s: Store, n: IncidentName, now: nat)
    requires OneUnresolvedPerRoot(s.incidents) && OneOpenCasePerLabel(s.cases)
    ensures OneUnresolvedPerRoot(Suppressed(s, n, now).incidents) && OneOpenCasePerLabel(Suppressed(s, n, now).cases)
  {
    var s' := Suppressed(s, n, now);
    assert forall m, r :: UnresolvedFor(s'.incidents, m, r) ==> UnresolvedFor(s.incidents, m, r);
    assert forall d, a, e :: OpenCaseFor(s'.cases, d, a, e) ==> OpenCaseFor(s.cases, d, a, e);
  }

  lemma SuppressKeepsRecorded(w: World, n: IncidentName, window: nat)
    requires WindowOk(window) && Recorded(w, window)
    ensures Recorded(SuppressNext(w, n), window)
  {
  }

  lemma SuppressKeepsInactive(w: World, n: IncidentName)
    requires ResolvedMeansInactive(w)
    ensures ResolvedMeansInactive(SuppressNext(w, n))
  {
    var w' := SuppressNext(w, n);
    assert forall d :: IsActive(w'.store.cases, d) ==> IsActive(w.store.cases, d);
  }

  lemma SuppressKeepsLabels(s: Store, n: IncidentName, now: nat)
    requires LabelsAreMembership(s)
    ensures LabelsAreMembership(Suppressed(s, n, now))
  {
  }

  lemma DetectKeepsSafe(w: World, affected: string, detector: string, symptoms: seq<string>, newName: CaseName,
          window: nat, w': World)
    requires WindowOk(window) && Safe(w, window)
    requires DetectNext(w, affected, detector, symptoms, newName, w')
    ensures Safe(w', window)
  {
    forall d, a, e | OpenCaseFor(w'.store.cases, d, a, e)
      ensures OpenCaseFor(w.store.cases, d, a, e) || (d == newName && newName !in w.used && a == affected && e == detector)
    {
    }
    forall d | IsActive(w'.store.cases, d)
      ensures IsActive(w.store.cases, d) || (d == newName && newName !in w.used)
    {
    }
  }

  lemma NextKeepsSafe(w: World, a: Action, window: nat, w': World)
    requires WindowOk(window) && Safe(w, window)
    requires Next(w, a, window, w')
    ensures Safe(w', window)
  {
    hide LabelsAreMembership, OneUnresolvedPerRoot, OneOpenCasePerLabel, ResolvedMeansInactive;
    match a
    case Detect(affected, detector, symptoms, newName) =>
      DetectKeepsSafe(w, affected, detector, symptoms, newName, window, w');
    case Correlate(c, root, searched) => CorrelateKeepsSafe(w, c, root, searched, window, w');
    case Suppress(n) => SuppressKeepsSafe(w, n, window);
    case Clear(c) => FewerActiveCasesKeepSafe(w, w', window);
    case DeleteCase(c) => FewerActiveCasesKeepSafe(w, w', window);
    case UserResolve(n) => FewerUnresolvedKeepSafe(w, w', window);
    case FileManual(id) => FewerUnresolvedKeepSafe(w, w', window);
    case Tick(now) => FewerUnresolvedKeepSafe(w, w', window);
  }

  /** Every state of every run is safe. */
  lemma {:induction false} RunsAreSafe(trace: seq<World>, acts: seq<Action>, window: nat)
    requires WindowOk(window) && IsRun(trace, acts, window)
    ensures forall i :: 0 <= i < |trace| ==> Safe(trace[i], window)
  {
    InitIsSafe(trace[0], window);
    hide Safe, Next;
    if acts != [] {
      var k := |acts| - 1;
      assert IsRun(trace[..k + 1], acts[..k], window);
      RunsAreSafe(trace[..k + 1], acts[..k], window);
      assert trace[..k + 1][k] == trace[k];
      NextKeepsSafe(trace[k], acts[k], window, trace[k + 1]);
      forall i | 0 <= i < |trace|
        ensures Safe(trace[i], window)
      {
        if i <= k {
          assert trace[..k + 1][i] == trace[i];
        }
      }
    }
  }

  lemma InitIsSafe(w: World, window: nat)
    requires WindowOk(window) && Init(w)
    ensures Safe(w, window)
  {
  }

  /** Resolved is terminal for a ProblemCase, and its incident label is written once. */
  lemma CasesAreMonotone(w: World, a: Action, window: nat, w': World, c: CaseName)
    requires WindowOk(window) && Safe(w, window) && Next(w, a, window, w')
    requires c in w.store.cases && c in w'.store.cases
    ensures w.store.cases[c].state.CaseResolved? ==> w'.store.cases[c].state.CaseResolved?
    ensures w.store.cases[c].incident.Some? ==> w'.store.cases[c].incident == w.store.cases[c].incident
  {
  }

  // ---- Quiescence: no deletions and no user resolution ----------------------

  predicate Undisturbed(a: Action) {
    !a.DeleteCase? && !a.UserResolve?
  }

  ghost predicate NoResolvedMemberQueued(w: World, inc: Incident) {
    forall c :: c in inc.members && c in w.queue ==> IsActive(w.store.cases, c)
  }

  /** An Incident agrees with its members unless a resolved member waits in the queue. */
  ghost predicate UpToDate(w: World, inc: Incident) {
    && inc.active == ActiveCount(inc.members, w.store.cases)
    && (!inc.manual && !inc.state.Resolved? ==> inc.active > 0)
  }

  ghost predicate Queued(w: World) {
    && w.byUser == {}
    && (forall c :: IsActive(w.store.cases, c) && w.store.cases[c].incident.None? ==> c in w.queue)
    && (forall n, c :: n in w.store.incidents && c in w.store.incidents[n].members ==> c in w.store.cases)
    && (forall n :: n in w.store.incidents && w.store.incidents[n].manual ==> w.store.incidents[n].members == [])
    && (forall n :: n in w.store.incidents && w.store.incidents[n].state.Resolved? ==> w.store.incidents[n].active == 0)
  }

  ghost predicate AllUpToDate(w: World, except: set<IncidentName>) {
    forall n :: n in w.store.incidents && n !in except && NoResolvedMemberQueued(w, w.store.incidents[n]) ==>
      UpToDate(w, w.store.incidents[n])
  }

  ghost predicate Tracked(w: World) {
    Queued(w) && AllUpToDate(w, {})
  }

  /** An untouched Incident stays up to date when every case that stopped being
      active is queued and only active cases left the queue. */
  lemma UntouchedStaysUpToDate(w: World, w': World, inc: Incident)
    requires NoResolvedMemberQueued(w, inc) ==> UpToDate(w, inc)
    requires forall c :: c in inc.members && c in w.queue && c !in w'.queue ==> IsActive(w.store.cases, c)
    requires forall c :: c in inc.members && (IsActive(w.store.cases, c) <==> !IsActive(w'.store.cases, c)) ==>
               c in w'.queue && !IsActive(w'.store.cases, c)
    ensures NoResolvedMemberQueued(w', inc) ==> UpToDate(w', inc)
  {
    if NoResolvedMemberQueued(w', inc) {
      ActiveCountFrame(inc.members, w.store.cases, w'.store.cases);
    }
  }

  lemma AllUntouchedStayUpToDate(w: World, w': World, touched: set<IncidentName>)
    requires Tracked(w)
    requires forall n :: n in w'.store.incidents && n !in touched ==>
               n in w.store.incidents && w'.store.incidents[n] == w.store.incidents[n]
    requires forall n, c :: n in w'.store.incidents && n !in touched && c in w'.store.incidents[n].members ==>
               (c in w.queue && c !in w'.queue ==> IsActive(w.store.cases, c))
    requires forall c :: c in w.store.cases && (IsActive(w.store.cases, c) <==> !IsActive(w'.store.cases, c)) ==>
               c in w'.queue && !IsActive(w'.store.cases, c)
    ensures AllUpToDate(w', touched)
  {
    forall n | n in w'.store.incidents && n !in touched && NoResolvedMemberQueued(w', w'.store.incidents[n])
      ensures UpToDate(w', w'.store.incidents[n])
    {
      UntouchedStaysUpToDate(w, w', w.store.incidents[n]);
    }
  }

  lemma AttachKeepsTracked(w: World, c: CaseName, root: ResourceRef, searched: nat, window: nat,
                           found: Option<IncidentName>, reopen: bool, w': World)
    requires WindowOk(window) && Safe(w, window) && Tracked(w)
    requires CorrelateNext(w, c, root, searched, window, w')
    requires IsActive(w.store.cases, c) && w.store.cases[c].incident.None?
    requires Reusable(w.store.incidents, root, searched, window, found, reopen)
    requires w'.store == Attached(w.store, c, root, found, reopen, w.clock, window)
    ensures Tracked(w')
  {
    if found.None? {
      NewNameIsFresh(w, root, searched, window);
    }
    var n := if found.Some? then found.value else AutoName(root, Bucket(w.clock, window));
    var base := if found.None? then Created(root, w.clock)
                else if reopen then Reopened(w.store.incidents[n], w.clock) else w.store.incidents[n];
    assert c !in base.members;
    AttachedIsTracked(w, c, n, base, w');
  }

  lemma AttachedIsTracked(w: World, c: CaseName, n: IncidentName, base: Incident, w': World)
    requires Tracked(w) && IsActive(w.store.cases, c)
    requires !base.manual && !base.state.Resolved? && c !in base.members
    requires base.members == if n in w.store.incidents then w.store.incidents[n].members else []
    requires w'.store == Store(Labelled(w.store.cases, c, n), w.store.incidents[n := WithMember(base, c, w.store.cases)])
    requires w'.byUser == {} && w'.queue == w.queue
    ensures Tracked(w')
  {
    MemberRecounted(base, c, w.store.cases, n);
    AllUntouchedStayUpToDate(w, w', {n});
  }

  /** The recount includes the case that was just added, whose label does not change the count. */
  lemma MemberRecounted(base: Incident, c: CaseName, cases: map<CaseName, ProblemCase>, n: IncidentName)
    requires c !in base.members && IsActive(cases, c)
    ensures var inc := WithMember(base, c, cases);
      inc.active > 0 && inc.active == ActiveCount(inc.members, Labelled(cases, c, n))
  {
    var inc := WithMember(base, c, cases);
    assert c in inc.members;
    ActiveCountFrame(inc.members, cases, Labelled(cases, c, n));
    ActiveCountZero(inc.members, cases);
  }

  lemma ResolveKeepsTracked(w: World, c: CaseName, n: IncidentName, w': World)
    requires Tracked(w) && LabelsAreMembership(w.store) && ResolvedMeansInactive(w)
    requires c in w.store.cases && w.store.cases[c].incident == Some(n)
    requires w'.store == w.store.(incidents := w.store.incidents[n := MaybeResolved(w.store.incidents[n], w.store.cases, w'.clock)])
    requires w'.queue == w.queue - {c} && w'.byUser == {}
    ensures Tracked(w')
  {
    hide Queued, UpToDate, NoResolvedMemberQueued;
    ListedOnlyUnderItsLabel(w.store, c, n);
    hide LabelsAreMembership;
    EvaluatedIsUpToDate(w, n, w');
    AllUntouchedStayUpToDate(w, w', {n});
  }

  lemma EvaluatedIsUpToDate(w: World, n: IncidentName, w': World)
    requires n in w.store.incidents && ResolvedMeansInactive(w) && Queued(w)
    requires w'.queue <= w.queue && w'.byUser == {}
    requires forall d :: d in w.queue && d !in w'.queue ==> d in w.store.cases ==> w.store.cases[d].incident.Some?
    requires w'.store == w.store.(incidents := w.store.incidents[n := MaybeResolved(w.store.incidents[n], w.store.cases, w'.clock)])
    ensures Queued(w')
    ensures w.store.incidents[n].members != [] ==> UpToDate(w', w'.store.incidents[n])
  {
    ActiveCountZero(w.store.incidents[n].members, w.store.cases);
  }

  lemma ListedOnlyUnderItsLabel(s: Store, c: CaseName, n: IncidentName)
    requires LabelsAreMembership(s) && c in s.cases && s.cases[c].incident == Some(n)
    ensures n in s.incidents && c in s.incidents[n].members
    ensures forall m :: m in s.incidents && c in s.incidents[m].members ==> m == n
  {
  }

  lemma CorrelateKeepsTracked(w: World, c: CaseName, root: ResourceRef, searched: nat, window: nat, w': World)
    requires WindowOk(window) && Safe(w, window) && Tracked(w)
    requires CorrelateNext(w, c, root, searched, window, w')
    ensures Tracked(w')
  {
    assert w'.byUser == {};
    if IsActive(w.store.cases, c) && w.store.cases[c].incident.None? {
      var found, reopen :|
        && Reusable(w.store.incidents, root, searched, window, found, reopen)
        && w'.store == Attached(w.store, c, root, found, reopen, w.clock, window);
      AttachKeepsTracked(w, c, root, searched, window, found, reopen, w');
    } else if c in w.store.cases && w.store.cases[c].state.CaseResolved? && w.store.cases[c].incident.Some? {
      ResolveKeepsTracked(w, c, w.store.cases[c].incident.value, w');
    } else {
      UnqueueKeepsTracked(w, c, w');
    }
  }

  lemma UnqueueKeepsTracked(w: World, c: CaseName, w': World)
    requires Tracked(w) && LabelsAreMembership(w.store)
    requires w'.store == w.store && w'.queue == w.queue - {c} && w'.byUser == {}
    requires c in w.store.cases ==> (w.store.cases[c].incident.Some? <==> IsActive(w.store.cases, c))
    ensures Tracked(w')
  {
    forall n | n in w.store.incidents && c in w.store.incidents[n].members
      ensures IsActive(w.store.cases, c)
    {
      assert w.store.cases[c].incident == Some(n);
    }
    AllUntouchedStayUpToDate(w, w', {});
  }

  lemma SuppressKeepsTracked(w: World, n: IncidentName)
    requires Tracked(w)
    ensures Tracked(SuppressNext(w, n))
  {
    var w' := SuppressNext(w, n);
    if w' != w {
      ActiveCountZero(w'.store.incidents[n].members, w'.store.cases);
      AllUntouchedStayUpToDate(w, w', {n});
    }
  }

  lemma DetectKeepsTracked(w: World, affected: string, detector: string, symptoms: seq<string>, newName: CaseName,
          w': World, window: nat)
    requires WindowOk(window) && Recorded(w, window) && Tracked(w)
    requires DetectNext(w, affected, detector, symptoms, newName, w')
    ensures Tracked(w')
  {
    AllUntouchedStayUpToDate(w, w', {});
  }

  lemma ClearKeepsTracked(w: World, c: CaseName)
    requires Tracked(w)
    ensures Tracked(ClearNext(w, c))
  {
    AllUntouchedStayUpToDate(w, ClearNext(w, c), {});
  }

  lemma NextKeepsTracked(w: World, a: Action, window: nat, w': World)
    requires WindowOk(window) && Safe(w, window) && Tracked(w) && Undisturbed(a)
    requires Next(w, a, window, w')
    ensures Tracked(w')
  {
    match a
    case Correlate(c, root, searched) => CorrelateKeepsTracked(w, c, root, searched, window, w');
    case Suppress(n) => SuppressKeepsTracked(w, n);
    case Detect(affected, detector, symptoms, newName) => DetectKeepsTracked(w, affected, detector, symptoms, newName, w', window);
    case Clear(c) => ClearKeepsTracked(w, c);
    case FileManual(id) => AllUntouchedStayUpToDate(w, w', {ManualName(id)});
    case Tick(now) => AllUntouchedStayUpToDate(w, w', {});
  }

  lemma {:induction false} RunsAreTracked(trace: seq<World>, acts: seq<Action>, window: nat)
    requires WindowOk(window) && IsRun(trace, acts, window)
    requires forall a :: a in acts ==> Undisturbed(a)
    ensures Tracked(trace[|trace| - 1])
  {
    RunsAreSafe(trace, acts, window);
    if acts != [] {
      var k := |acts| - 1;
      assert IsRun(trace[..k + 1], acts[..k], window);
      RunsAreTracked(trace[..k + 1], acts[..k], window);
      NextKeepsTracked(trace[k], acts[k], window, trace[k + 1]);
    }
  }

  /** The case is labelled with, and listed in, one Incident, which is not resolved. */
  ghost predicate Placed(s: Store, c: CaseName)
    requires c in s.cases
  {
    && s.cases[c].incident.Some?
    && s.cases[c].incident.value in s.incidents
    && !s.incidents[s.cases[c].incident.value].state.Resolved?
    && forall m :: m in s.incidents ==> (c in s.incidents[m].members <==> m == s.cases[c].incident.value)
  }

  /** An Incident counts its active members, and with any member at all it is
      resolved exactly when none is active. */
  ghost predicate Reflects(inc: Incident, cases: map<CaseName, ProblemCase>) {
    && inc.active == |ActiveMembers(inc.members, cases)|
    && (inc.members != [] ==>
          (inc.state.Resolved? <==> forall c :: c in inc.members ==> !IsActive(cases, c)))
  }

  /** Every active case is placed and every Incident reflects its members. */
  ghost predicate Agrees(s: Store) {
    (forall c :: IsActive(s.cases, c) ==> Placed(s, c)) && forall n :: n in s.incidents ==> Reflects(s.incidents[n], s.cases)
  }

  /** A state that runs without deletions and user resolutions end in when the queue is empty. */
  ghost predicate Quiet(w: World, window: nat)
    requires WindowOk(window)
  {
    Safe(w, window) && Tracked(w) && w.queue == {}
  }

  lemma QuietIncidentReflects(w: World, n: IncidentName, window: nat)
    requires WindowOk(window) && Safe(w, window) && Tracked(w) && w.queue == {}
    requires n in w.store.incidents
    ensures Reflects(w.store.incidents[n], w.store.cases)
  {
    var inc := w.store.incidents[n];
    assert NoResolvedMemberQueued(w, inc);
    ActiveCountIsCardinality(inc.members, w.store.cases);
    ActiveCountZero(inc.members, w.store.cases);
  }

  /** Whenever the queue is empty, the Incidents agree with the cases. */
  lemma Quiescence(trace: seq<World>, acts: seq<Action>, window: nat)
    requires WindowOk(window) && IsRun(trace, acts, window)
    requires forall a :: a in acts ==> Undisturbed(a)
    requires trace[|trace| - 1].queue == {}
    ensures Quiet(trace[|trace| - 1], window) && Agrees(trace[|trace| - 1].store)
  {
    RunsAreSafe(trace, acts, window);
    RunsAreTracked(trace, acts, window);
    QuietAgrees(trace[|trace| - 1], window);
  }

  lemma QuietAgrees(w: World, window: nat)
    requires WindowOk(window) && Quiet(w, window)
    ensures Agrees(w.store)
  {
    forall n | n in w.store.incidents
      ensures Reflects(w.store.incidents[n], w.store.cases)
    {
      QuietIncidentReflects(w, n, window);
    }
    forall c | IsActive(w.store.cases, c)
      ensures Placed(w.store, c)
    {
      LabelledIsPlaced(w, c);
    }
  }

  lemma LabelledIsPlaced(w: World, c: CaseName)
    requires LabelsAreMembership(w.store) && ResolvedMeansInactive(w) && w.byUser == {}
    requires IsActive(w.store.cases, c) && w.store.cases[c].incident.Some?
    ensures Placed(w.store, c)
  {
    var n := w.store.cases[c].incident.value;
    assert c in w.store.incidents[n].members;
  }

  // ---- Quiescence needs both exclusions ------------------------------------------

  lemma DeletingLeavesOthers(members: seq<CaseName>, cases: map<CaseName, ProblemCase>, c: CaseName)
    ensures ActiveMembers(members, cases - {c}) == ActiveMembers(members, cases) - {c}
  {
    assert forall d :: IsActive(cases - {c}, d) <==> IsActive(cases, d) && d != c;
  }

  lemma ActiveDeletionUpsets(s: Store, c: CaseName)
    requires Agrees(s) && IsActive(s.cases, c)
    ensures !Agrees(s.(cases := s.cases - {c}))
  {
    var n := s.cases[c].incident.value;
    assert Placed(s, c) && Reflects(s.incidents[n], s.cases);
    var members := s.incidents[n].members;
    DeletingLeavesOthers(members, s.cases, c);
    assert c in ActiveMembers(members, s.cases);
    assert !Reflects(s.incidents[n], s.cases - {c});
  }

  lemma InactiveDeletionAgrees(s: Store, c: CaseName)
    requires Agrees(s) && !IsActive(s.cases, c)
    ensures Agrees(s.(cases := s.cases - {c}))
  {
    var s' := s.(cases := s.cases - {c});
    assert forall d :: IsActive(s'.cases, d) <==> IsActive(s.cases, d);
    forall d | IsActive(s'.cases, d)
      ensures Placed(s', d)
    {
      assert Placed(s, d);
    }
    forall n | n in s'.incidents
      ensures Reflects(s'.incidents[n], s'.cases)
    {
      DeletingLeavesOthers(s.incidents[n].members, s.cases, c);
      assert c !in ActiveMembers(s.incidents[n].members, s.cases);
      assert ActiveMembers(s.incidents[n].members, s'.cases) == ActiveMembers(s.incidents[n].members, s.cases);
      assert Reflects(s.incidents[n], s.cases);
    }
  }

  lemma DeletionIs(w: World, c: CaseName, window: nat, w': World)
    requires WindowOk(window) && Quiet(w, window) && Next(w, DeleteCase(c), window, w')
    ensures w'.queue == {} && w'.store == w.store.(cases := w.store.cases - {c})
  {
    hide Safe, Tracked;
  }

  /** Deleting a case of a quiet state upsets it exactly when the case is active: then an
      Incident counts a member it no longer has. */
  lemma DeletionUpsetsExactly(w: World, c: CaseName, window: nat, w': World)
    requires WindowOk(window) && Quiet(w, window) && Next(w, DeleteCase(c), window, w')
    ensures w'.queue == {}
    ensures Agrees(w'.store) <==> !IsActive(w.store.cases, c)
  {
    DeletionIs(w, c, window, w');
    QuietAgrees(w, window);
    hide *;
    if IsActive(w.store.cases, c) {
      ActiveDeletionUpsets(w.store, c);
    } else {
      InactiveDeletionAgrees(w.store, c);
    }
  }

  lemma QuietIncidentHasActive(w: World, n: IncidentName, window: nat)
    requires WindowOk(window) && Quiet(w, window) && n in w.store.incidents && !w.store.incidents[n].manual
    ensures w.store.incidents[n].state.Resolved? <==> ActiveMembers(w.store.incidents[n].members, w.store.cases) == {}
  {
    assert NoResolvedMemberQueued(w, w.store.incidents[n]) && UpToDate(w, w.store.incidents[n]);
    ActiveCountIsCardinality(w.store.incidents[n].members, w.store.cases);
  }

  /** A deletion leaves an auto Incident open without an active member, and with nothing queued
      that could resolve it, exactly when it takes the last active one. */
  lemma DeletionStrandsExactly(w: World, n: IncidentName, c: CaseName, window: nat, w': World)
    requires WindowOk(window) && Quiet(w, window) && Next(w, DeleteCase(c), window, w')
    requires n in w.store.incidents && !w.store.incidents[n].manual
    ensures w'.queue == {} && n in w'.store.incidents
    ensures !w'.store.incidents[n].state.Resolved? && ActiveMembers(w'.store.incidents[n].members, w'.store.cases) == {}
       <==> ActiveMembers(w.store.incidents[n].members, w.store.cases) == {c}
  {
    QuietIncidentHasActive(w, n, window);
    hide Quiet;
    assert w'.store == w.store.(cases := w.store.cases - {c});
    DeletingLeavesOthers(w.store.incidents[n].members, w.store.cases, c);
    hide ActiveMembers;
  }

  /** Resolving an Incident of a quiet state by hand upsets it unless the Incident is missing,
      already resolved or manual. */
  lemma UserResolutionUpsetsExactly(w: World, n: IncidentName, window: nat, w': World)
    requires WindowOk(window) && Quiet(w, window) && Next(w, UserResolve(n), window, w')
    ensures w'.queue == {}
    ensures Agrees(w'.store)
       <==> n !in w.store.incidents || w.store.incidents[n].state.Resolved? || w.store.incidents[n].manual
  {
    QuietAgrees(w, window);
    if n in w.store.incidents && !w.store.incidents[n].state.Resolved? {
      var inc := w.store.incidents[n];
      assert UpToDate(w, inc);
      ActiveCountZero(inc.members, w.store.cases);
      if !inc.manual {
        var c :| c in inc.members && IsActive(w.store.cases, c);
        assert !Placed(w'.store, c);
      } else {
        ManualResolutionAgrees(w, n, w');
      }
    }
  }

  lemma ManualResolutionAgrees(w: World, n: IncidentName, w': World)
    requires Queued(w) && Agrees(w.store) && w' == UserResolveNext(w, n)
    requires n in w.store.incidents && w.store.incidents[n].manual
    ensures Agrees(w'.store)
  {
    assert w.store.incidents[n].members == [];
    forall c | IsActive(w.store.cases, c)
      ensures Placed(w'.store, c)
    {
      assert Placed(w.store, c);
    }
    forall m | m in w'.store.incidents
      ensures Reflects(w'.store.incidents[m], w'.store.cases)
    {
      assert Reflects(w.store.incidents[m], w.store.cases);
    }
  }

  lemma ExtendRun(trace: seq<World>, acts: seq<Action>, a: Action, w: World, window: nat)
    requires WindowOk(window) && IsRun(trace, acts, window) && Next(trace[|trace| - 1], a, window, w)
    ensures IsRun(trace + [w], acts + [a], window)
  {
    hide Next;
    var trace', acts' := trace + [w], acts + [a];
    forall i | 0 <= i < |acts'|
      ensures Next(trace'[i], acts'[i], window, trace'[i + 1])
    {
      if i < |acts| {
        assert trace'[i] == trace[i] && trace'[i + 1] == trace[i + 1] && acts'[i] == acts[i];
      }
    }
  }

  /** A detection and the two reconciles it causes lead from the start to a quiet state with
      one active case in one open Incident, whatever the names and the root. */
  lemma QuietRun(root: ResourceRef, affected: string, detector: string, c: CaseName, window: nat)
    returns (trace: seq<World>, acts: seq<Action>, n: IncidentName)
    requires WindowOk(window)
    ensures IsRun(trace, acts, window) && (forall a :: a in acts ==> Undisturbed(a))
    ensures var w := trace[|trace| - 1];
            && Quiet(w, window) && IsActive(w.store.cases, c)
            && n in w.store.incidents && !w.store.incidents[n].manual && !w.store.incidents[n].state.Resolved?
            && ActiveMembers(w.store.incidents[n].members, w.store.cases) == {c}
  {
    n := AutoName(root, Bucket(0, window));
    var w0 := World(Store(map[], map[]), 0, {}, {}, {});
    var w1 := WithCase(w0, c, Opened(affected, detector, [], 0));
    var w2 := w1.(store := Attached(w1.store, c, root, None, false, 0, window));
    var w3 := w2.(queue := w2.queue - {c});
    FirstAttached(w1, c, root, window);
    FirstDetect(w0, affected, detector, c, window, w1);
    FirstCorrelate(w1, c, root, window, w2);
    SecondCorrelate(w2, c, root, window, w3);
    trace, acts := [w0], [];
    assert IsRun(trace, acts, window) && w3.queue == {};
    hide Next, Attached, IsRun;
    ExtendRun(trace, acts, Detect(affected, detector, [], c), w1, window);
    trace, acts := trace + [w1], acts + [Detect(affected, detector, [], c)];
    ExtendRun(trace, acts, Correlate(c, root, 0), w2, window);
    trace, acts := trace + [w2], acts + [Correlate(c, root, 0)];
    ExtendRun(trace, acts, Correlate(c, root, 0), w3, window);
    trace, acts := trace + [w3], acts + [Correlate(c, root, 0)];
    assert forall a :: a in acts ==> a == acts[0] || a == acts[1];
    Quiescence(trace, acts, window);
    hide *;
  }

  lemma FirstAttached(w: World, c: CaseName, root: ResourceRef, window: nat)
    requires WindowOk(window) && w.store.incidents == map[] && IsActive(w.store.cases, c) && w.clock == 0
    ensures var s := Attached(w.store, c, root, None, false, 0, window);
            var n := AutoName(root, Bucket(0, window));
            && IsActive(s.cases, c) && s.cases[c].incident == Some(n) && n in s.incidents
            && !s.incidents[n].manual && !s.incidents[n].state.Resolved?
            && ActiveMembers(s.incidents[n].members, s.cases) == {c}
  {
    var s := Attached(w.store, c, root, None, false, 0, window);
    assert s.incidents[AutoName(root, Bucket(0, window))].members == [c];
  }

  lemma FirstDetect(w: World, affected: string, detector: string, c: CaseName, window: nat, w': World)
    requires WindowOk(window) && Init(w) && w' == WithCase(w, c, Opened(affected, detector, [], w.clock))
    ensures Next(w, Detect(affected, detector, [], c), window, w')
  {
  }

  lemma FirstCorrelate(w: World, c: CaseName, root: ResourceRef, window: nat, w': World)
    requires WindowOk(window) && w.store.incidents == map[] && c in w.queue && w.byUser == {}
    requires IsActive(w.store.cases, c) && w.store.cases[c].incident.None?
    requires w' == w.(store := Attached(w.store, c, root, None, false, w.clock, window))
    ensures Next(w, Correlate(c, root, w.clock), window, w')
  {
    assert Reusable(w.store.incidents, root, w.clock, window, None, false);
    assert w'.store.cases[c] != w.store.cases[c];
  }

  lemma SecondCorrelate(w: World, c: CaseName, root: ResourceRef, window: nat, w': World)
    requires WindowOk(window) && c in w.queue && w.byUser == {}
    requires IsActive(w.store.cases, c) && w.store.cases[c].incident.Some?
    requires w' == w.(queue := w.queue - {c})
    ensures Next(w, Correlate(c, root, w.clock), window, w')
  {
  }

  function Unlabelled(w: World): set<CaseName> {
    set c | c in w.store.cases && IsActive(w.store.cases, c) && w.store.cases[c].incident.None?
  }

  /** Each reconcile brings the queue one closer to empty: it either takes its case
      off for good or spends the one label the case will ever get. */
  lemma CorrelateConverges(w: World, c: CaseName, root: ResourceRef, searched: nat, window: nat, w': World)
    requires WindowOk(window) && Safe(w, window)
    requires CorrelateNext(w, c, root, searched, window, w')
    ensures |w'.queue| + |Unlabelled(w')| == |w.queue| + |Unlabelled(w)| - 1
  {
    CorrelateOutcome(w, c, root, searched, window, w');
    hide CorrelateNext, Safe;
    if IsActive(w.store.cases, c) && w.store.cases[c].incident.None? {
      assert Unlabelled(w') == Unlabelled(w) - {c};
    } else {
      assert Unlabelled(w') == Unlabelled(w);
    }
  }

  lemma CorrelateOutcome(w: World, c: CaseName, root: ResourceRef, searched: nat, window: nat, w': World)
    requires WindowOk(window) && Safe(w, window)
    requires CorrelateNext(w, c, root, searched, window, w')
    ensures c in w.queue
    ensures if IsActive(w.store.cases, c) && w.store.cases[c].incident.None?
            then w'.queue == w.queue && exists n :: w'.store.cases == Labelled(w.store.cases, c, n)
            else w'.queue == w.queue - {c} && w'.store.cases == w.store.cases
  {
    hide Safe, Reusable;
  }
}
