/** When a root counts as recurring, and what an Incident remembers of its past: one correlation step
    and whole runs, in the clock's own nanoseconds and seconds. */
module Recurrence {
  import opened Cluster
  import opened Correlation
  import opened Lifecycle
  import opened IncidentProtocol
  import opened Wrappers

  ghost predicate IsOf(incidents: map<IncidentName, Incident>, n: IncidentName, root: ResourceRef) {
    n in incidents && !incidents[n].manual && incidents[n].fingerprint == Some(root)
  }

  /** Resolved no longer ago than the window, which is a day unless configured. */
  predicate Within(inc: Incident, at: nat, window: nat) {
    && inc.resolvedAt.Some?
    && at - inc.resolvedAt.value * 1_000_000_000 <= if window == 0 then 86_400_000_000_000 else window
  }

  /** The search reuses an unresolved Incident of the root if there is one; otherwise it reuses one
      exactly when one was resolved within the window, and then the one resolved last. */
  lemma ReusedExactly(incidents: map<IncidentName, Incident>, root: ResourceRef, at: nat, window: nat,
          found: Option<IncidentName>, reopen: bool)
    requires Reusable(incidents, root, at, window, found, reopen)
    ensures found.Some? ==> IsOf(incidents, found.value, root)
    ensures (exists n :: IsOf(incidents, n, root) && !incidents[n].state.Resolved?)
       <==> found.Some? && !incidents[found.value].state.Resolved?
    ensures reopen <==> found.Some? && incidents[found.value].state.Resolved?
    ensures (forall n :: IsOf(incidents, n, root) ==> incidents[n].state.Resolved?) ==>
              (found.Some? <==> exists n :: IsOf(incidents, n, root) && Within(incidents[n], at, window))
    ensures reopen ==> Within(incidents[found.value], at, window)
    ensures reopen ==> forall n :: IsOf(incidents, n, root) && incidents[n].resolvedAt.Some? ==>
              incidents[n].resolvedAt.value <= incidents[found.value].resolvedAt.value
  {
    assert forall n :: IsOf(incidents, n, root) <==> AutoFor(incidents, n, root);
    assert forall n :: IsOf(incidents, n, root) && !incidents[n].state.Resolved? <==> UnresolvedFor(incidents, n, root);
    assert forall n :: n in incidents ==> (Within(incidents[n], at, window) <==> Recent(incidents[n], at, window));
  }

  // ---- One correlation step, in full ------------------------------------------------

  /** Stored and not resolved, among those listed. */
  function StillActive(members: seq<CaseName>, cases: map<CaseName, ProblemCase>): set<CaseName> {
    set m | m in members && m in cases && cases[m].state != CaseResolved
  }

  /** The Incident of an active case without a label: a new one, a reopened one, or an unresolved one. */
  ghost predicate Correlated(w: World, root: ResourceRef, searched: nat, window: nat, n: IncidentName, inc: Incident)
    requires WindowOk(window)
  {
    if n !in w.store.incidents then
      && (forall m :: IsOf(w.store.incidents, m, root) ==>
            w.store.incidents[m].state.Resolved? && !Within(w.store.incidents[m], searched, window))
      && n == AutoName(root, w.clock / 1_000_000_000 / (if window == 0 then 86_400 else window / 1_000_000_000))
      && inc == Incident(false, Some(root), w.clock, inc.members, Open, None, inc.active, 1, w.clock / 1_000_000_000)
    else
      var was := w.store.incidents[n];
      && IsOf(w.store.incidents, n, root)
      && if was.state.Resolved? then
           && Within(was, searched, window)
           && (forall m :: IsOf(w.store.incidents, m, root) ==>
                 && w.store.incidents[m].state.Resolved? && w.store.incidents[m].resolvedAt.Some?
                 && w.store.incidents[m].resolvedAt.value <= was.resolvedAt.value)
           && inc == was.(members := inc.members, active := inc.active, state := Open, resolvedAt := None,
                          occurrences := if was.occurrences < 1 then 2 else was.occurrences + 1,
                          lastOccurrence := w.clock / 1_000_000_000)
         else inc == was.(members := inc.members, active := inc.active)
  }

  /** The case goes to one Incident, listed last there and counted; nothing else changes. */
  lemma CorrelationInFull(w: World, c: CaseName, root: ResourceRef, searched: nat, window: nat, w': World)
    returns (n: IncidentName)
    requires WindowOk(window) && Safe(w, window) && Next(w, Correlate(c, root, searched), window, w')
    requires c in w.store.cases && w.store.cases[c].state != CaseResolved && w.store.cases[c].incident == None
    ensures w'.store.cases == w.store.cases[c := w.store.cases[c].(incident := Some(n))]
    ensures n in w'.store.incidents && w'.store.incidents == w.store.incidents[n := w'.store.incidents[n]]
    ensures var inc := w'.store.incidents[n];
      && inc.members == (if n in w.store.incidents then w.store.incidents[n].members else []) + [c]
      && inc.active == |StillActive(inc.members, w.store.cases)|
      && Correlated(w, root, searched, window, n, inc)
  {
    var found, reopen :|
      && Reusable(w.store.incidents, root, searched, window, found, reopen)
      && w'.store == Attached(w.store, c, root, found, reopen, w.clock, window);
    ReusedExactly(w.store.incidents, root, searched, window, found, reopen);
    if found.None? {
      NewNameIsFresh(w, root, searched, window);
    }
    n := if found.Some? then found.value else AutoName(root, Bucket(w.clock, window));
    UnlabelledIsUnlisted(w.store, c, n);
    assert n in w.store.incidents ==> Distinct(w.store.incidents[n].members);
    AllResolvedAreTimed(w, window);
    hide Safe, Reusable, Next;
    AttachedInFull(w, c, root, searched, window, found, reopen, n, w');
  }

  lemma AttachedInFull(w: World, c: CaseName, root: ResourceRef, searched: nat, window: nat,
          found: Option<IncidentName>, reopen: bool, n: IncidentName, w': World)
    requires WindowOk(window) && c in w.store.cases
    requires Reusable(w.store.incidents, root, searched, window, found, reopen)
    requires found.Some? ==> found.value in w.store.incidents
    requires w'.store == Attached(w.store, c, root, found, reopen, w.clock, window)
    requires n == if found.Some? then found.value else AutoName(root, Bucket(w.clock, window))
    requires n in w.store.incidents ==> found.Some? && c !in w.store.incidents[n].members && Distinct(w.store.incidents[n].members)
    requires forall m :: m in w.store.incidents && w.store.incidents[m].state.Resolved? ==> w.store.incidents[m].resolvedAt.Some?
    ensures w'.store.cases == w.store.cases[c := w.store.cases[c].(incident := Some(n))]
    ensures n in w'.store.incidents && w'.store.incidents == w.store.incidents[n := w'.store.incidents[n]]
    ensures var inc := w'.store.incidents[n];
      && inc.members == (if n in w.store.incidents then w.store.incidents[n].members else []) + [c]
      && inc.active == |StillActive(inc.members, w.store.cases)|
      && Correlated(w, root, searched, window, n, inc)
  {
    ReusedExactly(w.store.incidents, root, searched, window, found, reopen);
    AttachedShape(w.store, c, root, found, reopen, w.clock, window, n);
    hide Reusable, Attached, WithMember, Within, IsOf, StillActive, Bucket;
    BucketIs(w.clock, window);
  }

  lemma BucketIs(t: nat, window: nat)
    requires WindowOk(window)
    ensures Bucket(t, window) == t / 1_000_000_000 / (if window == 0 then 86_400 else window / 1_000_000_000)
  {
  }

  /** The store after attaching: the case goes to the end of the members of what was found, reopened or
      created. */
  lemma AttachedShape(s: Store, c: CaseName, root: ResourceRef, found: Option<IncidentName>, reopen: bool, now: nat,
          window: nat, n: IncidentName)
    requires WindowOk(window) && c in s.cases && (found.Some? ==> found.value in s.incidents)
    requires n == if found.Some? then found.value else AutoName(root, Bucket(now, window))
    requires n in s.incidents ==> c !in s.incidents[n].members && Distinct(s.incidents[n].members)
    ensures var s' := Attached(s, c, root, found, reopen, now, window);
      var base := if n !in s.incidents then Created(root, now) else if reopen then Reopened(s.incidents[n], now) else s.incidents[n];
      var members := base.members + [c];
      && s'.cases == s.cases[c := s.cases[c].(incident := Some(n))]
      && s'.incidents == s.incidents[n := base.(members := members, active := |StillActive(members, s.cases)|)]
  {
    hide Bucket, ActiveCount, StillActive, Reopened, Created;
    MembersStay(root, now, if n in s.incidents then s.incidents[n] else Created(root, now));
    var base := if n !in s.incidents then Created(root, now) else if reopen then Reopened(s.incidents[n], now) else s.incidents[n];
    CountWithNew(base.members, c, s.cases);
    assert found.Some? ==> n in s.incidents;
  }

  lemma MembersStay(root: ResourceRef, now: nat, inc: Incident)
    ensures Created(root, now).members == [] && Reopened(inc, now).members == inc.members
  {
  }

  lemma CountWithNew(members: seq<CaseName>, c: CaseName, cases: map<CaseName, ProblemCase>)
    requires Distinct(members) && c !in members
    ensures ActiveCount(members + [c], cases) == |StillActive(members + [c], cases)|
  {
    ActiveCountIsCardinality(members + [c], cases);
    assert ActiveMembers(members + [c], cases) == StillActive(members + [c], cases);
  }

  lemma AllResolvedAreTimed(w: World, window: nat)
    requires WindowOk(window) && Safe(w, window)
    ensures forall m :: m in w.store.incidents && w.store.incidents[m].state.Resolved? ==> w.store.incidents[m].resolvedAt.Some?
  {
    forall m | m in w.store.incidents
      ensures w.store.incidents[m].state.Resolved? ==> w.store.incidents[m].resolvedAt.Some?
    {
      assert Named(m, w.store.incidents[m], w.clock, window);
    }
  }

  /** Any other reconcile: at most the Incident that a resolved case is labelled with is recounted, and
      resolved when none of its members is active. */
  lemma ResolutionInFull(w: World, c: CaseName, root: ResourceRef, searched: nat, window: nat, w': World)
    requires WindowOk(window) && Safe(w, window) && Next(w, Correlate(c, root, searched), window, w')
    requires c in w.store.cases ==> w.store.cases[c].state == CaseResolved || w.store.cases[c].incident != None
    ensures w'.store.cases == w.store.cases
    ensures var n := if c in w.store.cases && w.store.cases[c].state == CaseResolved then w.store.cases[c].incident else None;
      if n.Some? && n.value in w.store.incidents && !w.store.incidents[n.value].state.Resolved? then
        var inc := w.store.incidents[n.value];
        var left := StillActive(inc.members, w.store.cases);
        w'.store.incidents == w.store.incidents[n.value :=
          if left == {} then inc.(active := 0, state := Resolved, resolvedAt := Some(w.clock / 1_000_000_000))
          else inc.(active := |left|)]
      else w'.store.incidents == w.store.incidents
  {
    if c in w.store.cases && w.store.cases[c].incident.Some? {
      var n := w.store.cases[c].incident.value;
      assert LabelsAreMembership(w.store) && Distinct(w.store.incidents[n].members);
      ActiveCountIsCardinality(w.store.incidents[n].members, w.store.cases);
      assert ActiveMembers(w.store.incidents[n].members, w.store.cases) == StillActive(w.store.incidents[n].members, w.store.cases);
    }
  }

  /** In every run a reconcile leaves an Incident that was resolved longer than the window ago as it
      was, and creates none while one of its root is unresolved or was resolved within it. */
  lemma RecurrenceIsRespected(trace: seq<World>, acts: seq<Action>, window: nat, i: nat)
    requires WindowOk(window) && IsRun(trace, acts, window) && i < |acts| && acts[i].Correlate?
    ensures var w, w', at, root := trace[i].store.incidents, trace[i + 1].store.incidents, acts[i].searched, acts[i].root;
      && (forall n :: n in w && w[n].state.Resolved? && !Within(w[n], at, window) ==> n in w' && w'[n] == w[n])
      && ((exists n :: IsOf(w, n, root) && (!w[n].state.Resolved? || Within(w[n], at, window))) ==> w'.Keys == w.Keys)
  {
    RunsAreSafe(trace, acts, window);
    var w, w', c := trace[i], trace[i + 1], acts[i].c;
    assert Next(w, acts[i], window, w');
    if c in w.store.cases && w.store.cases[c].state != CaseResolved && w.store.cases[c].incident == None {
      var n := CorrelationInFull(w, c, acts[i].root, acts[i].searched, window, w');
      hide Safe, Next, IsRun;
    } else {
      ResolutionInFull(w, c, acts[i].root, acts[i].searched, window, w');
      hide Safe, Next, IsRun;
    }
  }

  // ---- Whole runs -------------------------------------------------------------------

  /** The first was resolved, and more than a window later the second was created. */
  predicate LongBefore(a: Incident, b: Incident, window: nat) {
    && a.state.Resolved? && a.resolvedAt.Some?
    && b.createdAt - a.resolvedAt.value * 1_000_000_000 > if window == 0 then 86_400_000_000_000 else window
  }

  /** Incidents of one root follow each other. */
  ghost predicate Spaced(incidents: map<IncidentName, Incident>, window: nat) {
    forall n, m, root :: IsOf(incidents, n, root) && IsOf(incidents, m, root) && n != m ==>
      LongBefore(incidents[n], incidents[m], window) || LongBefore(incidents[m], incidents[n], window)
  }

  /** Resolving more Incidents and filing manual ones moves none of them. */
  lemma ResolvingKeepsSpaced(a: map<IncidentName, Incident>, b: map<IncidentName, Incident>, window: nat)
    requires Spaced(a, window)
    requires forall n :: n in b && !b[n].manual ==>
               && n in a && !a[n].manual && b[n].fingerprint == a[n].fingerprint && b[n].createdAt == a[n].createdAt
               && (a[n].state.Resolved? ==> b[n].state.Resolved? && b[n].resolvedAt == a[n].resolvedAt)
    ensures Spaced(b, window)
  {
    forall n, m, root | IsOf(b, n, root) && IsOf(b, m, root) && n != m
      ensures LongBefore(b[n], b[m], window) || LongBefore(b[m], b[n], window)
    {
      assert IsOf(a, n, root) && IsOf(a, m, root);
    }
  }

  /** The Incident resolved last was created last, so it precedes no other. */
  lemma LastResolvedIsLast(w: World, window: nat, n: IncidentName, m: IncidentName)
    requires WindowOk(window) && Recorded(w, window) && n in w.store.incidents && m in w.store.incidents
    requires w.store.incidents[m].state.Resolved? && w.store.incidents[m].resolvedAt.Some?
    requires w.store.incidents[n].resolvedAt.Some?
    requires w.store.incidents[m].resolvedAt.value <= w.store.incidents[n].resolvedAt.value
    ensures !LongBefore(w.store.incidents[n], w.store.incidents[m], window)
  {
    assert Named(m, w.store.incidents[m], w.clock, window);
    assert w.store.incidents[m].createdAt / 1_000_000_000 <= w.store.incidents[m].resolvedAt.value;
  }

  lemma AttachingKeepsSpaced(w: World, root: ResourceRef, searched: nat, window: nat, n: IncidentName, w': World)
    requires WindowOk(window) && Recorded(w, window) && Spaced(w.store.incidents, window) && searched <= w.clock
    requires n in w'.store.incidents && w'.store.incidents == w.store.incidents[n := w'.store.incidents[n]]
    requires Correlated(w, root, searched, window, n, w'.store.incidents[n])
    requires forall m :: m in w.store.incidents && w.store.incidents[m].state.Resolved? ==> w.store.incidents[m].resolvedAt.Some?
    ensures Spaced(w'.store.incidents, window)
  {
    var a, b := w.store.incidents, w'.store.incidents;
    forall m | IsOf(b, m, root) && m != n
      ensures LongBefore(b[m], b[n], window) || LongBefore(b[n], b[m], window)
    {
      assert IsOf(a, m, root);
      if n in a {
        assert IsOf(a, n, root);
        if a[n].state.Resolved? {
          LastResolvedIsLast(w, window, n, m);
        }
      }
    }
    hide Recorded, Correlated, LongBefore;
    forall x, y, r | IsOf(b, x, r) && IsOf(b, y, r) && x != y
      ensures LongBefore(b[x], b[y], window) || LongBefore(b[y], b[x], window)
    {
      if x != n && y != n {
        assert IsOf(a, x, r) && IsOf(a, y, r);
      }
    }
  }

  lemma CorrelationKeepsSpaced(w: World, c: CaseName, root: ResourceRef, searched: nat, window: nat, w': World)
    requires WindowOk(window) && Safe(w, window) && Next(w, Correlate(c, root, searched), window, w')
    requires Spaced(w.store.incidents, window)
    ensures Spaced(w'.store.incidents, window)
  {
    AllResolvedAreTimed(w, window);
    assert Recorded(w, window) && searched <= w.clock;
    if c in w.store.cases && w.store.cases[c].state != CaseResolved && w.store.cases[c].incident == None {
      var n := CorrelationInFull(w, c, root, searched, window, w');
      hide *;
      AttachingKeepsSpaced(w, root, searched, window, n, w');
    } else {
      ResolutionInFull(w, c, root, searched, window, w');
      hide *;
      ResolvingKeepsSpaced(w.store.incidents, w'.store.incidents, window);
    }
  }

  lemma NextKeepsSpaced(w: World, a: Action, window: nat, w': World)
    requires WindowOk(window) && Safe(w, window) && Next(w, a, window, w') && Spaced(w.store.incidents, window)
    ensures Spaced(w'.store.incidents, window)
  {
    match a
    case Correlate(c, root, searched) => CorrelationKeepsSpaced(w, c, root, searched, window, w');
    case _ =>
      hide Safe, Spaced;
      ResolvingKeepsSpaced(w.store.incidents, w'.store.incidents, window);
  }

  /** In every state of every run, of any two auto Incidents of a root one was resolved more than a
      window before the other was created. */
  lemma {:induction false} RecurrencesAreSpaced(trace: seq<World>, acts: seq<Action>, window: nat)
    requires WindowOk(window) && IsRun(trace, acts, window)
    ensures Spaced(trace[|trace| - 1].store.incidents, window)
  {
    RunsAreSafe(trace, acts, window);
    if acts != [] {
      var k := |acts| - 1;
      assert IsRun(trace[..k + 1], acts[..k], window);
      RecurrencesAreSpaced(trace[..k + 1], acts[..k], window);
      hide Safe, Next, Spaced;
      NextKeepsSpaced(trace[k], acts[k], window, trace[k + 1]);
    }
  }

  // ---- What an Incident remembers ----------------------------------------------------

  ghost predicate Unresolved(w: World, n: IncidentName) {
    n in w.store.incidents && w.store.incidents[n].state != Resolved
  }

  /** The step creates or reopens the Incident. */
  ghost predicate Opens(trace: seq<World>, n: IncidentName, i: int) {
    0 <= i < |trace| - 1 && !Unresolved(trace[i], n) && Unresolved(trace[i + 1], n)
  }

  /** The step resolves it. */
  ghost predicate Closes(trace: seq<World>, n: IncidentName, i: int) {
    0 <= i < |trace| - 1 && Unresolved(trace[i], n) && !Unresolved(trace[i + 1], n)
  }

  ghost function Openings(trace: seq<World>, n: IncidentName): set<int> {
    set i | 0 <= i < |trace| && Opens(trace, n, i)
  }

  ghost function Closings(trace: seq<World>, n: IncidentName): set<int> {
    set i | 0 <= i < |trace| && Closes(trace, n, i)
  }

  ghost predicate IsLast(steps: set<int>, i: int) {
    i in steps && forall k :: k in steps ==> k <= i
  }

  /** What one step does to an auto Incident's record. */
  ghost predicate StepRecords(w: World, w': World, n: IncidentName) {
    var inc := w'.store.incidents;
    && (n in w.store.incidents ==> n in inc)
    && (n in inc && !inc[n].manual ==>
      && (n in w.store.incidents ==> !w.store.incidents[n].manual)
      && if !Unresolved(w, n) && Unresolved(w', n) then
           var before := if n in w.store.incidents then w.store.incidents[n].occurrences else 0;
           && (n in w.store.incidents ==> before < 1 || inc[n].occurrences == before + 1)
           && (n !in w.store.incidents ==> inc[n].occurrences == 1)
           && inc[n].lastOccurrence == w.clock / 1_000_000_000 && inc[n].resolvedAt == None
         else
           && n in w.store.incidents
           && inc[n].occurrences == w.store.incidents[n].occurrences
           && inc[n].lastOccurrence == w.store.incidents[n].lastOccurrence
           && inc[n].resolvedAt == if Unresolved(w, n) && !Unresolved(w', n) then Some(w.clock / 1_000_000_000)
                                   else w.store.incidents[n].resolvedAt)
  }

  lemma NextRecords(w: World, a: Action, window: nat, w': World, n: IncidentName)
    requires WindowOk(window) && Safe(w, window) && Next(w, a, window, w')
    ensures StepRecords(w, w', n)
  {
    match a
    case Correlate(c, root, searched) => CorrelationRecords(w, c, root, searched, window, w', n);
    case _ =>
      hide Safe;
  }

  lemma CorrelationRecords(w: World, c: CaseName, root: ResourceRef, searched: nat, window: nat, w': World, n: IncidentName)
    requires WindowOk(window) && Safe(w, window) && Next(w, Correlate(c, root, searched), window, w')
    ensures StepRecords(w, w', n)
  {
    if c in w.store.cases && w.store.cases[c].state != CaseResolved && w.store.cases[c].incident == None {
      var m := CorrelationInFull(w, c, root, searched, window, w');
      hide *;
      CorrelatedRecords(w, root, searched, window, m, w', n);
    } else {
      ResolutionInFull(w, c, root, searched, window, w');
      hide Safe, Next;
    }
  }

  lemma CorrelatedRecords(w: World, root: ResourceRef, searched: nat, window: nat, m: IncidentName, w': World, n: IncidentName)
    requires WindowOk(window) && m in w'.store.incidents
    requires w'.store.incidents == w.store.incidents[m := w'.store.incidents[m]]
    requires Correlated(w, root, searched, window, m, w'.store.incidents[m])
    ensures StepRecords(w, w', n)
  {
    hide Within;
  }

  /** The second of the last of these steps. */
  ghost predicate DatesLast(trace: seq<World>, steps: set<int>, second: nat) {
    exists i :: IsLast(steps, i) && 0 <= i < |trace| && second == trace[i].clock / 1_000_000_000
  }

  /** An auto Incident counts the steps that opened it and dates the last of them; and it is dated as
      resolved exactly while it is, by the step that resolved it. */
  ghost predicate Remembers(trace: seq<World>, n: IncidentName)
    requires |trace| > 0 && n in trace[|trace| - 1].store.incidents
  {
    var inc := trace[|trace| - 1].store.incidents[n];
    && inc.occurrences == |Openings(trace, n)|
    && DatesLast(trace, Openings(trace, n), inc.lastOccurrence)
    && if inc.state != Resolved then inc.resolvedAt == None
       else inc.resolvedAt.Some? && DatesLast(trace, Closings(trace, n), inc.resolvedAt.value)
  }

  lemma StepsSoFar(trace: seq<World>, w: World, n: IncidentName)
    requires |trace| > 0
    ensures var k := |trace| - 1;
      && Openings(trace + [w], n) == Openings(trace, n) + (if !Unresolved(trace[k], n) && Unresolved(w, n) then {k} else {})
      && Closings(trace + [w], n) == Closings(trace, n) + (if Unresolved(trace[k], n) && !Unresolved(w, n) then {k} else {})
      && (forall i :: i in Openings(trace, n) ==> 0 <= i < k) && (forall i :: i in Closings(trace, n) ==> 0 <= i < k)
  {
    hide Unresolved;
    var k, trace' := |trace| - 1, trace + [w];
    assert forall i :: 0 <= i <= k ==> trace'[i] == trace[i];
    assert trace'[k + 1] == w;
    assert forall i :: 0 <= i < k ==> (Opens(trace', n, i) <==> Opens(trace, n, i)) && (Closes(trace', n, i) <==> Closes(trace, n, i));
    assert Opens(trace', n, k) <==> !Unresolved(trace[k], n) && Unresolved(w, n);
    assert Closes(trace', n, k) <==> Unresolved(trace[k], n) && !Unresolved(w, n);
    hide Opens, Closes;
  }

  lemma DatesStay(trace: seq<World>, w: World, steps: set<int>, second: nat)
    requires |trace| > 0 && forall i :: i in steps ==> 0 <= i < |trace| - 1
    ensures DatesLast(trace, steps, second) ==> DatesLast(trace + [w], steps, second)
    ensures DatesLast(trace + [w], steps + {|trace| - 1}, trace[|trace| - 1].clock / 1_000_000_000)
    ensures |steps + {|trace| - 1}| == |steps| + 1
    ensures DatesLast(trace, steps, second) ==> |steps| >= 1
  {
    var k := |trace| - 1;
    assert forall i :: 0 <= i < |trace| ==> (trace + [w])[i] == trace[i];
    assert IsLast(steps + {k}, k);
    assert k !in steps;
  }

  lemma StepRemembers(trace: seq<World>, w: World, n: IncidentName)
    requires |trace| > 0 && StepRecords(trace[|trace| - 1], w, n) && n in w.store.incidents && !w.store.incidents[n].manual
    requires n in trace[|trace| - 1].store.incidents ==> Remembers(trace, n)
    requires n !in trace[|trace| - 1].store.incidents ==> Openings(trace, n) == {}
    ensures Remembers(trace + [w], n)
  {
    hide Openings, Closings, DatesLast, Opens, Closes, IsLast;
    StepsSoFar(trace, w, n);
    var ups, downs := Openings(trace, n), Closings(trace, n);
    if n in trace[|trace| - 1].store.incidents {
      var was := trace[|trace| - 1].store.incidents[n];
      DatesStay(trace, w, ups, was.lastOccurrence);
      DatesStay(trace, w, downs, if was.resolvedAt.Some? then was.resolvedAt.value else 0);
    } else {
      DatesStay(trace, w, ups, 0);
    }
    assert (trace + [w])[|trace|] == w;
  }

  /** What the end of a run says of a name. */
  ghost predicate NameRemembers(trace: seq<World>, n: IncidentName)
    requires |trace| > 0
  {
    var incidents := trace[|trace| - 1].store.incidents;
    (n !in incidents ==> Openings(trace, n) == {}) && (n in incidents && !incidents[n].manual ==> Remembers(trace, n))
  }

  lemma StepNameRemembers(trace: seq<World>, w: World, n: IncidentName)
    requires |trace| > 0 && StepRecords(trace[|trace| - 1], w, n) && NameRemembers(trace, n)
    ensures NameRemembers(trace + [w], n)
  {
    if n in w.store.incidents && !w.store.incidents[n].manual {
      StepRemembers(trace, w, n);
      hide Remembers, Openings;
    } else {
      StepsSoFar(trace, w, n);
      hide Openings, Closings;
    }
  }

  lemma {:induction false} NamesRemember(trace: seq<World>, acts: seq<Action>, window: nat, n: IncidentName)
    requires WindowOk(window) && IsRun(trace, acts, window)
    ensures NameRemembers(trace, n)
  {
    RunsAreSafe(trace, acts, window);
    if acts != [] {
      var k := |acts| - 1;
      var front := trace[..k + 1];
      assert IsRun(front, acts[..k], window) && trace == front + [trace[k + 1]];
      assert Next(trace[k], acts[k], window, trace[k + 1]);
      hide Safe, Next, NameRemembers, StepRecords;
      NextRecords(trace[k], acts[k], window, trace[k + 1], n);
      NamesRemember(front, acts[..k], window, n);
      StepNameRemembers(front, trace[k + 1], n);
    }
  }

  /** In every run each auto Incident remembers that. */
  lemma IncidentsRemember(trace: seq<World>, acts: seq<Action>, window: nat, n: IncidentName)
    requires WindowOk(window) && IsRun(trace, acts, window)
    requires n in trace[|trace| - 1].store.incidents && !trace[|trace| - 1].store.incidents[n].manual
    ensures Remembers(trace, n)
  {
    NamesRemember(trace, acts, window, n);
  }
}
