/** CorrelationReconciler with each reconcile taken as one step: what a reconcile
    does to the store, and the methods that do it. */
module Correlation {
  import opened Cluster
  import opened Wrappers

  ghost predicate AutoFor(incidents: map<IncidentName, Incident>, n: IncidentName, root: ResourceRef) {
    n in incidents && incidents[n].fingerprint == Some(root) && !incidents[n].manual
  }

  ghost predicate UnresolvedFor(incidents: map<IncidentName, Incident>, n: IncidentName, root: ResourceRef) {
    AutoFor(incidents, n, root) && !incidents[n].state.Resolved?
  }

  /** An auto Incident's name, fingerprint and creation time agree, and a
      resolution is never earlier than the creation. */
  ghost predicate Named(n: IncidentName, inc: Incident, clock: nat, window: nat)
    requires WindowOk(window)
  {
    && (n.AutoName? <==> !inc.manual)
    && (n.AutoName? ==> inc.fingerprint == Some(n.root) && n.bucket == Bucket(inc.createdAt, window))
    && (n.ManualName? ==> inc.fingerprint == None)
    && inc.createdAt <= clock
    && (inc.state.Resolved? ==> inc.resolvedAt.Some? && UnixSeconds(inc.createdAt) <= inc.resolvedAt.value)
  }

  ghost predicate OneUnresolvedPerRoot(incidents: map<IncidentName, Incident>) {
    forall n, m, root :: UnresolvedFor(incidents, n, root) && UnresolvedFor(incidents, m, root) ==> n == m
  }

  /** Resolved within the recurrence window, boundary included. */
  predicate Recent(inc: Incident, now: nat, window: nat) {
    inc.resolvedAt.Some? && now - inc.resolvedAt.value * SECOND <= EffectiveWindow(window)
  }

  /** An unresolved Incident wins; otherwise the most recently resolved one, and
      only when it is recent; otherwise nothing is reused. */
  ghost predicate Reusable(incidents: map<IncidentName, Incident>, root: ResourceRef, now: nat, window: nat,
                           found: Option<IncidentName>, reopen: bool) {
    if exists n :: UnresolvedFor(incidents, n, root) then
      found.Some? && !reopen && UnresolvedFor(incidents, found.value, root)
    else if exists n :: AutoFor(incidents, n, root) && Recent(incidents[n], now, window) then
      && found.Some? && reopen
      && AutoFor(incidents, found.value, root) && Recent(incidents[found.value], now, window)
      && (forall n :: AutoFor(incidents, n, root) && incidents[n].resolvedAt.Some?
            ==> incidents[n].resolvedAt.value <= incidents[found.value].resolvedAt.value)
    else
      found.None? && !reopen
  }

  function Reopened(inc: Incident, now: nat): Incident {
    inc.(state := Open, resolvedAt := None,
         occurrences := if inc.occurrences + 1 < 2 then 2 else inc.occurrences + 1,
         lastOccurrence := UnixSeconds(now))
  }

  function Created(root: ResourceRef, now: nat): Incident {
    Incident(false, Some(root), now, [], Open, None, 0, 1, UnixSeconds(now))
  }

  function WithMember(inc: Incident, c: CaseName, cases: map<CaseName, ProblemCase>): Incident {
    if c in inc.members then inc
    else
      var members := inc.members + [c];
      inc.(members := members, active := ActiveCount(members, cases))
  }

  function Labelled(cases: map<CaseName, ProblemCase>, c: CaseName, n: IncidentName): map<CaseName, ProblemCase>
    requires c in cases
  {
    cases[c := cases[c].(incident := Some(n))]
  }

  function MaybeResolved(inc: Incident, cases: map<CaseName, ProblemCase>, now: nat): Incident {
    if inc.state.Resolved? || inc.members == [] then inc
    else
      var active := ActiveCount(inc.members, cases);
      if active == 0 then inc.(active := 0, state := Resolved, resolvedAt := Some(UnixSeconds(now)))
      else inc.(active := active)
  }

  /** Everything after the search: the incident, new or found, gains the case and
      the case gains its label. An existing Incident of the new name is used as it is. */
  function Attached(s: Store, c: CaseName, root: ResourceRef, found: Option<IncidentName>, reopen: bool,
                    now: nat, window: nat): Store
    requires WindowOk(window)
    requires c in s.cases && (found.Some? ==> found.value in s.incidents)
  {
    var n := if found.Some? then found.value else AutoName(root, Bucket(now, window));
    var base := if n !in s.incidents then Created(root, now)
                else if reopen then Reopened(s.incidents[n], now) else s.incidents[n];
    Store(Labelled(s.cases, c, n), s.incidents[n := WithMember(base, c, s.cases)])
  }

  /** One whole reconcile of case c whose workload root is root: the search reads
      the clock at `searched`, later calls read it at `now`. */
  ghost predicate Reconciles(s: Store, s': Store, c: CaseName, root: ResourceRef, searched: nat, now: nat, window: nat)
    requires WindowOk(window)
  {
    if c !in s.cases then s' == s
    else if s.cases[c].state.CaseResolved? then
      s' == match s.cases[c].incident
            case Some(n) =>
              if n in s.incidents then s.(incidents := s.incidents[n := MaybeResolved(s.incidents[n], s.cases, now)])
              else s
            case None => s
    else if s.cases[c].incident.Some? then s' == s
    else exists found, reopen ::
        && Reusable(s.incidents, root, searched, window, found, reopen)
        && s' == Attached(s, c, root, found, reopen, now, window)
  }

  /** The reconciler over the API server's objects. */
  class CorrelationReconciler {
    var cases: map<CaseName, ProblemCase>
    var incidents: map<IncidentName, Incident>
    const recurrenceWindow: nat

    ghost function Contents(): Store
      reads this
    {
      Store(cases, incidents)
    }

    constructor (window: nat, cases: map<CaseName, ProblemCase>, incidents: map<IncidentName, Incident>)
      ensures recurrenceWindow == window && Contents() == Store(cases, incidents)
    {
      recurrenceWindow := window;
      this.cases, this.incidents := cases, incidents;
    }

    /** The list call returns the matching Incidents in any order. The head of the
        slice sorted by resolution time, unset times last, is kept while scanning. */
    method FindReusableIncident(root: ResourceRef, now: nat) returns (found: Option<IncidentName>, reopen: bool)
      ensures Reusable(incidents, root, now, recurrenceWindow, found, reopen)
      ensures found.None? ==> forall n :: n in incidents && !incidents[n].manual && incidents[n].fingerprint == Some(root) ==>
                && incidents[n].state.Resolved?
                && (incidents[n].resolvedAt.Some? ==>
                      now - incidents[n].resolvedAt.value * 1_000_000_000
                        > if recurrenceWindow == 0 then 86_400_000_000_000 else recurrenceWindow)
    {
      var todo := set n | n in incidents && incidents[n].fingerprint == Some(root);
      var latest: Option<IncidentName> := None;
      ghost var scanned: set<IncidentName> := {};
      while todo != {}
        invariant todo !! scanned
        invariant forall n :: n in todo + scanned <==> n in incidents && incidents[n].fingerprint == Some(root)
        invariant forall n :: n in scanned ==> !UnresolvedFor(incidents, n, root)
        invariant latest.Some? ==> latest.value in scanned && AutoFor(incidents, latest.value, root)
        invariant forall n :: n in scanned && AutoFor(incidents, n, root) && incidents[n].resolvedAt.Some?
                    ==> latest.Some? && incidents[latest.value].resolvedAt.Some?
                        && incidents[n].resolvedAt.value <= incidents[latest.value].resolvedAt.value
        decreases todo
      {
        var n :| n in todo;
        todo := todo - {n};
        scanned := scanned + {n};
        var inc := incidents[n];
        if !inc.manual {
          if !inc.state.Resolved? {
            assert UnresolvedFor(incidents, n, root);
            return Some(n), false;
          }
          if latest.None? || ResolvedBefore(incidents[latest.value], inc) {
            latest := Some(n);
          }
        }
      }
      assert forall n :: AutoFor(incidents, n, root) ==> n in scanned;
      if latest.Some? && Recent(incidents[latest.value], now, recurrenceWindow) {
        return latest, true;
      }
      return None, false;
    }

    /** addProblemCaseToIncident: append unless listed, then recount the active members. */
    method AddProblemCaseToIncident(n: IncidentName, c: CaseName)
      requires n in incidents
      modifies this`incidents
      ensures incidents == old(incidents)[n := WithMember(old(incidents[n]), c, cases)]
    {
      var inc := incidents[n];
      var i := 0;
      while i < |inc.members|
        invariant 0 <= i <= |inc.members|
        invariant c !in inc.members[..i]
      {
        if inc.members[i] == c {
          return;
        }
        i := i + 1;
      }
      inc := inc.(members := inc.members + [c]);
      incidents := incidents[n := inc];
      var active := CountActive(inc.members);
      incidents := incidents[n := inc.(active := active)];
    }

    method CountActive(members: seq<CaseName>) returns (active: nat)
      ensures active == ActiveCount(members, cases)
    {
      active := 0;
      for i := 0 to |members|
        invariant active == ActiveCount(members[..i], cases)
      {
        assert members[..i + 1][..i] == members[..i];
        if members[i] in cases && !cases[members[i]].state.CaseResolved? {
          active := active + 1;
        }
      }
      assert members[..|members|] == members;
    }

    method MaybeResolveIncident(n: IncidentName, now: nat)
      modifies this`incidents
      ensures incidents == if n in old(incidents)
                           then old(incidents)[n := MaybeResolved(old(incidents[n]), cases, now)]
                           else old(incidents)
    {
      if n !in incidents || incidents[n].state.Resolved? || incidents[n].members == [] {
        return;
      }
      var inc := incidents[n];
      var active := CountActive(inc.members);
      inc := inc.(active := active);
      if active == 0 {
        inc := inc.(state := Resolved, resolvedAt := Some(UnixSeconds(now)));
      }
      incidents := incidents[n := inc];
    }

    /** Create, or use the Incident that already has the name; then set the first status. */
    method CreateIncident(root: ResourceRef, now: nat) returns (n: IncidentName)
      requires WindowOk(recurrenceWindow)
      modifies this`incidents
      ensures n == AutoName(root, Bucket(now, recurrenceWindow))
      ensures incidents == if n in old(incidents) then old(incidents) else old(incidents)[n := Created(root, now)]
    {
      n := AutoName(root, Bucket(now, recurrenceWindow));
      if n in incidents {
        return;
      }
      var inc := Incident(false, Some(root), now, [], Unset, None, 0, 0, 0);
      incidents := incidents[n := inc];
      incidents := incidents[n := inc.(state := Open, occurrences := 1, lastOccurrence := UnixSeconds(now))];
    }

    method ReopenIncident(n: IncidentName, now: nat)
      requires n in incidents
      modifies this`incidents
      ensures incidents == old(incidents)[n := Reopened(old(incidents[n]), now)]
    {
      var inc := incidents[n];
      inc := inc.(state := Open, resolvedAt := None, occurrences := inc.occurrences + 1);
      if inc.occurrences < 2 {
        inc := inc.(occurrences := 2);
      }
      incidents := incidents[n := inc.(lastOccurrence := UnixSeconds(now))];
    }

    /** One reconcile; root is what the ownership walk found for the case. */
    method Reconcile(c: CaseName, root: ResourceRef, searched: nat, now: nat)
      requires WindowOk(recurrenceWindow)
      modifies this`cases, this`incidents
      ensures Reconciles(old(Contents()), Contents(), c, root, searched, now, recurrenceWindow)
    {
      if c !in cases {
        return;
      }
      var pc := cases[c];
      if pc.state.CaseResolved? {
        if pc.incident.Some? {
          MaybeResolveIncident(pc.incident.value, now);
        }
        return;
      }
      if pc.incident.Some? {
        return;
      }
      var found, reopen := FindReusableIncident(root, searched);
      FoundIsListed(incidents, root, searched, recurrenceWindow, found, reopen);
      hide Reusable, WithMember, Reopened, Created;
      var n;
      if found.None? {
        n := CreateIncident(root, now);
      } else {
        n := found.value;
        if reopen {
          ReopenIncident(n, now);
        }
      }
      AddProblemCaseToIncident(n, c);
      cases := cases[c := pc.(incident := Some(n))];
      assert Contents() == Attached(old(Contents()), c, root, found, reopen, now, recurrenceWindow);
    }
  }

  lemma FoundIsListed(incidents: map<IncidentName, Incident>, root: ResourceRef, now: nat, window: nat,
          found: Option<IncidentName>, reopen: bool)
    requires Reusable(incidents, root, now, window, found, reopen)
    ensures found.Some? ==> found.value in incidents
    ensures found.None? ==> !reopen
  {
  }

  /** Order of the resolved slice: later resolution first, unset times last. */
  predicate ResolvedBefore(a: Incident, b: Incident) {
    b.resolvedAt.Some? && (a.resolvedAt.None? || a.resolvedAt.value < b.resolvedAt.value)
  }
}
