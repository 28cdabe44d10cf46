/** The writers of ProblemCases and Incidents other than correlation: detectors,
    the auto-resolve reconciler, exclusion rules and the Resolve endpoint. */
module Lifecycle {
  import opened Cluster
  import opened Wrappers

  ghost predicate OpenCaseFor(cases: map<CaseName, ProblemCase>, c: CaseName, affected: string, detector: string) {
    IsActive(cases, c) && cases[c].affected == affected && cases[c].detector == detector
  }

  function Refreshed(pc: ProblemCase, symptoms: seq<string>, now: nat): ProblemCase {
    pc.(symptoms := symptoms, lastSeen := UnixSeconds(now))
  }

  function Opened(affected: string, detector: string, symptoms: seq<string>, now: nat): ProblemCase {
    ProblemCase(affected, detector, symptoms, UnixSeconds(now), CaseOpen, None)
  }

  /** ProblemCaseReconciler acts on open cases only. */
  function Cleared(cases: map<CaseName, ProblemCase>, c: CaseName): map<CaseName, ProblemCase> {
    if c in cases && cases[c].state.CaseOpen? then cases[c := cases[c].(state := CaseResolved)] else cases
  }

  function AllResolved(cases: map<CaseName, ProblemCase>, members: seq<CaseName>): map<CaseName, ProblemCase> {
    map c | c in cases :: if c in members then cases[c].(state := CaseResolved) else cases[c]
  }

  /** An exclusion rule resolves an unresolved auto Incident together with its cases. */
  function Suppressed(s: Store, n: IncidentName, now: nat): Store {
    if n !in s.incidents || s.incidents[n].state.Resolved? || s.incidents[n].manual then s
    else
      var inc := s.incidents[n];
      Store(AllResolved(s.cases, inc.members),
            s.incidents[n := inc.(state := Resolved, resolvedAt := Some(UnixSeconds(now)), active := 0)])
  }

  /** The endpoint touches the Incident's status only. */
  function ResolvedByUser(s: Store, n: IncidentName, now: nat): Store {
    if n !in s.incidents || s.incidents[n].state.Resolved? then s
    else s.(incidents := s.incidents[n := s.incidents[n].(state := Resolved, resolvedAt := Some(UnixSeconds(now)))])
  }

  class ControlPlane {
    var cases: map<CaseName, ProblemCase>
    var incidents: map<IncidentName, Incident>

    ghost function Contents(): Store
      reads this
    {
      Store(cases, incidents)
    }

    constructor (s: Store)
      ensures Contents() == s
    {
      cases, incidents := s.cases, s.incidents;
    }

    /** The first unresolved case in the order of the list call, which is arbitrary. */
    method FindOpen(affected: string, detector: string) returns (found: Option<CaseName>)
      ensures found.Some? ==> OpenCaseFor(cases, found.value, affected, detector)
      ensures found.None? ==> forall c :: !OpenCaseFor(cases, c, affected, detector)
    {
      var todo := set c | c in cases && cases[c].affected == affected && cases[c].detector == detector;
      while todo != {}
        invariant todo <= cases.Keys
        invariant forall c :: c in todo ==> cases[c].affected == affected && cases[c].detector == detector
        invariant forall c :: OpenCaseFor(cases, c, affected, detector) ==> c in todo
        decreases todo
      {
        var c :| c in todo;
        if !cases[c].state.CaseResolved? {
          return Some(c);
        }
        todo := todo - {c};
      }
      return None;
    }

    /** newName is the name the API server generates for a new case. */
    method CreateOrUpdate(affected: string, detector: string, symptoms: seq<string>, newName: CaseName, now: nat)
      returns (c: CaseName)
      requires newName !in cases
      modifies this`cases
      ensures if exists d :: OpenCaseFor(old(cases), d, affected, detector) then
                OpenCaseFor(old(cases), c, affected, detector) && cases == old(cases)[c := Refreshed(old(cases[c]), symptoms, now)]
              else
                c == newName && cases == old(cases)[c := Opened(affected, detector, symptoms, now)]
    {
      var found := FindOpen(affected, detector);
      if found.Some? {
        c := found.value;
        cases := cases[c := cases[c].(symptoms := symptoms)];
        cases := cases[c := cases[c].(lastSeen := UnixSeconds(now))];
      } else {
        c := newName;
        cases := cases[c := Opened(affected, detector, symptoms, now)];
      }
    }

    /** One reconcile of a case whose detector reports healthy or whose resource is gone. */
    method AutoResolve(c: CaseName, symptomsGone: bool)
      modifies this`cases
      ensures cases == if symptomsGone then Cleared(old(cases), c) else old(cases)
    {
      if c !in cases || !cases[c].state.CaseOpen? {
        return;
      }
      if symptomsGone {
        cases := cases[c := cases[c].(state := CaseResolved)];
      }
    }

    /** One listed Incident that an enabled rule matches. */
    method Suppress(n: IncidentName, now: nat)
      modifies this`cases, this`incidents
      ensures Contents() == Suppressed(old(Contents()), n, now)
    {
      if n !in incidents || incidents[n].state.Resolved? || incidents[n].manual {
        return;
      }
      var inc := incidents[n];
      var i := 0;
      while i < |inc.members|
        invariant 0 <= i <= |inc.members|
        invariant cases == AllResolved(old(cases), inc.members[..i])
        invariant incidents == old(incidents)
      {
        var c := inc.members[i];
        assert inc.members[..i + 1] == inc.members[..i] + [c];
        if c in cases && !cases[c].state.CaseResolved? {
          cases := cases[c := cases[c].(state := CaseResolved)];
        }
        i := i + 1;
      }
      assert inc.members[..i] == inc.members;
      incidents := incidents[n := inc.(state := Resolved, resolvedAt := Some(UnixSeconds(now)), active := 0)];
    }

    method Resolve(n: IncidentName, now: nat) returns (ok: bool)
      modifies this`incidents
      ensures ok <==> n in old(incidents)
      ensures Contents() == ResolvedByUser(old(Contents()), n, now)
    {
      if n !in incidents {
        return false;
      }
      if !incidents[n].state.Resolved? {
        incidents := incidents[n := incidents[n].(state := Resolved, resolvedAt := Some(UnixSeconds(now)))];
      }
      return true;
    }
  }
}
