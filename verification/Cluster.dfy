/** The custom resources that the cluster-watcher controllers read and write,
    and the clock arithmetic behind an Incident's name. */
module Cluster {
  import opened Wrappers

  datatype ResourceRef = ResourceRef(namespace: string, kind: string, name: string)

  type CaseName = string

  datatype CaseState = CaseOpen | CaseInvestigating | CaseResolved

  /** A ProblemCase: the two labels it is looked up by, its state, and the
      incident label that correlation writes. */
  datatype ProblemCase = ProblemCase(
    affected: string,
    detector: string,
    symptoms: seq<string>,
    lastSeen: nat,
    state: CaseState,
    incident: Option<IncidentName>)

  /** "incident-" + fingerprint prefix + "-" + bucket, with the hash taken as an
      injective constructor; a manual Incident gets a generated name. */
  datatype IncidentName = AutoName(root: ResourceRef, bucket: nat) | ManualName(id: string)

  /** The status is unset between the create call and the first status patch. */
  datatype IncidentState = Unset | Open | Resolved

  /** createdAt is the clock reading that the name's bucket was computed from.
      Times in a status are whole seconds, as the API server stores them. */
  datatype Incident = Incident(
    manual: bool,
    fingerprint: Option<ResourceRef>,
    createdAt: nat,
    members: seq<CaseName>,
    state: IncidentState,
    resolvedAt: Option<nat>,
    active: nat,
    occurrences: nat,
    lastOccurrence: nat)

  datatype Store = Store(cases: map<CaseName, ProblemCase>, incidents: map<IncidentName, Incident>)

  // Clock readings and durations are nanoseconds.
  const SECOND: nat := 1_000_000_000
  const DEFAULT_WINDOW: nat := 86_400 * SECOND

  function UnixSeconds(t: nat): nat {
    t / SECOND
  }

  function EffectiveWindow(configured: nat): nat {
    if configured == 0 then DEFAULT_WINDOW else configured
  }

  /** Below one second the bucket computation divides by zero. */
  predicate WindowOk(configured: nat) {
    configured == 0 || SECOND <= configured
  }

  function Bucket(t: nat, configured: nat): nat
    requires WindowOk(configured)
  {
    UnixSeconds(t) / (EffectiveWindow(configured) / SECOND)
  }

  /** Two clock readings that share a bucket are less than a window apart, even
      when the earlier one is only known to the second. */
  lemma SameBucketWithinWindow(created: nat, found: nat, now: nat, resolvedAt: nat, configured: nat)
    requires WindowOk(configured)
    requires found <= now
    requires UnixSeconds(created) <= resolvedAt
    requires Bucket(created, configured) == Bucket(now, configured)
    ensures found - resolvedAt * SECOND < EffectiveWindow(configured)
  {
    var w := EffectiveWindow(configured) / SECOND;
    var b := Bucket(now, configured);
    assert UnixSeconds(now) < b * w + w && b * w <= UnixSeconds(created);
  }

  predicate IsActive(cases: map<CaseName, ProblemCase>, c: CaseName) {
    c in cases && !cases[c].state.CaseResolved?
  }

  /** How many entries of a member list name an active ProblemCase. */
  function ActiveCount(members: seq<CaseName>, cases: map<CaseName, ProblemCase>): nat {
    if members == [] then 0
    else ActiveCount(members[..|members| - 1], cases)
         + if IsActive(cases, members[|members| - 1]) then 1 else 0
  }

  ghost predicate Distinct<T>(s: seq<T>) {
    forall i, j :: 0 <= i < j < |s| ==> s[i] != s[j]
  }

  function ActiveMembers(members: seq<CaseName>, cases: map<CaseName, ProblemCase>): set<CaseName> {
    set m | m in members && IsActive(cases, m)
  }

  /** On a duplicate-free list the count is the size of the set of active members. */
  lemma {:induction false} ActiveCountIsCardinality(members: seq<CaseName>, cases: map<CaseName, ProblemCase>)
    requires Distinct(members)
    ensures ActiveCount(members, cases) == |ActiveMembers(members, cases)|
  {
    if members == [] {
      assert ActiveMembers(members, cases) == {};
    } else {
      var front, last := members[..|members| - 1], members[|members| - 1];
      ActiveCountIsCardinality(front, cases);
      assert last !in front;
      assert forall m :: m in members <==> m in front || m == last;
      var inner := ActiveMembers(front, cases);
      if IsActive(cases, last) {
        assert ActiveMembers(members, cases) == inner + {last};
      } else {
        assert ActiveMembers(members, cases) == inner;
      }
    }
  }

  lemma {:induction false} ActiveCountZero(members: seq<CaseName>, cases: map<CaseName, ProblemCase>)
    ensures ActiveCount(members, cases) == 0 <==> forall m :: m in members ==> !IsActive(cases, m)
  {
    if members != [] {
      var front, last := members[..|members| - 1], members[|members| - 1];
      assert members == front + [last];
      ActiveCountZero(front, cases);
    }
  }

  /** The count reads nothing but which members are active. */
  lemma {:induction false} ActiveCountFrame(members: seq<CaseName>, a: map<CaseName, ProblemCase>, b: map<CaseName,
          ProblemCase>)
    requires forall m :: m in members ==> (IsActive(a, m) <==> IsActive(b, m))
    ensures ActiveCount(members, a) == ActiveCount(members, b)
  {
    if members != [] {
      var front, last := members[..|members| - 1], members[|members| - 1];
      assert members == front + [last];
      ActiveCountFrame(front, a, b);
    }
  }
}
