/** Exclusion-rule time windows, read twice: by the matcher that suppresses new problem cases
    and by the reconciler that resolves incidents. */
module Windows {
  import opened Decimal
  import opened Wrappers

  datatype Period = Period(start: string, end: string, days: seq<string>)

  datatype TimeWindow = TimeWindow(timezone: string, periods: seq<Period>)

  const MINUTE := 60_000_000_000
  const DAY := 1440

  /** A wall clock: the three-letter weekday and the nanoseconds since midnight. */
  datatype Clock = Clock(weekday: string, nanos: nat)

  /** One instant, read in UTC and in every timezone that can be loaded. */
  datatype Instant = Instant(utc: Clock, zones: map<string, Clock>)

  predicate IsClock(c: Clock) {
    c.nanos < DAY * MINUTE
  }

  // ---- Reading "HH:MM" ----------------------------------------------------------------

  /** A byte minus '0', as bytes wrap. */
  function ByteDigit(c: char): nat {
    (c as int - '0' as int) % 256
  }

  /** The reconciler's reading: minutes after midnight, and midnight for anything that does not
      have a colon third of five bytes. */
  function DayMinutes(s: string): nat {
    if |s| == 5 && s[2] == ':' then
      (ByteDigit(s[0]) * 10 + ByteDigit(s[1])) * 60 + ByteDigit(s[3]) * 10 + ByteDigit(s[4])
    else 0
  }

  const INT64 := 0x1_0000_0000_0000_0000

  function Wrap(n: int): int {
    (n + INT64 / 2) % INT64 - INT64 / 2
  }

  predicate IsSpace(c: char) {
    c == ' ' || c == '\t' || c == 11 as char || c == 12 as char || c == '\r'
  }

  function DigitPrefix(s: string): (r: string)
    ensures AllDigits(r) && r <= s
  {
    if s == "" || s[0] !in "0123456789" then ""
    else
      assert forall c :: c in [s[0]] + DigitPrefix(s[1..]) ==> c == s[0] || c in DigitPrefix(s[1..]);
      [s[0]] + DigitPrefix(s[1..])
  }

  /** Sscanf with %d: spaces, a sign, digits, and whatever follows is left alone. */
  function Scan(s: string): Option<int> {
    if s != "" && IsSpace(s[0]) then Scan(s[1..])
    else
      var negative := s != "" && s[0] == '-';
      var digits := DigitPrefix(if s != "" && (s[0] == '-' || s[0] == '+') then s[1..] else s);
      var n: int := if negative then -(Value(digits) as int) else Value(digits);
      if digits == "" || n < -(INT64 / 2) || n >= INT64 / 2 then None else Some(n)
  }

  function ColonAt(s: string): nat {
    if s == "" || s[0] == ':' then 0 else 1 + ColonAt(s[1..])
  }

  /** The matcher's reading: two numbers around the first colon. */
  function Minutes(s: string): Option<int> {
    var n := ColonAt(s);
    if n >= |s| then None
    else
      var h, m := Scan(s[..n]), Scan(s[n + 1..]);
      if h.None? || m.None? then None else Some(Wrap(h.value * 60 + m.value))
  }

  /** Two digits, a colon, two digits. */
  predicate WellFormed(s: string) {
    |s| == 5 && s[2] == ':' && AllDigits([s[0], s[1], s[3], s[4]])
  }

  predicate IsDigit(c: char) {
    c in "0123456789"
  }

  lemma ByteDigitIsDigit(c: char)
    requires IsDigit(c)
    ensures ByteDigit(c) == DigitValue(c) < 10 && !IsSpace(c) && c != '-' && c != '+' && c != ':'
  {
    DigitRoundTrip(c);
    var i :| 0 <= i < 10 && "0123456789"[i] == c;
  }

  lemma ValueOfTwo(a: char, b: char)
    requires IsDigit(a) && IsDigit(b)
    ensures Value([a, b]) == DigitValue(a) * 10 + DigitValue(b)
  {
    DigitRoundTrip(a);
    DigitRoundTrip(b);
    hide DigitValue, Digit, AllDigits;
    ValueStep([], DigitValue(a));
    ValueStep([a], DigitValue(b));
    assert [] + [a] == [a] && [a] + [b] == [a, b];
    assert Value([]) == 0;
  }

  lemma PrefixOfTwo(a: char, b: char)
    requires IsDigit(a) && IsDigit(b)
    ensures DigitPrefix([a, b]) == [a, b]
  {
    assert [a, b][1..] == [b] && [b][1..] == [];
    assert DigitPrefix([]) == [];
    assert DigitPrefix([b]) == [b];
  }

  lemma ScanTwoDigits(a: char, b: char)
    requires IsDigit(a) && IsDigit(b)
    ensures Scan([a, b]) == Some(ByteDigit(a) * 10 + ByteDigit(b))
  {
    ByteDigitIsDigit(a);
    ByteDigitIsDigit(b);
    ValueOfTwo(a, b);
    PrefixOfTwo(a, b);
    hide *;
    ScanHere([a, b], false, [a, b]);
  }

  lemma FourDigits(s: string)
    requires WellFormed(s)
    ensures |s| == 5 && s[2] == ':' && IsDigit(s[0]) && IsDigit(s[1]) && IsDigit(s[3]) && IsDigit(s[4])
  {
    var d := [s[0], s[1], s[3], s[4]];
    assert d[0] in d && d[1] in d && d[2] in d && d[3] in d;
  }

  lemma MinutesOf(s: string, h: int, m: int)
    requires |s| == 5 && s[2] == ':' && s[0] != ':' && s[1] != ':'
    requires Scan([s[0], s[1]]) == Some(h) && Scan([s[3], s[4]]) == Some(m)
    ensures Minutes(s) == Some(Wrap(h * 60 + m))
  {
    ColonThird(s);
    assert s[..2] == [s[0], s[1]] && s[3..] == [s[3], s[4]];
    hide Scan, Wrap, ColonAt;
  }

  /** Both readings agree on a well-formed time. */
  lemma ReadingsAgree(s: string)
    requires WellFormed(s)
    ensures Minutes(s) == Some(DayMinutes(s))
  {
    FourDigits(s);
    hide WellFormed, Minutes, Wrap;
    var h := ReadPair(s[0], s[1]);
    var m := ReadPair(s[3], s[4]);
    hide *;
    MinutesOf(s, h, m);
    DayMinutesOf(s, h, m);
    SmallWrap(h * 60 + m);
  }

  lemma ReadPair(a: char, b: char) returns (n: nat)
    requires IsDigit(a) && IsDigit(b)
    ensures n == ByteDigit(a) * 10 + ByteDigit(b) && n < 100 && Scan([a, b]) == Some(n) && a != ':' && b != ':'
  {
    ByteDigitIsDigit(a);
    ByteDigitIsDigit(b);
    ScanTwoDigits(a, b);
    n := ByteDigit(a) * 10 + ByteDigit(b);
  }

  lemma DayMinutesOf(s: string, h: nat, m: nat)
    requires |s| == 5 && s[2] == ':'
    requires h == ByteDigit(s[0]) * 10 + ByteDigit(s[1]) && m == ByteDigit(s[3]) * 10 + ByteDigit(s[4])
    ensures DayMinutes(s) == h * 60 + m
  {
  }

  lemma SmallWrap(n: nat)
    requires n < 10_000
    ensures Wrap(n) == n
  {
  }

  lemma ColonThird(s: string)
    requires |s| == 5 && s[2] == ':' && s[0] != ':' && s[1] != ':'
    ensures ColonAt(s) == 2
  {
    assert s[1..][1..] == s[2..];
    assert ColonAt(s[2..]) == 0;
    assert ColonAt(s[1..]) == 1;
  }

  // ---- The two readings of a window -----------------------------------------------------

  predicate Between(m: int, start: int, end: int) {
    if end >= start then start <= m < end else m >= start || m < end
  }

  /** The matcher's test of one period. */
  predicate Matched(p: Period, c: Clock) {
    && c.weekday in p.days
    && Minutes(p.start).Some? && Minutes(p.end).Some?
    && Between(c.nanos / MINUTE, Minutes(p.start).value, Minutes(p.end).value)
  }

  /** The reconciler's test: an end before the start is moved to the next day. */
  predicate Active(p: Period, c: Clock) {
    var start, end := DayMinutes(p.start), DayMinutes(p.end);
    c.weekday in p.days && start * MINUTE <= c.nanos < (if end < start then end + DAY else end) * MINUTE
  }

  predicate AnyMatched(tw: TimeWindow, c: Clock) {
    exists i :: 0 <= i < |tw.periods| && Matched(tw.periods[i], c)
  }

  predicate AnyActive(tw: TimeWindow, c: Clock) {
    exists i :: 0 <= i < |tw.periods| && Active(tw.periods[i], c)
  }

  method InTimeWindow(tw: TimeWindow, now: Instant) returns (r: Result<bool>)
    ensures r == if tw.timezone in now.zones then Ok(AnyMatched(tw, now.zones[tw.timezone])) else Err
  {
    hide Minutes;
    if tw.timezone !in now.zones {
      return Err;
    }
    var local := now.zones[tw.timezone];
    var m := local.nanos / MINUTE;
    for i := 0 to |tw.periods|
      invariant forall k :: 0 <= k < i ==> !Matched(tw.periods[k], local)
    {
      var p := tw.periods[i];
      if local.weekday !in p.days {
        continue;
      }
      var start := Minutes(p.start);
      if start.None? {
        continue;
      }
      var end := Minutes(p.end);
      if end.None? {
        continue;
      }
      var active;
      if end.value >= start.value {
        active := m >= start.value && m < end.value;
      } else {
        active := m >= start.value || m < end.value;
      }
      if active {
        assert Matched(tw.periods[i], local);
        return Ok(true);
      }
    }
    r := Ok(false);
  }

  /** The reconciler reads an unknown timezone as UTC. */
  method IsWindowActive(tw: TimeWindow, now: Instant) returns (active: bool, requeueAfter: int)
    ensures tw.timezone in now.zones ==> active == AnyActive(tw, now.zones[tw.timezone])
    ensures tw.timezone !in now.zones ==> active == AnyActive(tw, now.utc)
    ensures requeueAfter == if active then 0 else 300_000_000_000
  {
    hide DayMinutes;
    var local := if tw.timezone in now.zones then now.zones[tw.timezone] else now.utc;
    for i := 0 to |tw.periods|
      invariant forall k :: 0 <= k < i ==> !Active(tw.periods[k], local)
    {
      var p := tw.periods[i];
      for j := 0 to |p.days|
        invariant local.weekday in p.days[..j] ==> !Active(p, local)
      {
        assert p.days[..j + 1] == p.days[..j] + [p.days[j]];
        if p.days[j] != local.weekday {
          continue;
        }
        var start, end := DayMinutes(p.start) * MINUTE, DayMinutes(p.end) * MINUTE;
        if end < start {
          end := end + DAY * MINUTE;
        }
        if start <= local.nanos && local.nanos < end {
          assert Active(tw.periods[i], local);
          return true, 0;
        }
      }
      assert p.days[..|p.days|] == p.days;
    }
    active, requeueAfter := false, 5 * MINUTE;
  }

  // ---- When they agree ------------------------------------------------------------------

  predicate WellFormedWindow(tw: TimeWindow) {
    forall i :: 0 <= i < |tw.periods| ==> WellFormed(tw.periods[i].start) && WellFormed(tw.periods[i].end)
  }

  /** The early hours of a listed day that a period spanning midnight ends in. */
  predicate EarlyHours(p: Period, c: Clock) {
    c.weekday in p.days && DayMinutes(p.end) < DayMinutes(p.start) && c.nanos / MINUTE < DayMinutes(p.end)
  }

  lemma WholeMinutes(nanos: nat, m: nat)
    ensures m * MINUTE <= nanos <==> m <= nanos / MINUTE
  {
  }

  /** Both parsers read the times alike, as they do every well-formed time. */
  predicate ReadAlike(p: Period) {
    Minutes(p.start) == Some(DayMinutes(p.start)) && Minutes(p.end) == Some(DayMinutes(p.end))
  }

  lemma PeriodAgreesExactly(p: Period, c: Clock)
    requires IsClock(c) && ReadAlike(p)
    ensures Matched(p, c) <==> Active(p, c) || EarlyHours(p, c)
  {
    WholeMinutes(c.nanos, DayMinutes(p.start));
    WholeMinutes(c.nanos, DayMinutes(p.end));
    hide Minutes, DayMinutes, WellFormed;
  }

  /** On windows read alike the matcher is on exactly when the reconciler is, or when some
      period spans midnight on a day it lists and the day's first part is not over. */
  lemma WindowsAgreeExactly(tw: TimeWindow, c: Clock)
    requires IsClock(c) && forall i :: 0 <= i < |tw.periods| ==> ReadAlike(tw.periods[i])
    ensures AnyMatched(tw, c) <==> AnyActive(tw, c) || exists i :: 0 <= i < |tw.periods| && EarlyHours(tw.periods[i], c)
  {
    forall i | 0 <= i < |tw.periods|
      ensures Matched(tw.periods[i], c) <==> Active(tw.periods[i], c) || EarlyHours(tw.periods[i], c)
    {
      PeriodAgreesExactly(tw.periods[i], c);
    }
    hide Matched, Active, EarlyHours;
  }

  /** So the reconciler's reading implies the matcher's, and without a period that spans midnight
      they are the same. */
  lemma WindowAgreement(tw: TimeWindow, c: Clock)
    requires IsClock(c) && WellFormedWindow(tw)
    ensures AnyActive(tw, c) ==> AnyMatched(tw, c)
    ensures (forall i :: 0 <= i < |tw.periods| ==> DayMinutes(tw.periods[i].end) >= DayMinutes(tw.periods[i].start)) ==>
              (AnyActive(tw, c) <==> AnyMatched(tw, c))
  {
    forall i | 0 <= i < |tw.periods|
      ensures ReadAlike(tw.periods[i])
    {
      ReadingsAgree(tw.periods[i].start);
      ReadingsAgree(tw.periods[i].end);
    }
    WindowsAgreeExactly(tw, c);
  }

  /** The minutes of a listed day in which the reconciler finds the period active, from Opens to Closes. */
  function Opens(p: Period): nat {
    DayMinutes(p.start)
  }

  function Closes(p: Period): nat {
    var end := if DayMinutes(p.end) < DayMinutes(p.start) then DayMinutes(p.end) + DAY else DayMinutes(p.end);
    if end > DAY then DAY else end
  }

  /** As each parser reads the times, the reconciler's minutes are empty or among the matcher's. */
  predicate Covered(p: Period) {
    Opens(p) >= Closes(p) ||
    (Minutes(p.start).Some? && Minutes(p.end).Some? &&
     var start, end := Minutes(p.start).value, Minutes(p.end).value;
     if end >= start then start <= Opens(p) && Closes(p) <= end else Closes(p) <= end || start <= Opens(p))
  }

  lemma ActiveMinutes(p: Period, c: Clock)
    requires IsClock(c)
    ensures Active(p, c) <==> c.weekday in p.days && Opens(p) <= c.nanos / MINUTE < Closes(p)
  {
    WholeMinutes(c.nanos, DayMinutes(p.start));
    WholeMinutes(c.nanos, DayMinutes(p.end));
    WholeMinutes(c.nanos, DayMinutes(p.end) + DAY);
    hide DayMinutes;
  }

  /** Whatever the times look like: on a listed day the reconciler's reading implies the matcher's at
      every instant exactly when its minutes are covered. */
  lemma ImpliesExactly(p: Period, day: string)
    requires day in p.days
    ensures (forall nanos: nat :: nanos < DAY * MINUTE && Active(p, Clock(day, nanos)) ==> Matched(p, Clock(day, nanos)))
       <==> Covered(p)
  {
    hide Active, Minutes, DayMinutes;
    if Covered(p) {
      forall nanos: nat | nanos < DAY * MINUTE && Active(p, Clock(day, nanos))
        ensures Matched(p, Clock(day, nanos))
      {
        ActiveMinutes(p, Clock(day, nanos));
      }
    } else {
      var m := UncoveredMinute(p);
      assert m * MINUTE / MINUTE == m;
      ActiveMinutes(p, Clock(day, m * MINUTE));
      assert !Matched(p, Clock(day, m * MINUTE));
    }
  }

  lemma UncoveredMinute(p: Period) returns (m: nat)
    requires !Covered(p)
    ensures Opens(p) <= m < Closes(p) <= DAY
    ensures !(Minutes(p.start).Some? && Minutes(p.end).Some? && Between(m, Minutes(p.start).value, Minutes(p.end).value))
  {
    hide Minutes, DayMinutes;
    m := Opens(p);
    if Minutes(p.start).Some? && Minutes(p.end).Some? && Between(m, Minutes(p.start).value, Minutes(p.end).value) {
      var start, end := Minutes(p.start).value, Minutes(p.end).value;
      m := if end >= start then Closes(p) - 1 else end;
    }
  }

  /** As each parser reads the times, the matcher's minutes are among the reconciler's: for a period
      within a day its one stretch, for one that spans midnight the early and the late one. */
  predicate CoveredBack(p: Period) {
    Minutes(p.start).None? || Minutes(p.end).None? ||
    var start, end := Minutes(p.start).value, Minutes(p.end).value;
    if end >= start then StretchCovered(p, start, end) else StretchCovered(p, 0, end) && StretchCovered(p, start, DAY)
  }

  /** The part of that stretch within the day is empty or within the reconciler's minutes. */
  predicate StretchCovered(p: Period, from: int, to: int) {
    var first, last := if from < 0 then 0 else from, if to > DAY then DAY else to;
    first >= last || (Opens(p) <= first && last <= Closes(p))
  }

  lemma UncoveredInStretch(p: Period, from: int, to: int) returns (m: nat)
    requires !StretchCovered(p, from, to)
    ensures m < DAY && from <= m < to && !(Opens(p) <= m < Closes(p))
  {
    hide Opens, Closes;
    var first, last := if from < 0 then 0 else from, if to > DAY then DAY else to;
    m := if Opens(p) <= first then last - 1 else first;
  }

  lemma UncoveredBackMinute(p: Period) returns (m: nat)
    requires !CoveredBack(p)
    ensures m < DAY && !(Opens(p) <= m < Closes(p))
    ensures Minutes(p.start).Some? && Minutes(p.end).Some? && Between(m, Minutes(p.start).value, Minutes(p.end).value)
  {
    hide Minutes, Opens, Closes;
    var start, end := Minutes(p.start).value, Minutes(p.end).value;
    if end >= start {
      m := UncoveredInStretch(p, start, end);
    } else if !StretchCovered(p, 0, end) {
      m := UncoveredInStretch(p, 0, end);
    } else {
      m := UncoveredInStretch(p, start, DAY);
    }
  }

  lemma CoveredBackMinute(p: Period, m: nat)
    requires CoveredBack(p) && m < DAY && Minutes(p.start).Some? && Minutes(p.end).Some?
    requires Between(m, Minutes(p.start).value, Minutes(p.end).value)
    ensures Opens(p) <= m < Closes(p)
  {
    hide Minutes, Opens, Closes;
  }

  /** And the matcher's reading implies the reconciler's exactly when its minutes are covered. */
  lemma ImpliedExactly(p: Period, day: string)
    requires day in p.days
    ensures (forall nanos: nat :: nanos < DAY * MINUTE && Matched(p, Clock(day, nanos)) ==> Active(p, Clock(day, nanos)))
       <==> CoveredBack(p)
  {
    hide Active, Minutes, Opens, Closes, CoveredBack, Between;
    if CoveredBack(p) {
      forall nanos: nat | nanos < DAY * MINUTE && Matched(p, Clock(day, nanos))
        ensures Active(p, Clock(day, nanos))
      {
        ActiveMinutes(p, Clock(day, nanos));
        CoveredBackMinute(p, nanos / MINUTE);
      }
    } else {
      var m := UncoveredBackMinute(p);
      assert m * MINUTE / MINUTE == m;
      ActiveMinutes(p, Clock(day, m * MINUTE));
      assert Matched(p, Clock(day, m * MINUTE));
    }
  }

  /** The two readings of a period are the same at every instant of a listed day exactly when each
      covers the other's minutes. */
  lemma SameExactly(p: Period, day: string)
    requires day in p.days
    ensures (forall nanos: nat :: nanos < DAY * MINUTE ==> (Matched(p, Clock(day, nanos)) <==> Active(p, Clock(day, nanos))))
       <==> Covered(p) && CoveredBack(p)
  {
    ImpliesExactly(p, day);
    ImpliedExactly(p, day);
    hide Covered, CoveredBack, Matched, Active;
  }

  lemma ReadTwoDigits(s: string, a: nat, b: nat, c: nat, d: nat)
    requires a < 10 && b < 10 && c < 10 && d < 10 && s == [Digit(a), Digit(b), ':', Digit(c), Digit(d)]
    ensures WellFormed(s) && DayMinutes(s) == (a * 10 + b) * 60 + c * 10 + d
  {
    DigitIsByteDigit(a);
    DigitIsByteDigit(b);
    DigitIsByteDigit(c);
    DigitIsByteDigit(d);
    hide Digit, ByteDigit;
  }

  lemma DigitIsByteDigit(n: nat)
    requires n < 10
    ensures ByteDigit(Digit(n)) == n && IsDigit(Digit(n))
  {
  }

  /** Early in a day that a night period lists, the rule suppresses but does not resolve. */
  lemma NightPeriodDisagrees(day: string, nanos: nat)
    requires nanos < 360 * MINUTE
    ensures var p := Period("22:00", "06:00", [day]);
            Matched(p, Clock(day, nanos)) && !Active(p, Clock(day, nanos))
  {
    var p := Period("22:00", "06:00", [day]);
    ReadTwoDigits(p.start, 2, 2, 0, 0);
    ReadTwoDigits(p.end, 0, 6, 0, 0);
    hide WellFormed, DayMinutes, Matched;
    ReadingsAgree(p.start);
    ReadingsAgree(p.end);
    WholeMinutes(nanos, 360);
    assert day in p.days;
    PeriodAgreesExactly(p, Clock(day, nanos));
  }

  lemma ReadOneDigitHour()
    ensures Minutes("9:00") == Some(540) && DayMinutes("9:00") == 0
  {
    var s := "9:00";
    assert s[..1] == [s[0]] && s[2..] == [s[2], s[3]];
    assert ColonAt(s[1..]) == 0;
    DigitIsByteDigit(0);
    DigitIsByteDigit(9);
    ScanTwoDigits(Digit(0), Digit(0));
    ScanOneDigit(Digit(9));
    SmallWrap(540);
    hide Scan, Wrap, ByteDigit;
  }

  lemma ScanOneDigit(a: char)
    requires IsDigit(a)
    ensures Scan([a]) == Some(ByteDigit(a))
  {
    OneDigit(a);
    hide *;
    ScanSigned("", [a], "");
    assert "" + ([a] + "") == [a];
  }

  lemma OneDigit(a: char)
    requires IsDigit(a)
    ensures AllDigits([a]) && Value([a]) == ByteDigit(a) < 256
  {
    ByteDigitIsDigit(a);
    DigitRoundTrip(a);
    ValueStep([], DigitValue(a));
    hide ByteDigit, DigitValue, Digit;
    assert [] + [a] == [a] && Value([]) == 0;
  }

  lemma SeventeenHundred(s: string)
    requires s == "17:00"
    ensures Minutes(s) == Some(1020) && DayMinutes(s) == 1020
  {
    hide Minutes, WellFormed, DayMinutes;
    ReadTwoDigits(s, 1, 7, 0, 0);
    ReadingsAgree(s);
  }

  /** Without two-digit hours the implication fails: the reconciler reads midnight. */
  lemma MalformedStartDisagrees(day: string, nanos: nat)
    requires nanos < 540 * MINUTE
    ensures var p := Period("9:00", "17:00", [day]);
            Active(p, Clock(day, nanos)) && !Matched(p, Clock(day, nanos))
  {
    var p := Period("9:00", "17:00", [day]);
    SeventeenHundred(p.end);
    hide Minutes, DayMinutes;
    ReadOneDigitHour();
    WholeMinutes(nanos, 540);
    assert day in p.days;
  }

  // ---- What is read, in full ------------------------------------------------------------

  /** Every two-digit hour and minute reads back as itself, in both readings. */
  lemma TimesReadBack(a: nat, b: nat, c: nat, d: nat)
    requires a < 10 && b < 10 && c < 10 && d < 10
    ensures var s := [Digit(a), Digit(b), ':', Digit(c), Digit(d)];
      DayMinutes(s) == (10 * a + b) * 60 + 10 * c + d && Minutes(s) == Some((10 * a + b) * 60 + 10 * c + d)
  {
    hide *;
    var s := [Digit(a), Digit(b), ':', Digit(c), Digit(d)];
    ReadTwoDigits(s, a, b, c, d);
    ReadingsAgree(s);
  }

  /** For the reconciler a time of another shape is midnight, and whatever stands for a digit counts by
      its byte's distance from zero, wrapped. */
  lemma DayMinutesInFull(s: string)
    ensures |s| != 5 || s[2] != ':' ==> DayMinutes(s) == 0
    ensures |s| == 5 && s[2] == ':' ==>
              DayMinutes(s) == 600 * ByteDigit(s[0]) + 60 * ByteDigit(s[1]) + 10 * ByteDigit(s[3]) + ByteDigit(s[4])
  {
    hide ByteDigit;
  }

  lemma ByteDigitExactly(c: char)
    requires c < 256 as char
    ensures ByteDigit(c) == if c < '0' then c as int + 208 else c as int - 48
  {
  }

  /** Integers of the machine: 64 bits, two's complement. */
  lemma WrapExactly(n: int)
    ensures -0x8000_0000_0000_0000 <= Wrap(n) < 0x8000_0000_0000_0000
    ensures (Wrap(n) - n) % 0x1_0000_0000_0000_0000 == 0
  {
  }

  lemma {:induction false} DigitsEnd(digits: string, rest: string)
    requires AllDigits(digits) && (rest == "" || !IsDigit(rest[0]))
    ensures DigitPrefix(digits + rest) == digits
  {
    var s := digits + rest;
    if digits == "" {
      assert s == rest;
    } else {
      assert s[0] == digits[0] && s[1..] == digits[1..] + rest;
      assert digits[0] in digits;
      DigitsEnd(digits[1..], rest);
      assert digits == [digits[0]] + digits[1..];
    }
  }

  predicate Blank(s: string) {
    forall c :: c in s ==> c in [' ', '\t', 11 as char, 12 as char, '\r']
  }

  lemma {:induction false} ScanSkips(spaces: string, s: string)
    requires Blank(spaces)
    ensures Scan(spaces + s) == Scan(s)
  {
    if spaces == "" {
      assert spaces + s == s;
    } else {
      var all := spaces + s;
      assert all[0] == spaces[0] && spaces[0] in spaces;
      assert all[1..] == spaces[1..] + s;
      assert forall c :: c in spaces[1..] ==> c in spaces;
      ScanSkips(spaces[1..], s);
    }
  }

  lemma SignIsNoSpace(sign: string, rest: string)
    requires (sign == "" || sign == "+" || sign == "-") && rest != "" && IsDigit(rest[0])
    ensures !IsSpace((sign + rest)[0]) && (sign == "" ==> rest[0] != '-' && rest[0] != '+')
    ensures sign != "" ==> (sign + rest)[1..] == rest && (sign + rest)[0] == sign[0]
  {
  }

  /** The matcher reads blanks, a sign, digits and whatever follows them, unless the number leaves the
      machine's range. */
  lemma ScanExactly(spaces: string, sign: string, digits: string, rest: string)
    requires Blank(spaces) && (sign == "" || sign == "+" || sign == "-") && AllDigits(digits) && digits != ""
    requires rest == "" || !IsDigit(rest[0])
    ensures var n: int := if sign == "-" then -(Value(digits) as int) else Value(digits);
      Scan(spaces + (sign + (digits + rest)))
        == if -0x8000_0000_0000_0000 <= n < 0x8000_0000_0000_0000 then Some(n) else None
  {
    ScanSkips(spaces, sign + (digits + rest));
    ScanSigned(sign, digits, rest);
    hide *;
  }

  lemma ScanSigned(sign: string, digits: string, rest: string)
    requires (sign == "" || sign == "+" || sign == "-") && AllDigits(digits) && digits != "" && (rest == "" || !IsDigit(rest[0]))
    ensures var n: int := if sign == "-" then -(Value(digits) as int) else Value(digits);
      Scan(sign + (digits + rest)) == if -0x8000_0000_0000_0000 <= n < 0x8000_0000_0000_0000 then Some(n) else None
  {
    hide *;
    DigitsEnd(digits, rest);
    StartsWithDigit(digits, rest);
    SignIsNoSpace(sign, digits + rest);
    var s := sign + (digits + rest);
    if sign == "" {
      assert s == digits + rest;
      ScanHere(s, false, digits + rest);
    } else {
      ScanHere(s, sign == "-", digits + rest);
    }
  }

  lemma StartsWithDigit(digits: string, rest: string)
    requires AllDigits(digits) && digits != ""
    ensures digits + rest != "" && IsDigit((digits + rest)[0])
  {
    assert digits[0] in digits;
  }

  /** Reading starts at a character that is no blank. */
  lemma ScanHere(s: string, negative: bool, tail: string)
    requires s != "" && !IsSpace(s[0]) && negative == (s[0] == '-')
    requires tail == if s[0] == '-' || s[0] == '+' then s[1..] else s
    ensures var digits := DigitPrefix(tail);
      var n: int := if negative then -(Value(digits) as int) else Value(digits);
      Scan(s) == if digits == "" || !(-0x8000_0000_0000_0000 <= n < 0x8000_0000_0000_0000) then None else Some(n)
  {
    hide DigitPrefix, Value, IsSpace;
  }

  /** And nothing when no digit comes next. */
  lemma ScanNeedsDigit(spaces: string, sign: string, rest: string)
    requires Blank(spaces) && (sign == "+" || sign == "-") && (rest == "" || !IsDigit(rest[0]))
    ensures Scan(spaces + (sign + rest)) == None
  {
    ScanSkips(spaces, sign + rest);
    assert (sign + rest)[1..] == rest;
    DigitsEnd("", rest);
    assert "" + rest == rest;
  }

  lemma {:induction false} ColonEnds(a: string, b: string)
    requires ':' !in a
    ensures ColonAt(a + ":" + b) == |a| && ColonAt(a) == |a|
  {
    if a == "" {
      assert a + ":" + b == ":" + b;
    } else {
      assert (a + ":" + b)[1..] == a[1..] + ":" + b;
      ColonEnds(a[1..], b);
    }
  }

  /** The matcher's time is an hour before the first colon and a minute after it. */
  lemma MinutesInFull(a: string, b: string)
    requires ':' !in a
    ensures Minutes(a) == None
    ensures Minutes(a + ":" + b) == if Scan(a).Some? && Scan(b).Some? then Some(Wrap(60 * Scan(a).value + Scan(b).value)) else None
  {
    hide Scan, Wrap;
    ColonEnds(a, b);
    hide ColonAt;
    AroundColon(a, b);
  }

  lemma AroundColon(a: string, b: string)
    ensures (a + ":" + b)[..|a|] == a && (a + ":" + b)[|a| + 1..] == b && |a| < |a + ":" + b|
  {
  }

  /** A window is on, for the matcher, when on a listed day the minute is from the start of a period up
      to its end, or outside the hours from end to start when the end comes first; for the reconciler,
      when the time is from the start up to the end, which is then a day later. */
  lemma WindowsInFull(tw: TimeWindow, c: Clock)
    ensures AnyMatched(tw, c) <==>
      exists i :: 0 <= i < |tw.periods| && c.weekday in tw.periods[i].days
        && Minutes(tw.periods[i].start).Some? && Minutes(tw.periods[i].end).Some?
        && var m, start, end := c.nanos / 60_000_000_000, Minutes(tw.periods[i].start).value, Minutes(tw.periods[i].end).value;
           if start <= end then start <= m < end else !(end <= m < start)
    ensures AnyActive(tw, c) <==>
      exists i :: 0 <= i < |tw.periods| && c.weekday in tw.periods[i].days
        && var start, end := DayMinutes(tw.periods[i].start), DayMinutes(tw.periods[i].end);
           60_000_000_000 * start <= c.nanos < 60_000_000_000 * if start <= end then end else end + 24 * 60
  {
    hide Minutes, DayMinutes;
  }
}
