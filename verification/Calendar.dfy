/** Calendar export: expands weekly meetings into dated events (RFC 5545).
    Days are counted from 1 January 1970; midnight(d) is the instant at which day d begins
    in the university's time zone, in seconds. */
module Calendar {
  import opened Bytes
  import opened Decimal

  datatype Meeting = Meeting(
    sectionId: nat, courseCode: string, sectionName: string, location: Option<string>,
    startDate: int, endDate: int, startSeconds: int, endSeconds: int, hasDay: seq<bool>)

  datatype Event = Event(groupId: nat, summary: string, start: int, end: int, location: string)

  ghost predicate Increasing(midnight: int -> int) {
    forall a, b :: a < b ==> midnight(a) < midnight(b)
  }

  // Sunday is 0; 1 January 1970 was a Thursday.
  function Weekday(day: int): (w: nat)
    ensures w < 7
  {
    (day + 4) % 7
  }

  // ----- weekday patterns -----

  const WEEKDAY_CODES := ["M", "T", "W", "Th", "F", "S", "Su"]

  // The dayToIndex map; a missing key reads as zero.
  function DayIndex(day: string): (w: nat)
    ensures w < 7
  {
    if day == "M" then 1 else if day == "T" then 2 else if day == "W" then 3 else if day == "Th" then 4
    else if day == "F" then 5 else if day == "S" then 6 else 0
  }

  function FlaggedCodes(weekdays: string, n: nat): seq<string>
    requires n <= |weekdays|
  {
    if n == 0 then []
    else FlaggedCodes(weekdays, n - 1) +
         if weekdays[n - 1] == 'Y' && n <= 7 then [WEEKDAY_CODES[n - 1]] else []
  }

  method ParseWeekdayString(weekdays: string) returns (days: seq<string>)
    requires forall i :: 7 <= i < |weekdays| ==> weekdays[i] != 'Y'
    ensures days == FlaggedCodes(weekdays, |weekdays|)
  {
    days := [];
    var i := 0;
    while i < |weekdays|
      invariant i <= |weekdays| && days == FlaggedCodes(weekdays, i)
    {
      if weekdays[i] == 'Y' {
        days := days + [WEEKDAY_CODES[i]];
      }
      i := i + 1;
    }
  }

  // HasDay[x] is true if the meeting occurs on weekday x
  method MarkDays(days: seq<string>) returns (hasDay: seq<bool>)
    ensures |hasDay| == 7
    ensures forall w :: 0 <= w < 7 ==> (hasDay[w] <==> HasCode(days, w))
  {
    hide DayIndex, HasCode;
    hasDay := [false, false, false, false, false, false, false];
    forall w | 0 <= w < 7
      ensures !HasCode([], w)
    {
      NoCodes(w);
    }
    for i := 0 to |days|
      invariant |hasDay| == 7
      invariant forall w :: 0 <= w < 7 ==> (hasDay[w] <==> HasCode(days[..i], w))
    {
      var day := days[i];
      assert days[..i + 1] == days[..i] + [day];
      ghost var before := hasDay;
      hasDay := hasDay[DayIndex(day) := true];
      forall w | 0 <= w < 7
        ensures hasDay[w] <==> HasCode(days[..i + 1], w)
      {
        assert before[w] <==> HasCode(days[..i], w);
        HasCodeSnoc(days[..i], day, w);
      }
    }
    assert days[..|days|] == days;
  }

  // The bit of a "YNYNNNN" pattern, which starts on Monday, for a weekday, which starts on Sunday.
  predicate PatternHas(weekdays: string, w: nat) {
    (w + 6) % 7 < |weekdays| && weekdays[(w + 6) % 7] == 'Y'
  }

  ghost predicate HasCode(codes: seq<string>, w: nat) {
    exists k :: 0 <= k < |codes| && DayIndex(codes[k]) == w
  }

  lemma HasCodeSnoc(codes: seq<string>, last: string, w: nat)
    ensures HasCode(codes + [last], w) <==> HasCode(codes, w) || DayIndex(last) == w
  {
    hide DayIndex;
    var all := codes + [last];
    assert all[|codes|] == last;
    assert forall k :: 0 <= k < |codes| ==> all[k] == codes[k];
  }

  lemma {:induction false} FlaggedCodesHold(weekdays: string, n: nat, w: nat)
    requires n <= |weekdays| && w < 7
    ensures HasCode(FlaggedCodes(weekdays, n), w) <==> (w + 6) % 7 < n && weekdays[(w + 6) % 7] == 'Y'
  {
    hide HasCode, DayIndex;
    if n == 0 {
      assert !HasCode([], w) by {
        NoCodes(w);
      }
    } else {
      FlaggedCodesHold(weekdays, n - 1, w);
      if weekdays[n - 1] == 'Y' && n <= 7 {
        CodeIndex(n - 1);
        assert n % 7 == w <==> (w + 6) % 7 == n - 1;
        HasCodeSnoc(FlaggedCodes(weekdays, n - 1), WEEKDAY_CODES[n - 1], w);
      } else {
        assert FlaggedCodes(weekdays, n) == FlaggedCodes(weekdays, n - 1);
      }
    }
  }

  lemma NoCodes(w: nat)
    ensures !HasCode([], w)
  {
  }

  lemma CodeIndex(i: nat)
    requires i < 7
    ensures DayIndex(WEEKDAY_CODES[i]) == (i + 1) % 7
  {
  }

  /** From pattern to weekdays: a meeting has exactly the days that its pattern flags. */
  method DaysOfPattern(weekdays: string) returns (hasDay: seq<bool>)
    requires forall i :: 7 <= i < |weekdays| ==> weekdays[i] != 'Y'
    ensures |hasDay| == 7 && forall w :: 0 <= w < 7 ==> (hasDay[w] <==> PatternHas(weekdays, w))
  {
    var days := ParseWeekdayString(weekdays);
    hasDay := MarkDays(days);
    forall w: nat | w < 7
      ensures hasDay[w] <==> PatternHas(weekdays, w)
    {
      FlaggedCodesHold(weekdays, |weekdays|, w);
    }
  }

  // ----- events -----

  // The dates in [lo, hi) on flagged weekdays.
  function Dates(hasDay: seq<bool>, lo: int, hi: int): seq<int>
    requires |hasDay| == 7
    decreases hi - lo
  {
    if hi <= lo then []
    else Dates(hasDay, lo, hi - 1) + if hasDay[Weekday(hi - 1)] then [hi - 1] else []
  }

  function EventOn(m: Meeting, day: int, midnight: int -> int): Event {
    Event(m.sectionId,
          Upper(m.courseCode) + " - " + m.sectionName,
          midnight(day) + m.startSeconds,
          midnight(day) + m.endSeconds,
          if m.location.Some? then m.location.value else "Unknown")
  }

  function UpperChar(c: char): char {
    if IsLower(c) then c - 'a' + 'A' else c
  }

  function Upper(s: string): string {
    seq(|s|, i requires 0 <= i < |s| => UpperChar(s[i]))
  }

  function EventsOn(m: Meeting, days: seq<int>, midnight: int -> int): (r: seq<Event>)
    ensures |r| == |days|
  {
    seq(|days|, i requires 0 <= i < |days| => EventOn(m, days[i], midnight))
  }

  function EventsOf(m: Meeting, midnight: int -> int): seq<Event>
    requires |m.hasDay| == 7
  {
    EventsOn(m, Dates(m.hasDay, m.startDate, m.endDate + 1), midnight)
  }

  ghost predicate AllDays(ms: seq<Meeting>) {
    forall i :: 0 <= i < |ms| ==> |ms[i].hasDay| == 7
  }

  function AllEvents(ms: seq<Meeting>, n: nat, midnight: int -> int): seq<Event>
    requires AllDays(ms) && n <= |ms|
  {
    if n == 0 then [] else AllEvents(ms, n - 1, midnight) + EventsOf(ms[n - 1], midnight)
  }

  lemma DatesStep(hasDay: seq<bool>, lo: int, day: int)
    requires |hasDay| == 7 && lo <= day
    ensures Dates(hasDay, lo, day + 1) ==
            if hasDay[Weekday(day)] then Dates(hasDay, lo, day) + [day] else Dates(hasDay, lo, day)
  {
  }

  lemma EventsSnoc(m: Meeting, days: seq<int>, day: int, midnight: int -> int)
    ensures EventsOn(m, days + [day], midnight) == EventsOn(m, days, midnight) + [EventOn(m, day, midnight)]
  {
  }

  /** postgresToWebcalEvents */
  method ToWebcalEvents(events: seq<Meeting>, midnight: int -> int) returns (r: seq<Event>)
    requires AllDays(events) && Increasing(midnight)
    ensures r == AllEvents(events, |events|, midnight)
  {
    hide EventOn, Weekday, Dates, EventsOn;
    r := [];
    for k := 0 to |events|
      invariant r == AllEvents(events, k, midnight)
    {
      var m := events[k];
      ghost var before := r;
      NoEvents(m, midnight);
      var date := m.startDate;
      while midnight(date) <= midnight(m.endDate)
        invariant m.startDate <= date
        invariant m.startDate < date ==> date <= m.endDate + 1
        invariant r == before + EventsOn(m, Dates(m.hasDay, m.startDate, date), midnight)
        decreases m.endDate - date
      {
        assert date <= m.endDate;
        DatesStep(m.hasDay, m.startDate, date);
        if m.hasDay[Weekday(date)] {
          EventsSnoc(m, Dates(m.hasDay, m.startDate, date), date, midnight);
          r := r + [EventOn(m, date, midnight)];
        }
        date := date + 1;
      }
      assert m.endDate < date;
      assert r == before + EventsOf(m, midnight);
    }
  }

  lemma NoEvents(m: Meeting, midnight: int -> int)
    requires |m.hasDay| == 7
    ensures EventsOn(m, Dates(m.hasDay, m.startDate, m.startDate), midnight) == []
    ensures m.endDate < m.startDate ==>
            Dates(m.hasDay, m.startDate, m.endDate + 1) == Dates(m.hasDay, m.startDate, m.startDate)
  {
  }

  /** Events exist on exactly the flagged dates of the range, in increasing order. */
  lemma {:induction false} DatesAre(hasDay: seq<bool>, lo: int, hi: int)
    requires |hasDay| == 7
    ensures forall d :: d in Dates(hasDay, lo, hi) <==> lo <= d < hi && hasDay[Weekday(d)]
    ensures forall i, j ::
              0 <= i < j < |Dates(hasDay, lo, hi)| ==> Dates(hasDay, lo, hi)[i] < Dates(hasDay, lo, hi)[j]
    decreases hi - lo
  {
    hide Weekday;
    if lo < hi {
      DatesAre(hasDay, lo, hi - 1);
      var init := Dates(hasDay, lo, hi - 1);
      assert forall i :: 0 <= i < |init| ==> init[i] in init;
    }
  }

  // ----- whole weeks -----

  function Flag(b: bool): nat {
    if b then 1 else 0
  }

  function DaysFlagged(hasDay: seq<bool>): nat
    requires |hasDay| == 7
  {
    Flag(hasDay[0]) + Flag(hasDay[1]) + Flag(hasDay[2]) + Flag(hasDay[3]) +
    Flag(hasDay[4]) + Flag(hasDay[5]) + Flag(hasDay[6])
  }

  lemma CountStep(hasDay: seq<bool>, lo: int, i: nat)
    requires |hasDay| == 7
    ensures Weekday(lo + i) == (Weekday(lo) + i) % 7
    ensures |Dates(hasDay, lo, lo + (i + 1))| == |Dates(hasDay, lo, lo + i)| + FlagAt(hasDay, Weekday(lo) + i)
  {
    assert lo + i + 1 == lo + (i + 1);
    DatesStep(hasDay, lo, lo + i);
  }

  function FlagAt(hasDay: seq<bool>, w: nat): nat
    requires |hasDay| == 7
  {
    Flag(hasDay[w % 7])
  }

  lemma WeekLater(hasDay: seq<bool>, w: nat)
    requires |hasDay| == 7
    ensures FlagAt(hasDay, w + 7) == FlagAt(hasDay, w)
  {
  }

  lemma {:induction false} Rotated(hasDay: seq<bool>, w: nat)
    requires |hasDay| == 7
    ensures FlagAt(hasDay, w) + FlagAt(hasDay, w + 1) + FlagAt(hasDay, w + 2) + FlagAt(hasDay, w + 3) +
            FlagAt(hasDay, w + 4) + FlagAt(hasDay, w + 5) + FlagAt(hasDay, w + 6) == DaysFlagged(hasDay)
  {
    if w > 0 {
      hide FlagAt, DaysFlagged;
      Rotated(hasDay, w - 1);
      WeekLater(hasDay, w - 1);
    }
  }

  lemma OneWeek(hasDay: seq<bool>, lo: int)
    requires |hasDay| == 7
    ensures |Dates(hasDay, lo, lo + 7)| == DaysFlagged(hasDay)
  {
    var w := Weekday(lo);
    assert |Dates(hasDay, lo, lo + 0)| == 0;
    hide Dates, Weekday, FlagAt, DaysFlagged;
    CountStep(hasDay, lo, 0);
    CountStep(hasDay, lo, 1);
    CountStep(hasDay, lo, 2);
    CountStep(hasDay, lo, 3);
    CountStep(hasDay, lo, 4);
    CountStep(hasDay, lo, 5);
    CountStep(hasDay, lo, 6);
    Rotated(hasDay, w);
  }

  lemma {:induction false} DatesSplit(hasDay: seq<bool>, lo: int, mid: int, hi: int)
    requires |hasDay| == 7 && lo <= mid <= hi
    ensures Dates(hasDay, lo, hi) == Dates(hasDay, lo, mid) + Dates(hasDay, mid, hi)
    decreases hi - mid
  {
    hide Weekday;
    if mid < hi {
      DatesSplit(hasDay, lo, mid, hi - 1);
    }
  }

  lemma TimesStep(k: nat, n: nat)
    requires k > 0
    ensures (k - 1) * n + n == k * n
  {
  }

  /** k whole weeks hold k times the flagged days, whichever day they begin on. */
  lemma {:induction false} WholeWeeks(hasDay: seq<bool>, lo: int, k: nat)
    requires |hasDay| == 7
    ensures |Dates(hasDay, lo, lo + 7 * k)| == k * DaysFlagged(hasDay)
  {
    assert k == 0 ==> Dates(hasDay, lo, lo + 7 * k) == [];
    hide DaysFlagged, Dates;
    if k > 0 {
      var mid := lo + 7 * (k - 1);
      WholeWeeks(hasDay, lo, k - 1);
      DatesSplit(hasDay, lo, mid, mid + 7);
      OneWeek(hasDay, mid);
      assert mid + 7 == lo + 7 * k;
      TimesStep(k, DaysFlagged(hasDay));
    }
  }

  // ----- what an event says -----

  /** 1 January 1970 was a Thursday, and every day is followed by the next weekday. */
  lemma WeekdayIs(day: int)
    ensures Weekday(0) == 4
    ensures Weekday(day + 1) == if Weekday(day) == 6 then 0 else Weekday(day) + 1
    ensures Weekday(19655) == 3
  {
  }

  /** An event of a date starts and ends the meeting's seconds after the midnight that begins the date. */
  lemma EventReads(m: Meeting, day: int, midnight: int -> int)
    ensures var e := EventOn(m, day, midnight);
            && e.groupId == m.sectionId
            && e.start - midnight(day) == m.startSeconds && e.end - midnight(day) == m.endSeconds
            && (m.location.Some? ==> e.location == m.location.value) && (m.location.None? ==> e.location == "Unknown")
            && |e.summary| == |m.courseCode| + 3 + |m.sectionName|
            && (forall i :: 0 <= i < |m.courseCode| && IsLower(m.courseCode[i]) ==>
                  IsUpper(e.summary[i]) && LowerChar(e.summary[i]) == m.courseCode[i])
            && (forall i :: 0 <= i < |m.courseCode| && !IsLower(m.courseCode[i]) ==> e.summary[i] == m.courseCode[i])
            && e.summary[|m.courseCode|..] == " - " + m.sectionName
  {
    var code := Upper(m.courseCode);
    assert forall i :: 0 <= i < |code| ==> (code + " - " + m.sectionName)[i] == code[i];
    assert (code + " - " + m.sectionName)[|code|..] == " - " + m.sectionName;
  }

  /** The example of the source, and the code of every weekday. */
  lemma PatternExamples()
    ensures FlaggedCodes("NYNYNNN", 7) == ["T", "Th"]
    ensures FlaggedCodes("YYYYYYY", 7) == ["M", "T", "W", "Th", "F", "S", "Su"]
  {
    var s, t := "NYNYNNN", "YYYYYYY";
    assert FlaggedCodes(s, 0) == [] && FlaggedCodes(s, 1) == [] && FlaggedCodes(s, 2) == ["T"];
    assert FlaggedCodes(s, 3) == ["T"] && FlaggedCodes(s, 4) == ["T", "Th"] && FlaggedCodes(s, 5) == ["T", "Th"];
    assert FlaggedCodes(s, 6) == ["T", "Th"];
    assert FlaggedCodes(t, 0) == [] && FlaggedCodes(t, 1) == ["M"] && FlaggedCodes(t, 2) == ["M", "T"];
    assert FlaggedCodes(t, 3) == ["M", "T", "W"] && FlaggedCodes(t, 4) == ["M", "T", "W", "Th"];
    assert FlaggedCodes(t, 5) == ["M", "T", "W", "Th", "F"] && FlaggedCodes(t, 6) == ["M", "T", "W", "Th", "F", "S"];
  }

  // ----- end times -----

  // Every event of the meeting ends after it starts.
  ghost predicate AllEndLater(m: Meeting, midnight: int -> int)
    requires |m.hasDay| == 7
  {
    forall i :: 0 <= i < |EventsOf(m, midnight)| ==> EventsOf(m, midnight)[i].start < EventsOf(m, midnight)[i].end
  }

  // A date of the meeting's range falls on one of its days.
  ghost predicate TakesPlace(m: Meeting)
    requires |m.hasDay| == 7
  {
    exists d :: m.startDate <= d <= m.endDate && m.hasDay[Weekday(d)]
  }

  /** DTEND is later than DTSTART (section 3.8.2.2 of RFC 5545) for every event of a meeting exactly when
      the meeting's end is later than its start, or no date of its range falls on one of its days. */
  lemma EndAfterStart(m: Meeting, midnight: int -> int)
    requires |m.hasDay| == 7
    ensures AllEndLater(m, midnight) <==> m.startSeconds < m.endSeconds || !TakesPlace(m)
  {
    hide Dates, Weekday;
    var dates := Dates(m.hasDay, m.startDate, m.endDate + 1);
    DatesAre(m.hasDay, m.startDate, m.endDate + 1);
    assert dates != [] ==> dates[0] in dates;
    if TakesPlace(m) {
      var d :| m.startDate <= d <= m.endDate && m.hasDay[Weekday(d)];
      assert d in dates;
      assert EventsOf(m, midnight)[0].end - EventsOf(m, midnight)[0].start == m.endSeconds - m.startSeconds;
    }
  }

  /** The importer stores 0 and 0 for a meeting without times: its events do not end after they start. */
  lemma UntimedMeetingEndsAtStart(midnight: int -> int)
    ensures var m := Meeting(1, "cs135", "LEC 001", None, 3, 3, 0, 0, [true, true, true, true, true, true, true]);
            !AllEndLater(m, midnight)
  {
    var m := Meeting(1, "cs135", "LEC 001", None, 3, 3, 0, 0, [true, true, true, true, true, true, true]);
    assert m.startDate <= 3 <= m.endDate && m.hasDay[Weekday(3)];
    EndAfterStart(m, midnight);
  }

  // ----- from patterns to events -----

  // Day d of the range of meeting i is flagged by its pattern.
  ghost predicate Flagged(ms: seq<Meeting>, patterns: seq<string>, i: int, d: int) {
    0 <= i < |ms| && i < |patterns| && ms[i].startDate <= d <= ms[i].endDate && PatternHas(patterns[i], Weekday(d))
  }

  ghost predicate HasDaysOf(m: Meeting, weekdays: string) {
    |m.hasDay| == 7 && forall w :: 0 <= w < 7 ==> (m.hasDay[w] <==> PatternHas(weekdays, w))
  }

  ghost predicate AllHaveDays(ms: seq<Meeting>, patterns: seq<string>) {
    |ms| == |patterns| && forall i :: 0 <= i < |ms| ==> HasDaysOf(ms[i], patterns[i])
  }

  lemma {:induction false} EventsOfPattern(m: Meeting, weekdays: string, midnight: int -> int, e: Event)
    requires HasDaysOf(m, weekdays)
    ensures e in EventsOf(m, midnight) <==>
            exists d :: m.startDate <= d <= m.endDate && PatternHas(weekdays, Weekday(d))
              && e == EventOn(m, d, midnight)
  {
    hide Dates, Weekday, EventOn, PatternHas;
    var dates, events := Dates(m.hasDay, m.startDate, m.endDate + 1), EventsOf(m, midnight);
    DatesAre(m.hasDay, m.startDate, m.endDate + 1);
    if e in events {
      var k :| 0 <= k < |events| && events[k] == e;
      assert dates[k] in dates;
    }
    if d :| m.startDate <= d <= m.endDate && PatternHas(weekdays, Weekday(d)) && e == EventOn(m, d, midnight) {
      assert d in dates;
      var k :| 0 <= k < |dates| && dates[k] == d;
      assert events[k] == e;
    }
  }

  /** The calendar has exactly the events of each meeting and each date of its range that its pattern flags. */
  lemma {:induction false} EventsOfPatterns(
    ms: seq<Meeting>, patterns: seq<string>, n: nat, midnight: int -> int, e: Event)
    requires AllHaveDays(ms, patterns) && AllDays(ms) && n <= |ms|
    ensures e in AllEvents(ms, n, midnight) <==>
            exists i, d :: i < n && Flagged(ms, patterns, i, d) && e == EventOn(ms[i], d, midnight)
  {
    hide EventOn, EventsOf, PatternHas, Weekday, HasDaysOf;
    if n > 0 {
      EventsOfPatterns(ms, patterns, n - 1, midnight, e);
      var m := ms[n - 1];
      EventsOfPattern(m, patterns[n - 1], midnight, e);
      if d :| m.startDate <= d <= m.endDate && PatternHas(patterns[n - 1], Weekday(d)) && e == EventOn(m, d, midnight) {
        assert Flagged(ms, patterns, n - 1, d);
      }
    }
  }

  // The marks themselves do not show in an event.
  lemma MarkedEvents(ms: seq<Meeting>, marked: seq<Meeting>, patterns: seq<string>, midnight: int -> int, e: Event)
    requires |ms| == |marked| == |patterns|
    requires forall j :: 0 <= j < |ms| ==> marked[j] == ms[j].(hasDay := marked[j].hasDay)
    ensures (exists i, d :: i < |ms| && Flagged(marked, patterns, i, d) && e == EventOn(marked[i], d, midnight)) <==>
            exists i, d :: Flagged(ms, patterns, i, d) && e == EventOn(ms[i], d, midnight)
  {
    hide Weekday, PatternHas, Upper;
    forall i, d
      ensures Flagged(marked, patterns, i, d) <==> Flagged(ms, patterns, i, d)
      ensures 0 <= i < |ms| ==> EventOn(marked[i], d, midnight) == EventOn(ms[i], d, midnight)
    {
    }
  }

  /** From the API's patterns to the calendar: the meetings are marked with their days, then expanded. */
  method ExportMeetings(ms: seq<Meeting>, patterns: seq<string>, midnight: int -> int) returns (r: seq<Event>)
    requires |ms| == |patterns| && Increasing(midnight)
    requires forall k, i :: 0 <= k < |patterns| && 7 <= i < |patterns[k]| ==> patterns[k][i] != 'Y'
    ensures forall e :: e in r <==> exists i, d :: Flagged(ms, patterns, i, d) && e == EventOn(ms[i], d, midnight)
  {
    hide EventOn, Weekday, PatternHas;
    var marked: seq<Meeting> := [];
    for k := 0 to |ms|
      invariant |marked| == k
      invariant forall j :: 0 <= j < k ==>
                HasDaysOf(marked[j], patterns[j]) && marked[j] == ms[j].(hasDay := marked[j].hasDay)
    {
      var hasDay := DaysOfPattern(patterns[k]);
      marked := marked + [ms[k].(hasDay := hasDay)];
    }
    r := ToWebcalEvents(marked, midnight);
    forall e
      ensures e in r <==> exists i, d :: Flagged(ms, patterns, i, d) && e == EventOn(ms[i], d, midnight)
    {
      EventsOfPatterns(marked, patterns, |marked|, midnight, e);
      MarkedEvents(ms, marked, patterns, midnight, e);
    }
  }
}
