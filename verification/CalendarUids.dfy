/** The UIDs of calendar events (section 3.8.4.7 of RFC 5545): when they are unique. */
module CalendarUids {
  import opened Bytes
  import opened Decimal
  import opened Calendar

  // %04d
  function Pad4(n: nat): string {
    var s := Digits(n);
    if n < 10 then "000" + s else if n < 100 then "00" + s else if n < 1000 then "0" + s else s
  }

  function Uid(secretId: string, e: Event): string {
    "-//uwflow.com//" + secretId + "//" + (Pad4(e.groupId) + "//" + Itoa(e.start)) + "//EN"
  }

  lemma {:induction false} ZeroValue(s: string)
    requires AllDigits(s)
    ensures AllDigits("0" + s) && Value("0" + s) == Value(s)
  {
    if s != "" {
      ZeroValue(s[..|s| - 1]);
      assert ("0" + s)[..|s|] == "0" + s[..|s| - 1];
    } else {
      assert "0" + s == "0" && "0"[..0] == "";
    }
  }

  lemma PadValue(n: nat)
    ensures AllDigits(Pad4(n)) && Value(Pad4(n)) == n
  {
    hide Value;
    var s := Digits(n);
    ValueOfDigits(n);
    hide Digits;
    ZeroValue(s);
    ZeroValue("0" + s);
    ZeroValue("0" + ("0" + s));
    assert "00" + s == "0" + ("0" + s) && "000" + s == "0" + ("0" + ("0" + s));
  }

  // The part of a text before its first slash is determined by the text.
  lemma SplitAtSlash(a: string, b: string, c: string, d: string)
    requires '/' !in a && '/' !in c && a + "//" + b == c + "//" + d
    ensures a == c && b == d
  {
    var s, t := a + "//" + b, c + "//" + d;
    assert s[|a|] == '/' && t[|c|] == '/';
    assert forall i :: 0 <= i < |a| ==> s[i] == a[i];
    assert forall i :: 0 <= i < |c| ==> t[i] == c[i];
    assert |a| == |c|;
    assert s[..|a|] == a && t[..|c|] == c;
    assert s[|a| + 2..] == b && t[|c| + 2..] == d;
  }

  lemma UidInjective(secretId: string, e: Event, f: Event)
    ensures Uid(secretId, e) == Uid(secretId, f) <==> e.groupId == f.groupId && e.start == f.start
  {
    hide Pad4, Itoa, Atoi, Value;
    if Uid(secretId, e) == Uid(secretId, f) {
      var p := "-//uwflow.com//" + secretId + "//";
      var x, y := Pad4(e.groupId) + "//" + Itoa(e.start), Pad4(f.groupId) + "//" + Itoa(f.start);
      MiddleEqual(p, x, y, "//EN");
      PadValue(e.groupId);
      PadValue(f.groupId);
      SlashIsNoDigit();
      SplitAtSlash(Pad4(e.groupId), Itoa(e.start), Pad4(f.groupId), Itoa(f.start));
      AtoiOfItoa(e.start);
      AtoiOfItoa(f.start);
    }
  }

  lemma SlashIsNoDigit()
    ensures forall s :: AllDigits(s) ==> '/' !in s
  {
  }

  lemma MiddleEqual(p: string, x: string, y: string, q: string)
    requires p + x + q == p + y + q
    ensures x == y
  {
    var s, t := p + x + q, p + y + q;
    assert |x| == |y|;
    assert s[|p|..|p| + |x|] == x && t[|p|..|p| + |y|] == y;
  }

  // ----- UIDs of one meeting -----

  /** The events of one meeting start in strictly increasing order, so no two share a UID. */
  lemma StartsIncrease(m: Meeting, midnight: int -> int, i: nat, j: nat)
    requires |m.hasDay| == 7 && Increasing(midnight)
    requires i < j < |EventsOf(m, midnight)|
    ensures EventsOf(m, midnight)[i].start < EventsOf(m, midnight)[j].start
    ensures forall secretId :: Uid(secretId, EventsOf(m, midnight)[i]) != Uid(secretId, EventsOf(m, midnight)[j])
  {
    hide Uid;
    DatesAre(m.hasDay, m.startDate, m.endDate + 1);
    var events := EventsOf(m, midnight);
    forall secretId
      ensures Uid(secretId, events[i]) != Uid(secretId, events[j])
    {
      UidInjective(secretId, events[i], events[j]);
    }
  }

  // ----- UIDs across meetings -----

  // Two rows of one section give an event at the same instant.
  ghost predicate InstantClash(ms: seq<Meeting>, midnight: int -> int, i: nat, j: nat, d: int, e: int)
    requires AllDays(ms)
  {
    && i < j < |ms| && ms[i].sectionId == ms[j].sectionId
    && d in Dates(ms[i].hasDay, ms[i].startDate, ms[i].endDate + 1)
    && e in Dates(ms[j].hasDay, ms[j].startDate, ms[j].endDate + 1)
    && midnight(d) + ms[i].startSeconds == midnight(e) + ms[j].startSeconds
  }

  // They share a date and a time of day.
  ghost predicate UidClash(ms: seq<Meeting>, i: nat, j: nat, day: int)
    requires AllDays(ms)
  {
    && i < j < |ms| && ms[i].sectionId == ms[j].sectionId && ms[i].startSeconds == ms[j].startSeconds
    && day in Dates(ms[i].hasDay, ms[i].startDate, ms[i].endDate + 1)
    && day in Dates(ms[j].hasDay, ms[j].startDate, ms[j].endDate + 1)
  }

  function DayLength(midnight: int -> int, day: int): int {
    midnight(day + 1) - midnight(day)
  }

  // No meeting starts after the end of one of its own dates, however short that day is.
  ghost predicate WithinDays(ms: seq<Meeting>, midnight: int -> int)
    requires AllDays(ms)
  {
    forall i, d :: 0 <= i < |ms| && d in Dates(ms[i].hasDay, ms[i].startDate, ms[i].endDate + 1) ==>
      0 <= ms[i].startSeconds < DayLength(midnight, d)
  }

  // Event p of the whole list comes from row i and a date of that row.
  lemma {:induction false} EventSource(ms: seq<Meeting>, n: nat, midnight: int -> int, p: nat)
    returns (i: nat, k: nat)
    requires AllDays(ms) && n <= |ms| && p < |AllEvents(ms, n, midnight)|
    ensures i < n && k < |Dates(ms[i].hasDay, ms[i].startDate, ms[i].endDate + 1)|
    ensures AllEvents(ms, n, midnight)[p]
         == EventOn(ms[i], Dates(ms[i].hasDay, ms[i].startDate, ms[i].endDate + 1)[k], midnight)
    ensures p == |AllEvents(ms, i, midnight)| + k
  {
    hide EventOn, Dates;
    var init := AllEvents(ms, n - 1, midnight);
    if p < |init| {
      i, k := EventSource(ms, n - 1, midnight, p);
    } else {
      i, k := n - 1, p - |init|;
    }
  }

  lemma SourceRow(m: Meeting, midnight: int -> int, k: nat)
    requires |m.hasDay| == 7 && k < |Dates(m.hasDay, m.startDate, m.endDate + 1)|
    ensures k < |EventsOf(m, midnight)|
    ensures EventsOf(m, midnight)[k] == EventOn(m, Dates(m.hasDay, m.startDate, m.endDate + 1)[k], midnight)
  {
    hide EventOn, Dates;
  }

  lemma {:induction false} SourceEvent(ms: seq<Meeting>, n: nat, midnight: int -> int, i: nat, k: nat)
    requires AllDays(ms) && i < n <= |ms| && k < |Dates(ms[i].hasDay, ms[i].startDate, ms[i].endDate + 1)|
    ensures |AllEvents(ms, i, midnight)| + k < |AllEvents(ms, i + 1, midnight)| <= |AllEvents(ms, n, midnight)|
    ensures AllEvents(ms, n, midnight)[|AllEvents(ms, i, midnight)| + k]
         == EventOn(ms[i], Dates(ms[i].hasDay, ms[i].startDate, ms[i].endDate + 1)[k], midnight)
  {
    hide EventOn, Dates, EventsOn;
    SourceRow(ms[i], midnight, k);
    if i < n - 1 {
      SourceEvent(ms, n - 1, midnight, i, k);
    }
  }

  // Within the days, the same instant is the same date and time of day.
  lemma {:induction false} SameInstant(ms: seq<Meeting>, midnight: int -> int, i: nat, j: nat, d: int, e: int)
    requires AllDays(ms) && Increasing(midnight) && WithinDays(ms, midnight) && InstantClash(ms, midnight, i, j, d, e)
    ensures UidClash(ms, i, j, d)
  {
    hide Dates;
    assert ms[i].startSeconds < DayLength(midnight, d) && ms[j].startSeconds < DayLength(midnight, e);
    assert d < e ==> midnight(d + 1) <= midnight(e);
    assert e < d ==> midnight(e + 1) <= midnight(d);
  }

  // Two events of the calendar share a UID.
  ghost predicate RepeatsUid(secretId: string, events: seq<Event>) {
    exists p, q :: 0 <= p < q < |events| && Uid(secretId, events[p]) == Uid(secretId, events[q])
  }

  /** Section ids do not make (group, start) globally unique by themselves: a UID repeats exactly when
      two rows of one section have flagged dates on which they start at the same instant. */
  lemma {:induction false} UidRepeats(ms: seq<Meeting>, midnight: int -> int, secretId: string)
    requires AllDays(ms) && Increasing(midnight)
    ensures RepeatsUid(secretId, AllEvents(ms, |ms|, midnight)) <==>
            exists i, j, d, e :: InstantClash(ms, midnight, i, j, d, e)
  {
    hide Uid, Dates, AllEvents, Increasing;
    var all := AllEvents(ms, |ms|, midnight);
    if p, q :| 0 <= p < q < |all| && Uid(secretId, all[p]) == Uid(secretId, all[q]) {
      var i, j, d, e := RepeatIsClash(ms, midnight, secretId, p, q);
    }
    if i, j, d, e :| InstantClash(ms, midnight, i, j, d, e) {
      ClashIsRepeat(ms, midnight, secretId, i, j, d, e);
    }
  }

  /** When no meeting starts after the end of one of its dates, that is when the two rows start at the same
      time of day and share a flagged date. */
  lemma {:induction false} UidRepeatsByDate(ms: seq<Meeting>, midnight: int -> int, secretId: string)
    requires AllDays(ms) && Increasing(midnight) && WithinDays(ms, midnight)
    ensures RepeatsUid(secretId, AllEvents(ms, |ms|, midnight)) <==> exists i, j, day :: UidClash(ms, i, j, day)
  {
    hide Uid, Dates, AllEvents, WithinDays, Increasing;
    UidRepeats(ms, midnight, secretId);
    if i, j, d, e :| InstantClash(ms, midnight, i, j, d, e) {
      SameInstant(ms, midnight, i, j, d, e);
    }
    if i, j, day :| UidClash(ms, i, j, day) {
      assert InstantClash(ms, midnight, i, j, day, day);
    }
  }

  lemma {:induction false} RepeatIsClash(ms: seq<Meeting>, midnight: int -> int, secretId: string, p: nat, q: nat)
    returns (i: nat, j: nat, d: int, e: int)
    requires AllDays(ms) && Increasing(midnight) && p < q < |AllEvents(ms, |ms|, midnight)|
    requires Uid(secretId, AllEvents(ms, |ms|, midnight)[p]) == Uid(secretId, AllEvents(ms, |ms|, midnight)[q])
    ensures InstantClash(ms, midnight, i, j, d, e)
  {
    hide Uid, Dates, AllEvents;
    var all := AllEvents(ms, |ms|, midnight);
    var k, l;
    i, k := EventSource(ms, |ms|, midnight, p);
    j, l := EventSource(ms, |ms|, midnight, q);
    var ds, es := Dates(ms[i].hasDay, ms[i].startDate, ms[i].endDate + 1),
                  Dates(ms[j].hasDay, ms[j].startDate, ms[j].endDate + 1);
    UidInjective(secretId, all[p], all[q]);
    d, e := ds[k], es[l];
    assert d in ds && e in es;
    if i == j {
      DatesAre(ms[i].hasDay, ms[i].startDate, ms[i].endDate + 1);
      assert false;
    } else if j < i {
      SourceEvent(ms, i, midnight, j, l);
      assert false;
    }
  }

  lemma {:induction false} ClashIsRepeat(
    ms: seq<Meeting>, midnight: int -> int, secretId: string, i: nat, j: nat, d: int, e: int)
    requires AllDays(ms)
    ensures InstantClash(ms, midnight, i, j, d, e) ==> RepeatsUid(secretId, AllEvents(ms, |ms|, midnight))
  {
    hide Uid, Dates, AllEvents;
    if InstantClash(ms, midnight, i, j, d, e) {
      var ds, es := Dates(ms[i].hasDay, ms[i].startDate, ms[i].endDate + 1),
                    Dates(ms[j].hasDay, ms[j].startDate, ms[j].endDate + 1);
      var k: nat :| k < |ds| && ds[k] == d;
      var l: nat :| l < |es| && es[l] == e;
      SourceEvent(ms, |ms|, midnight, i, k);
      SourceEvent(ms, |ms|, midnight, j, l);
      SourceEvent(ms, j, midnight, i, k);
      var all := AllEvents(ms, |ms|, midnight);
      var p, q := |AllEvents(ms, i, midnight)| + k, |AllEvents(ms, j, midnight)| + l;
      UidInjective(secretId, all[p], all[q]);
      assert 0 <= p < q < |all|;
    }
  }

  /** Two meetings of one section at the same time, say in two rooms, share a UID. */
  lemma TwoRoomsShareUid(midnight: int -> int, secretId: string)
    requires Increasing(midnight)
    ensures var days := [true, true, true, true, true, true, true];
            var a := Meeting(1, "cs135", "LEC 001", Some("MC 4085"), 3, 3, 36000, 39600, days);
            var b := a.(location := Some("MC 4059"));
            RepeatsUid(secretId, AllEvents([a, b], 2, midnight))
  {
    var days := [true, true, true, true, true, true, true];
    var a := Meeting(1, "cs135", "LEC 001", Some("MC 4085"), 3, 3, 36000, 39600, days);
    var ms := [a, a.(location := Some("MC 4059"))];
    hide AllEvents, Uid, Dates;
    DatesAre(days, 3, 4);
    assert days[Weekday(3)];
    assert InstantClash(ms, midnight, 0, 1, 3, 3);
    UidRepeats(ms, midnight, secretId);
  }

  lemma UidExample()
    ensures Uid("secret", Event(12, "CS135 - LEC 001", 340, 700, "MC 4085")) == "-//uwflow.com//secret//0012//340//EN"
  {
    assert Digits(1) == "1" && Digits(12) == "12";
    assert Digits(3) == "3" && Digits(34) == "34" && Digits(340) == "340";
    assert Pad4(12) == "0012" && Itoa(340) == "340";
    assert "0012" + "//" + "340" == "0012//340";
  }
}
