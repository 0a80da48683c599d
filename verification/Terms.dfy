/** Term ids: three terms a year, starting in January, May and September. */
module Terms {
  import opened Bytes
  import opened Collections
  import opened Decimal

  datatype Date = Date(year: int, month: int, day: int)

  predicate IsLeap(year: int) {
    year % 4 == 0 && (year % 100 != 0 || year % 400 == 0)
  }

  function DaysIn(year: int, month: int): (n: nat)
    requires 1 <= month <= 12
    ensures 28 <= n <= 31
  {
    if month == 2 then (if IsLeap(year) then 29 else 28)
    else if month == 4 || month == 6 || month == 9 || month == 11 then 30
    else 31
  }

  predicate IsDate(d: Date) {
    1 <= d.month <= 12 && 1 <= d.day <= DaysIn(d.year, d.month)
  }

  // time.Date: months outside [1, 12] carry into years, then excess days carry into months.
  function Normalize(year: int, month: int, day: nat): Date
    decreases day
  {
    var y, m := year + (month - 1) / 12, (month - 1) % 12 + 1;
    if day <= DaysIn(y, m) then Date(y, m, day) else Normalize(y, m + 1, day - DaysIn(y, m))
  }

  // AddDate(0, months, 0)
  function AddMonths(d: Date, months: int): Date
    requires IsDate(d)
  {
    Normalize(d.year, d.month + months, d.day)
  }

  function DateToTermId(d: Date): int {
    (d.year - 1900) * 10 + if d.month >= 9 then 9 else if d.month >= 5 then 5 else 1
  }

  function PreviousTermId(now: Date, numTerms: nat): int
    requires IsDate(now)
  {
    DateToTermId(AddMonths(now, -4 * numTerms))
  }

  function NextTermId(now: Date): int
    requires IsDate(now)
  {
    DateToTermId(AddMonths(now, 4))
  }

  // ----- the sequence of terms -----

  predicate IsTermId(id: int) {
    id % 10 == 1 || id % 10 == 5 || id % 10 == 9
  }

  function Predecessor(id: int): int {
    if id % 10 == 1 then id - 2 else id - 4
  }

  function Successor(id: int): int {
    if id % 10 == 9 then id + 2 else id + 4
  }

  // The n-fold predecessor.
  function Before(id: int, n: nat): int {
    if n == 0 then id else Predecessor(Before(id, n - 1))
  }

  // Terms counted from Winter 1900.
  function TermIndex(id: int): int {
    3 * (id / 10) + (id % 10 - 1) / 4
  }

  lemma TermIndexInjective(a: int, b: int)
    requires IsTermId(a) && IsTermId(b)
    ensures TermIndex(a) == TermIndex(b) <==> a == b
    ensures TermIndex(a) < TermIndex(b) <==> a < b
  {
  }

  lemma SuccessorAndPredecessor(id: int)
    requires IsTermId(id)
    ensures IsTermId(Predecessor(id)) && TermIndex(Predecessor(id)) == TermIndex(id) - 1
    ensures IsTermId(Successor(id)) && TermIndex(Successor(id)) == TermIndex(id) + 1
    ensures Successor(Predecessor(id)) == id && Predecessor(Successor(id)) == id
  {
  }

  lemma {:induction false} BeforeIndex(id: int, n: nat)
    requires IsTermId(id)
    ensures IsTermId(Before(id, n)) && TermIndex(Before(id, n)) == TermIndex(id) - n
  {
    if n > 0 {
      BeforeIndex(id, n - 1);
      SuccessorAndPredecessor(Before(id, n - 1));
    }
  }

  // Months counted from January 1900; four of them make a term.
  function MonthIndex(d: Date): int {
    12 * (d.year - 1900) + d.month - 1
  }

  lemma TermOfMonth(d: Date)
    requires 1 <= d.month <= 12
    ensures IsTermId(DateToTermId(d)) && TermIndex(DateToTermId(d)) == MonthIndex(d) / 4
  {
    var q := d.year - 1900;
    var season := if d.month >= 9 then 9 else if d.month >= 5 then 5 else 1;
    assert DateToTermId(d) / 10 == q && DateToTermId(d) % 10 == season;
    assert (12 * q + d.month - 1) / 4 == 3 * q + (d.month - 1) / 4;
  }

  /** A later date is never in an earlier term. */
  lemma TermIdMonotone(a: Date, b: Date)
    requires IsDate(a) && IsDate(b)
    requires a.year < b.year || (a.year == b.year && a.month <= b.month)
    ensures DateToTermId(a) <= DateToTermId(b)
  {
  }

  // The month that lies the given number of months away, before any overflow of days.
  function TargetMonth(d: Date, months: int): (m: int)
    ensures 1 <= m <= 12
  {
    (d.month + months - 1) % 12 + 1
  }

  // The days overflow into the next month, and no further, when the target month is too short.
  lemma AddMonthsIndex(d: Date, months: int)
    requires IsDate(d)
    ensures var r := AddMonths(d, months);
            var y := d.year + (d.month + months - 1) / 12;
            && IsDate(r)
            && 12 * (y - 1900) + TargetMonth(d, months) - 1 == MonthIndex(d) + months
            && MonthIndex(r) == MonthIndex(d) + months +
                 if d.day <= DaysIn(y, TargetMonth(d, months)) then 0 else 1
  {
    var y, m := d.year + (d.month + months - 1) / 12, TargetMonth(d, months);
    assert 12 * (y - 1900) + m - 1 == MonthIndex(d) + months;
    if d.day > DaysIn(y, m) {
      var rest := d.day - DaysIn(y, m);
      assert rest <= 3;
      assert AddMonths(d, months) == Normalize(y, m + 1, rest);
    }
  }

  lemma MonthsToTerms(i: int, terms: int, q: int, m: int)
    requires i + 4 * terms == 12 * q + m - 1 && 1 <= m <= 12
    ensures (i + 4 * terms) / 4 == i / 4 + terms
    ensures (i + 4 * terms + 1) / 4 == i / 4 + terms + if m % 4 == 0 then 1 else 0
  {
    var a, r, b, u := i / 4, i % 4, 3 * q + (m - 1) / 4, (m - 1) % 4;
    assert i == 4 * a + r && 12 * q + m - 1 == 4 * b + u;
    assert 4 * (a + terms - b) == u - r;
    assert a + terms == b && r == u;
  }

  // Only 31 April steps over the start of a term.
  lemma AddTerms(d: Date, terms: int)
    requires IsDate(d)
    ensures var id := DateToTermId(AddMonths(d, 4 * terms));
            && IsTermId(id)
            && TermIndex(id) == TermIndex(DateToTermId(d)) + terms +
                 if d.day == 31 && TargetMonth(d, 4 * terms) == 4 then 1 else 0
  {
    hide AddMonths, DateToTermId, TermIndex, IsTermId, DaysIn, TargetMonth, MonthIndex;
    AddFourMonths(d, terms);
    TermOfMonth(d);
    TermOfMonth(AddMonths(d, 4 * terms));
  }

  lemma AddFourMonths(d: Date, terms: int)
    requires IsDate(d)
    ensures var r := AddMonths(d, 4 * terms);
            && IsDate(r)
            && MonthIndex(r) / 4 == MonthIndex(d) / 4 + terms +
                 if d.day == 31 && TargetMonth(d, 4 * terms) == 4 then 1 else 0
  {
    hide AddMonths, DaysIn, TargetMonth, MonthIndex;
    var y := d.year + (d.month + 4 * terms - 1) / 12;
    AddMonthsIndex(d, 4 * terms);
    MonthsToTerms(MonthIndex(d), terms, y - 1900, TargetMonth(d, 4 * terms));
    OnlyAprilIsShort(d, 4 * terms, y);
  }

  // Going by whole terms from a day that exists, only day 31 can be missing in a month that ends a term.
  lemma OnlyAprilIsShort(d: Date, months: int, y: int)
    requires IsDate(d) && months % 4 == 0
    ensures var m := TargetMonth(d, months);
            m % 4 == 0 && d.day > DaysIn(y, m) <==> d.day == 31 && m == 4
  {
  }

  /** PreviousTermId is the n-fold predecessor of the current term, except exactly when the date
      4n months back would be 31 April; it is then one term too late. */
  lemma {:induction false} PreviousTermIdExact(now: Date, n: nat)
    requires IsDate(now)
    ensures var exact := Before(DateToTermId(now), n);
            if now.day == 31 && TargetMonth(now, -4 * n) == 4
            then PreviousTermId(now, n) == Successor(exact) && PreviousTermId(now, n) != exact
            else PreviousTermId(now, n) == exact
  {
    var current := DateToTermId(now);
    var back: int := 0 - n;
    AddTerms(now, back);
    assert 4 * back == -4 * n;
    hide AddMonths, TargetMonth, DateToTermId, IsTermId, TermIndex, Before, Successor;
    TermOfMonth(now);
    BeforeIndex(current, n);
    SuccessorAndPredecessor(Before(current, n));
    TermIndexInjective(PreviousTermId(now, n), Before(current, n));
    TermIndexInjective(PreviousTermId(now, n), Successor(Before(current, n)));
  }

  lemma AprilTargets(d: Date)
    requires IsDate(d)
    ensures TargetMonth(d, 4) == 4 <==> d.month == 12
    ensures TargetMonth(d, -4) == 4 <==> d.month == 8
    ensures TargetMonth(d, -8) == 4 <==> d.month == 12
  {
  }

  /** NextTermId is the successor of the current term on every date but 31 December,
      where it skips a term. */
  lemma NextTermIdExact(now: Date)
    requires IsDate(now)
    ensures var next := Successor(DateToTermId(now));
            if now.month == 12 && now.day == 31
            then NextTermId(now) == Successor(next) && NextTermId(now) != next
            else NextTermId(now) == next
  {
    var current := DateToTermId(now);
    AddTerms(now, 1);
    AprilTargets(now);
    hide AddMonths, TargetMonth, DateToTermId, IsTermId, TermIndex, Successor;
    TermOfMonth(now);
    SuccessorAndPredecessor(current);
    SuccessorAndPredecessor(Successor(current));
    TermIndexInjective(NextTermId(now), Successor(current));
    TermIndexInjective(NextTermId(now), Successor(Successor(current)));
  }

  // The terms that ImportAll fetches.
  function ImportWindow(now: Date): seq<int>
    requires IsDate(now)
  {
    [PreviousTermId(now, 2), PreviousTermId(now, 1), DateToTermId(now), NextTermId(now)]
  }

  ghost predicate Consecutive(ids: seq<int>) {
    forall i :: 0 <= i < |ids| - 1 ==> ids[i + 1] == Successor(ids[i])
  }

  /** The import window is four consecutive, distinct terms on every date but 31 August and
      31 December, and on those two dates it repeats a term. */
  lemma ImportWindowExact(now: Date)
    requires IsDate(now)
    ensures var odd := now.day == 31 && (now.month == 8 || now.month == 12);
            (Consecutive(ImportWindow(now)) <==> !odd) && (Distinct(ImportWindow(now)) <==> !odd)
  {
    var w := ImportWindow(now);
    var current := DateToTermId(now);
    PreviousTermIdExact(now, 1);
    PreviousTermIdExact(now, 2);
    NextTermIdExact(now);
    TermOfMonth(now);
    AprilTargets(now);
    BeforeTwo(current);
    hide PreviousTermId, NextTermId, TargetMonth, DateToTermId, Successor, IsTermId, Before, DaysIn;
    if now.day == 31 && (now.month == 8 || now.month == 12) {
      assert w[1] == if now.month == 8 then w[2] else w[0];
      assert now.month == 8 ==> w[2] != Successor(w[1]);
    } else {
      assert w[1] == Successor(w[0]) && w[2] == Successor(w[1]) && w[3] == Successor(w[2]);
      assert w[0] < w[1] < w[2] < w[3];
    }
  }

  /** On 31 August 2024 the previous term reads as the current one, and on 31 December 2024 a term is skipped. */
  lemma ShortcutFails()
    ensures DateToTermId(Date(2024, 8, 31)) == 1245 && PreviousTermId(Date(2024, 8, 31), 1) == 1245
    ensures DateToTermId(Date(2024, 12, 31)) == 1249 && NextTermId(Date(2024, 12, 31)) == 1255
  {
    hide PreviousTermId, NextTermId;
    PreviousTermIdExact(Date(2024, 8, 31), 1);
    NextTermIdExact(Date(2024, 12, 31));
    assert Before(1245, 0) == 1245 && Before(1245, 1) == 1241;
  }

  lemma {:induction false} BeforeTwo(id: int)
    requires IsTermId(id)
    ensures Before(id, 1) < id < Successor(id) && Successor(Before(id, 1)) == id
    ensures Before(id, 2) < Before(id, 1) && Successor(Before(id, 2)) == Before(id, 1)
  {
    assert Before(id, 1) == Predecessor(id);
    assert Before(id, 2) == Predecessor(Predecessor(id));
  }

  // ----- ids from and to other forms -----

  // Go's / truncates towards zero.
  function QuotientGo(a: int, b: int): int
    requires b > 0
  {
    if a >= 0 then a / b else -(-a / b)
  }

  function RemainderGo(a: int, b: int): int
    requires b > 0
  {
    a - b * QuotientGo(a, b)
  }

  function TermIdToYear(id: int): int {
    QuotientGo(id, 10) + 1900
  }

  /** The year of a term id is right from 1900 on, and never before. */
  lemma YearOfTermExact(d: Date)
    requires IsDate(d)
    ensures TermIdToYear(DateToTermId(d)) == d.year <==> d.year >= 1900
  {
  }

  // strings.Split at a separator, when it gives exactly two components
  function SplitPair(s: string, sep: char): Option<(string, string)> {
    var i := IndexOf(s, sep);
    if i == |s| || IndexOf(s[i + 1..], sep) < |s| - i - 1 then None else Some((s[..i], s[i + 1..]))
  }

  function IndexOf(s: string, c: char): (i: nat)
    ensures i <= |s| && (i < |s| ==> s[i] == c)
    ensures forall j :: 0 <= j < i ==> s[j] != c
  {
    if s == "" || s[0] == c then 0 else 1 + IndexOf(s[1..], c)
  }

  function TermSeasonYearToId(season: string, year: string): Option<int> {
    if season != "Fall" && season != "Spring" && season != "Winter" then None
    else
      match Atoi(year)
      case None => None
      case Some(y) =>
        Some((y - 1900) * 10 + if season == "Fall" then 9 else if season == "Spring" then 5 else 1)
  }

  function TermNameToId(name: string): Option<int> {
    match SplitPair(name, ' ')
    case None => None
    case Some(parts) => TermSeasonYearToId(parts.0, parts.1)
  }

  function TermYearMonthToId(yearMonth: string): Option<int> {
    match SplitPair(yearMonth, '_')
    case None => None
    case Some(parts) =>
      match (Atoi(parts.0), Atoi(parts.1))
      case (Some(year), Some(month)) => Some(1000 + RemainderGo(year, 100) * 10 + month)
      case _ => None
  }

  function SeasonName(d: Date): string {
    if d.month >= 9 then "Fall" else if d.month >= 5 then "Spring" else "Winter"
  }

  lemma SplitPairOf(a: string, b: string, sep: char)
    requires sep !in a && sep !in b
    ensures SplitPair(a + [sep] + b, sep) == Some((a, b))
  {
    var s := a + [sep] + b;
    var i := IndexOf(s, sep);
    assert s[|a|] == sep;
    assert forall j :: 0 <= j < |a| ==> s[j] == a[j];
    assert s[i + 1..] == b && s[..i] == a;
  }

  lemma ItoaHasNo(n: int, sep: char)
    requires !IsDigit(sep) && sep != '-'
    ensures sep !in Itoa(n)
  {
  }

  /** A date's term, written out as season and year, is read back as that date's term id. */
  lemma TermNameRoundTrip(d: Date)
    requires IsDate(d)
    ensures TermNameToId(SeasonName(d) + " " + Itoa(d.year)) == Some(DateToTermId(d))
  {
    ItoaHasNo(d.year, ' ');
    AtoiOfItoa(d.year);
    SplitPairOf(SeasonName(d), Itoa(d.year), ' ');
  }

  /** A year and month joined by an underscore give the id of the term that starts in that month
      from 2000 to 2099, and in no other year. */
  lemma YearMonthExact(year: int, month: int, text: string)
    requires '_' !in text && Atoi(text) == Some(month)
    ensures TermYearMonthToId(Itoa(year) + "_" + text) == Some((year - 1900) * 10 + month) <==> 2000 <= year <= 2099
  {
    ItoaHasNo(year, '_');
    AtoiOfItoa(year);
    SplitPairOf(Itoa(year), text, '_');
  }

  // ----- the pieces -----

  /** The leap years, and the day that AddDate keeps: the same day, or what is left of it in the next month. */
  lemma CalendarPieces(d: Date, months: int)
    requires IsDate(d)
    ensures IsLeap(2024) && !IsLeap(2023) && IsLeap(2000) && !IsLeap(1900)
    ensures forall y :: DaysIn(y, 2) == if IsLeap(y) then 29 else 28
    ensures var days := DaysIn(d.year + (d.month + months - 1) / 12, TargetMonth(d, months));
            AddMonths(d, months).day == if d.day <= days then d.day else d.day - days
  {
    var y, m := d.year + (d.month + months - 1) / 12, TargetMonth(d, months);
    if d.day > DaysIn(y, m) {
      var rest: nat := d.day - DaysIn(y, m);
      assert AddMonths(d, months) == Normalize(y, m + 1, rest);
    }
  }

  /** The names of terms are exactly the three seasons followed by a space and a numeral. */
  lemma TermNameIs(season: string, year: string)
    requires ' ' !in season && ' ' !in year
    ensures IsTermOf(season, year, TermNameToId(season + " " + year))
  {
    hide Atoi, IsTermOf;
    var name := season + " " + year;
    SplitPairOf(season, year, ' ');
    assert season + [' '] + year == name;
    assert TermNameToId(name) == TermSeasonYearToId(season, year);
    hide SplitPair, TermNameToId;
    SeasonIs(season, year);
  }

  predicate IsTermOf(season: string, year: string, id: Option<int>) {
    var y := Atoi(year);
    && (y.None? || (season != "Fall" && season != "Spring" && season != "Winter") ==> id == None)
    && (y.Some? && season == "Fall" ==> id == Some(10 * (y.value - 1900) + 9))
    && (y.Some? && season == "Spring" ==> id == Some(10 * (y.value - 1900) + 5))
    && (y.Some? && season == "Winter" ==> id == Some(10 * (y.value - 1900) + 1))
  }

  lemma SeasonIs(season: string, year: string)
    ensures IsTermOf(season, year, TermSeasonYearToId(season, year))
  {
    hide Atoi;
  }

  /** A name with a term has exactly one space. */
  lemma OnlyTermNames(name: string)
    requires TermNameToId(name).Some?
    ensures exists season: string, year: string :: ' ' !in season && ' ' !in year && name == season + " " + year
  {
    var i := IndexOf(name, ' ');
    var season, year := name[..i], name[i + 1..];
    assert name == season + " " + year;
    assert forall j :: 0 <= j < i ==> season[j] == name[j];
    assert IndexOf(year, ' ') == |year|;
    assert ' ' !in season && ' ' !in year;
  }

  /** The inputs and results of the source's tests. */
  lemma TestedTerms()
    ensures DateToTermId(Date(2019, 10, 8)) == 1199
    ensures DateToTermId(Date(2011, 8, 31)) == 1115 && DateToTermId(Date(2011, 9, 1)) == 1119
  {
  }
}
