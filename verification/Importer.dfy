/** The insertAll functions: each is one transaction that merges converted rows into the live tables. */
module Importer {
  import opened Bytes
  import opened Upsert
  import opened Meetings
  import Convert
  import Fetch

  // A row of course without its code
  datatype CourseData = CourseData(
    name: string, description: Option<string>,
    prereqs: Option<string>, coreqs: Option<string>, antireqs: Option<string>)

  type CourseTable = map<string, Entry<CourseData>>

  // A requisite: the ids of a course and of the course it names
  datatype Pair = Pair(course: int, other: int)

  // The counts that one transaction reports; one that is rolled back reports none.
  datatype DbResult = DbResult(inserted: int, updated: int, untouched: int, rejected: int)

  // ----- staging -----

  function CourseDataOf(c: Convert.CourseRow): CourseData {
    CourseData(c.name, c.description, c.prereqs, c.coreqs, c.antireqs)
  }

  function SectionDataOf(s: Convert.SectionRow, courses: CourseTable): SectionData
    requires s.courseCode in courses
  {
    SectionData(courses[s.courseCode].id, s.name, s.capacity, s.total, s.updatedAt, s.isOnline)
  }

  // Courses with an empty code are rejected before they are staged.
  function StagedCourses(batch: seq<Convert.CourseRow>, n: nat): (r: seq<Staged<string, CourseData>>)
    requires n <= |batch|
    ensures |r| <= n
  {
    if n == 0 then []
    else
      var c := batch[n - 1];
      var earlier := StagedCourses(batch, n - 1);
      if c.code == "" then earlier
      else earlier + [Staged(c.code, CourseDataOf(c))]
  }

  // Staged sections joined with their courses; a section of an unknown course has no partner.
  function StagedSections(batch: seq<Convert.SectionRow>, courses: CourseTable, n: nat)
    : (r: seq<Staged<Convert.Key, SectionData>>)
    requires n <= |batch|
    ensures |r| <= n
  {
    if n == 0 then []
    else
      var s := batch[n - 1];
      var earlier := StagedSections(batch, courses, n - 1);
      if s.courseCode !in courses then earlier
      else earlier + [Staged(s.key, SectionDataOf(s, courses))]
  }

  // ----- the constraints that a batch can break -----

  const MAX_CODE := 16
  const MAX_NAME := 256
  const MAX_REQUISITES := 1024

  predicate FitsOptional(text: Option<string>) {
    text.Some? ==> CharCount(text.value) <= MAX_REQUISITES
  }

  // The CHECKs of the course table; the one named for the description measures the name.
  predicate FitsCourse(code: string, d: CourseData) {
    && CharCount(code) <= MAX_CODE && CharCount(d.name) <= MAX_NAME
    && FitsOptional(d.prereqs) && FitsOptional(d.coreqs) && FitsOptional(d.antireqs)
  }

  predicate CourseFits(c: Convert.CourseRow, authoritative: set<string>) {
    c.code != "" && c.code !in authoritative ==> FitsCourse(c.code, CourseDataOf(c))
  }

  // Every row that the update or the insert would write
  predicate CoursesFit(batch: seq<Convert.CourseRow>, authoritative: set<string>) {
    forall i :: 0 <= i < |batch| ==> CourseFits(batch[i], authoritative)
  }

  // The CHECK of the prof table, for the professors to insert
  predicate ProfsFit(batch: map<string, string>, known: map<string, Entry<string>>) {
    forall code :: code in batch ==> code == "" || code in known || CharCount(batch[code]) <= MAX_NAME
  }

  // The integer columns of the staging table
  predicate SectionFits(s: Convert.SectionRow) {
    IsInt32(s.key.classNumber) && IsInt32(s.key.termId) && IsInt32(s.capacity) && IsInt32(s.total)
  }

  predicate SectionsFit(batch: seq<Convert.SectionRow>) {
    forall i :: 0 <= i < |batch| ==> SectionFits(batch[i])
  }

  // The courses with a code among the first n
  function Coded(batch: seq<Convert.CourseRow>, n: nat): nat
    requires n <= |batch|
  {
    if n == 0 then 0 else Coded(batch, n - 1) + if |batch[n - 1].code| > 0 then 1 else 0
  }

  lemma {:induction false} StagedCount(batch: seq<Convert.CourseRow>, n: nat)
    requires n <= |batch|
    ensures |StagedCourses(batch, n)| == Coded(batch, n)
  {
    if n > 0 {
      StagedCount(batch, n - 1);
    }
  }

  ghost predicate HasKey<K, D>(rows: seq<Staged<K, D>>, key: K) {
    exists i :: 0 <= i < |rows| && rows[i].key == key
  }

  lemma HasKeySnoc<K, D>(rows: seq<Staged<K, D>>, row: Staged<K, D>, key: K)
    ensures HasKey(rows + [row], key) <==> HasKey(rows, key) || row.key == key
  {
    var all := rows + [row];
    assert all[|rows|] == row;
    if i :| 0 <= i < |rows| && rows[i].key == key {
      assert all[i].key == key;
    }
  }

  lemma {:induction false} StagedCoursesAre(batch: seq<Convert.CourseRow>, n: nat, code: string)
    requires n <= |batch|
    ensures HasKey(StagedCourses(batch, n), code) <==> code != "" && exists i :: 0 <= i < n && batch[i].code == code
  {
    if n > 0 {
      StagedCoursesAre(batch, n - 1, code);
      var c := batch[n - 1];
      if c.code != "" {
        HasKeySnoc(StagedCourses(batch, n - 1),
                   Staged(c.code, CourseDataOf(c)), code);
      }
    }
  }

  lemma DistinctKeysSnoc<K(!new), D(!new)>(rows: seq<Staged<K, D>>, row: Staged<K, D>)
    ensures DistinctKeys(rows + [row]) <==> DistinctKeys(rows) && !HasKey(rows, row.key)
  {
    var all := rows + [row];
    assert forall i :: 0 <= i < |rows| ==> all[i].key == rows[i].key;
    assert all[|rows|] == row;
    if DistinctKeys(all) {
      forall i, j | 0 <= i < j < |rows|
        ensures rows[i].key != rows[j].key
      {
        assert all[i].key != all[j].key;
      }
      forall i | 0 <= i < |rows|
        ensures rows[i].key != row.key
      {
        assert all[i].key != all[|rows|].key;
      }
    }
    if DistinctKeys(rows) && !HasKey(rows, row.key) {
      forall i, j | 0 <= i < j < |all|
        ensures all[i].key != all[j].key
      {
        assert all[i].key == rows[i].key;
        assert j < |rows| ==> all[j].key == rows[j].key;
      }
    }
  }

  // Two of the first n courses share a non-empty code.
  ghost predicate RepeatedCode(batch: seq<Convert.CourseRow>, n: nat)
    requires n <= |batch|
  {
    exists i, j :: 0 <= i < j < n && batch[i].code == batch[j].code && batch[i].code != ""
  }

  /** The staged codes are distinct exactly when no two courses share a non-empty code. */
  lemma {:induction false} StagedCoursesDistinct(batch: seq<Convert.CourseRow>, n: nat)
    requires n <= |batch|
    ensures DistinctKeys(StagedCourses(batch, n)) <==> !RepeatedCode(batch, n)
  {
    if n > 0 {
      StagedCoursesDistinct(batch, n - 1);
      var c := batch[n - 1];
      StagedCoursesAre(batch, n - 1, c.code);
      if c.code != "" {
        DistinctKeysSnoc(StagedCourses(batch, n - 1), Staged(c.code, CourseDataOf(c)));
      }
    }
  }

  lemma {:induction false} StagedSectionKeys(batch: seq<Convert.SectionRow>, courses: CourseTable, n: nat, i: nat)
    requires n <= |batch| && i < |StagedSections(batch, courses, n)|
    ensures exists j :: 0 <= j < n && batch[j].key == StagedSections(batch, courses, n)[i].key
  {
    if i < |StagedSections(batch, courses, n - 1)| {
      StagedSectionKeys(batch, courses, n - 1, i);
    }
  }

  lemma {:induction false} StagedSectionsDistinct(batch: seq<Convert.SectionRow>, courses: CourseTable, n: nat)
    requires n <= |batch| && Convert.DistinctKeys(batch)
    ensures DistinctKeys(StagedSections(batch, courses, n))
  {
    if n > 0 {
      StagedSectionsDistinct(batch, courses, n - 1);
      var s := batch[n - 1];
      if s.courseCode in courses {
        var earlier := StagedSections(batch, courses, n - 1);
        forall i | 0 <= i < |earlier|
          ensures earlier[i].key != s.key
        {
          StagedSectionKeys(batch, courses, n - 1, i);
        }
        DistinctKeysSnoc(earlier, Staged(s.key, SectionDataOf(s, courses)));
      }
    }
  }

  lemma DistinctNeverClashes<K(!new), D(!new)>(live: map<K, Entry<D>>, rows: seq<Staged<K, D>>)
    requires DistinctKeys(rows)
    ensures !Clash(live, rows, |rows|)
  {
  }

  // ----- requisites -----

  function PrereqPair(row: Convert.PrereqRow, courses: CourseTable): Option<Pair> {
    if row.courseCode in courses && row.prereqCode in courses
    then Some(Pair(courses[row.courseCode].id, courses[row.prereqCode].id)) else None
  }

  // The insert with ON CONFLICT DO NOTHING, row by row
  function PrereqsAfter(
    before: map<Pair, bool>, batch: seq<Convert.PrereqRow>, courses: CourseTable, n: nat): map<Pair, bool>
    requires n <= |batch|
  {
    if n == 0 then before
    else
      var earlier := PrereqsAfter(before, batch, courses, n - 1);
      var pair := PrereqPair(batch[n - 1], courses);
      if pair.None? || pair.value in earlier then earlier else earlier[pair.value := batch[n - 1].isCoreq]
  }

  // The batch names this pair first with this flag.
  ghost predicate Names(batch: seq<Convert.PrereqRow>, courses: CourseTable, n: nat, pair: Pair, isCoreq: bool)
    requires n <= |batch|
  {
    exists i :: 0 <= i < n && PrereqPair(batch[i], courses) == Some(pair) && batch[i].isCoreq == isCoreq
      && forall j :: 0 <= j < i ==> PrereqPair(batch[j], courses) != Some(pair)
  }

  ghost predicate NamesPair(batch: seq<Convert.PrereqRow>, courses: CourseTable, n: nat, pair: Pair)
    requires n <= |batch|
  {
    exists i :: 0 <= i < n && PrereqPair(batch[i], courses) == Some(pair)
  }

  /** The prerequisite table only grows: what it holds stays, flag included, and only missing pairs are added,
      each with the flag of its first row. */
  lemma {:induction false} PrereqsOnlyGrow(
    before: map<Pair, bool>, batch: seq<Convert.PrereqRow>, courses: CourseTable, n: nat, pair: Pair)
    requires n <= |batch|
    ensures var after := PrereqsAfter(before, batch, courses, n);
            && (pair in after <==> pair in before || NamesPair(batch, courses, n, pair))
            && (pair in before ==> after[pair] == before[pair])
            && (pair in after && pair !in before ==> Names(batch, courses, n, pair, after[pair]))
  {
    hide PrereqPair;
    if n > 0 {
      PrereqsOnlyGrow(before, batch, courses, n - 1, pair);
      var after := PrereqsAfter(before, batch, courses, n);
      if pair in after && pair !in before && !NamesPair(batch, courses, n - 1, pair) {
        assert Names(batch, courses, n, pair, after[pair]);
      }
    }
  }

  /** The prerequisite import is a replacement exactly when every row of the table is named again
      by the batch with the flag it had. */
  lemma {:induction false} PrereqsReplacedExactly(
    before: map<Pair, bool>, batch: seq<Convert.PrereqRow>, courses: CourseTable)
    ensures PrereqsAfter(before, batch, courses, |batch|) == PrereqsAfter(map[], batch, courses, |batch|) <==>
            forall pair :: pair in before ==> Names(batch, courses, |batch|, pair, before[pair])
  {
    var n := |batch|;
    var after, anew := PrereqsAfter(before, batch, courses, n), PrereqsAfter(map[], batch, courses, n);
    hide PrereqsAfter, Names, NamesPair;
    if after == anew {
      forall pair | pair in before
        ensures Names(batch, courses, n, pair, before[pair])
      {
        PrereqsOnlyGrow(before, batch, courses, n, pair);
        PrereqsOnlyGrow(map[], batch, courses, n, pair);
      }
    }
    if forall pair :: pair in before ==> Names(batch, courses, n, pair, before[pair]) {
      forall pair: Pair
        ensures pair in after <==> pair in anew
        ensures pair in after ==> pair in anew && after[pair] == anew[pair]
      {
        SameFlag(before, batch, courses, pair);
      }
    }
  }

  lemma NamesOnce(batch: seq<Convert.PrereqRow>, courses: CourseTable, n: nat, pair: Pair, a: bool, b: bool)
    requires n <= |batch| && Names(batch, courses, n, pair, a)
    ensures NamesPair(batch, courses, n, pair)
    ensures Names(batch, courses, n, pair, b) ==> a == b
  {
    hide PrereqPair;
  }

  lemma {:induction false} SameFlag(
    before: map<Pair, bool>, batch: seq<Convert.PrereqRow>, courses: CourseTable, pair: Pair)
    requires pair in before ==> Names(batch, courses, |batch|, pair, before[pair])
    ensures var after, anew := PrereqsAfter(before, batch, courses, |batch|),
            PrereqsAfter(map[], batch, courses, |batch|);
            && (pair in after <==> pair in anew)
            && (pair in after ==> after[pair] == anew[pair])
  {
    var n := |batch|;
    var after, anew := PrereqsAfter(before, batch, courses, n), PrereqsAfter(map[], batch, courses, n);
    hide PrereqsAfter, Names, NamesPair;
    PrereqsOnlyGrow(before, batch, courses, n, pair);
    PrereqsOnlyGrow(map[], batch, courses, n, pair);
    if pair in before {
      NamesOnce(batch, courses, n, pair, before[pair], before[pair]);
      NamesOnce(batch, courses, n, pair, before[pair], anew[pair]);
    } else if pair in after {
      NamesOnce(batch, courses, n, pair, after[pair], anew[pair]);
    }
  }

  /** A prerequisite that the batch no longer names stays, and so does the flag of one that it names differently. */
  lemma DroppedPrereqStays()
    ensures var stays := map[Pair(1, 2) := false];
            PrereqsAfter(stays, [], map[], 0) == stays != PrereqsAfter(map[], [], map[], 0)
    ensures var courses := map["cs136" := Entry(1, CourseData("", None, None, None, None)),
                               "cs135" := Entry(2, CourseData("", None, None, None, None))];
            PrereqsAfter(map[Pair(1, 2) := false], [Convert.PrereqRow("cs136", "cs135", true)], courses, 1)
              == map[Pair(1, 2) := false]
  {
    var before := map[Pair(1, 2) := false];
    assert Pair(1, 2) in before;
    var courses := map["cs136" := Entry(1, CourseData("", None, None, None, None)),
                       "cs135" := Entry(2, CourseData("", None, None, None, None))];
    var batch := [Convert.PrereqRow("cs136", "cs135", true)];
    assert "cs136"[4] != "cs135"[4];
    assert PrereqPair(batch[0], courses) == Some(Pair(1, 2));
    assert PrereqsAfter(before, batch, courses, 0) == before;
  }

  function AntireqPair(row: Convert.AntireqRow, courses: CourseTable): Option<Pair> {
    if row.courseCode in courses && row.antireqCode in courses
    then Some(Pair(courses[row.courseCode].id, courses[row.antireqCode].id)) else None
  }

  // The antirequisites that a batch names, whatever the table held
  function AntireqsOf(batch: seq<Convert.AntireqRow>, courses: CourseTable): set<Pair> {
    set i | 0 <= i < |batch| && AntireqPair(batch[i], courses).Some? :: AntireqPair(batch[i], courses).value
  }

  // Row i of the batch names two stored courses by their codes: a requires or excludes b.
  ghost predicate NamesIds(courseCode: string, otherCode: string, courses: CourseTable, a: int, b: int) {
    && courseCode in courses && courses[courseCode].id == a
    && otherCode in courses && courses[otherCode].id == b
  }

  /** The antirequisite table holds exactly the ids of the courses that some row names, the course first. */
  lemma {:induction false} AntireqsAre(batch: seq<Convert.AntireqRow>, courses: CourseTable, a: int, b: int)
    ensures Pair(a, b) in AntireqsOf(batch, courses) <==>
            exists i :: 0 <= i < |batch| && NamesIds(batch[i].courseCode, batch[i].antireqCode, courses, a, b)
  {
    if i :| 0 <= i < |batch| && NamesIds(batch[i].courseCode, batch[i].antireqCode, courses, a, b) {
      assert AntireqPair(batch[i], courses) == Some(Pair(a, b));
    }
    if Pair(a, b) in AntireqsOf(batch, courses) {
      var i :| 0 <= i < |batch| && AntireqPair(batch[i], courses) == Some(Pair(a, b));
      assert NamesIds(batch[i].courseCode, batch[i].antireqCode, courses, a, b);
    }
  }

  /** The prerequisite table holds what it held and exactly the ids of the courses that some row names. */
  lemma {:induction false} PrereqsAre(
    before: map<Pair, bool>, batch: seq<Convert.PrereqRow>, courses: CourseTable, a: int, b: int)
    ensures Pair(a, b) in PrereqsAfter(before, batch, courses, |batch|) <==>
            || Pair(a, b) in before
            || exists i :: 0 <= i < |batch| && NamesIds(batch[i].courseCode, batch[i].prereqCode, courses, a, b)
  {
    hide PrereqsAfter;
    PrereqsOnlyGrow(before, batch, courses, |batch|, Pair(a, b));
    if i :| 0 <= i < |batch| && NamesIds(batch[i].courseCode, batch[i].prereqCode, courses, a, b) {
      assert PrereqPair(batch[i], courses) == Some(Pair(a, b));
    }
    if NamesPair(batch, courses, |batch|, Pair(a, b)) {
      var i :| 0 <= i < |batch| && PrereqPair(batch[i], courses) == Some(Pair(a, b));
      assert NamesIds(batch[i].courseCode, batch[i].prereqCode, courses, a, b);
    }
  }

  /** A batch in which CS 136 excludes CS 146 stores that, in this direction only. */
  lemma AntireqIsStored()
    ensures var courses := map["cs136" := Entry(1, CourseData("", None, None, None, None)),
                               "cs146" := Entry(2, CourseData("", None, None, None, None))];
            AntireqsOf([Convert.AntireqRow("cs136", "cs146")], courses) == {Pair(1, 2)}
  {
    var courses := map["cs136" := Entry(1, CourseData("", None, None, None, None)),
                       "cs146" := Entry(2, CourseData("", None, None, None, None))];
    var batch := [Convert.AntireqRow("cs136", "cs146")];
    assert "cs136"[3] != "cs146"[3];
    assert AntireqPair(batch[0], courses) == Some(Pair(1, 2));
    assert forall pair :: pair in AntireqsOf(batch, courses) ==> pair == Pair(1, 2);
  }

  // ----- a batch and the tables -----

  datatype Batch = Batch(
    courses: seq<Convert.CourseRow>, prereqs: seq<Convert.PrereqRow>, antireqs: seq<Convert.AntireqRow>,
    profs: map<string, string>, sections: seq<Convert.SectionRow>, meetings: seq<Convert.MeetingRow>)

  datatype Tables = Tables(
    courses: CourseTable, authoritative: set<string>, prereqs: map<Pair, bool>, antireqs: set<Pair>,
    profs: Profs, sections: SectionTable, meetings: seq<Row>)

  // What an import of the professors leaves: the missing ones are added, the empty code is rejected.
  ghost predicate ProfsFollow(
    before: map<string, Entry<string>>, after: map<string, Entry<string>>, batch: map<string, string>) {
    && after.Keys == before.Keys + (batch.Keys - {""})
    && (forall code :: code in before ==> after[code] == before[code])
    && forall code :: code in batch && code != "" && code !in before ==> after[code].data == batch[code]
  }

  // The three tables that the first three inserts write; nextCourse is the next id before them.
  ghost predicate CoursesFollow(t: Tables, u: Tables, b: Batch, nextCourse: int) {
    && u.courses == Merged(t.courses, StagedCourses(b.courses, |b.courses|), t.authoritative, nextCourse)
    && u.authoritative == t.authoritative
    && u.prereqs == PrereqsAfter(t.prereqs, b.prereqs, u.courses, |b.prereqs|)
    && u.antireqs == AntireqsOf(b.antireqs, u.courses)
    && u.profs.remap == t.profs.remap
  }

  // The tables after an import that succeeds
  ghost predicate Follows(t: Tables, u: Tables, b: Batch, nextCourse: int, nextSection: int) {
    && CoursesFollow(t, u, b, nextCourse)
    && ProfsFollow(t.profs.ids, u.profs.ids, b.profs)
    && u.sections == Merged(t.sections, StagedSections(b.sections, u.courses, |b.sections|), {}, nextSection)
    && u.meetings == Replaced(t.meetings, b.sections, b.meetings, u.sections, u.profs)
  }

  // How far an import gets: the stage that it fails at, or the end.
  datatype Progress = NotFetched | NotStored | NoProfs | NoSections | Complete

  ghost function ProgressOf(t: Tables, b: Batch): Progress {
    if RepeatedCode(b.courses, |b.courses|) || !CoursesFit(b.courses, t.authoritative) then NotStored
    else if !ProfsFit(b.profs, t.profs.ids) then NoProfs
    else if !SectionsFit(b.sections) then NoSections
    else Complete
  }

  // What it leaves: the stages before the one that fails have been committed.
  ghost predicate Leaves(t: Tables, u: Tables, b: Batch, progress: Progress, nextCourse: int, nextSection: int) {
    match progress
    case NotFetched => u == t
    case NotStored => u == t
    case NoProfs =>
      CoursesFollow(t, u, b, nextCourse) && u.profs == t.profs && u.sections == t.sections && u.meetings == t.meetings
    case NoSections =>
      && CoursesFollow(t, u, b, nextCourse) && ProfsFollow(t.profs.ids, u.profs.ids, b.profs)
      && u.sections == t.sections && u.meetings == t.meetings
    case Complete => Follows(t, u, b, nextCourse, nextSection)
  }

  // The sections read as the staged rows do, whenever they were written.
  ghost predicate SectionsHold(live: SectionTable, rows: seq<Staged<Convert.Key, SectionData>>) {
    forall i :: 0 <= i < |rows| ==> SectionHolds(live, rows[i])
  }

  predicate SectionHolds(live: SectionTable, row: Staged<Convert.Key, SectionData>) {
    row.key in live && live[row.key].data.(updatedAt := 0) == row.data.(updatedAt := 0)
  }

  // The tables already read as the batch does, but for the times of the sections.
  ghost predicate Imported(t: Tables, b: Batch) {
    && Holds(t.courses, StagedCourses(b.courses, |b.courses|), t.authoritative)
    && (forall pair :: NamesPair(b.prereqs, t.courses, |b.prereqs|, pair) ==> pair in t.prereqs)
    && t.antireqs == AntireqsOf(b.antireqs, t.courses)
    && b.profs.Keys - {""} <= t.profs.ids.Keys
    && SectionsHold(t.sections, StagedSections(b.sections, t.courses, |b.sections|))
    && Replaced(t.meetings, b.sections, b.meetings, t.sections, t.profs) == t.meetings
  }

  // A batch that convertAll makes and that the database accepts
  ghost predicate Importable(b: Batch) {
    && !RepeatedCode(b.courses, |b.courses|)
    && Convert.DistinctKeys(b.sections)
    && Convert.EveryMeetingHasSection(b.sections, b.meetings)
  }

  lemma {:induction false} MergedSectionsHold(
    live: SectionTable, rows: seq<Staged<Convert.Key, SectionData>>, next: int)
    requires DistinctKeys(rows)
    ensures SectionsHold(Merged(live, rows, {}, next), rows)
  {
    hide Merged, Find, DistinctKeys, Clash;
    DistinctNeverClashes(live, rows);
    forall i | 0 <= i < |rows|
      ensures SectionHolds(Merged(live, rows, {}, next), rows[i])
    {
      FindRow(rows, |rows|, i);
      MergedIs(live, rows, {}, next, rows[i].key);
    }
  }

  /** After an import the tables read as the batch does. */
  lemma {:induction false} ImportReaches(t: Tables, u: Tables, b: Batch, nextCourse: int, nextSection: int)
    requires Importable(b) && t.authoritative <= t.courses.Keys && Follows(t, u, b, nextCourse, nextSection)
    ensures Imported(u, b)
  {
    hide Merged, StagedCourses, StagedSections, Holds, NamesPair, PrereqsAfter, Replaced, AntireqsOf, Clash,
         DistinctKeys, RepeatedCode, Convert.DistinctKeys, Convert.EveryMeetingHasSection, Covered, SectionsHold;
    StagedCoursesDistinct(b.courses, |b.courses|);
    DistinctNeverClashes(t.courses, StagedCourses(b.courses, |b.courses|));
    MergedHolds(t.courses, StagedCourses(b.courses, |b.courses|), t.authoritative, nextCourse);
    forall pair | NamesPair(b.prereqs, u.courses, |b.prereqs|, pair)
      ensures pair in u.prereqs
    {
      PrereqsOnlyGrow(t.prereqs, b.prereqs, u.courses, |b.prereqs|, pair);
    }
    StagedSectionsDistinct(b.sections, u.courses, |b.sections|);
    MergedSectionsHold(t.sections, StagedSections(b.sections, u.courses, |b.sections|), nextSection);
    ConvertedIsCovered(b.sections, b.meetings, u.sections);
    ReplacedTwice(t.meetings, b.sections, b.meetings, u.sections, u.profs);
  }

  // ----- the same batch at another time -----

  // The staged sections of known courses get the times of their rows; nothing else changes.
  function Restamped(live: SectionTable, rows: seq<Staged<Convert.Key, SectionData>>): (after: SectionTable)
    ensures SameIds(live, after)
    ensures forall k :: k in live ==> after[k].data.(updatedAt := 0) == live[k].data.(updatedAt := 0)
    ensures forall k :: k in live && Find(rows, |rows|, k).None? ==> after[k] == live[k]
  {
    map k | k in live ::
      var row := Find(rows, |rows|, k);
      if row.None? then live[k] else live[k].(data := live[k].data.(updatedAt := row.value.updatedAt))
  }

  lemma {:induction false} RestampedWhenHeld(live: SectionTable, rows: seq<Staged<Convert.Key, SectionData>>, next: int)
    requires DistinctKeys(rows) && SectionsHold(live, rows)
    ensures Merged(live, rows, {}, next) == Restamped(live, rows) && NewCount(live, rows, |rows|) == 0
  {
    hide Find, DistinctKeys, New, NewCount, Restamped;
    assert forall i :: 0 <= i < |rows| ==> SectionHolds(live, rows[i]) && rows[i].key in live;
    NothingNew(live, rows, |rows|, next);
    var a, b := Merged(live, rows, {}, next), Restamped(live, rows);
    forall k | k in live
      ensures k in a && k in b && a[k] == b[k]
    {
      RestampedAt(live, rows, k);
    }
    assert a == b;
  }

  lemma {:induction false} RestampedAt(live: SectionTable, rows: seq<Staged<Convert.Key, SectionData>>, k: Convert.Key)
    requires SectionsHold(live, rows) && k in live
    ensures Updated(live, rows, {})[k] == Restamped(live, rows)[k]
  {
    hide Find;
    FindIs(rows, |rows|, k);
    if Find(rows, |rows|, k).Some? {
      var i :| 0 <= i < |rows| && rows[i] == Staged(k, Find(rows, |rows|, k).value);
      assert SectionHolds(live, rows[i]);
    }
  }

  /** Importing a batch that the tables already read inserts nothing and changes nothing but the times of
      the staged sections. */
  lemma {:induction false} ImportRepeats(t: Tables, u: Tables, b: Batch, nextCourse: int, nextSection: int)
    requires Importable(b) && t.authoritative <= t.courses.Keys && Follows(t, u, b, nextCourse, nextSection)
    requires Imported(t, b)
    ensures var courses, sections :=
              StagedCourses(b.courses, |b.courses|), StagedSections(b.sections, t.courses, |b.sections|);
            && Refreshed(t, u, b)
            && NewCount(t.courses, courses, |courses|) == 0
            && NewCount(t.sections, sections, |sections|) == 0
  {
    hide Merged, StagedCourses, StagedSections, Holds, NamesPair, PrereqsAfter, Replaced, AntireqsOf, Clash,
         DistinctKeys, RepeatedCode, Convert.DistinctKeys, Convert.EveryMeetingHasSection, Covered,
         SectionsHold, NewCount, Restamped;
    StagedCoursesDistinct(b.courses, |b.courses|);
    DistinctNeverClashes(t.courses, StagedCourses(b.courses, |b.courses|));
    FixedWhenHeld(t.courses, StagedCourses(b.courses, |b.courses|), t.authoritative, nextCourse);
    PrereqsFixed(t.prereqs, b.prereqs, t.courses);
    StagedSectionsDistinct(b.sections, t.courses, |b.sections|);
    RestampedWhenHeld(t.sections, StagedSections(b.sections, t.courses, |b.sections|), nextSection);
    assert u.profs.ids == t.profs.ids;
    ReplacedByIds(t.meetings, b.sections, b.meetings, t.sections, u.sections, t.profs);
  }

  // Every table is as it was but for the times of the staged sections.
  ghost predicate Refreshed(t: Tables, u: Tables, b: Batch) {
    u == t.(sections := Restamped(t.sections, StagedSections(b.sections, t.courses, |b.sections|)))
  }

  // Two batches that differ in the times of their sections only
  ghost predicate SameButTimes(b: Batch, c: Batch) {
    c == b.(sections := c.sections) && Convert.SameButTime(b.sections, c.sections)
  }

  lemma {:induction false} StagedAtAnyTime(
    a: seq<Convert.SectionRow>, b: seq<Convert.SectionRow>, courses: CourseTable, n: nat)
    requires n <= |a| && Convert.SameButTime(a, b)
    ensures var r, q := StagedSections(a, courses, n), StagedSections(b, courses, n);
            |r| == |q| && forall i :: 0 <= i < |r| ==>
              r[i].key == q[i].key && r[i].data.(updatedAt := 0) == q[i].data.(updatedAt := 0)
  {
    if n > 0 {
      StagedAtAnyTime(a, b, courses, n - 1);
      assert a[n - 1].(updatedAt := 0) == b[n - 1].(updatedAt := 0);
      SameRow(a[n - 1], b[n - 1], courses);
    }
  }

  lemma SameRow(a: Convert.SectionRow, b: Convert.SectionRow, courses: CourseTable)
    requires a.(updatedAt := 0) == b.(updatedAt := 0)
    ensures a.key == b.key && a.courseCode == b.courseCode
    ensures a.courseCode in courses ==>
              SectionDataOf(a, courses).(updatedAt := 0) == SectionDataOf(b, courses).(updatedAt := 0)
  {
    assert a.(updatedAt := 0).key == a.key && b.(updatedAt := 0).key == b.key;
    assert a == a.(updatedAt := 0).(updatedAt := a.updatedAt) && b == a.(updatedAt := b.updatedAt);
  }

  /** Whether the tables read as a batch does not depend on the time at which the batch was made. */
  lemma {:induction false} ImportedAtAnyTime(t: Tables, b: Batch, c: Batch)
    requires SameButTimes(b, c) && Imported(t, b)
    ensures Imported(t, c)
  {
    hide StagedCourses, StagedSections, Holds, NamesPair, Replaced, AntireqsOf;
    StagedAtAnyTime(b.sections, c.sections, t.courses, |b.sections|);
    var r, q := StagedSections(b.sections, t.courses, |b.sections|),
        StagedSections(c.sections, t.courses, |c.sections|);
    forall i | 0 <= i < |q|
      ensures SectionHolds(t.sections, q[i])
    {
      assert SectionHolds(t.sections, r[i]);
    }
    DeltaKeys(b.sections, c.sections);
    ReplacedByKeys(t.meetings, b.sections, c.sections, b.meetings, t.sections, t.profs);
  }

  lemma DeltaKeys(a: seq<Convert.SectionRow>, b: seq<Convert.SectionRow>)
    requires Convert.SameButTime(a, b)
    ensures |a| == |b| && forall i :: 0 <= i < |a| ==> a[i].key == b[i].key
  {
    forall i | 0 <= i < |a|
      ensures a[i].key == b[i].key
    {
      SameRow(a[i], b[i], map[]);
    }
  }

  lemma {:induction false} PrereqsFixed(before: map<Pair, bool>, batch: seq<Convert.PrereqRow>, courses: CourseTable)
    requires forall pair :: NamesPair(batch, courses, |batch|, pair) ==> pair in before
    ensures PrereqsAfter(before, batch, courses, |batch|) == before
  {
    hide PrereqsAfter, NamesPair;
    var after := PrereqsAfter(before, batch, courses, |batch|);
    forall pair: Pair
      ensures pair in after <==> pair in before
      ensures pair in before ==> after[pair] == before[pair]
    {
      PrereqsOnlyGrow(before, batch, courses, |batch|, pair);
    }
  }

  /** After an import, the professor of an imported meeting is missing only when the meeting has no
      instructor, or one whose name has no letters and is not remapped. */
  lemma ProfsAreFound(t: Tables, u: Tables, b: Batch, i: nat, nextCourse: int, nextSection: int)
    requires Follows(t, u, b, nextCourse, nextSection) && i < |b.meetings|
    requires b.meetings[i].profCode.Some? ==> b.meetings[i].profCode.value in b.profs
    ensures var code := b.meetings[i].profCode;
            Resolve(u.profs, code).None? ==> code.None? || code == Some("")
  {
  }

  // The rows are those of the codes, without the empty one.
  ghost predicate Lists(rows: seq<Staged<string, string>>, batch: map<string, string>, codes: set<string>) {
    && (forall i :: 0 <= i < |rows| ==>
          rows[i].key in codes && rows[i].key != "" && rows[i].key in batch && rows[i].data == batch[rows[i].key])
    && forall code :: code in codes && code != "" ==> exists i :: 0 <= i < |rows| && rows[i].key == code
  }

  lemma NothingListed(batch: map<string, string>)
    ensures DistinctKeys<string, string>([]) && Lists([], batch, batch.Keys - batch.Keys)
  {
  }

  lemma ListOne(rows: seq<Staged<string, string>>, batch: map<string, string>, codes: set<string>, code: string)
    requires DistinctKeys(rows) && Lists(rows, batch, codes) && code in batch && code !in codes
    ensures code == "" ==> Lists(rows, batch, codes + {code})
    ensures var more := rows + [Staged(code, batch[code])];
            code != "" ==> DistinctKeys(more) && Lists(more, batch, codes + {code})
  {
    var row := Staged(code, batch[code]);
    DistinctKeysSnoc(rows, row);
    var all := rows + [row];
    assert forall i :: 0 <= i < |rows| ==> all[i] == rows[i];
    assert all[|rows|] == row;
  }

  lemma MergedProfs(
    live: map<string, Entry<string>>, rows: seq<Staged<string, string>>, next: int, batch: map<string, string>)
    requires Lists(rows, batch, batch.Keys) && DistinctKeys(rows)
    ensures ProfsFollow(live, Merged(live, rows, live.Keys, next), batch)
  {
    hide Merged, Find, Clash, DistinctKeys;
    var after := Merged(live, rows, live.Keys, next);
    DistinctNeverClashes(live, rows);
    forall code: string
      ensures code in after <==> code in live || (code in batch && code != "")
      ensures code in live ==> code in after && after[code] == live[code]
      ensures code in after && code !in live ==> after[code].data == batch[code]
    {
      MergedIs(live, rows, live.Keys, next, code);
      FindIs(rows, |rows|, code);
    }
    assert after.Keys == live.Keys + (batch.Keys - {""});
  }

  // ----- row by row -----

  lemma {:induction false} CourseRowIsStaged(batch: seq<Convert.CourseRow>, n: nat, i: nat) returns (k: nat)
    requires i < n <= |batch| && batch[i].code != ""
    ensures k < |StagedCourses(batch, n)| && StagedCourses(batch, n)[k] == Staged(batch[i].code, CourseDataOf(batch[i]))
  {
    if i == n - 1 {
      k := |StagedCourses(batch, n - 1)|;
    } else {
      k := CourseRowIsStaged(batch, n - 1, i);
    }
  }

  lemma {:induction false} SectionRowIsStaged(batch: seq<Convert.SectionRow>, courses: CourseTable, n: nat, i: nat)
    returns (k: nat)
    requires i < n <= |batch| && batch[i].courseCode in courses
    ensures k < |StagedSections(batch, courses, n)|
    ensures StagedSections(batch, courses, n)[k] == Staged(batch[i].key, SectionDataOf(batch[i], courses))
  {
    if i == n - 1 {
      k := |StagedSections(batch, courses, n - 1)|;
    } else {
      k := SectionRowIsStaged(batch, courses, n - 1, i);
    }
  }

  /** After an import each course of the batch reads as its row, unless it was authoritative before:
      then it is as it was. Its id does not change. */
  lemma CourseIsImported(t: Tables, u: Tables, b: Batch, nextCourse: int, nextSection: int, i: nat)
    requires Importable(b) && Follows(t, u, b, nextCourse, nextSection) && i < |b.courses| && b.courses[i].code != ""
    ensures var code := b.courses[i].code;
            && code in u.courses
            && (code in t.courses && code in t.authoritative ==> u.courses[code] == t.courses[code])
            && (!(code in t.courses && code in t.authoritative) ==>
                  && u.courses[code].data.name == b.courses[i].name
                  && u.courses[code].data.description == b.courses[i].description
                  && u.courses[code].data.prereqs == b.courses[i].prereqs
                  && u.courses[code].data.coreqs == b.courses[i].coreqs
                  && u.courses[code].data.antireqs == b.courses[i].antireqs)
            && (code in t.courses ==> u.courses[code].id == t.courses[code].id)
  {
    hide StagedCourses, StagedSections, Merged, Find, DistinctKeys, RepeatedCode, Clash,
         Replaced, PrereqsAfter, AntireqsOf;
    var rows := StagedCourses(b.courses, |b.courses|);
    StagedCoursesDistinct(b.courses, |b.courses|);
    DistinctNeverClashes(t.courses, rows);
    MergedIs(t.courses, rows, t.authoritative, nextCourse, b.courses[i].code);
    var k := CourseRowIsStaged(b.courses, |b.courses|, i);
    FindRow(rows, |rows|, k);
  }

  /** After an import a course that the batch does not name is as it was, and a course is never lost. */
  lemma OtherCoursesAreKept(t: Tables, u: Tables, b: Batch, nextCourse: int, nextSection: int, code: string)
    requires Importable(b) && Follows(t, u, b, nextCourse, nextSection)
    ensures code in t.courses ==> code in u.courses && u.courses[code].id == t.courses[code].id
    ensures (forall i :: 0 <= i < |b.courses| ==> b.courses[i].code != code) ==>
              (code in u.courses <==> code in t.courses) && (code in t.courses ==> u.courses[code] == t.courses[code])
  {
    hide StagedCourses, StagedSections, Merged, Find, DistinctKeys, RepeatedCode, Clash, Replaced, PrereqsAfter,
         AntireqsOf;
    var rows := StagedCourses(b.courses, |b.courses|);
    StagedCoursesDistinct(b.courses, |b.courses|);
    DistinctNeverClashes(t.courses, rows);
    MergedIs(t.courses, rows, t.authoritative, nextCourse, code);
    FindIs(rows, |rows|, code);
    StagedCoursesAre(b.courses, |b.courses|, code);
  }

  /** After an import each section of the batch whose course is known reads as its row. Its id does not change. */
  lemma SectionIsImported(t: Tables, u: Tables, b: Batch, nextCourse: int, nextSection: int, i: nat)
    requires Importable(b) && Follows(t, u, b, nextCourse, nextSection)
    requires i < |b.sections| && b.sections[i].courseCode in u.courses
    ensures var key := b.sections[i].key;
            && key in u.sections
            && u.sections[key].data.course == u.courses[b.sections[i].courseCode].id
            && u.sections[key].data.name == b.sections[i].name
            && u.sections[key].data.capacity == b.sections[i].capacity
            && u.sections[key].data.total == b.sections[i].total
            && u.sections[key].data.updatedAt == b.sections[i].updatedAt
            && u.sections[key].data.isOnline == b.sections[i].isOnline
            && (key in t.sections ==> u.sections[key].id == t.sections[key].id)
  {
    hide StagedCourses, StagedSections, Merged, Find, DistinctKeys, RepeatedCode, Clash,
         Replaced, PrereqsAfter, AntireqsOf, Convert.DistinctKeys;
    var rows := StagedSections(b.sections, u.courses, |b.sections|);
    StagedSectionsDistinct(b.sections, u.courses, |b.sections|);
    DistinctNeverClashes(t.sections, rows);
    MergedIs(t.sections, rows, {}, nextSection, b.sections[i].key);
    var k := SectionRowIsStaged(b.sections, u.courses, |b.sections|, i);
    FindRow(rows, |rows|, k);
  }

  /** After an import a section that the batch does not name is as it was, and a section is never lost. */
  lemma OtherSectionsAreKept(t: Tables, u: Tables, b: Batch, nextCourse: int, nextSection: int, key: Convert.Key)
    requires Importable(b) && Follows(t, u, b, nextCourse, nextSection)
    ensures key in t.sections ==> key in u.sections && u.sections[key].id == t.sections[key].id
    ensures !Convert.HasSection(b.sections, key) ==>
              (key in u.sections <==> key in t.sections) && (key in t.sections ==> u.sections[key] == t.sections[key])
  {
    hide StagedCourses, StagedSections, Merged, Find, DistinctKeys, RepeatedCode, Clash, Replaced, PrereqsAfter,
         AntireqsOf, Convert.DistinctKeys;
    var rows := StagedSections(b.sections, u.courses, |b.sections|);
    StagedSectionsDistinct(b.sections, u.courses, |b.sections|);
    DistinctNeverClashes(t.sections, rows);
    MergedIs(t.sections, rows, {}, nextSection, key);
    FindIs(rows, |rows|, key);
    if k :| 0 <= k < |rows| && rows[k].key == key {
      StagedSectionKeys(b.sections, u.courses, |b.sections|, k);
    }
  }

  /** After an import the antirequisites are exactly those that the batch names, and the prerequisites those that were
      stored and those that the batch names. */
  lemma RequisitesAreImported(t: Tables, u: Tables, b: Batch, nextCourse: int, nextSection: int, x: int, y: int)
    requires Follows(t, u, b, nextCourse, nextSection)
    ensures Pair(x, y) in u.antireqs <==>
            exists i :: 0 <= i < |b.antireqs|
              && NamesIds(b.antireqs[i].courseCode, b.antireqs[i].antireqCode, u.courses, x, y)
    ensures Pair(x, y) in u.prereqs <==>
            || Pair(x, y) in t.prereqs
            || exists i :: 0 <= i < |b.prereqs|
                 && NamesIds(b.prereqs[i].courseCode, b.prereqs[i].prereqCode, u.courses, x, y)
  {
    hide PrereqsAfter, AntireqsOf, Merged, NamesIds, StagedCourses, StagedSections, Replaced;
    AntireqsAre(b.antireqs, u.courses, x, y);
    PrereqsAre(t.prereqs, b.prereqs, u.courses, x, y);
  }

  /** After an import each live section of the batch holds exactly its meetings of the batch, and every other
      section holds the meetings that it had. */
  lemma {:induction false} MeetingsAreImported(
    t: Tables, u: Tables, b: Batch, nextCourse: int, nextSection: int, next: int, key: Convert.Key)
    requires Importable(b) && Follows(t, u, b, nextCourse, nextSection) 
    requires UniqueIds(u.sections, next) && key in u.sections
    ensures MeetingsAt(u.meetings, u.sections[key].id) ==
            if Convert.HasSection(b.sections, key) then StagedAt(b.meetings, key, u.profs)
            else MeetingsAt(t.meetings, u.sections[key].id)
  {
    hide Merged, Replaced, StagedCourses, StagedSections, MeetingsAt, StagedAt, PrereqsAfter, AntireqsOf, UniqueIds,
         Convert.DistinctKeys, Convert.EveryMeetingHasSection, Convert.HasSection, RepeatedCode;
    MeetingsAreReplaced(t.meetings, b.sections, b.meetings, u.sections, u.profs, key, next);
  }

  // ----- what the API delivers -----

  function TermSet(termIds: seq<int>): set<int> {
    set t | t in termIds
  }

  ghost function CoursesOf(answers: seq<Option<seq<Convert.ApiCourse>>>): seq<Convert.ApiCourse> {
    var all := Fetch.AllTerms(answers, |answers|);
    if all.None? then [] else Fetch.FetchedCourses(all.value)
  }

  // What the conversion demands of the API: see Convert.Readable and Convert.Convertible.
  ghost predicate Acceptable(courses: seq<Convert.ApiCourse>, classes: seq<Convert.ApiClass>, termIds: seq<int>) {
    && (forall i :: 0 <= i < |courses| ==> Convert.Readable(courses[i]))
    && Convert.AllConvertible(classes, TermSet(termIds))
  }

  ghost predicate AcceptableAnswers(
    answers: seq<Option<seq<Convert.ApiCourse>>>, api: Fetch.ClassApi, termIds: seq<int>)
  {
    Acceptable(CoursesOf(answers), Fetch.FetchedClasses(api, CoursesOf(answers), termIds), termIds)
  }

  ghost function BatchFrom(
    courses: seq<Convert.ApiCourse>, classes: seq<Convert.ApiClass>, termIds: seq<int>, clock: nat -> int): Batch
    requires Acceptable(courses, classes, termIds)
  {
    Batch(Convert.Courses(courses, |courses|), Convert.Prereqs(courses, |courses|),
          Convert.Antireqs(courses, |courses|),
          Convert.Profs(classes, |classes|), Convert.Sections(classes, |classes|, TermSet(termIds), clock),
          Convert.Meetings(classes, |classes|))
  }

  ghost function BatchOf(
    answers: seq<Option<seq<Convert.ApiCourse>>>, api: Fetch.ClassApi, termIds: seq<int>, clock: nat -> int): Batch
    requires AcceptableAnswers(answers, api, termIds)
  {
    BatchFrom(CoursesOf(answers), Fetch.FetchedClasses(api, CoursesOf(answers), termIds), termIds, clock)
  }

  /** Whatever the API delivers, the sections have distinct keys and every meeting has a section. */
  lemma ConvertedIsImportable(
    courses: seq<Convert.ApiCourse>, classes: seq<Convert.ApiClass>, termIds: seq<int>, clock: nat -> int)
    requires Acceptable(courses, classes, termIds)
    ensures var b := BatchFrom(courses, classes, termIds, clock);
            Importable(b) <==> !RepeatedCode(b.courses, |b.courses|)
  {
    hide RepeatedCode, Convert.DistinctKeys, Convert.EveryMeetingHasSection, Convert.AllConvertible, TermSet;
    Convert.SectionKeysAreDistinct(classes, |classes|, TermSet(termIds), clock);
    Convert.MeetingsHaveSections(classes, |classes|, TermSet(termIds), clock);
  }

  /** Fetched courses share a code exactly when their codes differ in letter case only. */
  lemma RepeatsAreCaseClashes(all: seq<Convert.ApiCourse>)
    ensures var courses := Fetch.FetchedCourses(all);
            RepeatedCode(Convert.Courses(courses, |courses|), |courses|) <==> Fetch.CaseClash(courses)
  {
    var courses := Fetch.FetchedCourses(all);
    hide Fetch.FetchedCourses, Fetch.CaseClash, Convert.CodeOf;
    Fetch.FetchedCodesClash(all);
    var rows := Convert.Courses(courses, |courses|);
    assert forall i :: 0 <= i < |courses| ==> rows[i].code == Convert.CodeOf(courses[i]);
    assert RepeatedCode(rows, |courses|) <==>
      exists i, j :: 0 <= i < j < |courses| && Fetch.SameCode(courses[i], courses[j]);
  }

  // ----- nothing is rejected -----

  ghost predicate NoEmptyCodes(courses: seq<Convert.ApiCourse>) {
    forall i :: 0 <= i < |courses| ==> Convert.CodeOf(courses[i]) != ""
  }

  ghost predicate HasCourse(courses: seq<Convert.CourseRow>, code: string) {
    code != "" && exists i :: 0 <= i < |courses| && courses[i].code == code
  }

  // Every section names a course of the batch.
  ghost predicate EverySectionHasCourse(b: Batch) {
    forall i :: 0 <= i < |b.sections| ==> HasCourse(b.courses, b.sections[i].courseCode)
  }

  lemma {:induction false} SectionHasCourse(
    courses: seq<Convert.ApiCourse>, api: Fetch.ClassApi, termIds: seq<int>, clock: nat -> int, row: Convert.SectionRow)
    requires Acceptable(courses, Fetch.FetchedClasses(api, courses, termIds), termIds) && NoEmptyCodes(courses)
    requires var classes := Fetch.FetchedClasses(api, courses, termIds);
             row in Convert.Sections(classes, |classes|, TermSet(termIds), clock)
    ensures HasCourse(Convert.Courses(courses, |courses|), row.courseCode)
  {
    var classes := Fetch.FetchedClasses(api, courses, termIds);
    hide Fetch.FetchedClasses, Convert.CodeOf, Convert.Seen, TermSet;
    Convert.SectionsAre(classes, |classes|, TermSet(termIds), clock, row);
    var i :| 0 <= i < |classes| && Convert.First(classes, i) && Convert.IsReal(classes[i])
      && row == Convert.SectionOf(classes[i], Convert.KeyOf(classes[i]).value, clock(i));
    Fetch.ClassCodesAreKnown(api, courses, termIds, i);
    var j :| 0 <= j < |courses| && Convert.CodeOf(courses[j]) == classes[i].courseCode;
    assert Convert.Courses(courses, |courses|)[j].code == row.courseCode;
  }

  /** When no course code is empty, every fetched section names a fetched course. */
  lemma FetchedSectionsHaveCourses(
    courses: seq<Convert.ApiCourse>, api: Fetch.ClassApi, termIds: seq<int>, clock: nat -> int)
    requires Acceptable(courses, Fetch.FetchedClasses(api, courses, termIds), termIds) && NoEmptyCodes(courses)
    ensures EverySectionHasCourse(BatchFrom(courses, Fetch.FetchedClasses(api, courses, termIds), termIds, clock))
  {
    hide Fetch.FetchedClasses, HasCourse, NoEmptyCodes;
    var b := BatchFrom(courses, Fetch.FetchedClasses(api, courses, termIds), termIds, clock);
    forall i | 0 <= i < |b.sections|
      ensures HasCourse(b.courses, b.sections[i].courseCode)
    {
      SectionHasCourse(courses, api, termIds, clock, b.sections[i]);
    }
  }

  lemma HeldKeyIsLive<K(!new), D(!new)>(live: map<K, Entry<D>>, rows: seq<Staged<K, D>>, locked: set<K>, k: K)
    requires Holds(live, rows, locked) && HasKey(rows, k)
    ensures k in live
  {
    var i :| 0 <= i < |rows| && rows[i].key == k;
    assert HoldsKey(live, rows, locked, rows[i].key);
  }

  lemma {:induction false} AllSectionsStaged(batch: seq<Convert.SectionRow>, courses: CourseTable, n: nat)
    requires n <= |batch| && forall i :: 0 <= i < n ==> batch[i].courseCode in courses
    ensures |StagedSections(batch, courses, n)| == n
    ensures forall i :: 0 <= i < n ==> StagedSections(batch, courses, n)[i].key == batch[i].key
  {
    if n > 0 {
      AllSectionsStaged(batch, courses, n - 1);
    }
  }

  lemma {:induction false} AllMeetingsJoined(batch: seq<Convert.MeetingRow>, sections: SectionTable, profs: Profs)
    requires forall i :: 0 <= i < |batch| ==> batch[i].key in sections
    ensures |Joined(batch, sections, profs)| == |batch|
  {
    hide DetailsOf;
    if |batch| > 0 {
      AllMeetingsJoined(batch[..|batch| - 1], sections, profs);
    }
  }

  lemma SectionsOfCoursesAreStaged(u: Tables, b: Batch)
    requires Imported(u, b) && EverySectionHasCourse(b)
    ensures |StagedSections(b.sections, u.courses, |b.sections|)| == |b.sections|
    ensures forall i :: 0 <= i < |b.sections| ==> b.sections[i].key in u.sections
  {
    hide StagedCourses, StagedSections, Holds, NamesPair, Replaced, AntireqsOf, HasKey;
    forall i | 0 <= i < |b.sections|
      ensures b.sections[i].courseCode in u.courses
    {
      assert HasCourse(b.courses, b.sections[i].courseCode);
      StagedCoursesAre(b.courses, |b.courses|, b.sections[i].courseCode);
      HeldKeyIsLive(u.courses, StagedCourses(b.courses, |b.courses|), u.authoritative, b.sections[i].courseCode);
    }
    AllSectionsStaged(b.sections, u.courses, |b.sections|);
    var rows := StagedSections(b.sections, u.courses, |b.sections|);
    forall i | 0 <= i < |b.sections|
      ensures b.sections[i].key in u.sections
    {
      assert SectionHolds(u.sections, rows[i]);
    }
  }

  /** After an import in which every section names a course of the batch, every section and every meeting
      of the batch is live. */
  lemma NothingIsRejected(u: Tables, b: Batch)
    requires Importable(b) && Imported(u, b) && EverySectionHasCourse(b)
    ensures |StagedSections(b.sections, u.courses, |b.sections|)| == |b.sections|
    ensures |Joined(b.meetings, u.sections, u.profs)| == |b.meetings|
  {
    hide Imported, EverySectionHasCourse, StagedSections;
    SectionsOfCoursesAreStaged(u, b);
    forall i | 0 <= i < |b.meetings|
      ensures b.meetings[i].key in u.sections
    {
      assert Convert.HasSection(b.sections, b.meetings[i].key);
    }
    AllMeetingsJoined(b.meetings, u.sections, u.profs);
  }

  function Letters(n: nat): (s: string)
    ensures |s| == n && forall i :: 0 <= i < n ==> s[i] == 'a'
  {
    seq(n, _ => 'a')
  }

  /** A code of 16 characters, a name of 256 and a requisite text of 1024 fit, and nothing longer does. */
  lemma Limits(n: nat)
    ensures var d := CourseData("", None, None, None, None);
            && (FitsCourse(Letters(n), d) <==> n <= 16)
            && (FitsCourse("", d.(name := Letters(n))) <==> n <= 256)
            && (FitsCourse("", d.(prereqs := Some(Letters(n)))) <==> n <= 1024)
            && (FitsCourse("", d.(coreqs := Some(Letters(n)))) <==> n <= 1024)
            && (FitsCourse("", d.(antireqs := Some(Letters(n)))) <==> n <= 1024)
            && FitsCourse("", d.(description := Some(Letters(n))))
            && (ProfsFit(map["a" := Letters(n)], map[]) <==> n <= 256)
    ensures IsInt32(2147483647) && !IsInt32(2147483648) && IsInt32(-2147483648) && !IsInt32(-2147483649)
  {
    CharCountIs(Letters(n));
    hide CharCount;
    CharCountIs("");
    assert "a" in map["a" := Letters(n)] && "a" != "";
  }

  /** A course without a code or with an authoritative one is not checked; the four numbers of a section must fit
      into 32 bits. */
  lemma Checks(row: Convert.CourseRow, section: Convert.SectionRow, authoritative: set<string>)
    ensures CourseFits(row.(code := ""), authoritative)
    ensures row.code in authoritative ==> CourseFits(row, authoritative)
    ensures var numbers := [section.key.classNumber, section.key.termId, section.capacity, section.total];
            SectionFits(section) <==> forall i :: 0 <= i < |numbers| ==> -2147483648 <= numbers[i] <= 2147483647
  {
    var numbers := [section.key.classNumber, section.key.termId, section.capacity, section.total];
    assert numbers[0] == section.key.classNumber && numbers[1] == section.key.termId;
    assert numbers[2] == section.capacity && numbers[3] == section.total;
  }

  // ----- the constraints of the live tables -----

  // The CHECKs hold of the live rows.
  predicate TableFits(courses: CourseTable) {
    forall code :: code in courses ==> FitsCourse(code, courses[code].data)
  }

  predicate NamesFit(profs: map<string, Entry<string>>) {
    forall code :: code in profs ==> CharCount(profs[code].data) <= MAX_NAME
  }

  lemma {:induction false} StagedRowFits(batch: seq<Convert.CourseRow>, authoritative: set<string>, n: nat, i: nat)
    requires n <= |batch| && i < |StagedCourses(batch, n)| && CoursesFit(batch, authoritative)
    ensures var row := StagedCourses(batch, n)[i];
            row.key !in authoritative ==> FitsCourse(row.key, row.data)
  {
    hide FitsCourse;
    if i < |StagedCourses(batch, n - 1)| {
      StagedRowFits(batch, authoritative, n - 1, i);
    } else {
      assert CourseFits(batch[n - 1], authoritative);
    }
  }

  lemma {:induction false} MergedFits(
    courses: CourseTable, batch: seq<Convert.CourseRow>, authoritative: set<string>, next: int)
    requires TableFits(courses) && CoursesFit(batch, authoritative) && authoritative <= courses.Keys
    requires DistinctKeys(StagedCourses(batch, |batch|))
    ensures TableFits(Merged(courses, StagedCourses(batch, |batch|), authoritative, next))
  {
    var rows := StagedCourses(batch, |batch|);
    var after := Merged(courses, rows, authoritative, next);
    hide StagedCourses, FitsCourse, Merged, Find, Clash, DistinctKeys, CoursesFit;
    DistinctNeverClashes(courses, rows);
    forall code | code in after
      ensures FitsCourse(code, after[code].data)
    {
      MergedIs(courses, rows, authoritative, next, code);
      FindIs(rows, |rows|, code);
      if Find(rows, |rows|, code).Some? {
        var i :| 0 <= i < |rows| && rows[i] == Staged(code, Find(rows, |rows|, code).value);
        StagedRowFits(batch, authoritative, |batch|, i);
      }
    }
  }

  lemma NamesStayFit(before: map<string, Entry<string>>, after: map<string, Entry<string>>, batch: map<string, string>)
    requires NamesFit(before) && ProfsFit(batch, before) && ProfsFollow(before, after, batch)
    ensures NamesFit(after)
  {
    hide CharCount;
  }

  // ----- the transactions -----

  class Store {
    var courses: CourseTable
    var authoritative: set<string>
    var prereqs: map<Pair, bool>
    var antireqs: set<Pair>
    var profs: map<string, Entry<string>>
    var remap: map<string, int>
    var sections: SectionTable
    var meetings: seq<Row>
    var sectionDelta: seq<Convert.SectionRow>
    var nextCourse: int
    var nextProf: int
    var nextSection: int

    // Serial ids are unique, only known courses are authoritative, and the CHECKs hold.
    ghost predicate Valid()
      reads this
    {
      && UniqueIds(courses, nextCourse)
      && UniqueIds(profs, nextProf)
      && UniqueIds(sections, nextSection)
      && authoritative <= courses.Keys
      && TableFits(courses) && NamesFit(profs)
    }

    ghost function Snapshot(): Tables
      reads this
    {
      Tables(courses, authoritative, prereqs, antireqs, Profs(profs, remap), sections, meetings)
    }

    constructor ()
      ensures Valid()
      ensures Snapshot() == Tables(map[], {}, map[], {}, Profs(map[], map[]), map[], [])
    {
      courses, authoritative, prereqs, antireqs, profs, remap := map[], {}, map[], {}, map[], map[];
      sections, meetings, sectionDelta := map[], [], [];
      nextCourse, nextProf, nextSection := 1, 1, 1;
    }

    /** insertAllCourses. The staging table rejects a repeated code and the live table a text that is too long;
        authoritative courses are left alone and make up exactly the untouched rows. */
    method InsertAllCourses(batch: seq<Convert.CourseRow>) returns (result: Option<DbResult>)
      requires Valid()
      modifies this`courses, this`nextCourse
      ensures Valid()
      ensures result.None? <==> RepeatedCode(batch, |batch|) || !CoursesFit(batch, authoritative)
      ensures result.None? ==> courses == old(courses) && nextCourse == old(nextCourse)
      ensures var rows := StagedCourses(batch, |batch|);
              result.Some? ==>
                && courses == Merged(old(courses), rows, authoritative, old(nextCourse))
                && nextCourse == old(nextCourse) + NewCount(old(courses), rows, |rows|)
                && result.value == DbResult(
                     NewCount(old(courses), rows, |rows|), StagedHits(old(courses), rows, authoritative, |rows|),
                     StagedLocked(old(courses), rows, authoritative, |rows|), |batch| - |rows|)
    {
      hide StagedCourses, Merged, Clash, NewCount, StagedHits, StagedLocked, HitsUpTo, RepeatedCode, UniqueIds,
           DistinctKeys, CoursesFit, TableFits;
      var rows := Stage(batch);
      StagedCoursesDistinct(batch, |batch|);
      var ok := AllDistinct(rows);
      if !ok || !CoursesFit(batch, authoritative) {
        return None;
      }
      MergedFits(courses, batch, authoritative, nextCourse);
      DistinctNeverClashes(courses, rows);
      MergedIdsAreUnique(courses, rows, authoritative, nextCourse);
      HitsAreCounted(courses, rows, authoritative, |rows|);
      CountsAddUp(courses, rows, authoritative, |rows|);
      KeysKept(courses, rows, authoritative, nextCourse);
      var after, updated, inserted;
      ok, after, updated, inserted := Apply(courses, rows, authoritative, nextCourse);
      courses := after;
      nextCourse := nextCourse + inserted;
      var rejected := |batch| - |rows|;
      var touched := inserted + updated + rejected;
      return Some(DbResult(inserted, updated, |batch| - touched, rejected));
    }

    static method Stage(batch: seq<Convert.CourseRow>) returns (rows: seq<Staged<string, CourseData>>)
      ensures rows == StagedCourses(batch, |batch|)
    {
      rows := [];
      for i := 0 to |batch|
        invariant rows == StagedCourses(batch, i)
      {
        var c := batch[i];
        if c.code != "" {
          rows := rows + [Staged(c.code, CourseDataOf(c))];
        }
      }
    }

    // The unique constraint of the staging table
    static method AllDistinct<D(!new)>(rows: seq<Staged<string, D>>) returns (ok: bool)
      ensures ok <==> DistinctKeys(rows)
    {
      var seen: set<string> := {};
      for i := 0 to |rows|
        invariant forall k :: k in seen <==> exists j :: 0 <= j < i && rows[j].key == k
        invariant forall j, k :: 0 <= j < k < i ==> rows[j].key != rows[k].key
      {
        if rows[i].key in seen {
          return false;
        }
        seen := seen + {rows[i].key};
      }
      ok := true;
    }

    /** insertAllPrereqs: its delete finds nothing, because the staging table was just emptied. */
    method InsertAllPrereqs(batch: seq<Convert.PrereqRow>)
      modifies this`prereqs
      ensures prereqs == PrereqsAfter(old(prereqs), batch, courses, |batch|)
    {
      for i := 0 to |batch|
        invariant prereqs == PrereqsAfter(old(prereqs), batch, courses, i)
      {
        var pair := PrereqPair(batch[i], courses);
        if pair.Some? && pair.value !in prereqs {
          prereqs := prereqs[pair.value := batch[i].isCoreq];
        }
      }
    }

    /** insertAllAntireqs: the table is emptied first. */
    method InsertAllAntireqs(batch: seq<Convert.AntireqRow>)
      modifies this`antireqs
      ensures antireqs == AntireqsOf(batch, courses)
      ensures forall pair: Pair :: pair in antireqs <==>
                exists i :: 0 <= i < |batch|
                  && NamesIds(batch[i].courseCode, batch[i].antireqCode, courses, pair.course, pair.other)
    {
      hide NamesIds;
      forall pair: Pair
        ensures pair in AntireqsOf(batch, courses) <==>
                exists i :: 0 <= i < |batch|
                  && NamesIds(batch[i].courseCode, batch[i].antireqCode, courses, pair.course, pair.other)
      {
        AntireqsAre(batch, courses, pair.course, pair.other);
      }
      antireqs := {};
      for i := 0 to |batch|
        invariant antireqs ==
                  set j | 0 <= j < i && AntireqPair(batch[j], courses).Some? :: AntireqPair(batch[j], courses).value
      {
        var pair := AntireqPair(batch[i], courses);
        if pair.Some? {
          antireqs := antireqs + {pair.value};
        }
      }
    }

    /** insertAllProfs: known professors are never updated; a new name that is too long rolls it back. */
    method InsertAllProfs(batch: map<string, string>) returns (result: Option<DbResult>)
      requires Valid()
      modifies this`profs, this`nextProf
      ensures Valid()
      ensures result.None? <==> !ProfsFit(batch, old(profs))
      ensures result.None? ==> profs == old(profs) && nextProf == old(nextProf)
      ensures result.Some? ==>
                && ProfsFollow(old(profs), profs, batch)
                && |profs| == |old(profs)| + result.value.inserted
                && result.value.inserted + result.value.untouched + result.value.rejected == |batch|
                && result.value.rejected == if "" in batch then 1 else 0
    {
      hide Merged, Clash, NewCount, HitsUpTo, UniqueIds, DistinctKeys, Lists, TableFits, NamesFit, ProfsFit,
           ProfsFollow;
      if !ProfsFit(batch, profs) {
        return None;
      }
      var rows, rejected := ListProfs(batch);
      DistinctNeverClashes(profs, rows);
      MergedIdsAreUnique(profs, rows, profs.Keys, nextProf);
      MergedGrows(profs, rows, profs.Keys, nextProf);
      MergedProfs(profs, rows, nextProf, batch);
      NamesStayFit(profs, Merged(profs, rows, profs.Keys, nextProf), batch);
      var ok, after, updated, inserted := Apply(profs, rows, profs.Keys, nextProf);
      profs := after;
      nextProf := nextProf + inserted;
      result := Some(DbResult(inserted, 0, |rows| - inserted, rejected));
    }

    // The rows of the map, in any order
    static method ListProfs(batch: map<string, string>) returns (rows: seq<Staged<string, string>>, rejected: nat)
      ensures DistinctKeys(rows) && Lists(rows, batch, batch.Keys)
      ensures |rows| + rejected == |batch| && rejected == if "" in batch then 1 else 0
    {
      hide DistinctKeys, Lists;
      NothingListed(batch);
      rows, rejected := [], 0;
      var todo := batch.Keys;
      while todo != {}
        invariant todo <= batch.Keys
        invariant DistinctKeys(rows) && Lists(rows, batch, batch.Keys - todo)
        invariant |rows| + rejected + |todo| == |batch| && rejected == if "" in batch.Keys - todo then 1 else 0
      {
        var code :| code in todo;
        ListOne(rows, batch, batch.Keys - todo, code);
        assert batch.Keys - (todo - {code}) == batch.Keys - todo + {code};
        if code == "" {
          rejected := rejected + 1;
        } else {
          rows := rows + [Staged(code, batch[code])];
        }
        todo := todo - {code};
      }
      assert batch.Keys - {} == batch.Keys;
    }

    /** insertAllSections. It is rolled back exactly when a number is too wide for its column or two staged
        sections of known courses share a new key. With distinct keys, the rejected rows are exactly those of
        unknown courses. */
    method InsertAllSections(batch: seq<Convert.SectionRow>) returns (result: Option<DbResult>)
      requires Valid()
      modifies this`sections, this`sectionDelta, this`nextSection
      ensures Valid()
      ensures var rows := StagedSections(batch, courses, |batch|);
              && (result.None? <==> !SectionsFit(batch) || Clash(old(sections), rows, |rows|))
              && (result.None? ==>
                    sections == old(sections) && sectionDelta == old(sectionDelta) && nextSection == old(nextSection))
              && (result.Some? ==>
                    && sections == Merged(old(sections), rows, {}, old(nextSection))
                    && sectionDelta == batch
                    && nextSection == old(nextSection) + NewCount(old(sections), rows, |rows|)
                    && result.value.inserted == NewCount(old(sections), rows, |rows|)
                    && result.value.updated == |HitsUpTo(old(sections), rows, {}, |rows|)|
                    && result.value.inserted + result.value.updated + result.value.rejected == |batch|)
              && (Convert.DistinctKeys(batch) && SectionsFit(batch) ==>
                    && result.Some?
                    && result.value.updated == StagedHits(old(sections), rows, {}, |rows|)
                    && result.value.rejected == |batch| - |rows|)
    {
      hide StagedSections, Merged, Clash, NewCount, StagedHits, StagedLocked, HitsUpTo, UniqueIds, Convert.DistinctKeys,
           SectionsFit, TableFits, NamesFit;
      if !SectionsFit(batch) {
        return None;
      }
      var rows := Join(batch);
      var ok, after, updated, inserted := Apply(sections, rows, {}, nextSection);
      DistinctSections(batch, rows);
      if !ok {
        return None;
      }
      MergedIdsAreUnique(sections, rows, {}, nextSection);
      sections := after;
      nextSection := nextSection + inserted;
      sectionDelta := batch;
      return Some(DbResult(inserted, updated, 0, |batch| - inserted - updated));
    }

    lemma {:induction false} DistinctSections(
      batch: seq<Convert.SectionRow>, rows: seq<Staged<Convert.Key, SectionData>>)
      requires rows == StagedSections(batch, courses, |batch|)
      ensures Convert.DistinctKeys(batch) ==>
                && !Clash(sections, rows, |rows|)
                && |HitsUpTo(sections, rows, {}, |rows|)| == StagedHits(sections, rows, {}, |rows|)
                && NewCount(sections, rows, |rows|) + StagedHits(sections, rows, {}, |rows|) == |rows|
    {
      hide StagedSections, Clash, NewCount, StagedHits, HitsUpTo, Convert.DistinctKeys;
      if Convert.DistinctKeys(batch) {
        StagedSectionsDistinct(batch, courses, |batch|);
        DistinctNeverClashes(sections, rows);
        HitsAreCounted(sections, rows, {}, |rows|);
        CountsAddUp(sections, rows, {}, |rows|);
        NothingLocked(sections, rows, |rows|);
      }
    }

    static lemma {:induction false} NothingLocked<K, D>(live: map<K, Entry<D>>, rows: seq<Staged<K, D>>, n: nat)
      requires n <= |rows|
      ensures StagedLocked(live, rows, {}, n) == 0
    {
      if n > 0 {
        NothingLocked(live, rows, n - 1);
      }
    }

    method Join(batch: seq<Convert.SectionRow>) returns (rows: seq<Staged<Convert.Key, SectionData>>)
      ensures rows == StagedSections(batch, courses, |batch|)
    {
      rows := [];
      for i := 0 to |batch|
        invariant rows == StagedSections(batch, courses, i)
      {
        var s := batch[i];
        if s.courseCode in courses {
          rows := rows + [Staged(s.key, SectionDataOf(s, courses))];
        }
      }
    }

    /** insertAllMeetings; the sections to clear are those that the last section import staged. */
    method InsertAllMeetings(batch: seq<Convert.MeetingRow>) returns (result: DbResult)
      modifies this`meetings
      ensures meetings == Replaced(old(meetings), sectionDelta, batch, sections, Profs(profs, remap))
      ensures result.inserted == |Joined(batch, sections, Profs(profs, remap))|
      ensures result.inserted + result.rejected == |batch|
    {
      var kept := Delete(meetings, ImportedIds(sections, sectionDelta));
      var rows := Insert(batch, sections, Profs(profs, remap));
      meetings := kept + rows;
      result := DbResult(|rows|, 0, 0, |batch| - |rows|);
    }

    // Sections with distinct keys, then the meetings
    method InsertClasses(batch: seq<Convert.SectionRow>, rows: seq<Convert.MeetingRow>)
      returns (ok: bool, sectionResult: DbResult, meetingResult: DbResult)
      requires Valid() && Convert.DistinctKeys(batch)
      modifies this`sections, this`sectionDelta, this`nextSection, this`meetings
      ensures Valid()
      ensures ok <==> SectionsFit(batch)
      ensures !ok ==> sections == old(sections) && meetings == old(meetings)
      ensures ok ==>
                && sections == Merged(old(sections), StagedSections(batch, courses, |batch|), {}, old(nextSection))
                && meetings == Replaced(old(meetings), batch, rows, sections, Profs(profs, remap))
                && SectionCounts(old(sections), batch, courses, sectionResult)
                && meetingResult.rejected == |rows| - |Joined(rows, sections, Profs(profs, remap))|
    {
      hide Merged, StagedSections, Replaced, Clash, UniqueIds, Convert.DistinctKeys, HitsUpTo, NewCount, StagedHits,
           Joined, SectionsFit, TableFits, NamesFit;
      sectionResult, meetingResult := DbResult(0, 0, 0, 0), DbResult(0, 0, 0, 0);
      var inserted := InsertAllSections(batch);
      if inserted.None? {
        return false, sectionResult, meetingResult;
      }
      sectionResult := inserted.value;
      meetingResult := InsertAllMeetings(rows);
      ok := true;
    }

    // What a section import reports
    static ghost predicate SectionCounts(
      before: SectionTable, batch: seq<Convert.SectionRow>, courses: CourseTable, result: DbResult)
    {
      var rows := StagedSections(batch, courses, |batch|);
      result.inserted == NewCount(before, rows, |rows|) && result.rejected == |batch| - |rows|
    }

    // What a whole import reports, from the tables before it and those after it
    static ghost predicate Counts(
      t: Tables, u: Tables, b: Batch, courseResult: DbResult, sectionResult: DbResult, meetingResult: DbResult)
    {
      var rows := StagedCourses(b.courses, |b.courses|);
      && courseResult.inserted == NewCount(t.courses, rows, |rows|)
      && SectionCounts(t.sections, b.sections, u.courses, sectionResult)
      && meetingResult.rejected == |b.meetings| - |Joined(b.meetings, u.sections, u.profs)|
    }

    // Courses and both kinds of requisites
    method InsertCatalogue(batch: Batch) returns (result: Option<DbResult>)
      requires Valid()
      modifies this`courses, this`nextCourse, this`prereqs, this`antireqs
      ensures Valid()
      ensures result.None? <==>
              RepeatedCode(batch.courses, |batch.courses|) || !CoursesFit(batch.courses, authoritative)
      ensures result.None? ==> Snapshot() == old(Snapshot())
      ensures result.Some? ==>
                var rows := StagedCourses(batch.courses, |batch.courses|);
                && CoursesFollow(old(Snapshot()), Snapshot(), batch, old(nextCourse))
                && result.value.inserted == NewCount(old(courses), rows, |rows|)
    {
      hide Merged, StagedCourses, PrereqsAfter, AntireqsOf, UniqueIds, RepeatedCode, NewCount, StagedHits, StagedLocked,
           CoursesFit, TableFits, NamesFit;
      result := InsertAllCourses(batch.courses);
      if result.None? {
        return;
      }
      InsertAllPrereqs(batch.prereqs);
      InsertAllAntireqs(batch.antireqs);
    }

    /** The inserts, in order; each commits on its own, so that a failure leaves what was inserted before it. */
    method InsertAll(batch: Batch)
      returns (progress: Progress, courseResult: DbResult, sectionResult: DbResult, meetingResult: DbResult)
      requires Valid() && Convert.DistinctKeys(batch.sections)
      modifies this
      ensures Valid()
      ensures progress == ProgressOf(old(Snapshot()), batch)
      ensures Leaves(old(Snapshot()), Snapshot(), batch, progress, old(nextCourse), old(nextSection))
      ensures progress.Complete? ==>
                Counts(old(Snapshot()), Snapshot(), batch, courseResult, sectionResult, meetingResult)
    {
      hide Merged, StagedCourses, StagedSections, Replaced, ProfsFollow, UniqueIds, RepeatedCode, Convert.DistinctKeys,
           NewCount, Joined, CoursesFollow, CoursesFit, ProfsFit, SectionsFit, TableFits, NamesFit;
      courseResult, sectionResult, meetingResult := DbResult(0, 0, 0, 0), DbResult(0, 0, 0, 0), DbResult(0, 0, 0, 0);
      ghost var t := Snapshot();
      var stored := InsertCatalogue(batch);
      if stored.None? {
        return NotStored, courseResult, sectionResult, meetingResult;
      }
      courseResult := stored.value;
      ghost var v := Snapshot();
      var profResult := InsertAllProfs(batch.profs);
      SameCatalogue(t, v, Snapshot(), batch, old(nextCourse));
      if profResult.None? {
        return NoProfs, courseResult, sectionResult, meetingResult;
      }
      var ok;
      ok, sectionResult, meetingResult := InsertClasses(batch.sections, batch.meetings);
      SameCatalogue(t, v, Snapshot(), batch, old(nextCourse));
      progress := if ok then Complete else NoSections;
    }

    // The later inserts do not touch the catalogue.
    static lemma SameCatalogue(t: Tables, u: Tables, v: Tables, b: Batch, nextCourse: int)
      requires CoursesFollow(t, u, b, nextCourse)
      requires v == u.(profs := v.profs, sections := v.sections, meetings := v.meetings)
      requires v.profs.remap == u.profs.remap
      ensures CoursesFollow(t, v, b, nextCourse)
    {
      hide Merged, StagedCourses, PrereqsAfter, AntireqsOf;
    }

    /** The stages after the fetch */
    method ImportFetched(
      courses: seq<Convert.ApiCourse>, classes: seq<Convert.ApiClass>, termIds: seq<int>, clock: nat -> int)
      returns (progress: Progress, courseResult: DbResult, sectionResult: DbResult, meetingResult: DbResult)
      requires Valid() && Acceptable(courses, classes, termIds)
      modifies this
      ensures Valid()
      ensures var batch := BatchFrom(courses, classes, termIds, clock);
              && progress == ProgressOf(old(Snapshot()), batch)
              && Leaves(old(Snapshot()), Snapshot(), batch, progress, old(nextCourse), old(nextSection))
              && (progress.Complete? ==> Imported(Snapshot(), batch))
              && (progress.Complete? && old(Imported(Snapshot(), batch)) ==>
                    && Refreshed(old(Snapshot()), Snapshot(), batch)
                    && courseResult.inserted == 0 && sectionResult.inserted == 0)
              && (progress.Complete? && EverySectionHasCourse(batch) ==>
                    sectionResult.rejected == 0 && meetingResult.rejected == 0)
    {
      hide Follows, Imported, Importable, EverySectionHasCourse, RepeatedCode, Acceptable, BatchFrom, Refreshed, Counts,
           Convert.DistinctKeys, UniqueIds, CoursesFit, ProfsFit, SectionsFit, TableFits, NamesFit;
      var batch := Converted(courses, classes, termIds, clock);
      ghost var before := Snapshot();
      progress, courseResult, sectionResult, meetingResult := InsertAll(batch);
      if progress.Complete? {
        ImportSettles(before, Snapshot(), batch, old(nextCourse), old(nextSection));
        CountsSettle(
          before, Snapshot(), batch, courseResult, sectionResult, meetingResult, old(nextCourse), old(nextSection));
      }
    }

    static method Converted(
      courses: seq<Convert.ApiCourse>, classes: seq<Convert.ApiClass>, termIds: seq<int>, clock: nat -> int)
      returns (batch: Batch)
      requires Acceptable(courses, classes, termIds)
      ensures batch == BatchFrom(courses, classes, termIds, clock)
      ensures Convert.DistinctKeys(batch.sections)
      ensures Importable(batch) <==> !RepeatedCode(batch.courses, |batch.courses|)
    {
      hide Convert.AllConvertible, Convert.Readable, Convert.DistinctKeys, RepeatedCode, TermSet, Importable,
           Convert.Courses, Convert.Prereqs, Convert.Antireqs, Convert.Sections, Convert.Meetings, Convert.Profs;
      ConvertedIsImportable(courses, classes, termIds, clock);
      Convert.SectionKeysAreDistinct(classes, |classes|, TermSet(termIds), clock);
      var converted := new Convert.Converted();
      converted.ConvertAll(courses, classes, TermSet(termIds), clock);
      batch := Batch(
        converted.courses, converted.prereqs, converted.antireqs,
        converted.profs, converted.sections, converted.meetings);
    }

    static lemma ImportSettles(t: Tables, u: Tables, b: Batch, nextCourse: int, nextSection: int)
      requires Importable(b) && t.authoritative <= t.courses.Keys && Follows(t, u, b, nextCourse, nextSection)
      ensures Imported(u, b)
      ensures Imported(t, b) ==> Refreshed(t, u, b)
    {
      hide Imported, Importable, Follows;
      ImportReaches(t, u, b, nextCourse, nextSection);
      if Imported(t, b) {
        ImportRepeats(t, u, b, nextCourse, nextSection);
      }
    }

    static lemma CountsSettle(
      t: Tables, u: Tables, b: Batch, courseResult: DbResult, sectionResult: DbResult, meetingResult: DbResult,
      nextCourse: int, nextSection: int)
      requires Importable(b) && t.authoritative <= t.courses.Keys && Follows(t, u, b, nextCourse, nextSection)
      requires Counts(t, u, b, courseResult, sectionResult, meetingResult) && Imported(u, b)
      ensures Imported(t, b) ==> courseResult.inserted == 0 && sectionResult.inserted == 0
      ensures EverySectionHasCourse(b) ==> sectionResult.rejected == 0 && meetingResult.rejected == 0
    {
      hide Imported, Importable, Follows, StagedCourses, StagedSections, NewCount, Joined, EverySectionHasCourse,
           Restamped;
      if Imported(t, b) {
        ImportRepeats(t, u, b, nextCourse, nextSection);
      }
      if EverySectionHasCourse(b) {
        NothingIsRejected(u, b);
      }
    }

    /** ImportAll. Exactly one of five things happens. A course request failed, or two fetched codes differ in
        letter case only or a course does not fit its columns: then nothing changes. A new professor's name, or
        else a number of a section, does not fit: then the stages before it stay. Otherwise the tables read as the
        batch does, and if they did so before, whatever the time, nothing is inserted and nothing changes but the
        times of the staged sections. When no code is empty, nothing is rejected. */
    method ImportAll(
      answers: seq<Option<seq<Convert.ApiCourse>>>, api: Fetch.ClassApi, termIds: seq<int>, clock: nat -> int)
      returns (progress: Progress, courseResult: DbResult, sectionResult: DbResult, meetingResult: DbResult)
      requires Valid() && AcceptableAnswers(answers, api, termIds)
      modifies this
      ensures Valid()
      ensures var batch := BatchOf(answers, api, termIds, clock);
              && progress == (if Fetch.AllTerms(answers, |answers|).None? then NotFetched
                              else ProgressOf(old(Snapshot()), batch))
              && (progress.NotStored? <==>
                    && Fetch.AllTerms(answers, |answers|).Some?
                    && (Fetch.CaseClash(CoursesOf(answers)) || !CoursesFit(batch.courses, old(authoritative))))
              && Leaves(old(Snapshot()), Snapshot(), batch, progress, old(nextCourse), old(nextSection))
              && (progress.Complete? ==> Imported(Snapshot(), batch))
              && (progress.Complete? && old(Imported(Snapshot(), batch)) ==>
                    && Refreshed(old(Snapshot()), Snapshot(), batch)
                    && courseResult.inserted == 0 && sectionResult.inserted == 0)
              && (progress.Complete? && NoEmptyCodes(CoursesOf(answers)) ==>
                    sectionResult.rejected == 0 && meetingResult.rejected == 0)
    {
      hide Follows, Imported, Importable, EverySectionHasCourse, RepeatedCode, Acceptable, NoEmptyCodes, UniqueIds,
           BatchFrom, Fetch.FetchedCourses, Fetch.FetchedClasses, Fetch.AllTerms, Fetch.CaseClash, Refreshed,
           CoursesFit, ProfsFit, SectionsFit, TableFits, NamesFit, CoursesFollow, ProfsFollow;
      courseResult, sectionResult, meetingResult := DbResult(0, 0, 0, 0), DbResult(0, 0, 0, 0), DbResult(0, 0, 0, 0);
      var fetched := Fetch.FetchCourses(answers);
      if fetched.None? {
        return NotFetched, courseResult, sectionResult, meetingResult;
      }
      var classes := Fetch.FetchClasses(api, fetched.value, termIds);
      RepeatsOfBatch(Fetch.AllTerms(answers, |answers|).value, classes, termIds, clock);
      if NoEmptyCodes(fetched.value) {
        FetchedSectionsHaveCourses(fetched.value, api, termIds, clock);
      }
      progress, courseResult, sectionResult, meetingResult := ImportFetched(fetched.value, classes, termIds, clock);
    }

    static lemma RepeatsOfBatch(
      all: seq<Convert.ApiCourse>, classes: seq<Convert.ApiClass>, termIds: seq<int>, clock: nat -> int)
      requires Acceptable(Fetch.FetchedCourses(all), classes, termIds)
      ensures var b := BatchFrom(Fetch.FetchedCourses(all), classes, termIds, clock);
              RepeatedCode(b.courses, |b.courses|) <==> Fetch.CaseClash(Fetch.FetchedCourses(all))
    {
      hide RepeatedCode, Acceptable, Fetch.FetchedCourses, Fetch.CaseClash;
      RepeatsAreCaseClashes(all);
    }
  }

  // ----- the next import -----

  /** The same answers at two times make batches that differ in the times of their sections only. */
  lemma SameAnswersSameBatch(
    answers: seq<Option<seq<Convert.ApiCourse>>>, api: Fetch.ClassApi, termIds: seq<int>,
    clock: nat -> int, later: nat -> int)
    requires AcceptableAnswers(answers, api, termIds)
    ensures SameButTimes(BatchOf(answers, api, termIds, clock), BatchOf(answers, api, termIds, later))
  {
    hide Convert.Sections, Convert.SameButTime, Convert.AllConvertible;
    var classes := Fetch.FetchedClasses(api, CoursesOf(answers), termIds);
    hide Fetch.FetchedClasses, CoursesOf;
    Convert.SectionsAtAnyTime(classes, |classes|, TermSet(termIds), clock, later);
  }

  lemma SectionsFitAtAnyTime(a: seq<Convert.SectionRow>, b: seq<Convert.SectionRow>)
    requires Convert.SameButTime(a, b) && SectionsFit(a)
    ensures SectionsFit(b)
  {
    hide IsInt32;
    forall i | 0 <= i < |b|
      ensures SectionFits(b[i])
    {
      assert SectionFits(a[i]);
      assert b[i] == a[i].(updatedAt := 0).(updatedAt := b[i].updatedAt);
    }
  }

  // The same batch at another time gets through again.
  lemma {:induction false} CompletesAgain(t: Tables, u: Tables, b: Batch, c: Batch, nextCourse: int, nextSection: int)
    requires SameButTimes(b, c) && ProgressOf(t, b).Complete? && Follows(t, u, b, nextCourse, nextSection)
    ensures ProgressOf(u, c).Complete?
  {
    hide RepeatedCode, CoursesFit, SectionsFit, Merged, StagedCourses, StagedSections, PrereqsAfter, AntireqsOf,
         Replaced, Convert.SameButTime;
    SectionsFitAtAnyTime(b.sections, c.sections);
  }

  lemma {:induction false} BatchAgain(
    t: Tables, u: Tables, v: Tables, b: Batch, c: Batch, p: int, q: int, r: int, x: int)
    requires SameButTimes(b, c) && Importable(b) && Importable(c) && t.authoritative <= t.courses.Keys
    requires Follows(t, u, b, p, q) && Follows(u, v, c, r, x)
    ensures Imported(u, c) && Refreshed(u, v, c)
  {
    hide Merged, StagedCourses, StagedSections, PrereqsAfter, AntireqsOf, Replaced, Importable, SameButTimes, Imported,
         Refreshed, NewCount;
    KeysKept(t.courses, StagedCourses(b.courses, |b.courses|), t.authoritative, p);
    ImportReaches(t, u, b, p, q);
    ImportedAtAnyTime(u, b, c);
    ImportRepeats(u, v, c, r, x);
  }

  /** Two imports of the same answers, at any two times, with nothing in between: the second one completes,
      inserts nothing, and leaves every table as it is but for the times of the staged sections. */
  lemma {:induction false} ImportAgain(
    t: Tables, u: Tables, v: Tables,
    answers: seq<Option<seq<Convert.ApiCourse>>>, api: Fetch.ClassApi, termIds: seq<int>,
    clock: nat -> int, later: nat -> int, p: int, q: int, r: int, x: int)
    requires AcceptableAnswers(answers, api, termIds) && t.authoritative <= t.courses.Keys
    requires var b, c := BatchOf(answers, api, termIds, clock), BatchOf(answers, api, termIds, later);
             && ProgressOf(t, b).Complete? && Leaves(t, u, b, ProgressOf(t, b), p, q)
             && Leaves(u, v, c, ProgressOf(u, c), r, x)
    ensures var c := BatchOf(answers, api, termIds, later);
            && ProgressOf(u, c).Complete?
            && Imported(u, c) && Refreshed(u, v, c)
            && u.courses.Keys == v.courses.Keys && u.sections.Keys == v.sections.Keys
  {
    var b, c := BatchOf(answers, api, termIds, clock), BatchOf(answers, api, termIds, later);
    BatchIsImportable(t, answers, api, termIds, clock);
    SameAnswersSameBatch(answers, api, termIds, clock, later);
    hide BatchOf, Importable, SameButTimes, Follows, AcceptableAnswers, RepeatedCode, CoursesFit, ProfsFit, SectionsFit,
         StagedSections, Imported;
    CompletesAgain(t, u, b, c, p, q);
    BatchIsImportable(u, answers, api, termIds, later);
    BatchAgain(t, u, v, b, c, p, q, r, x);
  }

  lemma BatchIsImportable(
    t: Tables, answers: seq<Option<seq<Convert.ApiCourse>>>, api: Fetch.ClassApi, termIds: seq<int>, clock: nat -> int)
    requires AcceptableAnswers(answers, api, termIds) && ProgressOf(t, BatchOf(answers, api, termIds, clock)).Complete?
    ensures Importable(BatchOf(answers, api, termIds, clock))
  {
    hide Importable, RepeatedCode, CoursesFit, ProfsFit, SectionsFit, CoursesOf, Fetch.FetchedClasses, Acceptable,
         BatchFrom;
    ConvertedIsImportable(CoursesOf(answers), Fetch.FetchedClasses(api, CoursesOf(answers), termIds), termIds, clock);
  }
}
