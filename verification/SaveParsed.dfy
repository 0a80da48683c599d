/** saveTranscript and saveSchedule: the transactions that replace a user's rows by a parsed paste. */
module SaveParsed {
  import opened Bytes
  import opened Collections
  import Transcript
  import Schedule

  // The unique key of user_course_taken
  datatype Taken = Taken(user: int, term: int, course: int)

  // A row of course_section; (number, term) is unique
  datatype Section = Section(number: int, term: int, course: int)

  // The unique key of user_schedule
  datatype Slot = Slot(user: int, section: int)

  // Course ids by code, sections by id, the program of every user, levels and locations by key.
  datatype State = State(
    courses: map<string, int>, sections: map<int, Section>, programs: map<int, Option<string>>,
    taken: map<Taken, Option<string>>, schedule: map<Slot, string>)

  datatype Reply =
    | EmptyTranscript
    | OldSchedule
    | EmptySchedule
    // A unique key, a foreign key or a CHECK
    | Violation
    | CoursesImported(count: nat)
    | SectionsImported(total: nat, failedClasses: seq<int>)

  predicate SameKey(a: Section, b: Section) {
    a.number == b.number && a.term == b.term
  }

  ghost predicate UniqueSections(sections: map<int, Section>) {
    forall i, j :: i in sections && j in sections && SameKey(sections[i], sections[j]) ==> i == j
  }

  // ----- rows to insert, in the order of the inserts -----

  datatype Row<K, V> = Row(key: K, value: V)

  ghost predicate Repeats<K(!new), V>(rows: seq<Row<K, V>>) {
    exists i, j :: 0 <= i < j < |rows| && rows[i].key == rows[j].key
  }

  function ToMap<K(!new), V>(rows: seq<Row<K, V>>): (m: map<K, V>)
    ensures forall k :: k in m <==> exists i :: 0 <= i < |rows| && rows[i].key == k
  {
    if |rows| == 0 then map[]
    else
      var n := |rows| - 1;
      ToMap(rows[..n])[rows[n].key := rows[n].value]
  }

  lemma {:induction false} RepeatsLater<K(!new), V>(rows: seq<Row<K, V>>, row: Row<K, V>, more: seq<Row<K, V>>)
    requires row.key in ToMap(rows)
    ensures Repeats(rows + [row] + more)
  {
    var all := rows + [row] + more;
    var i :| 0 <= i < |rows| && rows[i].key == row.key;
    assert all[i] == rows[i] && all[|rows|] == row;
  }

  lemma {:induction false} ToMapSnoc<K(!new), V>(rows: seq<Row<K, V>>, row: Row<K, V>)
    ensures ToMap(rows + [row]) == ToMap(rows)[row.key := row.value]
    ensures !Repeats(rows) && row.key !in ToMap(rows) ==> !Repeats(rows + [row])
  {
    var all := rows + [row];
    assert all[..|rows|] == rows;
    if Repeats(all) && !Repeats(rows) {
      var i, j :| 0 <= i < j < |all| && all[i].key == all[j].key;
      assert j == |rows| && rows[i].key == row.key;
    }
  }

  lemma PrefixRepeats<K(!new), V>(rows: seq<Row<K, V>>, n: nat)
    requires n <= |rows|
    ensures Repeats(rows[..n]) ==> Repeats(rows)
  {
    var init := rows[..n];
    if Repeats(init) {
      var a, b :| 0 <= a < b < n && init[a].key == init[b].key;
      assert rows[a].key == rows[b].key;
    }
  }

  /** Without repeated keys, the map holds exactly the rows. */
  lemma {:induction false} ToMapIs<K(!new), V>(rows: seq<Row<K, V>>, k: K, v: V)
    requires !Repeats(rows)
    ensures Row(k, v) in rows <==> k in ToMap(rows) && ToMap(rows)[k] == v
  {
    if |rows| > 0 {
      var n := |rows| - 1;
      var init := rows[..n];
      assert rows == init + [rows[n]];
      PrefixRepeats(rows, n);
      ToMapIs(init, k, v);
      if Row(k, v) in init {
        var i :| 0 <= i < n && init[i] == Row(k, v);
        assert rows[i].key != rows[n].key;
      }
    }
  }

  lemma {:induction false} ToMapHas<K(!new), V>(rows: seq<Row<K, V>>, k: K)
    requires k in ToMap(rows)
    ensures exists v :: Row(k, v) in rows
  {
    var i :| 0 <= i < |rows| && rows[i].key == k;
    assert Row(k, rows[i].value) in rows;
  }

  // ----- saveTranscript -----

  function MaxTerm(terms: seq<Transcript.TermSummary>, n: nat): (m: int)
    requires n <= |terms|
    ensures forall i :: 0 <= i < n ==> terms[i].termId <= m
  {
    if n == 0 then 0
    else
      var m := MaxTerm(terms, n - 1);
      if terms[n - 1].termId > m then terms[n - 1].termId else m
  }

  // One row for each known code among the first n of a term.
  function RowsOfTerm(courses: map<string, int>, user: int, t: Transcript.TermSummary, n: nat)
    : seq<Row<Taken, Option<string>>>
    requires n <= |t.courses|
  {
    if n == 0 then []
    else
      var code := t.courses[n - 1];
      RowsOfTerm(courses, user, t, n - 1) +
      if code in courses then [Row(Taken(user, t.termId, courses[code]), Some(t.level))] else []
  }

  function RowsOf(courses: map<string, int>, user: int, terms: seq<Transcript.TermSummary>, n: nat)
    : seq<Row<Taken, Option<string>>>
    requires n <= |terms|
  {
    if n == 0 then []
    else RowsOf(courses, user, terms, n - 1) + RowsOfTerm(courses, user, terms[n - 1], |terms[n - 1].courses|)
  }

  function CourseCount(terms: seq<Transcript.TermSummary>, n: nat): nat
    requires n <= |terms|
  {
    if n == 0 then 0 else CourseCount(terms, n - 1) + |terms[n - 1].courses|
  }

  function DeleteUpTo(taken: map<Taken, Option<string>>, user: int, max: int): map<Taken, Option<string>> {
    map k | k in taken && !(k.term <= max && k.user == user) :: taken[k]
  }

  function WithProgram(programs: map<int, Option<string>>, user: int, program: string): map<int, Option<string>> {
    if user in programs then programs[user := Some(program)] else programs
  }

  const MAX_PROGRAM := 256

  // The program of a user fits its column, and only a user has rows.
  ghost predicate Allows(s: State, user: int, program: string, rows: seq<Row<Taken, Option<string>>>) {
    if user in s.programs then CharCount(program) <= MAX_PROGRAM else rows == []
  }

  // The state after the transaction, if it commits.
  ghost function TranscriptSaved(
    s: State, user: int, program: string, terms: seq<Transcript.TermSummary>): Option<State> {
    var rows := RowsOf(s.courses, user, terms, |terms|);
    if |terms| == 0 || Repeats(rows) || !Allows(s, user, program, rows) then None
    else Some(s.(programs := WithProgram(s.programs, user, program),
                 taken := DeleteUpTo(s.taken, user, MaxTerm(terms, |terms|)) + ToMap(rows)))
  }

  // Course number j of heading i has this id.
  ghost predicate Lists(s: State, terms: seq<Transcript.TermSummary>, i: int, j: int, term: int, course: int) {
    && 0 <= i < |terms| && 0 <= j < |terms[i].courses|
    && terms[i].termId == term && terms[i].courses[j] in s.courses && s.courses[terms[i].courses[j]] == course
  }

  // One of the first n headings lists the course of the row, at the level of the row.
  ghost predicate Listed(
    s: State, user: int, terms: seq<Transcript.TermSummary>, n: int, k: Taken, level: Option<string>) {
    k.user == user && exists i, j :: i < n && Lists(s, terms, i, j, k.term, k.course) && level == Some(terms[i].level)
  }

  lemma {:induction false} RowsOfTermAre(
    courses: map<string, int>, user: int, t: Transcript.TermSummary, n: nat, k: Taken, level: Option<string>)
    requires n <= |t.courses|
    ensures Row(k, level) in RowsOfTerm(courses, user, t, n) <==>
            && k.user == user && k.term == t.termId && level == Some(t.level)
            && exists j :: 0 <= j < n && t.courses[j] in courses && courses[t.courses[j]] == k.course
  {
    if n > 0 {
      RowsOfTermAre(courses, user, t, n - 1, k, level);
    }
  }

  lemma {:induction false} RowsOfAre(
    s: State, user: int, terms: seq<Transcript.TermSummary>, n: nat, k: Taken, level: Option<string>)
    requires n <= |terms|
    ensures Row(k, level) in RowsOf(s.courses, user, terms, n) <==> Listed(s, user, terms, n, k, level)
  {
    hide RowsOfTerm;
    if n > 0 {
      RowsOfAre(s, user, terms, n - 1, k, level);
      var t := terms[n - 1];
      RowsOfTermAre(s.courses, user, t, |t.courses|, k, level);
      if Listed(s, user, terms, n, k, level) {
        var i, j :| i < n && Lists(s, terms, i, j, k.term, k.course) && level == Some(terms[i].level);
        assert i == n - 1 ==> t.courses[j] in s.courses && s.courses[t.courses[j]] == k.course;
      }
      if Row(k, level) in RowsOfTerm(s.courses, user, t, |t.courses|) {
        var j :| 0 <= j < |t.courses| && t.courses[j] in s.courses && s.courses[t.courses[j]] == k.course;
        assert Lists(s, terms, n - 1, j, k.term, k.course);
      }
    }
  }

  // A row of the user is cleared when some heading's term is its term or later. Terms up to 0, which no heading has,
  // would be cleared too.
  ghost predicate Cleared(terms: seq<Transcript.TermSummary>, user: int, k: Taken) {
    k.user == user && (k.term <= 0 || exists i :: 0 <= i < |terms| && terms[i].termId >= k.term)
  }

  lemma {:induction false} MaxTermIs(terms: seq<Transcript.TermSummary>, n: nat, term: int)
    requires n <= |terms|
    ensures term <= MaxTerm(terms, n) <==> term <= 0 || exists i :: 0 <= i < n && terms[i].termId >= term
  {
    if n > 0 {
      MaxTermIs(terms, n - 1, term);
    }
  }

  /** When it commits, saveTranscript leaves the user's rows of terms that some heading reaches exactly the transcript's
      known courses with their levels; every later row of the user, and no other row, is kept. */
  lemma {:induction false} TranscriptReplaces(
    s: State, user: int, program: string, terms: seq<Transcript.TermSummary>, k: Taken, level: Option<string>)
    requires TranscriptSaved(s, user, program, terms).Some?
    ensures var t := TranscriptSaved(s, user, program, terms).value;
            && (k in t.taken && t.taken[k] == level <==>
                if Cleared(terms, user, k)
                then Listed(s, user, terms, |terms|, k, level)
                else k in s.taken && s.taken[k] == level)
            && t.programs == (if user in s.programs then s.programs[user := Some(program)] else s.programs)
            && t.schedule == s.schedule && t.sections == s.sections && t.courses == s.courses
  {
    hide MaxTerm, RowsOf, ToMap, Repeats, Listed;
    var rows := RowsOf(s.courses, user, terms, |terms|);
    MaxTermIs(terms, |terms|, k.term);
    RowsOfAre(s, user, terms, |terms|, k, level);
    ToMapIs(rows, k, level);
    if k in ToMap(rows) {
      RowsAreRecent(s, user, terms, k);
    }
  }

  /** A course stored for a term after every heading survives. */
  lemma LaterTermSurvives()
    ensures var s := State(map["cs135" := 7], map[], map[1 := None], map[Taken(1, 1241, 8) := None], map[]);
            var terms := [Transcript.TermSummary(1239, "1A", ["cs135"])];
            var t := TranscriptSaved(s, 1, "CS", terms);
            && t.Some?
            && Taken(1, 1241, 8) in t.value.taken && t.value.taken[Taken(1, 1241, 8)] == None
  {
    var s := State(map["cs135" := 7], map[], map[1 := None], map[Taken(1, 1241, 8) := None], map[]);
    var terms := [Transcript.TermSummary(1239, "1A", ["cs135"])];
    OneCourse(s.courses, terms);
    assert |"CS"| == 2;
    hide RowsOf, MaxTerm, ToMap, CharCount, Repeats;
    assert TranscriptSaved(s, 1, "CS", terms).Some?;
    hide TranscriptSaved;
    TranscriptReplaces(s, 1, "CS", terms, Taken(1, 1241, 8), None);
  }

  lemma {:induction false} OneCourse(courses: map<string, int>, terms: seq<Transcript.TermSummary>)
    requires terms == [Transcript.TermSummary(1239, "1A", ["cs135"])] && courses == map["cs135" := 7]
    ensures !Repeats(RowsOf(courses, 1, terms, 1))
  {
    assert RowsOf(courses, 1, terms, 0) == [] && RowsOfTerm(courses, 1, terms[0], 0) == [];
    assert RowsOfTerm(courses, 1, terms[0], 1) == [Row(Taken(1, 1239, 7), Some("1A"))];
  }

  lemma {:induction false} RowsAreRecent(s: State, user: int, terms: seq<Transcript.TermSummary>, k: Taken)
    requires k in ToMap(RowsOf(s.courses, user, terms, |terms|))
    ensures k.user == user && k.term <= MaxTerm(terms, |terms|)
  {
    hide MaxTerm, ToMap, RowsOf;
    var rows := RowsOf(s.courses, user, terms, |terms|);
    ToMapHas(rows, k);
    var level :| Row(k, level) in rows;
    RowsOfAre(s, user, terms, |terms|, k, level);
  }

  lemma {:induction false} AllRowsAreRecent(s: State, user: int, terms: seq<Transcript.TermSummary>)
    ensures forall k: Taken ::
              k in ToMap(RowsOf(s.courses, user, terms, |terms|)) ==>
                  k.user == user && k.term <= MaxTerm(terms, |terms|)
  {
    hide *;
    forall k: Taken | k in ToMap(RowsOf(s.courses, user, terms, |terms|))
      ensures k.user == user && k.term <= MaxTerm(terms, |terms|)
    {
      RowsAreRecent(s, user, terms, k);
    }
  }

  /** Saving the same transcript again changes nothing. */
  lemma TranscriptIsIdempotent(s: State, user: int, program: string, terms: seq<Transcript.TermSummary>)
    requires TranscriptSaved(s, user, program, terms).Some?
    ensures var t := TranscriptSaved(s, user, program, terms).value;
            TranscriptSaved(t, user, program, terms) == Some(t)
  {
    hide MaxTerm, RowsOf, ToMap;
    AllRowsAreRecent(s, user, terms);
    var t := TranscriptSaved(s, user, program, terms).value;
    var max, rows := MaxTerm(terms, |terms|), RowsOf(s.courses, user, terms, |terms|);
    assert DeleteUpTo(t.taken, user, max) + ToMap(rows) == t.taken;
    assert WithProgram(t.programs, user, program) == t.programs;
  }

  function AllCourses(terms: seq<Transcript.TermSummary>, n: nat): seq<string>
    requires n <= |terms|
  {
    if n == 0 then [] else AllCourses(terms, n - 1) + terms[n - 1].courses
  }

  /** The number reported is that of all courses of all headings, known or not. */
  lemma {:induction false} CoursesAreCounted(terms: seq<Transcript.TermSummary>, n: nat)
    requires n <= |terms|
    ensures CourseCount(terms, n) == |AllCourses(terms, n)|
  {
    if n > 0 {
      CoursesAreCounted(terms, n - 1);
    }
  }

  // ----- saveSchedule -----

  ghost predicate IsSection(s: State, id: int, number: int, term: int) {
    id in s.sections && s.sections[id].number == number && s.sections[id].term == term
  }

  // The section with a class number in a term, if there is one.
  ghost function Find(s: State, number: int, term: int): (r: Option<int>)
    ensures r.Some? ==> IsSection(s, r.value, number, term)
    ensures r.None? ==> forall id :: !IsSection(s, id, number, term)
  {
    if exists id :: IsSection(s, id, number, term) then
      var id :| IsSection(s, id, number, term);
      Some(id)
    else None
  }

  ghost function SlotRows(s: State, user: int, term: int, classes: seq<Schedule.Class>, n: nat): seq<Row<Slot, string>>
    requires n <= |classes|
  {
    if n == 0 then []
    else
      var id := Find(s, classes[n - 1].number, term);
      SlotRows(s, user, term, classes, n - 1) +
      if id.Some? then [Row(Slot(user, id.value), classes[n - 1].location)] else []
  }

  // The courses of the matched sections; a course is inserted once.
  ghost function CourseRows(
    s: State, user: int, term: int, classes: seq<Schedule.Class>, n: nat): map<Taken, Option<string>>
    requires n <= |classes|
  {
    if n == 0 then map[]
    else
      var id := Find(s, classes[n - 1].number, term);
      var rows := CourseRows(s, user, term, classes, n - 1);
      if id.Some? then rows[Taken(user, term, s.sections[id.value].course) := None] else rows
  }

  ghost function Failed(s: State, term: int, classes: seq<Schedule.Class>, n: nat): seq<int>
    requires n <= |classes|
  {
    if n == 0 then []
    else Failed(s, term, classes, n - 1) +
         if Find(s, classes[n - 1].number, term).None? then [classes[n - 1].number] else []
  }

  function DeleteTerm(taken: map<Taken, Option<string>>, user: int, term: int): map<Taken, Option<string>> {
    map k | k in taken && !(k.user == user && k.term == term) :: taken[k]
  }

  function DeleteSlots(
    schedule: map<Slot, string>, sections: map<int, Section>, user: int, term: int): map<Slot, string> {
    map k | k in schedule && !(k.user == user && k.section in sections && sections[k.section].term == term) ::
        schedule[k]
  }

  ghost function ScheduleSaved(
    s: State, user: int, term: int, classes: seq<Schedule.Class>, currentTermId: int): Option<State> {
    var rows := SlotRows(s, user, term, classes, |classes|);
    if term < currentTermId || |classes| == 0 || Repeats(rows) || (user !in s.programs && rows != []) then None
    else Some(s.(taken := DeleteTerm(s.taken, user, term) + CourseRows(s, user, term, classes, |classes|),
                 schedule := DeleteSlots(s.schedule, s.sections, user, term) + ToMap(rows)))
  }

  ghost predicate Matches(s: State, term: int, classes: seq<Schedule.Class>, i: int, section: int) {
    0 <= i < |classes| && IsSection(s, section, classes[i].number, term)
  }

  lemma FindIs(s: State, id: int, number: int, term: int)
    requires UniqueSections(s.sections)
    ensures IsSection(s, id, number, term) <==> Find(s, number, term) == Some(id)
  {
  }

  // One of the first n classes is this section, at this location.
  ghost predicate Held(
    s: State, user: int, term: int, classes: seq<Schedule.Class>, n: int, k: Slot, location: string) {
    k.user == user && exists i :: i < n && Matches(s, term, classes, i, k.section) && classes[i].location == location
  }

  lemma {:induction false} SlotRowsAre(
    s: State, user: int, term: int, classes: seq<Schedule.Class>, n: nat, k: Slot, location: string)
    requires n <= |classes| && UniqueSections(s.sections)
    ensures Row(k, location) in SlotRows(s, user, term, classes, n) <==> Held(s, user, term, classes, n, k, location)
  {
    hide Find, UniqueSections;
    if n > 0 {
      SlotRowsAre(s, user, term, classes, n - 1, k, location);
      FindIs(s, k.section, classes[n - 1].number, term);
      if k.user == user && IsSection(s, k.section, classes[n - 1].number, term) {
        assert Matches(s, term, classes, n - 1, k.section);
      }
    }
  }

  // A section of one of the first n classes is a section of this course.
  ghost predicate Attended(s: State, user: int, term: int, classes: seq<Schedule.Class>, n: int, k: Taken) {
    && k.user == user && k.term == term
    && exists i, id :: i < n && Matches(s, term, classes, i, id) && s.sections[id].course == k.course
  }

  lemma {:induction false} CourseRowsAre(s: State, user: int, term: int, classes: seq<Schedule.Class>, n: nat, k: Taken)
    requires n <= |classes| && UniqueSections(s.sections)
    ensures k in CourseRows(s, user, term, classes, n) <==> Attended(s, user, term, classes, n, k)
    ensures k in CourseRows(s, user, term, classes, n) ==> CourseRows(s, user, term, classes, n)[k] == None
  {
    hide Find, UniqueSections;
    if n > 0 {
      CourseRowsAre(s, user, term, classes, n - 1, k);
      var id := Find(s, classes[n - 1].number, term);
      if id.Some? {
        FindIs(s, id.value, classes[n - 1].number, term);
        assert Matches(s, term, classes, n - 1, id.value);
      }
      if Attended(s, user, term, classes, n, k) {
        var i, other :| i < n && Matches(s, term, classes, i, other) && s.sections[other].course == k.course;
        if i == n - 1 {
          FindIs(s, other, classes[n - 1].number, term);
        }
      }
    }
  }

  predicate OfTerm(s: State, user: int, term: int, k: Slot) {
    k.user == user && k.section in s.sections && s.sections[k.section].term == term
  }

  /** When it commits, saveSchedule leaves that user's slots in that term exactly the matched sections with
      their locations; no other slot is touched. */
  lemma ScheduleReplaces(
    s: State, user: int, term: int, classes: seq<Schedule.Class>, currentTermId: int, k: Slot, location: string)
    requires UniqueSections(s.sections) && ScheduleSaved(s, user, term, classes, currentTermId).Some?
    ensures var t := ScheduleSaved(s, user, term, classes, currentTermId).value;
            && (k in t.schedule && t.schedule[k] == location <==>
                if OfTerm(s, user, term, k)
                then Held(s, user, term, classes, |classes|, k, location)
                else k in s.schedule && s.schedule[k] == location)
            && t.programs == s.programs && t.sections == s.sections && t.courses == s.courses
  {
    hide SlotRows, CourseRows, ToMap, Repeats, UniqueSections, Held;
    var rows := SlotRows(s, user, term, classes, |classes|);
    SlotRowsAre(s, user, term, classes, |classes|, k, location);
    ToMapIs(rows, k, location);
    if k in ToMap(rows) {
      SlotsAreInTerm(s, user, term, classes, k);
    }
  }

  /** When it commits, saveSchedule leaves that user's courses of that term exactly the courses of the
      matched sections, without levels; no other course is touched. */
  lemma ScheduleReplacesTaken(
    s: State, user: int, term: int, classes: seq<Schedule.Class>, currentTermId: int, k: Taken, level: Option<string>)
    requires UniqueSections(s.sections) && ScheduleSaved(s, user, term, classes, currentTermId).Some?
    ensures var t := ScheduleSaved(s, user, term, classes, currentTermId).value;
            k in t.taken && t.taken[k] == level <==>
                if k.user == user && k.term == term
                then level == None && Attended(s, user, term, classes, |classes|, k)
                else k in s.taken && s.taken[k] == level
  {
    hide SlotRows, CourseRows, ToMap, Repeats, UniqueSections;
    CourseRowsAre(s, user, term, classes, |classes|, k);
  }

  lemma {:induction false} SlotsAreInTerm(s: State, user: int, term: int, classes: seq<Schedule.Class>, k: Slot)
    requires UniqueSections(s.sections) && k in ToMap(SlotRows(s, user, term, classes, |classes|))
    ensures OfTerm(s, user, term, k)
  {
    hide SlotRows, ToMap, UniqueSections;
    var rows := SlotRows(s, user, term, classes, |classes|);
    ToMapHas(rows, k);
    var location :| Row(k, location) in rows;
    SlotRowsAre(s, user, term, classes, |classes|, k, location);
  }

  lemma {:induction false} ScheduleRowsAreInTerm(s: State, user: int, term: int, classes: seq<Schedule.Class>)
    requires UniqueSections(s.sections)
    ensures forall k: Slot :: k in ToMap(SlotRows(s, user, term, classes, |classes|)) ==> OfTerm(s, user, term, k)
    ensures forall k: Taken :: k in CourseRows(s, user, term, classes, |classes|) ==> k.user == user && k.term == term
  {
    hide SlotRows, CourseRows, ToMap, UniqueSections, OfTerm;
    forall k: Slot | k in ToMap(SlotRows(s, user, term, classes, |classes|))
      ensures OfTerm(s, user, term, k)
    {
      SlotsAreInTerm(s, user, term, classes, k);
    }
    forall k: Taken | k in CourseRows(s, user, term, classes, |classes|)
      ensures k.user == user && k.term == term
    {
      CourseRowsAre(s, user, term, classes, |classes|, k);
    }
  }

  /** The failed classes are those whose number no section of the term has, in order. */
  lemma {:induction false} FailedAre(s: State, term: int, classes: seq<Schedule.Class>, n: nat, k: nat)
    requires k < n <= |classes| && UniqueSections(s.sections)
    ensures var failed, before := Failed(s, term, classes, n), |Failed(s, term, classes, k)|;
            if exists id ::
                 id in s.sections && s.sections[id].number == classes[k].number && s.sections[id].term == term
            then Failed(s, term, classes, k + 1) == Failed(s, term, classes, k)
            else before < |failed| && failed[before] == classes[k].number
  {
    var number := classes[k].number;
    if id :| id in s.sections && s.sections[id].number == number && s.sections[id].term == term {
      FindIs(s, id, number, term);
    } else {
      assert forall id :: !IsSection(s, id, number, term);
    }
    FailedPrefix(s, term, classes, k + 1, n);
  }

  lemma {:induction false} FailedPrefix(s: State, term: int, classes: seq<Schedule.Class>, k: nat, n: nat)
    requires k <= n <= |classes|
    ensures Failed(s, term, classes, k) <= Failed(s, term, classes, n)
  {
    hide Find;
    if k < n {
      FailedPrefix(s, term, classes, k, n - 1);
    }
  }

  // What a schedule inserts depends on the sections alone.
  lemma {:induction false} SameSectionsSameRows(
    s: State, t: State, user: int, term: int, classes: seq<Schedule.Class>, n: nat)
    requires s.sections == t.sections && n <= |classes| && UniqueSections(s.sections)
    ensures SlotRows(s, user, term, classes, n) == SlotRows(t, user, term, classes, n)
    ensures CourseRows(s, user, term, classes, n) == CourseRows(t, user, term, classes, n)
  {
    if n > 0 {
      SameSectionsSameRows(s, t, user, term, classes, n - 1);
      var number := classes[n - 1].number;
      if Find(s, number, term).Some? {
        FindIs(t, Find(s, number, term).value, number, term);
      } else if Find(t, number, term).Some? {
        FindIs(s, Find(t, number, term).value, number, term);
      }
    }
  }

  /** Saving the same schedule again changes nothing. */
  lemma ScheduleIsIdempotent(s: State, user: int, term: int, classes: seq<Schedule.Class>, currentTermId: int)
    requires UniqueSections(s.sections) && ScheduleSaved(s, user, term, classes, currentTermId).Some?
    ensures var t := ScheduleSaved(s, user, term, classes, currentTermId).value;
            ScheduleSaved(t, user, term, classes, currentTermId) == Some(t)
  {
    hide SlotRows, CourseRows, ToMap, Repeats, UniqueSections;
    var t := ScheduleSaved(s, user, term, classes, currentTermId).value;
    SameSectionsSameRows(s, t, user, term, classes, |classes|);
    ScheduleRowsAreInTerm(s, user, term, classes);
    var rows, courses := SlotRows(s, user, term, classes, |classes|), CourseRows(s, user, term, classes, |classes|);
    assert DeleteSlots(t.schedule, t.sections, user, term) + ToMap(rows) == t.schedule;
    assert DeleteTerm(t.taken, user, term) + courses == t.taken;
  }

  // Two savings in a row, if both commit
  ghost function Then(s: Option<State>, save: State -> Option<State>): Option<State> {
    if s.Some? then save(s.value) else None
  }

  /** A transcript and a schedule of a later term commute, for the same user or for two users. */
  lemma {:induction false} SavesCommute(
    s: State, user: int, program: string, terms: seq<Transcript.TermSummary>,
    other: int, term: int, classes: seq<Schedule.Class>, currentTermId: int)
    requires UniqueSections(s.sections)
    requires term > 0 && forall i :: 0 <= i < |terms| ==> term > terms[i].termId
    ensures Then(TranscriptSaved(s, user, program, terms), t => ScheduleSaved(t, other, term, classes, currentTermId))
         == Then(ScheduleSaved(s, other, term, classes, currentTermId), t => TranscriptSaved(t, user, program, terms))
  {
    hide SlotRows, CourseRows, ToMap, Repeats, UniqueSections, RowsOf, MaxTerm;
    MaxTermIs(terms, |terms|, term);
    var a, b := TranscriptSaved(s, user, program, terms), ScheduleSaved(s, other, term, classes, currentTermId);
    AllRowsAreRecent(s, user, terms);
    ScheduleRowsAreInTerm(s, other, term, classes);
    if a.Some? {
      SameSectionsSameRows(s, a.value, other, term, classes, |classes|);
    }
    if a.Some? && b.Some? {
      var max := MaxTerm(terms, |terms|);
      var rows, courses := ToMap(RowsOf(s.courses, user, terms, |terms|)),
          CourseRows(s, other, term, classes, |classes|);
      TakenCommute(s.taken, user, max, rows, other, term, courses);
    }
  }

  // Two replacements of disjoint parts of the table
  lemma TakenCommute(
    taken: map<Taken, Option<string>>, user: int, max: int, rows: map<Taken, Option<string>>,
    other: int, term: int, courses: map<Taken, Option<string>>)
    requires term > max
    requires forall k: Taken :: k in rows ==> k.user == user && k.term <= max
    requires forall k: Taken :: k in courses ==> k.user == other && k.term == term
    ensures DeleteTerm(DeleteUpTo(taken, user, max) + rows, other, term) + courses
         == DeleteUpTo(DeleteTerm(taken, other, term) + courses, user, max) + rows
  {
    hide *;
    var a := DeleteTerm(DeleteUpTo(taken, user, max) + rows, other, term) + courses;
    var b := DeleteUpTo(DeleteTerm(taken, other, term) + courses, user, max) + rows;
    forall k: Taken
      ensures k in a <==> k in b
      ensures k in a ==> k in b && a[k] == b[k]
    {
      TakenCommuteAt(taken, user, max, rows, other, term, courses, k);
    }
  }

  lemma TakenCommuteAt(
    taken: map<Taken, Option<string>>, user: int, max: int, rows: map<Taken, Option<string>>,
    other: int, term: int, courses: map<Taken, Option<string>>, k: Taken)
    requires term > max
    requires k in rows ==> k.user == user && k.term <= max
    requires k in courses ==> k.user == other && k.term == term
    ensures var a := DeleteTerm(DeleteUpTo(taken, user, max) + rows, other, term) + courses;
            var b := DeleteUpTo(DeleteTerm(taken, other, term) + courses, user, max) + rows;
            (k in a <==> k in b) && (k in a ==> a[k] == b[k])
  {
  }

  // ----- the transactions -----

  class Database {
    const courses: map<string, int>
    const sections: map<int, Section>
    var programs: map<int, Option<string>>
    var taken: map<Taken, Option<string>>
    var schedule: map<Slot, string>

    ghost function Abstract(): State
      reads this
    {
      State(courses, sections, programs, taken, schedule)
    }

    constructor (courses: map<string, int>, sections: map<int, Section>, programs: map<int, Option<string>>)
      ensures Abstract() == State(courses, sections, programs, map[], map[])
    {
      this.courses, this.sections, this.programs := courses, sections, programs;
      this.taken, this.schedule := map[], map[];
    }

    /** saveTranscript; the transaction's changes reach the fields only when it commits. */
    method SaveTranscript(user: int, program: string, terms: seq<Transcript.TermSummary>) returns (reply: Reply)
      modifies this
      ensures TranscriptSaved(old(Abstract()), user, program, terms) ==
                if reply.CoursesImported? then Some(Abstract()) else None
      ensures !reply.CoursesImported? ==> Abstract() == old(Abstract())
      ensures reply == if |terms| == 0 then EmptyTranscript
                       else if Repeats(RowsOf(courses, user, terms, |terms|))
                         || !Allows(old(Abstract()), user, program, RowsOf(courses, user, terms, |terms|))
                       then Violation
                       else CoursesImported(CourseCount(terms, |terms|))
    {
      hide RowsOf, Repeats, ToMap, MaxTerm, CourseCount, CharCount;
      if |terms| == 0 {
        return EmptyTranscript;
      }
      if user in programs && CharCount(program) > MAX_PROGRAM {
        return Violation;
      }
      ghost var s := Abstract();
      var maxTermId := LatestTerm(terms);
      AllRowsAreRecent(s, user, terms);
      var rows := InsertRows(user, terms, DeleteUpTo(taken, user, maxTermId));
      if rows.None? {
        return Violation;
      }
      programs := WithProgram(programs, user, program);
      taken := rows.value;
      var imported := CountCourses(terms);
      return CoursesImported(imported);
    }

    static method LatestTerm(terms: seq<Transcript.TermSummary>) returns (maxTermId: int)
      ensures maxTermId == MaxTerm(terms, |terms|)
    {
      maxTermId := 0;
      for i := 0 to |terms|
        invariant maxTermId == MaxTerm(terms, i)
      {
        if terms[i].termId > maxTermId {
          maxTermId := terms[i].termId;
        }
      }
    }

    static method CountCourses(terms: seq<Transcript.TermSummary>) returns (n: nat)
      ensures n == CourseCount(terms, |terms|)
    {
      n := 0;
      for i := 0 to |terms|
        invariant n == CourseCount(terms, i)
      {
        n := n + |terms[i].courses|;
      }
    }

    // The inserts, one by one; none of the rows may be there already, and the user must exist.
    method InsertRows(user: int, terms: seq<Transcript.TermSummary>, base: map<Taken, Option<string>>)
      returns (r: Option<map<Taken, Option<string>>>)
      requires forall k :: k in base ==> k !in ToMap(RowsOf(courses, user, terms, |terms|))
      ensures var rows := RowsOf(courses, user, terms, |terms|);
              r == if Repeats(rows) || (user !in programs && rows != []) then None else Some(base + ToMap(rows))
    {
      hide RowsOf, RowsOfTerm, ToMap, Repeats;
      var m := base;
      NoRows<Taken, Option<string>>(base);
      NoTerms(user, terms);
      for i := 0 to |terms|
        invariant m == base + ToMap(RowsOf(courses, user, terms, i))
        invariant !Repeats(RowsOf(courses, user, terms, i))
        invariant user in programs || RowsOf(courses, user, terms, i) == []
      {
        var t := terms[i];
        NoCourses(user, t);
        for j := 0 to |t.courses|
          invariant m == base + ToMap(RowsOf(courses, user, terms, i) + RowsOfTerm(courses, user, t, j))
          invariant !Repeats(RowsOf(courses, user, terms, i) + RowsOfTerm(courses, user, t, j))
          invariant user in programs || RowsOf(courses, user, terms, i) + RowsOfTerm(courses, user, t, j) == []
        {
          NextRow(user, terms, i, j);
          if t.courses[j] in courses {
            var key := Taken(user, t.termId, courses[t.courses[j]]);
            if user !in programs || key in m {
              return None;
            }
            PutLast(base, ToMap(RowsOf(courses, user, terms, i) + RowsOfTerm(courses, user, t, j)), key, Some(t.level));
            m := m[key := Some(t.level)];
          }
        }
        TermDone(user, terms, i);
      }
      r := Some(m);
    }

    static lemma NoRows<K(!new), V>(base: map<K, V>)
      ensures !Repeats<K, V>([]) && base + ToMap<K, V>([]) == base && ToMap<K, V>([]) == map[]
    {
    }

    lemma {:induction false} NoTerms(user: int, terms: seq<Transcript.TermSummary>)
      ensures RowsOf(courses, user, terms, 0) == []
    {
    }

    lemma {:induction false} NoCourses(user: int, t: Transcript.TermSummary)
      ensures forall rows: seq<Row<Taken, Option<string>>> :: rows + RowsOfTerm(courses, user, t, 0) == rows
    {
    }

    lemma TermDone(user: int, terms: seq<Transcript.TermSummary>, i: nat)
      requires i < |terms|
      ensures RowsOf(courses, user, terms, i + 1) ==
              RowsOf(courses, user, terms, i) + RowsOfTerm(courses, user, terms[i], |terms[i].courses|)
    {
    }

    // Inserting one more row: it clashes only when all rows together do.
    lemma {:induction false} NextRow(user: int, terms: seq<Transcript.TermSummary>, i: nat, j: nat)
      requires i < |terms| && j < |terms[i].courses|
      ensures var t := terms[i];
              var rows := RowsOf(courses, user, terms, i) + RowsOfTerm(courses, user, t, j);
              var next := RowsOf(courses, user, terms, i) + RowsOfTerm(courses, user, t, j + 1);
              if t.courses[j] in courses then
                var key := Taken(user, t.termId, courses[t.courses[j]]);
                && ToMap(next) == ToMap(rows)[key := Some(t.level)]
                && (!Repeats(rows) && key !in ToMap(rows) ==> !Repeats(next))
                && (key in ToMap(rows) ==> Repeats(RowsOf(courses, user, terms, |terms|)))
                && key in ToMap(RowsOf(courses, user, terms, |terms|))
              else next == rows
    {
      var t := terms[i];
      var rows := RowsOf(courses, user, terms, i) + RowsOfTerm(courses, user, t, j);
      var next := RowsOf(courses, user, terms, i) + RowsOfTerm(courses, user, t, j + 1);
      if t.courses[j] in courses {
        var row := Row(Taken(user, t.termId, courses[t.courses[j]]), Some(t.level));
        assert next == rows + [row];
        ToMapSnoc(rows, row);
        var all := RowsOf(courses, user, terms, |terms|);
        RowsPrefix(user, terms, i, j + 1);
        assert all == rows + [row] + all[|next|..];
        assert all[|rows|] == row;
        if row.key in ToMap(rows) {
          RepeatsLater(rows, row, all[|next|..]);
        }
      } else {
        assert RowsOfTerm(courses, user, t, j + 1) == RowsOfTerm(courses, user, t, j);
      }
    }

    lemma {:induction false} RowsPrefix(user: int, terms: seq<Transcript.TermSummary>, i: nat, j: nat)
      requires i < |terms| && j <= |terms[i].courses|
      ensures RowsOf(courses, user, terms, i) + RowsOfTerm(courses, user, terms[i], j) <=
              RowsOf(courses, user, terms, |terms|)
    {
      TermPrefix(user, terms[i], j, |terms[i].courses|);
      TermsPrefix(user, terms, i + 1, |terms|);
    }

    lemma {:induction false} TermPrefix(user: int, t: Transcript.TermSummary, j: nat, n: nat)
      requires j <= n <= |t.courses|
      ensures RowsOfTerm(courses, user, t, j) <= RowsOfTerm(courses, user, t, n)
    {
      if j < n {
        TermPrefix(user, t, j, n - 1);
      }
    }

    lemma {:induction false} TermsPrefix(user: int, terms: seq<Transcript.TermSummary>, i: nat, n: nat)
      requires i <= n <= |terms|
      ensures RowsOf(courses, user, terms, i) <= RowsOf(courses, user, terms, n)
    {
      if i < n {
        TermsPrefix(user, terms, i, n - 1);
      }
    }

    /** saveSchedule; the transaction's changes reach the fields only when it commits. */
    method SaveSchedule(user: int, term: int, classes: seq<Schedule.Class>, currentTermId: int) returns (reply: Reply)
      requires UniqueSections(sections)
      modifies this
      ensures ScheduleSaved(old(Abstract()), user, term, classes, currentTermId) ==
                if reply.SectionsImported? then Some(Abstract()) else None
      ensures !reply.SectionsImported? ==> Abstract() == old(Abstract())
      ensures reply == if term < currentTermId then OldSchedule
                       else if |classes| == 0 then EmptySchedule
                       else if Repeats(SlotRows(old(Abstract()), user, term, classes, |classes|))
                         || (user !in programs && SlotRows(old(Abstract()), user, term, classes, |classes|) != [])
                       then Violation
                       else SectionsImported(|classes|, Failed(old(Abstract()), term, classes, |classes|))
    {
      hide SlotRows, CourseRows, Failed, Repeats, ToMap, Find, UniqueSections;
      ghost var s := Abstract();
      if term < currentTermId {
        return OldSchedule;
      }
      if |classes| == 0 {
        return EmptySchedule;
      }
      ScheduleRowsAreInTerm(s, user, term, classes);
      var newTaken, newSchedule, failedClasses, clash := InsertClasses(
        user, term, classes, DeleteTerm(taken, user, term), DeleteSlots(schedule, sections, user, term));
      if clash {
        return Violation;
      }
      taken, schedule := newTaken, newSchedule;
      return SectionsImported(|classes|, failedClasses);
    }

    // The inserts, class by class; a course taken twice is skipped, a slot taken twice or by no user is an error.
    method InsertClasses(
      user: int, term: int, classes: seq<Schedule.Class>, t0: map<Taken, Option<string>>, s0: map<Slot, string>)
      returns (
        newTaken: map<Taken, Option<string>>, newSchedule: map<Slot, string>, failedClasses: seq<int>, clash: bool)
      requires UniqueSections(sections)
      requires forall k: Slot :: k in s0 ==> k !in ToMap(SlotRows(Abstract(), user, term, classes, |classes|))
      requires forall k: Taken :: k in t0 ==> k.user != user || k.term != term
      ensures var rows := SlotRows(Abstract(), user, term, classes, |classes|);
              clash == (Repeats(rows) || (user !in programs && rows != []))
      ensures !clash ==>
                && newTaken == t0 + CourseRows(Abstract(), user, term, classes, |classes|)
                && newSchedule == s0 + ToMap(SlotRows(Abstract(), user, term, classes, |classes|))
                && failedClasses == Failed(Abstract(), term, classes, |classes|)
    {
      hide SlotRows, CourseRows, Failed, Repeats, ToMap, Find, UniqueSections;
      ghost var s := Abstract();
      newTaken, newSchedule, failedClasses := t0, s0, [];
      NoClasses(s, user, term, classes);
      NoRows<Slot, string>(s0);
      for i := 0 to |classes|
        invariant newTaken == t0 + CourseRows(s, user, term, classes, i)
        invariant newSchedule == s0 + ToMap(SlotRows(s, user, term, classes, i))
        invariant !Repeats(SlotRows(s, user, term, classes, i))
        invariant user in programs || SlotRows(s, user, term, classes, i) == []
        invariant failedClasses == Failed(s, term, classes, i)
      {
        var number := classes[i].number;
        NextClass(s, user, term, classes, i);
        var id := FindSection(number, term);
        if id.Some? {
          if user !in programs || Slot(user, id.value) in newSchedule {
            clash := true;
            return;
          }
          PutLast(s0, ToMap(SlotRows(s, user, term, classes, i)), Slot(user, id.value), classes[i].location);
          newSchedule := newSchedule[Slot(user, id.value) := classes[i].location];
          var key := Taken(user, term, sections[id.value].course);
          PutLast(t0, CourseRows(s, user, term, classes, i), key, None);
          if key !in newTaken {
            newTaken := newTaken[key := None];
          } else {
            CourseRowsAre(s, user, term, classes, i, key);
          }
        } else {
          failedClasses := failedClasses + [number];
        }
      }
      clash := false;
    }

    method FindSection(number: int, term: int) returns (id: Option<int>)
      requires UniqueSections(sections)
      ensures id == Find(Abstract(), number, term)
      ensures id.Some? ==> id.value in sections
    {
      ghost var s := Abstract();
      if found :| found in sections && sections[found].number == number && sections[found].term == term {
        assert IsSection(s, found, number, term);
        FindIs(s, found, number, term);
        return Some(found);
      }
      assert forall id :: !IsSection(s, id, number, term);
      return None;
    }
  }

  lemma {:induction false} NoClasses(s: State, user: int, term: int, classes: seq<Schedule.Class>)
    ensures SlotRows(s, user, term, classes, 0) == [] && CourseRows(s, user, term, classes, 0) == map[]
    ensures Failed(s, term, classes, 0) == []
    ensures forall m: map<Taken, Option<string>> :: m + map[] == m
  {
  }

  // Inserting the slot of one more class: it clashes only when all slots together do.
  lemma NextClass(s: State, user: int, term: int, classes: seq<Schedule.Class>, i: nat)
    requires i < |classes|
    ensures var id := Find(s, classes[i].number, term);
            var rows, next := SlotRows(s, user, term, classes, i), SlotRows(s, user, term, classes, i + 1);
            var all := SlotRows(s, user, term, classes, |classes|);
            if id.Some? then
              var key := Slot(user, id.value);
              && ToMap(next) == ToMap(rows)[key := classes[i].location]
              && (!Repeats(rows) && key !in ToMap(rows) ==> !Repeats(next))
              && (key in ToMap(rows) ==> Repeats(all))
              && key in ToMap(all)
              && CourseRows(s, user, term, classes, i + 1) ==
                   CourseRows(s, user, term, classes, i)[Taken(user, term, s.sections[id.value].course) := None]
              && Failed(s, term, classes, i + 1) == Failed(s, term, classes, i)
            else
              && next == rows
              && CourseRows(s, user, term, classes, i + 1) == CourseRows(s, user, term, classes, i)
              && Failed(s, term, classes, i + 1) == Failed(s, term, classes, i) + [classes[i].number]
  {
    hide Find;
    var id := Find(s, classes[i].number, term);
    var rows, next := SlotRows(s, user, term, classes, i), SlotRows(s, user, term, classes, i + 1);
    if id.Some? {
      var row := Row(Slot(user, id.value), classes[i].location);
      assert next == rows + [row];
      ToMapSnoc(rows, row);
      var all := SlotRows(s, user, term, classes, |classes|);
      SlotsPrefix(s, user, term, classes, i + 1, |classes|);
      assert all == rows + [row] + all[|next|..];
      assert all[|rows|] == row;
      if row.key in ToMap(rows) {
        RepeatsLater(rows, row, all[|next|..]);
      }
    }
  }

  lemma {:induction false} SlotsPrefix(s: State, user: int, term: int, classes: seq<Schedule.Class>, i: nat, n: nat)
    requires i <= n <= |classes|
    ensures SlotRows(s, user, term, classes, i) <= SlotRows(s, user, term, classes, n)
  {
    hide Find;
    if i < n {
      SlotsPrefix(s, user, term, classes, i, n - 1);
    }
  }

  /** A program of 256 characters is stored, a longer one fails the save; without a user nothing is stored. */
  lemma {:induction false} ProgramLimit(s: State, user: int, program: string, terms: seq<Transcript.TermSummary>)
    requires |terms| > 0 && !Repeats(RowsOf(s.courses, user, terms, |terms|))
    ensures TranscriptSaved(s, user, program, terms).Some? <==>
            && (user in s.programs ==> CharCount(program) <= 256)
            && (user !in s.programs ==> RowsOf(s.courses, user, terms, |terms|) == [])
  {
    hide RowsOf, ToMap, MaxTerm, CharCount, Repeats;
  }
}
