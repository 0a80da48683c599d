/** convertAll: courses and classes of the university's API become the rows to import. */
module Convert {
  import opened Bytes
  import opened Decimal
  import Calendar
  import CourseCodes
  import ProfCode
  import Requirements
  import Terms

  // ----- what the API returns -----

  datatype ApiCourse = ApiCourse(
    courseId: string, offerNumber: int, subject: string, number: string,
    name: string, description: Option<string>, requirements: Option<string>)

  // A time of day, in seconds since midnight; NoClock is the empty string.
  datatype Clock = NoClock | BadClock | At(seconds: int)

  // A date, as a day number; NoDate is the empty string.
  datatype DateText = NoDate | BadDate | On(day: int)

  datatype ApiMeeting = ApiMeeting(
    number: int, startTime: Clock, endTime: Clock, startDate: DateText, endDate: DateText,
    weekdays: Option<string>, location: Option<string>)

  datatype Instructor = Instructor(firstName: string, lastName: string)

  datatype ApiClass = ApiClass(
    courseCode: string, courseId: string, offerNumber: int, classNumber: int,
    component: Option<string>, sectionNumber: int,
    capacity: int, enrolled: int, termCode: Option<string>,
    meetings: seq<ApiMeeting>, instructors: seq<Instructor>)

  // ----- the rows -----

  datatype Key = Key(classNumber: int, termId: int)

  datatype CourseRow = CourseRow(
    code: string, name: string, description: Option<string>,
    prereqs: Option<string>, coreqs: Option<string>, antireqs: Option<string>)

  datatype PrereqRow = PrereqRow(courseCode: string, prereqCode: string, isCoreq: bool)

  datatype AntireqRow = AntireqRow(courseCode: string, antireqCode: string)

  datatype SectionRow = SectionRow(
    key: Key, courseCode: string, name: string, capacity: int, total: int, updatedAt: int, isOnline: bool)

  datatype MeetingRow = MeetingRow(
    key: Key, profCode: Option<string>, location: Option<string>,
    startSeconds: int, endSeconds: int, startDate: int, endDate: int, days: seq<string>)

  // ----- courses -----

  // parseCourseRequirements panics on two headers in one word.
  ghost predicate Readable(c: ApiCourse) {
    !Requirements.TwoHeadersInOneWord(Description(c))
  }

  function Description(c: ApiCourse): string {
    if c.requirements.Some? then c.requirements.value else ""
  }

  function RequirementOf(c: ApiCourse, kind: Requirements.Kind): string {
    var s := Description(c);
    var headers := Requirements.Headers(s, |s|);
    Requirements.LastOf(s, headers, |headers|, kind)
  }

  function CodeOf(c: ApiCourse): string {
    Lower(c.subject + c.number)
  }

  function NonEmpty(s: Option<string>): Option<string> {
    if s == Some("") then None else s
  }

  function ExpandedText(text: string): Option<string> {
    if text == "" then None else Some(CourseCodes.Expanded(text).0)
  }

  function ExpandedCodes(text: string): seq<string> {
    if text == "" then [] else CourseCodes.Expanded(text).1
  }

  function CourseOf(c: ApiCourse): CourseRow {
    CourseRow(CodeOf(c), c.name, NonEmpty(c.description),
              ExpandedText(RequirementOf(c, Requirements.Prereq)),
              ExpandedText(RequirementOf(c, Requirements.Coreq)),
              ExpandedText(RequirementOf(c, Requirements.Antireq)))
  }

  function PrereqRows(courseCode: string, codes: seq<string>, isCoreq: bool): (r: seq<PrereqRow>)
    ensures |r| == |codes|
  {
    seq(|codes|, i requires 0 <= i < |codes| => PrereqRow(courseCode, codes[i], isCoreq))
  }

  function PrereqsOf(c: ApiCourse): seq<PrereqRow> {
    PrereqRows(CodeOf(c), ExpandedCodes(RequirementOf(c, Requirements.Prereq)), false) +
    PrereqRows(CodeOf(c), ExpandedCodes(RequirementOf(c, Requirements.Coreq)), true)
  }

  function AntireqsOf(c: ApiCourse): (r: seq<AntireqRow>) {
    var codes := ExpandedCodes(RequirementOf(c, Requirements.Antireq));
    seq(|codes|, i requires 0 <= i < |codes| => AntireqRow(CodeOf(c), codes[i]))
  }

  function Courses(cs: seq<ApiCourse>, n: nat): (r: seq<CourseRow>)
    requires n <= |cs|
    ensures |r| == n && forall i :: 0 <= i < n ==> r[i] == CourseOf(cs[i])
  {
    seq(n, i requires 0 <= i < n => CourseOf(cs[i]))
  }

  function Prereqs(cs: seq<ApiCourse>, n: nat): seq<PrereqRow>
    requires n <= |cs|
  {
    if n == 0 then [] else Prereqs(cs, n - 1) + PrereqsOf(cs[n - 1])
  }

  function Antireqs(cs: seq<ApiCourse>, n: nat): seq<AntireqRow>
    requires n <= |cs|
  {
    if n == 0 then [] else Antireqs(cs, n - 1) + AntireqsOf(cs[n - 1])
  }

  /** A requisite row says that its code was written into that requirement of that course. */
  lemma {:induction false} PrereqsAre(cs: seq<ApiCourse>, n: nat, row: PrereqRow)
    requires n <= |cs|
    ensures row in Prereqs(cs, n) <==>
            exists i :: 0 <= i < n && row.courseCode == Lower(cs[i].subject + cs[i].number)
              && Writes(cs[i], if row.isCoreq then Requirements.Coreq else Requirements.Prereq, row.prereqCode)
  {
    hide Writes, PrereqsOf;
    if n > 0 {
      PrereqsAre(cs, n - 1, row);
      RowsOfCourse(cs[n - 1], row);
      WritesIs(cs[n - 1], if row.isCoreq then Requirements.Coreq else Requirements.Prereq, row.prereqCode);
    }
  }

  // The expansion of the course's last text of this kind lists the code.
  predicate Writes(c: ApiCourse, kind: Requirements.Kind, code: string) {
    c.requirements.Some? &&
      var s := c.requirements.value;
      var headers := Requirements.Headers(s, |s|);
      var text := Requirements.LastOf(s, headers, |headers|, kind);
      text != "" && code in CourseCodes.Expanded(text).1
  }

  lemma WritesIs(c: ApiCourse, kind: Requirements.Kind, code: string)
    ensures Writes(c, kind, code) <==> code in ExpandedCodes(RequirementOf(c, kind))
  {
    hide CourseCodes.Expanded;
    assert Requirements.Headers("", 0) == [];
  }

  lemma RowsOfCourse(c: ApiCourse, row: PrereqRow)
    ensures row in PrereqsOf(c) <==>
            && row.courseCode == CodeOf(c)
            && row.prereqCode in
                 ExpandedCodes(RequirementOf(c, if row.isCoreq then Requirements.Coreq else Requirements.Prereq))
  {
    hide CodeOf, ExpandedCodes, RequirementOf;
    RowsOfCodes(CodeOf(c), ExpandedCodes(RequirementOf(c, Requirements.Prereq)), false, row);
    RowsOfCodes(CodeOf(c), ExpandedCodes(RequirementOf(c, Requirements.Coreq)), true, row);
  }

  lemma RowsOfCodes(courseCode: string, codes: seq<string>, isCoreq: bool, row: PrereqRow)
    ensures row in PrereqRows(courseCode, codes, isCoreq) <==>
            row.courseCode == courseCode && row.isCoreq == isCoreq && row.prereqCode in codes
  {
    var rows := PrereqRows(courseCode, codes, isCoreq);
    if row.courseCode == courseCode && row.isCoreq == isCoreq && row.prereqCode in codes {
      var i :| 0 <= i < |codes| && codes[i] == row.prereqCode;
      assert rows[i] == row;
    }
  }

  /** Each course row reads field by field as its course, with the three requirement texts expanded in their columns. */
  lemma CourseRowReads(c: ApiCourse)
    ensures var row := CourseOf(c);
            var s := if c.requirements.Some? then c.requirements.value else "";
            var headers := Requirements.Headers(s, |s|);
            && |row.code| == |c.subject| + |c.number|
            && (forall i :: 0 <= i < |c.subject| ==> row.code[i] == LowerChar(c.subject[i]))
            && (forall i :: 0 <= i < |c.number| ==> row.code[|c.subject| + i] == LowerChar(c.number[i]))
            && row.name == c.name
            && (row.description == if c.description == Some("") then None else c.description)
            && IsExpansion(Requirements.LastOf(s, headers, |headers|, Requirements.Prereq), row.prereqs)
            && IsExpansion(Requirements.LastOf(s, headers, |headers|, Requirements.Coreq), row.coreqs)
            && IsExpansion(Requirements.LastOf(s, headers, |headers|, Requirements.Antireq), row.antireqs)
  {
    hide LowerChar, Requirements.Headers, Requirements.LastOf, CourseCodes.Expanded;
    var raw := c.subject + c.number;
    assert forall i :: 0 <= i < |c.subject| ==> raw[i] == c.subject[i];
    assert forall i :: 0 <= i < |c.number| ==> raw[|c.subject| + i] == c.number[i];
  }

  predicate IsExpansion(text: string, column: Option<string>) {
    (text == "" <==> column.None?) && (column.Some? ==> column.value == CourseCodes.Expanded(text).0)
  }

  /** An antirequisite row says that its code was written into the antirequisites of that course. */
  lemma {:induction false} AntireqsAre(cs: seq<ApiCourse>, n: nat, row: AntireqRow)
    requires n <= |cs|
    ensures row in Antireqs(cs, n) <==>
            exists i :: 0 <= i < n && row.courseCode == Lower(cs[i].subject + cs[i].number)
              && Writes(cs[i], Requirements.Antireq, row.antireqCode)
  {
    hide Writes, ExpandedCodes, RequirementOf;
    if n > 0 {
      AntireqsAre(cs, n - 1, row);
      WritesIs(cs[n - 1], Requirements.Antireq, row.antireqCode);
      var rows := AntireqsOf(cs[n - 1]);
      var codes := ExpandedCodes(RequirementOf(cs[n - 1], Requirements.Antireq));
      if row.courseCode == CodeOf(cs[n - 1]) && row.antireqCode in codes {
        var i :| 0 <= i < |codes| && codes[i] == row.antireqCode;
        assert rows[i] == row;
      }
    }
  }

  // ----- sections -----

  function KeyOf(c: ApiClass): Option<Key> {
    if c.termCode.None? || Atoi(c.termCode.value).None? then None
    else Some(Key(c.classNumber, Atoi(c.termCode.value).value))
  }

  ghost predicate Seen(cs: seq<ApiClass>, n: nat, key: Key)
    requires n <= |cs|
  {
    exists i :: 0 <= i < n && KeyOf(cs[i]) == Some(key)
  }

  // Class i is the first with its key.
  ghost predicate First(cs: seq<ApiClass>, i: nat)
    requires i < |cs|
  {
    KeyOf(cs[i]).Some? && !Seen(cs, i, KeyOf(cs[i]).value)
  }

  // A dummy class has a capacity of 9999 or more.
  predicate IsReal(c: ApiClass) {
    c.capacity < 9999 && c.component.Some?
  }

  // The section number, padded to three characters.
  function Padded(sectionNumber: int): (r: string)
    requires |Itoa(sectionNumber)| <= 3
    ensures |r| == 3
  {
    seq(3 - |Itoa(sectionNumber)|, i => '0') + Itoa(sectionNumber)
  }

  function SectionOf(c: ApiClass, key: Key, now: int): SectionRow
    requires c.component.Some? && |Itoa(c.sectionNumber)| <= 3
  {
    SectionRow(key, c.courseCode, c.component.value + " " + Padded(c.sectionNumber),
               c.capacity, c.enrolled, now, Padded(c.sectionNumber)[1] == '8')
  }

  // What the API must promise for the import not to panic: a known term, a section number of at most
  // three characters and no day past the seventh in the patterns that are read.
  ghost predicate Convertible(c: ApiClass, terms: set<int>) {
    IsReal(c) && KeyOf(c).Some? ==>
      && KeyOf(c).value.termId in terms
      && |Itoa(c.sectionNumber)| <= 3
      && forall m :: m in c.meetings && IsRead(m) && m.weekdays.Some? ==> SevenDays(m.weekdays.value)
  }

  predicate SevenDays(weekdays: string) {
    forall i :: 7 <= i < |weekdays| ==> weekdays[i] != 'Y'
  }

  ghost predicate AllConvertible(cs: seq<ApiClass>, terms: set<int>) {
    forall i :: 0 <= i < |cs| && First(cs, i) ==> Convertible(cs[i], terms)
  }

  ghost function Sections(cs: seq<ApiClass>, n: nat, terms: set<int>, clock: nat -> int): seq<SectionRow>
    requires n <= |cs| && AllConvertible(cs, terms)
  {
    if n == 0 then []
    else Sections(cs, n - 1, terms, clock) +
         if First(cs, n - 1) && IsReal(cs[n - 1])
             then [SectionOf(cs[n - 1], KeyOf(cs[n - 1]).value, clock(n - 1))] else []
  }

  // ----- meetings -----

  predicate TimesAreRead(m: ApiMeeting) {
    m.startTime.NoClock? || m.endTime.NoClock? || (m.startTime.At? && m.endTime.At?)
  }

  // The meeting is imported: bad data is skipped.
  predicate IsRead(m: ApiMeeting) {
    m.number != 0 && TimesAreRead(m) && m.startDate.On? && m.endDate.On?
  }

  function NameOf(i: Instructor): string {
    i.firstName + " " + i.lastName
  }

  // A location that names a term stands for an online class.
  function LocationOf(location: Option<string>): Option<string> {
    if location.Some? && Terms.TermNameToId(location.value).Some? then Some("Online") else location
  }

  function MeetingOf(c: ApiClass, key: Key, m: ApiMeeting): MeetingRow
    requires IsRead(m)
  {
    var timed := m.startTime.At? && m.endTime.At?;
    MeetingRow(key,
               if |c.instructors| > 0 then Some(ProfCode.CodeOf(NameOf(c.instructors[0]))) else None,
               LocationOf(m.location),
               if timed then m.startTime.seconds else 0,
               if timed then m.endTime.seconds else 0,
               m.startDate.day, m.endDate.day,
               if m.weekdays.Some? then Calendar.FlaggedCodes(m.weekdays.value, |m.weekdays.value|) else [])
  }

  function MeetingsOf(c: ApiClass, key: Key, n: nat): seq<MeetingRow>
    requires n <= |c.meetings|
  {
    if n == 0 then []
    else MeetingsOf(c, key, n - 1) +
         if IsRead(c.meetings[n - 1]) then [MeetingOf(c, key, c.meetings[n - 1])] else []
  }

  // The first instructor of a class, by code, when one of its first n meetings is read.
  function ProfsOf(c: ApiClass, n: nat): map<string, string>
    requires n <= |c.meetings|
  {
    if n == 0 then map[]
    else if IsRead(c.meetings[n - 1]) && |c.instructors| > 0 then
      ProfsOf(c, n - 1)[ProfCode.CodeOf(NameOf(c.instructors[0])) := NameOf(c.instructors[0])]
    else ProfsOf(c, n - 1)
  }

  ghost function Meetings(cs: seq<ApiClass>, n: nat): seq<MeetingRow>
    requires n <= |cs|
  {
    if n == 0 then []
    else Meetings(cs, n - 1) +
         if First(cs, n - 1) && IsReal(cs[n - 1])
         then MeetingsOf(cs[n - 1], KeyOf(cs[n - 1]).value, |cs[n - 1].meetings|) else []
  }

  ghost function Profs(cs: seq<ApiClass>, n: nat): map<string, string>
    requires n <= |cs|
  {
    if n == 0 then map[]
    else if First(cs, n - 1) && IsReal(cs[n - 1]) then Profs(cs, n - 1) + ProfsOf(cs[n - 1], |cs[n - 1].meetings|)
    else Profs(cs, n - 1)
  }

  // ----- key discipline -----

  ghost predicate DistinctKeys(sections: seq<SectionRow>) {
    forall i, j :: 0 <= i < j < |sections| ==> sections[i].key != sections[j].key
  }

  ghost predicate HasSection(sections: seq<SectionRow>, key: Key) {
    exists i :: 0 <= i < |sections| && sections[i].key == key
  }

  ghost predicate EveryMeetingHasSection(sections: seq<SectionRow>, meetings: seq<MeetingRow>) {
    forall i :: 0 <= i < |meetings| ==> HasSection(sections, meetings[i].key)
  }

  /** A section is imported exactly for the first class of each key, unless that class is a dummy
      or has no component; a later class never takes its place. */
  lemma {:induction false} SectionsAre(cs: seq<ApiClass>, n: nat, terms: set<int>, clock: nat -> int, row: SectionRow)
    requires n <= |cs| && AllConvertible(cs, terms)
    ensures row in Sections(cs, n, terms, clock) <==>
            exists i :: 0 <= i < n && First(cs, i) && IsReal(cs[i])
              && row == SectionOf(cs[i], KeyOf(cs[i]).value, clock(i))
  {
    hide First, KeyOf, IsReal, SectionOf;
    if n > 0 {
      SectionsAre(cs, n - 1, terms, clock, row);
    }
  }

  /** Each section row reads field by field as a class: the class number and term, the course code, the component with
      the padded section number, the capacity and the enrolment. */
  lemma {:induction false} SectionRowsRead(
    cs: seq<ApiClass>, n: nat, terms: set<int>, clock: nat -> int, row: SectionRow)
    returns (i: nat)
    requires n <= |cs| && AllConvertible(cs, terms) && row in Sections(cs, n, terms, clock)
    ensures i < n && First(cs, i) && cs[i].capacity < 9999 && cs[i].component.Some? && cs[i].termCode.Some?
    ensures row.key.classNumber == cs[i].classNumber && Some(row.key.termId) == Atoi(cs[i].termCode.value)
    ensures row.courseCode == cs[i].courseCode && row.capacity == cs[i].capacity && row.total == cs[i].enrolled
    ensures exists number: string ::
              && row.name == cs[i].component.value + " " + number && |number| == 3
              && number[3 - |Itoa(cs[i].sectionNumber)|..] == Itoa(cs[i].sectionNumber)
              && (row.isOnline <==> number[1] == '8')
    ensures row.updatedAt == clock(i)
  {
    SectionsAre(cs, n, terms, clock, row);
    i :| 0 <= i < n && First(cs, i) && IsReal(cs[i]) && row == SectionOf(cs[i], KeyOf(cs[i]).value, clock(i));
    hide Sections, AllConvertible, Seen, Itoa, Atoi;
    var number := Padded(cs[i].sectionNumber);
    assert number[3 - |Itoa(cs[i].sectionNumber)|..] == Itoa(cs[i].sectionNumber);
  }

  /** The first class of a key has a row unless its capacity is 9999 or more or it has no component. */
  lemma {:induction false} RealClassHasRow(cs: seq<ApiClass>, n: nat, terms: set<int>, clock: nat -> int, i: nat)
    requires n <= |cs| && AllConvertible(cs, terms) && i < n && First(cs, i)
    requires cs[i].capacity < 9999 && cs[i].component.Some?
    ensures KeyOf(cs[i]).Some? && HasSection(Sections(cs, n, terms, clock), KeyOf(cs[i]).value)
  {
    var row := SectionOf(cs[i], KeyOf(cs[i]).value, clock(i));
    SectionsAre(cs, n, terms, clock, row);
    var sections := Sections(cs, n, terms, clock);
    var k :| 0 <= k < |sections| && sections[k] == row;
  }

  // The professor stands under the code of their name as the first instructor of a class.
  ghost predicate FirstInstructor(c: ApiClass, code: string, name: string) {
    && |c.instructors| > 0 && name == c.instructors[0].firstName + " " + c.instructors[0].lastName
    && code == ProfCode.CodeOf(name)
  }

  lemma {:induction false} ProfOfClass(c: ApiClass, n: nat, code: string)
    requires n <= |c.meetings| && code in ProfsOf(c, n)
    ensures FirstInstructor(c, code, ProfsOf(c, n)[code])
  {
    hide ProfCode.CodeOf, IsRead;
    if code in ProfsOf(c, n - 1) {
      ProfOfClass(c, n - 1, code);
    }
  }

  /** Every professor of the batch is the first instructor of a class, under the code of their full name. */
  lemma {:induction false} ProfsAreNamed(cs: seq<ApiClass>, n: nat, code: string) returns (i: nat)
    requires n <= |cs| && code in Profs(cs, n)
    ensures i < n && FirstInstructor(cs[i], code, Profs(cs, n)[code])
  {
    hide FirstInstructor, ProfsOf, First, IsReal;
    var c := cs[n - 1];
    if First(cs, n - 1) && IsReal(c) && code in ProfsOf(c, |c.meetings|) {
      i := n - 1;
      ProfOfClass(c, |c.meetings|, code);
    } else {
      i := ProfsAreNamed(cs, n - 1, code);
    }
  }

  /** The class of the source's first test: section 54 of a lecture with 30 of 1070 places taken. */
  lemma FirstTestSection()
    ensures var c := ApiClass("bus111w", "", 0, 3533, Some("LEC"), 54, 1070, 30, Some("1215"), [], []);
            && |Itoa(54)| == 2
            && SectionOf(c, Key(3533, 1215), 7) ==
                 SectionRow(Key(3533, 1215), "bus111w", "LEC 054", 1070, 30, 7, false)
  {
    ThreeDigits(54);
    assert Itoa(54) == "54" by {
      assert Digits(5) == "5";
    }
    assert Padded(54) == "054";
    assert "LEC" + " " + "054" == "LEC 054";
  }

  // The same rows but for the time of the conversion
  ghost predicate SameButTime(a: seq<SectionRow>, b: seq<SectionRow>) {
    |a| == |b| && forall i :: 0 <= i < |a| ==> a[i].(updatedAt := 0) == b[i].(updatedAt := 0)
  }

  /** The clock decides nothing but the times of the section rows. */
  lemma {:induction false} SectionsAtAnyTime(
    cs: seq<ApiClass>, n: nat, terms: set<int>, clock: nat -> int, later: nat -> int)
    requires n <= |cs| && AllConvertible(cs, terms)
    ensures SameButTime(Sections(cs, n, terms, clock), Sections(cs, n, terms, later))
  {
    hide First, KeyOf, IsReal, Padded;
    if n > 0 {
      SectionsAtAnyTime(cs, n - 1, terms, clock, later);
    }
  }

  /** The keys of the imported sections are pairwise distinct, whatever the API returns. */
  lemma {:induction false} SectionKeysAreDistinct(cs: seq<ApiClass>, n: nat, terms: set<int>, clock: nat -> int)
    requires n <= |cs| && AllConvertible(cs, terms)
    ensures DistinctKeys(Sections(cs, n, terms, clock))
  {
    hide KeyOf, IsReal;
    if n > 0 {
      SectionKeysAreDistinct(cs, n - 1, terms, clock);
      var earlier := Sections(cs, n - 1, terms, clock);
      forall i | 0 <= i < |earlier|
        ensures First(cs, n - 1) ==> earlier[i].key != KeyOf(cs[n - 1]).value
      {
        SectionsAre(cs, n - 1, terms, clock, earlier[i]);
      }
    }
  }

  lemma {:induction false} MeetingsOfHaveKey(c: ApiClass, key: Key, n: nat)
    requires n <= |c.meetings|
    ensures forall i :: 0 <= i < |MeetingsOf(c, key, n)| ==> MeetingsOf(c, key, n)[i].key == key
  {
    if n > 0 {
      MeetingsOfHaveKey(c, key, n - 1);
    }
  }

  lemma HasSectionSnoc(sections: seq<SectionRow>, more: seq<SectionRow>, key: Key)
    ensures HasSection(sections + more, key) <==> HasSection(sections, key) || HasSection(more, key)
  {
    var all := sections + more;
    assert forall i :: 0 <= i < |sections| ==> all[i] == sections[i];
    assert forall i :: 0 <= i < |more| ==> all[|sections| + i] == more[i];
  }

  lemma {:induction false} MeetingHasSection(cs: seq<ApiClass>, n: nat, terms: set<int>, clock: nat -> int, i: nat)
    requires n <= |cs| && AllConvertible(cs, terms) && i < |Meetings(cs, n)|
    ensures HasSection(Sections(cs, n, terms, clock), Meetings(cs, n)[i].key)
  {
    hide MeetingsOf, Sections, Meetings, HasSection, Atoi, Seen;
    if n == 0 {
      NothingConverted(cs, terms, clock);
      assert false;
    } else {
      ClassStep(cs, n - 1, terms, clock);
      var c := cs[n - 1];
      var earlier := Meetings(cs, n - 1);
      var last := if First(cs, n - 1) && IsReal(c) then [SectionOf(c, KeyOf(c).value, clock(n - 1))] else [];
      HasSectionSnoc(Sections(cs, n - 1, terms, clock), last, Meetings(cs, n)[i].key);
      if i < |earlier| {
        MeetingHasSection(cs, n - 1, terms, clock, i);
      } else {
        MeetingsOfHaveKey(c, KeyOf(c).value, |c.meetings|);
        SingleHasSection(SectionOf(c, KeyOf(c).value, clock(n - 1)));
        assert First(cs, n - 1) && IsReal(c);
      }
    }
  }

  lemma SingleHasSection(row: SectionRow)
    ensures HasSection([row], row.key)
  {
    assert [row][0] == row;
  }

  /** Every imported meeting belongs to a section of the same batch. */
  lemma {:induction false} MeetingsHaveSections(cs: seq<ApiClass>, n: nat, terms: set<int>, clock: nat -> int)
    requires n <= |cs| && AllConvertible(cs, terms)
    ensures EveryMeetingHasSection(Sections(cs, n, terms, clock), Meetings(cs, n))
  {
    hide HasSection, Sections, Meetings, AllConvertible;
    forall i | 0 <= i < |Meetings(cs, n)|
      ensures HasSection(Sections(cs, n, terms, clock), Meetings(cs, n)[i].key)
    {
      MeetingHasSection(cs, n, terms, clock, i);
    }
  }

  // A row reads field by field as a meeting of a class: times are both given or both 0, a term name stands for online.
  predicate ReadsAs(c: ApiClass, key: Key, m: ApiMeeting, row: MeetingRow) {
    && row.key == key
    && m.number != 0
    && (if m.startTime == NoClock || m.endTime == NoClock then row.startSeconds == 0 && row.endSeconds == 0
        else m.startTime == At(row.startSeconds) && m.endTime == At(row.endSeconds))
    && m.startDate == On(row.startDate) && m.endDate == On(row.endDate)
    && (if |c.instructors| == 0 then row.profCode == None
        else row.profCode == Some(ProfCode.CodeOf(c.instructors[0].firstName + " " + c.instructors[0].lastName)))
    && (if m.location.Some? && Terms.TermNameToId(m.location.value).Some? then row.location == Some("Online")
        else row.location == m.location)
    && row.days == if m.weekdays.None? then [] else Calendar.FlaggedCodes(m.weekdays.value, |m.weekdays.value|)
  }

  lemma RowReadsAs(c: ApiClass, key: Key, m: ApiMeeting, row: MeetingRow)
    ensures ReadsAs(c, key, m, row) <==> IsRead(m) && row == MeetingOf(c, key, m)
  {
    hide ProfCode.CodeOf, Calendar.FlaggedCodes, Terms.TermNameToId;
  }

  /** The meeting rows of a class are exactly its meetings with a number other than 0, readable or no times and
      readable dates, field by field. */
  lemma {:induction false} MeetingRowsRead(c: ApiClass, key: Key, n: nat, row: MeetingRow)
    requires n <= |c.meetings|
    ensures row in MeetingsOf(c, key, n) <==> exists i :: 0 <= i < n && ReadsAs(c, key, c.meetings[i], row)
  {
    hide MeetingOf, IsRead, ReadsAs;
    if n > 0 {
      MeetingRowsRead(c, key, n - 1, row);
      RowReadsAs(c, key, c.meetings[n - 1], row);
    }
  }

  lemma {:induction false} ProfsOfMeetings(c: ApiClass, key: Key, n: nat, i: nat)
    requires n <= |c.meetings| && i < |MeetingsOf(c, key, n)|
    ensures var code := MeetingsOf(c, key, n)[i].profCode;
            code.Some? ==> code.value in ProfsOf(c, n)
  {
    if i < |MeetingsOf(c, key, n - 1)| {
      ProfsOfMeetings(c, key, n - 1, i);
    }
  }

  /** The instructor of every imported meeting is imported too. */
  lemma {:induction false} MeetingsHaveProfs(cs: seq<ApiClass>, n: nat, i: nat)
    requires n <= |cs| && i < |Meetings(cs, n)|
    ensures var code := Meetings(cs, n)[i].profCode;
            code.Some? ==> code.value in Profs(cs, n)
  {
    hide Seen, Atoi, IsReal, MeetingsOf, ProfsOf;
    var earlier := Meetings(cs, n - 1);
    if i < |earlier| {
      MeetingsHaveProfs(cs, n - 1, i);
    } else {
      var c := cs[n - 1];
      ProfsOfMeetings(c, KeyOf(c).value, |c.meetings|, i - |earlier|);
    }
  }

  // ----- section numbers -----

  lemma ThreeDigits(n: nat)
    requires n <= 999
    ensures |Itoa(n)| <= 3
    ensures Padded(n) == [DigitChar(n / 100), DigitChar(n / 10 % 10), DigitChar(n % 10)]
  {
    if n >= 10 {
      assert Digits(n) == Digits(n / 10) + [DigitChar(n % 10)];
      if n >= 100 {
        assert Digits(n / 10) == Digits(n / 100) + [DigitChar(n / 10 % 10)];
      }
    }
  }

  /** A section is online exactly when its number has the form X8X, and its number can be read off its name. */
  lemma SectionNumberIsKept(n: nat)
    requires n <= 999
    ensures |Itoa(n)| <= 3
    ensures Padded(n)[1] == '8' <==> n / 10 % 10 == 8
    ensures AllDigits(Padded(n)) && Value(Padded(n)) == n
  {
    ThreeDigits(n);
    var s := Padded(n);
    assert s[..2] == [s[0], s[1]] && s[..2][..1] == [s[0]] && s[..1][..0] == "";
    assert Value(s[..1]) == n / 100;
    assert Value(s[..2]) == n / 10;
  }

  // ----- the conversion -----

  lemma {:induction false} NoMeetings(cs: seq<ApiClass>)
    ensures Meetings(cs, 0) == []
  {
  }

  lemma {:induction false} NothingConverted(cs: seq<ApiClass>, terms: set<int>, clock: nat -> int)
    requires AllConvertible(cs, terms)
    ensures Sections(cs, 0, terms, clock) == [] && Meetings(cs, 0) == [] && Profs(cs, 0) == map[]
    ensures forall key :: !Seen(cs, 0, key)
    ensures forall m: map<string, string> :: m + map[] == m
  {
  }

  lemma SeenStep(cs: seq<ApiClass>, i: nat)
    requires i < |cs|
    ensures forall key :: Seen(cs, i + 1, key) <==> Seen(cs, i, key) || KeyOf(cs[i]) == Some(key)
  {
    forall key
      ensures Seen(cs, i + 1, key) <==> Seen(cs, i, key) || KeyOf(cs[i]) == Some(key)
    {
    }
  }

  lemma ClassStep(cs: seq<ApiClass>, i: nat, terms: set<int>, clock: nat -> int)
    requires i < |cs| && AllConvertible(cs, terms)
    ensures var c := cs[i];
            if First(cs, i) then
              && Convertible(c, terms)
              && Sections(cs, i + 1, terms, clock) ==
                   Sections(cs, i, terms, clock) + (if IsReal(c) then [SectionOf(c, KeyOf(c).value, clock(i))] else [])
              && Meetings(cs, i + 1) ==
                   Meetings(cs, i) + (if IsReal(c) then MeetingsOf(c, KeyOf(c).value, |c.meetings|) else [])
              && Profs(cs, i + 1) == Profs(cs, i) + (if IsReal(c) then ProfsOf(c, |c.meetings|) else map[])
            else
              && Sections(cs, i + 1, terms, clock) == Sections(cs, i, terms, clock)
              && Meetings(cs, i + 1) == Meetings(cs, i)
              && Profs(cs, i + 1) == Profs(cs, i)
  {
    hide MeetingsOf, ProfsOf, SectionOf, Atoi, Seen, IsReal;
  }

  class Converted {
    var courses: seq<CourseRow>
    var prereqs: seq<PrereqRow>
    var antireqs: seq<AntireqRow>
    var sections: seq<SectionRow>
    var meetings: seq<MeetingRow>
    var profs: map<string, string>

    constructor ()
      ensures courses == [] && prereqs == [] && antireqs == [] && sections == [] && meetings == [] && profs == map[]
    {
      courses, prereqs, antireqs, sections, meetings, profs := [], [], [], [], [], map[];
    }

    /** convertAll: of several classes with one key, only the first is converted. The clock is read for
        each of them. */
    method ConvertAll(apiCourses: seq<ApiCourse>, apiClasses: seq<ApiClass>, terms: set<int>, clock: nat -> int)
      requires forall i :: 0 <= i < |apiCourses| ==> Readable(apiCourses[i])
      requires AllConvertible(apiClasses, terms)
      modifies this
      ensures courses == old(courses) + Courses(apiCourses, |apiCourses|)
      ensures prereqs == old(prereqs) + Prereqs(apiCourses, |apiCourses|)
      ensures antireqs == old(antireqs) + Antireqs(apiCourses, |apiCourses|)
      ensures sections == old(sections) + Sections(apiClasses, |apiClasses|, terms, clock)
      ensures meetings == old(meetings) + Meetings(apiClasses, |apiClasses|)
      ensures profs == old(profs) + Profs(apiClasses, |apiClasses|)
    {
      ConvertCourses(apiCourses);
      ConvertClasses(apiClasses, terms, clock);
    }

    method ConvertCourses(apiCourses: seq<ApiCourse>)
      requires forall i :: 0 <= i < |apiCourses| ==> Readable(apiCourses[i])
      modifies this`courses, this`prereqs, this`antireqs
      ensures courses == old(courses) + Courses(apiCourses, |apiCourses|)
      ensures prereqs == old(prereqs) + Prereqs(apiCourses, |apiCourses|)
      ensures antireqs == old(antireqs) + Antireqs(apiCourses, |apiCourses|)
    {
      hide CourseOf, PrereqsOf, AntireqsOf, Readable;
      for i := 0 to |apiCourses|
        invariant courses == old(courses) + Courses(apiCourses, i)
        invariant prereqs == old(prereqs) + Prereqs(apiCourses, i)
        invariant antireqs == old(antireqs) + Antireqs(apiCourses, i)
      {
        ConvertCourse(apiCourses[i]);
        assert Courses(apiCourses, i + 1) == Courses(apiCourses, i) + [CourseOf(apiCourses[i])];
      }
    }

    /** convertCourse */
    method ConvertCourse(apiCourse: ApiCourse)
      requires Readable(apiCourse)
      modifies this`courses, this`prereqs, this`antireqs
      ensures courses == old(courses) + [CourseOf(apiCourse)]
      ensures prereqs == old(prereqs) + PrereqsOf(apiCourse)
      ensures antireqs == old(antireqs) + AntireqsOf(apiCourse)
    {
      hide CourseCodes.Expanded, Requirements.Headers, Requirements.LastOf;
      var courseCode := Lower(apiCourse.subject + apiCourse.number);
      var description := if apiCourse.description == Some("") then None else apiCourse.description;
      var parsed := Parse(apiCourse);
      var prereqString, coreqString, antireqString := None, None, None;
      if parsed.prereqs != "" {
        var text, codes := CourseCodes.ExpandCourseCodes(parsed.prereqs);
        prereqString := Some(text);
        prereqs := prereqs + PrereqRows(courseCode, codes, false);
      }
      if parsed.coreqs != "" {
        var text, codes := CourseCodes.ExpandCourseCodes(parsed.coreqs);
        coreqString := Some(text);
        prereqs := prereqs + PrereqRows(courseCode, codes, true);
      }
      if parsed.antireqs != "" {
        var text, codes := CourseCodes.ExpandCourseCodes(parsed.antireqs);
        antireqString := Some(text);
        antireqs := antireqs + seq(|codes|, i requires 0 <= i < |codes| => AntireqRow(courseCode, codes[i]));
      }
      courses := courses + [
        CourseRow(courseCode, apiCourse.name, description, prereqString, coreqString, antireqString)];
    }

    static method Parse(apiCourse: ApiCourse) returns (r: Requirements.Parsed)
      requires Readable(apiCourse)
      ensures r == Requirements.Parsed(
                RequirementOf(apiCourse, Requirements.Prereq),
                RequirementOf(apiCourse, Requirements.Coreq),
                RequirementOf(apiCourse, Requirements.Antireq))
    {
      hide Requirements.TwoHeadersInOneWord, Requirements.IsHeader;
      r := Requirements.ParseCourseRequirements(apiCourse.requirements);
    }

    method ConvertClasses(apiClasses: seq<ApiClass>, terms: set<int>, clock: nat -> int)
      requires AllConvertible(apiClasses, terms)
      modifies this`sections, this`meetings, this`profs
      ensures sections == old(sections) + Sections(apiClasses, |apiClasses|, terms, clock)
      ensures meetings == old(meetings) + Meetings(apiClasses, |apiClasses|)
      ensures profs == old(profs) + Profs(apiClasses, |apiClasses|)
    {
      hide Atoi, SectionOf, MeetingsOf, ProfsOf, Convertible, IsReal, Sections, Meetings, Profs, Seen;
      NothingConverted(apiClasses, terms, clock);
      var seenSections: set<Key> := {};
      for i := 0 to |apiClasses|
        invariant forall key :: key in seenSections <==> Seen(apiClasses, i, key)
        invariant sections == old(sections) + Sections(apiClasses, i, terms, clock)
        invariant meetings == old(meetings) + Meetings(apiClasses, i)
        invariant profs == old(profs) + Profs(apiClasses, i)
      {
        var c := apiClasses[i];
        SeenStep(apiClasses, i);
        ClassStep(apiClasses, i, terms, clock);
        if c.termCode.None? {
          continue;
        }
        var termId := Atoi(c.termCode.value);
        if termId.None? {
          continue;
        }
        var key := Key(c.classNumber, termId.value);
        assert KeyOf(c) == Some(key);
        if key in seenSections {
          continue;
        }
        seenSections := seenSections + {key};
        assert First(apiClasses, i);
        MapAssociates(old(profs), Profs(apiClasses, i), if IsReal(c) then ProfsOf(c, |c.meetings|) else map[]);
        ConvertSection(c, key, terms, clock(i));
      }
    }

    static lemma MapAssociates<K, V>(a: map<K, V>, b: map<K, V>, c: map<K, V>)
      ensures (a + b) + c == a + (b + c)
    {
    }

    /** convertSection */
    method ConvertSection(c: ApiClass, key: Key, ghost terms: set<int>, now: int)
      requires Convertible(c, terms) && KeyOf(c) == Some(key)
      modifies this`sections, this`meetings, this`profs
      ensures sections == old(sections) + if IsReal(c) then [SectionOf(c, key, now)] else []
      ensures meetings == old(meetings) + if IsReal(c) then MeetingsOf(c, key, |c.meetings|) else []
      ensures profs == old(profs) + if IsReal(c) then ProfsOf(c, |c.meetings|) else map[]
    {
      hide Atoi, MeetingOf, IsRead, ProfCode.CodeOf, NameOf;
      if c.capacity >= 9999 {
        return;
      }
      if c.component.None? {
        return;
      }
      var sectionNumber := Itoa(c.sectionNumber);
      sectionNumber := seq(3 - |sectionNumber|, i => '0') + sectionNumber;
      var sectionName := c.component.value + " " + sectionNumber;
      sections := sections + [
        SectionRow(key, c.courseCode, sectionName, c.capacity, c.enrolled, now, sectionNumber[1] == '8')];
      ConvertMeetings(c, key);
    }

    method ConvertMeetings(c: ApiClass, key: Key)
      requires forall m :: m in c.meetings && IsRead(m) && m.weekdays.Some? ==> SevenDays(m.weekdays.value)
      modifies this`meetings, this`profs
      ensures meetings == old(meetings) + MeetingsOf(c, key, |c.meetings|)
      ensures profs == old(profs) + ProfsOf(c, |c.meetings|)
    {
      hide MeetingOf, IsRead, SevenDays, ProfCode.CodeOf, NameOf;
      for i := 0 to |c.meetings|
        invariant meetings == old(meetings) + MeetingsOf(c, key, i)
        invariant profs == old(profs) + ProfsOf(c, i)
      {
        ConvertMeeting(c, key, c.meetings[i]);
      }
    }

    /** convertMeeting; it appends nothing when the meeting is skipped or fails to convert. */
    method ConvertMeeting(c: ApiClass, key: Key, m: ApiMeeting)
      requires IsRead(m) && m.weekdays.Some? ==> SevenDays(m.weekdays.value)
      modifies this`meetings, this`profs
      ensures meetings == old(meetings) + if IsRead(m) then [MeetingOf(c, key, m)] else []
      ensures profs == if IsRead(m) && |c.instructors| > 0
                       then old(profs)[ProfCode.CodeOf(NameOf(c.instructors[0])) := NameOf(c.instructors[0])]
                       else old(profs)
    {
      hide ProfCode.CodeOf, Calendar.FlaggedCodes, Terms.TermNameToId;
      if m.number == 0 {
        return;
      }
      var startSeconds, endSeconds := 0, 0;
      if !(m.startTime.NoClock? || m.endTime.NoClock?) {
        if m.startTime.BadClock? || m.endTime.BadClock? {
          return;
        }
        startSeconds, endSeconds := m.startTime.seconds, m.endTime.seconds;
      }
      if !m.startDate.On? || !m.endDate.On? {
        return;
      }
      var days := [];
      if m.weekdays.Some? {
        days := Calendar.ParseWeekdayString(m.weekdays.value);
      }
      var profCode := None;
      if |c.instructors| > 0 {
        var name := NameOf(c.instructors[0]);
        var code := ProfCode.ProfNameToCode(name);
        profs := profs[code := name];
        profCode := Some(code);
      }
      var location := m.location;
      if location.Some? && Terms.TermNameToId(location.value).Some? {
        location := Some("Online");
      }
      meetings := meetings + [
        MeetingRow(key, profCode, location, startSeconds, endSeconds, m.startDate.day, m.endDate.day, days)];
    }
  }
}
