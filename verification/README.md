# UW Flow: a model of its core in Dafny

UW Flow imports the university's courses into Postgres, reads students' pasted transcripts and schedules,
mails students when sections free up, and exports calendars. These modules model the parts of its Go and SQL
code that carry the logic, and prove what they keep, undo and guarantee. `dafny verify dfyconfig.toml`
checks all of it.

- `CourseCodes` and `Requirements`: the rewriting of requisite texts. `CourseCodes` proves the two-pointer merge
  and the stateful rewrite against one edit per number word, and from that form idempotence, which texts are listed
  and written for each number word, and that text outside the edits is kept.
- `Fetch`, `Convert`, `Upsert`, `Meetings`, `Importer`: the course importer from the API's answers to the live
  tables. `Importer.Store` holds the tables and runs the transactions; `ImportAll` states how far an import gets,
  what it leaves, and, with `Importer.ImportAgain`, that repeating it at any later time inserts nothing and changes
  nothing but the times of the sections. `ImportNotices` ties the section update to the trigger that it fires.
- `PasswordReset`, `SubscribedQueue`, `VacatedQueue`, `Mailer`: the queues as state machines. A state, an event
  and a step are datatypes and functions; the theorems are about every run; the classes run the handlers in
  place and are proved to take exactly these steps.
- `Schedule`, `Transcript`, `SaveParsed`: the paste parsers and the transactions that replace a user's rows.
- `Terms`, `Calendar`, `CalendarUids`, `NumberRange`, `ProfCode`: term arithmetic over the Gregorian calendar,
  weekday patterns expanded into dated events (RFC 5545) and their identifiers, and two string scanners.
- `Bytes`, `Decimal`, `Collections`: byte classes, trimming, joining, numerals and facts about sequences and maps
  that several of them share.

A string is a sequence of bytes. Times, keys, hashes, clock readings and the outcome of each send are inputs of
the steps.

Where the code departs from its comments, the model follows the code; a lemma shows an input, and a theorem the
exact condition:

- "Output is at least as long as the input" (convert.go:50) is false: whatever stands between the subjects of a run
  and their number is cut, be it a single space as in "MATH 135" (`CourseCodes.OutputCanBeShorter`), and so is a
  number before any subject. `CourseCodes.OutputLength` gives the length from the words and the exact condition.
- "It's easier to truncate requisite tables every time" (insert.go:154-155) holds for antirequisites only; the
  delete for prerequisites runs on a staging table that was just emptied. `Importer.PrereqsOnlyGrow` and
  `Importer.PrereqsReplacedExactly` say what happens instead, `Importer.DroppedPrereqStays` gives the inputs.
- "Conveniently, each previous term is the term that was current 4 * numTerms months ago" (term.go:18-19) has the
  exceptions of `Terms.PreviousTermIdExact` and `Terms.NextTermIdExact`; `Terms.ShortcutFails` gives two dates.
- "(groupid, timestamp) is globally unique" (calendar.go:33-34) fails for a section with two meetings at one time
  (`CalendarUids.TwoRoomsShareUid`); `CalendarUids.UidRepeats` says exactly when. An end later than the start
  (calendar.go:85) fails for meetings without times, which the importer stores as 0 and 0
  (`Calendar.UntimedMeetingEndsAtStart`); `Calendar.EndAfterStart` says exactly when it holds.
- The courses of an import are told apart by their codes as written and then stored in lower case; two codes that
  differ in case only make every import fail at the first insert: `Importer.RepeatsAreCaseClashes`, and
  `Fetch.CaseClashExample` for the codes CS 135 and cs 135.
- The CHECK named for the length of a course description (up.sql:10-11) measures the name; descriptions of any
  length are stored. `Importer.FitsCourse` follows the table.

## Model

| member | source | states |
|---|---|---|
| CourseCodes.FindAllExact | flow/importer/uw/parts/course/convert.go:53-54 | the word scanner finds exactly the matches of each of the two expressions, in position order, and two matches are at least one byte apart |
| CourseCodes.Shapes | flow/importer/uw/parts/course/convert.go:17-20 | CS and no lone letter or mixed case is a subject word; 135, 241E and 200AB and no 13, 1350 or 135e are number words |
| CourseCodes.Borders | flow/importer/uw/parts/course/convert.go:17-20 | a dash stands between a subject and a number; an underscore makes one word of them, which matches neither expression |
| CourseCodes.MergeMatches | flow/importer/uw/parts/course/convert.go:56-81 | the two-pointer loop terminates on every text and yields the word sequence cut after its last number, or nothing when one of the lists is empty |
| CourseCodes.MergedIs | flow/importer/uw/parts/course/convert.go:56-81 | the merged list is strictly sorted and ends in a number; it holds every number and exactly the subjects before the last number |
| CourseCodes.ExpandCourseCodes | flow/importer/uw/parts/course/convert.go:83-115 | the rewriting loop produces the input with one edit per number spliced in, and the codes of the edits |
| CourseCodes.WriteCodes | flow/importer/uw/parts/course/convert.go:101-109 | the codes of one number are written slash-separated and listed in lower case, subject by subject |
| CourseCodes.NearestRun | flow/importer/uw/parts/course/convert.go:85-110 | the subjects given to a number are exactly the nearest run of subjects before it, carried over when numbers follow numbers |
| CourseCodes.CodeListIsOfWords | flow/importer/uw/parts/course/convert.go:101-109 | the code list is that of the words in their order, whether or not the merge dropped words; which codes these are is ListedCodes |
| CourseCodes.ListedCodes | flow/importer/uw/parts/course/convert.go:85-109 | in order over the number words, and within one over the subject words of its nearest run, the next listed code is the lower-case form of the subject's text followed by the number's text, both read off the input; the list holds no further code |
| CourseCodes.WrittenText | flow/importer/uw/parts/course/convert.go:85-113 | for every number word the output falls into what precedes, the texts subject followed by number for each subject of its run, in order and joined by single slashes, and what follows |
| CourseCodes.PhilPsych256 | flow/importer/uw/parts/course/convert.go:33-47 | PHIL/PSYCH 256 becomes PHIL256/PSYCH256 and lists phil256 and psych256 |
| CourseCodes.KeptText | flow/importer/uw/parts/course/convert.go:85-113 | putting the cut text back in place of the written codes gives the input byte for byte: nothing outside the cuts is lost, duplicated or moved |
| CourseCodes.EditsCutNumbers | flow/importer/uw/parts/course/convert.go:88-112 | each cut is one number together with at most the run of subjects directly before it |
| CourseCodes.EditsWriteCodes | flow/importer/uw/parts/course/convert.go:101-109 | whatever is written begins with a subject and consists of word characters, so it never reads as a number |
| CourseCodes.ExpandedIsNumberFree | flow/importer/uw/parts/course/convert.go:83-115 | when a text has a subject and a number, no bare number word survives in its expansion |
| CourseCodes.OutputLength | flow/importer/uw/parts/course/convert.go:50-113 | the length of the output from the words alone: the input's length, plus per number the run's widths, the number once per subject and the slashes, minus the stretch from the run (or the number) to the number's end; it is at least the input's exactly when as much is written as is cut |
| CourseCodes.OutputCanBeShorter | flow/importer/uw/parts/course/convert.go:50-51 | the output of MATH 135 is one byte shorter than the input, without a deleted number and with one subject |
| CourseCodes.ExpandIsIdempotent | flow/importer/uw/parts/course/convert.go:48-116 | expanding an expanded text returns it unchanged with an empty code list, for every string |
| Requirements.ParseCourseRequirements | flow/importer/uw/parts/course/convert.go:119-181 | on every text it panics exactly when two keyword-bearing colons share a space-delimited word; otherwise each result is the text of the last header of its kind |
| Requirements.WordBack | flow/importer/uw/parts/course/convert.go:137-148 | the backward walk stops at the nearest space or the start and collects the word up to the colon |
| Requirements.FindHeaders | flow/importer/uw/parts/course/convert.go:133-158 | the first loop finds exactly the colons whose word names a requirement, with the space before each |
| Requirements.HeadersAre | flow/importer/uw/parts/course/convert.go:133-158 | each colon that ends a space-delimited word holding prereq, coreq or antireq in any letter case is a header, which starts at the space before that word |
| Requirements.HeaderHasWord | flow/importer/uw/parts/course/convert.go:133-158 | and nothing else is a header |
| Requirements.ReadSegments | flow/importer/uw/parts/course/convert.go:160-178 | the second loop's slices stay in bounds or panic as stated, and later headers of a kind win |
| Requirements.InBoundsExactly | flow/importer/uw/parts/course/convert.go:161-170 | all slices are in bounds if and only if no two headers lie in one word |
| Requirements.SegmentsAreDisjoint | flow/importer/uw/parts/course/convert.go:160-170 | the extracted segments are disjoint and in text order |
| Requirements.TextOfHeader | flow/importer/uw/parts/course/convert.go:160-178 | the text of a header is the stretch of the input from after its colon to the next header or the end, less exactly the white space at both ends |
| Bytes.TrimIs | flow/importer/uw/parts/course/convert.go:170 | trimming takes white space off both ends, all of it and nothing else |
| Bytes.WhiteSpaceIs | flow/importer/uw/parts/course/convert.go:170 | the one-byte white space is exactly tab, line feed, vertical tab, form feed, carriage return and space; wider white space is counted by its bytes |
| Bytes.ContainsIs | flow/importer/uw/parts/course/convert.go:150-177 | a word contains another exactly when it can be cut into three with that one in the middle |
| Requirements.LastOfIs | flow/importer/uw/parts/course/convert.go:171-177 | a result is the segment of the header of its kind that no later header of that kind follows |
| Requirements.LastOfNone | flow/importer/uw/parts/course/convert.go:171-177 | a result is empty when no header has its kind |
| Requirements.KindFromWord | flow/importer/uw/parts/course/convert.go:150-177 | the kind found in the segment text agrees with the kind of the header's word: prereq over coreq over antireq |
| Convert.PrereqsAre | flow/importer/uw/parts/course/convert.go:231-312 | a prerequisite or corequisite row exists exactly when some course has its code and the expansion of that course's last text of that kind lists the other code |
| Convert.AntireqsAre | flow/importer/uw/parts/course/convert.go:231-312 | and an antirequisite row exactly when the expansion of the course's last antirequisite text lists the other code |
| Convert.CourseRowReads | flow/importer/uw/parts/course/convert.go:231-312 | a course row reads field by field: the lower-case subject and number, the name, the description unless empty, and in each requisite column the expansion of the last text of that kind, or none |
| Convert.SectionsAre | flow/importer/uw/parts/course/convert.go:196-226 | a section row exists exactly for the first class of each key, unless that class is a dummy or has no component; a later class with the key never replaces it |
| Convert.SectionRowsRead | flow/importer/uw/parts/course/convert.go:314-348 | a section row reads field by field as the first class of its key: number and term, course code, component and padded section number, capacity, enrolment, online flag and time |
| Convert.RealClassHasRow | flow/importer/uw/parts/course/convert.go:196-226 | the first class of each key has a row unless its capacity is 9999 or more or its component is missing |
| Convert.FirstTestSection | flow/importer/uw/parts/course/convert_test.go:169-219 | the class of the first section test gives the row LEC 054 with capacity 1070 and total 30 |
| Convert.SectionsAtAnyTime | flow/importer/uw/parts/course/convert.go:333-348 | two conversions of the same classes under two clocks differ in the times of the section rows only |
| Convert.SectionKeysAreDistinct | flow/importer/uw/parts/course/convert.go:193-217 | the section keys (class number, term) of a batch are pairwise distinct, whatever the API returns |
| Convert.MeetingsHaveSections | flow/importer/uw/parts/course/convert.go:350-355 | every meeting row carries the key of a section row of the same batch |
| Convert.MeetingRowsRead | flow/importer/uw/parts/course/convert.go:360-457 | the meeting rows of a class are exactly those that read field by field as one of its meetings: a number other than 0, both times or 0 and 0, both dates, the professor of the first instructor, the location or Online for a term name, and the weekday codes |
| Convert.MeetingsHaveProfs | flow/importer/uw/parts/course/convert.go:427-443 | the professor code of every meeting row is a key of the professor map of the batch |
| Convert.ProfsAreNamed | flow/importer/uw/parts/course/convert.go:427-443 | every professor of the batch is the first instructor of a class: first and last name with a space, under the code of that name |
| Convert.SectionNumberIsKept | flow/importer/uw/parts/course/convert.go:330-347 | the padded section number reads back as the number, and its middle digit is 8 exactly when the tens digit is: the online flag |
| Convert.Converted.ConvertAll | flow/importer/uw/parts/course/convert.go:183-229 | appends exactly the rows of all courses and of the first class of each key, in order |
| Convert.Converted.ConvertCourse | flow/importer/uw/parts/course/convert.go:231-312 | appends the course row with its three expanded texts, the prereq rows before the coreq rows, and the antireq rows |
| Convert.Converted.ConvertSection | flow/importer/uw/parts/course/convert.go:314-358 | appends the section and its meetings unless the capacity is 9999 or more or the component is missing |
| Convert.Converted.ConvertMeeting | flow/importer/uw/parts/course/convert.go:360-457 | appends one meeting, or nothing for meeting number 0, a bad time or a missing or bad date; an empty time makes both 0; a term name becomes the location Online |
| Fetch.Deduplicate | flow/importer/uw/parts/course/fetch.go:98-118 | keeps exactly the first occurrence of each key (the same loop serves the course ids of lines 38-48) |
| Fetch.FirstsAre | flow/importer/uw/parts/course/fetch.go:98-118 | first occurrences have distinct keys and miss no key |
| Fetch.FetchCourses | flow/importer/uw/parts/course/fetch.go:98-118 | fails exactly when a term's request fails; otherwise returns the first course of each code over all terms |
| Fetch.AllTermsAre | flow/importer/uw/parts/course/fetch.go:98-118 | the courses are the answers of the terms one after another, and a single missing answer fails them all |
| Fetch.FetchClasses | flow/importer/uw/parts/course/fetch.go:38-80 | returns the classes of each course id and term, labelled by the code of the last course of their offer, or by the code of the course asked for |
| Fetch.LabelIs | flow/importer/uw/parts/course/fetch.go:38-76 | a class keeps all its fields but the code, which is the lower-case subject and number of the last course of its offer, or of the course asked for when none has the offer |
| Fetch.ClassIsFetched | flow/importer/uw/parts/course/fetch.go:50-80 | each class that the API lists for a course and a term asked for is among the fetched ones, with its label |
| Fetch.CodeOfOfferIs | flow/importer/uw/parts/course/fetch.go:38-48 | a class finds a code exactly when its offer was fetched, and that code belongs to a fetched course |
| Fetch.ClassCodesAreKnown | flow/importer/uw/parts/course/fetch.go:50-80 | every fetched class carries the code of a fetched course |
| Fetch.NoSectionTwice | flow/importer/uw/parts/course/fetch.go:32-37 | over distinct terms, and when the API lists each section under one course id, no section is fetched twice |
| Fetch.CaseClashExample | flow/importer/uw/parts/course/fetch.go:108-114 | CS 135 and cs 135 are fetched as two courses with one lower-case code |
| Fetch.FetchedCodesClash | flow/importer/uw/parts/course/fetch.go:98-118 | two fetched courses share a lower-case code exactly when their codes differ in letter case only |
| Upsert.MergedIs | flow/importer/uw/parts/course/insert.go:13-32 | update then anti-join insert is an override by key: staged keys read the staged data unless locked, all others read as before, live rows keep their ids |
| Upsert.MergedIdsAreUnique | flow/importer/uw/parts/course/insert.go:227-255 | serial ids stay unique and below the next id |
| Upsert.MergedGrows | flow/importer/uw/parts/course/insert.go:241-255 | the table grows by exactly the reported number of inserted rows |
| Upsert.HitsAreCounted | flow/importer/uw/parts/course/insert.go:227-239 | with distinct keys, the rows affected by the update are as many as the staged rows with a live, unlocked key |
| Upsert.CountsAddUp | flow/importer/uw/parts/course/insert.go:82-84 | each staged row is exactly one of inserted, updated and held back |
| Upsert.FixedWhenHeld | flow/importer/uw/parts/course/insert.go:227-255 | a merge changes nothing if and only if the live rows already read as the batch does |
| Upsert.MergeIsIdempotent | flow/importer/uw/parts/course/insert.go:227-255 | merging the same batch again inserts nothing and changes nothing |
| Upsert.Apply | flow/importer/uw/parts/course/insert.go:272-293 | the two statements succeed exactly when no two staged rows share a key that is not live, and then give the merged table and both counts |
| Meetings.Delete | flow/importer/uw/parts/course/insert.go:310-320 | removes exactly the rows of the staged sections, keeping the others in order |
| Meetings.Insert | flow/importer/uw/parts/course/insert.go:322-344 | inserts one row for each staged meeting with a live section; a remapped professor code wins over the professor of that code |
| Meetings.InsertedRows | flow/importer/uw/parts/course/insert.go:322-344 | a row is inserted exactly for each staged meeting whose section is live, under that section's id, with every field of the meeting and the remapped professor if any, else the professor of the code, else none |
| Meetings.StagedAreDescribed | flow/importer/uw/parts/course/insert.go:322-344 | the meetings staged for a section are those of the batch with its key, in order, field by field |
| Meetings.MeetingsAreReplaced | flow/importer/uw/parts/course/insert.go:310-388 | a staged section ends up with exactly its staged meetings, as a sequence and hence as a multiset; every other section keeps its meetings |
| Meetings.StagedAreOfFirstClass | flow/importer/uw/parts/course/convert.go:196-226 | the meetings staged for a key are exactly the meetings read of the first class with that key, in order; none when that class is a dummy |
| Meetings.ReplacedTwice | flow/importer/uw/parts/course/insert.go:310-388 | a second identical import changes nothing if and only if every joined meeting belongs to a staged section |
| Meetings.ConvertedIsCovered | flow/importer/uw/parts/course/insert.go:308-320 | batches in which every meeting has a section of the batch meet that condition |
| Importer.StagedCoursesDistinct | flow/importer/uw/parts/course/insert.go:48-65 | the unique constraint of the staging table is met exactly when no two courses share a non-empty code |
| Importer.StagedSectionsDistinct | flow/importer/uw/parts/course/insert.go:241-255 | distinct section keys stay distinct after the join on courses |
| Importer.PrereqsOnlyGrow | flow/importer/uw/parts/course/insert.go:88-105 | the prerequisite table only grows: old pairs and their flags stay, missing pairs are added with the flag of their first row |
| Importer.PrereqsReplacedExactly | flow/importer/uw/parts/course/insert.go:88-105 | the prerequisite import acts as a replacement if and only if the batch names every old pair again with its old flag |
| Importer.DroppedPrereqStays | flow/importer/uw/parts/course/insert.go:88-105 | a prerequisite that a batch no longer names stays, and a changed flag is not taken over: two concrete batches |
| Importer.PrereqsAre | flow/importer/uw/parts/course/insert.go:88-105 | after the insert a pair is in the prerequisite table exactly when it was there or some row of the batch names two stored courses with these ids, the requiring course first |
| Importer.AntireqsAre | flow/importer/uw/parts/course/insert.go:158-173 | a pair is among the antirequisites inserted exactly when some row of the batch names two stored courses with these ids, the row's own course first |
| Importer.AntireqIsStored | flow/importer/uw/parts/course/insert.go:166-173 | the row cs136, cs146 stores the pair of the id of cs136 and the id of cs146, and no other |
| Importer.RequisitesAreImported | flow/importer/uw/parts/course/insert.go:88-221 | after a whole import the antirequisites are exactly those that the batch names, and the prerequisites those stored before and those that the batch names, by the ids that the courses then have |
| Importer.Limits | hasura/migrations/default/1559740220527_init/up.sql:3-20 | the longest texts that fit: 16 characters of code, 256 of name and of professor name, 1024 of each requisite text, any description; and the border of a 32-bit column |
| Importer.Checks | hasura/migrations/default/1559740220527_init/up.sql:765-773 | an empty or authoritative course is not checked; a section fits exactly when its four numbers fit into 32 bits |
| Bytes.CharCountIs | hasura/migrations/default/1559740220527_init/up.sql:3-20 | lengths count characters: an ASCII byte is one, a letter of two bytes is one |
| Importer.MergedFits | hasura/migrations/default/1559740220527_init/up.sql:3-20 | the length CHECKs of the course table keep holding of its live rows |
| Importer.CourseIsImported | flow/importer/uw/parts/course/insert.go:13-32 | after an import a course of the batch has its row's name, description and three requisite texts, unless it was authoritative, in which case it is untouched; its id never changes |
| Importer.OtherCoursesAreKept | flow/importer/uw/parts/course/insert.go:13-32 | a course that the batch does not name is unchanged, and no course is lost |
| Importer.SectionIsImported | flow/importer/uw/parts/course/insert.go:227-255 | after an import a section of a known course has its row's name, capacity, total, time and online flag and the id of its course; its own id never changes |
| Importer.OtherSectionsAreKept | flow/importer/uw/parts/course/insert.go:227-255 | a section that the batch does not name is unchanged, and no section is lost |
| Importer.MeetingsAreImported | flow/importer/uw/parts/course/insert.go:310-388 | after a whole import each live section of the batch holds exactly its meetings of the batch, every other section those it had |
| Importer.ProfsAreFound | flow/importer/uw/parts/course/insert.go:337-344 | after an import the professor of a meeting is missing only without an instructor, or with a name without letters |
| Importer.ConvertedIsImportable | flow/importer/uw/parts/course/import.go:40-43 | batches made by convertAll are accepted by every insert except for repeated course codes |
| Importer.RepeatsAreCaseClashes | flow/importer/uw/parts/course/import.go:35-49 | fetched courses break the staging constraint exactly when two codes differ in letter case only |
| Importer.FetchedSectionsHaveCourses | flow/importer/uw/parts/course/import.go:35-43 | when no course code is empty, every fetched section names a fetched course |
| Importer.NothingIsRejected | flow/importer/uw/parts/course/insert.go:298-306 | in such an import every section and every meeting of the batch is live |
| Importer.ImportReaches | flow/importer/uw/parts/course/import.go:45-83 | after an import the tables read as the batch does, but for the times of the sections |
| Importer.ImportRepeats | flow/importer/uw/parts/course/import.go:45-83 | an import of a batch that the tables already read, whatever its times, inserts nothing and changes nothing but the times of the staged sections |
| Importer.ImportedAtAnyTime | flow/importer/uw/parts/course/convert.go:333-348 | whether the tables read as a batch does not depend on the time at which it was made |
| Importer.SameAnswersSameBatch | flow/importer/uw/parts/course/import.go:35-43 | the same API answers at two times make batches that differ in the section times only |
| Importer.ImportAgain | flow/importer/uw/parts/course/import.go:13-85 | two imports of the same answers, at any two times, in a row: the second completes, adds no course and no section, and leaves every table as it is but for the times of the staged sections |
| Importer.Store.InsertAllCourses | flow/importer/uw/parts/course/insert.go:34-86 | rolled back exactly on a repeated code or a text too long for its column in a row that would be written; otherwise the merged table, with Untouched exactly the staged rows of authoritative courses and Rejected the empty codes |
| Importer.Store.InsertAllPrereqs | flow/importer/uw/parts/course/insert.go:107-154 | the insert with ON CONFLICT DO NOTHING on top of the whole old table |
| Importer.Store.InsertAllAntireqs | flow/importer/uw/parts/course/insert.go:176-221 | whatever the table held, it then holds a pair exactly when some row of the batch names two stored courses with these ids, the row's own course first |
| Importer.Store.InsertAllProfs | flow/importer/uw/parts/course/insert.go:390-448 | rolled back exactly when a new name is longer than 256 characters; otherwise adds exactly the unknown non-empty codes, updates nobody, and counts inserted, untouched and rejected |
| Importer.Store.InsertAllSections | flow/importer/uw/parts/course/insert.go:257-306 | rolled back exactly when a number does not fit its integer column or two staged sections of known courses share a new key; the three counts add up to the batch, and with distinct keys Rejected is exactly the sections of unknown courses |
| Importer.Store.InsertAllMeetings | flow/importer/uw/parts/course/insert.go:346-388 | replaces the meetings of the sections staged by the last section import, with the counts |
| Importer.Store.InsertAll | flow/importer/uw/parts/course/import.go:45-83 | each insert commits on its own: it stops at the first that fails, with the exact condition of each stage, and leaves exactly what the stages before it committed |
| Importer.Store.ImportAll | flow/importer/uw/parts/course/import.go:13-85 | the stage reached is a function of the answers and the tables: no change when a course request fails, two fetched codes differ in letter case only or a course does not fit; the earlier stages' changes when a new name or a section's number does not fit; otherwise the tables read as the batch, an import of what they already read inserts nothing and changes section times only, and nothing is rejected when no code is empty |
| ImportNotices.UpdatesAreOneStatement | hasura/migrations/default/1559740220527_init/up.sql:723-726 | the section update changes each section at most once and keeps its id, so it is one firing of the trigger |
| ImportNotices.ImportNotifies | hasura/migrations/default/1559740220527_init/up.sql:695-726 | an import queues a notice for a user and course exactly when it takes a section of the course, to which the user subscribes, from full to not full |
| ImportNotices.NoticesNameSections | hasura/migrations/default/1559740220527_init/up.sql:700-717 | such a notice names a section exactly when the import took a section of that name and course from full to not full |
| ImportNotices.UnloweredTotalsAreSilent | hasura/migrations/default/1559740220527_init/up.sql:704-705 | an import that lowers no total queues no notice, whatever it does to the capacities |
| ImportNotices.RepeatedImportIsSilent | hasura/migrations/default/1559740220527_init/up.sql:695-726 | an import of a batch that the tables already read, at whatever time it is made, queues no notice |
| Terms.TermOfMonth | flow/common/util/term.go:30-40 | a date's term is the third of its year that holds its month |
| Terms.TermIdMonotone | flow/common/util/term.go:30-40 | a later date is never in an earlier term |
| Terms.AddMonthsIndex | flow/common/util/term.go:17-27 | AddDate lands in the month intended, or in the next one exactly when the day does not exist there |
| Terms.CalendarPieces | flow/common/util/term.go:16-27 | the leap years, the length of February, and the day that a date keeps or overflows to when months are added |
| Terms.SuccessorAndPredecessor | flow/common/util/term.go:16-27 | next and previous term are inverse and move the term index by one |
| Terms.PreviousTermIdExact | flow/common/util/term.go:16-21 | for every date and n, the n-fold predecessor of the current term, except exactly on a day 31 with April 4n months back, where it is one term later |
| Terms.NextTermIdExact | flow/common/util/term.go:23-27 | the successor of the current term on every date but 31 December, where it skips a term |
| Terms.ImportWindowExact | flow/importer/uw/parts/course/import.go:17-21 | the window is four consecutive distinct terms exactly on the dates other than 31 August and 31 December |
| Terms.ShortcutFails | flow/common/util/term.go:16-27 | on 31 August 2024 the previous term reads as the current one, and on 31 December 2024 the next term is skipped |
| Terms.YearOfTermExact | flow/common/util/term.go:42-45 | the year of a term id is right if and only if the year is at least 1900 |
| Terms.TermNameRoundTrip | flow/common/util/term.go:47-91 | a date's term written as season and year reads back as its id |
| Terms.TermNameIs | flow/common/util/term.go:47-65 | of two words without a space, the name of a term is exactly a season Fall, Spring or Winter with a numeral for the year, and which id each gives |
| Terms.OnlyTermNames | flow/common/util/term.go:84-91 | a name with a term has exactly one space |
| Terms.TestedTerms | flow/common/util/test/term_test.go:10-22 | the dates of the test and their terms |
| Terms.YearMonthExact | flow/common/util/term.go:67-82 | year and month joined by an underscore give the id of that term exactly for the years 2000 to 2099 |
| PasswordReset.NextKeeps | flow/api/auth/reset.go:19-148 | every step keeps: each reset row holds the latest key issued to its user, unused, with its expiry an hour after the issue |
| PasswordReset.RunKeeps | flow/api/auth/reset.go:19-148 | and so does every run |
| PasswordReset.ChangesAreAuthorised | flow/api/auth/reset.go:114-148 | in every run a change for a user uses the latest key issued to that user, within its hour, with no change for the user since that issue |
| PasswordReset.OneChangePerIssue | flow/api/auth/reset.go:106-148 | two changes for a user have an issue for that user between them |
| PasswordReset.AccountAfter | flow/api/auth/reset.go:102-148 | what each event does to each account: only a registration, a deletion and a reset that gets through touch one, and the reset sets its hash and keeps its email |
| PasswordReset.HashIsOfLastReset | flow/api/auth/reset.go:102-148 | in every run an account's hash is that of the last reset that got through for its user since registration, or else the registered one |
| PasswordReset.MailsCarryLatestKey | flow/email/process/scan.go:13-38 | a reset mail carries the latest key issued to its reader, not yet used |
| PasswordReset.NextKeepsSeen | flow/email/process/process.go:13-36 | every step keeps: the current key of a seen row was mailed to its user since the latest issue |
| PasswordReset.SeenKeysAreMailed | flow/email/process/process.go:13-36 | and so does every run, whatever sends, marks or commits fail |
| PasswordReset.NothingIsLeft | flow/email/process/scan.go:13-38 | when every waiting user has an address and every send and mark succeeds, one service mails every unseen key and leaves no unseen row |
| PasswordReset.UnreadableStops | flow/email/process/scan.go:13-38 | one waiting user without an address stops the whole service: nothing is sent or marked |
| PasswordReset.VerifyAgreesExactly | flow/api/auth/reset.go:71-128 | verification and reset accept the same keys at the same time if and only if no two rows with the key differ in being expired |
| PasswordReset.DistinctKeysAgree | flow/api/auth/reset.go:71-128 | with distinct keys they always agree |
| PasswordReset.UsedKeyIsGone | flow/api/auth/reset.go:106-144 | a used key is in no row afterwards |
| PasswordReset.Server.HandleSendEmail | flow/api/auth/reset.go:29-69 | issues the key with an hour's expiry to the account of the address and makes the row unseen again, or refuses |
| PasswordReset.Server.HandleVerifyKey | flow/api/auth/reset.go:79-100 | accepts exactly a key that some row holds unexpired |
| PasswordReset.Server.HandleResetPassword | flow/api/auth/reset.go:114-174 | when the reply is Done the account of the row has the new hash and its old email, every other account is as before and no row holds the key; otherwise nothing changes, with the reply of each refusal |
| PasswordReset.Server.ServeNotification | flow/email/process/process.go:13-36 | scans the unseen rows, mails some of them and marks what was sent, or commits nothing when a mark failed; a user without an address fails the scan, and then nothing is sent |
| Mailer.Process | flow/email/process/process.go:13-36 | the messages sent are exactly those of the items that rendered and sent, in scan order; when every mark succeeds, the marked rows are the sent ones |
| Mailer.DeliveredAreItems | flow/email/process/process.go:19-33 | only scanned items are delivered |
| Mailer.DeliveredIs | flow/email/process/process.go:19-33 | each item that was sent is delivered at its place in the scan order: a failure before it or after it does not matter |
| Mailer.DeliveredFrom | flow/email/process/process.go:19-33 | and nothing else is delivered |
| Mailer.DeliveredOnce | flow/email/process/process.go:19-33 | an item scanned once is delivered at most once |
| SubscribedQueue.NextKeepsValid | hasura/migrations/default/1559740220527_init/up.sql:656-669 | every step keeps the foreign keys and the uniqueness of (section, user) |
| SubscribedQueue.NextKeepsBacked | flow/email/process/scan.go:40-92 | every step keeps: each seen row is backed by a mail already sent |
| SubscribedQueue.SeenRowsAreBacked | flow/email/process/scan.go:40-92 | in every run from no seen rows, each seen row is backed by a mail already sent to its user for the course of its section, read off the section table, with arbitrary failures |
| SubscribedQueue.OnlyNewPairsAreMailed | flow/email/process/scan.go:40-92 | no service mails a user for a course when the user had a seen row for a section of that course as the scan began; each mail goes to a user with an unseen row for a section of the course |
| SubscribedQueue.NotMailedAgain | flow/email/process/scan.go:40-92 | while a seen row stays, its user gets no further mail for the course of its section over any run |
| SubscribedQueue.OncePerService | flow/email/process/scan.go:63-92 | one service mails each pair at most once when no two unseen rows of an unseen pair wait |
| SubscribedQueue.TwiceWhenTwoWait | flow/email/process/scan.go:63-92 | and when two of them wait, a service that delivers everything mails the pair twice |
| SubscribedQueue.SiblingsAreOfCourse | flow/email/process/scan.go:43-58 | an unseen row is marked exactly when some seen row has the same user and a section of the same course |
| SubscribedQueue.TwoSectionsOneCourse | flow/email/process/scan.go:43-58 | a user with a seen row for section 100 is not scanned for section 101 of the same course |
| SubscribedQueue.SeenAfterService | flow/email/process/scan.go:40-92 | after a service that commits a row is seen exactly when it was, shares a seen row of its user and course, or was just sent |
| SubscribedQueue.NothingIsLeft | flow/email/process/scan.go:63-92 | when every waiting user has an email and every send and mark succeeds, no row stays unseen and every waiting user has been mailed for the course |
| SubscribedQueue.UnreadableStops | flow/email/process/scan.go:78-90 | one waiting user without an email stops the whole service, the marks included |
| SubscribedQueue.Service.MarkSameCourse | flow/email/process/scan.go:43-61 | marks exactly the unseen rows of users with a seen row for a section of the same course, and changes nothing else |
| SubscribedQueue.Service.ScanSubscribed | flow/email/process/scan.go:40-92 | marks the siblings, then reads exactly the unseen rows that join |
| SubscribedQueue.Service.SubscribeTo | hasura/migrations/default/1559740220527_init/up.sql:656-669 | adds one unseen row, or nothing when the section, the user or uniqueness forbids it |
| SubscribedQueue.Service.Unsubscribe | hasura/migrations/default/1559740220527_init/up.sql:656-669 | removes exactly the given rows |
| SubscribedQueue.Service.ServeNotification | flow/email/process/process.go:13-36 | one service as a step of the queue, or no change when it does not commit |
| VacatedQueue.ConcernedIs | hasura/migrations/default/1559740220527_init/up.sql:707-712 | the DISTINCT mapping holds exactly the users subscribed to a freed section, with its course |
| VacatedQueue.GroupKeys | hasura/migrations/default/1559740220527_init/up.sql:713-717 | the groups are exactly those pairs |
| VacatedQueue.AggregateAll | hasura/migrations/default/1559740220527_init/up.sql:713-717 | the aggregated names of a group are those of all freed sections of the course, each once |
| VacatedQueue.NoticesAre | hasura/migrations/default/1559740220527_init/up.sql:695-726 | one statement queues exactly one row per concerned pair, with the names of all freed sections of the course, whichever the user subscribes to |
| VacatedQueue.FreedNamesAre | hasura/migrations/default/1559740220527_init/up.sql:700-717 | these names are those of the sections of the course with the old total at or above and the new total below the new capacity, one per section, in the order of the rows |
| VacatedQueue.ServeKeepsOnce | flow/email/process/scan.go:94-122 | a service that marks what it sends keeps: a row mailed is a seen row, and each row is mailed at most once |
| VacatedQueue.RowsAreMailedOnce | flow/email/process/scan.go:94-122 | in runs where every mark and commit succeeds, each queued row is mailed at most once, with the names it was queued with |
| VacatedQueue.SeenRowsAreMailed | flow/email/process/process.go:13-36 | in every run, failures included, no row is marked seen without its mail |
| VacatedQueue.SeenExactlyWhenMailed | flow/email/process/process.go:13-36 | when every mark and commit succeeds, a row is seen exactly when it has been mailed |
| VacatedQueue.NothingIsLeft | flow/email/process/scan.go:94-122 | when every waiting user has an address and every send and mark succeeds, one service mails every unseen row and leaves none |
| VacatedQueue.UnreadableStops | flow/email/process/scan.go:94-122 | one waiting user without an address stops the whole service |
| VacatedQueue.Queue.InsertCourseVacated | hasura/migrations/default/1559740220527_init/up.sql:695-726 | appends the notices of the statement, unseen |
| VacatedQueue.Queue.ServeNotification | flow/email/process/process.go:13-36 | one service as a step of the queue |
| Schedule.Parse | flow/api/parse/schedule/schedule.go:97-145 | each class gets the joined dedup of exactly the rooms strictly between its number and the next; fails exactly on a class number that is none |
| Schedule.CollectRooms | flow/api/parse/schedule/schedule.go:114-127 | the shared index collects exactly the rooms of one context and passes over the earlier ones |
| Schedule.RoomsAre | flow/api/parse/schedule/schedule.go:114-127 | the rooms between two positions are exactly those that start strictly between them, in text order |
| Schedule.TwoRooms | flow/api/parse/schedule/schedule.go:129-143 | MC 4064, DWE 2527 and MC 4064 again give the location MC 4064, DWE 2527 |
| Schedule.Deduplicate | flow/api/parse/schedule/schedule.go:129-139 | keeps the trimmed rooms at their first occurrences |
| Schedule.DedupIs | flow/api/parse/schedule/schedule.go:129-139 | the result has no repetition and exactly the trimmed strings, in order of first occurrence |
| Schedule.RoomsArePartitioned | flow/api/parse/schedule/schedule.go:114-127 | class by class, the rooms are exactly those after the first class number, each once and in order |
| Transcript.ExtractTermSummaries | flow/api/parse/transcript/transcript.go:57-92 | fails exactly when terms and levels differ in number or a heading is no term; otherwise each term has the non-transfer courses whose last heading at or before them it is |
| Transcript.TransferCreditIs | flow/api/parse/transcript/transcript.go:43-55 | a line is a transfer credit exactly when it has a number of credits and no further one begins after its four bytes |
| Transcript.TakenAt | flow/api/parse/transcript/transcript.go:76-89 | each line that is no transfer credit and stands in a term gives that term the lower-case department and number, at the place that the lines before it leave |
| Transcript.TakenAre | flow/api/parse/transcript/transcript.go:76-89 | a term has no other courses |
| Transcript.TakeCourses | flow/api/parse/transcript/transcript.go:77-89 | the shared index takes exactly the lines before the next heading; the last term takes the rest |
| Transcript.ConcatenatedIs | flow/api/parse/transcript/transcript.go:66-90 | the courses of the first terms in a row are those of the lines that these terms own |
| Transcript.CoursesArePartitioned | flow/api/parse/transcript/transcript.go:66-90 | with at least one heading, the terms' courses in a row are exactly the non-transfer courses in text order |
| SaveParsed.RowsOfAre | flow/api/parse/parse.go:60-71 | the rows inserted are exactly the known codes of the headings, with term and level |
| SaveParsed.TranscriptReplaces | flow/api/parse/parse.go:36-74 | when it commits, the user's rows of the terms that some heading reaches, being that term or a later one, are exactly the transcript's known courses with their levels; every later row of the user and every other row and table is unchanged |
| SaveParsed.MaxTermIs | flow/api/parse/parse.go:50-60 | the bound of the deletion is the id of a heading that no other exceeds |
| SaveParsed.LaterTermSurvives | flow/api/parse/parse.go:26-60 | a course of term 1241 survives the save of a transcript whose only term is 1239 |
| SaveParsed.CoursesAreCounted | flow/api/parse/parse.go:62-66 | the number reported is that of the courses of all headings, known or not |
| SaveParsed.ProgramLimit | flow/api/parse/parse.go:36-74 | a transcript without a repeated course is saved exactly when a user's program has at most 256 characters or, without that user, no course is known |
| SaveParsed.TranscriptIsIdempotent | flow/api/parse/parse.go:36-74 | saving the same transcript again commits and changes nothing |
| SaveParsed.SlotRowsAre | flow/api/parse/parse.go:165-181 | the slots inserted are exactly the matched sections with their locations |
| SaveParsed.CourseRowsAre | flow/api/parse/parse.go:183-186 | the courses inserted are exactly those of the matched sections, without a level |
| SaveParsed.FailedAre | flow/api/parse/parse.go:165-181 | the classes reported as failed are those whose number no section of the term has, in order |
| SaveParsed.ScheduleReplaces | flow/api/parse/parse.go:140-190 | when it commits, the user's slots of the term are exactly the matched sections with their locations; every other slot is unchanged |
| SaveParsed.ScheduleReplacesTaken | flow/api/parse/parse.go:140-190 | and the user's courses of the term are exactly those of the matched sections; every other row is unchanged |
| SaveParsed.ScheduleIsIdempotent | flow/api/parse/parse.go:140-190 | saving the same schedule again commits and changes nothing |
| SaveParsed.SavesCommute | flow/api/parse/parse.go:36-190 | a transcript and a schedule of a term after all its headings commute, failures included |
| SaveParsed.Database.SaveTranscript | flow/api/parse/parse.go:36-74 | commits exactly for a non-empty transcript without a repeated (term, course), a program of at most 256 characters and an existing user (or no known course); otherwise replies with the reason and changes nothing |
| SaveParsed.Database.SaveSchedule | flow/api/parse/parse.go:140-190 | commits exactly for a current, non-empty schedule without a repeated section and an existing user (or no matched section); lists the class numbers without a section |
| Calendar.ParseWeekdayString | flow/common/util/date.go:26-37 | the codes of exactly the flagged weekdays, in order |
| Calendar.PatternExamples | flow/common/util/date.go:24-37 | NYNYNNN gives T and Th, and the full week the seven codes from M to Su |
| Calendar.MarkDays | flow/api/calendar/calendar.go:189-191 | flags exactly the weekdays of the codes |
| Calendar.DaysOfPattern | flow/api/calendar/calendar.go:107-117 | pattern to flags, through the codes: weekday w is flagged exactly when the pattern has Y at (w + 6) mod 7 |
| Calendar.ToWebcalEvents | flow/api/calendar/calendar.go:219-234 | the events of all meetings, one for each flagged date of each range, in order |
| Calendar.WeekdayIs | flow/api/calendar/calendar.go:226-229 | 1 January 1970 was a Thursday and weekdays follow one another |
| Calendar.EventReads | flow/api/calendar/calendar.go:199-217 | an event starts and ends the meeting's seconds after its midnight, at the meeting's location or Unknown, under the upper-case course code, a dash and the section name |
| Calendar.DatesAre | flow/api/calendar/calendar.go:226-229 | the dates are exactly the flagged dates of the range, strictly increasing |
| CalendarUids.StartsIncrease | flow/api/calendar/calendar.go:199-217 | the events of one meeting start in strictly increasing order and have distinct UIDs |
| Calendar.WholeWeeks | flow/api/calendar/calendar.go:226-229 | k whole weeks hold exactly k times the flagged days, from any day on |
| CalendarUids.UidInjective | flow/api/calendar/calendar.go:79 | equal UIDs mean equal section ids and equal start times |
| CalendarUids.UidExample | flow/api/calendar/calendar.go:79 | the UID of section 12 starting at 340, character by character |
| CalendarUids.UidRepeats | flow/api/calendar/calendar.go:32-39 | a calendar repeats a UID exactly when two meetings of one section have flagged dates on which they start at the same instant |
| CalendarUids.UidRepeatsByDate | flow/api/calendar/calendar.go:32-39 | when no meeting starts after the end of one of its own dates, that is when they start at the same time of day and share a flagged date |
| CalendarUids.TwoRoomsShareUid | flow/api/calendar/calendar.go:32-39 | two meetings of a section at one time in two rooms share a UID |
| Calendar.EventsOfPatterns | flow/api/calendar/calendar.go:219-234 | an event is in the calendar exactly when it is that of a meeting on a date of its range that its pattern flags |
| Calendar.ExportMeetings | flow/api/calendar/calendar.go:189-234 | from patterns and ranges to the list of events, through the weekday codes and the marked days |
| Calendar.UntimedMeetingEndsAtStart | flow/api/calendar/calendar.go:85 | a meeting stored as 0 and 0 with a flagged date breaks it |
| Calendar.EndAfterStart | flow/api/calendar/calendar.go:85 | every event of a meeting ends after it starts exactly when the meeting's end time is later than its start time or no date of its range falls on one of its days |
| NumberRange.ParseNumber | flow/common/util/string.go:72-79 | the value and the length of the maximal digit run at the front |
| NumberRange.ExpandNumberRange | flow/common/util/string.go:84-105 | equals the left-to-right reading of maximal digit runs, so that no digit is skipped |
| NumberRange.ReadSeparated | flow/common/util/string.go:84-105 | the reading of two texts joined by a separator is the two readings in a row, unless the separator is a dash after a digit |
| NumberRange.ReadPrinted | flow/common/util/string.go:81-105 | the printed form of an ascending range reads as its numbers |
| NumberRange.ReadPrintedAll | flow/common/util/string.go:81-105 | the printed form of any list of ascending ranges reads as their concatenation |
| NumberRange.ReadPair | flow/common/util/string.go:84-105 | a run of digits reads as its number, and two joined by a dash as all numbers from the first to the second, or the first alone when the second is not larger |
| NumberRange.LecExample | flow/common/util/string.go:81-83 | LEC 001,003-005,007 reads as 1, 3, 4, 5, 7 |
| ProfCode.ProfNameToCode | flow/common/util/string.go:43-70 | the lower-case letter runs of the name joined by underscores; the final trim removes an underscore only |
| ProfCode.CodeIs | flow/common/util/string.go:41-70 | a name of letters is its own code in lower case; at any other character the codes of the two sides are joined by one underscore unless one is empty |
| ProfCode.CodeShape | flow/common/util/string.go:41-43 | every code is empty or lower-case words joined by single underscores |
| ProfCode.CodeIsIdempotent | flow/common/util/string.go:43-70 | the code of a code is that code, on every byte string |
| ProfCode.LettersKept | flow/common/util/string.go:43-70 | the letters of the name are the letters of the code, in order, in lower case |
| Decimal.AtoiOfItoa | flow/common/util/term.go:60 | the parser of numerals reads back every printed integer |
| Decimal.PrintedNumerals | flow/common/util/term.go:60 | the most significant digit comes first |
| Decimal.ReadNumerals | flow/common/util/term.go:60 | leading zeros and a sign are read; an empty text, a lone sign and a letter are refused |

## Left out

- Regular-expression engines: the two expressions of `convert.go` are modelled exactly, as predicates on words;
  the match positions of `schedule.go` and `transcript.go` are inputs, sorted and with rooms never starting where
  class numbers do.
- Lower-casing touches ASCII letters only. A requirement text is only searched for keywords, where that makes no
  difference; a course code with a wider letter would keep it here.
- Transcript.TransferCreditIs: the dot of the credit expression stands for one byte; where a character of several
  bytes stands between the digits, the expression matches and the model does not.
- Convert.Converted.ConvertAll: the inputs on which the importer panics (an unknown term, a section number of more
  than three characters, a pattern with a Y past its seventh place, two headers in one word) are excluded by
  its preconditions.
- Upsert.Apply: when several staged rows hit one live row, the first is taken, while Postgres may take any; batches
  made by convertAll have none, by `Convert.SectionKeysAreDistinct`. Rows are inserted in batch order, which
  decides ids and, for `Importer.Store.InsertAllPrereqs`, which flag wins within a batch.
- Importer.Store.ImportAll: failures of the database itself between two inserts, the log, the API's retries and
  the request delay are not modelled; a deletion by `vacuum.go` between two imports is not a step of the model.
- Numbers read from text do not overflow 64 bits: integers are unbounded. Text that is no UTF-8 or holds a zero
  byte, which Postgres refuses, is not told apart.
- HTTP handlers, JSON, sessions, bcrypt, SMTP, mail templates and PDF extraction; a hash is an input.
- Interleavings finer than one handler or one service of a notification. A key issued between the scan and the mark
  of a service could otherwise be marked as seen.
- SubscribedQueue.SeenRowsAreBacked: the map from sections to courses is fixed during a run.
- VacatedQueue.RowsAreMailedOnce: runs in which a mark or commit fails after a send are excluded, because such a row
  is mailed again.
- Calendar.ToWebcalEvents: midnights are any strictly increasing instants, and the wall-clock time on the days when
  clocks change is not modelled; text escaping and line folding are absent from the code.
- CamelToSnakeCase and the letter-case helpers of `string.go`, materialized views, search, permissions, the other
  importers and the remaining API: easy members, or calls into libraries.
