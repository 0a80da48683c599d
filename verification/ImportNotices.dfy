/** The section import fires the vacancy trigger once, on the rows that its UPDATE changes. */
module ImportNotices {
  import opened Bytes
  import opened Upsert
  import opened Meetings
  import Convert
  import Importer
  import VacatedQueue

  type StagedSection = Staged<Convert.Key, SectionData>

  function RowOf(id: int, d: SectionData): VacatedQueue.Section {
    VacatedQueue.Section(id, d.course, d.name, d.total, d.capacity)
  }

  function UpdateOf(live: SectionTable, row: StagedSection): VacatedQueue.Update
    requires row.key in live
  {
    VacatedQueue.Update(RowOf(live[row.key].id, live[row.key].data), RowOf(live[row.key].id, row.data))
  }

  // The transition tables of the UPDATE, joined on the section id
  function UpdatesOf(live: SectionTable, rows: seq<StagedSection>, n: nat): seq<VacatedQueue.Update>
    requires n <= |rows|
  {
    if n == 0 then []
    else
      var earlier := UpdatesOf(live, rows, n - 1);
      if rows[n - 1].key in live then earlier + [UpdateOf(live, rows[n - 1])] else earlier
  }

  lemma {:induction false} UpdatesAre(live: SectionTable, rows: seq<StagedSection>, n: nat, u: VacatedQueue.Update)
    requires n <= |rows|
    ensures u in UpdatesOf(live, rows, n) <==>
            exists i :: 0 <= i < n && rows[i].key in live && u == UpdateOf(live, rows[i])
  {
    hide UpdateOf;
    if n > 0 {
      UpdatesAre(live, rows, n - 1, u);
    }
  }

  lemma {:induction false} UpdateSource(live: SectionTable, rows: seq<StagedSection>, n: nat, k: nat) returns (i: nat)
    requires n <= |rows| && k < |UpdatesOf(live, rows, n)|
    ensures i < n && rows[i].key in live && UpdatesOf(live, rows, n)[k] == UpdateOf(live, rows[i])
  {
    if k < |UpdatesOf(live, rows, n - 1)| {
      i := UpdateSource(live, rows, n - 1, k);
    } else {
      i := n - 1;
    }
  }

  /** With distinct keys, the update changes each section at most once and keeps its id. */
  lemma {:induction false} UpdatesAreOneStatement(live: SectionTable, rows: seq<StagedSection>, n: nat, next: int)
    requires n <= |rows| && DistinctKeys(rows) && UniqueIds(live, next)
    ensures VacatedQueue.IsStatement(UpdatesOf(live, rows, n))
  {
    if n > 0 {
      UpdatesAreOneStatement(live, rows, n - 1, next);
      var earlier := UpdatesOf(live, rows, n - 1);
      if rows[n - 1].key in live {
        forall k | 0 <= k < |earlier|
          ensures earlier[k].after.id != live[rows[n - 1].key].id
        {
          var i := UpdateSource(live, rows, n - 1, k);
        }
      }
    }
  }

  // The staged row takes a section from full to not full, by the new capacity.
  predicate FreesSection(live: SectionTable, row: StagedSection) {
    row.key in live && live[row.key].data.total >= row.data.capacity && row.data.total < row.data.capacity
  }

  // It is a section of the course, and the user subscribes to it.
  predicate FreesFor(live: SectionTable, row: StagedSection, sub: VacatedQueue.Subscription, user: int, course: int) {
    && FreesSection(live, row) && row.data.course == course
    && sub == VacatedQueue.Subscription(user, live[row.key].id)
  }

  ghost predicate Notified(notices: seq<VacatedQueue.Notice>, user: int, course: int) {
    exists k :: 0 <= k < |notices| && notices[k].user == user && notices[k].course == course
  }

  /** An import queues a notice for a user and a course exactly when it takes a section of the course
      from full to not full and the user subscribes to that section. */
  lemma {:induction false} ImportNotifies(
    live: SectionTable, rows: seq<StagedSection>, subs: seq<VacatedQueue.Subscription>, user: int, course: int)
    ensures Notified(VacatedQueue.Notices(UpdatesOf(live, rows, |rows|), subs), user, course) <==>
            exists i, j :: 0 <= i < |rows| && 0 <= j < |subs| && FreesFor(live, rows[i], subs[j], user, course)
  {
    hide VacatedQueue.Notices;
    var updates := UpdatesOf(live, rows, |rows|);
    var key := VacatedQueue.Pair(user, course);
    VacatedQueue.NoticesAre(updates, subs);
    if VacatedQueue.Concerned(updates, subs, key) {
      var k, j :| 0 <= k < |updates| && 0 <= j < |subs| && VacatedQueue.Frees(updates[k])
        && subs[j] == VacatedQueue.Subscription(user, updates[k].after.id) && updates[k].after.course == course;
      var i := UpdateSource(live, rows, |rows|, k);
      assert FreesFor(live, rows[i], subs[j], user, course);
    }
    if i, j :| 0 <= i < |rows| && 0 <= j < |subs| && FreesFor(live, rows[i], subs[j], user, course) {
      UpdatesAre(live, rows, |rows|, UpdateOf(live, rows[i]));
      var k :| 0 <= k < |updates| && updates[k] == UpdateOf(live, rows[i]);
      assert VacatedQueue.Frees(updates[k]);
      assert VacatedQueue.Concerned(updates, subs, key);
    }
  }

  // The staged row takes a section of the course and of that name from full to not full.
  predicate FreesNamed(live: SectionTable, row: StagedSection, course: int, name: string) {
    FreesSection(live, row) && row.data.course == course && row.data.name == name
  }

  lemma {:induction false} FreedNamesOf(
    live: SectionTable, rows: seq<StagedSection>, n: nat, course: int, name: string)
    requires n <= |rows|
    ensures name in VacatedQueue.FreedNames(UpdatesOf(live, rows, n), course) <==>
            exists i :: 0 <= i < n && FreesNamed(live, rows[i], course, name)
  {
    hide VacatedQueue.FreedNames;
    if n == 0 {
      NothingFreed(course);
    } else {
      FreedNamesOf(live, rows, n - 1, course, name);
      if rows[n - 1].key in live {
        OneMoreUpdate(UpdatesOf(live, rows, n - 1), UpdateOf(live, rows[n - 1]), course, name);
      }
    }
  }

  lemma NothingFreed(course: int)
    ensures VacatedQueue.FreedNames([], course) == []
  {
  }

  lemma {:induction false} OneMoreUpdate(
    earlier: seq<VacatedQueue.Update>, u: VacatedQueue.Update, course: int, name: string)
    ensures name in VacatedQueue.FreedNames(earlier + [u], course) <==>
            || name in VacatedQueue.FreedNames(earlier, course)
            || (VacatedQueue.Frees(u) && u.after.course == course && u.after.name == name)
  {
    assert (earlier + [u])[..|earlier|] == earlier;
  }

  /** A notice names exactly the sections of its course that the import took from full to not full. */
  lemma {:induction false} NoticesNameSections(
    live: SectionTable, rows: seq<StagedSection>, subs: seq<VacatedQueue.Subscription>, k: nat, name: string)
    requires k < |VacatedQueue.Notices(UpdatesOf(live, rows, |rows|), subs)|
    ensures var notice := VacatedQueue.Notices(UpdatesOf(live, rows, |rows|), subs)[k];
            name in notice.names <==> exists i :: 0 <= i < |rows| && FreesNamed(live, rows[i], notice.course, name)
  {
    hide VacatedQueue.Notices, VacatedQueue.FreedNames, FreesNamed;
    var updates := UpdatesOf(live, rows, |rows|);
    VacatedQueue.NoticesAre(updates, subs);
    FreedNamesOf(live, rows, |rows|, VacatedQueue.Notices(updates, subs)[k].course, name);
  }

  /** An import that lowers no total queues no notice, whatever it does to the capacities. */
  lemma {:induction false} UnloweredTotalsAreSilent(
    live: SectionTable, rows: seq<StagedSection>, subs: seq<VacatedQueue.Subscription>)
    requires forall i :: 0 <= i < |rows| && rows[i].key in live ==> rows[i].data.total >= live[rows[i].key].data.total
    ensures VacatedQueue.Notices(UpdatesOf(live, rows, |rows|), subs) == []
  {
    var notices := VacatedQueue.Notices(UpdatesOf(live, rows, |rows|), subs);
    hide VacatedQueue.Notices;
    assert forall i :: 0 <= i < |rows| ==> !FreesSection(live, rows[i]);
    if notices != [] {
      ImportNotifies(live, rows, subs, notices[0].user, notices[0].course);
    }
  }

  /** An import of a batch that the tables already read queues no notice, at whatever time it is made. */
  lemma RepeatedImportIsSilent(t: Importer.Tables, b: Importer.Batch, subs: seq<VacatedQueue.Subscription>)
    requires Importer.Imported(t, b)
    ensures var rows := Importer.StagedSections(b.sections, t.courses, |b.sections|);
            VacatedQueue.Notices(UpdatesOf(t.sections, rows, |rows|), subs) == []
  {
    var rows := Importer.StagedSections(b.sections, t.courses, |b.sections|);
    hide VacatedQueue.Notices, Holds, Importer.StagedSections, Replaced;
    forall i | 0 <= i < |rows| && rows[i].key in t.sections
      ensures rows[i].data.total == t.sections[rows[i].key].data.total
    {
      assert Importer.SectionHolds(t.sections, rows[i]);
    }
    UnloweredTotalsAreSilent(t.sections, rows, subs);
  }
}
