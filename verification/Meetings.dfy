/** insertAllMeetings as a transformer of the section_meeting table: delete the meetings of the imported
    sections, then insert the imported meetings. */
module Meetings {
  import opened Bytes
  import opened Upsert
  import Convert

  // A row of course_section without its key
  datatype SectionData = SectionData(
    course: int, name: string, capacity: int, total: int, updatedAt: int, isOnline: bool)

  type SectionTable = map<Convert.Key, Entry<SectionData>>

  // A row of section_meeting without its section
  datatype Details = Details(
    prof: Option<int>, location: Option<string>, startSeconds: int, endSeconds: int,
    startDate: int, endDate: int, days: seq<string>)

  datatype Row = Row(section: int, details: Details)

  // Profs by code and the manual remapping of codes: a remapped code wins.
  datatype Profs = Profs(ids: map<string, Entry<string>>, remap: map<string, int>)

  function Resolve(profs: Profs, code: Option<string>): Option<int> {
    if code.None? then None
    else if code.value in profs.remap then Some(profs.remap[code.value])
    else if code.value in profs.ids then Some(profs.ids[code.value].id)
    else None
  }

  function DetailsOf(m: Convert.MeetingRow, profs: Profs): Details {
    Details(Resolve(profs, m.profCode), m.location, m.startSeconds, m.endSeconds, m.startDate, m.endDate, m.days)
  }

  // ----- the statements -----

  // The live sections that the last section import staged.
  function ImportedIds(sections: SectionTable, delta: seq<Convert.SectionRow>): set<int> {
    set i | 0 <= i < |delta| && delta[i].key in sections :: sections[delta[i].key].id
  }

  function Kept(rows: seq<Row>, ids: set<int>): seq<Row> {
    if |rows| == 0 then []
    else
      var n := |rows| - 1;
      if rows[n].section in ids then Kept(rows[..n], ids) else Kept(rows[..n], ids) + [rows[n]]
  }

  function Joined(batch: seq<Convert.MeetingRow>, sections: SectionTable, profs: Profs): seq<Row> {
    if |batch| == 0 then []
    else
      var n := |batch| - 1;
      var earlier := Joined(batch[..n], sections, profs);
      if batch[n].key !in sections then earlier
      else earlier + [Row(sections[batch[n].key].id, DetailsOf(batch[n], profs))]
  }

  function Replaced(
    rows: seq<Row>, delta: seq<Convert.SectionRow>, batch: seq<Convert.MeetingRow>,
    sections: SectionTable, profs: Profs)
    : seq<Row>
  {
    Kept(rows, ImportedIds(sections, delta)) + Joined(batch, sections, profs)
  }

  // The same rows under the same ids, whatever they hold
  ghost predicate SameIds(a: SectionTable, b: SectionTable) {
    a.Keys == b.Keys && forall k :: k in a ==> a[k].id == b[k].id
  }

  lemma {:induction false} JoinedByIds(batch: seq<Convert.MeetingRow>, a: SectionTable, b: SectionTable, profs: Profs)
    requires SameIds(a, b)
    ensures Joined(batch, a, profs) == Joined(batch, b, profs)
  {
    hide DetailsOf;
    if |batch| > 0 {
      JoinedByIds(batch[..|batch| - 1], a, b, profs);
    }
  }

  // What is stored of the sections besides their ids does not matter to the import of the meetings.
  lemma {:induction false} ReplacedByIds(
    rows: seq<Row>, delta: seq<Convert.SectionRow>, batch: seq<Convert.MeetingRow>, a: SectionTable, b: SectionTable,
    profs: Profs)
    requires SameIds(a, b)
    ensures Replaced(rows, delta, batch, a, profs) == Replaced(rows, delta, batch, b, profs)
  {
    hide Kept, Joined;
    JoinedByIds(batch, a, b, profs);
    assert ImportedIds(a, delta) == ImportedIds(b, delta);
  }

  // Nor does what was staged besides the keys.
  lemma {:induction false} ReplacedByKeys(
    rows: seq<Row>, d: seq<Convert.SectionRow>, e: seq<Convert.SectionRow>, batch: seq<Convert.MeetingRow>,
    sections: SectionTable, profs: Profs)
    requires |d| == |e| && forall i :: 0 <= i < |d| ==> d[i].key == e[i].key
    ensures Replaced(rows, d, batch, sections, profs) == Replaced(rows, e, batch, sections, profs)
  {
    hide Kept, Joined;
    assert ImportedIds(sections, d) == ImportedIds(sections, e);
  }

  /** The delete */
  method Delete(rows: seq<Row>, ids: set<int>) returns (kept: seq<Row>)
    ensures kept == Kept(rows, ids)
  {
    kept := [];
    for i := 0 to |rows|
      invariant kept == Kept(rows[..i], ids)
    {
      assert rows[..i + 1][..i] == rows[..i];
      if rows[i].section !in ids {
        kept := kept + [rows[i]];
      }
    }
    assert rows[..|rows|] == rows;
  }

  /** The insert, joined on the section and the professor */
  method Insert(batch: seq<Convert.MeetingRow>, sections: SectionTable, profs: Profs) returns (rows: seq<Row>)
    ensures rows == Joined(batch, sections, profs)
  {
    hide DetailsOf;
    rows := [];
    for i := 0 to |batch|
      invariant rows == Joined(batch[..i], sections, profs)
    {
      assert batch[..i + 1][..i] == batch[..i];
      if batch[i].key in sections {
        rows := rows + [Row(sections[batch[i].key].id, DetailsOf(batch[i], profs))];
      }
    }
    assert batch[..|batch|] == batch;
  }

  // ----- the meetings of one section -----

  function MeetingsAt(rows: seq<Row>, section: int): seq<Details> {
    if |rows| == 0 then []
    else
      var n := |rows| - 1;
      var earlier := MeetingsAt(rows[..n], section);
      if rows[n].section == section then earlier + [rows[n].details] else earlier
  }

  // The staged meetings of one key
  function StagedAt(batch: seq<Convert.MeetingRow>, key: Convert.Key, profs: Profs): seq<Details> {
    if |batch| == 0 then []
    else
      var n := |batch| - 1;
      var earlier := StagedAt(batch[..n], key, profs);
      if batch[n].key == key then earlier + [DetailsOf(batch[n], profs)] else earlier
  }

  lemma {:induction false} MeetingsAtConcat(a: seq<Row>, b: seq<Row>, section: int)
    ensures MeetingsAt(a + b, section) == MeetingsAt(a, section) + MeetingsAt(b, section)
  {
    if |b| == 0 {
      assert a + b == a;
    } else {
      var n := |b| - 1;
      MeetingsAtConcat(a, b[..n], section);
      assert (a + b)[..|a + b| - 1] == a + b[..n];
    }
  }

  lemma {:induction false} MeetingsAtKept(rows: seq<Row>, ids: set<int>, section: int)
    ensures MeetingsAt(Kept(rows, ids), section) == if section in ids then [] else MeetingsAt(rows, section)
  {
    if |rows| > 0 {
      var n := |rows| - 1;
      MeetingsAtKept(rows[..n], ids, section);
      MeetingsAtConcat(Kept(rows[..n], ids), [rows[n]], section);
      SingleMeetingAt(rows[n], section);
    }
  }

  lemma {:induction false} SingleMeetingAt(row: Row, section: int)
    ensures MeetingsAt([row], section) == if row.section == section then [row.details] else []
  {
    assert [row][..0] == [];
  }

  lemma {:induction false} MeetingsAtJoined(
    batch: seq<Convert.MeetingRow>, sections: SectionTable, profs: Profs, key: Convert.Key, next: int)
    requires key in sections && UniqueIds(sections, next)
    ensures MeetingsAt(Joined(batch, sections, profs), sections[key].id) == StagedAt(batch, key, profs)
  {
    hide DetailsOf;
    if |batch| > 0 {
      var n := |batch| - 1;
      MeetingsAtJoined(batch[..n], sections, profs, key, next);
      if batch[n].key in sections {
        var row := Row(sections[batch[n].key].id, DetailsOf(batch[n], profs));
        MeetingsAtConcat(Joined(batch[..n], sections, profs), [row], sections[key].id);
        SingleMeetingAt(row, sections[key].id);
      }
    }
  }

  lemma {:induction false} NothingStaged(batch: seq<Convert.MeetingRow>, key: Convert.Key, profs: Profs)
    requires forall i :: 0 <= i < |batch| ==> batch[i].key != key
    ensures StagedAt(batch, key, profs) == []
  {
    if |batch| > 0 {
      NothingStaged(batch[..|batch| - 1], key, profs);
    }
  }

  lemma {:induction false} MeetingsAtElsewhere(
    batch: seq<Convert.MeetingRow>, sections: SectionTable, profs: Profs, section: int)
    requires forall k :: k in sections ==> sections[k].id != section
    ensures MeetingsAt(Joined(batch, sections, profs), section) == []
  {
    hide DetailsOf;
    if |batch| > 0 {
      var n := |batch| - 1;
      MeetingsAtElsewhere(batch[..n], sections, profs, section);
      if batch[n].key in sections {
        var row := Row(sections[batch[n].key].id, DetailsOf(batch[n], profs));
        MeetingsAtConcat(Joined(batch[..n], sections, profs), [row], section);
        SingleMeetingAt(row, section);
      }
    }
  }

  lemma ImportedIdIs(sections: SectionTable, delta: seq<Convert.SectionRow>, key: Convert.Key, next: int)
    requires key in sections && UniqueIds(sections, next)
    ensures sections[key].id in ImportedIds(sections, delta) <==> Convert.HasSection(delta, key)
  {
    if i :| 0 <= i < |delta| && delta[i].key == key {
      assert sections[delta[i].key].id in ImportedIds(sections, delta);
    }
  }

  /** The import of meetings is a replacement: a staged section ends up with exactly its staged meetings,
      whatever it had before, and every other section keeps its meetings. */
  lemma {:induction false} MeetingsAreReplaced(
    rows: seq<Row>, delta: seq<Convert.SectionRow>, batch: seq<Convert.MeetingRow>,
    sections: SectionTable, profs: Profs,
    key: Convert.Key, next: int)
    requires UniqueIds(sections, next) && key in sections
    requires Convert.EveryMeetingHasSection(delta, batch)
    ensures MeetingsAt(Replaced(rows, delta, batch, sections, profs), sections[key].id) ==
            if Convert.HasSection(delta, key) then StagedAt(batch, key, profs) else MeetingsAt(rows, sections[key].id)
  {
    hide Kept, Joined, MeetingsAt, StagedAt, UniqueIds, ImportedIds, Convert.HasSection;
    var id := sections[key].id;
    MeetingsAtConcat(Kept(rows, ImportedIds(sections, delta)), Joined(batch, sections, profs), id);
    MeetingsAtKept(rows, ImportedIds(sections, delta), id);
    MeetingsAtJoined(batch, sections, profs, key, next);
    ImportedIdIs(sections, delta, key, next);
    if !Convert.HasSection(delta, key) {
      NothingStaged(batch, key, profs);
    }
  }

  // ----- the same batch again -----

  lemma {:induction false} KeptConcat(a: seq<Row>, b: seq<Row>, ids: set<int>)
    ensures Kept(a + b, ids) == Kept(a, ids) + Kept(b, ids)
  {
    if |b| == 0 {
      assert a + b == a;
    } else {
      var n := |b| - 1;
      KeptConcat(a, b[..n], ids);
      assert (a + b)[..|a + b| - 1] == a + b[..n];
    }
  }

  lemma {:induction false} KeptTwice(rows: seq<Row>, ids: set<int>)
    ensures Kept(Kept(rows, ids), ids) == Kept(rows, ids)
  {
    if |rows| > 0 {
      var n := |rows| - 1;
      KeptTwice(rows[..n], ids);
      if rows[n].section !in ids {
        KeptConcat(Kept(rows[..n], ids), [rows[n]], ids);
        assert Kept([rows[n]], ids) == [rows[n]] by {
          assert [rows[n]][..0] == [];
        }
      }
    }
  }

  // Every joined meeting belongs to a staged section.
  ghost predicate Covered(
    delta: seq<Convert.SectionRow>, batch: seq<Convert.MeetingRow>, sections: SectionTable)
  {
    forall i :: 0 <= i < |batch| && batch[i].key in sections ==>
      sections[batch[i].key].id in ImportedIds(sections, delta)
  }

  lemma {:induction false} KeptOfJoined(
    delta: seq<Convert.SectionRow>, batch: seq<Convert.MeetingRow>, sections: SectionTable, profs: Profs)
    ensures Kept(Joined(batch, sections, profs), ImportedIds(sections, delta)) == [] <==>
            Covered(delta, batch, sections)
  {
    hide ImportedIds, DetailsOf;
    if |batch| > 0 {
      var n := |batch| - 1;
      KeptOfJoined(delta, batch[..n], sections, profs);
      CoveredInit(delta, batch, sections);
      if batch[n].key in sections {
        var row := Row(sections[batch[n].key].id, DetailsOf(batch[n], profs));
        KeptConcat(Joined(batch[..n], sections, profs), [row], ImportedIds(sections, delta));
        assert [row][..0] == [];
      }
    }
  }

  lemma CoveredInit(delta: seq<Convert.SectionRow>, batch: seq<Convert.MeetingRow>, sections: SectionTable)
    requires |batch| > 0
    ensures var last := batch[|batch| - 1].key;
            Covered(delta, batch, sections) <==>
              && Covered(delta, batch[..|batch| - 1], sections)
              && (last in sections ==> sections[last].id in ImportedIds(sections, delta))
  {
    hide ImportedIds;
    var n := |batch| - 1;
    if Covered(delta, batch[..n], sections) {
      forall i | 0 <= i < n && batch[i].key in sections
        ensures sections[batch[i].key].id in ImportedIds(sections, delta)
      {
        assert batch[..n][i] == batch[i];
      }
    }
  }

  /** A second identical import changes nothing exactly when every joined meeting belongs to a staged section. */
  lemma ReplacedTwice(
    rows: seq<Row>, delta: seq<Convert.SectionRow>, batch: seq<Convert.MeetingRow>,
    sections: SectionTable, profs: Profs)
    ensures var once := Replaced(rows, delta, batch, sections, profs);
            var twice := Replaced(once, delta, batch, sections, profs);
            && (twice == once <==> Covered(delta, batch, sections))
            && (multiset(twice) == multiset(once) <==> Covered(delta, batch, sections))
  {
    hide Kept, Joined, ImportedIds, Covered;
    var ids := ImportedIds(sections, delta);
    var kept, joined := Kept(rows, ids), Joined(batch, sections, profs);
    KeptConcat(kept, joined, ids);
    KeptTwice(rows, ids);
    KeptOfJoined(delta, batch, sections, profs);
    var once := Replaced(rows, delta, batch, sections, profs);
    var twice := Replaced(once, delta, batch, sections, profs);
    assert twice == kept + Kept(joined, ids) + joined;
    assert |multiset(once)| == |once| && |multiset(twice)| == |twice|;
    if Kept(joined, ids) == [] {
      assert kept + [] == kept;
    }
  }

  /** The batches that convertAll makes are covered. */
  lemma ConvertedIsCovered(delta: seq<Convert.SectionRow>, batch: seq<Convert.MeetingRow>, sections: SectionTable)
    requires Convert.EveryMeetingHasSection(delta, batch)
    ensures Covered(delta, batch, sections)
  {
    forall i | 0 <= i < |batch| && batch[i].key in sections
      ensures sections[batch[i].key].id in ImportedIds(sections, delta)
    {
      assert Convert.HasSection(delta, batch[i].key);
    }
  }

  // ----- the meetings of one class -----

  function AllDetails(batch: seq<Convert.MeetingRow>, profs: Profs): (r: seq<Details>)
    ensures |r| == |batch|
  {
    seq(|batch|, i requires 0 <= i < |batch| => DetailsOf(batch[i], profs))
  }

  lemma {:induction false} StagedAtConcat(
    a: seq<Convert.MeetingRow>, b: seq<Convert.MeetingRow>, key: Convert.Key, profs: Profs)
    ensures StagedAt(a + b, key, profs) == StagedAt(a, key, profs) + StagedAt(b, key, profs)
  {
    hide DetailsOf;
    if |b| == 0 {
      assert a + b == a;
    } else {
      var n := |b| - 1;
      StagedAtConcat(a, b[..n], key, profs);
      assert (a + b)[..|a + b| - 1] == a + b[..n];
    }
  }

  lemma {:induction false} AllStaged(batch: seq<Convert.MeetingRow>, key: Convert.Key, profs: Profs)
    requires forall i :: 0 <= i < |batch| ==> batch[i].key == key
    ensures StagedAt(batch, key, profs) == AllDetails(batch, profs)
  {
    hide DetailsOf;
    if |batch| > 0 {
      AllStaged(batch[..|batch| - 1], key, profs);
    }
  }

  // The meetings of class k stand under its own key only.
  lemma {:induction false} StagedOfClass(cs: seq<Convert.ApiClass>, k: nat, i: nat, profs: Profs)
    requires i < |cs| && k < |cs| && Convert.First(cs, i) && Convert.First(cs, k)
    ensures var key := Convert.KeyOf(cs[i]).value;
            var rows := Convert.MeetingsOf(cs[k], Convert.KeyOf(cs[k]).value, |cs[k].meetings|);
            StagedAt(rows, key, profs) == if k == i then AllDetails(rows, profs) else []
  {
    hide StagedAt, AllDetails, Convert.MeetingsOf;
    var key := Convert.KeyOf(cs[i]).value;
    var rows := Convert.MeetingsOf(cs[k], Convert.KeyOf(cs[k]).value, |cs[k].meetings|);
    Convert.MeetingsOfHaveKey(cs[k], Convert.KeyOf(cs[k]).value, |cs[k].meetings|);
    if k == i {
      AllStaged(rows, key, profs);
    } else {
      NothingStaged(rows, key, profs);
    }
  }

  // What class n - 1 adds to the meetings staged for class i
  lemma StagedStep(cs: seq<Convert.ApiClass>, n: nat, i: nat, profs: Profs)
    requires 0 < n <= |cs| && i < |cs| && Convert.First(cs, i)
    ensures var key := Convert.KeyOf(cs[i]).value;
            StagedAt(Convert.Meetings(cs, n), key, profs) ==
            StagedAt(Convert.Meetings(cs, n - 1), key, profs) +
              (if n - 1 == i && Convert.IsReal(cs[i])
               then AllDetails(Convert.MeetingsOf(cs[i], key, |cs[i].meetings|), profs) else [])
  {
    hide StagedAt, AllDetails, Convert.MeetingsOf, Convert.Seen, Convert.IsReal;
    var c, earlier := cs[n - 1], Convert.Meetings(cs, n - 1);
    if Convert.First(cs, n - 1) && Convert.IsReal(c) {
      var rows := Convert.MeetingsOf(c, Convert.KeyOf(c).value, |c.meetings|);
      assert Convert.Meetings(cs, n) == earlier + rows;
      StagedAtConcat(earlier, rows, Convert.KeyOf(cs[i]).value, profs);
      StagedOfClass(cs, n - 1, i, profs);
    } else {
      assert Convert.Meetings(cs, n) == earlier;
    }
  }

  /** The meetings staged for a section are exactly the meetings that were read of the first class with its key. */
  lemma {:induction false} StagedAreOfFirstClass(cs: seq<Convert.ApiClass>, n: nat, i: nat, profs: Profs)
    requires i < |cs| && n <= |cs| && Convert.First(cs, i)
    ensures var key := Convert.KeyOf(cs[i]).value;
            StagedAt(Convert.Meetings(cs, n), key, profs) ==
            if i < n && Convert.IsReal(cs[i])
            then AllDetails(Convert.MeetingsOf(cs[i], key, |cs[i].meetings|), profs) else []
  {
    hide StagedAt, AllDetails, Convert.MeetingsOf, Convert.Seen, Convert.IsReal, Convert.Meetings;
    if n == 0 {
      Convert.NoMeetings(cs);
      NothingStaged([], Convert.KeyOf(cs[i]).value, profs);
    } else {
      StagedAreOfFirstClass(cs, n - 1, i, profs);
      StagedStep(cs, n, i, profs);
    }
  }

  // ----- what a row holds -----

  // A manual remapping wins over the professor with the code; without either there is no professor.
  predicate IsProfOf(profs: Profs, code: Option<string>, prof: Option<int>) {
    && (code.None? ==> prof.None?)
    && (code.Some? && code.value in profs.remap ==> prof == Some(profs.remap[code.value]))
    && (code.Some? && code.value !in profs.remap && code.value in profs.ids ==> prof == Some(profs.ids[code.value].id))
    && (code.Some? && code.value !in profs.remap && code.value !in profs.ids ==> prof.None?)
  }

  predicate Describes(m: Convert.MeetingRow, profs: Profs, d: Details) {
    && IsProfOf(profs, m.profCode, d.prof)
    && d.location == m.location && d.startSeconds == m.startSeconds && d.endSeconds == m.endSeconds
    && d.startDate == m.startDate && d.endDate == m.endDate && d.days == m.days
  }

  lemma DetailsDescribe(m: Convert.MeetingRow, profs: Profs, d: Details)
    ensures Describes(m, profs, d) <==> d == DetailsOf(m, profs)
  {
    if Describes(m, profs, d) {
      assert d.prof == Resolve(profs, m.profCode);
    }
  }

  /** The insert writes a row exactly for each staged meeting whose section is live, with the meeting's fields. */
  lemma {:induction false} InsertedRows(batch: seq<Convert.MeetingRow>, sections: SectionTable, profs: Profs, row: Row)
    ensures row in Joined(batch, sections, profs) <==>
            exists i :: 0 <= i < |batch| && batch[i].key in sections && row.section == sections[batch[i].key].id
              && Describes(batch[i], profs, row.details)
  {
    hide DetailsOf, Describes;
    if |batch| > 0 {
      var n := |batch| - 1;
      InsertedRows(batch[..n], sections, profs, row);
      DetailsDescribe(batch[n], profs, row.details);
    }
  }

  /** The meetings staged for a key are the batch's meetings with that key, in order, field by field. */
  lemma {:induction false} StagedAreDescribed(batch: seq<Convert.MeetingRow>, key: Convert.Key, profs: Profs, i: nat)
    requires i < |batch| && batch[i].key == key
    ensures var before := |StagedAt(batch[..i], key, profs)|;
            before < |StagedAt(batch, key, profs)| && Describes(batch[i], profs, StagedAt(batch, key, profs)[before])
  {
    hide DetailsOf, Describes;
    var n := |batch| - 1;
    DetailsDescribe(batch[i], profs, DetailsOf(batch[i], profs));
    if i < n {
      StagedAreDescribed(batch[..n], key, profs, i);
      assert batch[..n][..i] == batch[..i];
    }
  }
}
