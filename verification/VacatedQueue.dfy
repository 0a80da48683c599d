/** The trigger that queues a notice when sections of a course free up, and the mailing of its rows. */
module VacatedQueue {
  import opened Collections
  import opened Mailer

  datatype Section = Section(id: int, course: int, name: string, total: int, capacity: int)

  // A row of the transition tables of one UPDATE statement, joined on the section id.
  datatype Update = Update(before: Section, after: Section)

  datatype Subscription = Subscription(user: int, section: int)

  datatype Pair = Pair(user: int, course: int)

  datatype Joined = Joined(user: int, course: int, name: string)

  // A new row of queue.section_vacated
  datatype Notice = Notice(user: int, course: int, names: seq<string>)

  // One statement changes each section once and keeps its id.
  ghost predicate IsStatement(updates: seq<Update>) {
    && (forall i :: 0 <= i < |updates| ==> updates[i].before.id == updates[i].after.id)
    && forall i, j :: 0 <= i < j < |updates| ==> updates[i].after.id != updates[j].after.id
  }

  // Both totals are compared with the new capacity.
  predicate Frees(u: Update) {
    u.before.total >= u.after.capacity && u.after.total < u.after.capacity
  }

  // ----- the queries of the trigger, row by row -----

  function Vacated(updates: seq<Update>): seq<Section> {
    if |updates| == 0 then []
    else
      var last := updates[|updates| - 1];
      Vacated(updates[..|updates| - 1]) + if Frees(last) then [last.after] else []
  }

  // The courses of the vacated sections that one subscription names.
  function CoursesFor(sub: Subscription, vacated: seq<Section>): seq<Pair> {
    if |vacated| == 0 then []
    else
      var last := vacated[|vacated| - 1];
      CoursesFor(sub, vacated[..|vacated| - 1]) +
      if last.id == sub.section then [Pair(sub.user, last.course)] else []
  }

  function SubscribedCourses(subs: seq<Subscription>, vacated: seq<Section>): seq<Pair> {
    if |subs| == 0 then []
    else SubscribedCourses(subs[..|subs| - 1], vacated) + CoursesFor(subs[|subs| - 1], vacated)
  }

  // SELECT DISTINCT, and the keys of GROUP BY
  function Unique(pairs: seq<Pair>): seq<Pair> {
    if |pairs| == 0 then []
    else
      var init, last := Unique(pairs[..|pairs| - 1]), pairs[|pairs| - 1];
      if last in init then init else init + [last]
  }

  function JoinSection(v: Section, pairs: seq<Pair>): seq<Joined> {
    if |pairs| == 0 then []
    else
      var last := pairs[|pairs| - 1];
      JoinSection(v, pairs[..|pairs| - 1]) + if last.course == v.course
          then [Joined(last.user, v.course, v.name)] else []
  }

  function JoinAll(vacated: seq<Section>, pairs: seq<Pair>): seq<Joined> {
    if |vacated| == 0 then []
    else JoinAll(vacated[..|vacated| - 1], pairs) + JoinSection(vacated[|vacated| - 1], pairs)
  }

  function Keys(rows: seq<Joined>): (r: seq<Pair>)
    ensures |r| == |rows|
  {
    seq(|rows|, i requires 0 <= i < |rows| => Pair(rows[i].user, rows[i].course))
  }

  // array_agg(section_name) of one group
  function Aggregate(rows: seq<Joined>, key: Pair): seq<string> {
    if |rows| == 0 then []
    else
      var last := rows[|rows| - 1];
      Aggregate(rows[..|rows| - 1], key) + if Pair(last.user, last.course) == key then [last.name] else []
  }

  function JoinedRows(updates: seq<Update>, subs: seq<Subscription>): seq<Joined> {
    var vacated := Vacated(updates);
    JoinAll(vacated, Unique(SubscribedCourses(subs, vacated)))
  }

  // What the trigger inserts.
  function Notices(updates: seq<Update>, subs: seq<Subscription>): seq<Notice> {
    var rows := JoinedRows(updates, subs);
    var keys := Unique(Keys(rows));
    seq(|keys|, i requires 0 <= i < |keys| => Notice(keys[i].user, keys[i].course, Aggregate(rows, keys[i])))
  }

  // ----- what the queries compute -----

  // The user subscribes to a section of the course that the statement freed.
  ghost predicate Concerned(updates: seq<Update>, subs: seq<Subscription>, key: Pair) {
    exists i, j :: 0 <= i < |updates| && 0 <= j < |subs| && Frees(updates[i])
      && subs[j] == Subscription(key.user, updates[i].after.id) && updates[i].after.course == key.course
  }

  // The names of the course's freed sections, one per section.
  function FreedNames(updates: seq<Update>, course: int): seq<string> {
    if |updates| == 0 then []
    else
      var last := updates[|updates| - 1];
      FreedNames(updates[..|updates| - 1], course) +
      if Frees(last) && last.after.course == course then [last.after.name] else []
  }

  lemma {:induction false} UniqueIs(pairs: seq<Pair>)
    ensures Distinct(Unique(pairs))
    ensures forall p :: p in Unique(pairs) <==> p in pairs
  {
    if |pairs| > 0 {
      var init, last := pairs[..|pairs| - 1], pairs[|pairs| - 1];
      UniqueIs(init);
      assert pairs == init + [last];
      if last !in Unique(init) {
        DistinctSnoc(Unique(init), last);
      }
    }
  }

  lemma {:induction false} VacatedIs(updates: seq<Update>)
    ensures forall v :: v in Vacated(updates) <==>
              exists i :: 0 <= i < |updates| && Frees(updates[i]) && updates[i].after == v
  {
    hide Frees;
    if |updates| > 0 {
      VacatedIs(updates[..|updates| - 1]);
    }
  }

  lemma {:induction false} CoursesForIs(sub: Subscription, vacated: seq<Section>)
    ensures forall p :: p in CoursesFor(sub, vacated) <==>
              exists v :: v in vacated && v.id == sub.section && p == Pair(sub.user, v.course)
  {
    if |vacated| > 0 {
      var init, last := vacated[..|vacated| - 1], vacated[|vacated| - 1];
      CoursesForIs(sub, init);
      assert vacated == init + [last];
    }
  }

  lemma {:induction false} SubscribedCoursesIs(subs: seq<Subscription>, vacated: seq<Section>)
    ensures forall p :: p in SubscribedCourses(subs, vacated) <==>
              exists sub, v :: sub in subs && v in vacated && v.id == sub.section && p == Pair(sub.user, v.course)
  {
    if |subs| > 0 {
      var init, last := subs[..|subs| - 1], subs[|subs| - 1];
      SubscribedCoursesIs(init, vacated);
      CoursesForIs(last, vacated);
      assert subs == init + [last];
    }
  }

  lemma {:induction false} JoinSectionKeys(v: Section, pairs: seq<Pair>)
    ensures forall r :: r in JoinSection(v, pairs) <==>
              r.course == v.course && r.name == v.name && Pair(r.user, r.course) in pairs
  {
    if |pairs| > 0 {
      var init, last := pairs[..|pairs| - 1], pairs[|pairs| - 1];
      JoinSectionKeys(v, init);
      assert pairs == init + [last];
    }
  }

  lemma {:induction false} JoinAllKeys(vacated: seq<Section>, pairs: seq<Pair>)
    ensures forall r :: r in JoinAll(vacated, pairs) <==>
              Pair(r.user, r.course) in pairs && exists v :: v in vacated && v.course == r.course && v.name == r.name
  {
    if |vacated| > 0 {
      var init, last := vacated[..|vacated| - 1], vacated[|vacated| - 1];
      JoinAllKeys(init, pairs);
      JoinSectionKeys(last, pairs);
      assert vacated == init + [last];
    }
  }

  lemma {:induction false} AggregateSnoc(rows: seq<Joined>, row: Joined, key: Pair)
    ensures Aggregate(rows + [row], key) ==
            if Pair(row.user, row.course) == key then Aggregate(rows, key) + [row.name] else Aggregate(rows, key)
  {
    assert (rows + [row])[..|rows|] == rows;
  }

  lemma DistinctInit(pairs: seq<Pair>)
    requires Distinct(pairs) && |pairs| > 0
    ensures Distinct(pairs[..|pairs| - 1]) && pairs[|pairs| - 1] !in pairs[..|pairs| - 1]
    ensures pairs == pairs[..|pairs| - 1] + [pairs[|pairs| - 1]]
  {
  }

  // DISTINCT makes each vacated section join a pair once.
  lemma {:induction false} AggregateSection(v: Section, pairs: seq<Pair>, key: Pair)
    requires Distinct(pairs)
    ensures Aggregate(JoinSection(v, pairs), key) == if v.course == key.course && key in pairs then [v.name] else []
  {
    if |pairs| == 0 {
      NothingAggregated(v, key);
    } else {
      hide Aggregate, Distinct;
      var init, last := pairs[..|pairs| - 1], pairs[|pairs| - 1];
      DistinctInit(pairs);
      AggregateSection(v, init, key);
      assert key in pairs <==> key in init || key == last;
      if last.course == v.course {
        AggregateSnoc(JoinSection(v, init), Joined(last.user, v.course, v.name), key);
      } else {
        assert JoinSection(v, pairs) == JoinSection(v, init);
      }
    }
  }

  lemma {:induction false} NothingAggregated(v: Section, key: Pair)
    ensures Aggregate(JoinSection(v, []), key) == []
  {
  }

  lemma {:induction false} AggregateConcat(a: seq<Joined>, b: seq<Joined>, key: Pair)
    ensures Aggregate(a + b, key) == Aggregate(a, key) + Aggregate(b, key)
  {
    if |b| == 0 {
      assert a + b == a;
    } else {
      var n := |b| - 1;
      AggregateConcat(a, b[..n], key);
      assert (a + b)[..|a + b| - 1] == a + b[..n];
    }
  }

  lemma {:induction false} AggregateAll(updates: seq<Update>, pairs: seq<Pair>, key: Pair)
    requires Distinct(pairs) && key in pairs
    ensures Aggregate(JoinAll(Vacated(updates), pairs), key) == FreedNames(updates, key.course)
  {
    hide Frees, JoinSection, Aggregate;
    if |updates| > 0 {
      var init, last := updates[..|updates| - 1], updates[|updates| - 1];
      AggregateAll(init, pairs, key);
      if Frees(last) {
        var vacated := Vacated(init);
        assert (vacated + [last.after])[..|vacated|] == vacated;
        AggregateSection(last.after, pairs, key);
        AggregateConcat(JoinAll(vacated, pairs), JoinSection(last.after, pairs), key);
      } else {
        assert Vacated(updates) == Vacated(init);
      }
    } else {
      NothingJoined(pairs, key);
    }
  }

  lemma {:induction false} NothingJoined(pairs: seq<Pair>, key: Pair)
    ensures Aggregate(JoinAll([], pairs), key) == []
  {
  }

  lemma {:induction false} ConcernedIs(updates: seq<Update>, subs: seq<Subscription>, key: Pair)
    ensures key in SubscribedCourses(subs, Vacated(updates)) <==> Concerned(updates, subs, key)
  {
    hide Frees;
    var vacated := Vacated(updates);
    VacatedIs(updates);
    SubscribedCoursesIs(subs, vacated);
    if key in SubscribedCourses(subs, vacated) {
      var sub, v :| sub in subs && v in vacated && v.id == sub.section && key == Pair(sub.user, v.course);
      var i :| 0 <= i < |updates| && Frees(updates[i]) && updates[i].after == v;
      var j :| 0 <= j < |subs| && subs[j] == sub;
    }
    if Concerned(updates, subs, key) {
      var i, j :| 0 <= i < |updates| && 0 <= j < |subs| && Frees(updates[i])
        && subs[j] == Subscription(key.user, updates[i].after.id) && updates[i].after.course == key.course;
      assert updates[i].after in vacated && subs[j] in subs;
    }
  }

  lemma GroupKeys(updates: seq<Update>, subs: seq<Subscription>, key: Pair)
    ensures key in Unique(Keys(JoinedRows(updates, subs))) <==> Concerned(updates, subs, key)
  {
    hide Frees, Vacated, SubscribedCourses, Unique, JoinAll, Concerned;
    var vacated := Vacated(updates);
    var all := SubscribedCourses(subs, vacated);
    var rows := JoinedRows(updates, subs);
    UniqueIs(Keys(rows));
    UniqueIs(all);
    ConcernedIs(updates, subs, key);
    JoinAllKeys(vacated, Unique(all));
    if key in Keys(rows) {
      var k :| 0 <= k < |rows| && Keys(rows)[k] == key;
      assert rows[k] in rows;
    }
    if key in all {
      SubscribedCoursesIs(subs, vacated);
      var sub, v :| sub in subs && v in vacated && v.id == sub.section && key == Pair(sub.user, v.course);
      var row := Joined(key.user, key.course, v.name);
      assert row in rows;
      var k :| 0 <= k < |rows| && rows[k] == row;
      assert Keys(rows)[k] == key;
    }
  }

  /** One statement queues exactly one row for each user and course such that the user subscribes to
      a freed section of the course, and the row names every freed section of that course once,
      whichever of them the user subscribes to. */
  lemma {:induction false} NoticesAre(updates: seq<Update>, subs: seq<Subscription>)
    ensures var notices := Notices(updates, subs);
            && (forall i, j :: 0 <= i < j < |notices| ==>
                  Pair(notices[i].user, notices[i].course) != Pair(notices[j].user, notices[j].course))
            && (forall i :: 0 <= i < |notices| ==>
                  && Concerned(updates, subs, Pair(notices[i].user, notices[i].course))
                  && notices[i].names == FreedNames(updates, notices[i].course))
            && forall key :: Concerned(updates, subs, key) ==>
                 exists i :: 0 <= i < |notices| && Pair(notices[i].user, notices[i].course) == key
  {
    hide Frees, Vacated, SubscribedCourses, Unique, JoinAll, Concerned, Aggregate, FreedNames;
    var vacated := Vacated(updates);
    var all := SubscribedCourses(subs, vacated);
    var rows := JoinedRows(updates, subs);
    var keys := Unique(Keys(rows));
    var notices := Notices(updates, subs);
    UniqueIs(Keys(rows));
    UniqueIs(all);
    forall i | 0 <= i < |notices|
      ensures Concerned(updates, subs, keys[i]) && notices[i].names == FreedNames(updates, keys[i].course)
    {
      assert keys[i] in keys;
      GroupKeys(updates, subs, keys[i]);
      ConcernedIs(updates, subs, keys[i]);
      AggregateAll(updates, Unique(all), keys[i]);
    }
    forall key | Concerned(updates, subs, key)
      ensures exists i :: 0 <= i < |notices| && Pair(notices[i].user, notices[i].course) == key
    {
      GroupKeys(updates, subs, key);
      var i :| 0 <= i < |keys| && keys[i] == key;
      assert Pair(notices[i].user, notices[i].course) == key;
    }
  }

  // ----- the queue over time -----

  // A row of queue.section_vacated
  datatype Row = Row(notice: Notice, seen: bool)

  datatype Mail = Mail(id: nat, notice: Notice)

  // Row ids are handed out in order; users without an email cannot be mailed.
  datatype State = State(subs: seq<Subscription>, mailable: set<int>, queue: seq<Row>, log: seq<Mail>)

  datatype Event =
    | Subscriptions(subs: seq<Subscription>)
    | Enrolment(updates: seq<Update>)
    | Serve(order: seq<nat>, outcomes: seq<Outcome>)

  ghost predicate IsScan(s: State, order: seq<nat>) {
    Distinct(order) && forall id: nat :: id in order <==> id < |s.queue| && !s.queue[id].seen
  }

  predicate Readable(s: State, order: seq<nat>) {
    forall id :: id in order ==> id < |s.queue| && s.queue[id].notice.user in s.mailable
  }

  ghost predicate Possible(s: State, e: Event) {
    e.Serve? ==> |e.order| == |e.outcomes| && IsScan(s, e.order)
  }

  function NewRows(notices: seq<Notice>): (r: seq<Row>)
    ensures |r| == |notices|
  {
    seq(|notices|, i requires 0 <= i < |notices| => Row(notices[i], false))
  }

  function Mails(s: State, ids: seq<nat>): (r: seq<Mail>)
    requires forall id :: id in ids ==> id < |s.queue|
    ensures |r| == |ids|
  {
    seq(|ids|, i requires 0 <= i < |ids| =>
      var id := ids[i];
      assert id in ids;
      Mail(id, s.queue[id].notice))
  }

  function MarkSeen(queue: seq<Row>, ids: seq<nat>): (r: seq<Row>)
    ensures |r| == |queue|
  {
    seq(|queue|, id requires 0 <= id < |queue| => if id in ids then queue[id].(seen := true) else queue[id])
  }

  ghost function Next(s: State, e: Event): State
    requires Possible(s, e)
  {
    match e
    case Subscriptions(subs) => s.(subs := subs)
    case Enrolment(updates) => s.(queue := s.queue + NewRows(Notices(updates, s.subs)))
    case Serve(order, outcomes) =>
      if !Readable(s, order) then s
      else
        DeliveredAreItems(order, outcomes);
        var sent := Delivered(order, outcomes);
        s.(queue := if Commits(outcomes) then MarkSeen(s.queue, sent) else s.queue, log := s.log + Mails(s, sent))
  }

  ghost function After(s0: State, run: seq<Event>): State {
    if |run| == 0 then s0
    else
      var s := After(s0, run[..|run| - 1]);
      if Possible(s, run[|run| - 1]) then Next(s, run[|run| - 1]) else s
  }

  // Every mail carries the notice of its row; no row is mailed twice; mailed rows are seen.
  ghost predicate Once(s: State) {
    && (forall k :: 0 <= k < |s.log| ==> s.log[k].id < |s.queue| && s.queue[s.log[k].id] == Row(s.log[k].notice, true))
    && forall k, l :: 0 <= k < l < |s.log| ==> s.log[k].id != s.log[l].id
  }

  lemma ServeKeepsOnce(s: State, order: seq<nat>, outcomes: seq<Outcome>)
    requires Once(s) && Possible(s, Serve(order, outcomes)) && Commits(outcomes)
    ensures Once(Next(s, Serve(order, outcomes)))
  {
    hide Commits;
    DeliveredAreItems(order, outcomes);
    DeliveredOnce(order, outcomes);
    var sent := Delivered(order, outcomes);
    if Readable(s, order) {
      var t := Next(s, Serve(order, outcomes));
      var mails := Mails(s, sent);
      assert t.log == s.log + mails;
      forall k | 0 <= k < |mails|
        ensures mails[k].id in sent && !s.queue[mails[k].id].seen
      {
        assert sent[k] in sent && sent[k] in order;
      }
    }
  }

  /** In runs where every mark and commit succeeds, each queued row is mailed at most once, with the
      course and section names it was queued with. */
  lemma {:induction false} RowsAreMailedOnce(s0: State, run: seq<Event>)
    requires s0.queue == [] && s0.log == []
    requires forall i :: 0 <= i < |run| && run[i].Serve? ==> Commits(run[i].outcomes)
    ensures Once(After(s0, run))
  {
    hide Commits, Readable, IsScan;
    if |run| > 0 {
      var n := |run| - 1;
      RowsAreMailedOnce(s0, run[..n]);
      var s := After(s0, run[..n]);
      if Possible(s, run[n]) && run[n].Serve? {
        ServeKeepsOnce(s, run[n].order, run[n].outcomes);
      }
    }
  }

  // No row is marked seen without its mail.
  ghost predicate SeenAreMailed(s: State) {
    forall id :: 0 <= id < |s.queue| && s.queue[id].seen ==> IsMailed(s, id)
  }

  ghost predicate IsMailed(s: State, id: int) {
    exists k :: 0 <= k < |s.log| && s.log[k].id == id
  }

  lemma {:induction false} ServeKeepsSeen(s: State, order: seq<nat>, outcomes: seq<Outcome>)
    requires SeenAreMailed(s) && Possible(s, Serve(order, outcomes))
    ensures SeenAreMailed(Next(s, Serve(order, outcomes)))
  {
    if Readable(s, order) {
      DeliveredAreItems(order, outcomes);
      var sent := Delivered(order, outcomes);
      var t := Next(s, Serve(order, outcomes));
      forall id | 0 <= id < |t.queue| && t.queue[id].seen
        ensures IsMailed(t, id)
      {
        if s.queue[id].seen {
          var k :| 0 <= k < |s.log| && s.log[k].id == id;
          assert t.log[k] == s.log[k];
        } else {
          var k :| 0 <= k < |sent| && sent[k] == id;
          assert t.log[|s.log| + k] == Mails(s, sent)[k];
        }
      }
    }
  }

  /** In every run, whatever sends, marks or commits fail, no row is marked seen without its mail. */
  lemma {:induction false} SeenRowsAreMailed(s0: State, run: seq<Event>)
    requires s0.queue == [] && s0.log == []
    ensures SeenAreMailed(After(s0, run))
  {
    hide Readable, IsScan;
    if |run| > 0 {
      var n := |run| - 1;
      SeenRowsAreMailed(s0, run[..n]);
      var s := After(s0, run[..n]);
      if Possible(s, run[n]) {
        if run[n].Serve? {
          ServeKeepsSeen(s, run[n].order, run[n].outcomes);
        } else {
          NewRowsAreUnseen(s, run[n]);
        }
      }
    }
  }

  lemma {:induction false} NewRowsAreUnseen(s: State, e: Event)
    requires SeenAreMailed(s) && Possible(s, e) && !e.Serve?
    ensures SeenAreMailed(Next(s, e))
  {
    hide Notices;
    var t := Next(s, e);
    forall id | 0 <= id < |t.queue| && t.queue[id].seen
      ensures IsMailed(t, id)
    {
      assert t.queue[id] == s.queue[id] && IsMailed(s, id);
    }
  }

  /** When every mark and commit succeeds, a row is seen exactly when it has been mailed. */
  lemma {:induction false} SeenExactlyWhenMailed(s0: State, run: seq<Event>, id: nat)
    requires s0.queue == [] && s0.log == []
    requires forall i :: 0 <= i < |run| && run[i].Serve? ==> Commits(run[i].outcomes)
    requires id < |After(s0, run).queue|
    ensures After(s0, run).queue[id].seen <==> IsMailed(After(s0, run), id)
  {
    hide Commits, After;
    RowsAreMailedOnce(s0, run);
    SeenRowsAreMailed(s0, run);
  }

  /** When every user waiting has an address and every send and mark succeeds, one service mails every unseen row
      and leaves none. */
  lemma NothingIsLeft(s: State, order: seq<nat>, outcomes: seq<Outcome>, id: nat)
    requires Possible(s, Serve(order, outcomes)) && id < |s.queue|
    requires forall k :: 0 <= k < |s.queue| && !s.queue[k].seen ==> s.queue[k].notice.user in s.mailable
    requires forall i :: 0 <= i < |outcomes| ==> outcomes[i] == Sent
    ensures var t := Next(s, Serve(order, outcomes));
            t.queue[id] == s.queue[id].(seen := true) && (!s.queue[id].seen ==> Mail(id, s.queue[id].notice) in t.log)
  {
    hide Commits, Delivered;
    AllDelivered(order, outcomes);
    assert forall k :: k in order ==> s.queue[k].notice.user in s.mailable;
    if !s.queue[id].seen {
      assert id in order;
      var i :| 0 <= i < |order| && order[i] == id;
      assert Next(s, Serve(order, outcomes)).log[|s.log| + i] == Mails(s, order)[i];
    }
  }

  /** One user waiting without an address stops the whole service. */
  lemma UnreadableStops(s: State, order: seq<nat>, outcomes: seq<Outcome>, id: nat)
    requires Possible(s, Serve(order, outcomes)) && id < |s.queue|
    requires !s.queue[id].seen && s.queue[id].notice.user !in s.mailable
    ensures Next(s, Serve(order, outcomes)) == s
  {
    assert id in order;
  }

  // ----- the trigger and the service -----

  class Queue {
    var subs: seq<Subscription>
    const mailable: set<int>
    var queue: seq<Row>
    ghost var log: seq<Mail>

    ghost function Abstract(): State
      reads this
    {
      State(subs, mailable, queue, log)
    }

    constructor (mailable: set<int>)
      ensures Abstract() == State([], mailable, [], [])
    {
      this.subs := [];
      this.mailable := mailable;
      this.queue := [];
      this.log := [];
    }

    /** insert_course_vacated, fired once per UPDATE statement on course_section. */
    method InsertCourseVacated(updates: seq<Update>)
      requires IsStatement(updates)
      modifies this`queue
      ensures Abstract() == Next(old(Abstract()), Enrolment(updates))
    {
      ghost var s := Abstract();
      var notices := Notices(updates, subs);
      for i := 0 to |notices|
        invariant subs == s.subs && log == s.log
        invariant queue == s.queue + NewRows(notices)[..i]
      {
        queue := queue + [Row(notices[i], false)];
      }
      assert NewRows(notices)[..|notices|] == NewRows(notices);
    }

    /** One service of a section_vacated notification. */
    method ServeNotification(order: seq<nat>, outcomes: seq<Outcome>)
      requires Possible(Abstract(), Serve(order, outcomes))
      modifies this
      ensures Abstract() == Next(old(Abstract()), Serve(order, outcomes))
    {
      ghost var s := Abstract();
      if exists i :: 0 <= i < |order| && (order[i] >= |queue| || queue[order[i]].notice.user !in mailable) {
        var i :| 0 <= i < |order| && (order[i] >= |queue| || queue[order[i]].notice.user !in mailable);
        assert order[i] in order;
        return;
      }
      var sent, marked, committed := Mailer.Process(order, outcomes);
      DeliveredAreItems(order, outcomes);
      log := log + Mails(s, sent);
      if committed {
        queue := MarkSeen(queue, marked);
      }
    }
  }

  // ----- the names of a notice -----

  /** The names of a notice are those of the freed sections of its course, one per section, in the order of the rows. */
  lemma {:induction false} FreedNamesAre(updates: seq<Update>, course: int, i: nat)
    requires i < |updates|
    ensures var before, all := |FreedNames(updates[..i], course)|, FreedNames(updates, course);
            if updates[i].before.total >= updates[i].after.capacity
               && updates[i].after.total < updates[i].after.capacity && updates[i].after.course == course
            then before < |all| && all[before] == updates[i].after.name
            else |FreedNames(updates[..i + 1], course)| == before
  {
    assert updates[..i + 1][..i] == updates[..i];
    NamesGrow(updates, course, i + 1);
  }

  lemma {:induction false} NamesGrow(updates: seq<Update>, course: int, k: nat)
    requires k <= |updates|
    ensures FreedNames(updates[..k], course) <= FreedNames(updates, course)
  {
    if k < |updates| {
      var n := |updates| - 1;
      NamesGrow(updates[..n], course, k);
      assert updates[..n][..k] == updates[..k];
    } else {
      assert updates[..k] == updates;
    }
  }
}
