/** The queue of section subscriptions: a user with a seen row for a course is not mailed for it again.
    Each service of a notification is one atomic step with arbitrary failures. */
module SubscribedQueue {
  import opened Bytes
  import opened Collections
  import opened Mailer

  // A row of queue.section_subscribed
  datatype Subscription = Subscription(user: int, section: int, seen: bool)

  // What the service has sent: a confirmation to a user for a course.
  datatype Mail = Mail(user: int, course: int)

  datatype Item = Item(id: int, user: int, email: string, course: int)

  // The tables by row id, the courses of the sections, the email of each user, and what has been sent.
  datatype State = State(
    subs: map<int, Subscription>, courses: map<int, int>, emails: map<int, Option<string>>, log: seq<Mail>)

  datatype Event =
    | Subscribe(id: int, user: int, section: int)
    // unsubscribing, or deleting a user or a section
    | Remove(ids: set<int>)
    // order is the order in which the unseen rows are scanned
    | Serve(order: seq<int>, outcomes: seq<Outcome>)

  // Foreign keys hold, and no user subscribes twice to a section.
  ghost predicate Valid(s: State) {
    && (forall id :: id in s.subs ==> s.subs[id].section in s.courses && s.subs[id].user in s.emails)
    && forall i, j :: i in s.subs && j in s.subs && s.subs[i].(seen := false) == s.subs[j].(seen := false) ==> i == j
  }

  function CourseOf(s: State, id: int): (c: int)
    requires id in s.subs
  {
    if s.subs[id].section in s.courses then s.courses[s.subs[id].section] else 0
  }

  predicate IsFor(s: State, id: int, user: int, course: int) {
    id in s.subs && s.subs[id].user == user && CourseOf(s, id) == course
  }

  // The user has a seen row for the course.
  predicate HasSeen(s: State, user: int, course: int) {
    exists id :: id in s.subs && IsFor(s, id, user, course) && s.subs[id].seen
  }

  // markQuery: rows of a user and course that has a seen row become seen.
  function MarkSiblings(s: State): (t: State)
    ensures t.subs.Keys == s.subs.Keys
  {
    s.(subs := map id | id in s.subs ::
         if HasSeen(s, s.subs[id].user, CourseOf(s, id)) then s.subs[id].(seen := true) else s.subs[id])
  }

  // order lists each unseen row once.
  ghost predicate IsScan(s: State, order: seq<int>) {
    Distinct(order) && forall id :: id in order <==> id in s.subs && !s.subs[id].seen
  }

  // Reading a row fails when its user has no email.
  predicate Readable(s: State, order: seq<int>) {
    forall i :: 0 <= i < |order| ==>
      order[i] in s.subs && s.subs[order[i]].user in s.emails && s.emails[s.subs[order[i]].user].Some?
  }

  function Mails(s: State, ids: seq<int>): seq<Mail>
    requires forall id :: id in ids ==> id in s.subs
  {
    seq(|ids|, i requires 0 <= i < |ids| =>
      var id := ids[i];
      assert id in ids;
      Mail(s.subs[id].user, CourseOf(s, id)))
  }

  function MarkSeen(subs: map<int, Subscription>, ids: seq<int>): map<int, Subscription> {
    map id | id in subs :: if id in ids then subs[id].(seen := true) else subs[id]
  }

  ghost predicate Possible(s: State, e: Event) {
    match e
    case Subscribe(id, user, section) => id !in s.subs && section in s.courses && user in s.emails
    case Remove(ids) => true
    case Serve(order, outcomes) => |order| == |outcomes| && IsScan(MarkSiblings(s), order)
  }

  ghost predicate IsSubscribed(s: State, user: int, section: int) {
    exists i :: i in s.subs && s.subs[i].user == user && s.subs[i].section == section
  }

  ghost function Next(s: State, e: Event): State
    requires Possible(s, e)
  {
    match e
    case Subscribe(id, user, section) =>
      if IsSubscribed(s, user, section) then s
      else s.(subs := s.subs[id := Subscription(user, section, false)])
    case Remove(ids) => s.(subs := s.subs - ids)
    case Serve(order, outcomes) =>
      var t := MarkSiblings(s);
      if !Readable(t, order) then s
      else
        DeliveredAreItems(order, outcomes);
        var sent := Delivered(order, outcomes);
        s.(subs := if Commits(outcomes) then MarkSeen(t.subs, sent) else s.subs, log := s.log + Mails(t, sent))
  }

  // An event that cannot happen is skipped.
  ghost function After(s0: State, run: seq<Event>): State {
    if |run| == 0 then s0
    else
      var s := After(s0, run[..|run| - 1]);
      if Possible(s, run[|run| - 1]) then Next(s, run[|run| - 1]) else s
  }

  // ----- every seen row is backed by a mail -----

  ghost predicate Backed(s: State) {
    forall id :: id in s.subs && s.subs[id].seen ==> Mail(s.subs[id].user, CourseOf(s, id)) in s.log
  }

  lemma SiblingsAreBacked(s: State)
    requires Backed(s)
    ensures Backed(MarkSiblings(s))
  {
    var t := MarkSiblings(s);
    forall id | id in t.subs && t.subs[id].seen
      ensures Mail(t.subs[id].user, CourseOf(t, id)) in t.log
    {
      assert CourseOf(t, id) == CourseOf(s, id);
      if !s.subs[id].seen {
        var other :| other in s.subs && IsFor(s, other, s.subs[id].user, CourseOf(s, id)) && s.subs[other].seen;
      }
    }
  }

  lemma SentAreMailed(t: State, sent: seq<int>)
    requires forall id :: id in sent ==> id in t.subs
    ensures forall id :: id in sent ==> Mail(t.subs[id].user, CourseOf(t, id)) in Mails(t, sent)
  {
    forall id | id in sent
      ensures Mail(t.subs[id].user, CourseOf(t, id)) in Mails(t, sent)
    {
      var i :| 0 <= i < |sent| && sent[i] == id;
      assert Mails(t, sent)[i] == Mail(t.subs[id].user, CourseOf(t, id));
    }
  }

  lemma NextKeepsBacked(s: State, e: Event)
    requires Backed(s) && Possible(s, e)
    ensures Backed(Next(s, e))
  {
    hide HasSeen, IsScan, Commits;
    match e
    case Subscribe(id, user, section) =>
    case Remove(ids) =>
    case Serve(order, outcomes) =>
      var t := MarkSiblings(s);
      if Readable(t, order) {
        DeliveredAreItems(order, outcomes);
        var sent := Delivered(order, outcomes);
        SiblingsAreBacked(s);
        SentAreMailed(t, sent);
        var u := Next(s, e);
        forall id | id in u.subs && u.subs[id].seen
          ensures Mail(u.subs[id].user, CourseOf(u, id)) in u.log
        {
          assert id in t.subs && CourseOf(u, id) == CourseOf(t, id) == CourseOf(s, id);
        }
      }
  }

  /** In every run that starts without seen rows, each seen row stands for a mail already sent to its
      user for its course, whatever sends, marks or commits failed. */
  lemma {:induction false} SeenRowsAreBacked(s0: State, run: seq<Event>)
    requires forall id :: id in s0.subs ==> !s0.subs[id].seen
    ensures var s := After(s0, run);
            forall id :: id in s.subs && s.subs[id].seen && s.subs[id].section in s.courses ==>
              Mail(s.subs[id].user, s.courses[s.subs[id].section]) in s.log
  {
    hide Next, Possible, After;
    RunKeepsBacked(s0, run);
    var s := After(s0, run);
    forall id | id in s.subs && s.subs[id].seen && s.subs[id].section in s.courses
      ensures Mail(s.subs[id].user, s.courses[s.subs[id].section]) in s.log
    {
      assert CourseOf(s, id) == s.courses[s.subs[id].section];
    }
  }

  lemma {:induction false} RunKeepsBacked(s0: State, run: seq<Event>)
    requires forall id :: id in s0.subs ==> !s0.subs[id].seen
    ensures Backed(After(s0, run))
  {
    hide Next, Possible;
    if |run| > 0 {
      RunKeepsBacked(s0, run[..|run| - 1]);
      var s := After(s0, run[..|run| - 1]);
      if Possible(s, run[|run| - 1]) {
        NextKeepsBacked(s, run[|run| - 1]);
      }
    }
  }

  // ----- nobody is mailed again for a course they have been mailed for -----

  // The mails of one service, in order.
  ghost function Sent(s: State, e: Event): seq<Mail>
    requires Possible(s, e)
  {
    match e
    case Serve(order, outcomes) =>
      var t := MarkSiblings(s);
      DeliveredAreItems(order, outcomes);
      if Readable(t, order) then Mails(t, Delivered(order, outcomes)) else []
    case _ => []
  }

  /** One service mails nobody for a course for which they had a seen row when it began, and mails
      only users with an unseen row for the course. */
  lemma OnlyNewPairsAreMailed(s: State, e: Event)
    requires Possible(s, e)
    ensures Next(s, e).log == s.log + Sent(s, e)
    ensures forall m, id :: m in Sent(s, e) && id in s.subs && s.subs[id].seen && s.subs[id].section in s.courses ==>
              s.subs[id].user != m.user || s.courses[s.subs[id].section] != m.course
    ensures forall m :: m in Sent(s, e) ==> exists id ::
              && id in s.subs && !s.subs[id].seen && s.subs[id].user == m.user
              && (s.subs[id].section in s.courses ==> s.courses[s.subs[id].section] == m.course)
  {
    hide HasSeen, Possible;
    SentPairsAreNew(s, e);
    forall m, id | m in Sent(s, e) && id in s.subs && s.subs[id].seen && s.subs[id].section in s.courses
      ensures s.subs[id].user != m.user || s.courses[s.subs[id].section] != m.course
    {
      SeenRowCounts(s, id);
    }
    forall m | m in Sent(s, e)
      ensures exists id ::
                && id in s.subs && !s.subs[id].seen && s.subs[id].user == m.user
                && (s.subs[id].section in s.courses ==> s.courses[s.subs[id].section] == m.course)
    {
      var id :| id in s.subs && IsFor(s, id, m.user, m.course) && !s.subs[id].seen;
    }
  }

  lemma SeenRowCounts(s: State, id: int)
    requires id in s.subs && s.subs[id].seen && s.subs[id].section in s.courses
    ensures HasSeen(s, s.subs[id].user, s.courses[s.subs[id].section])
  {
    assert IsFor(s, id, s.subs[id].user, s.courses[s.subs[id].section]);
  }

  lemma SentPairsAreNew(s: State, e: Event)
    requires Possible(s, e)
    ensures Next(s, e).log == s.log + Sent(s, e)
    ensures forall m :: m in Sent(s, e) ==>
              && !HasSeen(s, m.user, m.course)
              && exists id :: id in s.subs && IsFor(s, id, m.user, m.course) && !s.subs[id].seen
  {
    if e.Serve? {
      var t := MarkSiblings(s);
      DeliveredAreItems(e.order, e.outcomes);
      var sent := Delivered(e.order, e.outcomes);
      if Readable(t, e.order) {
        forall m | m in Mails(t, sent)
          ensures !HasSeen(s, m.user, m.course)
          ensures exists id :: id in s.subs && IsFor(s, id, m.user, m.course) && !s.subs[id].seen
        {
          var i :| 0 <= i < |sent| && Mails(t, sent)[i] == m;
          var id := sent[i];
          assert id in sent && id in e.order && !t.subs[id].seen;
          assert IsFor(s, id, m.user, m.course);
        }
      }
    }
  }

  lemma SeenRowStays(s: State, e: Event, id: int)
    requires Possible(s, e) && id in s.subs && s.subs[id].seen
    requires e.Remove? ==> id !in e.ids
    ensures var t := Next(s, e);
            id in t.subs && t.subs[id] == s.subs[id] && CourseOf(t, id) == CourseOf(s, id)
  {
    hide HasSeen, IsScan, IsSubscribed;
  }

  /** As long as a seen row is not removed, its user gets no further mail for the course of its section. */
  lemma {:induction false} NotMailedAgain(s0: State, run: seq<Event>, id: int)
    requires id in s0.subs && s0.subs[id].seen
    requires forall i :: 0 <= i < |run| ==> run[i].Remove? ==> id !in run[i].ids
    ensures var s := After(s0, run);
            && id in s.subs && s.subs[id] == s0.subs[id] && s.courses == s0.courses
            && s0.log <= s.log
            && (s0.subs[id].section in s0.courses ==>
                  forall k :: |s0.log| <= k < |s.log| ==>
                    s.log[k] != Mail(s0.subs[id].user, s0.courses[s0.subs[id].section]))
  {
    hide After, Next, Possible;
    PairIsSilent(s0, run, id);
    CoursesStay(s0, run);
    assert s0.subs[id].section in s0.courses ==> CourseOf(s0, id) == s0.courses[s0.subs[id].section];
  }

  lemma {:induction false} CoursesStay(s0: State, run: seq<Event>)
    ensures After(s0, run).courses == s0.courses
  {
    hide Possible, MarkSiblings, Readable;
    if |run| > 0 {
      CoursesStay(s0, run[..|run| - 1]);
    }
  }

  lemma {:induction false} PairIsSilent(s0: State, run: seq<Event>, id: int)
    requires id in s0.subs && s0.subs[id].seen
    requires forall i :: 0 <= i < |run| ==> run[i].Remove? ==> id !in run[i].ids
    ensures var s := After(s0, run);
            && id in s.subs && s.subs[id] == s0.subs[id] && CourseOf(s, id) == CourseOf(s0, id)
            && s0.log <= s.log
            && forall k :: |s0.log| <= k < |s.log| ==> s.log[k] != Mail(s0.subs[id].user, CourseOf(s0, id))
  {
    hide Next, Possible, HasSeen, CourseOf;
    if |run| > 0 {
      var n := |run| - 1;
      PairIsSilent(s0, run[..n], id);
      var s := After(s0, run[..n]);
      if Possible(s, run[n]) {
        SeenRowStays(s, run[n], id);
        SeenPairIsNotMailed(s, run[n], id);
      }
    }
  }

  lemma SeenPairIsNotMailed(s: State, e: Event, id: int)
    requires Possible(s, e) && id in s.subs && s.subs[id].seen
    ensures Mail(s.subs[id].user, CourseOf(s, id)) !in Sent(s, e)
    ensures Next(s, e).log == s.log + Sent(s, e)
  {
    hide Next, Possible, Sent;
    SentPairsAreNew(s, e);
    assert IsFor(s, id, s.subs[id].user, CourseOf(s, id));
  }

  // Two rows of one user and course that a service would both scan.
  ghost predicate TwoUnseen(s: State, i: int, j: int) {
    && i != j && i in s.subs && j in s.subs && !s.subs[i].seen && !s.subs[j].seen
    && s.subs[i].user == s.subs[j].user && CourseOf(s, i) == CourseOf(s, j)
    && !HasSeen(s, s.subs[i].user, CourseOf(s, i))
  }

  /** One service sends no two mails for the same user and course, if no two unseen rows of a pair
      without a seen row wait for it. */
  lemma OncePerService(s: State, e: Event)
    requires Possible(s, e) && forall i, j :: !TwoUnseen(s, i, j)
    ensures Distinct(Sent(s, e))
  {
    if e.Serve? {
      var t := MarkSiblings(s);
      DeliveredAreItems(e.order, e.outcomes);
      DeliveredOnce(e.order, e.outcomes);
      var sent := Delivered(e.order, e.outcomes);
      if Readable(t, e.order) {
        forall a, b | 0 <= a < b < |sent|
          ensures Mails(t, sent)[a] != Mails(t, sent)[b]
        {
          assert sent[a] in e.order && sent[b] in e.order;
          assert !TwoUnseen(s, sent[a], sent[b]);
        }
      }
    }
  }

  /** Otherwise the service that delivers everything it scans sends two of them. */
  lemma TwiceWhenTwoWait(s: State, order: seq<int>, i: int, j: int)
    requires TwoUnseen(s, i, j) && IsScan(MarkSiblings(s), order) && Readable(MarkSiblings(s), order)
    ensures var all := seq(|order|, _ => Outcome.Sent);
            Possible(s, Serve(order, all)) && !Distinct(Sent(s, Serve(order, all)))
  {
    hide HasSeen, Commits, Readable, Delivered;
    var all := seq(|order|, _ => Outcome.Sent);
    AllDelivered(order, all);
    assert i in order && j in order;
    var a :| 0 <= a < |order| && order[a] == i;
    var b :| 0 <= b < |order| && order[b] == j;
    assert Mails(MarkSiblings(s), order)[a] == Mails(MarkSiblings(s), order)[b];
  }

  // ----- the service -----

  // What is read of a row.
  predicate IsItem(s: State, id: int, item: Item)
    requires id in s.subs
  {
    && item.id == id && item.user == s.subs[id].user && item.course == CourseOf(s, id)
    && item.user in s.emails && s.emails[item.user] == Some(item.email)
  }

  // Some seen row has the same user and a section of the same course.
  ghost predicate SharesSeen(s: State, id: int)
    requires Valid(s) && id in s.subs
  {
    exists other :: other in s.subs && s.subs[other].seen && s.subs[other].user == s.subs[id].user
      && s.courses[s.subs[other].section] == s.courses[s.subs[id].section]
  }

  /** An unseen row becomes seen exactly when some seen row has the same user and a section of the same course. */
  lemma SiblingsAreOfCourse(s: State, id: int)
    requires Valid(s) && id in s.subs
    ensures MarkSiblings(s).subs[id] == s.subs[id].(seen := s.subs[id].seen || SharesSeen(s, id))
  {
    if SharesSeen(s, id) {
      var other :| other in s.subs && s.subs[other].seen && s.subs[other].user == s.subs[id].user
        && s.courses[s.subs[other].section] == s.courses[s.subs[id].section];
      assert IsFor(s, other, s.subs[id].user, CourseOf(s, id));
    }
  }

  /** A user with a seen row for one section of a course is not scanned for another section of it. */
  lemma TwoSectionsOneCourse()
    ensures var s := State(map[1 := Subscription(5, 100, true), 2 := Subscription(5, 101, false)],
                           map[100 := 10, 101 := 10], map[5 := Some("a@b.ca")], []);
            Valid(s) && MarkSiblings(s).subs[2].seen && IsScan(MarkSiblings(s), [])
  {
    var s := State(map[1 := Subscription(5, 100, true), 2 := Subscription(5, 101, false)],
                   map[100 := 10, 101 := 10], map[5 := Some("a@b.ca")], []);
    assert 1 in s.subs && s.subs[1].seen && s.courses[s.subs[1].section] == 10;
    SiblingsAreOfCourse(s, 1);
    SiblingsAreOfCourse(s, 2);
  }

  /** After a service that commits, a row is seen exactly when it was seen, shares a seen row, or was just sent. */
  lemma SeenAfterService(s: State, order: seq<int>, outcomes: seq<Outcome>, id: int)
    requires Valid(s) && Possible(s, Serve(order, outcomes)) && id in s.subs
    requires Readable(MarkSiblings(s), order) && forall i :: 0 <= i < |outcomes| ==> outcomes[i] != SentUnmarked
    ensures var sent := exists i :: 0 <= i < |order| && order[i] == id && outcomes[i] == Outcome.Sent;
            Next(s, Serve(order, outcomes)).subs[id] ==
              s.subs[id].(seen := s.subs[id].seen || SharesSeen(s, id) || sent)
  {
    hide MarkSiblings, Readable, SharesSeen, IsScan, Valid;
    var sent := Delivered(order, outcomes);
    SiblingsAreOfCourse(s, id);
    if i :| 0 <= i < |order| && order[i] == id && outcomes[i] == Outcome.Sent {
      DeliveredIs(order, outcomes, i);
      assert id in sent;
    }
    if id in sent {
      var k :| 0 <= k < |sent| && sent[k] == id;
      var i := DeliveredFrom(order, outcomes, k);
    }
  }

  lemma AllReadable(s: State, order: seq<int>)
    requires Valid(s) && IsScan(MarkSiblings(s), order)
    requires forall k :: k in s.subs && !s.subs[k].seen && !SharesSeen(s, k) ==> s.emails[s.subs[k].user].Some?
    ensures Readable(MarkSiblings(s), order)
  {
    hide HasSeen, SharesSeen, Distinct;
    forall i | 0 <= i < |order|
      ensures order[i] in s.subs && s.emails[s.subs[order[i]].user].Some?
    {
      assert order[i] in order;
      SiblingsAreOfCourse(s, order[i]);
    }
  }

  /** When every user waiting has an email and every send and mark succeeds, one service leaves no unseen row, and
      whoever had one and no seen row for the course has been mailed. */
  lemma NothingIsLeft(s: State, order: seq<int>, outcomes: seq<Outcome>, id: int)
    requires Valid(s) && Possible(s, Serve(order, outcomes)) && id in s.subs
    requires forall k :: k in s.subs && !s.subs[k].seen && !SharesSeen(s, k) ==> s.emails[s.subs[k].user].Some?
    requires forall i :: 0 <= i < |outcomes| ==> outcomes[i] == Outcome.Sent
    ensures var t := Next(s, Serve(order, outcomes));
            && t.subs[id] == s.subs[id].(seen := true)
            && (!s.subs[id].seen && !SharesSeen(s, id) ==>
                  Mail(s.subs[id].user, s.courses[s.subs[id].section]) in t.log)
  {
    hide HasSeen, SharesSeen, Commits, Readable;
    AllDelivered(order, outcomes);
    var u := MarkSiblings(s);
    SiblingsAreOfCourse(s, id);
    AllReadable(s, order);
    assert CourseOf(u, id) == s.courses[s.subs[id].section];
    if !s.subs[id].seen && !SharesSeen(s, id) {
      assert id in order;
      var i :| 0 <= i < |order| && order[i] == id;
      assert Next(s, Serve(order, outcomes)).log[|s.log| + i] == Mails(u, order)[i];
    }
  }

  /** One user waiting without an email stops the whole service. */
  lemma UnreadableStops(s: State, order: seq<int>, outcomes: seq<Outcome>, id: int)
    requires Valid(s) && Possible(s, Serve(order, outcomes)) && id in s.subs
    requires !s.subs[id].seen && !SharesSeen(s, id) && s.emails[s.subs[id].user].None?
    ensures Next(s, Serve(order, outcomes)) == s
  {
    hide HasSeen, SharesSeen;
    SiblingsAreOfCourse(s, id);
    assert id in order;
    var i :| 0 <= i < |order| && order[i] == id;
  }

  lemma MarkSiblingsKeepsValid(s: State)
    requires Valid(s)
    ensures Valid(MarkSiblings(s))
  {
    hide HasSeen;
    var t := MarkSiblings(s);
    assert forall id :: id in t.subs ==> t.subs[id].(seen := false) == s.subs[id].(seen := false);
  }

  /** Every step keeps the foreign keys and the uniqueness of (section, user). */
  lemma NextKeepsValid(s: State, e: Event)
    requires Valid(s) && Possible(s, e)
    ensures Valid(Next(s, e))
  {
    hide HasSeen, IsScan, MarkSiblings;
    var t := Next(s, e);
    if e.Serve? {
      MarkSiblingsKeepsValid(s);
      DeliveredAreItems(e.order, e.outcomes);
      var m := MarkSiblings(s);
      assert t.subs.Keys == s.subs.Keys;
      SameButSeen(s, e);
    }
  }

  lemma SameButSeen(s: State, e: Event)
    requires Possible(s, e) && e.Serve?
    ensures var t := Next(s, e);
            && t.courses == s.courses && t.emails == s.emails && t.subs.Keys == s.subs.Keys
            && forall id :: id in s.subs ==> t.subs[id].(seen := false) == s.subs[id].(seen := false)
  {
    hide HasSeen, IsScan;
  }

  class Service {
    var subs: map<int, Subscription>
    const courses: map<int, int>
    const emails: map<int, Option<string>>
    ghost var log: seq<Mail>

    ghost function Abstract(): State
      reads this
    {
      State(subs, courses, emails, log)
    }

    constructor (courses: map<int, int>, emails: map<int, Option<string>>)
      ensures Abstract() == State(map[], courses, emails, [])
    {
      this.subs := map[];
      this.courses := courses;
      this.emails := emails;
      this.log := [];
    }

    method SubscribeTo(id: int, user: int, section: int) returns (ok: bool)
      requires Possible(Abstract(), Subscribe(id, user, section))
      modifies this
      ensures Abstract() == Next(old(Abstract()), Subscribe(id, user, section))
      ensures ok <==> forall i :: i in old(subs) ==> old(subs)[i].user != user || old(subs)[i].section != section
      ensures subs == if ok then old(subs)[id := Subscription(user, section, false)] else old(subs)
    {
      ok := !exists i :: i in subs && subs[i].user == user && subs[i].section == section;
      if ok {
        subs := subs[id := Subscription(user, section, false)];
      }
    }

    method Unsubscribe(ids: set<int>)
      modifies this
      ensures Abstract() == Next(old(Abstract()), Remove(ids))
      ensures subs == old(subs) - ids && log == old(log)
    {
      subs := subs - ids;
    }

    /** Marks the rows of every user and course that already has a seen row. */
    method MarkSameCourse()
      requires Valid(Abstract())
      modifies this
      ensures Abstract() == MarkSiblings(old(Abstract()))
      ensures subs.Keys == old(subs).Keys && log == old(log)
      ensures forall id :: id in subs ==>
                subs[id] == old(subs)[id].(seen := old(subs)[id].seen || SharesSeen(old(Abstract()), id))
    {
      ghost var s := Abstract();
      forall id | id in s.subs
        ensures MarkSiblings(s).subs[id] == s.subs[id].(seen := s.subs[id].seen || SharesSeen(s, id))
      {
        SiblingsAreOfCourse(s, id);
      }
      var marked := set id | id in subs && HasSeenRow(subs[id].user, courses[subs[id].section]);
      assert forall id :: id in subs ==> (id in marked <==> HasSeen(s, subs[id].user, CourseOf(s, id)));
      subs := map id | id in subs :: if id in marked then subs[id].(seen := true) else subs[id];
    }

    /** scanSubscribed: marks the siblings of seen rows, then reads the unseen rows. */
    method ScanSubscribed(order: seq<int>) returns (items: Option<seq<Item>>)
      requires Valid(Abstract()) && IsScan(MarkSiblings(Abstract()), order)
      modifies this
      ensures Abstract() == MarkSiblings(old(Abstract()))
      ensures items.Some? <==> Readable(Abstract(), order)
      ensures items.Some? ==>
                && |items.value| == |order|
                && forall i :: 0 <= i < |order| ==>
                     && order[i] in subs && IsItem(Abstract(), order[i], items.value[i])
                     && subs[order[i]].section in courses
                     && items.value[i].course == courses[subs[order[i]].section]
    {
      hide MarkSiblings, SharesSeen;
      ghost var s := Abstract();
      MarkSiblingsKeepsValid(s);
      MarkSameCourse();
      var read: seq<Item> := [];
      for i := 0 to |order|
        invariant |read| == i
        invariant forall k :: 0 <= k < i ==> order[k] in subs && IsItem(Abstract(), order[k], read[k])
      {
        var id := order[i];
        assert id in order && id in subs;
        var email := emails[subs[id].user];
        if email.None? {
          return None;
        }
        read := read + [Item(id, subs[id].user, email.value, courses[subs[id].section])];
      }
      items := Some(read);
    }

    predicate HasSeenRow(user: int, course: int)
      requires forall id :: id in subs ==> subs[id].section in courses
      reads this
    {
      exists id :: id in subs && subs[id].user == user && courses[subs[id].section] == course && subs[id].seen
    }

    /** One service of a section_subscribed notification. */
    method ServeNotification(order: seq<int>, outcomes: seq<Outcome>)
      requires Valid(Abstract()) && Possible(Abstract(), Serve(order, outcomes))
      modifies this
      ensures Abstract() == Next(old(Abstract()), Serve(order, outcomes))
      ensures (exists i :: 0 <= i < |order| && order[i] in old(subs) && old(subs)[order[i]].user in emails
                 && emails[old(subs)[order[i]].user].None?) ==> subs == old(subs) && log == old(log)
      ensures (exists i :: 0 <= i < |outcomes| && outcomes[i] == SentUnmarked) ==> subs == old(subs)
    {
      hide IsScan, HasSeen;
      ghost var s := Abstract();
      var before := subs;
      var items := ScanSubscribed(order);
      if items.None? {
        subs := before;
        return;
      }
      var ids := seq(|items.value|, i requires 0 <= i < |items.value| => items.value[i].id);
      assert ids == order;
      var sent, marked, committed := Mailer.Process(ids, outcomes);
      DeliveredAreItems(order, outcomes);
      log := log + Mails(MarkSiblings(s), sent);
      if committed {
        subs := map id | id in subs :: if id in marked then subs[id].(seen := true) else subs[id];
        assert subs == MarkSeen(MarkSiblings(s).subs, sent);
      } else {
        subs := before;
      }
    }
  }
}
