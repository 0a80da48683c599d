/** Password reset: keys issued by mail, their expiry, and the changes they authorise. Each handler and
    each service of a mail notification is one atomic step; keys, hashes and the time are step inputs. */
module PasswordReset {
  import opened Bytes
  import opened Collections
  import opened Mailer

  const KEY_LENGTH := 6
  const MIN_PASSWORD_LENGTH := 6
  // The life of a key, in seconds
  const HOUR := 3600

  // A row of secret.user_email
  datatype Account = Account(email: string, hash: string)

  // A row of queue.password_reset
  datatype ResetRow = ResetRow(key: string, expiry: int, seen: bool)

  datatype Entry =
    | Issued(user: int, key: string, at: int)
    | Changed(user: int, key: string, at: int)
    | Mailed(user: int, key: string, at: int)

  // The tables, keyed by user id, the users with an address to mail, the clock, and the log of what has been done.
  datatype State = State(
    accounts: map<int, Account>, resets: map<int, ResetRow>, mailable: set<int>, clock: int, log: seq<Entry>)

  datatype Reply = Done | BadRequest | EmailNotRegistered | InvalidResetKey | PasswordTooShort

  datatype Event =
    | SendEmail(email: string, key: string)
    | VerifyKey(key: string)
    // row is the user whose row the query for the key returns first
    | ResetPassword(key: string, password: string, hash: string, row: int)
    | Register(user: int, email: string, hash: string)
    | DeleteAccount(user: int)
    // order is the order in which the unseen rows are scanned
    | Deliver(order: seq<int>, outcomes: seq<Outcome>)

  ghost predicate HasEmail(s: State, user: int, email: string) {
    user in s.accounts && s.accounts[user].email == email
  }

  // secret.user_email has at most one row per email.
  ghost predicate UniqueEmails(s: State) {
    forall u, v, email :: HasEmail(s, u, email) && HasEmail(s, v, email) ==> u == v
  }

  predicate HoldsKey(s: State, user: int, key: string) {
    user in s.resets && s.resets[user].key == key
  }

  predicate KeyInUse(s: State, key: string) {
    exists u :: u in s.resets && HoldsKey(s, u, key)
  }

  predicate LiveKey(s: State, user: int, key: string, now: int) {
    HoldsKey(s, user, key) && s.resets[user].expiry > now
  }

  // What VerifyKey's query asks.
  predicate KeyExists(s: State, key: string, now: int) {
    exists u :: u in s.resets && LiveKey(s, u, key, now)
  }

  // ----- the steps -----

  function Issue(s: State, user: int, key: string): State {
    s.(resets := s.resets[user := ResetRow(key, s.clock + HOUR, false)],
       log := s.log + [Issued(user, key, s.clock)])
  }

  function WithoutKey(s: State, key: string): map<int, ResetRow> {
    map u | u in s.resets && s.resets[u].key != key :: s.resets[u]
  }

  function Change(s: State, user: int, key: string, hash: string): State {
    s.(accounts := if user in s.accounts then s.accounts[user := s.accounts[user].(hash := hash)] else s.accounts,
       resets := WithoutKey(s, key),
       log := s.log + [Changed(user, key, s.clock)])
  }

  // Whether a reset gets past the checks of the request itself.
  function RequestReply(key: string, password: string): Reply {
    if key == "" || password == "" then BadRequest
    else if |password| < MIN_PASSWORD_LENGTH then PasswordTooShort
    else Done
  }

  function Mails(s: State, users: seq<int>): seq<Entry>
    requires forall u :: u in users ==> u in s.resets
  {
    seq(|users|, i requires 0 <= i < |users| =>
      var user := users[i];
      assert user in users;
      Mailed(user, s.resets[user].key, s.clock))
  }

  function MarkSeen(resets: map<int, ResetRow>, users: set<int>): map<int, ResetRow> {
    map u | u in resets :: if u in users then resets[u].(seen := true) else resets[u]
  }

  ghost predicate IsScan(s: State, order: seq<int>) {
    && (forall u :: u in order <==> u in s.resets && !s.resets[u].seen)
    && forall i, j :: 0 <= i < j < |order| ==> order[i] != order[j]
  }

  // The scan fails on a user without an address.
  predicate Readable(s: State, order: seq<int>) {
    forall u :: u in order ==> u in s.mailable
  }

  // Which events can happen next.
  ghost predicate Possible(s: State, e: Event) {
    match e
    case SendEmail(email, key) => |key| == KEY_LENGTH
    case ResetPassword(key, password, hash, row) =>
      RequestReply(key, password) == Done && KeyInUse(s, key) ==> HoldsKey(s, row, key)
    case Register(user, email, hash) => user !in s.accounts && forall u :: !HasEmail(s, u, email)
    case Deliver(order, outcomes) => |order| == |outcomes| && IsScan(s, order)
    case _ => true
  }

  ghost function Next(s: State, e: Event): State
    requires Possible(s, e)
  {
    match e
    case SendEmail(email, key) =>
      if email != "" && exists u :: HasEmail(s, u, email) then
        var user :| HasEmail(s, user, email);
        Issue(s, user, key)
      else s
    case VerifyKey(key) => s
    case ResetPassword(key, password, hash, row) =>
      if RequestReply(key, password) == Done && LiveKey(s, row, key, s.clock) then Change(s, row, key, hash) else s
    case Register(user, email, hash) => s.(accounts := s.accounts[user := Account(email, hash)])
    case DeleteAccount(user) => s.(accounts := s.accounts - {user}, resets := s.resets - {user})
    case Deliver(order, outcomes) =>
      if !Readable(s, order) then s
      else
        DeliveredAreItems(order, outcomes);
        var sent := Delivered(order, outcomes);
        s.(resets := if Commits(outcomes) then MarkSeen(s.resets, set u | u in sent) else s.resets,
           log := s.log + Mails(s, sent))
  }

  // Time passes before each event; an event that cannot happen is skipped.
  datatype Timed = Timed(wait: nat, event: Event)

  ghost function After(s0: State, run: seq<Timed>): State {
    if |run| == 0 then s0
    else
      var s := After(s0, run[..|run| - 1]);
      var last := run[|run| - 1];
      var t := s.(clock := s.clock + last.wait);
      if Possible(t, last.event) then Next(t, last.event) else t
  }

  // ----- what every step keeps -----

  predicate Concerns(e: Entry, user: int) {
    !e.Mailed? && e.user == user
  }

  // The latest issue or change for a user, or -1.
  function Latest(log: seq<Entry>, user: int): (i: int)
    ensures -1 <= i < |log|
    ensures i >= 0 ==> Concerns(log[i], user)
    ensures forall k :: i < k < |log| ==> !Concerns(log[k], user)
  {
    if |log| == 0 then -1
    else if Concerns(log[|log| - 1], user) then |log| - 1
    else Latest(log[..|log| - 1], user)
  }

  // The latest entry for the user is the issue of this key, less than an hour before time at.
  predicate BackedBy(log: seq<Entry>, user: int, key: string, at: int) {
    var i := Latest(log, user);
    i >= 0 && log[i].Issued? && log[i].key == key && log[i].at <= at < log[i].at + HOUR
  }

  // A row holds the latest key issued to its user, unused, and expires an hour after its issue.
  ghost predicate RowBacked(s: State, user: int)
    requires user in s.resets
  {
    var i := Latest(s.log, user);
    && user in s.accounts
    && i >= 0 && s.log[i] == Issued(user, s.resets[user].key, s.resets[user].expiry - HOUR)
    && s.log[i].at <= s.clock
  }

  ghost predicate EntryBacked(log: seq<Entry>, j: nat)
    requires j < |log|
  {
    match log[j]
    case Issued(_, _, _) => true
    case Changed(user, key, at) => BackedBy(log[..j], user, key, at)
    case Mailed(user, key, at) =>
      var i := Latest(log[..j], user);
      i >= 0 && log[i].Issued? && log[i].key == key
  }

  ghost predicate Invariant(s: State) {
    && UniqueEmails(s)
    && (forall u :: u in s.resets ==> RowBacked(s, u))
    && forall j :: 0 <= j < |s.log| ==> EntryBacked(s.log, j)
  }

  lemma {:induction false} LatestSnoc(log: seq<Entry>, e: Entry, user: int)
    ensures Latest(log + [e], user) == if Concerns(e, user) then |log| else Latest(log, user)
  {
    assert (log + [e])[..|log|] == log;
  }

  lemma LogGrows(log: seq<Entry>, e: Entry)
    requires forall j :: 0 <= j < |log| ==> EntryBacked(log, j)
    requires EntryBacked(log + [e], |log|)
    ensures forall j :: 0 <= j < |log + [e]| ==> EntryBacked(log + [e], j)
  {
    forall j | 0 <= j < |log|
      ensures EntryBacked(log + [e], j)
    {
      assert (log + [e])[..j] == log[..j];
      assert EntryBacked(log, j);
    }
  }

  lemma IssueKeeps(s: State, user: int, key: string)
    requires Invariant(s) && user in s.accounts
    ensures Invariant(Issue(s, user, key))
  {
    hide Latest, EntryBacked;
    var e := Issued(user, key, s.clock);
    var t := Issue(s, user, key);
    assert EntryBacked(t.log, |s.log|) by {
      IssuesAreBacked(t.log, |s.log|);
    }
    LogGrows(s.log, e);
    forall u | u in t.resets
      ensures RowBacked(t, u)
    {
      LatestSnoc(s.log, e, u);
      assert u != user ==> RowBacked(s, u);
    }
    forall u, v, email | HasEmail(t, u, email) && HasEmail(t, v, email)
      ensures u == v
    {
      assert HasEmail(s, u, email) && HasEmail(s, v, email);
    }
  }

  lemma IssuesAreBacked(log: seq<Entry>, j: nat)
    requires j < |log| && log[j].Issued?
    ensures EntryBacked(log, j)
  {
  }

  lemma ChangeKeeps(s: State, user: int, key: string, hash: string)
    requires Invariant(s) && LiveKey(s, user, key, s.clock)
    ensures Invariant(Change(s, user, key, hash))
  {
    var e := Changed(user, key, s.clock);
    var t := Change(s, user, key, hash);
    assert RowBacked(s, user);
    assert t.log[..|s.log|] == s.log;
    assert EntryBacked(t.log, |s.log|);
    hide Latest, EntryBacked;
    LogGrows(s.log, e);
    forall u | u in t.resets
      ensures RowBacked(t, u)
    {
      LatestSnoc(s.log, e, u);
      assert RowBacked(s, u);
    }
    forall u, v, email | HasEmail(t, u, email) && HasEmail(t, v, email)
      ensures u == v
    {
      assert HasEmail(s, u, email) && HasEmail(s, v, email);
    }
  }

  // One mail after another: the rows do not change, the log grows.
  lemma {:induction false} MailsKeep(s: State, users: seq<int>)
    requires forall u :: u in users ==> u in s.resets
    requires Invariant(s)
    ensures Invariant(s.(log := s.log + Mails(s, users)))
  {
    var n := |users| - 1;
    if n < 0 {
      assert s.log + Mails(s, users) == s.log;
    } else {
      assert users[n] in users;
      MailsKeep(s, users[..n]);
      var t := s.(log := s.log + Mails(s, users[..n]));
      assert Mails(s, users) == Mails(s, users[..n]) + Mails(s, users)[n..];
      assert s.log + Mails(s, users) == t.log + [Mailed(users[n], t.resets[users[n]].key, t.clock)];
      MailKeeps(t, users[n]);
    }
  }

  lemma MailKeeps(s: State, user: int)
    requires user in s.resets && Invariant(s)
    ensures Invariant(s.(log := s.log + [Mailed(user, s.resets[user].key, s.clock)]))
  {
    var e := Mailed(user, s.resets[user].key, s.clock);
    var t := s.(log := s.log + [e]);
    assert RowBacked(s, user);
    assert t.log[..|s.log|] == s.log;
    assert EntryBacked(t.log, |s.log|);
    hide Latest, EntryBacked;
    LogGrows(s.log, e);
    forall u | u in t.resets
      ensures RowBacked(t, u)
    {
      LatestSnoc(s.log, e, u);
      assert RowBacked(s, u);
    }
    forall u, v, email | HasEmail(t, u, email) && HasEmail(t, v, email)
      ensures u == v
    {
      assert HasEmail(s, u, email) && HasEmail(s, v, email);
    }
  }

  // Marking rows seen, removing rows and waiting leave every remaining row backed.
  lemma FewerRowsKeep(s: State, t: State)
    requires Invariant(s) && t.log == s.log && t.clock >= s.clock
    requires forall u, email :: HasEmail(t, u, email) ==> HasEmail(s, u, email)
    requires forall u :: u in t.resets ==>
               && u in t.accounts && u in s.resets
               && t.resets[u].key == s.resets[u].key && t.resets[u].expiry == s.resets[u].expiry
    ensures Invariant(t)
  {
    hide Latest, EntryBacked;
    forall u | u in t.resets
      ensures RowBacked(t, u)
    {
      assert RowBacked(s, u);
    }
  }

  lemma RegisterKeeps(s: State, user: int, email: string, hash: string)
    requires Invariant(s) && user !in s.accounts && forall u :: !HasEmail(s, u, email)
    ensures Invariant(s.(accounts := s.accounts[user := Account(email, hash)]))
  {
    hide Latest, EntryBacked;
    var t := s.(accounts := s.accounts[user := Account(email, hash)]);
    forall u, v, m | HasEmail(t, u, m) && HasEmail(t, v, m)
      ensures u == v
    {
      assert u != user ==> HasEmail(s, u, m);
      assert v != user ==> HasEmail(s, v, m);
    }
    forall u | u in t.resets
      ensures RowBacked(t, u)
    {
      assert RowBacked(s, u);
    }
  }

  lemma NextKeeps(s: State, e: Event)
    requires Invariant(s) && Possible(s, e)
    ensures Invariant(Next(s, e))
  {
    hide Latest, EntryBacked, RowBacked, UniqueEmails, Invariant, IsScan;
    match e
    case SendEmail(email, key) =>
      if email != "" && exists u :: HasEmail(s, u, email) {
        var user :| HasEmail(s, user, email) && Next(s, e) == Issue(s, user, key);
        IssueKeeps(s, user, key);
      }
    case VerifyKey(key) =>
    case ResetPassword(key, password, hash, row) =>
      if RequestReply(key, password) == Done && LiveKey(s, row, key, s.clock) {
        ChangeKeeps(s, row, key, hash);
      }
    case Register(user, email, hash) =>
      RegisterKeeps(s, user, email, hash);
    case DeleteAccount(user) =>
      RowsHaveAccounts(s);
      FewerRowsKeep(s, Next(s, e));
    case Deliver(order, outcomes) =>
      DeliverKeeps(s, order, outcomes);
  }

  lemma RowsHaveAccounts(s: State)
    requires Invariant(s)
    ensures forall u :: u in s.resets ==> u in s.accounts
  {
    hide Latest, EntryBacked;
    assert forall u :: u in s.resets ==> RowBacked(s, u);
  }

  lemma DeliverKeeps(s: State, order: seq<int>, outcomes: seq<Outcome>)
    requires Invariant(s) && Possible(s, Deliver(order, outcomes))
    ensures Invariant(Next(s, Deliver(order, outcomes)))
  {
    hide Latest, EntryBacked, RowBacked, UniqueEmails, Invariant, Delivered, Mails, Readable;
    if !Readable(s, order) {
      return;
    }
    var sent := Delivered(order, outcomes);
    DeliveredAreItems(order, outcomes);
    var t := s.(log := s.log + Mails(s, sent));
    MailsKeep(s, sent);
    RowsHaveAccounts(s);
    FewerRowsKeep(t, Next(s, Deliver(order, outcomes)));
  }

  // The service starts without keys and without a log.
  ghost predicate Fresh(s: State) {
    UniqueEmails(s) && s.resets == map[] && s.log == []
  }

  lemma {:induction false} RunKeeps(s0: State, run: seq<Timed>)
    requires Fresh(s0)
    ensures Invariant(After(s0, run))
  {
    hide RowBacked, EntryBacked, Possible, Next;
    if |run| > 0 {
      RunKeeps(s0, run[..|run| - 1]);
      var s, last := After(s0, run[..|run| - 1]), run[|run| - 1];
      var t := s.(clock := s.clock + last.wait);
      RowsHaveAccounts(s);
      FewerRowsKeep(s, t);
      if Possible(t, last.event) {
        NextKeeps(t, last.event);
      }
    }
  }

  /** In every run, a password change for a user uses the latest key issued to that user, within its
      hour, and nothing was changed for the user since that issue. */
  lemma {:induction false} ChangesAreAuthorised(s0: State, run: seq<Timed>, j: nat)
    requires Fresh(s0) && j < |After(s0, run).log| && After(s0, run).log[j].Changed?
    ensures var log := After(s0, run).log;
            var c := log[j];
            exists i :: 0 <= i < j && log[i].Issued? && log[i].user == c.user && log[i].key == c.key
                        && log[i].at <= c.at < log[i].at + HOUR
                        && forall k :: i < k < j ==> !Concerns(log[k], c.user)
  {
    RunKeeps(s0, run);
    var log := After(s0, run).log;
    assert EntryBacked(log, j);
    var i := Latest(log[..j], log[j].user);
    assert log[..j][i] == log[i];
    assert forall k :: i < k < j ==> log[..j][k] == log[k];
  }

  /** Each issue authorises at most one change: two changes for a user have an issue in between. */
  lemma {:induction false} OneChangePerIssue(s0: State, run: seq<Timed>, j: nat, k: nat)
    requires Fresh(s0) && j < k < |After(s0, run).log|
    requires After(s0, run).log[j].Changed? && After(s0, run).log[k].Changed?
    requires After(s0, run).log[j].user == After(s0, run).log[k].user
    ensures var log := After(s0, run).log;
            exists i :: j < i < k && log[i].Issued? && log[i].user == log[k].user && log[i].key == log[k].key
  {
    ChangesAreAuthorised(s0, run, k);
    var log := After(s0, run).log;
    assert Concerns(log[j], log[k].user);
  }

  /** A reset mail always carries the latest key issued to its reader, not yet used. */
  lemma {:induction false} MailsCarryLatestKey(s0: State, run: seq<Timed>, j: nat)
    requires Fresh(s0) && j < |After(s0, run).log| && After(s0, run).log[j].Mailed?
    ensures var log := After(s0, run).log;
            exists i :: 0 <= i < j && log[i].Issued? && log[i].user == log[j].user && log[i].key == log[j].key
                        && forall k :: i < k < j ==> !Concerns(log[k], log[j].user)
  {
    RunKeeps(s0, run);
    var log := After(s0, run).log;
    assert EntryBacked(log, j);
    var i := Latest(log[..j], log[j].user);
    assert log[..j][i] == log[i];
    assert forall k :: i < k < j ==> log[..j][k] == log[k];
  }

  // ----- seen rows -----

  // The key was mailed to the user after the latest issue or change for them.
  ghost predicate MailedSince(log: seq<Entry>, user: int, key: string) {
    exists k :: Latest(log, user) < k < |log| && log[k].Mailed? && log[k].user == user && log[k].key == key
  }

  ghost predicate SeenAreMailed(s: State) {
    forall u :: u in s.resets && s.resets[u].seen ==> MailedSince(s.log, u, s.resets[u].key)
  }

  lemma {:induction false} MailedSinceGrows(log: seq<Entry>, more: seq<Entry>, user: int, key: string)
    requires MailedSince(log, user, key) && forall k :: 0 <= k < |more| ==> !Concerns(more[k], user)
    ensures MailedSince(log + more, user, key)
  {
    LatestUnconcerned(log, more, user);
    var k :| Latest(log, user) < k < |log| && log[k].Mailed? && log[k].user == user && log[k].key == key;
    assert (log + more)[k] == log[k];
  }

  lemma {:induction false} LatestUnconcerned(log: seq<Entry>, more: seq<Entry>, user: int)
    requires forall k :: 0 <= k < |more| ==> !Concerns(more[k], user)
    ensures Latest(log + more, user) == Latest(log, user)
  {
    if |more| == 0 {
      assert log + more == log;
    } else {
      var n := |more| - 1;
      LatestUnconcerned(log, more[..n], user);
      assert log + more == log + more[..n] + [more[n]];
      LatestSnoc(log + more[..n], more[n], user);
    }
  }

  lemma {:induction false} OneMoreEntry(s: State, t: State, e: Entry)
    requires SeenAreMailed(s) && t.log == s.log + [e]
    requires forall u :: u in t.resets && t.resets[u].seen ==>
             u in s.resets && t.resets[u] == s.resets[u] && !Concerns(e, u)
    ensures SeenAreMailed(t)
  {
    hide MailedSince, Latest;
    forall u | u in t.resets && t.resets[u].seen
      ensures MailedSince(t.log, u, t.resets[u].key)
    {
      MailedSinceGrows(s.log, [e], u, t.resets[u].key);
    }
  }

  lemma {:induction false} MailsAreSince(s: State, sent: seq<int>, user: int)
    requires (forall u :: u in sent ==> u in s.resets) && user in sent
    ensures MailedSince(s.log + Mails(s, sent), user, s.resets[user].key)
  {
    var mails := Mails(s, sent);
    var k :| 0 <= k < |sent| && sent[k] == user;
    LatestUnconcerned(s.log, mails, user);
    assert (s.log + mails)[|s.log| + k] == mails[k];
  }

  lemma {:induction false} DeliverKeepsSeen(s: State, order: seq<int>, outcomes: seq<Outcome>)
    requires SeenAreMailed(s) && Possible(s, Deliver(order, outcomes))
    ensures SeenAreMailed(Next(s, Deliver(order, outcomes)))
  {
    hide MailedSince, Latest, Readable;
    if Readable(s, order) {
      DeliveredAreItems(order, outcomes);
      var sent := Delivered(order, outcomes);
      var t := Next(s, Deliver(order, outcomes));
      forall u | u in t.resets && t.resets[u].seen
        ensures MailedSince(t.log, u, t.resets[u].key)
      {
        if u in sent {
          MailsAreSince(s, sent, u);
        } else {
          MailedSinceGrows(s.log, Mails(s, sent), u, s.resets[u].key);
        }
      }
    }
  }

  lemma {:induction false} NextKeepsSeen(s: State, e: Event)
    requires SeenAreMailed(s) && Possible(s, e)
    ensures SeenAreMailed(Next(s, e))
  {
    hide MailedSince, Latest, Readable, IsScan, KeyInUse;
    match e
    case SendEmail(email, key) =>
      if email != "" && exists u :: HasEmail(s, u, email) {
        var user :| HasEmail(s, user, email) && Next(s, e) == Issue(s, user, key);
        OneMoreEntry(s, Issue(s, user, key), Issued(user, key, s.clock));
      }
    case VerifyKey(key) =>
    case ResetPassword(key, password, hash, row) =>
      if RequestReply(key, password) == Done && LiveKey(s, row, key, s.clock) {
        OneMoreEntry(s, Change(s, row, key, hash), Changed(row, key, s.clock));
      }
    case Register(user, email, hash) =>
    case DeleteAccount(user) =>
    case Deliver(order, outcomes) =>
      DeliverKeepsSeen(s, order, outcomes);
  }

  /** In every run, whatever sends, marks or commits fail, a row is marked seen only if its current key has been
      mailed to its user since it was issued. */
  lemma {:induction false} SeenKeysAreMailed(s0: State, run: seq<Timed>)
    requires Fresh(s0)
    ensures SeenAreMailed(After(s0, run))
  {
    hide MailedSince, Possible, Next;
    if |run| > 0 {
      SeenKeysAreMailed(s0, run[..|run| - 1]);
      var s, last := After(s0, run[..|run| - 1]), run[|run| - 1];
      var t := s.(clock := s.clock + last.wait);
      if Possible(t, last.event) {
        NextKeepsSeen(t, last.event);
      }
    }
  }

  /** When every user waiting has an address and every send and mark succeeds, one service mails every unseen key
      and leaves no row unseen. */
  lemma NothingIsLeft(s: State, order: seq<int>, outcomes: seq<Outcome>, user: int)
    requires Possible(s, Deliver(order, outcomes)) && user in s.resets
    requires forall u :: u in s.resets && !s.resets[u].seen ==> u in s.mailable
    requires forall i :: 0 <= i < |outcomes| ==> outcomes[i] == Sent
    ensures var t := Next(s, Deliver(order, outcomes));
            && t.resets[user] == s.resets[user].(seen := true)
            && (!s.resets[user].seen ==> Mailed(user, s.resets[user].key, s.clock) in t.log)
  {
    AllDelivered(order, outcomes);
    if !s.resets[user].seen {
      assert user in order;
      var i :| 0 <= i < |order| && order[i] == user;
      assert Next(s, Deliver(order, outcomes)).log[|s.log| + i] == Mails(s, order)[i];
    }
  }

  /** One user waiting without an address stops the whole service. */
  lemma UnreadableStops(s: State, order: seq<int>, outcomes: seq<Outcome>, user: int)
    requires Possible(s, Deliver(order, outcomes))
    requires user in s.resets && !s.resets[user].seen && user !in s.mailable
    ensures Next(s, Deliver(order, outcomes)) == s
  {
    assert user in order;
  }

  // ----- whose hash an account holds -----

  // A reset request for the row gets through: a long enough password and an unexpired key.
  predicate Accepted(s: State, key: string, password: string, row: int) {
    && key != "" && |password| >= 6
    && row in s.resets && s.resets[row].key == key && s.resets[row].expiry > s.clock
  }

  // The hash of the last reset that got through for the user since their registration, or else the registered one.
  ghost function LastHash(s0: State, run: seq<Timed>, user: int): Option<string> {
    if |run| == 0 then
      if user in s0.accounts then Some(s0.accounts[user].hash) else None
    else
      var init, last := run[..|run| - 1], run[|run| - 1];
      var s := After(s0, init);
      var t := s.(clock := s.clock + last.wait);
      match last.event
      case Register(u, email, hash) =>
        if u == user && user !in t.accounts && (forall v :: v in t.accounts ==> t.accounts[v].email != email)
        then Some(hash) else LastHash(s0, init, user)
      case DeleteAccount(u) => if u == user then None else LastHash(s0, init, user)
      case ResetPassword(key, password, hash, row) =>
        if row == user && Accepted(t, key, password, row) then Some(hash) else LastHash(s0, init, user)
      case _ => LastHash(s0, init, user)
  }

  // What one event does to the account of a user.
  lemma {:induction false} AccountAfter(s: State, e: Event, user: int)
    requires Possible(s, e) && Invariant(s)
    ensures var before, after := s.accounts, Next(s, e).accounts;
            match e
            case Register(u, email, hash) =>
              if u == user then user in after && after[user] == Account(email, hash)
              else SameAccount(before, after, user)
            case DeleteAccount(u) => if u == user then user !in after else SameAccount(before, after, user)
            case ResetPassword(key, password, hash, row) =>
              if row == user && Accepted(s, key, password, row)
              then user in before && user in after && after[user] == Account(before[user].email, hash)
              else SameAccount(before, after, user)
            case _ => SameAccount(before, after, user)
  {
    hide Latest, EntryBacked, IsScan, Readable, UniqueEmails;
    RowsHaveAccounts(s);
  }

  predicate SameAccount(before: map<int, Account>, after: map<int, Account>, user: int) {
    (user in before <==> user in after) && (user in before ==> after[user] == before[user])
  }

  /** In every run the hash of an account is that of the last reset that got through for its user since their
      registration, or else the registered one; nothing else changes it. */
  lemma {:induction false} HashIsOfLastReset(s0: State, run: seq<Timed>, user: int)
    requires Fresh(s0)
    ensures var accounts := After(s0, run).accounts;
            LastHash(s0, run, user) == if user in accounts then Some(accounts[user].hash) else None
  {
    if |run| > 0 {
      var init, last := run[..|run| - 1], run[|run| - 1];
      HashIsOfLastReset(s0, init, user);
      var s := After(s0, init);
      var t := s.(clock := s.clock + last.wait);
      RunKeeps(s0, init);
      RowsHaveAccounts(s);
      FewerRowsKeep(s, t);
      hide Invariant, Next, Fresh, IsScan, Readable;
      if Possible(t, last.event) {
        AccountAfter(t, last.event, user);
      }
      PossibleWhenAccepted(t, last.event, user);
    }
  }

  lemma PossibleWhenAccepted(s: State, e: Event, user: int)
    ensures !Possible(s, e) ==>
              match e
              case Register(u, email, hash) =>
                u in s.accounts || exists v :: v in s.accounts && s.accounts[v].email == email
              case DeleteAccount(u) => false
              case ResetPassword(key, password, hash, row) => !Accepted(s, key, password, row)
              case _ => true
    ensures Possible(s, e) && e.Register? ==>
              e.user !in s.accounts && forall v :: v in s.accounts ==> s.accounts[v].email != e.email
  {
    hide IsScan, Readable;
    if e.Register? && Possible(s, e) {
      forall v | v in s.accounts
        ensures s.accounts[v].email != e.email
      {
        assert !HasEmail(s, v, e.email);
      }
    }
  }

  // ----- checking a key and using it -----

  ghost predicate DistinctKeys(s: State) {
    forall u, v :: u in s.resets && v in s.resets && s.resets[u].key == s.resets[v].key ==> u == v
  }

  // Two rows share the key, and only one of them has expired.
  ghost predicate KeyDisputed(s: State, key: string, now: int) {
    exists u, v :: LiveKey(s, u, key, now) && HoldsKey(s, v, key) && !LiveKey(s, v, key, now)
  }

  /** VerifyKey accepts a key exactly when a reset gets past its key checks, whichever row the reset's
      query returns, if and only if no two rows with that key differ in being expired. */
  lemma VerifyAgreesExactly(s: State, key: string, now: int)
    ensures (forall row :: (KeyInUse(s, key) ==> HoldsKey(s, row, key)) ==>
               (KeyExists(s, key, now) <==> LiveKey(s, row, key, now)))
            <==> !KeyDisputed(s, key, now)
  {
    if KeyDisputed(s, key, now) {
      var u, v :| LiveKey(s, u, key, now) && HoldsKey(s, v, key) && !LiveKey(s, v, key, now);
      assert KeyExists(s, key, now);
    } else {
      forall row | KeyInUse(s, key) ==> HoldsKey(s, row, key)
        ensures KeyExists(s, key, now) <==> LiveKey(s, row, key, now)
      {
        if KeyExists(s, key, now) {
          var u :| u in s.resets && LiveKey(s, u, key, now);
        }
      }
    }
  }

  /** With distinct keys the two always agree, and the row is determined by the key. */
  lemma DistinctKeysAgree(s: State, key: string, now: int, row: int)
    requires DistinctKeys(s) && (KeyInUse(s, key) ==> HoldsKey(s, row, key))
    ensures KeyExists(s, key, now) <==> LiveKey(s, row, key, now)
    ensures forall other :: HoldsKey(s, other, key) ==> other == row
  {
    if KeyExists(s, key, now) {
      var u :| u in s.resets && LiveKey(s, u, key, now);
      assert HoldsKey(s, u, key);
    }
  }

  /** A used key is gone: it is in use again only after it has been issued again. */
  lemma UsedKeyIsGone(s: State, user: int, key: string, hash: string)
    ensures !KeyInUse(Change(s, user, key, hash), key)
    ensures forall u :: u in s.resets && s.resets[u].key != key ==>
              u in Change(s, user, key, hash).resets && Change(s, user, key, hash).resets[u] == s.resets[u]
  {
  }

  // ----- the handlers -----

  class Server {
    var accounts: map<int, Account>
    var resets: map<int, ResetRow>
    var clock: int
    const mailable: set<int>
    ghost var log: seq<Entry>

    ghost function Abstract(): State
      reads this
    {
      State(accounts, resets, mailable, clock, log)
    }

    constructor (accounts: map<int, Account>, mailable: set<int>, clock: int)
      ensures Abstract() == State(accounts, map[], mailable, clock, [])
    {
      this.accounts, this.mailable := accounts, mailable;
      this.resets := map[];
      this.clock := clock;
      this.log := [];
    }

    method HandleSendEmail(email: string, key: string) returns (reply: Reply)
      requires |key| == KEY_LENGTH && UniqueEmails(Abstract())
      modifies this
      ensures Abstract() == Next(old(Abstract()), SendEmail(email, key))
      ensures reply == if email == "" then BadRequest
                       else if exists u :: HasEmail(old(Abstract()), u, email) then Done else EmailNotRegistered
      ensures accounts == old(accounts) && clock == old(clock)
      ensures reply.Done? ==> exists u ::
                && u in accounts && accounts[u].email == email
                && resets == old(resets)[u := ResetRow(key, clock + 3600, false)]
      ensures !reply.Done? ==> resets == old(resets)
    {
      ghost var s := Abstract();
      if email == "" {
        return BadRequest;
      }
      if !exists u :: u in accounts && accounts[u].email == email {
        assert forall u :: !HasEmail(s, u, email);
        return EmailNotRegistered;
      }
      var userId :| userId in accounts && accounts[userId].email == email;
      assert HasEmail(s, userId, email);
      resets := resets[userId := ResetRow(key, clock + HOUR, false)];
      log := log + [Issued(userId, key, clock)];
      return Done;
    }

    method HandleVerifyKey(key: string) returns (reply: Reply)
      ensures reply == if key == "" then BadRequest
                       else if KeyExists(Abstract(), key, clock) then Done else InvalidResetKey
      ensures reply.Done? <==>
                key != "" && exists u :: u in resets && resets[u].key == key && resets[u].expiry > clock
    {
      if key == "" {
        return BadRequest;
      }
      var keyExists := exists u :: u in resets && resets[u].key == key && resets[u].expiry > clock;
      assert keyExists <==> exists u :: u in Abstract().resets && LiveKey(Abstract(), u, key, clock);
      reply := if keyExists then Done else InvalidResetKey;
    }

    method HandleResetPassword(key: string, password: string, hash: string) returns (reply: Reply, userId: int)
      modifies this
      ensures Possible(old(Abstract()), ResetPassword(key, password, hash, userId))
      ensures Abstract() == Next(old(Abstract()), ResetPassword(key, password, hash, userId))
      ensures reply == if RequestReply(key, password) != Done then RequestReply(key, password)
                       else if LiveKey(old(Abstract()), userId, key, old(clock)) then Done else InvalidResetKey
      ensures reply.Done? ==>
                && Accepted(old(Abstract()), key, password, userId)
                && accounts == (if userId in old(accounts)
                                then old(accounts)[userId := Account(old(accounts)[userId].email, hash)]
                                else old(accounts))
                && (forall u :: u in resets <==> u in old(resets) && old(resets)[u].key != key)
                && (forall u :: u in resets ==> resets[u] == old(resets)[u])
      ensures !reply.Done? ==> accounts == old(accounts) && resets == old(resets)
      ensures clock == old(clock)
    {
      ghost var s := Abstract();
      userId := 0;
      if key == "" || password == "" {
        return BadRequest, userId;
      }
      if |password| < MIN_PASSWORD_LENGTH {
        return PasswordTooShort, userId;
      }
      if !exists u :: u in resets && resets[u].key == key {
        assert !KeyInUse(s, key);
        return InvalidResetKey, userId;
      }
      userId :| userId in resets && resets[userId].key == key;
      assert HoldsKey(s, userId, key);
      if !(resets[userId].expiry > clock) {
        return InvalidResetKey, userId;
      }
      if userId in accounts {
        accounts := accounts[userId := accounts[userId].(hash := hash)];
      }
      resets := map u | u in resets && resets[u].key != key :: resets[u];
      log := log + [Changed(userId, key, clock)];
      assert Abstract() == Change(s, userId, key, hash);
      return Done, userId;
    }

    /** One service of a password_reset notification: scan, send, mark. A scan that fails sends nothing. */
    method ServeNotification(order: seq<int>, outcomes: seq<Outcome>) returns (sent: seq<int>)
      requires |order| == |outcomes| && IsScan(Abstract(), order)
      modifies this
      ensures Abstract() == Next(old(Abstract()), Deliver(order, outcomes))
      ensures sent == if Readable(old(Abstract()), order) then Delivered(order, outcomes) else []
      ensures accounts == old(accounts) && clock == old(clock) && resets.Keys == old(resets).Keys
      ensures (exists u :: u in order && u !in mailable) ==> resets == old(resets)
      ensures (exists i :: 0 <= i < |outcomes| && outcomes[i] == SentUnmarked) ==> resets == old(resets)
      ensures (forall i :: 0 <= i < |outcomes| ==> outcomes[i] != SentUnmarked) ==>
                forall u :: u in resets ==> resets[u] == old(resets)[u].(seen := old(resets)[u].seen || u in sent)
    {
      ghost var s := Abstract();
      if exists u :: u in order && u !in mailable {
        return [];
      }
      var marked, committed;
      sent, marked, committed := Mailer.Process(order, outcomes);
      DeliveredAreItems(order, outcomes);
      if committed {
        resets := map u | u in resets :: if u in marked then resets[u].(seen := true) else resets[u];
      }
      log := log + Mails(s, sent);
    }
  }
}
