/** The loop of the mail service that all three queues share. */
module Mailer {
  import opened Collections

  // What happens to one scanned item. A message that was sent but could not be marked leaves the
  // database transaction failed, so that nothing of it is committed.
  datatype Outcome = RenderFailed | SendFailed | Sent | SentUnmarked

  predicate WasSent(o: Outcome) {
    o == Sent || o == SentUnmarked
  }

  // The items whose message was sent, in scan order.
  function Delivered<T>(items: seq<T>, outcomes: seq<Outcome>): seq<T>
    requires |items| == |outcomes|
  {
    if |items| == 0 then []
    else
      var n := |items| - 1;
      Delivered(items[..n], outcomes[..n]) + if WasSent(outcomes[n]) then [items[n]] else []
  }

  // The transaction commits when no mark failed.
  predicate Commits(outcomes: seq<Outcome>) {
    forall i :: 0 <= i < |outcomes| ==> outcomes[i] != SentUnmarked
  }

  /** process, over the scanned items and an arbitrary outcome for each of them. */
  method Process<T>(items: seq<T>, outcomes: seq<Outcome>) returns (sent: seq<T>, marked: seq<T>, committed: bool)
    requires |items| == |outcomes|
    ensures sent == Delivered(items, outcomes)
    ensures committed <==> Commits(outcomes)
    ensures committed ==> marked == sent
  {
    sent, marked, committed := [], [], true;
    for i := 0 to |items|
      invariant sent == Delivered(items[..i], outcomes[..i])
      invariant committed <==> Commits(outcomes[..i])
      invariant committed ==> marked == sent
    {
      assert items[..i + 1][..i] == items[..i] && outcomes[..i + 1][..i] == outcomes[..i];
      assert outcomes[..i + 1] == outcomes[..i] + [outcomes[i]];
      if outcomes[i] == RenderFailed {
        continue;
      }
      if outcomes[i] == SendFailed {
        continue;
      }
      sent := sent + [items[i]];
      if outcomes[i] == SentUnmarked {
        committed := false;
      } else {
        marked := marked + [items[i]];
      }
    }
    assert items[..|items|] == items && outcomes[..|items|] == outcomes;
  }

  lemma {:induction false} DeliveredAreItems<T>(items: seq<T>, outcomes: seq<Outcome>)
    requires |items| == |outcomes|
    ensures forall x :: x in Delivered(items, outcomes) ==> x in items
  {
    if |items| > 0 {
      var n := |items| - 1;
      DeliveredAreItems(items[..n], outcomes[..n]);
    }
  }

  // No item is delivered twice when none is scanned twice.
  lemma {:induction false} DeliveredOnce<T>(items: seq<T>, outcomes: seq<Outcome>)
    requires |items| == |outcomes| && Distinct(items)
    ensures Distinct(Delivered(items, outcomes))
  {
    if |items| > 0 {
      var n := |items| - 1;
      DeliveredOnce(items[..n], outcomes[..n]);
      DeliveredAreItems(items[..n], outcomes[..n]);
      var d := Delivered(items[..n], outcomes[..n]);
      forall i | 0 <= i < |d|
        ensures d[i] != items[n]
      {
        assert d[i] in items[..n];
      }
      DistinctSnoc(d, items[n]);
    }
  }

  /** When every message is sent and marked, every scanned item is delivered. */
  lemma {:induction false} AllDelivered<T>(items: seq<T>, outcomes: seq<Outcome>)
    requires |items| == |outcomes| && forall i :: 0 <= i < |outcomes| ==> outcomes[i] == Sent
    ensures Delivered(items, outcomes) == items && Commits(outcomes)
  {
    if |items| > 0 {
      var n := |items| - 1;
      AllDelivered(items[..n], outcomes[..n]);
    }
  }

  // How many of the first n items were sent
  function SentCount(outcomes: seq<Outcome>, n: nat): (k: nat)
    requires n <= |outcomes|
    ensures k <= n
  {
    if n == 0 then 0
    else SentCount(outcomes, n - 1) + if outcomes[n - 1] == Sent || outcomes[n - 1] == SentUnmarked then 1 else 0
  }

  /** An item is delivered exactly when it was sent, in the order of the scan: a failure before it or after it does
      not matter. */
  lemma {:induction false} DeliveredIs<T>(items: seq<T>, outcomes: seq<Outcome>, i: nat)
    requires |items| == |outcomes| && i < |items|
    ensures |Delivered(items, outcomes)| == SentCount(outcomes, |outcomes|)
    ensures outcomes[i] == Sent || outcomes[i] == SentUnmarked ==>
              SentCount(outcomes, i) < |Delivered(items, outcomes)|
              && Delivered(items, outcomes)[SentCount(outcomes, i)] == items[i]
  {
    var n := |items| - 1;
    DeliveredCount(items, outcomes);
    if i < n {
      DeliveredIs(items[..n], outcomes[..n], i);
      SentCountOfPrefix(outcomes, n, i);
    } else {
      DeliveredCount(items[..n], outcomes[..n]);
      SentCountOfPrefix(outcomes, n, n);
    }
  }

  lemma {:induction false} SentCountOfPrefix(outcomes: seq<Outcome>, m: nat, n: nat)
    requires n <= m <= |outcomes|
    ensures SentCount(outcomes[..m], n) == SentCount(outcomes, n)
  {
    if n > 0 {
      SentCountOfPrefix(outcomes, m, n - 1);
    }
  }

  lemma {:induction false} DeliveredCount<T>(items: seq<T>, outcomes: seq<Outcome>)
    requires |items| == |outcomes|
    ensures |Delivered(items, outcomes)| == SentCount(outcomes, |outcomes|)
  {
    if |items| > 0 {
      var n := |items| - 1;
      DeliveredCount(items[..n], outcomes[..n]);
      SentCountOfPrefix(outcomes, n, n);
    }
  }

  /** Nothing else is delivered. */
  lemma {:induction false} DeliveredFrom<T>(items: seq<T>, outcomes: seq<Outcome>, k: nat) returns (i: nat)
    requires |items| == |outcomes| && k < |Delivered(items, outcomes)|
    ensures i < |items| && items[i] == Delivered(items, outcomes)[k]
    ensures outcomes[i] == Sent || outcomes[i] == SentUnmarked
    ensures SentCount(outcomes, i) == k
  {
    var n := |items| - 1;
    DeliveredCount(items[..n], outcomes[..n]);
    SentCountOfPrefix(outcomes, n, n);
    if k < |Delivered(items[..n], outcomes[..n])| {
      i := DeliveredFrom(items[..n], outcomes[..n], k);
      SentCountOfPrefix(outcomes, n, i);
    } else {
      i := n;
    }
  }
}
