/** Staging tables merged into live ones: an UPDATE joined on the key, then an anti-join INSERT.
    Live rows are held by their unique key, with the serial id the table gave them. */
module Upsert {
  import opened Bytes
  import opened Collections

  datatype Entry<+D> = Entry(id: int, data: D)

  datatype Staged<+K, +D> = Staged(key: K, data: D)

  // The first of the first n staged rows with key k; the update of a live row takes this one.
  function Find<K(==), D>(rows: seq<Staged<K, D>>, n: nat, k: K): (r: Option<D>)
    requires n <= |rows|
  {
    if n == 0 then None
    else
      var earlier := Find(rows, n - 1, k);
      if earlier.None? && rows[n - 1].key == k then Some(rows[n - 1].data) else earlier
  }

  predicate Hit<K(==), D>(rows: seq<Staged<K, D>>, locked: set<K>, k: K) {
    k !in locked && Find(rows, |rows|, k).Some?
  }

  function Updated<K(!new), D>(live: map<K, Entry<D>>, rows: seq<Staged<K, D>>, locked: set<K>): map<K, Entry<D>> {
    map k | k in live ::
      if Hit(rows, locked, k) then Entry(live[k].id, Find(rows, |rows|, k).value) else live[k]
  }

  function NewCount<K(==), D>(live: map<K, Entry<D>>, rows: seq<Staged<K, D>>, n: nat): nat
    requires n <= |rows|
  {
    if n == 0 then 0 else NewCount(live, rows, n - 1) + if rows[n - 1].key in live then 0 else 1
  }

  // The rows that the anti-join inserts, with the next ids of the table.
  function New<K(==), D>(live: map<K, Entry<D>>, rows: seq<Staged<K, D>>, n: nat, next: int): map<K, Entry<D>>
    requires n <= |rows|
  {
    if n == 0 then map[]
    else
      var earlier := New(live, rows, n - 1, next);
      if rows[n - 1].key in live then earlier
      else earlier[rows[n - 1].key := Entry(next + NewCount(live, rows, n - 1), rows[n - 1].data)]
  }

  // Two staged rows would both be inserted under one key: the insert breaks the unique constraint.
  ghost predicate Clash<K(!new), D(!new)>(live: map<K, Entry<D>>, rows: seq<Staged<K, D>>, n: nat) {
    exists i, j :: 0 <= i < j < n <= |rows| && rows[i].key == rows[j].key && rows[i].key !in live
  }

  ghost predicate DistinctKeys<K(!new), D(!new)>(rows: seq<Staged<K, D>>) {
    forall i, j :: 0 <= i < j < |rows| ==> rows[i].key != rows[j].key
  }

  function Merged<K(!new), D>(live: map<K, Entry<D>>, rows: seq<Staged<K, D>>, locked: set<K>, next: int)
    : map<K, Entry<D>>
  {
    Updated(live, rows, locked) + New(live, rows, |rows|, next)
  }

  // Ids are given out once.
  ghost predicate UniqueIds<K(!new), D>(live: map<K, Entry<D>>, next: int) {
    && (forall k :: k in live ==> live[k].id < next)
    && forall j, k :: j in live && k in live && live[j].id == live[k].id ==> j == k
  }

  // ----- single rows -----

  lemma {:induction false} FindIs<K, D>(rows: seq<Staged<K, D>>, n: nat, k: K)
    requires n <= |rows|
    ensures Find(rows, n, k).Some? <==> exists i :: 0 <= i < n && rows[i].key == k
    ensures Find(rows, n, k).Some? ==> exists i :: 0 <= i < n && rows[i] == Staged(k, Find(rows, n, k).value)
  {
    if n > 0 {
      FindIs(rows, n - 1, k);
      if Find(rows, n - 1, k).None? && rows[n - 1].key == k {
        assert rows[n - 1] == Staged(k, rows[n - 1].data);
      }
    }
  }

  /** Among distinct keys, each row is found under its key. */
  lemma {:induction false} FindRow<K(!new), D(!new)>(rows: seq<Staged<K, D>>, n: nat, i: nat)
    requires i < n <= |rows| && DistinctKeys(rows)
    ensures Find(rows, n, rows[i].key) == Some(rows[i].data)
  {
    if i < n - 1 {
      FindRow(rows, n - 1, i);
    } else if Find(rows, i, rows[i].key).Some? {
      FindIs(rows, i, rows[i].key);
    }
  }

  lemma {:induction false} NewIs<K(!new), D(!new)>(
    live: map<K, Entry<D>>, rows: seq<Staged<K, D>>, n: nat, next: int, k: K)
    requires n <= |rows| && !Clash(live, rows, n)
    ensures k in New(live, rows, n, next) <==> k !in live && Find(rows, n, k).Some?
    ensures k in New(live, rows, n, next) ==>
              && New(live, rows, n, next)[k].data == Find(rows, n, k).value
              && next <= New(live, rows, n, next)[k].id < next + NewCount(live, rows, n)
  {
    if n > 0 {
      NewIs(live, rows, n - 1, next, k);
      var last := rows[n - 1];
      FindIs(rows, n - 1, k);
      assert last.key == k && k !in live && Find(rows, n - 1, k).Some? ==> Clash(live, rows, n);
    }
  }

  // ----- what the merge leaves -----

  /** The merge is an override by key: a staged key reads the staged data unless its live row is locked,
      every other key reads as before, and live rows keep their ids. */
  lemma {:induction false} MergedIs<K(!new), D(!new)>(
    live: map<K, Entry<D>>, rows: seq<Staged<K, D>>, locked: set<K>, next: int, k: K)
    requires !Clash(live, rows, |rows|)
    ensures var after := Merged(live, rows, locked, next);
            var staged := Find(rows, |rows|, k);
            && (k in after <==> k in live || staged.Some?)
            && (k in after ==> after[k].data == if staged.Some? && !(k in live && k in locked) then staged.value
                                                else live[k].data)
            && (k in live ==> after[k].id == live[k].id)
            && (k in after && k !in live ==> next <= after[k].id < next + NewCount(live, rows, |rows|))
  {
    hide Find, New, NewCount, Clash;
    NewIs(live, rows, |rows|, next, k);
  }

  lemma {:induction false} NewIdsDiffer<K(!new), D(!new)>(
    live: map<K, Entry<D>>, rows: seq<Staged<K, D>>, n: nat, next: int, j: K, k: K)
    requires n <= |rows| && !Clash(live, rows, n)
    requires j in New(live, rows, n, next) && k in New(live, rows, n, next) && j != k
    ensures New(live, rows, n, next)[j].id != New(live, rows, n, next)[k].id
  {
    var last := rows[n - 1].key;
    if last in live || (last != j && last != k) {
      NewIdsDiffer(live, rows, n - 1, next, j, k);
    } else {
      NewIs(live, rows, n - 1, next, if last == j then k else j);
    }
  }

  lemma {:induction false} MergedIdsAreUnique<K(!new), D(!new)>(
    live: map<K, Entry<D>>, rows: seq<Staged<K, D>>, locked: set<K>, next: int)
    requires !Clash(live, rows, |rows|) && UniqueIds(live, next)
    ensures UniqueIds(Merged(live, rows, locked, next), next + NewCount(live, rows, |rows|))
  {
    hide Find, New, NewCount, Clash, Merged;
    var after := Merged(live, rows, locked, next);
    forall k | k in after
      ensures after[k].id < next + NewCount(live, rows, |rows|)
    {
      MergedIs(live, rows, locked, next, k);
    }
    forall j, k | j in after && k in after && after[j].id == after[k].id
      ensures j == k
    {
      MergedIdsDiffer(live, rows, locked, next, j, k);
    }
  }

  lemma MergedIdsDiffer<K(!new), D(!new)>(
    live: map<K, Entry<D>>, rows: seq<Staged<K, D>>, locked: set<K>, next: int, j: K, k: K)
    requires !Clash(live, rows, |rows|) && UniqueIds(live, next)
    requires var after := Merged(live, rows, locked, next);
             j in after && k in after && after[j].id == after[k].id
    ensures j == k
  {
    hide Find, New, NewCount, Clash;
    MergedIs(live, rows, locked, next, j);
    MergedIs(live, rows, locked, next, k);
    if j !in live && k !in live && j != k {
      NewIdsDiffer(live, rows, |rows|, next, j, k);
    }
  }

  // ----- the same batch again -----

  lemma {:induction false} NothingNew<K, D>(live: map<K, Entry<D>>, rows: seq<Staged<K, D>>, n: nat, next: int)
    requires n <= |rows|
    requires forall i :: 0 <= i < n ==> rows[i].key in live
    ensures NewCount(live, rows, n) == 0 && New(live, rows, n, next) == map[]
  {
    if n > 0 {
      NothingNew(live, rows, n - 1, next);
    }
  }

  // The live rows already read as the batch does.
  ghost predicate Holds<K(!new), D>(live: map<K, Entry<D>>, rows: seq<Staged<K, D>>, locked: set<K>) {
    forall i :: 0 <= i < |rows| ==> HoldsKey(live, rows, locked, rows[i].key)
  }

  predicate HoldsKey<K(==), D(==)>(live: map<K, Entry<D>>, rows: seq<Staged<K, D>>, locked: set<K>, k: K) {
    k in live && (k in locked || Some(live[k].data) == Find(rows, |rows|, k))
  }

  lemma MergedHolds<K(!new), D(!new)>(live: map<K, Entry<D>>, rows: seq<Staged<K, D>>, locked: set<K>, next: int)
    requires !Clash(live, rows, |rows|) && locked <= live.Keys
    ensures Holds(Merged(live, rows, locked, next), rows, locked)
  {
    hide New, NewCount, Merged, Find, Clash;
    forall i | 0 <= i < |rows|
      ensures HoldsKey(Merged(live, rows, locked, next), rows, locked, rows[i].key)
    {
      FindIs(rows, |rows|, rows[i].key);
      MergedIs(live, rows, locked, next, rows[i].key);
    }
  }

  lemma UpdatedWhenHeld<K(!new), D(!new)>(live: map<K, Entry<D>>, rows: seq<Staged<K, D>>, locked: set<K>)
    requires Holds(live, rows, locked)
    ensures Updated(live, rows, locked) == live
  {
    hide Find;
    var after := Updated(live, rows, locked);
    forall k | k in live
      ensures after[k] == live[k]
    {
      FindIs(rows, |rows|, k);
    }
    assert after == live;
  }

  /** A merge changes nothing exactly when the live rows already read as the batch does. */
  lemma {:induction false} FixedWhenHeld<K(!new), D(!new)>(
    live: map<K, Entry<D>>, rows: seq<Staged<K, D>>, locked: set<K>, next: int)
    requires !Clash(live, rows, |rows|) && locked <= live.Keys
    ensures Merged(live, rows, locked, next) == live <==> Holds(live, rows, locked)
    ensures Holds(live, rows, locked) ==> NewCount(live, rows, |rows|) == 0
  {
    hide New, NewCount, Find, Clash, Updated;
    if Merged(live, rows, locked, next) == live {
      MergedHolds(live, rows, locked, next);
    }
    if Holds(live, rows, locked) {
      UpdatedWhenHeld(live, rows, locked);
      NothingNew(live, rows, |rows|, next);
    }
  }

  /** Merging the same batch again inserts nothing and changes nothing. */
  lemma {:induction false} MergeIsIdempotent<K(!new), D(!new)>(
    live: map<K, Entry<D>>, rows: seq<Staged<K, D>>, locked: set<K>, next: int, later: int)
    requires !Clash(live, rows, |rows|) && locked <= live.Keys
    ensures var after := Merged(live, rows, locked, next);
            && !Clash(after, rows, |rows|)
            && Merged(after, rows, locked, later) == after
            && NewCount(after, rows, |rows|) == 0
  {
    hide New, NewCount, Merged, Find;
    var after := Merged(live, rows, locked, next);
    MergedHolds(live, rows, locked, next);
    assert forall i :: 0 <= i < |rows| ==> rows[i].key in after by {
      assert forall i :: 0 <= i < |rows| ==> HoldsKey(after, rows, locked, rows[i].key);
    }
    KeysKept(live, rows, locked, next);
    FixedWhenHeld(after, rows, locked, later);
  }

  lemma KeysKept<K(!new), D(!new)>(live: map<K, Entry<D>>, rows: seq<Staged<K, D>>, locked: set<K>, next: int)
    ensures live.Keys <= Merged(live, rows, locked, next).Keys
  {
    hide Find, New;
  }

  // ----- counting the rows of the batch -----

  lemma {:induction false} NewIsCounted<K(!new), D(!new)>(
    live: map<K, Entry<D>>, rows: seq<Staged<K, D>>, n: nat, next: int)
    requires n <= |rows| && !Clash(live, rows, n)
    ensures |New(live, rows, n, next)| == NewCount(live, rows, n)
  {
    if n > 0 {
      NewIsCounted(live, rows, n - 1, next);
      var k := rows[n - 1].key;
      if k !in live {
        NewIs(live, rows, n - 1, next, k);
        FindIs(rows, n - 1, k);
        ClashStep(live, rows, n - 1);
      }
    }
  }

  /** The table grows by the rows reported as inserted. */
  lemma {:induction false} MergedGrows<K(!new), D(!new)>(
    live: map<K, Entry<D>>, rows: seq<Staged<K, D>>, locked: set<K>, next: int)
    requires !Clash(live, rows, |rows|)
    ensures |Merged(live, rows, locked, next)| == |live| + NewCount(live, rows, |rows|)
  {
    hide Find, New, NewCount, Clash;
    NewIsCounted(live, rows, |rows|, next);
    var kept, anew := Updated(live, rows, locked), New(live, rows, |rows|, next);
    assert kept.Keys == live.Keys;
    forall k | k in anew
      ensures k !in live
    {
      NewIs(live, rows, |rows|, next, k);
    }
    assert (kept + anew).Keys == kept.Keys + anew.Keys;
    assert |kept| == |kept.Keys| && |anew| == |anew.Keys| && |live| == |live.Keys|;
    assert |kept + anew| == |(kept + anew).Keys|;
  }

  function StagedHits<K(==), D>(live: map<K, Entry<D>>, rows: seq<Staged<K, D>>, locked: set<K>, n: nat): nat
    requires n <= |rows|
  {
    if n == 0 then 0
    else StagedHits(live, rows, locked, n - 1) + if rows[n - 1].key in live && rows[n - 1].key !in locked then 1 else 0
  }

  function HitsUpTo<K(==), D>(live: map<K, Entry<D>>, rows: seq<Staged<K, D>>, locked: set<K>, n: nat): set<K>
    requires n <= |rows|
  {
    set k | k in live && k !in locked && Find(rows, n, k).Some?
  }

  /** With distinct keys, the rows affected by the update are counted by the staged rows that hit. */
  lemma {:induction false} HitsAreCounted<K(!new), D(!new)>(
    live: map<K, Entry<D>>, rows: seq<Staged<K, D>>, locked: set<K>, n: nat)
    requires n <= |rows| && DistinctKeys(rows)
    ensures |HitsUpTo(live, rows, locked, n)| == StagedHits(live, rows, locked, n)
  {
    if n == 0 {
      assert HitsUpTo(live, rows, locked, n) == {};
    } else {
      HitsAreCounted(live, rows, locked, n - 1);
      HitsStep(live, rows, locked, n);
    }
  }

  lemma HitsStep<K(!new), D(!new)>(live: map<K, Entry<D>>, rows: seq<Staged<K, D>>, locked: set<K>, n: nat)
    requires 0 < n <= |rows| && DistinctKeys(rows)
    ensures var k := rows[n - 1].key;
            && k !in HitsUpTo(live, rows, locked, n - 1)
            && HitsUpTo(live, rows, locked, n) ==
                 HitsUpTo(live, rows, locked, n - 1) + if k in live && k !in locked then {k} else {}
  {
    FindIs(rows, n - 1, rows[n - 1].key);
  }

  function StagedLocked<K(==), D>(live: map<K, Entry<D>>, rows: seq<Staged<K, D>>, locked: set<K>, n: nat): nat
    requires n <= |rows|
  {
    if n == 0 then 0
    else StagedLocked(live, rows, locked, n - 1) + if rows[n - 1].key in live && rows[n - 1].key in locked then 1 else 0
  }

  /** Each staged row is new, updates a row, or is held back by a locked row. */
  lemma {:induction false} CountsAddUp<K, D>(live: map<K, Entry<D>>, rows: seq<Staged<K, D>>, locked: set<K>, n: nat)
    requires n <= |rows|
    ensures NewCount(live, rows, n) + StagedHits(live, rows, locked, n) + StagedLocked(live, rows, locked, n) == n
  {
    if n > 0 {
      CountsAddUp(live, rows, locked, n - 1);
    }
  }

  // ----- the statements -----

  /** The UPDATE, then the INSERT; ok is false when the insert breaks the unique constraint. */
  method Apply<K(!new,==), D(!new)>(live: map<K, Entry<D>>, rows: seq<Staged<K, D>>, locked: set<K>, next: int)
    returns (ok: bool, after: map<K, Entry<D>>, updated: nat, inserted: nat)
    ensures ok <==> !Clash(live, rows, |rows|)
    ensures ok ==>
              && after == Merged(live, rows, locked, next)
              && updated == |HitsUpTo(live, rows, locked, |rows|)|
              && inserted == NewCount(live, rows, |rows|)
  {
    hide Find, New, NewCount, Clash, HitsUpTo;
    updated := |HitsUpTo(live, rows, locked, |rows|)|;
    after := Updated(live, rows, locked);
    inserted := 0;
    NothingInserted(live, rows, next);
    for i := 0 to |rows|
      invariant after == Updated(live, rows, locked) + New(live, rows, i, next)
      invariant inserted == NewCount(live, rows, i)
      invariant !Clash(live, rows, i)
    {
      InsertStep(live, rows, i, next);
      var k := rows[i].key;
      if k !in live {
        if k in after {
          ok := false;
          return;
        }
        PutLast(Updated(live, rows, locked), New(live, rows, i, next), k, Entry(next + inserted, rows[i].data));
        after := after[k := Entry(next + inserted, rows[i].data)];
        inserted := inserted + 1;
      }
    }
    ok := true;
  }

  lemma {:induction false} NothingInserted<K(!new), D(!new)>(live: map<K, Entry<D>>, rows: seq<Staged<K, D>>, next: int)
    ensures New(live, rows, 0, next) == map[] && NewCount(live, rows, 0) == 0 && !Clash(live, rows, 0)
  {
  }

  // One more staged row: it clashes when its key was inserted before.
  lemma InsertStep<K(!new), D(!new)>(live: map<K, Entry<D>>, rows: seq<Staged<K, D>>, i: nat, next: int)
    requires i < |rows| && !Clash(live, rows, i)
    ensures var k := rows[i].key;
            if k in live then
              && New(live, rows, i + 1, next) == New(live, rows, i, next)
              && NewCount(live, rows, i + 1) == NewCount(live, rows, i)
              && !Clash(live, rows, i + 1)
            else
              && New(live, rows, i + 1, next) ==
                   New(live, rows, i, next)[k := Entry(next + NewCount(live, rows, i), rows[i].data)]
              && NewCount(live, rows, i + 1) == NewCount(live, rows, i) + 1
              && (k in New(live, rows, i, next) <==> Clash(live, rows, i + 1))
              && (Clash(live, rows, i + 1) ==> Clash(live, rows, |rows|))
  {
    var k := rows[i].key;
    NewIs(live, rows, i, next, k);
    FindIs(rows, i, k);
    ClashStep(live, rows, i);
  }

  lemma ClashStep<K(!new), D(!new)>(live: map<K, Entry<D>>, rows: seq<Staged<K, D>>, i: nat)
    requires i < |rows| && !Clash(live, rows, i)
    ensures Clash(live, rows, i + 1) <==> rows[i].key !in live && exists j :: 0 <= j < i && rows[j].key == rows[i].key
    ensures Clash(live, rows, i + 1) ==> Clash(live, rows, |rows|)
  {
    if j :| 0 <= j < i && rows[j].key == rows[i].key && rows[i].key !in live {
      assert Clash(live, rows, i + 1);
    }
  }
}
