/** Schedule paste parser: assigns the room lines of a schedule to its class numbers. */
module Schedule {
  import opened Bytes
  import opened Decimal

  // One regular-expression match: where it starts, and the submatch.
  datatype Match = Match(pos: nat, val: string)

  datatype Class = Class(number: int, location: string)

  ghost predicate Sorted(ms: seq<Match>) {
    forall i, j :: 0 <= i < j < |ms| ==> ms[i].pos < ms[j].pos
  }

  // What the two expressions find in one text: a class number starts on a newline, a room does not.
  ghost predicate Extracted(classNumbers: seq<Match>, rooms: seq<Match>, length: nat) {
    && Sorted(classNumbers) && Sorted(rooms)
    && (forall i :: 0 <= i < |classNumbers| ==> classNumbers[i].pos < length)
    && (forall j :: 0 <= j < |rooms| ==> rooms[j].pos < length)
    && forall i, j :: 0 <= i < |classNumbers| && 0 <= j < |rooms| ==> classNumbers[i].pos != rooms[j].pos
  }

  // The context of a class ends where the next class number begins.
  function ContextEnd(classNumbers: seq<Match>, i: nat, length: nat): nat
    requires i < |classNumbers|
  {
    if i + 1 < |classNumbers| then classNumbers[i + 1].pos else length
  }

  // The first n rooms that stand strictly between two positions.
  function RoomsBetween(rooms: seq<Match>, n: nat, from: nat, to: nat): seq<string>
    requires n <= |rooms|
  {
    if n == 0 then []
    else RoomsBetween(rooms, n - 1, from, to) +
         if from < rooms[n - 1].pos < to then [rooms[n - 1].val] else []
  }

  function RoomsOf(classNumbers: seq<Match>, rooms: seq<Match>, length: nat, i: nat): seq<string>
    requires i < |classNumbers|
  {
    RoomsBetween(rooms, |rooms|, classNumbers[i].pos, ContextEnd(classNumbers, i, length))
  }

  // The first n strings, trimmed, each at its first occurrence.
  function Dedup(xs: seq<string>, n: nat): seq<string>
    requires n <= |xs|
  {
    if n == 0 then []
    else
      var init, last := Dedup(xs, n - 1), Trim(xs[n - 1]);
      if last in init then init else init + [last]
  }

  function LocationOf(rooms: seq<string>): string {
    Join(Dedup(rooms, |rooms|), ", ")
  }

  // ----- deduplication -----

  method Deduplicate(locs: seq<string>) returns (uniqueLocs: seq<string>)
    ensures uniqueLocs == Dedup(locs, |locs|)
  {
    hide Trim;
    var seen: set<string> := {};
    uniqueLocs := [];
    for k := 0 to |locs|
      invariant uniqueLocs == Dedup(locs, k)
      invariant forall x :: x in seen <==> x in uniqueLocs
    {
      var normalizedLoc := Trim(locs[k]);
      if normalizedLoc !in seen {
        seen := seen + {normalizedLoc};
        uniqueLocs := uniqueLocs + [normalizedLoc];
      }
    }
  }

  // Where x first occurs among the first n trimmed strings; n if it does not.
  function FirstIn(xs: seq<string>, n: nat, x: string): (k: nat)
    requires n <= |xs|
    ensures k <= n && (k < n ==> Trim(xs[k]) == x)
    ensures forall j :: 0 <= j < k ==> Trim(xs[j]) != x
  {
    if n == 0 then 0
    else
      var k := FirstIn(xs, n - 1, x);
      if k < n - 1 || Trim(xs[n - 1]) == x then k else n
  }

  /** The result holds exactly the trimmed strings, in the order of their first occurrences, and
      hence each of them once. */
  lemma {:induction false} DedupIs(xs: seq<string>, n: nat)
    requires n <= |xs|
    ensures forall x :: x in Dedup(xs, n) <==> FirstIn(xs, n, x) < n
    ensures forall i, j :: 0 <= i < j < |Dedup(xs, n)| ==>
              FirstIn(xs, n, Dedup(xs, n)[i]) < FirstIn(xs, n, Dedup(xs, n)[j])
  {
    hide Trim;
    if n > 0 {
      DedupIs(xs, n - 1);
      var init := Dedup(xs, n - 1);
      assert forall i :: 0 <= i < |init| ==> init[i] in init;
    }
  }

  // ----- assignment of rooms to classes -----

  // No room is left out at either end of the two-pointer walk.
  lemma {:induction false} RoomsTail(rooms: seq<Match>, k: nat, n: nat, from: nat, to: nat)
    requires k <= n <= |rooms|
    requires forall j :: k <= j < n ==> rooms[j].pos >= to
    ensures RoomsBetween(rooms, n, from, to) == RoomsBetween(rooms, k, from, to)
  {
    if k < n {
      RoomsTail(rooms, k, n - 1, from, to);
    }
  }

  lemma {:induction false} RoomsHead(rooms: seq<Match>, k: nat, from: nat, to: nat)
    requires k <= |rooms|
    requires forall j :: 0 <= j < k ==> rooms[j].pos <= from
    ensures RoomsBetween(rooms, k, from, to) == []
  {
    if k > 0 {
      RoomsHead(rooms, k - 1, from, to);
    }
  }

  /** Collects the rooms of one class, advancing the shared room index. */
  method CollectRooms(rooms: seq<Match>, start: nat, pos: nat, nextPos: nat)
    returns (locs: seq<string>, roomIdx: nat)
    requires Sorted(rooms) && start <= |rooms| && pos < nextPos
    requires forall j :: 0 <= j < |rooms| ==> rooms[j].pos != nextPos
    requires forall j :: 0 <= j < start ==> rooms[j].pos <= pos
    ensures locs == RoomsBetween(rooms, |rooms|, pos, nextPos)
    ensures roomIdx <= |rooms|
    ensures forall j :: 0 <= j < roomIdx ==> rooms[j].pos < nextPos
  {
    RoomsHead(rooms, start, pos, nextPos);
    locs, roomIdx := [], start;
    while roomIdx < |rooms|
      invariant start <= roomIdx <= |rooms|
      invariant locs == RoomsBetween(rooms, roomIdx, pos, nextPos)
      invariant forall j :: 0 <= j < roomIdx ==> rooms[j].pos < nextPos
    {
      var room := rooms[roomIdx];
      if room.pos > nextPos {
        break;
      }
      if room.pos > pos {
        locs := locs + [room.val];
      }
      roomIdx := roomIdx + 1;
    }
    RoomsTail(rooms, roomIdx, |rooms|, pos, nextPos);
  }

  /** Parse, given the matches of the two expressions. Fails only on a class number that is not one. */
  method Parse(classNumbers: seq<Match>, rooms: seq<Match>, length: nat) returns (r: Option<seq<Class>>)
    requires Extracted(classNumbers, rooms, length)
    ensures r.None? <==> exists i :: 0 <= i < |classNumbers| && Atoi(classNumbers[i].val).None?
    ensures r.Some? ==>
              && |r.value| == |classNumbers|
              && forall i :: 0 <= i < |classNumbers| ==>
                   && Atoi(classNumbers[i].val) == Some(r.value[i].number)
                   && r.value[i].location == LocationOf(RoomsOf(classNumbers, rooms, length, i))
  {
    hide Atoi, Dedup, Join, RoomsBetween;
    var classes: seq<Class> := [];
    var roomIdx: nat := 0;
    for i := 0 to |classNumbers|
      invariant roomIdx <= |rooms| && |classes| == i
      invariant i < |classNumbers| ==> forall j :: 0 <= j < roomIdx ==> rooms[j].pos < classNumbers[i].pos
      invariant forall k :: 0 <= k < i ==>
          && Atoi(classNumbers[k].val) == Some(classes[k].number)
          && classes[k].location == LocationOf(RoomsOf(classNumbers, rooms, length, k))
    {
      var cn := Atoi(classNumbers[i].val);
      if cn.None? {
        return None;
      }
      var nextPos := ContextEnd(classNumbers, i, length);
      var locs;
      locs, roomIdx := CollectRooms(rooms, roomIdx, classNumbers[i].pos, nextPos);
      var uniqueLocs := Deduplicate(locs);
      classes := classes + [Class(cn.value, Join(uniqueLocs, ", "))];
    }
    r := Some(classes);
  }

  // ----- every room lands in exactly one class -----

  // The rooms of the classes from i on, class by class, before deduplication.
  function RoomsFrom(classNumbers: seq<Match>, rooms: seq<Match>, length: nat, i: nat): seq<string>
    requires i <= |classNumbers|
    decreases |classNumbers| - i
  {
    if i == |classNumbers| then []
    else RoomsOf(classNumbers, rooms, length, i) + RoomsFrom(classNumbers, rooms, length, i + 1)
  }

  lemma {:induction false} RoomsSplit(rooms: seq<Match>, n: nat, from: nat, mid: nat, to: nat)
    requires Sorted(rooms) && n <= |rooms| && from <= mid <= to
    requires forall j :: 0 <= j < |rooms| ==> rooms[j].pos != mid
    ensures RoomsBetween(rooms, n, from, to) == RoomsBetween(rooms, n, from, mid) + RoomsBetween(rooms, n, mid, to)
  {
    if n > 0 {
      RoomsSplit(rooms, n - 1, from, mid, to);
      if rooms[n - 1].pos < mid {
        RoomsHead(rooms, n - 1, mid, to);
      }
    }
  }

  /** Taken class by class, the rooms are exactly the rooms after the first class number, each once
      and in text order; rooms before the first class number land in no class. */
  lemma {:induction false} RoomsArePartitioned(classNumbers: seq<Match>, rooms: seq<Match>, length: nat, i: nat)
    requires Extracted(classNumbers, rooms, length) && i < |classNumbers|
    ensures RoomsFrom(classNumbers, rooms, length, i)
         == RoomsBetween(rooms, |rooms|, classNumbers[i].pos, length)
    decreases |classNumbers| - i
  {
    hide RoomsBetween;
    if i + 1 < |classNumbers| {
      RoomsArePartitioned(classNumbers, rooms, length, i + 1);
      RoomsSplit(rooms, |rooms|, classNumbers[i].pos, classNumbers[i + 1].pos, length);
    } else {
      assert RoomsFrom(classNumbers, rooms, length, i + 1) == [];
    }
  }

  // ----- which rooms a class takes -----

  /** The rooms between two positions are exactly the rooms that start strictly between them, in text order. */
  lemma {:induction false} RoomsAre(rooms: seq<Match>, n: nat, lo: nat, hi: nat, k: nat)
    requires k < n <= |rooms|
    ensures var before, all := |RoomsBetween(rooms, k, lo, hi)|, RoomsBetween(rooms, n, lo, hi);
            if lo < rooms[k].pos < hi then before < |all| && all[before] == rooms[k].val
            else |RoomsBetween(rooms, k + 1, lo, hi)| == before
  {
    RoomsGrow(rooms, k + 1, n, lo, hi);
  }

  lemma {:induction false} RoomsGrow(rooms: seq<Match>, k: nat, n: nat, lo: nat, hi: nat)
    requires k <= n <= |rooms|
    ensures RoomsBetween(rooms, k, lo, hi) <= RoomsBetween(rooms, n, lo, hi)
    ensures |RoomsBetween(rooms, n, lo, hi)| <= |RoomsBetween(rooms, k, lo, hi)| + n - k
  {
    if k < n {
      RoomsGrow(rooms, k, n - 1, lo, hi);
    }
  }

  /** Two rooms of a class are listed once each, separated by a comma and a space, as in the source's tests. */
  lemma TwoRooms()
    ensures LocationOf(["MC 4064", "DWE 2527", "MC 4064"]) == "MC 4064, DWE 2527"
  {
    var xs := ["MC 4064", "DWE 2527", "MC 4064"];
    TrimmedRooms();
    hide Trim, Join;
    assert xs[0][0] != xs[1][0];
    assert Dedup(xs, 0) == [] && Dedup(xs, 1) == ["MC 4064"];
    assert Dedup(xs, 2) == ["MC 4064", "DWE 2527"];
    assert Dedup(xs, 3) == ["MC 4064", "DWE 2527"];
    JoinIs(["MC 4064"], ["DWE 2527"], ", ");
    JoinIs(["DWE 2527"], [], ", ");
    assert ["MC 4064"] + ["DWE 2527"] == ["MC 4064", "DWE 2527"];
    assert "MC 4064" + ", " + "DWE 2527" == "MC 4064, DWE 2527";
  }

  lemma TrimmedRooms()
    ensures Trim("MC 4064") == "MC 4064" && Trim("DWE 2527") == "DWE 2527"
  {
    var a, b := "MC 4064", "DWE 2527";
    assert SpaceAtStart(a) == 0 && SpaceAtEnd(a) == 0 && SpaceAtStart(b) == 0 && SpaceAtEnd(b) == 0;
  }
}
