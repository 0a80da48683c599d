/** parseCourseRequirements: splits "Prereq: ... Coreq: ... Antireq: ..." at its headers. */
module Requirements {
  import opened Bytes

  datatype Kind = Prereq | Coreq | Antireq

  // Panicked: a slice expression was out of bounds.
  datatype Parsed = Panicked | Parsed(prereqs: string, coreqs: string, antireqs: string)

  /** A colon at end whose word names a requirement; start is the space before that word, or 0. */
  datatype Header = Header(start: nat, end: nat)

  // Lower-casing turns no wider character into a letter of these words but U+0130 into i, and the word is
  // built from single bytes, so that it never holds that character.
  predicate NamesRequirement(word: string) {
    Contains(word, "prereq") || Contains(word, "coreq") || Contains(word, "antireq")
  }

  // The nearest space at or before i, or 0.
  function SpaceBefore(s: string, i: nat): (p: nat)
    requires i < |s|
    ensures p <= i
    ensures forall j :: p < j <= i ==> s[j] != ' '
    ensures s[p] == ' ' || p == 0
  {
    if s[i] == ' ' || i == 0 then i else SpaceBefore(s, i - 1)
  }

  // The space-delimited word up to position i.
  function WordUpTo(s: string, i: nat): string
    requires i < |s|
  {
    var p := SpaceBefore(s, i);
    if s[p] == ' ' then s[p + 1..i + 1] else s[p..i + 1]
  }

  predicate IsHeader(s: string, i: nat) {
    i < |s| && s[i] == ':' && NamesRequirement(Lower(WordUpTo(s, i)))
  }

  // The headers among the first n bytes.
  function Headers(s: string, n: nat): seq<Header>
    requires n <= |s|
  {
    if n == 0 then []
    else Headers(s, n - 1) + if IsHeader(s, n - 1) then [Header(SpaceBefore(s, n - 1), n - 1)] else []
  }

  function KindOf(text: string): Kind {
    if Contains(Lower(text), "prereq") then Prereq
    else if Contains(Lower(text), "coreq") then Coreq
    else Antireq
  }

  ghost predicate SameWord(s: string, i: nat, j: nat) {
    i <= j < |s| && forall k :: i <= k <= j ==> s[k] != ' '
  }

  ghost predicate TwoHeadersInOneWord(s: string) {
    exists i: nat, j: nat :: i < j && IsHeader(s, i) && IsHeader(s, j) && SameWord(s, i, j)
  }

  // ----- the headers, in text order -----

  lemma {:induction false} HeaderAt(s: string, n: nat, k: nat)
    requires n <= |s| && k < |Headers(s, n)|
    ensures var h := Headers(s, n)[k];
            h.end < n && IsHeader(s, h.end) && h.start == SpaceBefore(s, h.end)
  {
    hide IsHeader;
    if k < |Headers(s, n - 1)| {
      HeaderAt(s, n - 1, k);
    }
  }

  lemma {:induction false} HeadersOrdered(s: string, n: nat, j: nat, k: nat)
    requires n <= |s| && j < k < |Headers(s, n)|
    ensures Headers(s, n)[j].end < Headers(s, n)[k].end
  {
    hide IsHeader;
    if k < |Headers(s, n - 1)| {
      HeadersOrdered(s, n - 1, j, k);
    } else {
      HeaderAt(s, n - 1, j);
    }
  }

  lemma {:induction false} HeaderIndex(s: string, n: nat, i: nat) returns (k: nat)
    requires i < n <= |s| && IsHeader(s, i)
    ensures k < |Headers(s, n)| && Headers(s, n)[k].end == i
  {
    hide IsHeader;
    if i == n - 1 {
      k := |Headers(s, n - 1)|;
    } else {
      k := HeaderIndex(s, n - 1, i);
    }
  }

  // A slice between two headers is out of bounds exactly when they share a word.
  lemma {:induction false} OutOfBounds(s: string, i: nat, j: nat)
    requires i < j < |s| && s[i] == ':' && s[j] == ':'
    ensures i + 1 > SpaceBefore(s, j) <==> SameWord(s, i, j)
  {
  }

  // Where text k of the headers ends: before the next header's word, or with the text.
  function SegmentEnd(s: string, headers: seq<Header>, k: nat): nat
    requires k < |headers|
  {
    if k == |headers| - 1 then |s| else headers[k + 1].start
  }

  ghost predicate InBounds(s: string, headers: seq<Header>, n: nat)
    requires n <= |headers|
  {
    forall k :: 0 <= k < n ==> headers[k].end + 1 <= SegmentEnd(s, headers, k) <= |s|
  }

  lemma {:induction false} InBoundsExactly(s: string)
    ensures InBounds(s, Headers(s, |s|), |Headers(s, |s|)|) <==> !TwoHeadersInOneWord(s)
  {
    var headers := Headers(s, |s|);
    hide IsHeader, Headers, SameWord;
    if !InBounds(s, headers, |headers|) {
      var k :| 0 <= k < |headers| && !(headers[k].end + 1 <= SegmentEnd(s, headers, k) <= |s|);
      ClashIsOneWord(s, k);
    }
    if TwoHeadersInOneWord(s) {
      var i: nat, j: nat :| i < j && IsHeader(s, i) && IsHeader(s, j) && SameWord(s, i, j);
      var k := TwoHeadersClash(s, i, j);
    }
  }

  lemma {:induction false} ClashIsOneWord(s: string, k: nat)
    requires var headers := Headers(s, |s|);
             k < |headers| && !(headers[k].end + 1 <= SegmentEnd(s, headers, k) <= |s|)
    ensures TwoHeadersInOneWord(s)
  {
    hide IsHeader, Headers, SameWord;
    var headers := Headers(s, |s|);
    HeaderAt(s, |s|, k);
    HeaderAt(s, |s|, k + 1);
    HeadersOrdered(s, |s|, k, k + 1);
    OutOfBoundsPair(s, headers[k].end, headers[k + 1].end);
  }

  lemma TwoHeadersClash(s: string, i: nat, j: nat) returns (k: nat)
    requires i < j && IsHeader(s, i) && IsHeader(s, j) && SameWord(s, i, j)
    ensures var headers := Headers(s, |s|);
            k < |headers| && !(headers[k].end + 1 <= SegmentEnd(s, headers, k))
  {
    var headers := Headers(s, |s|);
    k := HeaderIndex(s, |s|, i);
    var l := HeaderIndex(s, |s|, j);
    hide IsHeader, Headers;
    if l < k {
      HeadersOrdered(s, |s|, l, k);
    }
    HeaderAt(s, |s|, k + 1);
    HeadersOrdered(s, |s|, k, k + 1);
    if k + 1 < l {
      HeadersOrdered(s, |s|, k + 1, l);
    }
    OutOfBoundsPair(s, i, headers[k + 1].end);
  }

  lemma {:induction false} OutOfBoundsPair(s: string, i: nat, j: nat)
    requires i < j && IsHeader(s, i) && IsHeader(s, j)
    ensures i + 1 > SpaceBefore(s, j) <==> SameWord(s, i, j)
  {
    OutOfBounds(s, i, j);
  }

  // ----- the three results -----

  function Segment(s: string, headers: seq<Header>, k: nat): string
    requires k < |headers|
  {
    var from, to := headers[k].end + 1, SegmentEnd(s, headers, k);
    if from <= to <= |s| then Trim(s[from..to]) else ""
  }

  function HeaderKind(s: string, h: Header): Kind {
    if h.start <= h.end < |s| then KindOf(s[h.start..h.end + 1]) else Antireq
  }

  // The text of the last of the first n headers of the given kind.
  function LastOf(s: string, headers: seq<Header>, n: nat, kind: Kind): string
    requires n <= |headers|
  {
    if n == 0 then ""
    else if HeaderKind(s, headers[n - 1]) == kind then Segment(s, headers, n - 1)
    else LastOf(s, headers, n - 1, kind)
  }

  lemma {:induction false} LastOfIs(s: string, headers: seq<Header>, n: nat, kind: Kind, k: nat)
    requires k < n <= |headers| && HeaderKind(s, headers[k]) == kind
    requires forall l :: k < l < n ==> HeaderKind(s, headers[l]) != kind
    ensures LastOf(s, headers, n, kind) == Segment(s, headers, k)
  {
    hide HeaderKind, Segment;
    if k < n - 1 {
      LastOfIs(s, headers, n - 1, kind, k);
    }
  }

  lemma {:induction false} LastOfNone(s: string, headers: seq<Header>, n: nat, kind: Kind)
    requires n <= |headers|
    requires forall l :: 0 <= l < n ==> HeaderKind(s, headers[l]) != kind
    ensures LastOf(s, headers, n, kind) == ""
  {
    hide HeaderKind, Segment;
    if n > 0 {
      LastOfNone(s, headers, n - 1, kind);
    }
  }

  // The kind read from the header slice is the one its word names, in the order prereq, coreq, antireq.
  lemma {:induction false} KindFromWord(s: string, i: nat)
    requires IsHeader(s, i)
    ensures var word := Lower(WordUpTo(s, i));
            HeaderKind(s, Header(SpaceBefore(s, i), i)) ==
              if Contains(word, "prereq") then Prereq else if Contains(word, "coreq") then Coreq else Antireq
    ensures HeaderKind(s, Header(SpaceBefore(s, i), i)) == Antireq ==> Contains(Lower(WordUpTo(s, i)), "antireq")
  {
    var p := SpaceBefore(s, i);
    var word, slice := WordUpTo(s, i), s[p..i + 1];
    if s[p] == ' ' {
      assert slice == [' '] + word;
      ContainsAfterSpace(word, "prereq");
      ContainsAfterSpace(word, "coreq");
    }
  }

  lemma ContainsAfterSpace(word: string, part: string)
    requires part != "" && part[0] != ' '
    ensures Contains(Lower([' '] + word), part) <==> Contains(Lower(word), part)
  {
    assert Lower([' '] + word) == [' '] + Lower(word);
    ContainsCons(' ', Lower(word), part);
  }

  lemma ContainsCons(c: char, s: string, part: string)
    requires part != "" && part[0] != c
    ensures Contains([c] + s, part) <==> Contains(s, part)
  {
    if Contains([c] + s, part) {
      var k :| 0 <= k <= |[c] + s| && OccursAt([c] + s, part, k);
      OccursAfter(c, s, part, k);
    }
    if Contains(s, part) {
      var k :| 0 <= k <= |s| && OccursAt(s, part, k);
      assert ([c] + s)[k + 1..k + 1 + |part|] == s[k..k + |part|];
      assert OccursAt([c] + s, part, k + 1);
    }
  }

  lemma OccursAfter(c: char, s: string, part: string, k: nat)
    requires part != "" && part[0] != c && OccursAt([c] + s, part, k)
    ensures k > 0 && OccursAt(s, part, k - 1)
  {
    var t := [c] + s;
    assert t[k..k + |part|][0] == t[k];
    assert s[k - 1..k - 1 + |part|] == t[k..k + |part|];
  }

  /** Each result is the trimmed text between the last header of its kind and the word of the next
      header; these stretches are disjoint and in text order. */
  lemma {:induction false} SegmentsAreDisjoint(s: string, j: nat, k: nat)
    requires !TwoHeadersInOneWord(s) && j < k < |Headers(s, |s|)|
    ensures var headers := Headers(s, |s|);
            && headers[j].end < SegmentEnd(s, headers, j) <= headers[k].start
            && headers[k].start <= headers[k].end < SegmentEnd(s, headers, k) <= |s|
    decreases k - j
  {
    hide IsHeader, Headers, TwoHeadersInOneWord;
    InBoundsExactly(s);
    HeaderAt(s, |s|, j + 1);
    HeaderAt(s, |s|, k);
    if j + 1 < k {
      SegmentsAreDisjoint(s, j + 1, k);
    }
  }

  lemma {:induction false} SpaceBeforeIs(s: string, i: nat, p: nat)
    requires p <= i < |s| && (s[p] == ' ' || p == 0)
    requires forall j :: p < j <= i ==> s[j] != ' '
    ensures SpaceBefore(s, i) == p
  {
    if i > p {
      SpaceBeforeIs(s, i - 1, p);
    }
  }

  lemma SliceCons(s: string, i: nat, j: nat)
    requires i < j <= |s|
    ensures [s[i]] + s[i + 1..j] == s[i..j]
  {
  }

  /** The walk from a colon back to the space before its word. */
  method WordBack(s: string, i: nat) returns (start: nat, word: string)
    requires i < |s|
    ensures start == SpaceBefore(s, i) && word == WordUpTo(s, i)
  {
    hide SpaceBefore;
    var curIdx: int := i;
    word := "";
    while curIdx >= 0 && s[curIdx] != ' '
      invariant -1 <= curIdx <= i
      invariant forall j :: curIdx < j <= i ==> s[j] != ' '
      invariant word == s[curIdx + 1..i + 1]
    {
      SliceCons(s, curIdx, i + 1);
      word := [s[curIdx]] + word;
      curIdx := curIdx - 1;
    }
    start := if curIdx < 0 then 0 else curIdx;
    SpaceBeforeIs(s, i, start);
  }

  /** Collects the headers: the first loop. */
  method FindHeaders(s: string) returns (startIdx: seq<nat>, endIdx: seq<nat>)
    ensures |startIdx| == |endIdx| == |Headers(s, |s|)|
    ensures forall k :: 0 <= k < |startIdx| ==> Headers(s, |s|)[k] == Header(startIdx[k], endIdx[k])
  {
    hide Contains, Lower, WordUpTo;
    startIdx, endIdx := [], [];
    for i := 0 to |s|
      invariant |startIdx| == |endIdx| == |Headers(s, i)|
      invariant forall k :: 0 <= k < |startIdx| ==> Headers(s, i)[k] == Header(startIdx[k], endIdx[k])
    {
      if s[i] == ':' {
        var start, word := WordBack(s, i);
        if NamesRequirement(Lower(word)) {
          startIdx := startIdx + [start];
          endIdx := endIdx + [i];
        }
      }
    }
  }

  method ParseCourseRequirements(requirements: Option<string>) returns (r: Parsed)
    ensures requirements.None? || requirements.value == "" ==> r == Parsed("", "", "")
    ensures requirements.Some? ==>
              var s := requirements.value;
              var headers := Headers(s, |s|);
              && (r.Panicked? <==> TwoHeadersInOneWord(s))
              && (r.Parsed? ==>
                    && r.prereqs == LastOf(s, headers, |headers|, Prereq)
                    && r.coreqs == LastOf(s, headers, |headers|, Coreq)
                    && r.antireqs == LastOf(s, headers, |headers|, Antireq))
  {
    if requirements.None? || requirements.value == "" {
      EmptyRequirements();
      return Parsed("", "", "");
    }
    var s := requirements.value;
    hide *;
    var startIdx, endIdx := FindHeaders(s);
    r := ReadSegments(s, startIdx, endIdx);
  }

  /** Cuts out the text of each header: the second loop. */
  method ReadSegments(s: string, startIdx: seq<nat>, endIdx: seq<nat>) returns (r: Parsed)
    requires |startIdx| == |endIdx| == |Headers(s, |s|)|
    requires forall k :: 0 <= k < |startIdx| ==> Headers(s, |s|)[k] == Header(startIdx[k], endIdx[k])
    ensures r.Panicked? <==> TwoHeadersInOneWord(s)
    ensures var headers := Headers(s, |s|);
            r.Parsed? ==>
              && r.prereqs == LastOf(s, headers, |headers|, Prereq)
              && r.coreqs == LastOf(s, headers, |headers|, Coreq)
              && r.antireqs == LastOf(s, headers, |headers|, Antireq)
  {
    hide Headers, IsHeader, TwoHeadersInOneWord, Contains, Trim, Lower, SegmentEnd, LastOf, InBounds;
    ghost var headers := Headers(s, |s|);
    InBoundsExactly(s);
    NothingRead(s, headers);
    var prereqs, coreqs, antireqs := "", "", "";
    for k := 0 to |startIdx|
      invariant InBounds(s, headers, k)
      invariant prereqs == LastOf(s, headers, k, Prereq)
      invariant coreqs == LastOf(s, headers, k, Coreq)
      invariant antireqs == LastOf(s, headers, k, Antireq)
    {
      var nextStartIdx := if k == |startIdx| - 1 then |s| else startIdx[k + 1];
      ReadHeader(s, k);
      var reqType := Lower(s[startIdx[k]..endIdx[k] + 1]);
      if endIdx[k] + 1 > nextStartIdx {
        return Panicked;
      }
      var req := Trim(s[endIdx[k] + 1..nextStartIdx]);
      ReadSegment(s, headers, k, nextStartIdx, Prereq);
      ReadSegment(s, headers, k, nextStartIdx, Coreq);
      ReadSegment(s, headers, k, nextStartIdx, Antireq);
      if Contains(reqType, "prereq") {
        prereqs := req;
      } else if Contains(reqType, "coreq") {
        coreqs := req;
      } else {
        antireqs := req;
      }
    }
    r := Parsed(prereqs, coreqs, antireqs);
  }

  lemma {:induction false} NothingRead(s: string, headers: seq<Header>)
    ensures InBounds(s, headers, 0)
    ensures forall kind :: LastOf(s, headers, 0, kind) == ""
  {
  }

  lemma {:induction false} ReadHeader(s: string, k: nat)
    requires k < |Headers(s, |s|)|
    ensures var headers := Headers(s, |s|);
            var next := if k == |headers| - 1 then |s| else headers[k + 1].start;
            && headers[k].start <= headers[k].end < |s| && next <= |s|
            && (headers[k].end + 1 > next ==> !InBounds(s, headers, |headers|))
            && (headers[k].end + 1 <= next ==> InBounds(s, headers, k) ==> InBounds(s, headers, k + 1))
  {
    hide Headers, IsHeader;
    var headers := Headers(s, |s|);
    HeaderAt(s, |s|, k);
    if k + 1 < |headers| {
      HeaderAt(s, |s|, k + 1);
    }
    assert InBounds(s, headers, |headers|) ==> headers[k].end + 1 <= SegmentEnd(s, headers, k);
  }

  lemma ReadSegment(s: string, headers: seq<Header>, k: nat, next: nat, kind: Kind)
    requires k < |headers| && headers[k].start <= headers[k].end < next <= |s|
    requires next == if k == |headers| - 1 then |s| else headers[k + 1].start
    ensures LastOf(s, headers, k + 1, kind) ==
            if KindOf(s[headers[k].start..headers[k].end + 1]) == kind then Trim(s[headers[k].end + 1..next])
            else LastOf(s, headers, k, kind)
  {
  }

  lemma EmptyRequirements()
    ensures Headers("", 0) == [] && !TwoHeadersInOneWord("")
  {
  }

  // ----- headers and texts, read off the input -----

  // s[p..i] is a whole space-delimited word up to a colon at i, and it names a requirement in any letter case.
  ghost predicate HeaderWord(s: string, p: nat, i: nat) {
    && p <= i < |s| && s[i] == ':'
    && (p == 0 || s[p - 1] == ' ') && (forall j :: p <= j <= i ==> s[j] != ' ')
    && var word := Lower(s[p..i + 1]);
       Contains(word, "prereq") || Contains(word, "coreq") || Contains(word, "antireq")
  }

  lemma {:induction false} WordIs(s: string, p: nat, i: nat)
    requires p <= i < |s| && (p == 0 || s[p - 1] == ' ') && forall j :: p <= j <= i ==> s[j] != ' '
    ensures WordUpTo(s, i) == s[p..i + 1] && SpaceBefore(s, i) == if p == 0 then 0 else p - 1
  {
    SpaceBeforeIs(s, i, if p == 0 then 0 else p - 1);
  }

  /** The headers are exactly the colons at the end of such a word, each starting at the space before its word. */
  lemma {:induction false} HeadersAre(s: string, p: nat, i: nat)
    ensures HeaderWord(s, p, i) ==> exists k ::
              0 <= k < |Headers(s, |s|)| && Headers(s, |s|)[k] == Header(if p == 0 then 0 else p - 1, i)
  {
    hide Contains, Lower, Headers, SpaceBefore;
    if HeaderWord(s, p, i) {
      WordIs(s, p, i);
      var k := HeaderIndex(s, |s|, i);
      HeaderAt(s, |s|, k);
    }
  }

  /** Nothing else is a header. */
  lemma HeaderHasWord(s: string, k: nat) returns (p: nat)
    requires k < |Headers(s, |s|)|
    ensures HeaderWord(s, p, Headers(s, |s|)[k].end)
    ensures Headers(s, |s|)[k].start == if p == 0 then 0 else p - 1
  {
    hide Contains, Lower, Headers;
    HeaderAt(s, |s|, k);
    var i := Headers(s, |s|)[k].end;
    var space := SpaceBefore(s, i);
    p := if s[space] == ' ' then space + 1 else 0;
    assert s[i] == ':';
    WordIs(s, p, i);
  }

  lemma {:induction false} HeaderBounds(s: string, k: nat)
    requires !TwoHeadersInOneWord(s) && k < |Headers(s, |s|)|
    ensures var headers := Headers(s, |s|);
            headers[k].end + 1 <= SegmentEnd(s, headers, k) <= |s|
    ensures var headers := Headers(s, |s|);
            Segment(s, headers, k) == Trim(s[headers[k].end + 1..SegmentEnd(s, headers, k)])
  {
    hide Headers, IsHeader, TwoHeadersInOneWord, Trim;
    InBoundsExactly(s);
  }

  /** The text of a header is what stands between its colon and the next header, without the white space around it. */
  lemma TextOfHeader(s: string, k: nat) returns (i: nat, j: nat)
    requires !TwoHeadersInOneWord(s) && k < |Headers(s, |s|)|
    ensures var headers := Headers(s, |s|);
            var end := if k + 1 < |headers| then headers[k + 1].start else |s|;
            && headers[k].end + 1 <= i <= j <= end <= |s|
            && Segment(s, headers, k) == s[i..j]
            && AllSpace(s[headers[k].end + 1..i]) && AllSpace(s[j..end])
            && SpaceAtStart(s[i..j]) == 0 && SpaceAtEnd(s[i..j]) == 0
  {
    hide Headers, IsHeader, TwoHeadersInOneWord, AllSpace, Trim, SpaceAtStart, SpaceAtEnd, Segment;
    var headers := Headers(s, |s|);
    HeaderBounds(s, k);
    var lo, hi := headers[k].end + 1, SegmentEnd(s, headers, k);
    var a, b := TrimIs(s[lo..hi]);
    i, j := lo + a, lo + b;
    Slices(s, lo, hi, a, b);
  }

  lemma Slices(s: string, lo: nat, hi: nat, a: nat, b: nat)
    requires lo <= hi <= |s| && a <= b <= hi - lo
    ensures s[lo..hi][..a] == s[lo..lo + a] && s[lo..hi][b..] == s[lo + b..hi] && s[lo..hi][a..b] == s[lo + a..lo + b]
  {
    var t := s[lo..hi];
    assert t[..a] == s[lo..lo + a];
    assert t[b..] == s[lo + b..hi];
    var u, v := t[a..b], s[lo + a..lo + b];
    assert |u| == b - a == |v|;
    forall k | 0 <= k < |u|
      ensures u[k] == v[k]
    {
      assert u[k] == t[a + k] == s[lo + a + k];
    }
  }
}
