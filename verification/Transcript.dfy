/** Transcript parser: assigns the course lines of a transcript to its term headings. */
module Transcript {
  import opened Bytes
  import opened Decimal
  import Terms

  datatype Heading = Heading(pos: nat, season: string, year: string)

  datatype CourseLine = CourseLine(pos: nat, text: string, department: string, number: string)

  datatype TermSummary = TermSummary(termId: int, level: string, courses: seq<string>)

  // Matches of \d.\d{2} in s from position i on, found left to right without overlap.
  function Credits(s: string, i: nat): nat
    requires i <= |s|
    decreases |s| - i
  {
    if i + 4 > |s| then 0
    else if IsDigit(s[i]) && s[i + 1] != '\n' && IsDigit(s[i + 2]) && IsDigit(s[i + 3]) then 1 + Credits(s, i + 4)
    else Credits(s, i + 1)
  }

  predicate IsTransferCredit(courseLine: string) {
    Credits(courseLine, 0) == 1
  }

  ghost predicate SortedHeadings(terms: seq<Heading>) {
    forall i, j :: 0 <= i < j < |terms| ==> terms[i].pos < terms[j].pos
  }

  ghost predicate SortedLines(courses: seq<CourseLine>) {
    forall i, j :: 0 <= i < j < |courses| ==> courses[i].pos < courses[j].pos
  }

  // The last of the first n headings that stands at or before p; the first heading if none does.
  function Owner(terms: seq<Heading>, n: nat, p: nat): (i: nat)
    requires n <= |terms|
    ensures n > 0 ==> i < n
    ensures i == 0 || (i < n && terms[i].pos <= p)
    ensures forall k :: i < k < n ==> terms[k].pos > p
  {
    if n <= 1 then 0
    else if terms[n - 1].pos <= p then n - 1
    else Owner(terms, n - 1, p)
  }

  function Code(c: CourseLine): string {
    Lower(c.department + c.number)
  }

  // The codes of those among the first n lines that are no transfer credit and belong to a term in [from, to).
  function Taken(terms: seq<Heading>, courses: seq<CourseLine>, n: nat, from: nat, to: nat): seq<string>
    requires n <= |courses|
  {
    if n == 0 then []
    else
      var c := courses[n - 1];
      Taken(terms, courses, n - 1, from, to) +
      if !IsTransferCredit(c.text) && from <= Owner(terms, |terms|, c.pos) < to then [Code(c)] else []
  }

  function TermId(t: Heading): Option<int> {
    Terms.TermSeasonYearToId(t.season, t.year)
  }

  lemma {:induction false} OwnerIs(terms: seq<Heading>, p: nat, i: nat)
    requires SortedHeadings(terms) && i < |terms|
    requires i == 0 || terms[i].pos <= p
    requires i + 1 < |terms| ==> p < terms[i + 1].pos
    ensures Owner(terms, |terms|, p) == i
  {
  }

  lemma {:induction false} OwnerAtLeast(terms: seq<Heading>, p: nat, i: nat)
    requires SortedHeadings(terms) && i < |terms| && terms[i].pos <= p
    ensures Owner(terms, |terms|, p) >= i
  {
  }

  lemma {:induction false} TakenTail(terms: seq<Heading>, courses: seq<CourseLine>, k: nat, n: nat, from: nat, to: nat)
    requires k <= n <= |courses|
    requires forall j :: k <= j < n ==> Owner(terms, |terms|, courses[j].pos) >= to
    ensures Taken(terms, courses, n, from, to) == Taken(terms, courses, k, from, to)
  {
    if k < n {
      TakenTail(terms, courses, k, n - 1, from, to);
    }
  }

  lemma {:induction false} TakenHead(terms: seq<Heading>, courses: seq<CourseLine>, k: nat, from: nat, to: nat)
    requires k <= |courses|
    requires forall j :: 0 <= j < k ==> Owner(terms, |terms|, courses[j].pos) < from
    ensures Taken(terms, courses, k, from, to) == []
  {
    if k > 0 {
      TakenHead(terms, courses, k - 1, from, to);
    }
  }

  /** Adds to a term the lines before the next heading; the last term takes all that remain. */
  method TakeCourses(terms: seq<Heading>, courses: seq<CourseLine>, i: nat, start: nat)
    returns (taken: seq<string>, j: nat)
    requires SortedHeadings(terms) && SortedLines(courses) && i < |terms| && start <= |courses|
    requires forall k :: 0 <= k < start ==> Owner(terms, |terms|, courses[k].pos) < i
    requires i > 0 ==> forall k :: start <= k < |courses| ==> courses[k].pos >= terms[i].pos
    ensures taken == Taken(terms, courses, |courses|, i, i + 1)
    ensures start <= j <= |courses|
    ensures forall k :: 0 <= k < j ==> Owner(terms, |terms|, courses[k].pos) < i + 1
    ensures if i + 1 < |terms| then forall k :: j <= k < |courses| ==> courses[k].pos >= terms[i + 1].pos
            else j == |courses|
  {
    hide IsTransferCredit, Code, Owner, Taken, SortedHeadings;
    TakenHead(terms, courses, start, i, i + 1);
    taken, j := [], start;
    while j < |courses| && (i == |terms| - 1 || courses[j].pos < terms[i + 1].pos)
      invariant start <= j <= |courses|
      invariant taken == Taken(terms, courses, j, i, i + 1)
      invariant forall k :: 0 <= k < j ==> Owner(terms, |terms|, courses[k].pos) < i + 1
    {
      OwnerIs(terms, courses[j].pos, i);
      TakenStep(terms, courses, j, i);
      if !IsTransferCredit(courses[j].text) {
        taken := taken + [Code(courses[j])];
      }
      j := j + 1;
    }
    LeftForLater(terms, courses, j, i);
  }

  lemma TakenStep(terms: seq<Heading>, courses: seq<CourseLine>, j: nat, i: nat)
    requires j < |courses| && Owner(terms, |terms|, courses[j].pos) == i
    ensures Taken(terms, courses, j + 1, i, i + 1) == Taken(terms, courses, j, i, i + 1) +
              if IsTransferCredit(courses[j].text) then [] else [Code(courses[j])]
  {
  }

  lemma LeftForLater(terms: seq<Heading>, courses: seq<CourseLine>, j: nat, i: nat)
    requires SortedHeadings(terms) && SortedLines(courses) && i < |terms| && j <= |courses|
    requires j < |courses| ==> i + 1 < |terms| && courses[j].pos >= terms[i + 1].pos
    ensures forall k :: j <= k < |courses| ==> i + 1 < |terms| && courses[k].pos >= terms[i + 1].pos
    ensures Taken(terms, courses, |courses|, i, i + 1) == Taken(terms, courses, j, i, i + 1)
  {
    hide Taken, Owner, SortedHeadings;
    forall k | j <= k < |courses|
      ensures courses[k].pos >= terms[i + 1].pos && Owner(terms, |terms|, courses[k].pos) >= i + 1
    {
      OwnerAtLeast(terms, courses[k].pos, i + 1);
    }
    TakenTail(terms, courses, j, |courses|, i, i + 1);
  }

  /** extractTermSummaries, given the matches of the three expressions. */
  method ExtractTermSummaries(terms: seq<Heading>, levels: seq<string>, courses: seq<CourseLine>)
    returns (r: Option<seq<TermSummary>>)
    requires SortedHeadings(terms) && SortedLines(courses)
    ensures r.None? <==> |terms| != |levels| || exists i :: 0 <= i < |terms| && TermId(terms[i]).None?
    ensures r.Some? ==>
              && |r.value| == |terms|
              && forall i :: 0 <= i < |terms| ==>
                   && TermId(terms[i]) == Some(r.value[i].termId)
                   && r.value[i].level == levels[i]
                   && r.value[i].courses == Taken(terms, courses, |courses|, i, i + 1)
  {
    hide TermId, Taken;
    if |terms| != |levels| {
      return None;
    }
    var history := seq(|terms|, _ => TermSummary(0, "", []));
    var j := 0;
    for i := 0 to |terms|
      invariant |history| == |terms| && j <= |courses|
      invariant forall k :: 0 <= k < i ==> TermId(terms[k]) == Some(history[k].termId)
      invariant forall k :: 0 <= k < i ==> history[k].level == levels[k]
      invariant forall k :: 0 <= k < i ==> history[k].courses == Taken(terms, courses, |courses|, k, k + 1)
      invariant forall k :: 0 <= k < j ==> Owner(terms, |terms|, courses[k].pos) < i
      invariant 0 < i < |terms| ==> forall k :: j <= k < |courses| ==> courses[k].pos >= terms[i].pos
    {
      var term := TermId(terms[i]);
      if term.None? {
        return None;
      }
      var taken;
      taken, j := TakeCourses(terms, courses, i, j);
      history := history[i := TermSummary(term.value, levels[i], taken)];
    }
    r := Some(history);
  }

  // ----- every course lands in exactly one term -----

  function AllTaken(courses: seq<CourseLine>, n: nat): seq<string>
    requires n <= |courses|
  {
    if n == 0 then []
    else AllTaken(courses, n - 1) + if IsTransferCredit(courses[n - 1].text) then [] else [Code(courses[n - 1])]
  }

  function Concatenated(terms: seq<Heading>, courses: seq<CourseLine>, i: nat): seq<string> {
    if i == 0 then []
    else Concatenated(terms, courses, i - 1) + Taken(terms, courses, |courses|, i - 1, i)
  }

  lemma {:induction false} OwnerMonotone(terms: seq<Heading>, p: nat, q: nat)
    requires SortedHeadings(terms) && p <= q
    ensures Owner(terms, |terms|, p) <= Owner(terms, |terms|, q)
  {
  }

  lemma {:induction false} TakenSplit(
    terms: seq<Heading>, courses: seq<CourseLine>, n: nat, from: nat, mid: nat, to: nat)
    requires SortedHeadings(terms) && SortedLines(courses) && n <= |courses| && from <= mid <= to
    ensures Taken(terms, courses, n, from, to)
         == Taken(terms, courses, n, from, mid) + Taken(terms, courses, n, mid, to)
  {
    hide IsTransferCredit, Code, Owner, SortedHeadings;
    if n > 0 {
      TakenSplit(terms, courses, n - 1, from, mid, to);
      if Owner(terms, |terms|, courses[n - 1].pos) < mid {
        forall j | 0 <= j < n - 1
          ensures Owner(terms, |terms|, courses[j].pos) < mid
        {
          OwnerMonotone(terms, courses[j].pos, courses[n - 1].pos);
        }
        TakenHead(terms, courses, n - 1, mid, to);
      }
    }
  }

  lemma {:induction false} ConcatenatedIs(terms: seq<Heading>, courses: seq<CourseLine>, i: nat)
    requires SortedHeadings(terms) && SortedLines(courses)
    ensures Concatenated(terms, courses, i) == Taken(terms, courses, |courses|, 0, i)
  {
    hide Taken;
    if i > 0 {
      ConcatenatedIs(terms, courses, i - 1);
      TakenSplit(terms, courses, |courses|, 0, i - 1, i);
    } else {
      TakenNone(terms, courses, |courses|);
    }
  }

  lemma {:induction false} TakenNone(terms: seq<Heading>, courses: seq<CourseLine>, n: nat)
    requires n <= |courses|
    ensures Taken(terms, courses, n, 0, 0) == []
  {
    if n > 0 {
      TakenNone(terms, courses, n - 1);
    }
  }

  lemma {:induction false} TakenAll(terms: seq<Heading>, courses: seq<CourseLine>, n: nat)
    requires n <= |courses| && |terms| > 0
    ensures Taken(terms, courses, n, 0, |terms|) == AllTaken(courses, n)
  {
    hide IsTransferCredit, Code;
    if n > 0 {
      TakenAll(terms, courses, n - 1);
    }
  }

  /** When there is at least one heading, the terms' courses in a row are exactly the courses that are
      no transfer credit, in text order. */
  lemma {:induction false} CoursesArePartitioned(terms: seq<Heading>, courses: seq<CourseLine>)
    requires SortedHeadings(terms) && SortedLines(courses) && |terms| > 0
    ensures Concatenated(terms, courses, |terms|) == AllTaken(courses, |courses|)
  {
    ConcatenatedIs(terms, courses, |terms|);
    TakenAll(terms, courses, |courses|);
  }

  // ----- which lines a term takes -----

  // A credit such as 0.50 stands at position i; the dot of the expression is any character.
  predicate CreditAt(s: string, i: int) {
    0 <= i && i + 4 <= |s| && IsDigit(s[i]) && s[i + 1] != '\n' && IsDigit(s[i + 2]) && IsDigit(s[i + 3])
  }

  lemma {:induction false} CreditsFrom(s: string, i: nat)
    requires i <= |s|
    ensures Credits(s, i) == 0 <==> forall j :: j >= i ==> !CreditAt(s, j)
    decreases |s| - i
  {
    if i + 4 <= |s| {
      if CreditAt(s, i) {
        CreditsFrom(s, i + 4);
      } else {
        CreditsFrom(s, i + 1);
      }
    }
  }

  // From i on, a credit stands at k and at most at the three positions after it.
  ghost predicate OnlyCredit(s: string, i: int, k: int) {
    k >= i && CreditAt(s, k) && forall j :: j >= i && CreditAt(s, j) ==> k <= j < k + 4
  }

  lemma {:induction false} OneCredit(s: string, i: nat)
    requires i <= |s|
    ensures Credits(s, i) == 1 <==> exists k :: OnlyCredit(s, i, k)
    decreases |s| - i
  {
    hide Credits;
    CreditsStep(s, i);
    if i + 4 <= |s| {
      if CreditAt(s, i) {
        CreditsFrom(s, i + 4);
        assert forall k :: OnlyCredit(s, i, k) ==> k == i;
        assert OnlyCredit(s, i, i) <==> forall j :: j >= i + 4 ==> !CreditAt(s, j);
      } else {
        var next: nat := i + 1;
        OneCredit(s, next);
        if k :| OnlyCredit(s, i, k) {
          assert OnlyCredit(s, next, k);
        }
        if k :| OnlyCredit(s, next, k) {
          assert OnlyCredit(s, i, k);
        }
      }
    } else {
      CreditsFrom(s, i);
    }
  }

  lemma CreditsStep(s: string, i: nat)
    requires i <= |s|
    ensures Credits(s, i) ==
            if i + 4 > |s| then 0 else if CreditAt(s, i) then 1 + Credits(s, i + 4) else Credits(s, i + 1)
  {
  }

  /** A line is a transfer credit exactly when it has a credit and no further one begins after its bytes. */
  lemma TransferCreditIs(line: string)
    ensures IsTransferCredit(line) <==>
            exists k :: CreditAt(line, k) && forall j :: CreditAt(line, j) ==> k <= j < k + 4
  {
    hide Credits, CreditAt;
    OneCredit(line, 0);
    forall k
      ensures OnlyCredit(line, 0, k) <==> CreditAt(line, k) && forall j :: CreditAt(line, j) ==> k <= j < k + 4
    {
      CreditsAreInside(line);
    }
  }

  lemma CreditsAreInside(line: string)
    ensures forall j :: CreditAt(line, j) ==> j >= 0
  {
  }

  // The last heading at or before p is heading i; the first heading also takes what stands before it.
  predicate StandsIn(terms: seq<Heading>, i: nat, p: nat)
    requires i < |terms|
  {
    (i == 0 || terms[i].pos <= p) && (i + 1 < |terms| ==> p < terms[i + 1].pos)
  }

  lemma {:induction false} StandsInIs(terms: seq<Heading>, i: nat, p: nat)
    requires SortedHeadings(terms) && i < |terms|
    ensures StandsIn(terms, i, p) <==> Owner(terms, |terms|, p) == i
  {
    if StandsIn(terms, i, p) {
      OwnerIs(terms, p, i);
    }
  }

  lemma {:induction false} TakenAt(terms: seq<Heading>, courses: seq<CourseLine>, n: nat, i: nat, k: nat)
    requires k < n <= |courses| && i < |terms| && SortedHeadings(terms)
    requires !IsTransferCredit(courses[k].text) && StandsIn(terms, i, courses[k].pos)
    ensures var before := |Taken(terms, courses, k, i, i + 1)|;
            && before < |Taken(terms, courses, n, i, i + 1)|
            && Taken(terms, courses, n, i, i + 1)[before] == Lower(courses[k].department + courses[k].number)
  {
    hide IsTransferCredit, StandsIn, SortedHeadings, Owner;
    if k < n - 1 {
      TakenAt(terms, courses, n - 1, i, k);
    } else {
      StandsInIs(terms, i, courses[k].pos);
    }
  }

  /** A term holds exactly the lower-case codes of the lines that stand in it and are no transfer credit. */
  lemma {:induction false} TakenAre(terms: seq<Heading>, courses: seq<CourseLine>, n: nat, i: nat, code: string)
    requires n <= |courses| && i < |terms| && SortedHeadings(terms)
    ensures code in Taken(terms, courses, n, i, i + 1) <==>
            exists k :: 0 <= k < n && !IsTransferCredit(courses[k].text) && StandsIn(terms, i, courses[k].pos)
              && code == Lower(courses[k].department + courses[k].number)
  {
    hide IsTransferCredit, StandsIn, SortedHeadings;
    if n > 0 {
      TakenAre(terms, courses, n - 1, i, code);
      StandsInIs(terms, i, courses[n - 1].pos);
    }
  }
}
