/** expandCourseCodes: distributes runs of course subjects over the course numbers
    that follow them, as in "PHIL/PSYCH 256" -> "PHIL256/PSYCH256". */
module CourseCodes {
  import opened Bytes

  datatype Kind = NumberMatch | SubjectMatch

  datatype Match = Match(start: nat, end: nat, kind: Kind)

  // ----- what the two regular expressions match -----

  // \b: exactly one of the two neighbours of position i is a word byte.
  predicate AtBoundary(s: string, i: nat)
    requires i <= |s|
  {
    (i > 0 && IsWord(s[i - 1])) != (i < |s| && IsWord(s[i]))
  }

  // [A-Z]{2,} and [0-9]{3}[A-Z]*
  predicate HasShape(kind: Kind, w: string) {
    match kind
    case SubjectMatch => |w| >= 2 && forall i :: 0 <= i < |w| ==> IsUpper(w[i])
    case NumberMatch =>
      |w| >= 3 && (forall i :: 0 <= i < 3 ==> IsDigit(w[i])) && forall i :: 3 <= i < |w| ==> IsUpper(w[i])
  }

  predicate IsMatch(s: string, m: Match) {
    && m.start <= m.end <= |s|
    && AtBoundary(s, m.start)
    && AtBoundary(s, m.end)
    && HasShape(m.kind, s[m.start..m.end])
  }

  // Matches in text order, with at least one byte between any two of them.
  predicate Separated(ms: seq<Match>) {
    && (forall j :: 0 <= j < |ms| ==> ms[j].start < ms[j].end)
    && forall j, k :: 0 <= j < k < |ms| ==> ms[j].end < ms[k].start
  }

  function WordEnd(s: string, i: nat): (e: nat)
    requires i <= |s|
    ensures i <= e <= |s|
    ensures forall j :: i <= j < e ==> IsWord(s[j])
    ensures e == |s| || !IsWord(s[e])
    decreases |s| - i
  {
    if i < |s| && IsWord(s[i]) then WordEnd(s, i + 1) else i
  }

  // The match that the word [i, e) is, if any.
  function WordMatches(s: string, i: nat, e: nat): seq<Match>
    requires i <= e <= |s|
  {
    if HasShape(SubjectMatch, s[i..e]) then [Match(i, e, SubjectMatch)]
    else if HasShape(NumberMatch, s[i..e]) then [Match(i, e, NumberMatch)]
    else []
  }

  // The matches of either expression from position i on, in one left-to-right scan over words.
  function ScanFrom(s: string, i: nat): seq<Match>
    requires i <= |s|
    decreases |s| - i
  {
    if i == |s| then []
    else if !IsWord(s[i]) then ScanFrom(s, i + 1)
    else
      var e := WordEnd(s, i + 1);
      WordMatches(s, i, e) + ScanFrom(s, e)
  }

  function Tokens(s: string): seq<Match> {
    ScanFrom(s, 0)
  }

  // The matches of one kind among the first n.
  function OfKind(ms: seq<Match>, n: nat, kind: Kind): (r: seq<Match>)
    requires n <= |ms|
    ensures |r| <= n
  {
    if n == 0 then []
    else OfKind(ms, n - 1, kind) + if ms[n - 1].kind == kind then [ms[n - 1]] else []
  }

  // FindAllStringIndex(input, -1) of the expression for the given kind
  function FindAll(s: string, kind: Kind): seq<Match> {
    OfKind(Tokens(s), |Tokens(s)|, kind)
  }

  lemma MatchIsWord(s: string, m: Match)
    requires IsMatch(s, m)
    ensures m.start < m.end <= |s|
    ensures forall j :: m.start <= j < m.end ==> IsWord(s[j])
    ensures m.start == 0 || !IsWord(s[m.start - 1])
    ensures m.end == |s| || !IsWord(s[m.end])
    ensures IsUpper(s[m.start]) <==> m.kind == SubjectMatch
  {
    var w := s[m.start..m.end];
    forall j | m.start <= j < m.end
      ensures IsWord(s[j])
    {
      assert s[j] == w[j - m.start];
    }
    assert s[m.start] == w[0];
  }

  // Inside the word [i, e), the only possible match is the whole word.
  lemma MatchInWord(s: string, i: nat, e: nat, m: Match)
    requires i < e <= |s|
    requires forall j :: i <= j < e ==> IsWord(s[j])
    requires i == 0 || !IsWord(s[i - 1])
    requires e == |s| || !IsWord(s[e])
    ensures IsMatch(s, m) && i <= m.start < e ==> m.start == i && m.end == e
  {
    if IsMatch(s, m) && i <= m.start < e {
      MatchIsWord(s, m);
    }
  }

  lemma WordMatchesSound(s: string, i: nat, e: nat)
    requires i < e <= |s|
    requires IsWord(s[i]) && IsWord(s[e - 1])
    requires i == 0 || !IsWord(s[i - 1])
    requires e == |s| || !IsWord(s[e])
    ensures |WordMatches(s, i, e)| <= 1
    ensures forall m :: m in WordMatches(s, i, e) ==> IsMatch(s, m) && m.start == i && m.end == e
  {
  }

  lemma {:induction false} ScanSound(s: string, i: nat)
    requires i <= |s|
    requires 0 < i < |s| ==> !(IsWord(s[i - 1]) && IsWord(s[i]))
    ensures Separated(ScanFrom(s, i))
    ensures forall m :: m in ScanFrom(s, i) ==> IsMatch(s, m) && i <= m.start
    decreases |s| - i
  {
    if i == |s| {
    } else if !IsWord(s[i]) {
      ScanSound(s, i + 1);
    } else {
      var e := WordEnd(s, i + 1);
      ScanSound(s, e);
      WordMatchesSound(s, i, e);
      var rest := ScanFrom(s, e);
      forall m | m in rest
        ensures e < m.start < m.end
      {
        MatchIsWord(s, m);
      }
      SeparatedAppend(WordMatches(s, i, e), rest, e);
    }
  }

  lemma SeparatedAppend(a: seq<Match>, b: seq<Match>, e: nat)
    requires |a| <= 1 && Separated(b)
    requires forall m :: m in a ==> m.start < m.end <= e
    requires forall m :: m in b ==> e < m.start
    ensures Separated(a + b)
  {
    assert forall j :: 0 <= j < |b| ==> b[j] in b;
  }

  lemma {:induction false} ScanComplete(s: string, i: nat, m: Match)
    requires i <= |s|
    requires 0 < i < |s| ==> !(IsWord(s[i - 1]) && IsWord(s[i]))
    requires IsMatch(s, m) && i <= m.start
    ensures m in ScanFrom(s, i)
    decreases |s| - i
  {
    MatchIsWord(s, m);
    if !IsWord(s[i]) {
      ScanComplete(s, i + 1, m);
    } else {
      var e := WordEnd(s, i + 1);
      MatchInWord(s, i, e, m);
      if e <= m.start {
        ScanComplete(s, e, m);
      } else {
        assert s[i..e][0] == s[i];
      }
    }
  }

  lemma {:induction false} OfKindPrefix(ms: seq<Match>, k: nat, n: nat, kind: Kind)
    requires k <= n <= |ms|
    ensures OfKind(ms, k, kind) <= OfKind(ms, n, kind)
  {
    if k < n {
      OfKindPrefix(ms, k, n - 1, kind);
    }
  }

  lemma {:induction false} OfKindMembers(ms: seq<Match>, n: nat, kind: Kind)
    requires n <= |ms|
    ensures forall m :: m in OfKind(ms, n, kind) <==> m in ms[..n] && m.kind == kind
  {
    if n > 0 {
      OfKindMembers(ms, n - 1, kind);
      assert ms[..n] == ms[..n - 1] + [ms[n - 1]];
    }
  }

  lemma SeparatedSnoc(ms: seq<Match>, last: Match)
    requires Separated(ms) && last.start < last.end
    requires forall m :: m in ms ==> m.end < last.start
    ensures Separated(ms + [last])
  {
  }

  lemma {:induction false} OfKindSeparated(ms: seq<Match>, n: nat, kind: Kind)
    requires n <= |ms| && Separated(ms)
    ensures Separated(OfKind(ms, n, kind))
  {
    if n > 0 {
      OfKindSeparated(ms, n - 1, kind);
      OfKindMembers(ms, n - 1, kind);
      if ms[n - 1].kind == kind {
        forall m | m in ms[..n - 1]
          ensures m.end < ms[n - 1].start
        {
        }
        SeparatedSnoc(OfKind(ms, n - 1, kind), ms[n - 1]);
      } else {
        assert OfKind(ms, n, kind) == OfKind(ms, n - 1, kind);
      }
    }
  }

  // FindAll lists exactly the matches of its expression, in text order.
  lemma FindAllExact(s: string, kind: Kind)
    ensures Separated(FindAll(s, kind))
    ensures forall m :: m in FindAll(s, kind) <==> IsMatch(s, m) && m.kind == kind
  {
    var tokens := Tokens(s);
    ScanSound(s, 0);
    OfKindSeparated(tokens, |tokens|, kind);
    OfKindMembers(tokens, |tokens|, kind);
    assert tokens[..|tokens|] == tokens;
    forall m | IsMatch(s, m)
      ensures m in tokens
    {
      ScanComplete(s, 0, m);
    }
  }

  // ----- merging the two match lists -----

  // One past the last number among the first n matches.
  function AfterLastNumber(ms: seq<Match>, n: nat): (k: nat)
    requires n <= |ms|
    ensures k <= n
  {
    if n == 0 then 0
    else if ms[n - 1].kind == NumberMatch then n
    else AfterLastNumber(ms, n - 1)
  }

  function Merged(tokens: seq<Match>): seq<Match> {
    var n := |tokens|;
    if OfKind(tokens, n, SubjectMatch) == [] || OfKind(tokens, n, NumberMatch) == [] then []
    else tokens[..AfterLastNumber(tokens, n)]
  }

  lemma {:induction false} AfterLastNumberIs(ms: seq<Match>, k: nat, n: nat)
    requires 0 < k <= n <= |ms|
    requires OfKind(ms, k, NumberMatch) == OfKind(ms, n, NumberMatch)
    requires ms[k - 1].kind == NumberMatch
    ensures k == AfterLastNumber(ms, n)
  {
    if k < n {
      OfKindPrefix(ms, k, n - 1, NumberMatch);
      AfterLastNumberIs(ms, k, n - 1);
    }
  }

  // An element of the filtered list that is not among the first k matches comes after them.
  lemma {:induction false} OfKindAt(ms: seq<Match>, k: nat, n: nat, kind: Kind, i: nat) returns (j: nat)
    requires k <= n <= |ms|
    requires |OfKind(ms, k, kind)| <= i < |OfKind(ms, n, kind)|
    ensures k <= j < n && ms[j] == OfKind(ms, n, kind)[i] && ms[j].kind == kind
  {
    if i < |OfKind(ms, n - 1, kind)| {
      OfKindPrefix(ms, n - 1, n, kind);
      if k == n {
        assert false;
      }
      j := OfKindAt(ms, k, n - 1, kind, i);
    } else {
      j := n - 1;
    }
  }

  // The two match lists have been consumed up to token k.
  ghost predicate Consumed(tokens: seq<Match>, k: nat, sidx: nat, nidx: nat) {
    && k <= |tokens|
    && sidx == |OfKind(tokens, k, SubjectMatch)| <= |OfKind(tokens, |tokens|, SubjectMatch)|
    && nidx == |OfKind(tokens, k, NumberMatch)| <= |OfKind(tokens, |tokens|, NumberMatch)|
  }

  lemma {:induction false} ConsumedNothing(tokens: seq<Match>)
    ensures Consumed(tokens, 0, 0, 0)
    ensures OfKind(tokens, |tokens|, SubjectMatch) == [] || OfKind(tokens, |tokens|, NumberMatch) == []
            ==> Merged(tokens) == []
  {
  }

  lemma ConsumeOwn(tokens: seq<Match>, k: nat, kind: Kind)
    requires k < |tokens| && tokens[k].kind == kind
    ensures var i, all := |OfKind(tokens, k, kind)|, OfKind(tokens, |tokens|, kind);
            i < |all| && all[i] == tokens[k] && |OfKind(tokens, k + 1, kind)| == i + 1
  {
    OfKindPrefix(tokens, k + 1, |tokens|, kind);
  }

  lemma ConsumeOther(tokens: seq<Match>, k: nat, kind: Kind)
    requires Separated(tokens) && k < |tokens| && tokens[k].kind != kind
    ensures var i, all := |OfKind(tokens, k, kind)|, OfKind(tokens, |tokens|, kind);
            && |OfKind(tokens, k + 1, kind)| == i
            && (i < |all| ==> tokens[k].end < all[i].start < all[i].end)
  {
    if |OfKind(tokens, k, kind)| < |OfKind(tokens, |tokens|, kind)| {
      var j := OfKindAt(tokens, k, |tokens|, kind, |OfKind(tokens, k, kind)|);
    }
  }

  lemma {:induction false} ConsumedAll(tokens: seq<Match>, k: nat, sidx: nat, nidx: nat)
    requires Consumed(tokens, k, sidx, nidx)
    ensures k == |tokens| <==>
            sidx == |OfKind(tokens, |tokens|, SubjectMatch)| && nidx == |OfKind(tokens, |tokens|, NumberMatch)|
  {
    if k < |tokens| {
      ConsumeOwn(tokens, k, tokens[k].kind);
    }
  }

  // The comparisons of the two inner loops always tell which list holds the next token.
  lemma {:induction false} MergeStep(
    tokens: seq<Match>, subjects: seq<Match>, numbers: seq<Match>, k: nat, sidx: nat, nidx: nat)
    requires Separated(tokens) && Consumed(tokens, k, sidx, nidx)
    requires subjects == OfKind(tokens, |tokens|, SubjectMatch) && numbers == OfKind(tokens, |tokens|, NumberMatch)
    ensures k == |tokens| <==> sidx == |subjects| && nidx == |numbers|
    ensures k < |tokens| && tokens[k].kind == SubjectMatch ==>
              && sidx < |subjects| && subjects[sidx] == tokens[k] && Consumed(tokens, k + 1, sidx + 1, nidx)
              && tokens[k].start < tokens[k].end
              && (nidx < |numbers| ==> subjects[sidx].end < numbers[nidx].start < numbers[nidx].end)
    ensures k < |tokens| && tokens[k].kind == NumberMatch ==>
              && nidx < |numbers| && numbers[nidx] == tokens[k] && Consumed(tokens, k + 1, sidx, nidx + 1)
              && tokens[k].start < tokens[k].end
              && (sidx < |subjects| ==> numbers[nidx].end < subjects[sidx].start < subjects[sidx].end)
  {
    hide OfKind;
    ConsumedAll(tokens, k, sidx, nidx);
    if k < |tokens| {
      if tokens[k].kind == SubjectMatch {
        ConsumeOwn(tokens, k, SubjectMatch);
        ConsumeOther(tokens, k, NumberMatch);
      } else {
        ConsumeOwn(tokens, k, NumberMatch);
        ConsumeOther(tokens, k, SubjectMatch);
      }
    }
  }

  lemma {:induction false} MergeDone(tokens: seq<Match>, k: nat, sidx: nat)
    requires OfKind(tokens, |tokens|, SubjectMatch) != []
    requires Consumed(tokens, k, sidx, |OfKind(tokens, |tokens|, NumberMatch)|)
    requires k > 0 && tokens[k - 1].kind == NumberMatch
    ensures tokens[..k] == Merged(tokens)
  {
    OfKindPrefix(tokens, k, |tokens|, NumberMatch);
    AfterLastNumberIs(tokens, k, |tokens|);
  }

  /** The nested two-pointer loop over the two match lists. */
  method MergeMatches(subjects: seq<Match>, numbers: seq<Match>, ghost tokens: seq<Match>)
    returns (matches: seq<Match>)
    requires Separated(tokens)
    requires subjects == OfKind(tokens, |tokens|, SubjectMatch)
    requires numbers == OfKind(tokens, |tokens|, NumberMatch)
    ensures matches == Merged(tokens)
  {
    hide OfKind, Separated, Merged;
    matches := [];
    var sidx, nidx := 0, 0;
    var slen, nlen := |subjects|, |numbers|;
    ghost var k := 0;
    ConsumedNothing(tokens);
    assert slen == 0 || nlen == 0 ==> subjects == [] || numbers == [];
    while sidx < slen && nidx < nlen
      invariant Consumed(tokens, k, sidx, nidx) && matches == tokens[..k]
      invariant slen == 0 || nlen == 0 ==> matches == []
      invariant slen > 0 && nlen > 0 && (sidx == slen || nidx == nlen) ==>
          nidx == nlen && k > 0 && tokens[k - 1].kind == NumberMatch
      decreases slen + nlen - sidx - nidx
    {
      ghost var k0 := k;
      MergeStep(tokens, subjects, numbers, k, sidx, nidx);
      while sidx < slen && subjects[sidx].end < numbers[nidx].start
        invariant k0 <= k && Consumed(tokens, k, sidx, nidx) && matches == tokens[..k]
        invariant nidx < nlen
        invariant k == k0 ==> tokens[k].kind == SubjectMatch || numbers[nidx].end < subjects[sidx].start
      {
        MergeStep(tokens, subjects, numbers, k, sidx, nidx);
        assert tokens[k] == subjects[sidx];
        assert tokens[..k + 1] == tokens[..k] + [tokens[k]];
        matches := matches + [Match(subjects[sidx].start, subjects[sidx].end, SubjectMatch)];
        sidx, k := sidx + 1, k + 1;
      }
      MergeStep(tokens, subjects, numbers, k, sidx, nidx);
      while nidx < nlen && (sidx >= slen || numbers[nidx].end < subjects[sidx].start)
        invariant k0 <= k && Consumed(tokens, k, sidx, nidx) && matches == tokens[..k]
        invariant nidx == nlen ==> k > 0 && tokens[k - 1].kind == NumberMatch
        invariant k == k0 ==> nidx < nlen && (sidx >= slen || numbers[nidx].end < subjects[sidx].start)
      {
        MergeStep(tokens, subjects, numbers, k, sidx, nidx);
        assert tokens[k] == numbers[nidx];
        assert tokens[..k + 1] == tokens[..k] + [tokens[k]];
        matches := matches + [Match(numbers[nidx].start, numbers[nidx].end, NumberMatch)];
        nidx, k := nidx + 1, k + 1;
      }
    }
    if slen > 0 && nlen > 0 {
      MergeDone(tokens, k, sidx);
    }
  }

  // ----- rewriting -----

  /** input[start..end] is replaced by the codes, joined by slashes. */
  datatype Edit = Edit(start: nat, end: nat, codes: seq<string>)

  ghost predicate InText(s: string, ms: seq<Match>) {
    Separated(ms) && forall j :: 0 <= j < |ms| ==> ms[j].end <= |s|
  }

  function Text(s: string, m: Match): string {
    if m.start <= m.end <= |s| then s[m.start..m.end] else ""
  }

  // Start of the run of subjects that ends just before position k.
  function RunStart(ms: seq<Match>, k: nat): (r: nat)
    requires k <= |ms|
    ensures r <= k
  {
    if k > 0 && ms[k - 1].kind == SubjectMatch then RunStart(ms, k - 1) else k
  }

  // One past the nearest subject before position k.
  function RunEnd(ms: seq<Match>, k: nat): (r: nat)
    requires k <= |ms|
    ensures r <= k
  {
    if k == 0 || ms[k - 1].kind == SubjectMatch then k else RunEnd(ms, k - 1)
  }

  // The nearest run of subjects before position k.
  function Subjects(s: string, ms: seq<Match>, k: nat): seq<string>
    requires k <= |ms|
  {
    var e := RunEnd(ms, k);
    var r := RunStart(ms, e);
    seq(e - r, i requires 0 <= i < e - r => Text(s, ms[r + i]))
  }

  function CodesOf(subjects: seq<string>, number: string): (r: seq<string>)
    ensures |r| == |subjects|
  {
    seq(|subjects|, i requires 0 <= i < |subjects| => subjects[i] + number)
  }

  function LowerAll(codes: seq<string>): (r: seq<string>)
    ensures |r| == |codes|
  {
    seq(|codes|, i requires 0 <= i < |codes| => Lower(codes[i]))
  }

  // The replacement made for the number at position k: it also swallows a run of
  // subjects that stands directly before the number.
  function EditAt(s: string, ms: seq<Match>, k: nat): Edit
    requires k < |ms|
  {
    Edit(ms[RunStart(ms, k)].start, ms[k].end, CodesOf(Subjects(s, ms, k), Text(s, ms[k])))
  }

  function Edits(s: string, ms: seq<Match>, n: nat): seq<Edit>
    requires n <= |ms|
  {
    if n == 0 then []
    else Edits(s, ms, n - 1) + if ms[n - 1].kind == NumberMatch then [EditAt(s, ms, n - 1)] else []
  }

  function EditedUpTo(edits: seq<Edit>): nat {
    if |edits| == 0 then 0 else edits[|edits| - 1].end
  }

  ghost predicate ValidEdits(s: string, edits: seq<Edit>) {
    && (forall i :: 0 <= i < |edits| ==> edits[i].start <= edits[i].end <= |s|)
    && forall i, j :: 0 <= i < j < |edits| ==> edits[i].end <= edits[j].start
  }

  // The text up to the end of the last edit, after the edits.
  function Spliced(s: string, edits: seq<Edit>): string {
    if |edits| == 0 then ""
    else
      var init, last := edits[..|edits| - 1], edits[|edits| - 1];
      Spliced(s, init) + Between(s, EditedUpTo(init), last.start) + Join(last.codes, "/")
  }

  function Between(s: string, i: nat, j: nat): string {
    if i <= j <= |s| then s[i..j] else ""
  }

  function ApplyEdits(s: string, edits: seq<Edit>): string {
    Spliced(s, edits) + Between(s, EditedUpTo(edits), |s|)
  }

  function WrittenCodes(edits: seq<Edit>): seq<string> {
    if |edits| == 0 then []
    else WrittenCodes(edits[..|edits| - 1]) + LowerAll(edits[|edits| - 1].codes)
  }

  // What expandCourseCodes computes: the edited text and the codes written into it.
  function Expanded(s: string): (string, seq<string>) {
    var ms := Merged(Tokens(s));
    var edits := Edits(s, ms, |ms|);
    (ApplyEdits(s, edits), WrittenCodes(edits))
  }

  // The text written once k matches have been read.
  function WrittenAfter(s: string, ms: seq<Match>, k: nat): string
    requires k <= |ms|
  {
    var edits := Edits(s, ms, k);
    Spliced(s, edits) +
    if RunStart(ms, k) < k then Between(s, EditedUpTo(edits), ms[RunStart(ms, k)].start) else ""
  }

  lemma {:induction false} EditsPastRun(s: string, ms: seq<Match>, k: nat)
    requires k <= |ms|
    ensures Edits(s, ms, k) == Edits(s, ms, RunStart(ms, k))
  {
    if RunStart(ms, k) < k {
      EditsPastRun(s, ms, k - 1);
    }
  }

  lemma EditBefore(s: string, ms: seq<Match>, k: nat)
    requires InText(s, ms) && k < |ms|
    ensures var r := RunStart(ms, k);
            EditedUpTo(Edits(s, ms, k)) == if r == 0 then 0 else ms[r - 1].end
    ensures EditedUpTo(Edits(s, ms, k)) <= ms[RunStart(ms, k)].start <= ms[k].start <= ms[k].end <= |s|
  {
    EditsPastRun(s, ms, k);
    RunStartIs(ms, k);
  }

  lemma {:induction false} RunStartIs(ms: seq<Match>, k: nat)
    requires k <= |ms|
    ensures forall j :: RunStart(ms, k) <= j < k ==> ms[j].kind == SubjectMatch
    ensures RunStart(ms, k) > 0 ==> ms[RunStart(ms, k) - 1].kind == NumberMatch
  {
    if RunStart(ms, k) < k {
      RunStartIs(ms, k - 1);
    }
  }

  lemma SubjectsStep(s: string, ms: seq<Match>, k: nat)
    requires k < |ms|
    ensures Subjects(s, ms, k + 1) ==
            if ms[k].kind == NumberMatch then Subjects(s, ms, k)
            else if k == 0 || ms[k - 1].kind == NumberMatch then [Text(s, ms[k])]
            else Subjects(s, ms, k) + [Text(s, ms[k])]
  {
    if ms[k].kind == SubjectMatch {
      assert RunEnd(ms, k + 1) == k + 1 && RunStart(ms, k + 1) == RunStart(ms, k);
      if k == 0 || ms[k - 1].kind == NumberMatch {
        assert Subjects(s, ms, k + 1) == [Text(s, ms[k])];
      } else {
        assert Subjects(s, ms, k + 1) == Subjects(s, ms, k) + [Text(s, ms[k])];
      }
    }
  }

  // Reading a subject: a new run flushes the text since the last number.
  lemma ReadSubject(s: string, ms: seq<Match>, k: nat)
    requires InText(s, ms) && k < |ms| && ms[k].kind == SubjectMatch
    ensures Edits(s, ms, k + 1) == Edits(s, ms, k)
    ensures WrittenAfter(s, ms, k + 1) == WrittenAfter(s, ms, k) +
              if k == 0 || ms[k - 1].kind == NumberMatch
              then Between(s, EditedUpTo(Edits(s, ms, k)), ms[k].start) else ""
  {
    hide Between, Spliced, Separated, EditAt;
  }

  // Reading a number: text is flushed only when no run has done so already.
  lemma ReadNumber(s: string, ms: seq<Match>, k: nat)
    requires InText(s, ms) && k < |ms| && ms[k].kind == NumberMatch
    ensures Edits(s, ms, k + 1) == Edits(s, ms, k) + [EditAt(s, ms, k)]
    ensures EditedUpTo(Edits(s, ms, k + 1)) == ms[k].end
    ensures WrittenAfter(s, ms, k + 1) == WrittenAfter(s, ms, k) +
              (if k == 0 || ms[k - 1].kind == NumberMatch
               then Between(s, EditedUpTo(Edits(s, ms, k)), ms[k].start) else "") +
              Join(CodesOf(Subjects(s, ms, k), Text(s, ms[k])), "/")
    ensures WrittenCodes(Edits(s, ms, k + 1))
         == WrittenCodes(Edits(s, ms, k)) + LowerAll(CodesOf(Subjects(s, ms, k), Text(s, ms[k])))
  {
    hide Between, Separated, Subjects, CodesOf, LowerAll, Join;
    var edits := Edits(s, ms, k);
    assert (edits + [EditAt(s, ms, k)])[..|edits|] == edits;
  }

  lemma TokensInText(s: string)
    ensures InText(s, Tokens(s)) && InText(s, Merged(Tokens(s)))
  {
    hide ScanFrom, AtBoundary, HasShape, OfKind, AfterLastNumber;
    ScanSound(s, 0);
    var tokens := Tokens(s);
    assert forall j :: 0 <= j < |tokens| ==> tokens[j] in tokens;
  }

  /** Writes the codes of one number; the subjects are separated by slashes. */
  method WriteCodes(subjects: seq<string>, number: string) returns (text: string, codes: seq<string>)
    ensures text == Join(CodesOf(subjects, number), "/")
    ensures codes == LowerAll(CodesOf(subjects, number))
  {
    text, codes := "", [];
    ghost var all := CodesOf(subjects, number);
    for i := 0 to |subjects|
      invariant text == Join(all[..i], "/") + if 0 < i < |subjects| then "/" else ""
      invariant codes == LowerAll(all)[..i]
    {
      assert all[..i + 1][..i] == all[..i];
      text := text + subjects[i] + number;
      if i < |subjects| - 1 {
        text := text + "/";
      }
      codes := codes + [Lower(subjects[i] + number)];
    }
    assert all[..|subjects|] == all;
  }

  lemma {:induction false} NothingRead(s: string, ms: seq<Match>)
    ensures Subjects(s, ms, 0) == [] && Edits(s, ms, 0) == []
    ensures WrittenAfter(s, ms, 0) == "" && WrittenCodes([]) == [] && EditedUpTo([]) == 0
  {
  }

  /** expandCourseCodes */
  method ExpandCourseCodes(input: string) returns (output: string, codes: seq<string>)
    ensures (output, codes) == Expanded(input)
  {
    hide ScanFrom, OfKind, Merged, Separated, Subjects, Edits, WrittenAfter, WrittenCodes, EditedUpTo;
    hide RunStart, CodesOf, LowerAll, Join;
    TokensInText(input);
    NothingRead(input, Merged(Tokens(input)));
    var subjects := FindAll(input, SubjectMatch);
    var numbers := FindAll(input, NumberMatch);
    var matches := MergeMatches(subjects, numbers, Tokens(input));
    output, codes := "", [];
    var prevKind := NumberMatch;
    var lastSubject: seq<string> := [];
    var lastEnd := 0;
    for k := 0 to |matches|
      invariant prevKind == if k == 0 then NumberMatch else matches[k - 1].kind
      invariant lastSubject == Subjects(input, matches, k)
      invariant lastEnd == EditedUpTo(Edits(input, matches, k))
      invariant output == WrittenAfter(input, matches, k)
      invariant codes == WrittenCodes(Edits(input, matches, k))
    {
      var m := matches[k];
      EditBefore(input, matches, k);
      SubjectsStep(input, matches, k);
      if m.kind == SubjectMatch {
        ReadSubject(input, matches, k);
        if prevKind == NumberMatch {
          output := output + input[lastEnd..m.start];
          lastSubject := [];
        }
        lastSubject := lastSubject + [input[m.start..m.end]];
      } else {
        ReadNumber(input, matches, k);
        if prevKind == NumberMatch {
          output := output + input[lastEnd..m.start];
        }
        lastEnd := m.end;
        var text, more := WriteCodes(lastSubject, input[m.start..m.end]);
        output := output + text;
        codes := codes + more;
      }
      prevKind := m.kind;
    }
    EndsInNumber(input);
    output := output + input[lastEnd..];
    assert output == ApplyEdits(input, Edits(input, matches, |matches|));
  }

  // A merged list ends in a number, so no run of subjects is left unwritten.
  lemma {:induction false} EndsInNumber(s: string)
    ensures var ms := Merged(Tokens(s));
            && (|ms| > 0 ==> ms[|ms| - 1].kind == NumberMatch)
            && WrittenAfter(s, ms, |ms|) == Spliced(s, Edits(s, ms, |ms|))
            && EditedUpTo(Edits(s, ms, |ms|)) <= |s|
  {
    hide ScanFrom, OfKind, AfterLastNumber, Separated, Spliced, Between;
    TokensInText(s);
    var tokens := Tokens(s);
    LastNumberIs(tokens, |tokens|);
    var ms := Merged(tokens);
    if |ms| > 0 {
      assert ms[|ms| - 1] == tokens[|ms| - 1];
      assert RunStart(ms, |ms|) == |ms|;
    }
  }

  lemma {:induction false} LastNumberIs(ms: seq<Match>, n: nat)
    requires n <= |ms|
    ensures var k := AfterLastNumber(ms, n);
            && (k > 0 ==> ms[k - 1].kind == NumberMatch)
            && forall j :: k <= j < n ==> ms[j].kind == SubjectMatch
  {
    if n > 0 && ms[n - 1].kind == SubjectMatch {
      LastNumberIs(ms, n - 1);
    }
  }

  // ----- what the edits are -----

  // Each edit starts and ends next to a non-word byte, and some byte is kept between two edits.
  ghost predicate WordEdits(s: string, edits: seq<Edit>) {
    && (forall i :: 0 <= i < |edits| ==>
          && edits[i].start < edits[i].end <= |s|
          && (edits[i].start == 0 || !IsWord(s[edits[i].start - 1]))
          && (edits[i].end == |s| || !IsWord(s[edits[i].end])))
    && forall i, j :: 0 <= i < j < |edits| ==> edits[i].end < edits[j].start
  }

  lemma {:induction false} EditIsWordEdit(s: string, ms: seq<Match>, k: nat)
    requires InText(s, ms) && k < |ms| && IsMatch(s, ms[k]) && IsMatch(s, ms[RunStart(ms, k)])
    ensures WordEdits(s, [EditAt(s, ms, k)])
    ensures Edits(s, ms, k) != [] ==> EditedUpTo(Edits(s, ms, k)) < EditAt(s, ms, k).start
  {
    hide Subjects, CodesOf, IsMatch, IsWord, Text, RunEnd;
    EditBefore(s, ms, k);
    EditsPastRun(s, ms, k);
    var r := RunStart(ms, k);
    MatchIsWord(s, ms[r]);
    MatchIsWord(s, ms[k]);
    assert r > 0 ==> ms[r - 1].end < ms[r].start;
  }

  lemma WordEditsAppend(s: string, edits: seq<Edit>, last: Edit)
    requires WordEdits(s, edits) && WordEdits(s, [last])
    requires forall i :: 0 <= i < |edits| ==> edits[i].end < last.start
    ensures WordEdits(s, edits + [last])
  {
    hide IsWord;
    assert [last][0] == last;
  }

  lemma UpToIsLatest(s: string, edits: seq<Edit>)
    requires WordEdits(s, edits)
    ensures forall i :: 0 <= i < |edits| ==> edits[i].end <= EditedUpTo(edits)
  {
  }

  lemma {:induction false} EditsAreWordEdits(s: string, ms: seq<Match>, n: nat)
    requires InText(s, ms) && n <= |ms|
    requires forall m :: m in ms ==> IsMatch(s, m)
    ensures WordEdits(s, Edits(s, ms, n))
  {
    hide IsMatch, WordEdits, Separated, EditAt, EditedUpTo;
    if n > 0 {
      EditsAreWordEdits(s, ms, n - 1);
      if ms[n - 1].kind == NumberMatch {
        assert ms[n - 1] in ms && ms[RunStart(ms, n - 1)] in ms;
        EditIsWordEdit(s, ms, n - 1);
        UpToIsLatest(s, Edits(s, ms, n - 1));
        WordEditsAppend(s, Edits(s, ms, n - 1), EditAt(s, ms, n - 1));
      } else {
        assert Edits(s, ms, n) == Edits(s, ms, n - 1);
      }
    } else {
      NoWordEdits(s);
    }
  }

  lemma NoWordEdits(s: string)
    ensures WordEdits(s, [])
  {
  }

  // Every number among the first n matches is the end of one edit.
  lemma {:induction false} NumbersAreEdited(s: string, ms: seq<Match>, n: nat, k: nat)
    requires k < n <= |ms| && ms[k].kind == NumberMatch
    ensures exists e :: e in Edits(s, ms, n) && e.end == ms[k].end
  {
    if k == n - 1 {
      assert EditAt(s, ms, k) in Edits(s, ms, n);
    } else {
      NumbersAreEdited(s, ms, n - 1, k);
      var e :| e in Edits(s, ms, n - 1) && e.end == ms[k].end;
      assert e in Edits(s, ms, n);
    }
  }

  // Only course codes that begin with a subject are ever written.
  predicate IsCode(c: string) {
    |c| > 0 && IsUpper(c[0]) && forall i :: 0 <= i < |c| ==> IsWord(c[i])
  }

  ghost predicate WritesCodes(edits: seq<Edit>) {
    forall i, j :: 0 <= i < |edits| && 0 <= j < |edits[i].codes| ==> IsCode(edits[i].codes[j])
  }

  lemma {:induction false} SubjectsAreMatches(s: string, ms: seq<Match>, k: nat)
    requires k <= |ms|
    requires forall m :: m in ms ==> IsMatch(s, m)
    ensures forall i :: 0 <= i < |Subjects(s, ms, k)| ==> HasShape(SubjectMatch, Subjects(s, ms, k)[i])
  {
    var e := RunEnd(ms, k);
    var r := RunStart(ms, e);
    RunStartIs(ms, e);
    forall i | r <= i < e
      ensures HasShape(SubjectMatch, Text(s, ms[i]))
    {
      assert ms[i] in ms;
    }
  }

  lemma CodesOfSubjects(s: string, ms: seq<Match>, k: nat)
    requires k < |ms| && ms[k].kind == NumberMatch
    requires forall m :: m in ms ==> IsMatch(s, m)
    ensures WritesCodes([EditAt(s, ms, k)])
  {
    hide Subjects, RunStart;
    SubjectsAreMatches(s, ms, k);
    assert ms[k] in ms;
    MatchIsWord(s, ms[k]);
    var subjects := Subjects(s, ms, k);
    forall i | 0 <= i < |subjects|
      ensures IsCode(subjects[i] + Text(s, ms[k]))
    {
      assert HasShape(SubjectMatch, subjects[i]);
    }
  }

  lemma {:induction false} EditsWriteCodes(s: string, ms: seq<Match>, n: nat)
    requires InText(s, ms) && n <= |ms|
    requires forall m :: m in ms ==> IsMatch(s, m)
    ensures WritesCodes(Edits(s, ms, n))
  {
    hide IsMatch, EditAt, InText, IsCode;
    if n > 0 {
      EditsWriteCodes(s, ms, n - 1);
      if ms[n - 1].kind == NumberMatch {
        CodesOfSubjects(s, ms, n - 1);
        assert [EditAt(s, ms, n - 1)][0] == EditAt(s, ms, n - 1);
      }
    }
  }

  // ----- idempotence -----

  ghost predicate NumberFree(s: string) {
    forall m: Match :: IsMatch(s, m) ==> m.kind == SubjectMatch
  }

  lemma MatchInLeft(a: string, b: string, m: Match)
    requires IsMatch(a + b, m) && m.end <= |a|
    ensures IsMatch(a, m)
  {
    MatchIsWord(a + b, m);
    assert (a + b)[m.start..m.end] == a[m.start..m.end];
  }

  lemma MatchInRight(a: string, b: string, m: Match)
    requires IsMatch(a + b, m) && m.start >= |a|
    ensures IsMatch(b, Match(m.start - |a|, m.end - |a|, m.kind))
  {
    MatchIsWord(a + b, m);
    SliceOfConcat(a, b, m.start, m.end);
  }

  lemma NumberFreeConcat(a: string, b: string)
    requires NumberFree(a) && NumberFree(b)
    requires a == "" || b == "" || !IsWord(a[|a| - 1]) || !IsWord(b[0])
    ensures NumberFree(a + b)
  {
    hide IsMatch, IsWord;
    var s := a + b;
    forall m | IsMatch(s, m)
      ensures m.kind == SubjectMatch
    {
      MatchIsWord(s, m);
      assert a != "" ==> s[|a| - 1] == a[|a| - 1];
      assert b != "" ==> s[|a|] == b[0];
      if m.end <= |a| {
        MatchInLeft(a, b, m);
      } else if m.start >= |a| {
        MatchInRight(a, b, m);
      } else {
        assert false;
      }
    }
  }

  lemma SliceOfSlice(s: string, i: nat, j: nat, a: nat, b: nat)
    requires i <= j <= |s| && a <= b <= j - i
    ensures s[i..j][a..b] == s[i + a..i + b]
  {
    var t, u := s[i..j][a..b], s[i + a..i + b];
    forall x | 0 <= x < |t|
      ensures t[x] == u[x]
    {
      assert t[x] == s[i..j][a + x];
    }
  }

  lemma SliceOfConcat(a: string, b: string, i: nat, j: nat)
    requires |a| <= i <= j <= |a| + |b|
    ensures (a + b)[i..j] == b[i - |a|..j - |a|]
  {
  }

  // A stretch of text that is cut at non-word bytes has only the matches that the whole text has there.
  lemma NumberFreeStretch(s: string, i: nat, j: nat)
    requires i <= j <= |s|
    requires i == 0 || i == j || !IsWord(s[i])
    requires j == |s| || i == j || !IsWord(s[j - 1])
    requires forall m :: IsMatch(s, m) && i <= m.start && m.end <= j ==> m.kind == SubjectMatch
    ensures NumberFree(s[i..j])
  {
    var t := s[i..j];
    forall m | IsMatch(t, m)
      ensures m.kind == SubjectMatch
    {
      MatchIsWord(t, m);
      var moved := Match(m.start + i, m.end + i, m.kind);
      SliceOfSlice(s, i, j, m.start, m.end);
      assert IsMatch(s, moved);
    }
  }

  lemma CodeIsNumberFree(c: string)
    requires IsCode(c)
    ensures NumberFree(c)
  {
    forall m | IsMatch(c, m)
      ensures m.kind == SubjectMatch
    {
      MatchIsWord(c, m);
    }
  }

  lemma {:induction false} JoinedCodesAreNumberFree(codes: seq<string>)
    requires forall j :: 0 <= j < |codes| ==> IsCode(codes[j])
    ensures NumberFree(Join(codes, "/"))
  {
    var n := |codes| - 1;
    if n < 0 {
    } else if n == 0 {
      CodeIsNumberFree(codes[0]);
    } else {
      JoinedCodesAreNumberFree(codes[..n]);
      CodeIsNumberFree(codes[n]);
      assert NumberFree("/");
      NumberFreeConcat(Join(codes[..n], "/"), "/");
      NumberFreeConcat(Join(codes[..n], "/") + "/", codes[n]);
    }
  }

  ghost predicate AllNumbersEdited(s: string, edits: seq<Edit>) {
    forall m: Match :: IsMatch(s, m) && m.kind == NumberMatch ==> exists i :: 0 <= i < |edits| && edits[i].end == m.end
  }

  lemma GapIsNumberFree(s: string, edits: seq<Edit>, n: nat)
    requires WordEdits(s, edits) && AllNumbersEdited(s, edits) && n <= |edits|
    ensures var i, j := EditedUpTo(edits[..n]), if n == |edits| then |s| else edits[n].start;
            && i <= j <= |s| && NumberFree(s[i..j])
            && (n > 0 && i < j ==> !IsWord(s[i])) && (n < |edits| && i < j ==> !IsWord(s[j - 1]))
  {
    var i, j := EditedUpTo(edits[..n]), if n == |edits| then |s| else edits[n].start;
    forall m | IsMatch(s, m) && i <= m.start && m.end <= j
      ensures m.kind == SubjectMatch
    {
      MatchIsWord(s, m);
      if m.kind == NumberMatch {
        var k :| 0 <= k < |edits| && edits[k].end == m.end;
        assert false;
      }
    }
    NumberFreeStretch(s, i, j);
  }

  lemma EmptyIsNumberFree()
    ensures NumberFree("")
  {
  }

  lemma {:induction false} SpliceStep(done: string, gap: string, codes: seq<string>)
    requires NumberFree(done) && NumberFree(gap)
    requires done == "" || (gap != "" && !IsWord(gap[0]))
    requires done + gap == "" || (gap != "" && !IsWord(gap[|gap| - 1]))
    requires forall j :: 0 <= j < |codes| ==> IsCode(codes[j])
    ensures NumberFree(done + gap + Join(codes, "/"))
  {
    hide NumberFree, IsWord, Join;
    NumberFreeConcat(done, gap);
    JoinedCodesAreNumberFree(codes);
    NumberFreeConcat(done + gap, Join(codes, "/"));
  }

  lemma GapOfEdit(s: string, edits: seq<Edit>, n: nat)
    requires WordEdits(s, edits) && AllNumbersEdited(s, edits) && n < |edits|
    ensures var gap := Between(s, EditedUpTo(edits[..n]), edits[n].start);
            && NumberFree(gap) && (n > 0 ==> gap != "" && !IsWord(gap[0]))
            && (gap != "" ==> !IsWord(gap[|gap| - 1]))
  {
    hide NumberFree, IsMatch, IsWord, AllNumbersEdited, Join;
    GapIsNumberFree(s, edits, n);
    assert n > 0 ==> edits[..n][n - 1].end < edits[n].start;
  }

  lemma {:induction false} SplicedIsNumberFree(s: string, edits: seq<Edit>, n: nat)
    requires WordEdits(s, edits) && AllNumbersEdited(s, edits) && WritesCodes(edits) && n <= |edits|
    ensures NumberFree(Spliced(s, edits[..n]))
    ensures n == 0 ==> Spliced(s, edits[..n]) == ""
  {
    hide NumberFree, WordEdits, IsWord, AllNumbersEdited, Join, IsCode, Between, EditedUpTo;
    if n == 0 {
      EmptyIsNumberFree();
    } else {
      var init, last := edits[..n - 1], edits[n - 1];
      assert edits[..n][..n - 1] == init;
      SplicedIsNumberFree(s, edits, n - 1);
      GapOfEdit(s, edits, n - 1);
      SpliceStep(Spliced(s, init), Between(s, EditedUpTo(init), last.start), last.codes);
    }
  }

  lemma NothingMerged(s: string)
    requires Merged(Tokens(s)) == []
    ensures Expanded(s) == (s, [])
  {
    assert ApplyEdits(s, []) == s;
  }

  lemma HasMember(ms: seq<Match>)
    ensures ms != [] ==> exists m :: m in ms
  {
    if ms != [] {
      assert ms[0] in ms;
    }
  }

  lemma NothingToExpand(s: string)
    requires NumberFree(s)
    ensures Expanded(s) == (s, [])
  {
    FindAllExact(s, NumberMatch);
    HasMember(FindAll(s, NumberMatch));
    NothingMerged(s);
  }

  /** Expanding a text that has been expanded changes nothing and lists no codes. */
  lemma ExpandIsIdempotent(s: string)
    ensures Expanded(Expanded(s).0) == (Expanded(s).0, [])
  {
    var tokens := Tokens(s);
    var ms := Merged(tokens);
    if ms == [] {
      NothingMerged(s);
      NothingMerged(Expanded(s).0);
    } else {
      ExpandedIsNumberFree(s);
      NothingToExpand(Expanded(s).0);
    }
  }

  lemma {:induction false} AllNumbersAreEdited(s: string)
    requires Merged(Tokens(s)) != []
    ensures AllNumbersEdited(s, Edits(s, Merged(Tokens(s)), |Merged(Tokens(s))|))
  {
    hide ScanFrom, OfKind, AfterLastNumber, IsMatch, EditAt, Edits;
    var tokens := Tokens(s);
    var ms := Merged(tokens);
    LastNumberIs(tokens, |tokens|);
    forall m | IsMatch(s, m) && m.kind == NumberMatch
      ensures exists i :: 0 <= i < |Edits(s, ms, |ms|)| && Edits(s, ms, |ms|)[i].end == m.end
    {
      ScanComplete(s, 0, m);
      var k :| 0 <= k < |tokens| && tokens[k] == m;
      NumbersAreEdited(s, ms, |ms|, k);
    }
  }

  lemma MergedAreMatches(s: string)
    ensures InText(s, Merged(Tokens(s)))
    ensures forall m :: m in Merged(Tokens(s)) ==> IsMatch(s, m)
  {
    hide ScanFrom, OfKind, IsMatch, Separated;
    ScanSound(s, 0);
    TokensInText(s);
  }

  lemma ApplyIsNumberFree(s: string, edits: seq<Edit>)
    requires WordEdits(s, edits) && AllNumbersEdited(s, edits) && WritesCodes(edits)
    ensures NumberFree(ApplyEdits(s, edits))
  {
    hide WordEdits, AllNumbersEdited, WritesCodes, Spliced, NumberFree, IsWord;
    SplicedIsNumberFree(s, edits, |edits|);
    GapIsNumberFree(s, edits, |edits|);
    assert edits[..|edits|] == edits;
    NumberFreeConcat(Spliced(s, edits), Between(s, EditedUpTo(edits), |s|));
  }

  lemma ExpandedIsNumberFree(s: string)
    requires Merged(Tokens(s)) != []
    ensures NumberFree(Expanded(s).0)
  {
    hide Tokens, Merged, NumberFree, WordEdits, InText, Edits, ApplyEdits, IsMatch, AllNumbersEdited;
    var ms := Merged(Tokens(s));
    MergedAreMatches(s);
    EditsAreWordEdits(s, ms, |ms|);
    EditsWriteCodes(s, ms, |ms|);
    AllNumbersAreEdited(s);
    ApplyIsNumberFree(s, Edits(s, ms, |ms|));
  }

  // ----- the code list, read off the words alone -----

  // ms[r..e] is the nearest run of subjects before position k: only numbers lie in between.
  ghost predicate IsNearestRun(ms: seq<Match>, k: nat, r: nat, e: nat) {
    && r <= e <= k <= |ms|
    && (forall j :: e <= j < k ==> ms[j].kind == NumberMatch)
    && (forall j :: r <= j < e ==> ms[j].kind == SubjectMatch)
    && (r > 0 ==> ms[r - 1].kind == NumberMatch)
    && (r == e ==> e == 0)
  }

  lemma NearestRun(s: string, ms: seq<Match>, k: nat) returns (r: nat, e: nat)
    requires k <= |ms|
    ensures IsNearestRun(ms, k, r, e)
    ensures |Subjects(s, ms, k)| == e - r
    ensures forall i :: 0 <= i < e - r ==> Subjects(s, ms, k)[i] == Text(s, ms[r + i])
  {
    e := RunEnd(ms, k);
    r := RunStart(ms, e);
    RunEndIs(ms, k);
    RunStartIs(ms, e);
  }

  lemma {:induction false} RunEndIs(ms: seq<Match>, k: nat)
    requires k <= |ms|
    ensures forall j :: RunEnd(ms, k) <= j < k ==> ms[j].kind == NumberMatch
    ensures RunEnd(ms, k) > 0 ==> ms[RunEnd(ms, k) - 1].kind == SubjectMatch
  {
    if k > 0 && ms[k - 1].kind == NumberMatch {
      RunEndIs(ms, k - 1);
    }
  }

  // For each number word in order, one lowercase code per subject of the nearest run before it.
  function CodesOfWords(s: string, words: seq<Match>, n: nat): seq<string>
    requires n <= |words|
  {
    if n == 0 then []
    else CodesOfWords(s, words, n - 1) +
         if words[n - 1].kind == NumberMatch
         then LowerAll(CodesOf(Subjects(s, words, n - 1), Text(s, words[n - 1]))) else []
  }

  lemma {:induction false} SubjectsOfPrefix(s: string, words: seq<Match>, p: nat, k: nat)
    requires k <= p <= |words|
    ensures RunStart(words[..p], k) == RunStart(words, k) && RunEnd(words[..p], k) == RunEnd(words, k)
    ensures Subjects(s, words[..p], k) == Subjects(s, words, k)
  {
    RunsOfPrefix(words, p, k);
    RunsOfPrefix(words, p, RunEnd(words, k));
  }

  lemma {:induction false} RunsOfPrefix(words: seq<Match>, p: nat, k: nat)
    requires k <= p <= |words|
    ensures RunStart(words[..p], k) == RunStart(words, k) && RunEnd(words[..p], k) == RunEnd(words, k)
  {
    if k > 0 {
      RunsOfPrefix(words, p, k - 1);
    }
  }

  lemma {:induction false} WrittenCodesOfPrefix(s: string, words: seq<Match>, p: nat, n: nat)
    requires n <= p <= |words|
    ensures WrittenCodes(Edits(s, words[..p], n)) == CodesOfWords(s, words, n)
  {
    hide Subjects, CodesOf, LowerAll, RunStart, Text;
    if n > 0 {
      WrittenCodesOfPrefix(s, words, p, n - 1);
      SubjectsOfPrefix(s, words, p, n - 1);
      if words[n - 1].kind == NumberMatch {
        var edits := Edits(s, words[..p], n - 1);
        var last := EditAt(s, words[..p], n - 1);
        assert Edits(s, words[..p], n) == edits + [last];
        assert (edits + [last])[..|edits|] == edits;
      } else {
        assert Edits(s, words[..p], n) == Edits(s, words[..p], n - 1);
      }
    }
  }

  lemma {:induction false} NoNumbersNoCodes(s: string, words: seq<Match>, k: nat, n: nat)
    requires k <= n <= |words|
    requires forall j :: k <= j < n ==> words[j].kind == SubjectMatch
    ensures CodesOfWords(s, words, n) == CodesOfWords(s, words, k)
  {
    if k < n {
      NoNumbersNoCodes(s, words, k, n - 1);
    }
  }

  lemma {:induction false} NoSubjectsNoCodes(s: string, words: seq<Match>, n: nat)
    requires n <= |words|
    requires forall j :: 0 <= j < n ==> words[j].kind == NumberMatch
    ensures CodesOfWords(s, words, n) == []
  {
    hide Text, CodesOf, LowerAll, RunEnd, RunStart, Subjects;
    if n > 0 {
      NoSubjectsNoCodes(s, words, n - 1);
      NoSubjectsNoRun(s, words, n - 1);
    }
  }

  lemma {:induction false} NoSubjectsNoRun(s: string, words: seq<Match>, n: nat)
    requires n <= |words|
    requires forall j :: 0 <= j < n ==> words[j].kind == NumberMatch
    ensures RunEnd(words, n) == 0 && Subjects(s, words, n) == []
  {
    hide Text;
    if n > 0 {
      NoSubjectsNoRun(s, words, n - 1);
    }
  }

  lemma {:induction false} OfKindEmpty(ms: seq<Match>, n: nat, kind: Kind)
    requires n <= |ms| && OfKind(ms, n, kind) == []
    ensures forall j :: 0 <= j < n ==> ms[j].kind != kind
  {
    if n > 0 {
      OfKindEmpty(ms, n - 1, kind);
    }
  }

  /** The code list depends on the words of the text alone. */
  lemma {:induction false} CodeListIsOfWords(s: string)
    ensures Expanded(s).1 == CodesOfWords(s, Tokens(s), |Tokens(s)|)
  {
    var words := Tokens(s);
    var n := |words|;
    if OfKind(words, n, SubjectMatch) == [] {
      OfKindEmpty(words, n, SubjectMatch);
      NoSubjectsNoCodes(s, words, n);
    } else if OfKind(words, n, NumberMatch) == [] {
      OfKindEmpty(words, n, NumberMatch);
      NoNumbersNoCodes(s, words, 0, n);
    } else {
      var p := AfterLastNumber(words, n);
      LastNumberIs(words, n);
      WrittenCodesOfPrefix(s, words, p, p);
      NoNumbersNoCodes(s, words, p, n);
    }
  }

  // ----- what is kept of the text -----

  // The edits, each putting back the text that it cut out.
  function Undone(s: string, edits: seq<Edit>): seq<Edit> {
    seq(|edits|, i requires 0 <= i < |edits| => edits[i].(codes := [Between(s, edits[i].start, edits[i].end)]))
  }

  lemma {:induction false} SplicedUndone(s: string, edits: seq<Edit>)
    requires ValidEdits(s, edits)
    ensures EditedUpTo(edits) <= |s|
    ensures Spliced(s, Undone(s, edits)) == s[..EditedUpTo(edits)]
  {
    if edits != [] {
      var n := |edits| - 1;
      var init, last := edits[..n], edits[n];
      SplicedUndone(s, init);
      assert Undone(s, edits)[..n] == Undone(s, init);
      UndoneUpTo(s, init);
      var back := Undone(s, edits);
      hide Undone;
      assert Spliced(s, back[..n]) == s[..EditedUpTo(init)];
      Reassemble(s, EditedUpTo(init), last.start, last.end);
    }
  }

  lemma Reassemble(s: string, i: nat, j: nat, k: nat)
    requires i <= j <= k <= |s|
    ensures s[..i] + s[i..j] + s[j..k] == s[..k]
  {
  }

  lemma UndoneUpTo(s: string, edits: seq<Edit>)
    ensures EditedUpTo(Undone(s, edits)) == EditedUpTo(edits)
  {
  }

  lemma WordEditsAreValid(s: string, edits: seq<Edit>)
    requires WordEdits(s, edits)
    ensures ValidEdits(s, edits)
  {
    hide IsWord;
  }

  lemma UndoneGivesBack(s: string, edits: seq<Edit>)
    requires ValidEdits(s, edits)
    ensures ApplyEdits(s, Undone(s, edits)) == s
  {
    hide ValidEdits, Spliced, Undone;
    SplicedUndone(s, edits);
    UndoneUpTo(s, edits);
    Reassemble(s, 0, EditedUpTo(edits), |s|);
  }

  // e cuts out the number at k together with the subjects ms[r..k], the whole run directly before it.
  ghost predicate CutsNumber(ms: seq<Match>, r: nat, k: nat, e: Edit) {
    && r <= k < |ms| && ms[k].kind == NumberMatch
    && (forall j :: r <= j < k ==> ms[j].kind == SubjectMatch)
    && (r > 0 ==> ms[r - 1].kind == NumberMatch)
    && e.start == ms[r].start && e.end == ms[k].end
  }

  lemma {:induction false} EditsCutNumbers(s: string, ms: seq<Match>, n: nat)
    requires n <= |ms|
    ensures forall e :: e in Edits(s, ms, n) ==> exists r, k :: CutsNumber(ms, r, k, e)
  {
    hide Subjects, CodesOf, Text;
    if n > 0 {
      EditsCutNumbers(s, ms, n - 1);
      RunStartIs(ms, n - 1);
      if ms[n - 1].kind == NumberMatch {
        assert CutsNumber(ms, RunStart(ms, n - 1), n - 1, EditAt(s, ms, n - 1));
      }
    }
  }

  /** Outside the stretches that are cut out, the text is kept byte for byte, once and in order:
      putting the cut text back in place of the codes gives the input. There is one cut per number,
      and it takes no more than that number and the run of subjects directly before it. */
  lemma {:induction false} KeptText(s: string)
    ensures var ms := Merged(Tokens(s));
            var edits := Edits(s, ms, |ms|);
            && WordEdits(s, edits)
            && Expanded(s).0 == ApplyEdits(s, edits)
            && ApplyEdits(s, Undone(s, edits)) == s
            && (forall e :: e in edits ==> exists r, k :: CutsNumber(ms, r, k, e))
            && |edits| == |OfKind(ms, |ms|, NumberMatch)|
            && forall i :: 0 <= i < |edits| ==> edits[i].end == OfKind(ms, |ms|, NumberMatch)[i].end
  {
    var ms := Merged(Tokens(s));
    var edits := Edits(s, ms, |ms|);
    hide ScanFrom, OfKind, Merged, Separated, Edits, WordEdits, ApplyEdits, IsMatch, Undone, CutsNumber;
    EditsCutNumbers(s, ms, |ms|);
    MergedAreMatches(s);
    EditsAreWordEdits(s, ms, |ms|);
    WordEditsAreValid(s, edits);
    UndoneGivesBack(s, edits);
    EditsOfNumbers(s, ms, |ms|);
  }

  lemma {:induction false} EditsOfNumbers(s: string, ms: seq<Match>, n: nat)
    requires n <= |ms|
    ensures |Edits(s, ms, n)| == |OfKind(ms, n, NumberMatch)|
    ensures forall i :: 0 <= i < |Edits(s, ms, n)| ==> Edits(s, ms, n)[i].end == OfKind(ms, n, NumberMatch)[i].end
  {
    if n > 0 {
      EditsOfNumbers(s, ms, n - 1);
    }
  }

  /** The merged list is strictly sorted; it holds every number and exactly the subjects before the
      last number, unless one of the two lists is empty. */
  lemma MergedIs(s: string)
    ensures var ms, subjects, numbers := Merged(Tokens(s)), FindAll(s, SubjectMatch), FindAll(s, NumberMatch);
            && Separated(ms)
            && (ms == [] <==> subjects == [] || numbers == [])
            && (ms != [] ==>
                  && ms[|ms| - 1] == numbers[|numbers| - 1]
                  && (forall m :: m in numbers ==> m in ms)
                  && forall m :: m in subjects ==> (m in ms <==> m.end < numbers[|numbers| - 1].start))
  {
    hide ScanFrom, OfKind, AfterLastNumber;
    var tokens := Tokens(s);
    var n := |tokens|;
    TokensInText(s);
    LastNumberIs(tokens, n);
    OfKindMembers(tokens, n, SubjectMatch);
    OfKindMembers(tokens, n, NumberMatch);
    assert tokens[..n] == tokens;
    if OfKind(tokens, n, SubjectMatch) != [] && OfKind(tokens, n, NumberMatch) != [] {
      var k := AfterLastNumber(tokens, n);
      LastNumberIsLast(tokens, n);
    }
  }

  lemma {:induction false} LastNumberIsLast(ms: seq<Match>, n: nat)
    requires n <= |ms| && OfKind(ms, n, NumberMatch) != []
    ensures var numbers := OfKind(ms, n, NumberMatch);
            AfterLastNumber(ms, n) > 0 && ms[AfterLastNumber(ms, n) - 1] == numbers[|numbers| - 1]
  {
    if ms[n - 1].kind == SubjectMatch {
      LastNumberIsLast(ms, n - 1);
    }
  }

  // ----- the length of the output -----

  function Width(m: Match): int {
    m.end - m.start
  }

  // The widths of the words ms[r..e]
  function RunWidth(ms: seq<Match>, r: nat, e: nat): int
    requires r <= e <= |ms|
  {
    if r == e then 0 else RunWidth(ms, r, e - 1) + Width(ms[e - 1])
  }

  // What is written for the number at k: each subject of its run with the number, and the slashes in between.
  function WrittenWidth(ms: seq<Match>, k: nat): int
    requires k < |ms|
  {
    var e := RunEnd(ms, k);
    var r := RunStart(ms, e);
    if r == e then 0 else RunWidth(ms, r, e) + (e - r) * Width(ms[k]) + (e - r - 1)
  }

  // What is cut for it: from the run directly before it, if there is one, to its own end.
  function CutWidth(ms: seq<Match>, k: nat): int
    requires k < |ms|
  {
    ms[k].end - ms[RunStart(ms, k)].start
  }

  // Over the numbers among the first n words
  function Written(ms: seq<Match>, n: nat): int
    requires n <= |ms|
  {
    if n == 0 then 0 else Written(ms, n - 1) + if ms[n - 1].kind == NumberMatch then WrittenWidth(ms, n - 1) else 0
  }

  function Cut(ms: seq<Match>, n: nat): int
    requires n <= |ms|
  {
    if n == 0 then 0 else Cut(ms, n - 1) + if ms[n - 1].kind == NumberMatch then CutWidth(ms, n - 1) else 0
  }

  function TotalLength(xs: seq<string>): nat {
    if |xs| == 0 then 0 else TotalLength(xs[..|xs| - 1]) + |xs[|xs| - 1]|
  }

  lemma {:induction false} JoinedLength(subjects: seq<string>, number: string)
    ensures |Join(CodesOf(subjects, number), "/")| ==
            if |subjects| == 0 then 0 else TotalLength(subjects) + |subjects| * |number| + |subjects| - 1
  {
    if |subjects| > 0 {
      var n := |subjects| - 1;
      JoinedLength(subjects[..n], number);
      var codes := CodesOf(subjects, number);
      assert codes[..n] == CodesOf(subjects[..n], number);
      assert codes[n] == subjects[n] + number;
      assert (n + 1) * |number| == n * |number| + |number|;
    }
  }

  lemma {:induction false} RunLength(s: string, ms: seq<Match>, r: nat, e: nat)
    requires InText(s, ms) && r <= e <= |ms|
    ensures TotalLength(seq(e - r, i requires 0 <= i < e - r => Text(s, ms[r + i]))) == RunWidth(ms, r, e)
  {
    if r < e {
      RunLength(s, ms, r, e - 1);
      var texts := seq(e - r, i requires 0 <= i < e - r => Text(s, ms[r + i]));
      var init := seq(e - 1 - r, i requires 0 <= i < e - 1 - r => Text(s, ms[r + i]));
      assert texts[..e - 1 - r] == init;
      assert texts[e - 1 - r] == Text(s, ms[e - 1]);
    }
  }

  lemma EditLength(s: string, ms: seq<Match>, k: nat)
    requires InText(s, ms) && k < |ms|
    ensures |Join(EditAt(s, ms, k).codes, "/")| == WrittenWidth(ms, k)
  {
    hide Join, CodesOf, TotalLength, RunStart, RunEnd;
    var e := RunEnd(ms, k);
    JoinedLength(Subjects(s, ms, k), Text(s, ms[k]));
    RunLength(s, ms, RunStart(ms, e), e);
  }

  function CodesLength(edits: seq<Edit>): nat {
    if |edits| == 0 then 0 else CodesLength(edits[..|edits| - 1]) + |Join(edits[|edits| - 1].codes, "/")|
  }

  function CutLength(edits: seq<Edit>): int {
    if |edits| == 0 then 0
    else CutLength(edits[..|edits| - 1]) + edits[|edits| - 1].end - edits[|edits| - 1].start
  }

  lemma {:induction false} SplicedLength(s: string, edits: seq<Edit>)
    requires ValidEdits(s, edits)
    ensures EditedUpTo(edits) <= |s|
    ensures |Spliced(s, edits)| + CutLength(edits) == EditedUpTo(edits) + CodesLength(edits)
  {
    hide Join;
    if |edits| > 0 {
      SplicedLength(s, edits[..|edits| - 1]);
    }
  }

  lemma {:induction false} LengthSnoc(edits: seq<Edit>, last: Edit)
    ensures CodesLength(edits + [last]) == CodesLength(edits) + |Join(last.codes, "/")|
    ensures CutLength(edits + [last]) == CutLength(edits) + last.end - last.start
  {
    hide Join;
    assert (edits + [last])[..|edits|] == edits;
  }

  lemma {:induction false} LengthsOfWords(s: string, ms: seq<Match>, n: nat)
    requires InText(s, ms) && n <= |ms|
    ensures CodesLength(Edits(s, ms, n)) == Written(ms, n) && CutLength(Edits(s, ms, n)) == Cut(ms, n)
  {
    hide WrittenWidth, CutWidth, InText, EditAt, CodesLength, CutLength;
    if n == 0 {
      NothingEdited();
    } else {
      LengthsOfWords(s, ms, n - 1);
      if ms[n - 1].kind == NumberMatch {
        LengthsOfEdit(s, ms, n - 1);
        LengthSnoc(Edits(s, ms, n - 1), EditAt(s, ms, n - 1));
      } else {
        assert Edits(s, ms, n) == Edits(s, ms, n - 1);
      }
    }
  }

  lemma LengthsOfEdit(s: string, ms: seq<Match>, k: nat)
    requires InText(s, ms) && k < |ms|
    ensures var e := EditAt(s, ms, k);
            |Join(e.codes, "/")| == WrittenWidth(ms, k) && e.end - e.start == CutWidth(ms, k)
  {
    hide WrittenWidth, InText, Join, CodesOf, Subjects, RunStart;
    EditLength(s, ms, k);
  }

  lemma NothingEdited()
    ensures CodesLength([]) == 0 && CutLength([]) == 0
  {
  }

  /** The length of the output, from the words of the input. It is at least as long as the input exactly when
      at least as much is written as is cut, over all numbers. */
  lemma OutputLength(s: string)
    ensures var ms := Merged(Tokens(s));
            && |Expanded(s).0| + Cut(ms, |ms|) == |s| + Written(ms, |ms|)
            && (|Expanded(s).0| >= |s| <==> Written(ms, |ms|) >= Cut(ms, |ms|))
  {
    var ms := Merged(Tokens(s));
    var edits := Edits(s, ms, |ms|);
    hide ScanFrom, OfKind, Merged, Separated, Edits, WordEdits, IsMatch, Written, Cut, Spliced;
    TokensInText(s);
    MergedAreMatches(s);
    EditsAreWordEdits(s, ms, |ms|);
    WordEditsAreValid(s, edits);
    SplicedLength(s, edits);
    LengthsOfWords(s, ms, |ms|);
  }

  lemma WordsOfMath135()
    ensures Tokens("MATH 135") == [Match(0, 4, SubjectMatch), Match(5, 8, NumberMatch)]
  {
    var s := "MATH 135";
    hide ScanFrom;
    assert WordEnd(s, 1) == 4 && WordEnd(s, 6) == 8;
    assert s[0..4] == "MATH" && s[5..8] == "135";
    assert WordMatches(s, 0, 4) == [Match(0, 4, SubjectMatch)];
    assert WordMatches(s, 5, 8) == [Match(5, 8, NumberMatch)];
    ScanStep(s, 8);
    ScanStep(s, 5);
    ScanStep(s, 4);
    ScanStep(s, 0);
  }

  lemma ScanStep(s: string, i: nat)
    requires i <= |s|
    ensures ScanFrom(s, i) ==
            if i == |s| then []
            else if !IsWord(s[i]) then ScanFrom(s, i + 1)
            else WordMatches(s, i, WordEnd(s, i + 1)) + ScanFrom(s, WordEnd(s, i + 1))
  {
  }

  /** No number is deleted and there is only one subject, and yet the output is shorter than the input:
      the space between the two is cut. */
  lemma OutputCanBeShorter()
    ensures |Expanded("MATH 135").0| == |"MATH 135"| - 1
  {
    var s := "MATH 135";
    OutputLength(s);
    WordsOfMath135();
    var ms := Tokens(s);
    hide Tokens, Expanded;
    assert ms[..2] == ms;
    assert OfKind(ms, 0, SubjectMatch) == OfKind(ms, 0, NumberMatch) == [];
    assert OfKind(ms, 1, SubjectMatch) == [ms[0]] && OfKind(ms, 1, NumberMatch) == [];
    assert OfKind(ms, 2, SubjectMatch) == [ms[0]] && OfKind(ms, 2, NumberMatch) == [ms[1]];
    assert Merged(ms) == ms;
    assert RunStart(ms, 0) == 0 && RunStart(ms, 1) == 0 && RunEnd(ms, 1) == 1;
    assert RunWidth(ms, 0, 0) == 0 && RunWidth(ms, 0, 1) == 4;
    assert WrittenWidth(ms, 1) == 7 && CutWidth(ms, 1) == 8;
    assert Written(ms, 0) == 0 && Written(ms, 1) == 0 && Cut(ms, 0) == 0 && Cut(ms, 1) == 0;
  }

  // ----- which codes are written and listed -----

  lemma {:induction false} NearestRunIsUnique(ms: seq<Match>, k: nat, r: nat, e: nat)
    requires IsNearestRun(ms, k, r, e)
    ensures e == RunEnd(ms, k) && r == RunStart(ms, e)
  {
    if e < k {
      assert IsNearestRun(ms, k - 1, r, e);
      NearestRunIsUnique(ms, k - 1, r, e);
    } else {
      RunStartFrom(ms, r, e);
    }
    RunStartFrom(ms, r, e);
  }

  lemma {:induction false} RunStartFrom(ms: seq<Match>, r: nat, e: nat)
    requires r <= e <= |ms| && (forall j :: r <= j < e ==> ms[j].kind == SubjectMatch)
    requires r > 0 ==> ms[r - 1].kind == NumberMatch
    ensures RunStart(ms, e) == r
  {
    if r < e {
      RunStartFrom(ms, r, e - 1);
    }
  }

  // The subjects of the numbers among the first n words, counted.
  function CodesBefore(ms: seq<Match>, n: nat): nat
    requires n <= |ms|
  {
    if n == 0 then 0
    else
      CodesBefore(ms, n - 1) +
      if ms[n - 1].kind == NumberMatch then RunEnd(ms, n - 1) - RunStart(ms, RunEnd(ms, n - 1)) else 0
  }

  lemma {:induction false} WrittenSnoc(edits: seq<Edit>, last: Edit)
    ensures WrittenCodes(edits + [last]) == WrittenCodes(edits) + LowerAll(last.codes)
  {
    hide LowerAll;
    assert (edits + [last])[..|edits|] == edits;
  }

  // The edit of number k is the next one after those of the numbers before it.
  lemma {:induction false} EditIndex(s: string, ms: seq<Match>, n: nat, k: nat)
    requires k < n <= |ms| && ms[k].kind == NumberMatch
    ensures |Edits(s, ms, k)| < |Edits(s, ms, n)| && Edits(s, ms, n)[|Edits(s, ms, k)|] == EditAt(s, ms, k)
  {
    hide EditAt;
    if k < n - 1 {
      EditIndex(s, ms, n - 1, k);
    }
  }

  lemma {:induction false} CodeCount(s: string, ms: seq<Match>, n: nat)
    requires n <= |ms|
    ensures |WrittenCodes(Edits(s, ms, n))| == CodesBefore(ms, n)
  {
    hide Text, RunStart, RunEnd;
    if n > 0 {
      CodeCount(s, ms, n - 1);
      if ms[n - 1].kind == NumberMatch {
        WrittenSnoc(Edits(s, ms, n - 1), EditAt(s, ms, n - 1));
      } else {
        assert Edits(s, ms, n) == Edits(s, ms, n - 1);
      }
    }
  }

  lemma {:induction false} CodeAt(s: string, ms: seq<Match>, n: nat, k: nat, i: nat)
    requires k < n <= |ms| && ms[k].kind == NumberMatch && i < |Subjects(s, ms, k)|
    ensures CodesBefore(ms, k) + i < |WrittenCodes(Edits(s, ms, n))|
    ensures WrittenCodes(Edits(s, ms, n))[CodesBefore(ms, k) + i] == Lower(Subjects(s, ms, k)[i] + Text(s, ms[k]))
  {
    hide Text, Subjects, CodesBefore, WrittenCodes, RunStart;
    CodeCount(s, ms, k);
    if ms[n - 1].kind == NumberMatch {
      WrittenSnoc(Edits(s, ms, n - 1), EditAt(s, ms, n - 1));
    } else {
      assert Edits(s, ms, n) == Edits(s, ms, n - 1);
    }
    if k < n - 1 {
      CodeAt(s, ms, n - 1, k, i);
    }
  }

  /** For each number word, in order, and each subject word of its nearest run, in order, the next listed code is
      the text of the subject followed by the text of the number, in lower case; nothing else is listed. */
  lemma {:induction false} ListedCodes(s: string, k: nat, r: nat, e: nat, i: nat)
    requires var ms := Merged(Tokens(s));
             k < |ms| && ms[k].kind == NumberMatch && IsNearestRun(ms, k, r, e) && i < e - r
    ensures var ms := Merged(Tokens(s));
            && ms[r + i].start <= ms[r + i].end <= |s| && ms[k].start <= ms[k].end <= |s|
            && CodesBefore(ms, k) + i < |Expanded(s).1| == CodesBefore(ms, |ms|)
            && Expanded(s).1[CodesBefore(ms, k) + i] ==
                 Lower(s[ms[r + i].start..ms[r + i].end] + s[ms[k].start..ms[k].end])
  {
    var ms := Merged(Tokens(s));
    hide Merged, ScanFrom, Edits, WrittenCodes, CodesBefore, ApplyEdits;
    TokensInText(s);
    NearestRunIsUnique(ms, k, r, e);
    CodeCount(s, ms, |ms|);
    CodeAt(s, ms, |ms|, k, i);
    assert Subjects(s, ms, k)[i] == Text(s, ms[r + i]);
    assert ms[r + i].start < ms[r + i].end && ms[k].start < ms[k].end;
  }

  // One code per subject of the run: the text of the subject, then the text of the number.
  ghost predicate AreCodesOfRun(s: string, ms: seq<Match>, k: nat, r: nat, e: nat, codes: seq<string>)
    requires r <= e <= k < |ms|
  {
    |codes| == e - r && forall i :: 0 <= i < e - r ==>
      && ms[r + i].start <= ms[r + i].end <= |s| && ms[k].start <= ms[k].end <= |s|
      && codes[i] == s[ms[r + i].start..ms[r + i].end] + s[ms[k].start..ms[k].end]
  }

  lemma CodesOfRun(s: string, ms: seq<Match>, k: nat, r: nat, e: nat)
    requires InText(s, ms) && k < |ms| && IsNearestRun(ms, k, r, e)
    ensures AreCodesOfRun(s, ms, k, r, e, EditAt(s, ms, k).codes)
  {
    hide RunStart, RunEnd;
    NearestRunIsUnique(ms, k, r, e);
    assert forall j :: 0 <= j < |ms| ==> ms[j].start < ms[j].end <= |s|;
    var subjects := Subjects(s, ms, k);
    forall i | 0 <= i < e - r
      ensures ms[r + i].start <= ms[r + i].end <= |s| && ms[k].start <= ms[k].end <= |s|
      ensures subjects[i] == s[ms[r + i].start..ms[r + i].end] && Text(s, ms[k]) == s[ms[k].start..ms[k].end]
    {
      assert ms[r + i].start < ms[r + i].end && ms[k].start < ms[k].end;
    }
  }

  /** What is written in the place of a number word is, for each subject word of its nearest run, in order, the text
      of the subject followed by the text of the number, and these are joined by single slashes (Bytes.JoinIs). */
  lemma WrittenText(s: string, k: nat, r: nat, e: nat) returns (before: string, codes: seq<string>, after: string)
    requires var ms := Merged(Tokens(s));
             e <= k < |ms| && r <= e && ms[k].kind == NumberMatch && IsNearestRun(ms, k, r, e)
    ensures Expanded(s).0 == before + Join(codes, "/") + after
    ensures AreCodesOfRun(s, Merged(Tokens(s)), k, r, e, codes)
    ensures var edits := Edits(s, Merged(Tokens(s)), |Merged(Tokens(s))|);
            var j := |Edits(s, Merged(Tokens(s)), k)|;
            j < |edits| && edits[j].codes == codes
  {
    hide *;
    var ms := Merged(Tokens(s));
    TokensInText(s);
    EditIndex(s, ms, |ms|, k);
    CodesOfRun(s, ms, k, r, e);
    codes := EditAt(s, ms, k).codes;
    before, after := AppliedAround(s, Edits(s, ms, |ms|), |Edits(s, ms, k)|);
    ExpandedText(s);
  }

  lemma {:induction false} ExpandedText(s: string)
    ensures Expanded(s).0 == ApplyEdits(s, Edits(s, Merged(Tokens(s)), |Merged(Tokens(s))|))
  {
    hide Merged, Tokens, Edits, ApplyEdits, WrittenCodes;
  }

  lemma AppliedAround(s: string, edits: seq<Edit>, j: nat) returns (before: string, after: string)
    requires j < |edits|
    ensures ApplyEdits(s, edits) == before + Join(edits[j].codes, "/") + after
  {
    hide Join, Spliced, Between;
    before, after := SplicedAround(s, edits, j);
    after := after + Between(s, EditedUpTo(edits), |s|);
  }

  lemma {:induction false} SplicedAround(s: string, edits: seq<Edit>, j: nat) returns (before: string, after: string)
    requires j < |edits|
    ensures Spliced(s, edits) == before + Join(edits[j].codes, "/") + after
  {
    hide Join;
    var n := |edits| - 1;
    var gap := Between(s, EditedUpTo(edits[..n]), edits[n].start);
    if j == n {
      before, after := Spliced(s, edits[..n]) + gap, "";
    } else {
      before, after := SplicedAround(s, edits[..n], j);
      after := after + gap + Join(edits[n].codes, "/");
    }
  }

  lemma {:induction false} TokenStep(s: string, i: nat, e: nat, kind: Kind)
    requires i < e <= |s| && (forall j :: i <= j < e ==> IsWord(s[j])) && (e == |s| || !IsWord(s[e]))
    requires HasShape(kind, s[i..e])
    ensures ScanFrom(s, i) == [Match(i, e, kind)] + ScanFrom(s, e)
  {
    hide ScanFrom, IsWord;
    ScanStep(s, i);
    var w := WordEnd(s, i + 1);
    assert w == e;
    assert kind == NumberMatch ==> IsDigit(s[i..e][0]);
  }

  lemma WordsOfPhilPsych()
    ensures Tokens("PHIL/PSYCH 256") ==
            [Match(0, 4, SubjectMatch), Match(5, 10, SubjectMatch), Match(11, 14, NumberMatch)]
  {
    var s := "PHIL/PSYCH 256";
    hide ScanFrom, WordEnd;
    assert s[0..4] == "PHIL" && s[5..10] == "PSYCH" && s[11..14] == "256";
    TokenStep(s, 0, 4, SubjectMatch);
    ScanStep(s, 4);
    TokenStep(s, 5, 10, SubjectMatch);
    ScanStep(s, 10);
    TokenStep(s, 11, 14, NumberMatch);
    ScanStep(s, 14);
  }

  lemma {:induction false} MergedPhilPsych(ms: seq<Match>)
    requires ms == [Match(0, 4, SubjectMatch), Match(5, 10, SubjectMatch), Match(11, 14, NumberMatch)]
    ensures Merged(ms) == ms
    ensures IsNearestRun(ms, 2, 0, 2) && CodesBefore(ms, 2) == 0 && CodesBefore(ms, 3) == 2
  {
    assert ms[..3] == ms;
    assert OfKind(ms, 0, SubjectMatch) == OfKind(ms, 0, NumberMatch) == [];
    assert OfKind(ms, 1, SubjectMatch) == [ms[0]] && OfKind(ms, 1, NumberMatch) == [];
    assert OfKind(ms, 2, SubjectMatch) == [ms[0], ms[1]] && OfKind(ms, 2, NumberMatch) == [];
    assert OfKind(ms, 3, SubjectMatch) == [ms[0], ms[1]] && OfKind(ms, 3, NumberMatch) == [ms[2]];
    NearestRunIsUnique(ms, 2, 0, 2);
    assert CodesBefore(ms, 0) == 0 && CodesBefore(ms, 1) == 0;
  }

  lemma SubjectsOfPhilPsych(s: string, ms: seq<Match>)
    requires s == "PHIL/PSYCH 256"
    requires ms == [Match(0, 4, SubjectMatch), Match(5, 10, SubjectMatch), Match(11, 14, NumberMatch)]
    ensures EditAt(s, ms, 2) == Edit(0, 14, ["PHIL256", "PSYCH256"])
  {
    hide Merged, ScanFrom;
    MergedPhilPsych(ms);
    NearestRunIsUnique(ms, 2, 0, 2);
    assert s[0..4] == "PHIL" && s[5..10] == "PSYCH" && s[11..14] == "256";
    assert Text(s, ms[0]) == "PHIL" && Text(s, ms[1]) == "PSYCH" && Text(s, ms[2]) == "256";
    assert Subjects(s, ms, 2) == ["PHIL", "PSYCH"];
    assert "PHIL" + "256" == "PHIL256" && "PSYCH" + "256" == "PSYCH256";
    assert CodesOf(["PHIL", "PSYCH"], "256") == ["PHIL256", "PSYCH256"];
  }

  lemma {:induction false} EditsOfPhilPsych(s: string, ms: seq<Match>)
    requires s == "PHIL/PSYCH 256"
    requires ms == [Match(0, 4, SubjectMatch), Match(5, 10, SubjectMatch), Match(11, 14, NumberMatch)]
    ensures Edits(s, ms, 3) == [Edit(0, 14, ["PHIL256", "PSYCH256"])]
  {
    SubjectsOfPhilPsych(s, ms);
    OnlyNumber(s, ms);
  }

  lemma {:induction false} OnlyNumber(s: string, ms: seq<Match>)
    requires |ms| == 3 && ms[0].kind == ms[1].kind == SubjectMatch && ms[2].kind == NumberMatch
    ensures Edits(s, ms, 3) == [EditAt(s, ms, 2)]
  {
    hide EditAt;
    assert Edits(s, ms, 0) == [] && Edits(s, ms, 1) == [] && Edits(s, ms, 2) == [];
  }

  lemma OneEdit(s: string, edit: Edit)
    requires edit.start == 0 && edit.end == |s|
    ensures ApplyEdits(s, [edit]) == Join(edit.codes, "/") && WrittenCodes([edit]) == LowerAll(edit.codes)
  {
    hide Join, LowerAll;
    assert [edit][..0] == [];
    assert Spliced(s, []) == "" && WrittenCodes([]) == [];
  }

  lemma {:induction false} ExpandedIs(s: string, ms: seq<Match>, edit: Edit)
    requires Merged(Tokens(s)) == ms && Edits(s, ms, |ms|) == [edit]
    ensures Expanded(s) == (ApplyEdits(s, [edit]), WrittenCodes([edit]))
  {
    hide Merged, Tokens, Edits, ApplyEdits, WrittenCodes;
  }

  /** The example of the source. */
  lemma PhilPsych256()
    ensures Expanded("PHIL/PSYCH 256") == ("PHIL256/PSYCH256", ["phil256", "psych256"])
  {
    hide *;
    var s := "PHIL/PSYCH 256";
    var edit := Edit(0, 14, ["PHIL256", "PSYCH256"]);
    WordsOfPhilPsych();
    MergedPhilPsych(Tokens(s));
    EditsOfPhilPsych(s, Tokens(s));
    ExpandedIs(s, Tokens(s), edit);
    OneEdit(s, edit);
    JoinIs(["PHIL256"], ["PSYCH256"], "/");
    JoinIs(["PSYCH256"], [], "/");
    assert ["PHIL256"] + ["PSYCH256"] == edit.codes;
    assert "PHIL256" + "/" + "PSYCH256" == "PHIL256/PSYCH256";
    LowerPhilPsych();
  }

  lemma LowerPhilPsych()
    ensures LowerAll(["PHIL256", "PSYCH256"]) == ["phil256", "psych256"]
  {
    assert Lower("PHIL256") == "phil256";
    assert Lower("PSYCH256") == "psych256";
  }

  /** What the two expressions match, on words at the borders of their shapes. */
  lemma Shapes()
    ensures HasShape(SubjectMatch, "CS") && !HasShape(SubjectMatch, "C") && !HasShape(SubjectMatch, "Cs")
    ensures HasShape(NumberMatch, "135") && HasShape(NumberMatch, "241E") && HasShape(NumberMatch, "200AB")
    ensures !HasShape(NumberMatch, "13") && !HasShape(NumberMatch, "1350") && !HasShape(NumberMatch, "135e")
  {
    assert "Cs"[1] == 's' && "1350"[3] == '0' && "135e"[3] == 'e';
  }

  /** A dash ends a word, an underscore does not. */
  lemma Borders()
    ensures IsMatch("CS-135", Match(0, 2, SubjectMatch)) && IsMatch("CS-135", Match(3, 6, NumberMatch))
    ensures !IsMatch("CS_135", Match(0, 2, SubjectMatch)) && !IsMatch("CS_135", Match(3, 6, NumberMatch))
  {
    assert "CS-135"[2] == '-' && "CS_135"[2] == '_' && "CS-135"[3] == '1';
    assert "CS-135"[0..2] == "CS" && "CS-135"[3..6] == "135";
    Shapes();
  }
}
