/** fetchCourses and fetchAll over the answers of the API: courses once per code, classes once per course id. */
module Fetch {
  import opened Bytes
  import opened Collections
  import opened Convert

  // One cross-listed code of a course
  datatype Offer = Offer(courseId: string, number: int)

  // What ClassSchedules/{term}/{courseId} answers; None is an error, after which the import goes on.
  type ClassApi = (string, int) -> Option<seq<ApiClass>>

  // ----- first occurrences -----

  ghost predicate IsFirst<T, K>(xs: seq<T>, key: T -> K, i: nat)
    requires i < |xs|
  {
    forall j :: 0 <= j < i ==> key(xs[j]) != key(xs[i])
  }

  ghost function Firsts<T, K>(xs: seq<T>, key: T -> K, n: nat): (r: seq<T>)
    requires n <= |xs|
    ensures forall i :: 0 <= i < |r| ==> r[i] in xs[..n]
  {
    if n == 0 then []
    else
      var earlier := Firsts(xs, key, n - 1);
      if IsFirst(xs, key, n - 1) then earlier + [xs[n - 1]] else earlier
  }

  ghost predicate HasKey<T, K>(xs: seq<T>, n: nat, key: T -> K, k: K)
    requires n <= |xs|
  {
    exists i :: 0 <= i < n && key(xs[i]) == k
  }

  /** First occurrences have distinct keys, and every key has one. */
  lemma {:induction false} FirstsAre<T, K>(xs: seq<T>, key: T -> K, n: nat, k: K)
    requires n <= |xs|
    ensures DistinctBy(Firsts(xs, key, n), key)
    ensures var firsts := Firsts(xs, key, n);
            HasKey(firsts, |firsts|, key, k) <==> HasKey(xs, n, key, k)
  {
    if n > 0 {
      FirstsAre(xs, key, n - 1, k);
      FirstsAre(xs, key, n - 1, key(xs[n - 1]));
      FirstsStep(xs, key, n, k);
    }
  }

  lemma FirstsStep<T, K>(xs: seq<T>, key: T -> K, n: nat, k: K)
    requires 0 < n <= |xs|
    requires var earlier := Firsts(xs, key, n - 1);
             && DistinctBy(earlier, key)
             && (HasKey(earlier, |earlier|, key, k) <==> HasKey(xs, n - 1, key, k))
             && (HasKey(earlier, |earlier|, key, key(xs[n - 1])) <==> HasKey(xs, n - 1, key, key(xs[n - 1])))
    ensures var firsts := Firsts(xs, key, n);
            && DistinctBy(firsts, key)
            && (HasKey(firsts, |firsts|, key, k) <==> HasKey(xs, n, key, k))
  {
    var earlier, firsts := Firsts(xs, key, n - 1), Firsts(xs, key, n);
    if IsFirst(xs, key, n - 1) {
      assert !HasKey(xs, n - 1, key, key(xs[n - 1]));
      assert forall i :: 0 <= i < |earlier| ==> key(firsts[i]) == key(earlier[i]);
      assert firsts[|earlier|] == xs[n - 1];
    }
  }

  /** The loops over seenCourse and seenCourseId */
  method Deduplicate<T, K(==)>(xs: seq<T>, key: T -> K) returns (r: seq<T>)
    ensures r == Firsts(xs, key, |xs|)
  {
    r := [];
    var seen: set<K> := {};
    for i := 0 to |xs|
      invariant r == Firsts(xs, key, i)
      invariant forall j :: 0 <= j < i ==> key(xs[j]) in seen
      invariant forall k :: k in seen ==> HasKey(xs, i, key, k)
    {
      assert forall k :: HasKey(xs, i, key, k) ==> HasKey(xs, i + 1, key, k);
      if key(xs[i]) !in seen {
        r := r + [xs[i]];
        assert HasKey(xs, i + 1, key, key(xs[i]));
        seen := seen + {key(xs[i])};
      }
    }
  }

  // ----- courses -----

  function RawCode(c: ApiCourse): string {
    c.subject + c.number
  }

  function CourseIdOf(c: ApiCourse): string {
    c.courseId
  }

  // The courses of all terms, in term order; None when one request fails.
  function AllTerms(answers: seq<Option<seq<ApiCourse>>>, n: nat): Option<seq<ApiCourse>>
    requires n <= |answers|
  {
    if n == 0 then Some([])
    else
      var earlier := AllTerms(answers, n - 1);
      if earlier.None? || answers[n - 1].None? then None else Some(earlier.value + answers[n - 1].value)
  }

  ghost function FetchedCourses(all: seq<ApiCourse>): seq<ApiCourse> {
    Firsts(all, RawCode, |all|)
  }

  /** fetchCourses */
  method FetchCourses(answers: seq<Option<seq<ApiCourse>>>) returns (courses: Option<seq<ApiCourse>>)
    ensures courses.None? <==> AllTerms(answers, |answers|).None?
    ensures courses.Some? ==> courses.value == FetchedCourses(AllTerms(answers, |answers|).value)
  {
    var all := [];
    for i := 0 to |answers|
      invariant AllTerms(answers, i) == Some(all)
    {
      if answers[i].None? {
        FailedTerm(answers, i + 1, |answers|);
        return None;
      }
      all := all + answers[i].value;
    }
    var firsts := Deduplicate(all, RawCode);
    return Some(firsts);
  }

  lemma {:induction false} FailedTerm(answers: seq<Option<seq<ApiCourse>>>, i: nat, n: nat)
    requires i <= n <= |answers| && AllTerms(answers, i).None?
    ensures AllTerms(answers, n).None?
  {
    if i < n {
      FailedTerm(answers, i, n - 1);
    }
  }

  // The same non-empty code, in lower case
  predicate SameCode(a: ApiCourse, b: ApiCourse) {
    CodeOf(a) == CodeOf(b) && CodeOf(a) != ""
  }

  // Two of the courses have codes that differ in letter case only.
  ghost predicate CaseClash(courses: seq<ApiCourse>) {
    exists i, j ::
      0 <= i < j < |courses| && RawCode(courses[i]) != RawCode(courses[j]) && SameCode(courses[i], courses[j])
  }

  // ----- classes -----

  // The code of the last course of this offer among the first n
  function CodeOfOffer(courses: seq<ApiCourse>, n: nat, offer: Offer): Option<string>
    requires n <= |courses|
  {
    if n == 0 then None
    else if Offer(courses[n - 1].courseId, courses[n - 1].offerNumber) == offer then Some(CodeOf(courses[n - 1]))
    else CodeOfOffer(courses, n - 1, offer)
  }

  function Labelled(courses: seq<ApiCourse>, course: ApiCourse, c: ApiClass): ApiClass {
    var code := CodeOfOffer(courses, |courses|, Offer(c.courseId, c.offerNumber));
    c.(courseCode := if code.Some? then code.value else CodeOf(course))
  }

  function LabelledAll(courses: seq<ApiCourse>, course: ApiCourse, cs: seq<ApiClass>): (r: seq<ApiClass>)
    ensures |r| == |cs| && forall i :: 0 <= i < |r| ==> r[i] == Labelled(courses, course, cs[i])
  {
    seq(|cs|, i requires 0 <= i < |cs| => Labelled(courses, course, cs[i]))
  }

  // The classes of one course, over the first n terms
  function ClassesOf(
    api: ClassApi, courses: seq<ApiCourse>, course: ApiCourse, termIds: seq<int>, n: nat): seq<ApiClass>
    requires n <= |termIds|
  {
    if n == 0 then []
    else
      var earlier := ClassesOf(api, courses, course, termIds, n - 1);
      var answer := api(course.courseId, termIds[n - 1]);
      if answer.None? then earlier else earlier + LabelledAll(courses, course, answer.value)
  }

  // The classes of the first n courses, each asked for by its id
  function ClassesOfAll(
    api: ClassApi, courses: seq<ApiCourse>, unique: seq<ApiCourse>, termIds: seq<int>, n: nat): seq<ApiClass>
    requires n <= |unique|
  {
    if n == 0 then []
    else ClassesOfAll(api, courses, unique, termIds, n - 1) + ClassesOf(api, courses, unique[n - 1], termIds, |termIds|)
  }

  ghost function FetchedClasses(api: ClassApi, courses: seq<ApiCourse>, termIds: seq<int>): seq<ApiClass> {
    var unique := Firsts(courses, CourseIdOf, |courses|);
    ClassesOfAll(api, courses, unique, termIds, |unique|)
  }

  ghost predicate IsCodeOf(courses: seq<ApiCourse>, code: string) {
    exists i :: 0 <= i < |courses| && CodeOf(courses[i]) == code
  }

  lemma {:induction false} CodeOfOfferIs(courses: seq<ApiCourse>, n: nat, offer: Offer)
    requires n <= |courses|
    ensures CodeOfOffer(courses, n, offer).None? <==>
            forall i :: 0 <= i < n ==> Offer(courses[i].courseId, courses[i].offerNumber) != offer
    ensures CodeOfOffer(courses, n, offer).Some? ==> IsCodeOf(courses, CodeOfOffer(courses, n, offer).value)
  {
    hide CodeOf;
    if n > 0 {
      CodeOfOfferIs(courses, n - 1, offer);
    }
  }

  lemma LabelIsCode(courses: seq<ApiCourse>, course: ApiCourse, c: ApiClass)
    requires course in courses
    ensures IsCodeOf(courses, Labelled(courses, course, c).courseCode)
  {
    hide CodeOf;
    CodeOfOfferIs(courses, |courses|, Offer(c.courseId, c.offerNumber));
  }

  lemma {:induction false} LabelsOfCourse(
    api: ClassApi, courses: seq<ApiCourse>, course: ApiCourse, termIds: seq<int>, n: nat, k: nat)
    requires n <= |termIds| && course in courses && k < |ClassesOf(api, courses, course, termIds, n)|
    ensures IsCodeOf(courses, ClassesOf(api, courses, course, termIds, n)[k].courseCode)
  {
    hide IsCodeOf, Labelled;
    var earlier := ClassesOf(api, courses, course, termIds, n - 1);
    if k < |earlier| {
      LabelsOfCourse(api, courses, course, termIds, n - 1, k);
    } else {
      LabelIsCode(courses, course, api(course.courseId, termIds[n - 1]).value[k - |earlier|]);
    }
  }

  lemma {:induction false} LabelsOfAll(
    api: ClassApi, courses: seq<ApiCourse>, unique: seq<ApiCourse>, termIds: seq<int>, n: nat, k: nat)
    requires n <= |unique| && k < |ClassesOfAll(api, courses, unique, termIds, n)|
    requires forall i :: 0 <= i < |unique| ==> unique[i] in courses
    ensures IsCodeOf(courses, ClassesOfAll(api, courses, unique, termIds, n)[k].courseCode)
  {
    hide IsCodeOf, ClassesOf;
    var earlier := ClassesOfAll(api, courses, unique, termIds, n - 1);
    if k < |earlier| {
      LabelsOfAll(api, courses, unique, termIds, n - 1, k);
    } else {
      LabelsOfCourse(api, courses, unique[n - 1], termIds, |termIds|, k - |earlier|);
    }
  }

  /** Every fetched class carries the code of a fetched course. */
  lemma ClassCodesAreKnown(api: ClassApi, courses: seq<ApiCourse>, termIds: seq<int>, k: nat)
    requires k < |FetchedClasses(api, courses, termIds)|
    ensures IsCodeOf(courses, FetchedClasses(api, courses, termIds)[k].courseCode)
  {
    hide IsCodeOf, ClassesOfAll;
    var unique := Firsts(courses, CourseIdOf, |courses|);
    assert courses[..|courses|] == courses;
    LabelsOfAll(api, courses, unique, termIds, |unique|, k);
  }

  /** fetchAll, after the courses are known */
  method FetchClasses(api: ClassApi, courses: seq<ApiCourse>, termIds: seq<int>) returns (classes: seq<ApiClass>)
    ensures classes == FetchedClasses(api, courses, termIds)
  {
    hide Labelled, CodeOf;
    var offerToCode: map<Offer, string> := map[];
    for i := 0 to |courses|
      invariant forall offer :: offer in offerToCode <==> CodeOfOffer(courses, i, offer).Some?
      invariant forall offer :: offer in offerToCode ==> CodeOfOffer(courses, i, offer) == Some(offerToCode[offer])
    {
      offerToCode := offerToCode[Offer(courses[i].courseId, courses[i].offerNumber) := CodeOf(courses[i])];
    }
    var uniqueCourses := Deduplicate(courses, CourseIdOf);
    classes := [];
    for i := 0 to |uniqueCourses|
      invariant classes == ClassesOfAll(api, courses, uniqueCourses, termIds, i)
    {
      var fetched := FetchTerms(api, courses, uniqueCourses[i], termIds, offerToCode);
      classes := classes + fetched;
    }
  }

  method FetchTerms(
    api: ClassApi, ghost courses: seq<ApiCourse>, course: ApiCourse, termIds: seq<int>, offerToCode: map<Offer, string>)
    returns (classes: seq<ApiClass>)
    requires forall offer :: offer in offerToCode <==> CodeOfOffer(courses, |courses|, offer).Some?
    requires forall offer :: offer in offerToCode ==> CodeOfOffer(courses, |courses|, offer) == Some(offerToCode[offer])
    ensures classes == ClassesOf(api, courses, course, termIds, |termIds|)
  {
    hide CodeOfOffer, CodeOf;
    classes := [];
    for i := 0 to |termIds|
      invariant classes == ClassesOf(api, courses, course, termIds, i)
    {
      var fetched := api(course.courseId, termIds[i]);
      if fetched.Some? {
        ghost var earlier := classes;
        for k := 0 to |fetched.value|
          invariant classes == earlier + LabelledAll(courses, course, fetched.value)[..k]
        {
          var c := fetched.value[k];
          var offer := Offer(c.courseId, c.offerNumber);
          var code := if offer in offerToCode then offerToCode[offer] else CodeOf(course);
          classes := classes + [c.(courseCode := code)];
        }
      }
    }
  }

  // ----- no section twice -----

  // Every class has a term, and a class number of a term is listed once, under one course id.
  ghost predicate WellBehaved(api: ClassApi) {
    && (forall a, s, i :: Answers(api, a, s, i) ==> KeyOf(api(a, s).value[i]).Some?)
    && forall a, s, b, t, i, j :: SameSection(api, a, s, i, b, t, j) ==> a == b && s == t && i == j
  }

  ghost predicate Answers(api: ClassApi, courseId: string, termId: int, i: int) {
    api(courseId, termId).Some? && 0 <= i < |api(courseId, termId).value|
  }

  ghost predicate SameSection(api: ClassApi, a: string, s: int, i: int, b: string, t: int, j: int) {
    && Answers(api, a, s, i) && Answers(api, b, t, j)
    && KeyOf(api(a, s).value[i]) == KeyOf(api(b, t).value[j])
  }

  ghost predicate Lists(api: ClassApi, courseId: string, termId: int, i: int, key: Option<Key>) {
    Answers(api, courseId, termId, i) && KeyOf(api(courseId, termId).value[i]) == key
  }

  // A key that the API lists for one of the first n terms
  ghost predicate Listed(api: ClassApi, courseId: string, termIds: seq<int>, n: nat, key: Option<Key>)
    requires n <= |termIds|
  {
    exists t, i :: 0 <= t < n && Lists(api, courseId, termIds[t], i, key)
  }

  lemma {:induction false} KeysOfCourse(
    api: ClassApi, courses: seq<ApiCourse>, course: ApiCourse, termIds: seq<int>, n: nat, k: nat)
    requires n <= |termIds| && k < |ClassesOf(api, courses, course, termIds, n)|
    ensures Listed(api, course.courseId, termIds, n, KeyOf(ClassesOf(api, courses, course, termIds, n)[k]))
  {
    var earlier := ClassesOf(api, courses, course, termIds, n - 1);
    if k < |earlier| {
      KeysOfCourse(api, courses, course, termIds, n - 1, k);
    } else {
      var key := KeyOf(ClassesOf(api, courses, course, termIds, n)[k]);
      assert Lists(api, course.courseId, termIds[n - 1], k - |earlier|, key);
    }
  }

  lemma DistinctConcat<T, K>(a: seq<T>, b: seq<T>, key: T -> K)
    requires DistinctBy(a, key) && DistinctBy(b, key)
    requires forall i, j :: 0 <= i < |a| && 0 <= j < |b| ==> key(a[i]) != key(b[j])
    ensures DistinctBy(a + b, key)
  {
  }

  lemma {:induction false} KeysOfCourseDistinct(
    api: ClassApi, courses: seq<ApiCourse>, course: ApiCourse, termIds: seq<int>, n: nat)
    requires n <= |termIds| && WellBehaved(api) && Distinct(termIds)
    ensures DistinctBy(ClassesOf(api, courses, course, termIds, n), KeyOf)
  {
    hide WellBehaved, KeyOf, Listed;
    if n > 0 {
      KeysOfCourseDistinct(api, courses, course, termIds, n - 1);
      var earlier := ClassesOf(api, courses, course, termIds, n - 1);
      var answer := api(course.courseId, termIds[n - 1]);
      if answer.Some? {
        var last := LabelledAll(courses, course, answer.value);
        forall i, j | 0 <= i < |earlier| && 0 <= j < |last|
          ensures KeyOf(earlier[i]) != KeyOf(last[j])
        {
          KeysOfCourse(api, courses, course, termIds, n - 1, i);
          LaterTermIsNew(api, course.courseId, termIds, n - 1, j);
          LabelKeepsKey(courses, course, answer.value[j]);
        }
        AnswerIsDistinct(api, courses, course, termIds[n - 1]);
        DistinctConcat(earlier, last, KeyOf);
      }
    }
  }

  lemma LabelKeepsKey(courses: seq<ApiCourse>, course: ApiCourse, c: ApiClass)
    ensures KeyOf(Labelled(courses, course, c)) == KeyOf(c)
  {
    hide CodeOfOffer, CodeOf;
  }

  lemma LaterTermIsNew(api: ClassApi, courseId: string, termIds: seq<int>, n: nat, j: nat)
    requires n < |termIds| && WellBehaved(api) && Distinct(termIds)
    requires Answers(api, courseId, termIds[n], j)
    ensures !Listed(api, courseId, termIds, n, KeyOf(api(courseId, termIds[n]).value[j]))
  {
    hide KeyOf, WellBehaved;
    var key := KeyOf(api(courseId, termIds[n]).value[j]);
    if Listed(api, courseId, termIds, n, key) {
      var t, i :| 0 <= t < n && Lists(api, courseId, termIds[t], i, key);
      OneAnswer(api, courseId, termIds[t], i, courseId, termIds[n], j);
    }
  }

  lemma AnswerIsDistinct(api: ClassApi, courses: seq<ApiCourse>, course: ApiCourse, termId: int)
    requires WellBehaved(api) && api(course.courseId, termId).Some?
    ensures DistinctBy(LabelledAll(courses, course, api(course.courseId, termId).value), KeyOf)
  {
    hide KeyOf, WellBehaved;
    var answer := api(course.courseId, termId).value;
    var labelled := LabelledAll(courses, course, answer);
    forall i, j | 0 <= i < j < |labelled|
      ensures KeyOf(labelled[i]) != KeyOf(labelled[j])
    {
      LabelKeepsKey(courses, course, answer[i]);
      LabelKeepsKey(courses, course, answer[j]);
      OneAnswer(api, course.courseId, termId, i, course.courseId, termId, j);
    }
  }

  lemma OneAnswer(api: ClassApi, a: string, s: int, i: int, b: string, t: int, j: int)
    requires WellBehaved(api) && Answers(api, a, s, i) && Answers(api, b, t, j)
    ensures KeyOf(api(a, s).value[i]) == KeyOf(api(b, t).value[j]) ==> a == b && s == t && i == j
  {
    hide KeyOf;
    assert KeyOf(api(a, s).value[i]) == KeyOf(api(b, t).value[j]) ==> SameSection(api, a, s, i, b, t, j);
  }

  lemma ListedForOne(api: ClassApi, a: string, b: string, termIds: seq<int>, key: Option<Key>)
    requires WellBehaved(api) && Listed(api, a, termIds, |termIds|, key) && Listed(api, b, termIds, |termIds|, key)
    ensures a == b
  {
    hide KeyOf, WellBehaved;
    var s, i :| 0 <= s < |termIds| && Answers(api, a, termIds[s], i) && KeyOf(api(a, termIds[s]).value[i]) == key;
    var t, j :| 0 <= t < |termIds| && Answers(api, b, termIds[t], j) && KeyOf(api(b, termIds[t]).value[j]) == key;
    OneAnswer(api, a, termIds[s], i, b, termIds[t], j);
  }

  lemma {:induction false} KeysOfAll(
    api: ClassApi, courses: seq<ApiCourse>, unique: seq<ApiCourse>, termIds: seq<int>, n: nat, k: nat)
    returns (u: nat)
    requires n <= |unique| && k < |ClassesOfAll(api, courses, unique, termIds, n)|
    ensures u < n && Listed(api, unique[u].courseId, termIds, |termIds|,
            KeyOf(ClassesOfAll(api, courses, unique, termIds, n)[k]))
  {
    hide Listed, KeyOf, ClassesOf;
    var earlier := ClassesOfAll(api, courses, unique, termIds, n - 1);
    if k < |earlier| {
      u := KeysOfAll(api, courses, unique, termIds, n - 1, k);
    } else {
      u := n - 1;
      KeysOfCourse(api, courses, unique[u], termIds, |termIds|, k - |earlier|);
    }
  }

  lemma {:induction false} KeysOfAllDistinct(
    api: ClassApi, courses: seq<ApiCourse>, unique: seq<ApiCourse>, termIds: seq<int>, n: nat)
    requires n <= |unique| && WellBehaved(api)
    requires Distinct(termIds) && DistinctBy(unique, CourseIdOf)
    ensures DistinctBy(ClassesOfAll(api, courses, unique, termIds, n), KeyOf)
  {
    hide WellBehaved, KeyOf, Listed, ClassesOf;
    if n > 0 {
      KeysOfAllDistinct(api, courses, unique, termIds, n - 1);
      var earlier := ClassesOfAll(api, courses, unique, termIds, n - 1);
      var last := ClassesOf(api, courses, unique[n - 1], termIds, |termIds|);
      KeysOfCourseDistinct(api, courses, unique[n - 1], termIds, |termIds|);
      forall i, j | 0 <= i < |earlier| && 0 <= j < |last|
        ensures KeyOf(earlier[i]) != KeyOf(last[j])
      {
        var u := KeysOfAll(api, courses, unique, termIds, n - 1, i);
        KeysOfCourse(api, courses, unique[n - 1], termIds, |termIds|, j);
        assert CourseIdOf(unique[u]) != CourseIdOf(unique[n - 1]);
        if KeyOf(earlier[i]) == KeyOf(last[j]) {
          ListedForOne(api, unique[u].courseId, unique[n - 1].courseId, termIds, KeyOf(last[j]));
        }
      }
      DistinctConcat(earlier, last, KeyOf);
    }
  }

  /** Asking for each course id once per distinct term fetches no section twice,
      when the API lists each section under one course id. */
  lemma NoSectionTwice(api: ClassApi, courses: seq<ApiCourse>, termIds: seq<int>)
    requires WellBehaved(api) && Distinct(termIds)
    ensures DistinctBy(FetchedClasses(api, courses, termIds), KeyOf)
  {
    hide WellBehaved, ClassesOfAll;
    var unique := Firsts(courses, CourseIdOf, |courses|);
    FirstsAre(courses, CourseIdOf, |courses|, "");
    KeysOfAllDistinct(api, courses, unique, termIds, |unique|);
  }

  /** The fetched courses have distinct codes, so that two of their lower-case codes are equal
      exactly when the codes differ in letter case only. */
  lemma FetchedCodesClash(all: seq<ApiCourse>)
    ensures var courses := FetchedCourses(all);
            CaseClash(courses) <==>
            exists i, j :: 0 <= i < j < |courses| && SameCode(courses[i], courses[j])
  {
    hide CodeOf, Firsts;
    FirstsAre(all, RawCode, |all|, "");
  }

  /** "CS" "135" and "cs" "135" are fetched as two courses and have one lower-case code. */
  lemma CaseClashExample()
    ensures var a := ApiCourse("000001", 1, "CS", "135", "Programs", None, None);
            CaseClash(FetchedCourses([a, a.(subject := "cs")]))
  {
    var a := ApiCourse("000001", 1, "CS", "135", "Programs", None, None);
    var b := a.(subject := "cs");
    var all := [a, b];
    assert RawCode(a) == "CS135" && RawCode(b) == "cs135" && RawCode(a)[0] != RawCode(b)[0];
    assert Firsts(all, RawCode, 0) == [];
    assert IsFirst(all, RawCode, 0) && IsFirst(all, RawCode, 1);
    assert Firsts(all, RawCode, 1) == [a];
    assert Firsts(all, RawCode, 2) == [a, b];
    assert CodeOf(a) == Lower("CS135") == "cs135" && CodeOf(b) == Lower("cs135") == "cs135";
    var courses := FetchedCourses(all);
    assert courses[0] == a && courses[1] == b;
  }

  // ----- what is fetched -----

  /** The courses of all terms are the answers one after another. */
  lemma {:induction false} AllTermsAre(answers: seq<Option<seq<ApiCourse>>>, n: nat, c: ApiCourse)
    requires n <= |answers|
    ensures AllTerms(answers, n).None? <==> exists i :: 0 <= i < n && answers[i].None?
    ensures AllTerms(answers, n).Some? ==>
              (c in AllTerms(answers, n).value <==> exists i :: 0 <= i < n && answers[i].Some? && c in answers[i].value)
    ensures n > 0 && AllTerms(answers, n).Some? ==>
              && AllTerms(answers, n - 1).Some? && answers[n - 1].Some?
              && AllTerms(answers, n).value == AllTerms(answers, n - 1).value + answers[n - 1].value
  {
    if n > 0 {
      AllTermsAre(answers, n - 1, c);
    }
  }

  // Course i is the last of its offer, and the class belongs to the offer.
  predicate OfLastOffer(courses: seq<ApiCourse>, c: ApiClass, i: int) {
    && 0 <= i < |courses| && courses[i].courseId == c.courseId && courses[i].offerNumber == c.offerNumber
    && forall j :: i < j < |courses| ==> courses[j].courseId != c.courseId || courses[j].offerNumber != c.offerNumber
  }

  /** A class gets the code of the last course of its offer, or else of the course asked for; nothing else changes. */
  lemma {:induction false} LabelIs(courses: seq<ApiCourse>, course: ApiCourse, c: ApiClass)
    ensures Labelled(courses, course, c).(courseCode := c.courseCode) == c
    ensures forall i :: OfLastOffer(courses, c, i) ==>
              Labelled(courses, course, c).courseCode == Lower(courses[i].subject + courses[i].number)
    ensures (forall i :: 0 <= i < |courses| ==>
               courses[i].courseId != c.courseId || courses[i].offerNumber != c.offerNumber) ==>
              Labelled(courses, course, c).courseCode == Lower(course.subject + course.number)
  {
    var offer := Offer(c.courseId, c.offerNumber);
    forall i | OfLastOffer(courses, c, i)
      ensures CodeOfOffer(courses, |courses|, offer) == Some(CodeOf(courses[i]))
    {
      LastOfOffer(courses, |courses|, offer, i);
    }
    CodeOfOfferIs(courses, |courses|, offer);
  }

  lemma {:induction false} LastOfOffer(courses: seq<ApiCourse>, n: nat, offer: Offer, i: nat)
    requires i < n <= |courses| && Offer(courses[i].courseId, courses[i].offerNumber) == offer
    requires forall j :: i < j < n ==> Offer(courses[j].courseId, courses[j].offerNumber) != offer
    ensures CodeOfOffer(courses, n, offer) == Some(CodeOf(courses[i]))
  {
    hide CodeOf;
    if i < n - 1 {
      LastOfOffer(courses, n - 1, offer, i);
    }
  }

  /** Each class that the API lists for a fetched course and term is fetched, with its label. */
  lemma {:induction false} ClassIsFetched(
    api: ClassApi, courses: seq<ApiCourse>, course: ApiCourse, termIds: seq<int>, n: nat, t: nat, i: nat)
    requires t < n <= |termIds| && Answers(api, course.courseId, termIds[t], i)
    ensures Labelled(courses, course, api(course.courseId, termIds[t]).value[i]) in
            ClassesOf(api, courses, course, termIds, n)
  {
    hide Labelled;
    if t < n - 1 {
      ClassIsFetched(api, courses, course, termIds, n - 1, t, i);
    } else {
      var answer := api(course.courseId, termIds[t]).value;
      assert LabelledAll(courses, course, answer)[i] in LabelledAll(courses, course, answer);
    }
  }
}
