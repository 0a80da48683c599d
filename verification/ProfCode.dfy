/** ProfNameToCode: "Laurent W. Marcoux" -> "laurent_w_marcoux". */
module ProfCode {
  import opened Bytes

  // The maximal runs of Latin letters among the first n bytes, in lower case.
  function LetterRuns(s: string, n: nat): (r: seq<string>)
    requires n <= |s|
    ensures n > 0 && IsLetter(s[n - 1]) ==> r != []
  {
    if n == 0 then []
    else if !IsLetter(s[n - 1]) then LetterRuns(s, n - 1)
    else
      var runs := LetterRuns(s, n - 1);
      if n > 1 && IsLetter(s[n - 2]) then runs[..|runs| - 1] + [runs[|runs| - 1] + [LowerChar(s[n - 1])]]
      else runs + [[LowerChar(s[n - 1])]]
  }

  function CodeOf(name: string): string {
    Join(LetterRuns(name, |name|), "_")
  }

  // ([a-z]+(_[a-z]+)*)?
  predicate IsProfCode(code: string) {
    && (forall i :: 0 <= i < |code| ==> IsLower(code[i]) || code[i] == '_')
    && (code != "" ==> code[0] != '_' && code[|code| - 1] != '_')
    && forall i :: 0 < i < |code| ==> code[i - 1] != '_' || code[i] != '_'
  }

  predicate IsRun(run: string) {
    run != "" && forall i :: 0 <= i < |run| ==> IsLower(run[i])
  }

  lemma {:induction false} JoinSnoc(parts: seq<string>, last: string)
    ensures Join(parts + [last], "_") == if parts == [] then last else Join(parts, "_") + "_" + last
  {
    assert (parts + [last])[..|parts|] == parts;
  }

  lemma {:induction false} RunsAreRuns(s: string, n: nat)
    requires n <= |s|
    ensures forall i :: 0 <= i < |LetterRuns(s, n)| ==> IsRun(LetterRuns(s, n)[i])
  {
    if n > 0 {
      RunsAreRuns(s, n - 1);
      assert IsLetter(s[n - 1]) ==> IsLower(LowerChar(s[n - 1]));
    }
  }

  // One more byte of the name, as it is written out.
  lemma RunsStep(s: string, n: nat)
    requires n < |s|
    ensures var runs, next := LetterRuns(s, n), LetterRuns(s, n + 1);
            if !IsLetter(s[n]) then next == runs
            else if n > 0 && IsLetter(s[n - 1]) then Join(next, "_") == Join(runs, "_") + [LowerChar(s[n])]
            else Join(next, "_") == Join(runs, "_") + (if runs == [] then "" else "_") + [LowerChar(s[n])]
  {
    var runs := LetterRuns(s, n);
    if IsLetter(s[n]) {
      if n > 0 && IsLetter(s[n - 1]) {
        var init, last := runs[..|runs| - 1], runs[|runs| - 1];
        assert runs == init + [last];
        JoinSnoc(init, last);
        JoinSnoc(init, last + [LowerChar(s[n])]);
      } else {
        JoinSnoc(runs, [LowerChar(s[n])]);
      }
    }
  }

  method ProfNameToCode(profName: string) returns (code: string)
    ensures code == CodeOf(profName)
  {
    hide LetterRuns, Join, LowerChar;
    var sb := "";
    var lastIsLetter := false;
    NoRuns(profName);
    for i := 0 to |profName|
      invariant lastIsLetter == (i > 0 && IsLetter(profName[i - 1]))
      invariant LetterRuns(profName, i) == [] ==> sb == "" && !lastIsLetter
      invariant sb == Join(LetterRuns(profName, i), "_") +
                      if !lastIsLetter && LetterRuns(profName, i) != [] then "_" else ""
    {
      RunsStep(profName, i);
      if IsUpper(profName[i]) {
        LowerOf(profName[i]);
        sb := sb + [profName[i] - 'A' + 'a'];
        lastIsLetter := true;
      } else if IsLower(profName[i]) {
        LowerOf(profName[i]);
        sb := sb + [profName[i]];
        lastIsLetter := true;
      } else if lastIsLetter {
        sb := sb + "_";
        lastIsLetter := false;
      }
    }
    if |sb| > 0 && !lastIsLetter {
      // The byte that is dropped is never a letter.
      assert sb[|sb| - 1] == '_';
      return sb[..|sb| - 1];
    } else {
      return sb;
    }
  }

  lemma {:induction false} NoRuns(s: string)
    ensures LetterRuns(s, 0) == [] && Join([], "_") == ""
  {
  }

  lemma LowerOf(c: char)
    ensures LowerChar(c) == if IsUpper(c) then c - 'A' + 'a' else c
    ensures IsLetter(c) ==> IsLower(LowerChar(c))
  {
  }

  lemma {:induction false} JoinedRuns(runs: seq<string>)
    requires forall i :: 0 <= i < |runs| ==> IsRun(runs[i])
    ensures IsProfCode(Join(runs, "_"))
    ensures runs != [] ==> Join(runs, "_") != ""
  {
    if |runs| > 1 {
      var init, last := runs[..|runs| - 1], runs[|runs| - 1];
      JoinedRuns(init);
      var a := Join(init, "_");
      var code := a + "_" + last;
      assert Join(runs, "_") == code;
      assert forall i :: 0 <= i < |code| ==>
          code[i] == if i < |a| then a[i] else if i == |a| then '_' else last[i - |a| - 1];
    }
  }

  /** Every code is a list of lower-case words joined by single underscores. */
  lemma CodeShape(name: string)
    ensures IsProfCode(CodeOf(name))
  {
    RunsAreRuns(name, |name|);
    JoinedRuns(LetterRuns(name, |name|));
  }

  lemma RunsStart(s: string, n: nat)
    requires 0 < n <= |s|
    ensures LetterRuns(s, n) == [] ==> LetterRuns(s, n - 1) == [] && !IsLetter(s[n - 1])
  {
  }

  lemma {:induction false} CodePrefix(code: string, n: nat)
    requires IsProfCode(code) && n <= |code|
    ensures LetterRuns(code, n) == [] <==> n == 0
    ensures Join(LetterRuns(code, n), "_") + (if n > 0 && code[n - 1] == '_' then "_" else "") == code[..n]
  {
    hide LetterRuns, Join, LowerChar;
    if n == 0 {
      NoRuns(code);
    } else {
      CodePrefix(code, n - 1);
      RunsStep(code, n - 1);
      RunsStart(code, n);
      LowerOf(code[n - 1]);
      assert code[..n] == code[..n - 1] + [code[n - 1]];
    }
  }

  /** A code is its own code, so the mapping is idempotent on every name. */
  lemma CodeIsIdempotent(name: string)
    ensures CodeOf(CodeOf(name)) == CodeOf(name)
  {
    var code := CodeOf(name);
    CodeShape(name);
    CodePrefix(code, |code|);
    assert code[..|code|] == code;
  }

  // The letters of s, in lower case and in order.
  function Letters(s: string): string {
    if s == "" then ""
    else Letters(s[..|s| - 1]) + if IsLetter(s[|s| - 1]) then [LowerChar(s[|s| - 1])] else ""
  }

  lemma {:induction false} LettersSnoc(s: string, c: char)
    ensures Letters(s + [c]) == Letters(s) + if IsLetter(c) then [LowerChar(c)] else ""
  {
    assert (s + [c])[..|s|] == s;
  }

  lemma {:induction false} LettersOfPrefix(name: string, n: nat)
    requires n <= |name|
    ensures Letters(Join(LetterRuns(name, n), "_")) == Letters(name[..n])
  {
    hide LetterRuns, Join, Letters, LowerChar;
    if n == 0 {
      NoRuns(name);
    } else {
      var c := name[n - 1];
      LettersOfPrefix(name, n - 1);
      RunsStep(name, n - 1);
      assert name[..n] == name[..n - 1] + [c];
      LettersSnoc(name[..n - 1], c);
      if IsLetter(c) {
        var code := Join(LetterRuns(name, n - 1), "_");
        LowerOf(LowerChar(c));
        LowerOf(c);
        LettersSnoc(code, LowerChar(c));
        LettersSnoc(code, '_');
        LettersSnoc(code + "_", LowerChar(c));
        assert code + "_" == code + ['_'] && code + "" == code;
      }
    }
  }

  /** No letter of the name is lost, added or moved. */
  lemma {:induction false} LettersKept(name: string)
    ensures Letters(CodeOf(name)) == Letters(name)
  {
    LettersOfPrefix(name, |name|);
    assert name[..|name|] == name;
  }

  lemma {:induction false} RunsOfPrefix(x: string, y: string, n: nat)
    requires n <= |x|
    ensures LetterRuns(x + y, n) == LetterRuns(x, n)
  {
    if n > 0 {
      RunsOfPrefix(x, y, n - 1);
    }
  }

  lemma ExtendLast(x: seq<string>, y: seq<string>, c: char)
    requires y != []
    ensures var all := x + y;
            all[..|all| - 1] + [all[|all| - 1] + [c]] == x + (y[..|y| - 1] + [y[|y| - 1] + [c]])
  {
  }

  lemma {:induction false} RunsAfter(a: string, c: char, b: string, j: nat)
    requires !IsLetter(c) && j <= |b|
    ensures LetterRuns(a + [c] + b, |a| + 1 + j) == LetterRuns(a, |a|) + LetterRuns(b, j)
  {
    var s := a + [c] + b;
    if j == 0 {
      assert s == a + ([c] + b);
      RunsOfPrefix(a, [c] + b, |a|);
      assert s[|a|] == c;
    } else {
      hide IsLetter, LowerChar;
      RunsAfter(a, c, b, j - 1);
      assert s[|a| + j] == b[j - 1] && s[|a| + j - 1] == if j > 1 then b[j - 2] else c;
      var x, y := LetterRuns(a, |a|), LetterRuns(b, j - 1);
      if y != [] {
        ExtendLast(x, y, LowerChar(b[j - 1]));
      }
      assert x + (y + [[LowerChar(b[j - 1])]]) == x + y + [[LowerChar(b[j - 1])]];
    }
  }

  /** A name without other characters is its own code in lower case; where another character splits a name, the codes
      of the two sides are joined by one underscore, if neither is empty. */
  lemma {:induction false} CodeIs(a: string, c: char, b: string)
    requires !IsLetter(c)
    ensures (forall i :: 0 <= i < |a| ==> IsLetter(a[i])) ==> CodeOf(a) == Lower(a)
    ensures CodeOf(a + [c] + b) ==
            if CodeOf(a) == "" then CodeOf(b)
            else if CodeOf(b) == "" then CodeOf(a)
            else CodeOf(a) + "_" + CodeOf(b)
  {
    hide LetterRuns, Join;
    RunsAfter(a, c, b, |b|);
    var x, y := LetterRuns(a, |a|), LetterRuns(b, |b|);
    EmptyCode(a);
    EmptyCode(b);
    JoinIs(x, y, "_");
    assert x == [] ==> x + y == y;
    assert y == [] ==> x + y == x;
    if forall i :: 0 <= i < |a| ==> IsLetter(a[i]) {
      if a != "" {
        OneRun(a, |a|);
        assert a[..|a|] == a;
        JoinIs(LetterRuns(a, |a|), [], "_");
      } else {
        NoRuns(a);
      }
    }
  }

  lemma {:induction false} EmptyCode(a: string)
    ensures CodeOf(a) == "" <==> LetterRuns(a, |a|) == []
  {
    RunsAreRuns(a, |a|);
    hide LetterRuns;
    var runs := LetterRuns(a, |a|);
    if runs != [] {
      assert IsRun(runs[|runs| - 1]);
    }
  }

  lemma LowerSnoc(a: string, n: nat)
    requires n < |a|
    ensures Lower(a[..n + 1]) == Lower(a[..n]) + [LowerChar(a[n])]
  {
    hide LowerChar;
  }

  lemma {:induction false} OneRun(a: string, n: nat)
    requires 0 < n <= |a| && forall i :: 0 <= i < |a| ==> IsLetter(a[i])
    ensures LetterRuns(a, n) == [Lower(a[..n])]
  {
    hide LowerChar, IsLetter, Lower;
    LowerSnoc(a, n - 1);
    assert LetterRuns(a, 0) == [];
    if n == 1 {
      EmptyLower(a);
      assert LetterRuns(a, 1) == [[LowerChar(a[0])]];
      assert Lower(a[..1]) == [LowerChar(a[0])];
    } else {
      OneRun(a, n - 1);
      var run := Lower(a[..n - 1]);
      assert [run][..0] == [] && [run][0] == run;
      assert IsLetter(a[n - 2]) && IsLetter(a[n - 1]);
      assert LetterRuns(a, n) == [] + [run + [LowerChar(a[n - 1])]];
    }
  }

  lemma EmptyLower(a: string)
    ensures Lower(a[..0]) == ""
  {
  }
}
