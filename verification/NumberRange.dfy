/** ExpandNumberRange: "LEC 001,003-005,007" -> [1, 3, 4, 5, 7]. */
module NumberRange {
  import opened Bytes
  import opened Decimal

  // The end of the run of digits that starts at position i.
  function RunEnd(s: string, i: nat): (e: nat)
    requires i <= |s|
    ensures i <= e <= |s|
    ensures forall k :: i <= k < e ==> IsDigit(s[k])
    ensures e < |s| ==> !IsDigit(s[e])
    decreases |s| - i
  {
    if i < |s| && IsDigit(s[i]) then RunEnd(s, i + 1) else i
  }

  // a, and then every number up to b
  function Range(a: int, b: int): (r: seq<int>)
    ensures |r| == if b > a then b - a + 1 else 1
    ensures forall i :: 0 <= i < |r| ==> r[i] == a + i
    decreases b - a
  {
    if b <= a then [a] else Range(a, b - 1) + [b]
  }

  // The run of digits at position i, and the end of what it takes: a run that a dash joins to the
  // next run denotes a range together with it, any other run denotes its number.
  function Item(s: string, i: nat): (r: (seq<int>, nat))
    requires i < |s| && IsDigit(s[i])
    ensures i < r.1 <= |s|
  {
    var j := RunEnd(s, i);
    var a := Value(s[i..j]);
    if j + 1 < |s| && s[j] == '-' && IsDigit(s[j + 1]) then
      var k := RunEnd(s, j + 1);
      (Range(a, Value(s[j + 1..k])), k)
    else ([a], j)
  }

  // The left-to-right reading of the maximal runs of digits from position i on.
  function ReadFrom(s: string, i: nat): seq<int>
    requires i <= |s|
    decreases |s| - i
  {
    if i == |s| then []
    else if !IsDigit(s[i]) then ReadFrom(s, i + 1)
    else Item(s, i).0 + ReadFrom(s, Item(s, i).1)
  }

  function Read(s: string): seq<int> {
    ReadFrom(s, 0)
  }

  // Nothing is left to read one past the end.
  function Rest(s: string, i: nat): seq<int> {
    if i <= |s| then ReadFrom(s, i) else []
  }

  lemma {:induction false} RunEndIs(s: string, i: nat, e: nat)
    requires i <= e <= |s|
    requires forall k :: i <= k < e ==> IsDigit(s[k])
    requires e < |s| ==> !IsDigit(s[e])
    ensures RunEnd(s, i) == e
    decreases e - i
  {
    if i < e {
      RunEndIs(s, i + 1, e);
    }
  }

  method ParseNumber(input: string) returns (result: nat, consumed: nat)
    ensures consumed <= |input| && AllDigits(input[..consumed])
    ensures consumed < |input| ==> !IsDigit(input[consumed])
    ensures result == Value(input[..consumed])
  {
    var number, i := 0, 0;
    while i < |input| && IsDigit(input[i])
      invariant i <= |input| && AllDigits(input[..i])
      invariant number == Value(input[..i])
    {
      assert input[..i + 1][..i] == input[..i];
      number := number * 10 + DigitValue(input[i]);
      i := i + 1;
    }
    return number, i;
  }

  // n digits were parsed at position i.
  ghost predicate Parsed(s: string, i: nat, n: nat) {
    && i + n <= |s| && AllDigits(s[i..][..n])
    && (n < |s| - i ==> !IsDigit(s[i..][n]))
  }

  // A number parsed from position i on is the run of digits there.
  lemma ParsedRun(s: string, i: nat, n: nat)
    requires Parsed(s, i, n)
    ensures RunEnd(s, i) == i + n && s[i..][..n] == s[i..i + n]
    ensures i < |s| ==> (n > 0 <==> IsDigit(s[i]))
    ensures i + n < |s| ==> !IsDigit(s[i + n])
  {
    assert s[i..][..n] == s[i..i + n];
    forall k | i <= k < i + n
      ensures IsDigit(s[k])
    {
      assert s[i..i + n][k - i] == s[k];
    }
    RunEndIs(s, i, i + n);
  }

  lemma ParsedItem(s: string, i: nat, n: nat, m: nat)
    requires i < |s| && 0 < n && Parsed(s, i, n)
    requires if i + n + 1 < |s| && s[i + n] == '-' then Parsed(s, i + n + 1, m) else m == 0
    ensures IsDigit(s[i])
    ensures Item(s, i) == if m == 0 then ([Value(s[i..][..n])], i + n)
                          else (Range(Value(s[i..][..n]), Value(s[i + n + 1..][..m])), i + n + 1 + m)
  {
    hide Value, Range, AllDigits, RunEnd;
    ParsedRun(s, i, n);
    if i + n + 1 < |s| && s[i + n] == '-' {
      ParsedRun(s, i + n + 1, m);
    }
  }

  // Stepping over a byte that is not a digit, or over the end.
  lemma StepOver(s: string, i: nat)
    requires i <= |s| && (i < |s| ==> !IsDigit(s[i]))
    ensures Rest(s, i) == Rest(s, i + 1)
  {
  }

  lemma ReadItem(s: string, i: nat)
    requires i < |s| && IsDigit(s[i])
    ensures Rest(s, i) == Item(s, i).0 + Rest(s, Item(s, i).1)
  {
  }

  method ExpandNumberRange(input: string) returns (numbers: seq<int>)
    ensures numbers == Read(input)
  {
    hide Range, Value, AllDigits, ReadFrom, Rest, Item, IsDigit, RunEnd;
    numbers := [];
    var N := |input|;
    var i := 0;
    ReadEnds(input);
    while i < N
      invariant i <= N + 1
      invariant Read(input) == numbers + Rest(input, i)
      decreases N - i
    {
      ghost var before, start := numbers, i;
      ghost var m := 0;
      var currentNumber, consumed := ParseNumber(input[i..]);
      ParsedRun(input, i, consumed);
      i := i + consumed;
      if consumed > 0 {
        numbers := numbers + [currentNumber];
        if i < N - 1 && input[i] == '-' {
          var nextNumber, more := ParseNumber(input[i + 1..]);
          ParsedRun(input, i + 1, more);
          DashIsNoDigit();
          StepOver(input, i);
          i := i + more + 1;
          m := more;
          if more > 0 {
            var others := AfterFirst(currentNumber, nextNumber);
            numbers := numbers + others;
            assert numbers == before + ([currentNumber] + others);
          }
        }
        ParsedItem(input, start, consumed, m);
        ReadItem(input, start);
        assert numbers == before + Item(input, start).0;
      }
      StepOver(input, i);
      i := i + 1;
    }
  }

  lemma ReadEnds(s: string)
    ensures Read(s) == [] + Rest(s, 0)
    ensures Rest(s, |s|) == [] && Rest(s, |s| + 1) == []
  {
  }

  lemma DashIsNoDigit()
    ensures !IsDigit('-')
  {
  }

  // The numbers appended after the first one of a range.
  method AfterFirst(currentNumber: int, nextNumber: int) returns (r: seq<int>)
    ensures [currentNumber] + r == Range(currentNumber, nextNumber)
  {
    r := [];
    var number := currentNumber + 1;
    while number <= nextNumber
      invariant currentNumber < number
      invariant number <= nextNumber + 1 || number == currentNumber + 1
      invariant [currentNumber] + r == Range(currentNumber, number - 1)
    {
      r := r + [number];
      number := number + 1;
    }
  }

  // ----- the printed form -----

  // Reading the second part of a text does not depend on the first part.
  lemma {:induction false} RunAfter(x: string, y: string, i: nat)
    requires i <= |y|
    ensures RunEnd(x + y, |x| + i) == |x| + RunEnd(y, i)
    decreases |y| - i
  {
    if i < |y| && IsDigit(y[i]) {
      RunAfter(x, y, i + 1);
    }
  }

  lemma SliceAfter(x: string, y: string, i: nat, j: nat)
    requires i <= j <= |y|
    ensures (x + y)[|x| + i..|x| + j] == y[i..j]
  {
  }

  lemma ItemAfter(x: string, y: string, i: nat)
    requires i < |y| && IsDigit(y[i])
    ensures IsDigit((x + y)[|x| + i])
    ensures var (numbers, next) := Item(y, i);
            Item(x + y, |x| + i) == (numbers, |x| + next)
  {
    hide Value, Range, RunEnd;
    var j := RunEnd(y, i);
    RunAfter(x, y, i);
    SliceAfter(x, y, i, j);
    if j + 1 < |y| && y[j] == '-' && IsDigit(y[j + 1]) {
      RunAfter(x, y, j + 1);
      SliceAfter(x, y, j + 1, RunEnd(y, j + 1));
    }
  }

  lemma {:induction false} ReadAfter(x: string, y: string, i: nat)
    requires i <= |y|
    ensures ReadFrom(x + y, |x| + i) == ReadFrom(y, i)
    decreases |y| - i
  {
    hide Item;
    if i < |y| {
      if IsDigit(y[i]) {
        ItemAfter(x, y, i);
        ReadAfter(x, y, Item(y, i).1);
      } else {
        ReadAfter(x, y, i + 1);
      }
    }
  }

  // The second part of a text does not run on from a number of the first part.
  ghost predicate NoRunOn(x: string, y: string) {
    y != "" ==> !IsDigit(y[0]) && (y[0] == '-' ==> x == "" || !IsDigit(x[|x| - 1]))
  }

  lemma ItemBefore(x: string, y: string, i: nat)
    requires i < |x| && IsDigit(x[i]) && NoRunOn(x, y)
    ensures Item(x + y, i) == Item(x, i)
  {
    hide Value, Range;
    var s := x + y;
    var j := RunEnd(x, i);
    RunEndIs(s, i, j);
    assert s[i..j] == x[i..j];
    if j + 1 < |x| && x[j] == '-' && IsDigit(x[j + 1]) {
      var k := RunEnd(x, j + 1);
      RunEndIs(s, j + 1, k);
      assert s[j + 1..k] == x[j + 1..k];
    }
  }

  lemma {:induction false} ReadBefore(x: string, y: string, i: nat)
    requires i <= |x| && NoRunOn(x, y)
    ensures ReadFrom(x + y, i) == ReadFrom(x, i) + ReadFrom(y, 0)
    decreases |x| - i
  {
    hide Item;
    if i == |x| {
      ReadAfter(x, y, 0);
    } else if IsDigit(x[i]) {
      ItemBefore(x, y, i);
      ReadBefore(x, y, Item(x, i).1);
    } else {
      ReadBefore(x, y, i + 1);
    }
  }

  /** A separator splits the reading in two, unless it is a dash right after a digit. */
  lemma ReadSeparated(x: string, c: char, y: string)
    requires !IsDigit(c) && (c == '-' ==> x == "" || !IsDigit(x[|x| - 1]))
    ensures Read(x + [c] + y) == Read(x) + Read(y)
  {
    var w := [c] + y;
    assert x + [c] + y == x + w;
    ReadBefore(x, w, 0);
    ReadAfter([c], y, 0);
  }

  // How a range of numbers is printed.
  function Printed(r: (nat, nat)): string {
    if r.0 == r.1 then Digits(r.0) else Digits(r.0) + "-" + Digits(r.1)
  }

  function PrintedAll(rs: seq<(nat, nat)>): string {
    Join(seq(|rs|, i requires 0 <= i < |rs| => Printed(rs[i])), ",")
  }

  function Numbers(rs: seq<(nat, nat)>): seq<int> {
    if |rs| == 0 then [] else Numbers(rs[..|rs| - 1]) + Range(rs[|rs| - 1].0, rs[|rs| - 1].1)
  }

  lemma ReadPrinted(r: (nat, nat))
    requires r.0 <= r.1
    ensures Read(Printed(r)) == Range(r.0, r.1)
  {
    var s, a, b := Printed(r), Digits(r.0), Digits(r.1);
    ValueOfDigits(r.0);
    ValueOfDigits(r.1);
    hide Value, Digits;
    RunEndIs(s, 0, |a|);
    assert s[0..|a|] == a;
    if r.0 < r.1 {
      RunEndIs(s, |a| + 1, |s|);
      assert s[|a| + 1..|s|] == b;
    }
    assert Item(s, 0) == (Range(r.0, r.1), |s|);
    assert ReadFrom(s, |s|) == [];
    calc {
      Read(s);
      Item(s, 0).0 + ReadFrom(s, |s|);
      Range(r.0, r.1);
    }
  }

  /** Expanding the printed form of a list of ascending ranges gives the numbers of the ranges. */
  lemma {:induction false} ReadPrintedAll(rs: seq<(nat, nat)>)
    requires forall i :: 0 <= i < |rs| ==> rs[i].0 <= rs[i].1
    ensures Read(PrintedAll(rs)) == Numbers(rs)
  {
    hide Printed, Range, ReadFrom;
    var parts := seq(|rs|, i requires 0 <= i < |rs| => Printed(rs[i]));
    if |rs| == 0 {
      ReadNothing();
    } else {
      var n := |rs| - 1;
      ReadPrinted(rs[n]);
      ReadPrintedAll(rs[..n]);
      assert parts[..n] == seq(n, i requires 0 <= i < n => Printed(rs[..n][i]));
      if n > 0 {
        ReadSeparated(PrintedAll(rs[..n]), ',', Printed(rs[n]));
      } else {
        assert Numbers(rs[..n]) == [];
      }
    }
  }

  lemma ReadNothing()
    ensures Read("") == []
  {
  }

  lemma {:induction false} ReadDigits(a: string)
    requires a != "" && AllDigits(a)
    ensures Read(a) == [Value(a)]
  {
    hide Value;
    RunEndIs(a, 0, |a|);
    assert a[0..|a|] == a;
    assert Item(a, 0) == ([Value(a)], |a|);
    assert ReadFrom(a, |a|) == [];
  }

  /** A run of digits reads as its number, leading zeros or not, and two runs joined by a dash as the numbers from the
      first to the second, or as the first alone when the second is not larger. */
  lemma {:induction false} ReadPair(a: string, b: string)
    requires a != "" && AllDigits(a) && b != "" && AllDigits(b)
    ensures Read(a) == [Value(a)]
    ensures var numbers := Read(a + "-" + b);
            && |numbers| == (if Value(b) <= Value(a) then 1 else Value(b) - Value(a) + 1)
            && forall i :: 0 <= i < |numbers| ==> numbers[i] == Value(a) + i
  {
    hide Value;
    ReadDigits(a);
    var s := a + "-" + b;
    RunEndIs(s, 0, |a|);
    RunEndIs(s, |a| + 1, |s|);
    assert s[0..|a|] == a && s[|a| + 1..|s|] == b;
    assert Item(s, 0) == (Range(Value(a), Value(b)), |s|);
    assert ReadFrom(s, |s|) == [];
    RangeLength(Value(a), Value(b));
  }

  lemma {:induction false} RangeLength(a: int, b: int)
    ensures |Range(a, b)| == if b <= a then 1 else b - a + 1
    decreases b - a
  {
    if b > a {
      RangeLength(a, b - 1);
    }
  }

  lemma ThreeDigitValues()
    ensures Value("001") == 1 && Value("003") == 3 && Value("005") == 5 && Value("007") == 7
  {
    assert Value("00") == 0 by {
      assert "00"[..1] == "0" && "0"[..0] == "";
      assert Value("0") == 0;
    }
    assert "001"[..2] == "00" && "003"[..2] == "00" && "005"[..2] == "00" && "007"[..2] == "00";
  }

  /** The example of the source. */
  lemma LecExample()
    ensures Read("LEC 001,003-005,007") == [1, 3, 4, 5, 7]
  {
    hide ReadFrom, Value, Range;
    ThreeDigitValues();
    ReadDigits("001");
    ReadDigits("007");
    ReadPair("003", "005");
    assert "003" + "-" + "005" == "003-005";
    var r := Read("003-005");
    assert r == [3, 4, 5];
    ReadLetters();
    ReadSeparated("LEC", ' ', "001");
    assert "LEC" + [' '] + "001" == "LEC 001";
    ReadSeparated("LEC 001", ',', "003-005");
    assert "LEC 001" + [','] + "003-005" == "LEC 001,003-005";
    ReadSeparated("LEC 001,003-005", ',', "007");
    assert "LEC 001,003-005" + [','] + "007" == "LEC 001,003-005,007";
  }

  lemma ReadLetters()
    ensures Read("LEC") == []
  {
    var s := "LEC";
    assert !IsDigit(s[0]) && !IsDigit(s[1]) && !IsDigit(s[2]);
    assert ReadFrom(s, 3) == [] && ReadFrom(s, 2) == ReadFrom(s, 3) && ReadFrom(s, 1) == ReadFrom(s, 2);
  }
}
