/** Byte classes and the few string helpers that several components share.
    A Go string is a sequence of bytes; a byte is modelled by the char with the same code. */
module Bytes {

  datatype Option<+T> = None | Some(value: T)

  predicate IsUpper(c: char) {
    'A' <= c <= 'Z'
  }

  predicate IsLower(c: char) {
    'a' <= c <= 'z'
  }

  predicate IsDigit(c: char) {
    '0' <= c <= '9'
  }

  predicate IsLetter(c: char) {
    IsUpper(c) || IsLower(c)
  }

  // The regular expression class \w of Go's regexp package, on which \b rests.
  predicate IsWord(c: char) {
    IsLetter(c) || IsDigit(c) || c == '_'
  }

  function LowerChar(c: char): (r: char)
    ensures !IsUpper(r)
    ensures !IsUpper(c) ==> r == c
    ensures IsUpper(c) ==> IsLower(r) && r as int - 'a' as int == c as int - 'A' as int
  {
    if IsUpper(c) then c - 'A' + 'a' else c
  }

  // strings.ToLower on ASCII text
  function Lower(s: string): (r: string)
    ensures |r| == |s|
    ensures forall i :: 0 <= i < |s| ==> r[i] == LowerChar(s[i])
  {
    seq(|s|, i requires 0 <= i < |s| => LowerChar(s[i]))
  }

  // strings.Join
  function Join(parts: seq<string>, sep: string): string {
    if |parts| == 0 then ""
    else if |parts| == 1 then parts[0]
    else Join(parts[..|parts| - 1], sep) + sep + parts[|parts| - 1]
  }

  predicate OccursAt(s: string, part: string, k: nat) {
    k + |part| <= |s| && s[k..k + |part|] == part
  }

  // strings.Contains
  predicate Contains(s: string, part: string) {
    exists k :: 0 <= k <= |s| && OccursAt(s, part, k)
  }

  // LENGTH of a text in Postgres: its bytes that do not continue a UTF-8 character
  function CharCount(s: string): (n: nat)
    ensures n <= |s|
  {
    if s == "" then 0
    else CharCount(s[..|s| - 1]) + if '\U{80}' <= s[|s| - 1] < '\U{C0}' then 0 else 1
  }

  // The range of INT in Postgres
  predicate IsInt32(n: int) {
    -0x8000_0000 <= n < 0x8000_0000
  }

  // ----- strings.TrimSpace -----

  // The ASCII white space of unicode.IsSpace; the wider white space follows, in UTF-8.
  predicate IsSpace(c: char) {
    c == ' ' || '\t' <= c <= '\r'
  }

  // U+0085 and U+00A0
  predicate IsSpace2(a: char, b: char) {
    a == '\U{C2}' && (b == '\U{85}' || b == '\U{A0}')
  }

  // U+1680, U+2000 to U+200A, U+2028, U+2029, U+202F, U+205F and U+3000
  predicate IsSpace3(a: char, b: char, c: char) {
    || (a == '\U{E1}' && b == '\U{9A}' && c == '\U{80}')
    || (a == '\U{E2}' && b == '\U{80}'
        && ('\U{80}' <= c <= '\U{8A}' || c == '\U{A8}' || c == '\U{A9}' || c == '\U{AF}'))
    || (a == '\U{E2}' && b == '\U{81}' && c == '\U{9F}')
    || (a == '\U{E3}' && b == '\U{80}' && c == '\U{80}')
  }

  // The number of bytes of the white-space character that s begins with, or 0.
  function SpaceAtStart(s: string): (n: nat)
    ensures n <= |s|
  {
    if |s| >= 1 && IsSpace(s[0]) then 1
    else if |s| >= 2 && IsSpace2(s[0], s[1]) then 2
    else if |s| >= 3 && IsSpace3(s[0], s[1], s[2]) then 3
    else 0
  }

  /** The white space of one byte is exactly tab, line feed, vertical tab, form feed, carriage return and space; a
      no-break space takes two bytes and an ideographic space three. */
  lemma WhiteSpaceIs(c: char)
    ensures SpaceAtStart([c]) == 1 <==> c in {'\t', '\n', '\U{0B}', '\U{0C}', '\r', ' '}
    ensures SpaceAtStart(['\U{C2}', '\U{A0}']) == 2 && SpaceAtStart(['\U{E3}', '\U{80}', '\U{80}']) == 3
  {
  }

  // The number of bytes of the white-space character that s ends with, or 0.
  function SpaceAtEnd(s: string): (n: nat)
    ensures n <= |s|
  {
    var k := |s|;
    if k >= 1 && IsSpace(s[k - 1]) then 1
    else if k >= 2 && IsSpace2(s[k - 2], s[k - 1]) then 2
    else if k >= 3 && IsSpace3(s[k - 3], s[k - 2], s[k - 1]) then 3
    else 0
  }

  function TrimLeft(s: string): (r: string)
    ensures SpaceAtStart(r) == 0
  {
    if SpaceAtStart(s) > 0 then TrimLeft(s[SpaceAtStart(s)..]) else s
  }

  function TrimRight(s: string): (r: string)
    ensures r <= s
    ensures SpaceAtEnd(r) == 0
  {
    if SpaceAtEnd(s) > 0 then TrimRight(s[..|s| - SpaceAtEnd(s)]) else s
  }

  // strings.TrimSpace
  function Trim(s: string): (r: string)
    ensures SpaceAtStart(r) == 0 && SpaceAtEnd(r) == 0
  {
    var t := TrimLeft(s);
    var r := TrimRight(t);
    assert r <= t && SpaceAtStart(t) == 0;
    r
  }

  // ----- what the helpers compute -----

  /** Part occurs in s exactly when s can be cut into three with part in the middle. */
  lemma ContainsIs(s: string, part: string)
    ensures Contains(s, part) <==> exists a: string, b: string :: s == a + part + b
  {
    if Contains(s, part) {
      var k :| 0 <= k <= |s| && OccursAt(s, part, k);
      assert s == s[..k] + part + s[k + |part|..];
    }
    if a: string, b: string :| s == a + part + b {
      assert s[|a|..|a| + |part|] == part;
      assert OccursAt(s, part, |a|);
    }
  }

  /** Parts are joined in order, with one separator between any two neighbours and none elsewhere. */
  lemma {:induction false} JoinIs(a: seq<string>, b: seq<string>, sep: string)
    ensures Join([], sep) == ""
    ensures |a| == 1 ==> Join(a, sep) == a[0]
    ensures a != [] && b != [] ==> Join(a + b, sep) == Join(a, sep) + sep + Join(b, sep)
  {
    if a != [] && b != [] {
      var n := |b| - 1;
      var all := a + b;
      assert all[..|all| - 1] == a + b[..n];
      assert all[|all| - 1] == b[n];
      if n == 0 {
        assert a + b[..n] == a;
      } else {
        JoinIs(a, b[..n], sep);
      }
    }
  }

  // Nothing but white-space characters
  predicate AllSpace(s: string) {
    s == "" || (SpaceAtStart(s) > 0 && AllSpace(s[SpaceAtStart(s)..]))
  }

  lemma {:induction false} AllSpaceConcat(a: string, b: string)
    requires AllSpace(a) && AllSpace(b)
    ensures AllSpace(a + b)
  {
    hide IsSpace, IsSpace2, IsSpace3;
    if a == "" {
      assert a + b == b;
    } else {
      var n := SpaceAtStart(a);
      AllSpaceConcat(a[n..], b);
      assert (a + b)[n..] == a[n..] + b;
      assert SpaceAtStart(a + b) == n;
    }
  }

  lemma {:induction false} TrimLeftIs(s: string) returns (i: nat)
    ensures i <= |s| && TrimLeft(s) == s[i..] && AllSpace(s[..i])
  {
    var n := SpaceAtStart(s);
    if n == 0 {
      i := 0;
    } else {
      var k := TrimLeftIs(s[n..]);
      i := n + k;
      assert s[..i] == s[..n] + s[n..][..k];
      assert SpaceAtStart(s[..n]) == n && s[..n][n..] == "";
      AllSpaceConcat(s[..n], s[n..][..k]);
    }
  }

  lemma {:induction false} TrimRightIs(s: string)
    ensures AllSpace(s[|TrimRight(s)|..])
  {
    hide AllSpace, SpaceAtStart, SpaceAtEnd;
    var n := SpaceAtEnd(s);
    if n > 0 {
      var t := s[..|s| - n];
      TrimRightIs(t);
      LastIsSpace(s);
      var k := |TrimRight(t)|;
      AllSpaceConcat(t[k..], s[|s| - n..]);
      CutInTwo(s, k, |s| - n);
    } else {
      NoSpace();
      assert s[|s|..] == "";
    }
  }

  lemma CutInTwo(s: string, k: nat, m: nat)
    requires k <= m <= |s|
    ensures s[..m][k..] + s[m..] == s[k..]
  {
  }

  lemma NoSpace()
    ensures AllSpace("")
  {
  }

  lemma LastIsSpace(s: string)
    requires SpaceAtEnd(s) > 0
    ensures AllSpace(s[|s| - SpaceAtEnd(s)..])
  {
    var last := s[|s| - SpaceAtEnd(s)..];
    assert SpaceAtStart(last) == |last|;
    assert last[|last|..] == "";
  }

  /** Trimming takes white space off both ends, all of it, and nothing else. */
  lemma {:induction false} TrimIs(s: string) returns (i: nat, j: nat)
    ensures i <= j <= |s| && Trim(s) == s[i..j]
    ensures AllSpace(s[..i]) && AllSpace(s[j..])
    ensures SpaceAtStart(s[i..j]) == 0 && SpaceAtEnd(s[i..j]) == 0
  {
    i := TrimLeftIs(s);
    var t := TrimLeft(s);
    TrimRightIs(t);
    j := i + |TrimRight(t)|;
    assert s[j..] == t[|TrimRight(t)|..];
    assert s[i..j] == t[..|TrimRight(t)|];
  }

  lemma {:induction false} CharCountConcat(a: string, b: string)
    ensures CharCount(a + b) == CharCount(a) + CharCount(b)
  {
    if b == "" {
      assert a + b == a;
    } else {
      CharCountConcat(a, b[..|b| - 1]);
      assert (a + b)[..|a + b| - 1] == a + b[..|b| - 1];
    }
  }

  /** Every ASCII byte is a character; a character of two bytes counts once. */
  lemma {:induction false} CharCountIs(s: string)
    ensures (forall i :: 0 <= i < |s| ==> s[i] < '\U{80}') ==> CharCount(s) == |s|
    ensures CharCount(['\U{C3}', '\U{A9}']) == 1
  {
    var e := ['\U{C3}', '\U{A9}'];
    assert e[..1] == ['\U{C3}'] && e[..1][..0] == "";
    if s != "" {
      CharCountIs(s[..|s| - 1]);
    }
  }
}
