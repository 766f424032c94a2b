/** The parts of java.lang.String the two classes rely on: `indexOf`,
    `lastIndexOf`, `trim`, `split` on a single-character separator and
    `compareTo`, over strings as sequences of characters. */
module JavaString {

  // ---------------------------------------------------------------------
  // indexOf / lastIndexOf

  /** True when `c` occurs at most once in `s`. */
  predicate AtMostOnce(s: string, c: char) {
    forall i, j :: 0 <= i < j < |s| && s[i] == c ==> s[j] != c
  }

  /** `s.indexOf(c)`: the first position of `c`, or -1 when it is absent. */
  function IndexOf(s: string, c: char): (k: int)
    ensures k == -1 <==> c !in s
    ensures k != -1 ==> 0 <= k < |s| && s[k] == c
    ensures forall i :: 0 <= i < |s| && (k == -1 || i < k) ==> s[i] != c
  {
    if s == [] then -1
    else if s[0] == c then 0
    else
      var k := IndexOf(s[1..], c);
      if k == -1 then -1 else k + 1
  }

  /** `s.lastIndexOf(c)`: the last position of `c`, or -1 when it is absent. */
  function LastIndexOf(s: string, c: char): (k: int)
    ensures k == -1 <==> c !in s
    ensures k != -1 ==> 0 <= k < |s| && s[k] == c
    ensures forall i :: 0 <= i < |s| && k < i ==> s[i] != c
  {
    if s == [] then -1
    else if s[|s| - 1] == c then |s| - 1
    else LastIndexOf(s[..|s| - 1], c)
  }

  /** The test `s.indexOf(c) == s.lastIndexOf(c)` holds exactly when `c`
      occurs at most once. */
  lemma FirstIsLastIffAtMostOnce(s: string, c: char)
    ensures IndexOf(s, c) == LastIndexOf(s, c) <==> AtMostOnce(s, c)
  {
  }

  // ---------------------------------------------------------------------
  // trim

  /** The characters `String.trim` strips: every code point up to and
      including the space. */
  predicate IsTrimmable(c: char) {
    c <= ' '
  }

  predicate AllTrimmable(s: string) {
    forall i :: 0 <= i < |s| ==> IsTrimmable(s[i])
  }

  /** Number of leading characters `trim` strips. */
  function LeadingTrimmable(s: string): (n: nat)
    ensures n <= |s|
    ensures AllTrimmable(s[..n])
    ensures n < |s| ==> !IsTrimmable(s[n])
  {
    if s == [] || !IsTrimmable(s[0]) then 0
    else 1 + LeadingTrimmable(s[1..])
  }

  /** Number of trailing characters `trim` strips. */
  function TrailingTrimmable(s: string): (n: nat)
    ensures n <= |s|
    ensures AllTrimmable(s[|s| - n..])
    ensures n < |s| ==> !IsTrimmable(s[|s| - n - 1])
  {
    if s == [] || !IsTrimmable(s[|s| - 1]) then 0
    else 1 + TrailingTrimmable(s[..|s| - 1])
  }

  /** `s.trim()`: `s` without its leading and trailing characters up to the
      space; the result neither starts nor ends with one. */
  function Trim(s: string): (r: string)
    ensures exists i, j :: 0 <= i <= j <= |s| && r == s[i..j]
                           && AllTrimmable(s[..i]) && AllTrimmable(s[j..])
    ensures r != [] ==> !IsTrimmable(r[0]) && !IsTrimmable(r[|r| - 1])
  {
    var start := LeadingTrimmable(s);
    var rest := s[start..];
    var n := TrailingTrimmable(rest);
    var end := |s| - n;
    assert s[end..] == rest[|rest| - n..];
    var r := s[start..end];
    assert r != [] ==> r[0] == s[start] && r[|r| - 1] == rest[|rest| - n - 1];
    r
  }

  /** Trimming twice is trimming once. */
  lemma TrimIdempotent(s: string)
    ensures Trim(Trim(s)) == Trim(s)
  {
    var t := Trim(s);
    if t != [] {
      assert LeadingTrimmable(t) == 0;
      assert TrailingTrimmable(t) == 0;
    }
  }

  // ---------------------------------------------------------------------
  // split

  /** The pieces joined back together with `sep` between neighbours. */
  function Join(parts: seq<string>, sep: char): string
    requires |parts| >= 1
  {
    if |parts| == 1 then parts[0]
    else parts[0] + [sep] + Join(parts[1..], sep)
  }

  /** Every piece between separators, empty pieces included. */
  function SplitAll(s: string, sep: char): (parts: seq<string>)
    ensures |parts| >= 1
    ensures forall i :: 0 <= i < |parts| ==> sep !in parts[i]
    ensures Join(parts, sep) == s
    decreases |s|
  {
    var k := IndexOf(s, sep);
    if k == -1 then [s]
    else
      var head, rest := s[..k], SplitAll(s[k + 1..], sep);
      assert sep !in head by {
        forall i | 0 <= i < |head| ensures head[i] != sep {
          assert head[i] == s[i];
        }
      }
      assert s == head + [sep] + s[k + 1..];
      JoinCons(head, rest, sep);
      [head] + rest
  }

  lemma JoinCons(head: string, rest: seq<string>, sep: char)
    requires |rest| >= 1
    ensures Join([head] + rest, sep) == head + [sep] + Join(rest, sep)
  {
    assert ([head] + rest)[1..] == rest;
  }

  /** `parts` without its trailing empty pieces. */
  function DropTrailingEmpty(parts: seq<string>): (r: seq<string>)
    ensures r <= parts
    ensures r == [] || r[|r| - 1] != []
    ensures forall i :: |r| <= i < |parts| ==> parts[i] == []
  {
    if parts != [] && parts[|parts| - 1] == [] then DropTrailingEmpty(parts[..|parts| - 1])
    else parts
  }

  /** `s.split(String.valueOf(sep))`: the pieces between separators, with the
      trailing empty pieces dropped, except that a string without any
      separator comes back whole (so "" gives [""], but "," gives []). */
  function Split(s: string, sep: char): (parts: seq<string>)
    ensures sep !in s ==> parts == [s]
    ensures sep in s ==> parts <= SplitAll(s, sep)
    ensures sep in s ==> parts == [] || parts[|parts| - 1] != []
    ensures sep in s ==> forall i :: |parts| <= i < |SplitAll(s, sep)| ==> SplitAll(s, sep)[i] == []
    ensures forall i :: 0 <= i < |parts| ==> sep !in parts[i]
  {
    if sep !in s then [s]
    else DropTrailingEmpty(SplitAll(s, sep))
  }

  /** Two separator-free pieces, the second non-empty, split back apart. */
  lemma SplitTwoPieces(a: string, b: string, sep: char)
    requires sep !in a && sep !in b && b != []
    ensures Split(a + [sep] + b, sep) == [a, b]
  {
    var s := a + [sep] + b;
    assert s[|a|] == sep;
    assert forall i :: 0 <= i < |a| ==> s[i] == a[i];
    assert IndexOf(s, sep) == |a|;
    assert s[..|a|] == a && s[|a| + 1..] == b;
    assert SplitAll(b, sep) == [b];
    assert SplitAll(s, sep) == [a, b];
  }

  // ---------------------------------------------------------------------
  // compareTo

  /** `a.compareTo(b)`: the difference of the first differing characters, or
      of the lengths when one string is a prefix of the other. */
  function Compare(a: string, b: string): int
  {
    if a == [] || b == [] then |a| - |b|
    else if a[0] != b[0] then (a[0] as int) - (b[0] as int)
    else Compare(a[1..], b[1..])
  }

  /** `compareTo` returns 0 exactly on equal strings. */
  lemma {:induction false} CompareZeroIffEqual(a: string, b: string)
    ensures Compare(a, b) == 0 <==> a == b
  {
    if a != [] && b != [] && a[0] == b[0] {
      CompareZeroIffEqual(a[1..], b[1..]);
      assert a == [a[0]] + a[1..] && b == [b[0]] + b[1..];
    }
  }

  /** Swapping the operands negates the result. */
  lemma {:induction false} CompareAntisymmetric(a: string, b: string)
    ensures Compare(b, a) == -Compare(a, b)
  {
    if a != [] && b != [] && a[0] == b[0] {
      CompareAntisymmetric(a[1..], b[1..]);
    }
  }
}
