/** The string operations the launcher relies on: `str.strip()`, `str.split(sep, 1)`
    and the way iterating over a text file cuts it into lines. */
module Text {

  /** The characters `str.strip()` removes. Python strips every Unicode whitespace
      character; this model fixes the ASCII ones: space, tab, line feed, vertical tab,
      form feed, carriage return and the four separators U+001C to U+001F. */
  predicate IsWhitespace(c: char) {
    c == ' ' || c == '\t' || c == '\n' || c == '\r' || c == '\U{000B}' || c == '\U{000C}'
    || ('\U{001C}' <= c <= '\U{001F}')
  }

  predicate AllWhitespace(s: string) {
    forall i :: 0 <= i < |s| ==> IsWhitespace(s[i])
  }

  /** Neither end of `s` is whitespace: what `strip()` returns. */
  predicate IsStripped(s: string) {
    s == [] || (!IsWhitespace(s[0]) && !IsWhitespace(s[|s| - 1]))
  }

  /** `s.lstrip()`: a suffix of `s`, all of whose removed characters are whitespace. */
  function TrimLeft(s: string): (r: string)
    ensures |r| <= |s| && r == s[|s| - |r|..]
    ensures r == [] || !IsWhitespace(r[0])
    ensures forall j :: 0 <= j < |s| - |r| ==> IsWhitespace(s[j])
  {
    if s != [] && IsWhitespace(s[0]) then TrimLeft(s[1..]) else s
  }

  /** `s.rstrip()`: a prefix of `s`, all of whose removed characters are whitespace. */
  function TrimRight(s: string): (r: string)
    ensures |r| <= |s| && r == s[..|r|]
    ensures r == [] || !IsWhitespace(r[|r| - 1])
    ensures forall j :: |r| <= j < |s| ==> IsWhitespace(s[j])
  {
    if s != [] && IsWhitespace(s[|s| - 1]) then TrimRight(s[..|s| - 1]) else s
  }

  /** `r` is the slice of `s` starting at `i`, and only whitespace lies around it. */
  predicate IsCoreAt(s: string, i: nat, r: string) {
    i + |r| <= |s| && r == s[i..i + |r|]
    && (forall j :: 0 <= j < i ==> IsWhitespace(s[j]))
    && (forall j :: i + |r| <= j < |s| ==> IsWhitespace(s[j]))
  }

  /** `s.strip()`: the slice of `s` left after removing whitespace from both ends. */
  function Strip(s: string): (r: string)
    ensures IsStripped(r)
    ensures exists i :: IsCoreAt(s, i, r)
    ensures r == [] <==> AllWhitespace(s)
  {
    var r := TrimRight(TrimLeft(s));
    var i := |s| - |TrimLeft(s)|;
    StripCore(s);
    assert r != [] ==> s[i] == r[0];
    r
  }

  /** What is left after trimming both ends lies where `lstrip()` stopped. */
  lemma StripCore(s: string)
    ensures IsCoreAt(s, |s| - |TrimLeft(s)|, TrimRight(TrimLeft(s)))
  {
    var t := TrimLeft(s);
    var r := TrimRight(t);
    var i := |s| - |t|;
    assert r == s[i..i + |r|];
    forall j | i + |r| <= j < |s| ensures IsWhitespace(s[j]) {
      assert s[j] == t[j - i];
    }
  }

  /** Every non-whitespace character of `s` survives `strip()`. */
  lemma StripKeeps(s: string, c: char)
    requires c in s && !IsWhitespace(c)
    ensures c in Strip(s)
  {
    var r := Strip(s);
    var i :| IsCoreAt(s, i, r);
    var k :| 0 <= k < |s| && s[k] == c;
    CoreHolds(s, i, r, k);
  }

  /** A non-whitespace character of `s` lies inside any whitespace-bounded slice of it. */
  lemma CoreHolds(s: string, i: nat, r: string, k: nat)
    requires IsCoreAt(s, i, r)
    requires k < |s| && !IsWhitespace(s[k])
    ensures s[k] in r
  {
    assert i <= k;
    assert k < i + |r|;
    assert r[k - i] == s[k];
  }

  /** A string that is already stripped is its own `strip()`. */
  lemma StripStripped(s: string)
    requires IsStripped(s)
    ensures Strip(s) == s
  {
  }

  /** Stripping a stripped, non-empty text followed by a line feed gives the text back. */
  lemma StripTerminated(x: string)
    requires x != [] && IsStripped(x)
    ensures Strip(x + "\n") == x
  {
    var s := x + "\n";
    assert TrimLeft(s) == s;
    assert s[..|s| - 1] == x;
    assert TrimRight(s) == TrimRight(x) == x;
  }

  /** `s.split(sep, 1)` on a string that holds `sep`: the text before its first
      occurrence and everything after it. */
  function SplitAtFirst(s: string, sep: char): (r: (string, string))
    requires sep in s
    ensures s == r.0 + [sep] + r.1
    ensures sep !in r.0
  {
    if s[0] == sep then ([], s[1..])
    else
      var t := SplitAtFirst(s[1..], sep);
      assert s == [s[0]] + s[1..];
      ([s[0]] + t.0, t.1)
  }

  /** The two halves of `SplitAtFirst` are determined by its contract. */
  lemma SplitAtFirstUnique(a: string, sep: char, b: string)
    requires sep !in a
    ensures SplitAtFirst(a + [sep] + b, sep) == (a, b)
  {
    var s := a + [sep] + b;
    var r := SplitAtFirst(s, sep);
    assert forall j :: 0 <= j < |a| ==> s[j] == a[j] != sep;
    assert forall j :: 0 <= j < |r.0| ==> s[j] == r.0[j] != sep;
    assert s[|a|] == sep && s[|r.0|] == sep;
    assert |r.0| == |a|;
    assert r.0 == s[..|a|] == a;
    assert r.1 == s[|a| + 1..] == b;
  }

  /** Length of the first line of a non-empty text, its line feed included. */
  function FirstLineLength(s: string): (n: nat)
    requires s != []
    ensures 0 < n <= |s|
    ensures forall j :: 0 <= j < n - 1 ==> s[j] != '\n'
    ensures n < |s| ==> s[n - 1] == '\n'
  {
    if s[0] == '\n' || |s| == 1 then 1
    else
      1 + FirstLineLength(s[1..])
  }

  /** The lines `for line in f` yields for a file holding `s`: each keeps its line
      feed, and a last line without one is yielded as it is. */
  function SplitLines(s: string): (lines: seq<string>)
    ensures forall i, j :: 0 <= i < |lines| && 0 <= j < |lines[i]| - 1 ==> lines[i][j] != '\n'
    ensures forall i :: 0 <= i < |lines| ==> lines[i] != []
    ensures forall i :: 0 <= i < |lines| - 1 ==> lines[i][|lines[i]| - 1] == '\n'
    decreases |s|
  {
    if s == [] then []
    else
      var n := FirstLineLength(s);
      [s[..n]] + SplitLines(s[n..])
  }

  /** The concatenation of a sequence of lines. */
  function Concat(lines: seq<string>): string {
    if lines == [] then [] else lines[0] + Concat(lines[1..])
  }

  /** Cutting a text into lines loses and adds nothing. */
  lemma {:induction false} SplitLinesConcat(s: string)
    ensures Concat(SplitLines(s)) == s
    decreases |s|
  {
    if s != [] {
      var n := FirstLineLength(s);
      SplitLinesConcat(s[n..]);
      assert SplitLines(s)[1..] == SplitLines(s[n..]);
      assert s == s[..n] + s[n..];
    }
  }

  /** A line ended by a line feed, with no line feed before it, is cut off first. */
  lemma SplitLinesFirst(x: string, rest: string)
    requires '\n' !in x
    ensures SplitLines(x + "\n" + rest) == [x + "\n"] + SplitLines(rest)
  {
    var s := x + "\n" + rest;
    var n := FirstLineLength(s);
    assert s[|x|] == '\n';
    assert n <= |x| + 1;
    assert forall j :: 0 <= j < |x| ==> s[j] == x[j] && x[j] != '\n';
    assert n == |x| + 1;
    assert s[..n] == x + "\n";
    assert s[n..] == rest;
  }
}
