/** `load_settings` and `save_settings`: the settings mapping stored as `key=value`
    lines. A file's contents are passed in as the lines its iteration yields, or
    returned as the text written; the model does no input or output itself. */
module SettingsFile {
  import opened Wrappers
  import opened Text
  import opened Dicts

  /** The mapping `load_settings` starts from. */
  const Defaults: Dict := [Entry("username", "User"), Entry("bgcolor", "skyblue"), Entry("devmode", "off")]

  /** The keys of `Defaults`, in order. */
  const RequiredKeys: seq<string> := ["username", "bgcolor", "devmode"]

  /** A mapping as `load_settings` returns it: distinct keys, the required ones first. */
  predicate WellFormed(d: Dict)
    ensures WellFormed(d) ==> "username" in Keys(d) && "bgcolor" in Keys(d) && "devmode" in Keys(d)
  {
    assert |d| >= 3 ==> Keys(d)[..3][0] == Keys(d)[0] && Keys(d)[..3][1] == Keys(d)[1] && Keys(d)[..3][2] == Keys(d)[2];
    DistinctKeys(d) && |d| >= 3 && Keys(d)[..3] == RequiredKeys
  }

  /** The defaults are a well-formed mapping: username "User", bgcolor "skyblue" and
      devmode "off", in that order. */
  lemma DefaultsWellFormed()
    ensures WellFormed(Defaults) && Keys(Defaults) == RequiredKeys
    ensures Get(Defaults, "username") == Some("User")
    ensures Get(Defaults, "bgcolor") == Some("skyblue")
    ensures Get(Defaults, "devmode") == Some("off")
  {
  }

  /** One line of the file. A line holding '=' is stripped and split at its first '=':
      the key is what precedes it, the value all that follows (further '=' included).
      A line without '=' gives nothing. */
  function ParseLine(line: string): (r: Option<Entry>)
    ensures r.Some? <==> '=' in line
    ensures r.Some? ==> Strip(line) == r.value.key + "=" + r.value.value
    ensures r.Some? ==> '=' !in r.value.key
  {
    if '=' in line then
      // the '=' that was found in the raw line is still there after stripping,
      // so the two-way unpacking of the split cannot fail
      StripKeeps(line, '=');
      var kv := SplitAtFirst(Strip(line), '=');
      Some(Entry(kv.0, kv.1))
    else
      None
  }

  /** One pass of the loop body of `load_settings`. */
  function Step(d: Dict, line: string): (r: Dict)
    ensures '=' !in line ==> r == d
    ensures '=' in line ==> Get(r, ParseLine(line).value.key) == Some(ParseLine(line).value.value)
    ensures '=' in line ==> forall k :: k != ParseLine(line).value.key ==> Get(r, k) == Get(d, k)
  {
    match ParseLine(line)
    case None => d
    case Some(e) => Set(d, e.key, e.value)
  }

  /** The mapping after the loop has consumed `lines`, starting from `d`. */
  function ApplyLines(d: Dict, lines: seq<string>): (r: Dict)
    ensures WellFormed(d) ==> WellFormed(r)
    decreases |lines|
  {
    if lines == [] then d
    else
      var r := Step(ApplyLines(d, lines[..|lines| - 1]), lines[|lines| - 1]);
      assert forall ks: seq<string>, k :: |ks| >= 3 ==> (ks + [k])[..3] == ks[..3];
      r
  }

  /** `load_settings()` over the lines read from the file: all of them, the ones read
      before a read error ended the loop, or none when the file could not be opened. */
  function Load(lines: seq<string>): (d: Dict)
    ensures WellFormed(d)
  {
    ApplyLines(Defaults, lines)
  }

  /** The loop of `load_settings`, updating the mapping line by line. */
  method LoadSettings(lines: seq<string>) returns (settings: Dict)
    ensures settings == Load(lines)
    ensures "username" in Keys(settings) && "bgcolor" in Keys(settings) && "devmode" in Keys(settings)
  {
    settings := Defaults;
    for i := 0 to |lines|
      invariant settings == ApplyLines(Defaults, lines[..i])
    {
      var line := lines[i];
      assert lines[..i + 1][..i] == lines[..i];
      if '=' in line {
        StripKeeps(line, '=');
        var kv := SplitAtFirst(Strip(line), '=');
        settings := Set(settings, kv.0, kv.1);
      }
    }
    assert lines[..|lines|] == lines;
  }

  /** Lines without '=' leave the mapping as it was. */
  lemma {:induction false} ApplyLinesWithoutAssignments(d: Dict, lines: seq<string>)
    requires forall i :: 0 <= i < |lines| ==> '=' !in lines[i]
    ensures ApplyLines(d, lines) == d
    decreases |lines|
  {
    if lines != [] {
      ApplyLinesWithoutAssignments(d, lines[..|lines| - 1]);
    }
  }

  /** A file none of whose lines holds '=' (an empty or missing file among them)
      loads as exactly the defaults. */
  lemma LoadWithoutAssignments(lines: seq<string>)
    requires forall i :: 0 <= i < |lines| ==> '=' !in lines[i]
    ensures Load(lines) == Defaults
  {
    ApplyLinesWithoutAssignments(Defaults, lines);
  }

  /** Consuming `a` and then `b` is consuming `a + b`. */
  lemma {:induction false} ApplyLinesAppend(d: Dict, a: seq<string>, b: seq<string>)
    ensures ApplyLines(d, a + b) == ApplyLines(ApplyLines(d, a), b)
    decreases |b|
  {
    if b == [] {
      assert a + b == a;
    } else {
      var b' := b[..|b| - 1];
      assert (a + b)[..|a + b| - 1] == a + b';
      ApplyLinesAppend(d, a, b');
    }
  }

  /** The entries set by the lines read before a read error stay in place: the rest of
      the file, had it been read, would only have continued from them. */
  lemma LoadAppend(a: seq<string>, b: seq<string>)
    ensures Load(a + b) == ApplyLines(Load(a), b)
  {
    ApplyLinesAppend(Defaults, a, b);
  }

  /** A line without '=' is skipped and does not affect the lines after it. */
  lemma SkippedLine(a: seq<string>, line: string, b: seq<string>)
    requires '=' !in line
    ensures Load(a + [line] + b) == Load(a + b)
  {
    ApplyLinesAppend(Defaults, a + [line], b);
    ApplyLinesAppend(Defaults, a, b);
    assert (a + [line])[..|a|] == a;
  }

  /** `line` is one that sets key `k`. */
  predicate Assigns(line: string, k: string) {
    ParseLine(line).Some? && ParseLine(line).value.key == k
  }

  /** The last line that sets a key decides its value, over the defaults and over
      every earlier line with that key. */
  lemma {:induction false} LoadLastAssignment(lines: seq<string>, i: nat, k: string, v: string)
    requires i < |lines| && ParseLine(lines[i]) == Some(Entry(k, v))
    requires forall j :: i < j < |lines| ==> !Assigns(lines[j], k)
    ensures Get(Load(lines), k) == Some(v)
    decreases |lines|
  {
    if i < |lines| - 1 {
      var p := lines[..|lines| - 1];
      assert p[i] == lines[i];
      LoadLastAssignment(p, i, k, v);
      assert !Assigns(lines[|lines| - 1], k);
    }
  }

  /** A key no line sets keeps its default, or stays absent. */
  lemma {:induction false} LoadUnassignedKey(lines: seq<string>, k: string)
    requires forall j :: 0 <= j < |lines| ==> !Assigns(lines[j], k)
    ensures Get(Load(lines), k) == Get(Defaults, k)
    decreases |lines|
  {
    if lines != [] {
      var p := lines[..|lines| - 1];
      LoadUnassignedKey(p, k);
      assert !Assigns(lines[|lines| - 1], k);
    }
  }

  /** The line `save_settings` writes for one entry. */
  function Line(e: Entry): (line: string)
    ensures |line| == |e.key| + |e.value| + 2
    ensures line[|e.key|] == '=' && line[|line| - 1] == '\n'
  {
    e.key + "=" + e.value + "\n"
  }

  /** The line holds the key, then '=', then the value, then its line feed. */
  lemma LineParts(e: Entry)
    ensures Line(e)[..|e.key|] == e.key
    ensures Line(e)[|e.key| + 1..|Line(e)| - 1] == e.value
  {
  }

  /** The text `save_settings` writes: one line per entry, in the mapping's order. */
  function Serialise(d: Dict): (text: string)
    ensures text == [] <==> d == []
    ensures d != [] ==> text[|text| - 1] == '\n'
  {
    if d == [] then "" else Line(d[0]) + Serialise(d[1..])
  }

  /** The text written is the written lines one after another. */
  lemma {:induction false} SerialiseLines(d: Dict)
    ensures Serialise(d) == Concat(LinesOf(d))
  {
    if d != [] {
      assert LinesOf(d)[1..] == LinesOf(d[1..]);
      SerialiseLines(d[1..]);
    }
  }

  lemma {:induction false} SerialiseAppend(d: Dict, e: Entry)
    ensures Serialise(d + [e]) == Serialise(d) + Line(e)
  {
    if d != [] {
      assert (d + [e])[1..] == d[1..] + [e];
      SerialiseAppend(d[1..], e);
    }
  }

  /** The loop of `save_settings`, writing one line per entry. */
  method SaveSettings(settings: Dict) returns (text: string)
    ensures text == Serialise(settings)
  {
    text := "";
    for i := 0 to |settings|
      invariant text == Serialise(settings[..i])
    {
      SerialiseAppend(settings[..i], settings[i]);
      assert settings[..i + 1] == settings[..i] + [settings[i]];
      text := text + Line(settings[i]);
    }
    assert settings[..|settings|] == settings;
  }

  /** No line break: neither a line feed nor a carriage return, which Python's
      universal-newline reading also turns into a line break. */
  predicate NoLineBreak(s: string) {
    '\n' !in s && '\r' !in s
  }

  /** An entry that reads back as itself: the key holds no '=' and no leading
      whitespace, the value no trailing whitespace, neither a line break. */
  predicate Survives(e: Entry) {
    && '=' !in e.key
    && NoLineBreak(e.key) && NoLineBreak(e.value)
    && (e.key == [] || !IsWhitespace(e.key[0]))
    && (e.value == [] || !IsWhitespace(e.value[|e.value| - 1]))
  }

  predicate AllSurvive(d: Dict) {
    forall i :: 0 <= i < |d| ==> Survives(d[i])
  }

  /** The lines written for `d`, one per entry. */
  function LinesOf(d: Dict): (lines: seq<string>)
    ensures |lines| == |d|
    ensures forall i :: 0 <= i < |d| ==> lines[i] == Line(d[i])
  {
    seq(|d|, i requires 0 <= i < |d| => Line(d[i]))
  }

  /** Reading back what `save_settings` wrote yields exactly one line per entry,
      in the mapping's order. */
  lemma {:induction false} SplitSerialised(d: Dict)
    requires forall i :: 0 <= i < |d| ==> '\n' !in d[i].key && '\n' !in d[i].value
    ensures SplitLines(Serialise(d)) == LinesOf(d)
  {
    if d != [] {
      var rest := d[1..];
      assert SplitLines(Serialise(rest)) == LinesOf(rest) by {
        assert forall i :: 0 <= i < |rest| ==> rest[i] == d[i + 1];
        SplitSerialised(rest);
      }
      assert LinesOf(d) == [Line(d[0])] + LinesOf(rest);
      SplitFirstLine(d);
    }
  }

  /** The first line read back is the line written for the first entry. */
  lemma SplitFirstLine(d: Dict)
    requires d != [] && '\n' !in d[0].key && '\n' !in d[0].value
    ensures SplitLines(Serialise(d)) == [Line(d[0])] + SplitLines(Serialise(d[1..]))
  {
    var x := d[0].key + "=" + d[0].value;
    assert '\n' !in x;
    assert Serialise(d) == x + "\n" + Serialise(d[1..]);
    SplitLinesFirst(x, Serialise(d[1..]));
  }

  /** A written line parses back to the entry it was written for. */
  lemma ParseLineOfLine(e: Entry)
    requires Survives(e)
    ensures ParseLine(Line(e)) == Some(e)
  {
    var x := e.key + "=" + e.value;
    assert Line(e) == x + "\n";
    assert x[|e.key|] == '=';
    assert x[0] == (if e.key == [] then '=' else e.key[0]);
    assert x[|x| - 1] == (if e.value == [] then '=' else e.value[|e.value| - 1]);
    StripTerminated(x);
    SplitAtFirstUnique(e.key, '=', e.value);
  }

  /** `d[k] = v` for every entry of `es`, in order. */
  function AssignAll(d: Dict, es: Dict): (r: Dict)
    ensures DistinctKeys(d) ==> DistinctKeys(r)
    decreases |es|
  {
    if es == [] then d
    else
      var e := es[|es| - 1];
      Set(AssignAll(d, es[..|es| - 1]), e.key, e.value)
  }

  /** Loading written lines assigns their entries in order. */
  lemma {:induction false} ApplyLinesOf(d: Dict, es: Dict)
    requires AllSurvive(es)
    ensures ApplyLines(d, LinesOf(es)) == AssignAll(d, es)
    decreases |es|
  {
    if es != [] {
      var p := es[..|es| - 1];
      assert LinesOf(es)[..|es| - 1] == LinesOf(p);
      ApplyLinesOf(d, p);
      ParseLineOfLine(es[|es| - 1]);
    }
  }

  /** Round trip: loading the text `save_settings` wrote for `d` gives the defaults
      with every entry of `d` assigned over them, in order. */
  lemma RoundTrip(d: Dict)
    requires AllSurvive(d)
    ensures Load(SplitLines(Serialise(d))) == AssignAll(Defaults, d)
  {
    SplitSerialised(d);
    ApplyLinesOf(Defaults, d);
  }

  /** On the mappings, assigning `es` over `d` overrides `d` with `es`. */
  lemma {:induction false} ToMapAssignAll(d: Dict, es: Dict)
    requires DistinctKeys(d)
    ensures ToMap(AssignAll(d, es)) == ToMap(d) + ToMap(es)
    decreases |es|
  {
    if es != [] {
      var p, e := es[..|es| - 1], es[|es| - 1];
      assert es == p + [e];
      assert ToMap(es) == ToMap(p)[e.key := e.value];
      assert AssignAll(d, es) == Set(AssignAll(d, p), e.key, e.value);
      ToMapAssignAll(d, p);
      ToMapSet(AssignAll(d, p), e.key, e.value);
      UnionUpdate(ToMap(d), ToMap(p), e.key, e.value);
    }
  }

  lemma UnionUpdate(a: map<string, string>, b: map<string, string>, k: string, v: string)
    ensures (a + b)[k := v] == a + b[k := v]
  {
  }

  /** Round trip on the mappings: what is loaded back is the defaults overridden by `d`. */
  lemma RoundTripMap(d: Dict)
    requires AllSurvive(d)
    ensures ToMap(Load(SplitLines(Serialise(d)))) == ToMap(Defaults) + ToMap(d)
  {
    RoundTrip(d);
    DefaultsWellFormed();
    ToMapAssignAll(Defaults, d);
  }

  lemma AssignLast(base: Dict, d: Dict, m: nat)
    requires 0 < m <= |d|
    ensures AssignAll(base, d[..m]) == Set(AssignAll(base, d[..m - 1]), d[m - 1].key, d[m - 1].value)
  {
    assert d[..m][..m - 1] == d[..m - 1];
    assert d[..m][m - 1] == d[m - 1];
  }

  /** Assigning the first `m` entries of `d` over a `base` whose keys start `d`'s keys
      replaces the first `m` entries of `base`, in place. */
  lemma {:induction false} AssignOverPrefix(base: Dict, d: Dict, m: nat)
    requires DistinctKeys(d) && |base| <= |d|
    requires forall j :: 0 <= j < |base| ==> base[j].key == d[j].key
    requires m <= |base|
    ensures AssignAll(base, d[..m]) == d[..m] + base[m..]
  {
    if m > 0 {
      var n := m - 1;
      var x := d[..n] + base[n..];
      AssignLast(base, d, m);
      AssignOverPrefix(base, d, n);
      assert Set(x, d[n].key, d[n].value) == x[n := d[n]] by {
        forall j | 0 <= j < n ensures x[j].key != d[n].key {
          assert x[j] == d[j];
        }
        SetExisting(x, n, d[n].key, d[n].value);
      }
      ReplaceAt(d, base, m);
    }
  }

  /** Putting `a[m - 1]` in place of `b[m - 1]` extends the part taken from `a`. */
  lemma ReplaceAt(a: Dict, b: Dict, m: nat)
    requires 0 < m <= |b| && m <= |a|
    ensures (a[..m - 1] + b[m - 1..])[m - 1 := a[m - 1]] == a[..m] + b[m..]
  {
    var n := m - 1;
    assert b[n..] == [b[n]] + b[m..];
    assert a[..m] == a[..n] + [a[n]];
  }

  /** Assigning the remaining entries of `d` then appends them one by one. */
  lemma {:induction false} AssignPastPrefix(base: Dict, d: Dict, m: nat)
    requires DistinctKeys(d) && |base| <= |d|
    requires forall j :: 0 <= j < |base| ==> base[j].key == d[j].key
    requires |base| <= m <= |d|
    ensures AssignAll(base, d[..m]) == d[..m]
    decreases m
  {
    if m == |base| {
      AssignOverAll(base, d, m);
    } else {
      assert AssignAll(base, d[..m - 1]) == d[..m - 1] by {
        AssignPastPrefix(base, d, m - 1);
      }
      AssignNext(base, d, m);
    }
  }

  /** Assigning as many entries of `d` as `base` has replaces all of `base`. */
  lemma AssignOverAll(base: Dict, d: Dict, m: nat)
    requires DistinctKeys(d) && m == |base| <= |d|
    requires forall j :: 0 <= j < |base| ==> base[j].key == d[j].key
    ensures AssignAll(base, d[..m]) == d[..m]
  {
    AssignOverPrefix(base, d, m);
    assert d[..m] + base[m..] == d[..m];
  }

  /** One more entry of `d` assigned over a prefix of `d` extends the prefix. */
  lemma AssignNext(base: Dict, d: Dict, m: nat)
    requires DistinctKeys(d) && 0 < m <= |d|
    requires AssignAll(base, d[..m - 1]) == d[..m - 1]
    ensures AssignAll(base, d[..m]) == d[..m]
  {
    AssignLast(base, d, m);
    AppendNext(d, m - 1);
  }

  /** With distinct keys, assigning the next entry of `d` over its prefix appends it. */
  lemma AppendNext(d: Dict, n: nat)
    requires DistinctKeys(d) && n < |d|
    ensures Set(d[..n], d[n].key, d[n].value) == d[..n + 1]
  {
    var k := d[n].key;
    assert k !in Keys(d[..n]) by {
      forall j | 0 <= j < n ensures Keys(d[..n])[j] != k {
        assert Keys(d[..n])[j] == d[j].key;
      }
    }
    SetNew(d[..n], k, d[n].value);
    assert d[..n] + [d[n]] == d[..n + 1];
  }

  /** Assigning the entries of a loaded mapping over the defaults rebuilds it. */
  lemma AssignOverDefaults(d: Dict)
    requires WellFormed(d)
    ensures AssignAll(Defaults, d) == d
  {
    forall j | 0 <= j < 3 ensures Defaults[j].key == d[j].key {
      assert Keys(d)[..3][j] == d[j].key;
    }
    AssignPastPrefix(Defaults, d, |d|);
    assert d[..|d|] == d;
  }

  /** Saving a loaded mapping and loading it again gives back the very same mapping,
      order included, when its entries survive the text format. */
  lemma SaveLoadRoundTrip(d: Dict)
    requires WellFormed(d) && AllSurvive(d)
    ensures Load(SplitLines(Serialise(d))) == d
  {
    RoundTrip(d);
    AssignOverDefaults(d);
  }
}
