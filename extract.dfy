/**
 The extractor `parse_defines`: every line that starts with `#define` and
 matches the pattern contributes one (name, value) entry, in input order;
 the list is then stably sorted by name.
 */
module Extract {
  import opened Wrappers
  import opened Ordinal
  import opened Decimal
  import opened Pattern

  /** One extracted constant. Values are Python integers: unbounded. */
  datatype Entry = Entry(name: string, value: int)

  /** The suffix characters stripped from a decimal value. */
  const Suffixes: set<char> := {'L', 'l', 'U', 'u'}

  /** `s.rstrip(chars)`: the longest prefix of `s` that does not end in a
      character of `chars`; everything removed is in `chars`. */
  function RStrip(s: string, chars: set<char>): (r: string)
    ensures r <= s
    ensures r == [] || r[|r| - 1] !in chars
    ensures forall k :: |r| <= k < |s| ==> s[k] in chars
    decreases |s|
  {
    if |s| > 0 && s[|s| - 1] in chars then RStrip(s[..|s| - 1], chars) else s
  }

  /** The value of the captured text: a `0x`/`0X` literal in base 16, anything
      else in base 10 after the `L`/`U` suffixes are stripped. */
  function ParseValue(valueText: string): int
    requires IsValueCapture(valueText)
  {
    if StartsWith(valueText, "0x") || StartsWith(valueText, "0X") then
      assert valueText[1] == valueText[..2][1];
      HexValue(valueText)
    else
      SignedDecimal(RStrip(valueText, Suffixes))
  }

  /** On the decimal text the pattern captures, the hexadecimal branch is not
      taken and stripping the suffixes removes nothing. */
  lemma ParseValueIsDecimal(valueText: string)
    requires IsSignedDigits(valueText)
    ensures ParseValue(valueText) == SignedDecimal(valueText)
  {
    assert valueText[0] == '-' || IsDigit(valueText[0]);
    if |valueText| >= 2 && valueText[0] == '-' {
      assert valueText[1..][0] == valueText[1];
    }
    assert !StartsWith(valueText, "0x") && !StartsWith(valueText, "0X") by {
      if |valueText| >= 2 {
        assert valueText[..2][1] == valueText[1];
        if valueText[0] != '-' {
          assert IsDigit(valueText[1]);
        }
      }
    }
    var last := valueText[|valueText| - 1];
    assert IsDigit(last) by {
      if valueText[0] == '-' {
        assert valueText[1..][|valueText| - 2] == last;
      }
    }
    assert RStrip(valueText, Suffixes) == valueText;
  }

  /** One line: skipped unless it starts with `#define`, dropped unless it
      matches the pattern, otherwise the entry it declares. */
  function ParseLine(line: string): (r: Option<Entry>)
    ensures !StartsWith(line, Directive) ==> r == None
    ensures r.Some? ==> IsName(r.value.name)
  {
    if !StartsWith(line, Directive) then None
    else
      match Recognise(line)
      case None => None
      case Some(m) => Some(Entry(m.name, ParseValue(m.valueText)))
  }

  /** A line yields an entry exactly when the pattern matches a prefix of it;
      the entry is the name group and the signed decimal value of the longest
      `-?\d+` run of the value group. So `#define BETA 0x1F` declares 0. */
  lemma ParseLineMeaning(line: string)
    ensures ParseLine(line).Some? <==> exists a: nat, b: nat, c: nat, d: nat :: MatchesAt(line, a, b, c, d)
    ensures ParseLine(line).Some? ==> exists a: nat, b: nat, c: nat, d: nat ::
      && MatchesAt(line, a, b, c, d)
      && IsSignedDigits(line[c..d])
      && (d == |line| || !IsDigit(line[d]))
      && ParseLine(line).value == Entry(line[a..b], SignedDecimal(line[c..d]))
  {
    if ParseLine(line).Some? {
      RecogniseSound(line);
      var a: nat, b: nat, c: nat, d: nat :|
        && MatchesAt(line, a, b, c, d)
        && Recognise(line).value == Capture(line[a..b], line[c..d])
        && IsSignedDigits(line[c..d])
        && (d == |line| || !IsDigit(line[d]));
      ParseValueIsDecimal(line[c..d]);
    }
    if exists a: nat, b: nat, c: nat, d: nat :: MatchesAt(line, a, b, c, d) {
      var a: nat, b: nat, c: nat, d: nat :| MatchesAt(line, a, b, c, d);
      RecogniseComplete(line, a, b, c, d);
    }
  }

  /** The entries that the per-line parser `parse` yields for `lines`, in
      input order; `Kept` instantiates it with `ParseLine`. */
  function Collect(lines: seq<string>, parse: string -> Option<Entry>): (r: seq<Entry>)
    ensures |r| <= |lines|
    decreases |lines|
  {
    if lines == [] then []
    else
      var init := Collect(lines[..|lines| - 1], parse);
      match parse(lines[|lines| - 1])
      case None => init
      case Some(e) => init + [e]
  }

  /** The entries of `lines`, in input order, before sorting. */
  function Kept(lines: seq<string>): seq<Entry> {
    Collect(lines, ParseLine)
  }

  lemma {:induction false} CollectAppend(x: seq<string>, y: seq<string>, parse: string -> Option<Entry>)
    ensures Collect(x + y, parse) == Collect(x, parse) + Collect(y, parse)
    decreases |y|
  {
    if y == [] {
      assert x + y == x;
    } else {
      var y' := y[..|y| - 1];
      assert (x + y)[..|x + y| - 1] == x + y';
      assert (x + y)[|x + y| - 1] == y[|y| - 1];
      CollectAppend(x, y', parse);
    }
  }

  lemma {:induction false} CollectSound(lines: seq<string>, parse: string -> Option<Entry>, e: Entry)
    requires e in Collect(lines, parse)
    ensures exists i :: 0 <= i < |lines| && parse(lines[i]) == Some(e)
    decreases |lines|
  {
    var init := lines[..|lines| - 1];
    if e in Collect(init, parse) {
      CollectSound(init, parse, e);
      var i :| 0 <= i < |init| && parse(init[i]) == Some(e);
      assert lines[i] == init[i];
    } else {
      assert parse(lines[|lines| - 1]) == Some(e);
    }
  }

  lemma {:induction false} CollectComplete(lines: seq<string>, parse: string -> Option<Entry>, i: nat, e: Entry)
    requires i < |lines| && parse(lines[i]) == Some(e)
    ensures e in Collect(lines, parse)
    decreases |lines|
  {
    var init := lines[..|lines| - 1];
    if i < |init| {
      assert init[i] == lines[i];
      CollectComplete(init, parse, i, e);
    }
  }

  /** Lines are handled one at a time and in order: the entries of two blocks
      of lines are those of the first block followed by those of the second. */
  lemma KeptAppend(x: seq<string>, y: seq<string>)
    ensures Kept(x + y) == Kept(x) + Kept(y)
  {
    CollectAppend(x, y, ParseLine);
  }

  /** Only a line that declares an entry contributes it. */
  lemma KeptSound(lines: seq<string>, e: Entry)
    requires e in Kept(lines)
    ensures exists i :: 0 <= i < |lines| && ParseLine(lines[i]) == Some(e)
  {
    CollectSound(lines, ParseLine, e);
  }

  /** Every line that declares an entry contributes it. */
  lemma KeptComplete(lines: seq<string>, i: nat, e: Entry)
    requires i < |lines| && ParseLine(lines[i]) == Some(e)
    ensures e in Kept(lines)
  {
    CollectComplete(lines, ParseLine, i, e);
  }

  /** Every kept name has the name shape. */
  lemma KeptNames(lines: seq<string>)
    ensures forall k :: 0 <= k < |Kept(lines)| ==> IsName(Kept(lines)[k].name)
  {
    forall k | 0 <= k < |Kept(lines)| ensures IsName(Kept(lines)[k].name) {
      var e := Kept(lines)[k];
      KeptSound(lines, e);
    }
  }

  /** The names of a list of entries, index by index. */
  function Names(s: seq<Entry>): (r: seq<string>)
    ensures |r| == |s| && forall k :: 0 <= k < |s| ==> r[k] == s[k].name
  {
    seq(|s|, k requires 0 <= k < |s| => s[k].name)
  }

  predicate SortedByName(s: seq<Entry>) {
    Sorted(Names(s))
  }

  /** The entries named `n`, in their order in `s`. */
  function WithName(s: seq<Entry>, n: string): seq<Entry>
    decreases |s|
  {
    if s == [] then []
    else WithName(s[..|s| - 1], n) + (if s[|s| - 1].name == n then [s[|s| - 1]] else [])
  }

  lemma {:induction false} WithNameAppend(x: seq<Entry>, y: seq<Entry>, n: string)
    ensures WithName(x + y, n) == WithName(x, n) + WithName(y, n)
    decreases |y|
  {
    if y == [] {
      assert x + y == x;
    } else {
      var y' := y[..|y| - 1];
      assert (x + y)[..|x + y| - 1] == x + y';
      assert (x + y)[|x + y| - 1] == y[|y| - 1];
      WithNameAppend(x, y', n);
    }
  }

  lemma {:induction false} WithNameAbsent(s: seq<Entry>, n: string)
    requires forall k :: 0 <= k < |s| ==> s[k].name != n
    ensures WithName(s, n) == []
    decreases |s|
  {
    if s != [] {
      WithNameAbsent(s[..|s| - 1], n);
    }
  }

  lemma {:induction false} WithNameMembers(s: seq<Entry>, n: string)
    ensures forall e :: e in WithName(s, n) ==> e in s && e.name == n
    decreases |s|
  {
    if s != [] {
      WithNameMembers(s[..|s| - 1], n);
    }
  }

  /** Stable sorting by name: the result is sorted, and for every name the
      entries carrying it appear in their original order; nothing is added or
      removed. */
  ghost predicate IsStableSortByName(r: seq<Entry>, s: seq<Entry>) {
    && SortedByName(r)
    && multiset(r) == multiset(s)
    && forall n :: WithName(r, n) == WithName(s, n)
  }

  /** This characterisation leaves no choice: any stable sort by name, Python's
      `list.sort` included, produces the same list. */
  lemma {:induction false} StableSortUnique(x: seq<Entry>, y: seq<Entry>)
    requires SortedByName(x) && SortedByName(y)
    requires forall n :: WithName(x, n) == WithName(y, n)
    ensures x == y
    decreases |x|
  {
    if x == [] || y == [] {
      if x != [] {
        LastIsWithItsName(x);
      } else if y != [] {
        LastIsWithItsName(y);
      }
    } else {
      var x', ex := x[..|x| - 1], x[|x| - 1];
      var y', ey := y[..|y| - 1], y[|y| - 1];
      SameLastName(x, y);
      var m := ex.name;
      var wx, wy := WithName(x', m), WithName(y', m);
      assert WithName(x, m) == wx + [ex] && WithName(y, m) == wy + [ey];
      assert (wx + [ex])[|wx|] == ex && (wy + [ey])[|wy|] == ey;
      assert ex == ey;
      forall n ensures WithName(x', n) == WithName(y', n) {
        if n == m {
          assert wx == (wx + [ex])[..|wx|];
          assert wy == (wy + [ey])[..|wy|];
        } else {
          assert WithName(x', n) == WithName(x, n);
          assert WithName(y', n) == WithName(y, n);
        }
      }
      SortedPrefix(x);
      SortedPrefix(y);
      StableSortUnique(x', y');
      assert x == x' + [ex] && y == y' + [ey];
    }
  }

  lemma LastIsWithItsName(s: seq<Entry>)
    requires s != []
    ensures WithName(s, s[|s| - 1].name) != []
  {
  }

  /** Two sorted lists with the same entries for every name end in the same name. */
  lemma SameLastName(x: seq<Entry>, y: seq<Entry>)
    requires SortedByName(x) && SortedByName(y) && x != [] && y != []
    requires forall n :: WithName(x, n) == WithName(y, n)
    ensures x[|x| - 1].name == y[|y| - 1].name
  {
    var ex, ey := x[|x| - 1], y[|y| - 1];
    assert WithName(y, ey.name) != [];
    assert WithName(x, ex.name) != [];
    LastHoldsGreatestName(x, ey.name);
    LastHoldsGreatestName(y, ex.name);
    LexAntisymmetric(ex.name, ey.name);
    LexZeroIffEqual(ex.name, ey.name);
  }

  /** In a sorted list, a name that occurs is no greater than the last name. */
  lemma LastHoldsGreatestName(s: seq<Entry>, n: string)
    requires SortedByName(s) && s != [] && WithName(s, n) != []
    ensures Lex(n, s[|s| - 1].name) <= 0
  {
    WithNameMembers(s, n);
    var e := WithName(s, n)[0];
    assert e in WithName(s, n);
    var k :| 0 <= k < |s| && s[k] == e;
    if k == |s| - 1 {
      LexZeroIffEqual(n, n);
    } else {
      assert Lex(Names(s)[k], Names(s)[|s| - 1]) <= 0;
    }
  }

  lemma SortedPrefix(s: seq<Entry>)
    requires SortedByName(s) && s != []
    ensures SortedByName(s[..|s| - 1])
  {
    var p := s[..|s| - 1];
    forall i, j | 0 <= i < j < |p| ensures Lex(Names(p)[i], Names(p)[j]) <= 0 {
      assert Lex(Names(s)[i], Names(s)[j]) <= 0;
    }
  }

  /** Inserts `e` after every entry whose name is not greater than its own,
      which keeps the list sorted and `e` behind the entries of the same name. */
  method InsertByName(r: seq<Entry>, e: Entry) returns (t: seq<Entry>)
    requires SortedByName(r)
    ensures SortedByName(t)
    ensures multiset(t) == multiset(r) + multiset{e}
    ensures forall n :: WithName(t, n) == WithName(r, n) + (if e.name == n then [e] else [])
  {
    var j := 0;
    while j < |r| && Lex(r[j].name, e.name) <= 0
      invariant 0 <= j <= |r|
      invariant forall k :: 0 <= k < j ==> Lex(r[k].name, e.name) <= 0
    {
      j := j + 1;
    }
    t := r[..j] + [e] + r[j..];
    GreaterAfter(r, e, j);
    InsertKeepsOrder(r, e, j);
    InsertKeepsNames(r, e, j);
    assert r == r[..j] + r[j..];
  }

  /** Where the scan stops, every remaining name is greater than that of `e`. */
  lemma GreaterAfter(r: seq<Entry>, e: Entry, j: nat)
    requires SortedByName(r) && j <= |r|
    requires j < |r| ==> Lex(r[j].name, e.name) > 0
    ensures forall k :: j <= k < |r| ==> Lex(e.name, r[k].name) < 0
  {
    forall k | j <= k < |r| ensures Lex(e.name, r[k].name) < 0 {
      LexAntisymmetric(r[j].name, e.name);
      if j != k {
        assert Lex(Names(r)[j], Names(r)[k]) <= 0;
        LexStrictTransitive(e.name, r[j].name, r[k].name);
      }
    }
  }

  lemma InsertKeepsNames(r: seq<Entry>, e: Entry, j: nat)
    requires j <= |r|
    requires forall k :: j <= k < |r| ==> Lex(e.name, r[k].name) < 0
    ensures forall n :: WithName(r[..j] + [e] + r[j..], n) == WithName(r, n) + (if e.name == n then [e] else [])
  {
    forall n ensures WithName(r[..j] + [e] + r[j..], n) == WithName(r, n) + (if e.name == n then [e] else []) {
      InsertKeepsNamesOf(r, e, j, n);
    }
  }

  lemma InsertKeepsNamesOf(r: seq<Entry>, e: Entry, j: nat, n: string)
    requires j <= |r|
    requires forall k :: j <= k < |r| ==> Lex(e.name, r[k].name) < 0
    ensures WithName(r[..j] + [e] + r[j..], n) == WithName(r, n) + (if e.name == n then [e] else [])
  {
    var front, back := r[..j], r[j..];
    WithNameAppend(front + [e], back, n);
    WithNameAppend(front, [e], n);
    WithNameAppend(front, back, n);
    assert front + back == r;
    assert WithName([e], n) == (if e.name == n then [e] else []) by {
      assert [e][..0] == [];
    }
    if e.name == n {
      forall k | 0 <= k < |back| ensures back[k].name != n {
        LexZeroIffEqual(e.name, r[j + k].name);
      }
      WithNameAbsent(back, n);
    }
  }

  lemma InsertKeepsOrder(r: seq<Entry>, e: Entry, j: nat)
    requires SortedByName(r) && j <= |r|
    requires forall k :: 0 <= k < j ==> Lex(r[k].name, e.name) <= 0
    requires forall k :: j <= k < |r| ==> Lex(e.name, r[k].name) < 0
    ensures SortedByName(r[..j] + [e] + r[j..])
  {
    var t := r[..j] + [e] + r[j..];
    forall a, b | 0 <= a < b < |t| ensures Lex(Names(t)[a], Names(t)[b]) <= 0 {
      var ra := if a < j then a else a - 1;
      var rb := if b < j then b else b - 1;
      if a != j && b != j {
        assert Lex(Names(r)[ra], Names(r)[rb]) <= 0;
      }
    }
  }

  /** A stable sort by name: insertion of each entry in turn. */
  method StableSortByName(s: seq<Entry>) returns (r: seq<Entry>)
    ensures IsStableSortByName(r, s)
  {
    r := [];
    for i := 0 to |s|
      invariant SortedByName(r)
      invariant multiset(r) == multiset(s[..i])
      invariant forall n :: WithName(r, n) == WithName(s[..i], n)
    {
      r := InsertByName(r, s[i]);
      assert s[..i + 1] == s[..i] + [s[i]];
      assert forall n :: WithName(s[..i + 1], n) == WithName(s[..i], n) + (if s[i].name == n then [s[i]] else []) by {
        assert s[..i + 1][..i] == s[..i];
      }
    }
    assert s[..|s|] == s;
  }

  /** `parse_defines` on the lines of the input file. */
  method ParseDefines(lines: seq<string>) returns (constants: seq<Entry>)
    ensures IsStableSortByName(constants, Kept(lines))
  {
    constants := [];
    for i := 0 to |lines|
      invariant constants == Kept(lines[..i])
    {
      assert lines[..i + 1][..i] == lines[..i];
      var line := lines[i];
      if !StartsWith(line, Directive) {
        continue;
      }
      var m := Recognise(line);
      if m.Some? {
        var name := m.value.name;
        var value := ParseValue(m.value.valueText);
        constants := constants + [Entry(name, value)];
      }
    }
    assert lines[..|lines|] == lines;
    constants := StableSortByName(constants);
  }

  /** The entry a line declares, read off the positions of its groups. */
  lemma ParseLineAt(line: string, a: nat, b: nat, c: nat, d: nat)
    requires NameGroup(line) == Some((a, b))
    requires b <= |line| && ValueGroup(line, b) == Some((c, d))
    ensures ParseLine(line) == Some(Entry(line[a..b], SignedDecimal(line[c..d])))
  {
    ValueGroupIsDecimal(line, b);
    ParseValueIsDecimal(line[c..d]);
  }

  /** Where the name group of `#define ALPHA 10` sits. */
  lemma DecimalLineName()
    ensures NameGroup("#define ALPHA 10") == Some((8, 13))
  {
    var line := "#define ALPHA 10";
    RunEndIsMaximalRun(line, 7, 8, IsSpace);
    RunEndIsMaximalRun(line, 9, 13, IsNameChar);
  }

  /** Where the value group of `#define ALPHA 10` sits. */
  lemma DecimalLineValue()
    ensures ValueGroup("#define ALPHA 10", 13) == Some((14, 16))
  {
    var line := "#define ALPHA 10";
    RunEndIsMaximalRun(line, 13, 14, IsSpace);
    RunEndIsMaximalRun(line, 14, 16, IsDigit);
  }

  /** A decimal value. */
  lemma DecimalLineExample()
    ensures ParseLine("#define ALPHA 10") == Some(Entry("ALPHA", 10))
  {
    DecimalLineName();
    DecimalLineValue();
    var line := "#define ALPHA 10";
    ParseLineAt(line, 8, 13, 14, 16);
    assert line[8..13] == "ALPHA" && line[14..16] == "10";
    assert "10"[..1] == "1" && "1"[..0] == "";
  }

  /** Where the name group of `#define BETA 0x1F` sits. */
  lemma HexLineName()
    ensures NameGroup("#define BETA 0x1F") == Some((8, 12))
  {
    var line := "#define BETA 0x1F";
    RunEndIsMaximalRun(line, 7, 8, IsSpace);
    RunEndIsMaximalRun(line, 9, 12, IsNameChar);
  }

  /** The value group of `#define BETA 0x1F` is its leading `0` alone. */
  lemma HexLineValue()
    ensures ValueGroup("#define BETA 0x1F", 12) == Some((13, 14))
  {
    var line := "#define BETA 0x1F";
    RunEndIsMaximalRun(line, 12, 13, IsSpace);
    RunEndIsMaximalRun(line, 13, 14, IsDigit);
  }

  /** A hexadecimal literal declares 0: the decimal alternative matches its
      leading `0` first. */
  lemma HexLineExample()
    ensures ParseLine("#define BETA 0x1F") == Some(Entry("BETA", 0))
  {
    HexLineName();
    HexLineValue();
    var line := "#define BETA 0x1F";
    ParseLineAt(line, 8, 12, 13, 14);
    assert line[8..12] == "BETA" && line[13..14] == "0";
    assert "0"[..0] == "";
  }

  /** Where the name group of `#define FOO "bar"` sits. */
  lemma StringLineName()
    ensures NameGroup("#define FOO \"bar\"") == Some((8, 11))
  {
    var line := "#define FOO \"bar\"";
    RunEndIsMaximalRun(line, 7, 8, IsSpace);
    RunEndIsMaximalRun(line, 9, 11, IsNameChar);
  }

  /** A string value declares nothing. */
  lemma StringLineExample()
    ensures ParseLine("#define FOO \"bar\"") == None
  {
    StringLineName();
    var line := "#define FOO \"bar\"";
    RunEndIsMaximalRun(line, 11, 12, IsSpace);
    RunEndIsMaximalRun(line, 12, 12, IsDigit);
  }

  /** A one-letter name declares nothing, nor does an indented directive. */
  lemma ShortNameLineExample()
    ensures ParseLine("#define B 0x1F") == None
    ensures ParseLine("  #define BAZ 5") == None
  {
    var line := "#define B 0x1F";
    RunEndIsMaximalRun(line, 7, 8, IsSpace);
    RunEndIsMaximalRun(line, 9, 9, IsNameChar);
  }

  /** The entries of a two-line header, in input order. */
  lemma TwoLineKept()
    ensures Kept(["#define ALPHA 10", "#define BETA 0x1F"]) == [Entry("ALPHA", 10), Entry("BETA", 0)]
  {
    var lines := ["#define ALPHA 10", "#define BETA 0x1F"];
    DecimalLineExample();
    HexLineExample();
    assert lines[..1] == ["#define ALPHA 10"];
    assert ["#define ALPHA 10"][..0] == [];
  }
}
