/**
 The one regular expression the extractor applies to a line,
 `#define\s+([A-Z][A-Z_0-9]+)\s+(-?\d+|0x[0-9a-fA-F]+)`, with `re.match`
 semantics: anchored at the start of the line, a prefix of the line suffices,
 quantifiers are greedy and the alternatives are tried left to right. `\s` is
 ASCII whitespace and `\d` an ASCII digit.
 */
module Pattern {
  import opened Wrappers
  import opened Decimal

  predicate StartsWith(s: string, prefix: string) {
    |prefix| <= |s| && s[..|prefix|] == prefix
  }

  /** ASCII `\s`: space, tab, line feed, vertical tab, form feed, carriage return. */
  predicate IsSpace(c: char) { c == ' ' || '\t' <= c <= '\r' }

  predicate IsUpper(c: char) { 'A' <= c <= 'Z' }

  predicate IsNameChar(c: char) { IsUpper(c) || IsDigit(c) || c == '_' }

  /** `[A-Z][A-Z_0-9]+`: an upper-case letter and at least one more character. */
  predicate IsName(s: string) {
    |s| >= 2 && IsUpper(s[0]) && forall k :: 1 <= k < |s| ==> IsNameChar(s[k])
  }

  /** What the second group can capture: `-?\d+` or `0x[0-9a-fA-F]+`. */
  predicate IsValueCapture(s: string) {
    IsSignedDigits(s) || (IsHexLiteral(s) && s[1] == 'x')
  }

  const Directive: string := "#define"

  /** End of the longest run of characters satisfying `p` from `i` on. */
  function RunEnd(s: string, i: nat, p: char -> bool): (j: nat)
    requires i <= |s|
    ensures i <= j <= |s|
    ensures forall k :: i <= k < j ==> p(s[k])
    ensures j == |s| || !p(s[j])
    decreases |s| - i
  {
    if i < |s| && p(s[i]) then RunEnd(s, i + 1, p) else i
  }

  /** A run is determined by where it starts: any maximal run is the one `RunEnd` finds. */
  lemma {:induction false} RunEndIsMaximalRun(s: string, i: nat, j: nat, p: char -> bool)
    requires i <= j <= |s|
    requires forall k :: i <= k < j ==> p(s[k])
    requires j == |s| || !p(s[j])
    ensures RunEnd(s, i, p) == j
    decreases j - i
  {
    if i < j {
      RunEndIsMaximalRun(s, i + 1, j, p);
    }
  }

  /** The two groups of a successful match. */
  datatype Capture = Capture(name: string, valueText: string)

  /** The second alternative `0x[0-9a-fA-F]+` at position `c`: where it ends, if it matches. */
  function HexAlternative(line: string, c: nat): (d: Option<nat>)
    requires c <= |line|
    ensures d.Some? ==> c < d.value <= |line| && IsHexLiteral(line[c..d.value]) && line[c + 1] == 'x'
  {
    if c + 2 <= |line| && line[c] == '0' && line[c + 1] == 'x' then
      var e := RunEnd(line, c + 2, IsHexDigit);
      if e > c + 2 then
        assert line[c..e][2..] == line[c + 2..e];
        Some(e)
      else None
    else None
  }

  /** The value group at position `c`: `-?\d+` first (the sign is given up again
      when no digit follows it), otherwise the hexadecimal alternative. */
  function ValueEnd(line: string, c: nat): (d: Option<nat>)
    requires c <= |line|
    ensures d.Some? ==> c < d.value <= |line| && IsValueCapture(line[c..d.value])
  {
    var start := if c < |line| && line[c] == '-' then c + 1 else c;
    var e := RunEnd(line, start, IsDigit);
    if e > start then
      assert start == c + 1 ==> line[c..e][1..] == line[start..e];
      Some(e)
    else HexAlternative(line, c)
  }

  /** `#define\s+([A-Z][A-Z_0-9]+)`: the span `[a, b)` of the name group. No
      shorter name or whitespace run could let the rest match, since whitespace
      and name characters are disjoint. */
  function NameGroup(line: string): (r: Option<(nat, nat)>)
    ensures r.Some? ==>
      && StartsWith(line, Directive)
      && |Directive| < r.value.0 < r.value.1 <= |line|
      && (forall k :: |Directive| <= k < r.value.0 ==> IsSpace(line[k]))
      && IsName(line[r.value.0..r.value.1])
      && (r.value.1 == |line| || !IsNameChar(line[r.value.1]))
  {
    if !StartsWith(line, Directive) then None
    else
      var a := RunEnd(line, |Directive|, IsSpace);
      if a == |Directive| || a == |line| || !IsUpper(line[a]) then None
      else
        var b := RunEnd(line, a + 1, IsNameChar);
        if b == a + 1 then None else Some((a, b))
  }

  /** `\s+(-?\d+|0x[0-9a-fA-F]+)` from position `b`: the span `[c, d)` of the value group. */
  function ValueGroup(line: string, b: nat): (r: Option<(nat, nat)>)
    requires b <= |line|
    ensures r.Some? ==>
      && b < r.value.0 < r.value.1 <= |line|
      && (forall k :: b <= k < r.value.0 ==> IsSpace(line[k]))
      && IsValueCapture(line[r.value.0..r.value.1])
  {
    var c := RunEnd(line, b, IsSpace);
    if c == b then None
    else
      match ValueEnd(line, c)
      case None => None
      case Some(d) => Some((c, d))
  }

  /** `re.match(pattern, line)`: the captured name and value text, or `None` when
      the line does not match. */
  function Recognise(line: string): (m: Option<Capture>)
    ensures m.Some? ==> IsName(m.value.name) && IsValueCapture(m.value.valueText)
  {
    match NameGroup(line)
    case None => None
    case Some((a, b)) =>
      match ValueGroup(line, b)
      case None => None
      case Some((c, d)) => Some(Capture(line[a..b], line[c..d]))
  }

  /** The pattern matches a prefix of `line` with the name group at `line[a..b]`
      and the value group at `line[c..d]`. */
  predicate MatchesAt(line: string, a: nat, b: nat, c: nat, d: nat) {
    && |Directive| < a < b < c < d <= |line|
    && StartsWith(line, Directive)
    && (forall k :: |Directive| <= k < a ==> IsSpace(line[k]))
    && IsName(line[a..b])
    && (forall k :: b <= k < c ==> IsSpace(line[k]))
    && IsValueCapture(line[c..d])
  }

  /** The value capture is always the longest `-?\d+` run: the decimal alternative
      is tried first and a `0x` literal begins with the digit `0`. */
  lemma ValueGroupIsDecimal(line: string, b: nat)
    requires b <= |line| && ValueGroup(line, b).Some?
    ensures var (c, d) := ValueGroup(line, b).value;
      IsSignedDigits(line[c..d]) && (d == |line| || !IsDigit(line[d]))
  {
    var c := RunEnd(line, b, IsSpace);
    var d := ValueEnd(line, c).value;
    assert IsDigit(line[c]) || line[c] == '-';
    var start := if line[c] == '-' then c + 1 else c;
    var e := RunEnd(line, start, IsDigit);
    assert e > start;
    assert start == c + 1 ==> line[c..d][1..] == line[start..d];
  }

  /** What `Recognise` returns is a match, the value being the longest `-?\d+`
      run: the hexadecimal alternative never supplies the capture. */
  lemma RecogniseSound(line: string)
    requires Recognise(line).Some?
    ensures exists a: nat, b: nat, c: nat, d: nat ::
      && MatchesAt(line, a, b, c, d)
      && Recognise(line).value == Capture(line[a..b], line[c..d])
      && IsSignedDigits(line[c..d])
      && (d == |line| || !IsDigit(line[d]))
  {
    var (a, b) := NameGroup(line).value;
    ValueGroupIsDecimal(line, b);
    var (c, d) := ValueGroup(line, b).value;
    assert MatchesAt(line, a, b, c, d);
  }

  lemma NameGroupComplete(line: string, a: nat, b: nat, c: nat, d: nat)
    requires MatchesAt(line, a, b, c, d)
    ensures NameGroup(line) == Some((a, b))
  {
    assert !IsSpace(line[a]) && IsUpper(line[a]) by { assert line[a..b][0] == line[a]; }
    RunEndIsMaximalRun(line, |Directive|, a, IsSpace);
    forall k | a + 1 <= k < b ensures IsNameChar(line[k]) {
      assert line[a..b][k - a] == line[k];
    }
    assert IsSpace(line[b]);
    RunEndIsMaximalRun(line, a + 1, b, IsNameChar);
  }

  lemma ValueGroupComplete(line: string, a: nat, b: nat, c: nat, d: nat)
    requires MatchesAt(line, a, b, c, d)
    ensures ValueGroup(line, b).Some? && ValueGroup(line, b).value.0 == c
  {
    var v := line[c..d];
    assert v[0] == line[c];
    assert IsDigit(line[c]) || line[c] == '-';
    RunEndIsMaximalRun(line, b, c, IsSpace);
    var start := if line[c] == '-' then c + 1 else c;
    assert IsDigit(line[start]) by {
      if line[c] == '-' {
        assert v[1..][0] == line[c + 1];
      }
    }
    assert ValueEnd(line, c).Some?;
  }

  /** Whenever the pattern matches, `Recognise` finds that name, and its value
      capture starts where the match's value group does. */
  lemma RecogniseComplete(line: string, a: nat, b: nat, c: nat, d: nat)
    requires MatchesAt(line, a, b, c, d)
    ensures Recognise(line).Some?
    ensures Recognise(line).value.name == line[a..b]
    ensures StartsWith(line[c..], Recognise(line).value.valueText)
  {
    NameGroupComplete(line, a, b, c, d);
    ValueGroupComplete(line, a, b, c, d);
    var e := ValueGroup(line, b).value.1;
    assert line[c..][..e - c] == line[c..e];
  }
}
