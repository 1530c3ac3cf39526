/**
 The emitter `generate_jai`: the lines of the generated source file, and a
 reader that recovers the count and the two tables from those lines, so that
 what is written can be checked against what is read back.
 */
module Emit {
  import opened Wrappers
  import opened Decimal
  import opened Pattern
  import opened Extract

  const MaxS64: int := 0x7FFF_FFFF_FFFF_FFFF
  const MinS64: int := -0x8000_0000_0000_0000
  const TwoTo64: int := 0x1_0000_0000_0000_0000

  /** The value written for `v`: one subtraction of 2^64 above the largest
      signed 64-bit integer, otherwise `v` itself. */
  function Wrap(v: int): (w: int)
    ensures w % TwoTo64 == v % TwoTo64
    ensures w <= v
  {
    if v > MaxS64 then v - TwoTo64 else v
  }

  /** On the 64-bit unsigned range, `Wrap` is the two's-complement reading of
      the bit pattern: the one signed 64-bit integer congruent to `v`. */
  lemma WrapIsSignedReading(v: int, s: int)
    requires 0 <= v < TwoTo64
    requires MinS64 <= s <= MaxS64 && s % TwoTo64 == v % TwoTo64
    ensures MinS64 <= Wrap(v) <= MaxS64
    ensures Wrap(v) == s
  {
  }

  /** Values already in the signed 64-bit range are written unchanged. */
  lemma WrapKeepsSigned(v: int)
    requires MinS64 <= v <= MaxS64
    ensures Wrap(v) == v
  {
  }

  lemma WrapExamples()
    ensures Wrap(TwoTo64 - 1) == -1
    ensures Wrap(MaxS64 + 1) == MinS64
    ensures Wrap(MaxS64) == MaxS64
    ensures Wrap(-3) == -3
  {
  }

  /** A single subtraction does not bring every value into range: from
      2^64 + 2^63 on, and below -2^63, the written value is no signed 64-bit
      integer. */
  lemma WrapLeavesOutOfRange(v: int)
    requires v >= TwoTo64 + MaxS64 + 1 || v < MinS64
    ensures Wrap(v) > MaxS64 || Wrap(v) < MinS64
  {
  }

  const Banner: string := "// Incursion Port - Resource Constants"
  const Origin: string := "// Auto-generated from Defines.h"
  const NamesOpen: string := "CONSTANT_NAMES :: string.["
  const ValuesOpen: string := "CONSTANT_VALUES :: s64.["
  const TableClose: string := "];"

  /** The fixed lookup routines written after the tables, line by line. */
  const LookupTemplate: seq<string> := [
    "// Binary search lookup",
    "lookup_resource_constant :: (name: string) -> s64, bool {",
    "    lo := 0;",
    "    hi := CONSTANT_NAMES.count - 1;",
    "",
    "    while lo <= hi {",
    "        mid := (lo + hi) / 2;",
    "        cmp := compare_strings(name, CONSTANT_NAMES[mid]);",
    "        if cmp == 0 {",
    "            return CONSTANT_VALUES[mid], true;",
    "        } else if cmp < 0 {",
    "            hi = mid - 1;",
    "        } else {",
    "            lo = mid + 1;",
    "        }",
    "    }",
    "",
    "    return 0, false;",
    "}",
    "",
    "compare_strings :: (a: string, b: string) -> s32 {",
    "    len := min(a.count, b.count);",
    "    for i: 0..len-1 {",
    "        if a[i] < b[i] return -1;",
    "        if a[i] > b[i] return 1;",
    "    }",
    "    if a.count < b.count return -1;",
    "    if a.count > b.count return 1;",
    "    return 0;",
    "}"
  ]

  /** Row `i` of `count` is followed by a comma unless it is the last one. */
  function Comma(i: nat, count: nat): string {
    if i < count - 1 then "," else ""
  }

  function CountLine(count: nat): string {
    "// " + IntToDecimal(count) + " constants"
  }

  function NameRow(name: string, comma: string): string {
    "    \"" + name + "\"" + comma
  }

  function ValueRow(value: int, comma: string): string {
    "    " + IntToDecimal(value) + comma
  }

  function NameRows(c: seq<Entry>): (r: seq<string>)
    ensures |r| == |c|
  {
    seq(|c|, i requires 0 <= i < |c| => NameRow(c[i].name, Comma(i, |c|)))
  }

  function ValueRows(c: seq<Entry>): (r: seq<string>)
    ensures |r| == |c|
  {
    seq(|c|, i requires 0 <= i < |c| => ValueRow(Wrap(c[i].value), Comma(i, |c|)))
  }

  /** The lines before the name rows. */
  function Preamble(count: nat): seq<string> {
    [Banner, Origin, CountLine(count), "", NamesOpen]
  }

  const Between: seq<string> := [TableClose, "", ValuesOpen]

  /** The lines of the generated file up to the end of the value table. */
  function TableLines(c: seq<Entry>): seq<string> {
    Preamble(|c|) + NameRows(c) + Between + ValueRows(c) + [TableClose, ""]
  }

  /** The lines of the generated file; its text is each line followed by a
      newline. */
  function Emitted(c: seq<Entry>): seq<string> {
    TableLines(c) + LookupTemplate
  }

  /** `generate_jai`: the lines written to the output file, in order (a write
      of text holding two newlines adds two lines). */
  method GenerateJai(constants: seq<Entry>) returns (lines: seq<string>)
    ensures lines == Emitted(constants)
  {
    var n := |constants|;
    lines := [Banner];
    lines := lines + [Origin];
    lines := lines + ["// " + IntToDecimal(n) + " constants", ""];
    lines := lines + [NamesOpen];
    ghost var names := NameRows(constants);
    for i := 0 to n
      invariant lines == Preamble(n) + names[..i]
    {
      var comma := if i < n - 1 then "," else "";
      assert names[..i + 1] == names[..i] + [names[i]];
      lines := lines + ["    \"" + constants[i].name + "\"" + comma];
    }
    assert names[..n] == names;
    lines := lines + [TableClose, ""];
    lines := lines + [ValuesOpen];
    ghost var head := Preamble(n) + names + Between;
    ghost var values := ValueRows(constants);
    for i := 0 to n
      invariant lines == head + values[..i]
    {
      var comma := if i < n - 1 then "," else "";
      var value := constants[i].value;
      if value > 0x7FFFFFFFFFFFFFFF {
        value := value - 0x10000000000000000;
      }
      assert values[..i + 1] == values[..i] + [values[i]];
      lines := lines + ["    " + IntToDecimal(value) + comma];
    }
    assert values[..n] == values;
    lines := lines + [TableClose, ""];
    lines := lines + LookupTemplate;
  }

  /** The table contents a reader of the generated file finds. */
  datatype Tables = Tables(count: nat, names: seq<string>, values: seq<int>)

  /** The count stated by the header line `// N constants`. */
  function DecodeCount(line: string): Option<nat> {
    var p, q := "// ", " constants";
    if |line| > |p| + |q| && line[..|p|] == p && line[|line| - |q|..] == q
       && AllDigits(line[|p|..|line| - |q|])
    then Some(DigitsValue(line[|p|..|line| - |q|]))
    else None
  }

  /** A name row `    "NAME"` and whether a comma follows it. */
  function DecodeNameRow(row: string): Option<(string, bool)> {
    if |row| >= 6 && row[..5] == "    \"" then
      if |row| >= 7 && row[|row| - 2..] == "\"," then Some((row[5..|row| - 2], true))
      else if row[|row| - 1] == '"' then Some((row[5..|row| - 1], false))
      else None
    else None
  }

  /** A value row `    -123` and whether a comma follows it. */
  function DecodeValueRow(row: string): Option<(int, bool)> {
    if |row| >= 5 && row[..4] == "    " then
      var comma := row[|row| - 1] == ',';
      var digits := if comma then row[4..|row| - 1] else row[4..];
      if IsSignedDigits(digits) then Some((SignedDecimal(digits), comma)) else None
    else None
  }

  /** The elements of a table up to its closing `];`, insisting that an
      element is followed by a comma exactly when another element follows. */
  function ReadRows<T>(rows: seq<string>, decode: string -> Option<(T, bool)>): Option<seq<T>>
    decreases |rows|
  {
    if rows == [] then None
    else if rows[0] == TableClose then Some([])
    else
      match decode(rows[0])
      case None => None
      case Some((x, comma)) =>
        match ReadRows(rows[1..], decode)
        case None => None
        case Some(xs) => if comma == (xs != []) then Some([x] + xs) else None
  }

  /** What a reader of the generated file finds: the stated count, the name
      table, and the value table after the two lines that separate them. */
  function ReadTables(lines: seq<string>): Option<Tables> {
    if |lines| < 5 || lines[..5] != [Banner, Origin, lines[2], "", NamesOpen] then None
    else
      match DecodeCount(lines[2])
      case None => None
      case Some(count) =>
        match ReadRows(lines[5..], DecodeNameRow)
        case None => None
        case Some(names) =>
          var v := 5 + |names| + 3;
          if |lines| < v || lines[v - 2] != "" || lines[v - 1] != ValuesOpen then None
          else
            match ReadRows(lines[v..], DecodeValueRow)
            case None => None
            case Some(values) => Some(Tables(count, names, values))
  }

  lemma CountRoundTrip(n: nat)
    ensures DecodeCount(CountLine(n)) == Some(n)
  {
    var d := IntToDecimal(n);
    var line := CountLine(n);
    assert line == "// " + d + " constants";
    assert line[..3] == "// ";
    assert line[|line| - 10..] == " constants";
    assert line[3..|line| - 10] == d;
    NatToDecimalRoundTrip(n);
  }

  lemma NameRowRoundTrip(name: string, last: bool)
    ensures DecodeNameRow(NameRow(name, if last then "" else ",")) == Some((name, !last))
  {
    var row := NameRow(name, if last then "" else ",");
    assert row[..5] == "    \"";
    if last {
      assert row[|row| - 1] == '"';
      assert row[|row| - 2..] != "\",";
      assert row[5..|row| - 1] == name;
    } else {
      assert row[|row| - 2..] == "\",";
      assert row[5..|row| - 2] == name;
    }
  }

  lemma ValueRowRoundTrip(v: int, last: bool)
    ensures DecodeValueRow(ValueRow(v, if last then "" else ",")) == Some((v, !last))
  {
    var d := IntToDecimal(v);
    var row := ValueRow(v, if last then "" else ",");
    assert row[..4] == "    ";
    if last {
      assert row[|row| - 1] == d[|d| - 1];
      assert row[4..] == d;
    } else {
      assert row[4..|row| - 1] == d;
    }
    IntToDecimalRoundTrip(v);
  }

  /** Reading back rows that encode `items`, followed by the closing line. */
  lemma {:induction false} ReadRowsRoundTrip<T>(rows: seq<string>, items: seq<T>, decode: string -> Option<(T, bool)>)
    requires |rows| > |items| && rows[|items|] == TableClose
    requires forall i :: 0 <= i < |items| ==> rows[i] != TableClose
    requires forall i :: 0 <= i < |items| ==> decode(rows[i]) == Some((items[i], i < |items| - 1))
    ensures ReadRows(rows, decode) == Some(items)
    decreases |items|
  {
    if items != [] {
      forall i | 0 <= i < |items| - 1
        ensures rows[1..][i] != TableClose
        ensures decode(rows[1..][i]) == Some((items[1..][i], i < |items[1..]| - 1))
      {
        assert rows[1..][i] == rows[i + 1];
      }
      ReadRowsRoundTrip(rows[1..], items[1..], decode);
      assert [items[0]] + items[1..] == items;
    }
  }

  /** The values as the generated file states them. */
  function WrappedValues(c: seq<Entry>): (r: seq<int>)
    ensures |r| == |c|
  {
    seq(|c|, i requires 0 <= i < |c| => Wrap(c[i].value))
  }

  lemma NameTableRead(c: seq<Entry>, rows: seq<string>)
    requires |rows| > |c| && rows[..|c|] == NameRows(c) && rows[|c|] == TableClose
    ensures ReadRows(rows, DecodeNameRow) == Some(Names(c))
  {
    var n := |c|;
    forall i | 0 <= i < n
      ensures rows[i] != TableClose
      ensures DecodeNameRow(rows[i]) == Some((Names(c)[i], i < n - 1))
    {
      assert rows[i] == rows[..n][i] == NameRows(c)[i];
      NameRowRoundTrip(c[i].name, i == n - 1);
    }
    ReadRowsRoundTrip(rows, Names(c), DecodeNameRow);
  }

  lemma ValueTableRead(c: seq<Entry>, rows: seq<string>)
    requires |rows| > |c| && rows[..|c|] == ValueRows(c) && rows[|c|] == TableClose
    ensures ReadRows(rows, DecodeValueRow) == Some(WrappedValues(c))
  {
    var n := |c|;
    forall i | 0 <= i < n
      ensures rows[i] != TableClose
      ensures DecodeValueRow(rows[i]) == Some((WrappedValues(c)[i], i < n - 1))
    {
      assert rows[i] == rows[..n][i] == ValueRows(c)[i];
      ValueRowRoundTrip(Wrap(c[i].value), i == n - 1);
    }
    ReadRowsRoundTrip(rows, WrappedValues(c), DecodeValueRow);
  }

  /** Where each part of a concatenation of six parts sits. */
  lemma SixParts<T>(p: seq<T>, q: seq<T>, r: seq<T>, s: seq<T>, t: seq<T>, u: seq<T>)
    ensures var x := p + q + r + s + t + u;
      && x[..|p|] == p
      && x[|p|..][..|q|] == q
      && (forall k :: 0 <= k < |r| ==> x[|p| + |q| + k] == r[k])
      && x[|p| + |q| + |r|..][..|s|] == s
      && (forall k :: 0 <= k < |t| ==> x[|p| + |q| + |r|..][|s| + k] == t[k])
  {
    var x := p + q + r + s + t + u;
    assert x[|p|..] == q + r + s + t + u;
    assert x[|p| + |q| + |r|..] == s + t + u;
  }

  /** What the reader returns once each of its steps succeeds. */
  lemma ReadTablesSteps(lines: seq<string>, count: nat, names: seq<string>, values: seq<int>)
    requires |lines| >= 5 && lines[..5] == [Banner, Origin, lines[2], "", NamesOpen]
    requires DecodeCount(lines[2]) == Some(count)
    requires ReadRows(lines[5..], DecodeNameRow) == Some(names)
    requires |lines| >= |names| + 8 && lines[|names| + 6] == "" && lines[|names| + 7] == ValuesOpen
    requires ReadRows(lines[|names| + 8..], DecodeValueRow) == Some(values)
    ensures ReadTables(lines) == Some(Tables(count, names, values))
  {
  }

  /** The header lines of the tables. */
  lemma HeaderLayout(c: seq<Entry>, rest: seq<string>)
    ensures var lines := TableLines(c) + rest; |lines| >= 5 && lines[..5] == [Banner, Origin, lines[2], "", NamesOpen] && lines[2] == CountLine(|c|)
  {
    SixParts(Preamble(|c|), NameRows(c), Between, ValueRows(c), [TableClose, ""], rest);
  }
  /** The two lines between the name table and the value table. */
  lemma SeparatorLayout(c: seq<Entry>, rest: seq<string>)
    ensures var lines := TableLines(c) + rest; |lines| >= |c| + 8 && lines[|c| + 6] == "" && lines[|c| + 7] == ValuesOpen
  {
    SixParts(Preamble(|c|), NameRows(c), Between, ValueRows(c), [TableClose, ""], rest);
  }
  /** The name table as the reader finds it. */
  lemma NamesLayout(c: seq<Entry>, rest: seq<string>)
    ensures var lines := TableLines(c) + rest; ReadRows(lines[5..], DecodeNameRow) == Some(Names(c))
  {
    var lines := TableLines(c) + rest;
    SixParts(Preamble(|c|), NameRows(c), Between, ValueRows(c), [TableClose, ""], rest);
    NameTableRead(c, lines[5..]);
  }
  /** The value table as the reader finds it. */
  lemma ValuesLayout(c: seq<Entry>, rest: seq<string>)
    ensures var lines := TableLines(c) + rest; ReadRows(lines[|c| + 8..], DecodeValueRow) == Some(WrappedValues(c))
  {
    var lines := TableLines(c) + rest;
    SixParts(Preamble(|c|), NameRows(c), Between, ValueRows(c), [TableClose, ""], rest);
    ValueTableRead(c, lines[|c| + 8..]);
  }

  /** The tables read back from their lines, whatever lines follow them. */
  lemma TablesRoundTrip(c: seq<Entry>, rest: seq<string>)
    ensures ReadTables(TableLines(c) + rest) == Some(Tables(|c|, Names(c), WrappedValues(c)))
  {
    HeaderLayout(c, rest);
    SeparatorLayout(c, rest);
    NamesLayout(c, rest);
    ValuesLayout(c, rest);
    CountRoundTrip(|c|);
    ReadTablesSteps(TableLines(c) + rest, |c|, Names(c), WrappedValues(c));
  }

  /** The generated file declares exactly the entries it is given: a reader
      finds the count, then the names and the values index by index, every row
      but the last followed by a comma. */
  lemma EmittedTablesRoundTrip(c: seq<Entry>)
    ensures ReadTables(Emitted(c)) == Some(Tables(|c|, Names(c), WrappedValues(c)))
  {
    TablesRoundTrip(c, LookupTemplate);
  }
}
