# Resource constant extractor, modelled in Dafny

`extract_constants.py` reads the `#define` lines of a C header and writes a
Jai source file holding two parallel tables: the constant names, sorted, and
their values. After the tables it writes a fixed binary-search routine that
looks a name up in them. This project models the three parts of that tool and
proves what each one promises:

- **Extraction** (`parse_defines`, module `Extract`, with the recogniser in
  `Pattern` and the number syntax in `Decimal`). A line counts only if it
  starts with `#define` and matches
  `#define\s+([A-Z][A-Z_0-9]+)\s+(-?\d+|0x[0-9a-fA-F]+)` as a prefix. The
  model gives the matcher `re.match` semantics: the match is anchored at the
  start, quantifiers are greedy and the alternatives are tried left to right.
  The value is parsed, the entries are appended in input order, and the list
  is then stably sorted by name. The stable sort is an insertion sort. It is
  proved to give the one list that is sorted by name, is a permutation of the
  input, and keeps entries with equal names in input order. So it agrees with
  Python's `list.sort`.
- **Emission** (`generate_jai`, module `Emit`). The output is the sequence of
  lines written; the file's text is each line followed by a newline. A reader
  of those lines (`ReadTables`) is proved to recover three things: the count
  from the header, the names in sorted order, and the values index by index
  in the same order. Every row except the last must carry a comma. Values
  above 2^63-1 are written less 2^64.
- **Lookup template** (module `Template`). `compare_strings` and
  `lookup_resource_constant` are methods with loops, as the generated Jai
  has them. They are proved against one ordinal string order, `Ordinal.Lex`.
  Python's `<` on `str` also follows `Lex`, and the extractor sorts with it.
  `Tool.GenerateAndLookup` runs parse, emit and lookup in turn, and its lookup finds a
  name exactly when an accepted line declares it.

Three behaviours of the code that a reader might not expect; the model
follows the code as written:

- Hexadecimal values: the value parse at extract_constants.py:25-26 handles
  `0x`/`0X` literals, but the pattern at :19 tries `-?\d+` first and a prefix
  match is enough. So `#define BETA 0x1F` captures `0` and declares 0
  (`Extract.HexLineExample`), and the hexadecimal parse is never reached.
  Nor does the suffix strip at :28 ever remove anything
  (`Extract.ParseValueIsDecimal`). Both branches are modelled as written.
- `0X`: the pattern admits only a lower-case `0x`, although :25 also tests
  `0X`. Trailing text after the value is ignored.
- Names: a name needs at least two characters, so `#define B 0x1F` declares
  nothing (`Extract.ShortNameLineExample`).

Values are unbounded integers, as Python's are, apart from the interpreter's
limit on converting long digit strings (see "## Left out"). Strings are
sequences of characters. Names are ASCII by the pattern, and UTF-8 byte
order agrees with code-point order, so comparing characters is comparing the
bytes the Jai routine compares.

## Model

| member | source | states |
|---|---|---|
| Pattern.Recognise | extract_constants.py:19-22 | a successful match captures a name of the form `[A-Z][A-Z_0-9]+` and a value text of the form `-?\d+` or `0x[0-9a-fA-F]+` |
| Pattern.MatchesAt | extract_constants.py:19 | the language of the pattern as a prefix match, stated declaratively: `#define`, a whitespace run, a name `[A-Z][A-Z_0-9]+`, a whitespace run, and a value `-?\d+` or `0x[0-9a-fA-F]+`, at given spans |
| Pattern.RecogniseSound | extract_constants.py:19-22 | whatever is captured is an actual prefix match of the pattern; its value group is always the longest `-?\d+` run, never the hexadecimal alternative |
| Pattern.RecogniseComplete | extract_constants.py:19-22 | whenever any prefix of the line matches the pattern, the recogniser succeeds with that name, and its value starts where that match's value group starts |
| Pattern.ValueGroupIsDecimal | extract_constants.py:19 | the value group is a maximal optional-minus digit run, since a `0x` literal begins with the digit 0 |
| Pattern.RunEndIsMaximalRun | extract_constants.py:19 | a greedy `+` run is the unique maximal run starting at that position |
| Extract.RStrip | extract_constants.py:28 | `rstrip`: the result is a prefix of the input, does not end in a stripped character, and only stripped characters were removed |
| Extract.ParseValue | extract_constants.py:24-28 | the value of the captured text: a `0x`/`0X` prefix parsed in base 16, anything else in base 10 after stripping `L`, `l`, `U`, `u` from the end; its property is `Extract.ParseValueIsDecimal` |
| Extract.ParseValueIsDecimal | extract_constants.py:24-28 | on the text the pattern captures, the hexadecimal branch is not taken, stripping removes nothing, and the value is the signed decimal reading |
| Extract.ParseLine | extract_constants.py:15-30 | a line not starting with `#define` yields nothing; a yielded entry's name has the pattern's name shape |
| Extract.ParseLineMeaning | extract_constants.py:15-30 | a line yields an entry if and only if the pattern matches a prefix of it; the entry is the name group and the signed decimal value of the longest digit run of the value group |
| Extract.KeptAppend | extract_constants.py:13-30 | the kept entries of two consecutive runs of lines are those of the first followed by those of the second |
| Extract.KeptSound | extract_constants.py:13-30 | every kept entry is the entry of some input line |
| Extract.KeptComplete | extract_constants.py:13-30 | every entry that a line yields is kept |
| Extract.KeptNames | extract_constants.py:19-21 | every kept name has the pattern's name shape |
| Extract.StableSortUnique | extract_constants.py:34 | two lists that are both sorted by name and hold the same entries per name, in the same order, are equal: every stable sort by name gives the same list |
| Extract.InsertByName | extract_constants.py:34 | inserting after all entries whose names are not greater keeps the list sorted, adds exactly the one entry, and puts it last among the entries of its name |
| Extract.StableSortByName | extract_constants.py:34 | the result is sorted by name, is a permutation of the input, and keeps the input order among entries with equal names |
| Extract.ParseDefines | extract_constants.py:7-35 | the result is the stable sort by name of the entries the accepted lines yield, in input order |
| Extract.DecimalLineExample | extract_constants.py:19-28 | `#define ALPHA 10` declares `ALPHA` with 10 |
| Extract.HexLineExample | extract_constants.py:19-28 | `#define BETA 0x1F` declares `BETA` with 0 |
| Extract.StringLineExample | extract_constants.py:19-20 | `#define FOO "bar"` declares nothing |
| Extract.ShortNameLineExample | extract_constants.py:15-20 | a one-letter name and an indented directive declare nothing |
| Extract.TwoLineKept | extract_constants.py:13-31 | the two lines `#define ALPHA 10` and `#define BETA 0x1F` keep `(ALPHA, 10)` and `(BETA, 0)` in that order |
| Decimal.IntToDecimalRoundTrip | extract_constants.py:42 | the decimal text written for an integer (with `-` for negatives) reads back as that integer |
| Emit.Wrap | extract_constants.py:55-56 | the written value is congruent to the value modulo 2^64 and not greater than it |
| Emit.WrapIsSignedReading | extract_constants.py:55-56 | on the unsigned 64-bit range, the written value is the signed 64-bit integer with the same bit pattern |
| Emit.WrapKeepsSigned | extract_constants.py:55-56 | values in the signed 64-bit range are written unchanged |
| Emit.WrapExamples | extract_constants.py:55-56 | 2^64-1 is written as -1, 2^63 as -2^63, 2^63-1 and -3 unchanged |
| Emit.WrapLeavesOutOfRange | extract_constants.py:55-56 | values from 2^64+2^63 on, and below -2^63, are still outside the signed 64-bit range after the one subtraction |
| Emit.GenerateJai | extract_constants.py:37-91 | the lines written are the banner, the count line, the names table, the values table with wrapped values, and the lookup template |
| Emit.CountRoundTrip | extract_constants.py:42 | the header's count line reads back as the number of constants |
| Emit.NameRowRoundTrip | extract_constants.py:46-48 | a name row reads back as its name, with a comma exactly when it is not last |
| Emit.ValueRowRoundTrip | extract_constants.py:52-57 | a value row reads back as its value, with a comma exactly when it is not last |
| Emit.ReadRowsRoundTrip | extract_constants.py:46-49 | rows that each decode, with a comma on all but the last, followed by `];`, read back as exactly their items |
| Emit.TablesRoundTrip | extract_constants.py:40-58 | whatever follows the tables, a reader finds the count, the names in order and the wrapped values in the same order |
| Emit.EmittedTablesRoundTrip | extract_constants.py:40-58 | the generated file states the number of constants, and its two tables have that many entries each, index-aligned, `values[i]` belonging to `names[i]` |
| Ordinal.Lex | extract_constants.py:81-90 | the three-way comparison is -1, 0 or 1 |
| Ordinal.LexZeroIffEqual | extract_constants.py:81-90 | the comparison is 0 exactly when the strings are equal |
| Ordinal.LexAntisymmetric | extract_constants.py:81-90 | swapping the arguments negates the result |
| Ordinal.LexTransitive | extract_constants.py:34 | the order is transitive, so sorting by it is well defined |
| Ordinal.LexStrictTransitive | extract_constants.py:66-75 | a strictly smaller followed by a not greater is strictly smaller |
| Ordinal.LexTransitiveStrict | extract_constants.py:66-75 | a not greater followed by a strictly smaller is strictly smaller |
| Ordinal.LexFirstDifference | extract_constants.py:83-86 | the first differing character decides |
| Ordinal.LexCommonPrefix | extract_constants.py:87-89 | without a differing character, the shorter string is less and equal lengths compare equal |
| Template.CompareStrings | extract_constants.py:81-90 | `compare_strings` returns the ordinal comparison: -1, 0 or 1, and 0 exactly when the strings are equal |
| Template.LookupResourceConstant | extract_constants.py:61-79 | a found value sits next to the name in the table; a miss returns 0; on a table sorted under `compare_strings` the name is found exactly when the table holds it |
| Tool.GenerateAndLookup | extract_constants.py:97-99 | looking a name up in the generated file finds it exactly when an accepted line declares it, and then returns that declaration's value as written to the file; a miss returns 0 |
| Tool.TwoLineLookups | extract_constants.py:97-99 | for the two lines `#define ALPHA 10` and `#define BETA 0x1F`, `BETA` is found with 0 and `DELTA` is not found |

In `Template.LookupResourceConstant` every probe `mid` lies in `[0, count)`,
as every access to the tables is checked. The loop terminates because
`hi - lo` decreases.

## Left out

- File input and output (extract_constants.py:12-13, 39): the input is a sequence of lines, and the output is the sequence of lines written.
- The `__main__` block with its fixed paths and `print` calls (extract_constants.py:93-100). `Tool.GenerateAndLookup` stands in for running the generated lookup over the result.
- The `known` dictionary (extract_constants.py:10, 31): it is written but never read.
- The general `re` engine and Unicode `\s` and `\d`: the one pattern is modelled with ASCII whitespace and ASCII digits.
- Extract.ParseValue: Python's `int()` is modelled only on text of the shape the pattern captures, the one shape it is ever given.
- The interpreter's limit on integer-string conversion is not modelled: recent Python versions make `int()` at extract_constants.py:28 raise `ValueError` on a captured run of more than 4300 digits, which ends `parse_defines` with an error, whereas `Extract.ParseValue` returns the value.
- The `s64` arithmetic of the Jai template: search indices are mathematical integers, so the overflow of `lo + hi` is not modelled.
- The exact text of the static template is written as lines in `Emit.LookupTemplate`; only the algorithms it contains are proved about, in `Template`.
- Strings are modelled as characters, not bytes. For the ASCII names the pattern admits, the two orders coincide.
- Template.LookupResourceConstant: with duplicate names in the table it promises only one matching index, not which one.
- Emit.Wrap: one subtraction, as written, so values from 2^64+2^63 on, and below -2^63, are written outside the `s64` range (`Emit.WrapLeavesOutOfRange`).
- docs/research/crash-diagnosis/test/crashtest.c is not part of this model: it consists of foreign Windows calls and a deliberate crash.
