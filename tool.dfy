/**
 The tool end to end: the header's lines are parsed, the constants file is
 generated, and the lookup routine it carries is run over the tables a
 reader finds in it.
 */
module Tool {
  import opened Ordinal
  import opened Extract
  import opened Emit
  import opened Template

  /** Looking a name up in the generated file finds it exactly when some
      accepted `#define` line declares it, and then yields that line's value
      as the file writes it. */
  method GenerateAndLookup(lines: seq<string>, query: string) returns (value: int, found: bool)
    ensures found <==> exists e :: e in Kept(lines) && e.name == query
    ensures found ==> exists e :: e in Kept(lines) && e.name == query && value == Wrap(e.value)
    ensures !found ==> value == 0
  {
    var constants := ParseDefines(lines);
    var output := GenerateJai(constants);
    EmittedTablesRoundTrip(constants);
    var tables := ReadTables(output).value;
    value, found := LookupResourceConstant(tables.names, tables.values, query);
    assert multiset(constants) == multiset(Kept(lines));
    if found {
      var i :| 0 <= i < |constants| && tables.names[i] == query && tables.values[i] == value;
      assert constants[i] in multiset(Kept(lines));
    } else {
      forall e | e in Kept(lines) ensures e.name != query {
        assert e in multiset(constants);
        var i :| 0 <= i < |constants| && constants[i] == e;
        assert tables.names[i] == e.name;
      }
    }
  }

  /** In the generated file for that header, `BETA` is found with the value
      0 and `DELTA` is not found. */
  method TwoLineLookups() returns (beta: int, betaFound: bool, delta: int, deltaFound: bool)
    ensures betaFound && beta == 0
    ensures !deltaFound && delta == 0
  {
    var lines := ["#define ALPHA 10", "#define BETA 0x1F"];
    TwoLineKept();
    beta, betaFound := GenerateAndLookup(lines, "BETA");
    delta, deltaFound := GenerateAndLookup(lines, "DELTA");
    assert Entry("BETA", 0) in Kept(lines);
  }
}
