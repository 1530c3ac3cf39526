/**
 The two routines the generated file carries after its tables: a binary
 search over the name table, and the three-way string comparison it uses.
 The tables are parameters here; in the generated file they are the two
 constant arrays written before the routines.
 */
module Template {
  import opened Ordinal

  /** `compare_strings`: -1, 0 or 1 as `a` sorts before, equal to or after `b`,
      comparing characters up to the shorter length and then the lengths. */
  method CompareStrings(a: string, b: string) returns (r: int)
    ensures r == Lex(a, b)
    ensures r == -1 || r == 0 || r == 1
    ensures r == 0 <==> a == b
  {
    LexZeroIffEqual(a, b);
    var len := if |a| < |b| then |a| else |b|;
    for i := 0 to len
      invariant a[..i] == b[..i]
    {
      if a[i] < b[i] {
        LexFirstDifference(a, b, i);
        return -1;
      }
      if a[i] > b[i] {
        LexFirstDifference(a, b, i);
        return 1;
      }
      assert a[..i + 1] == a[..i] + [a[i]] && b[..i + 1] == b[..i] + [b[i]];
    }
    LexCommonPrefix(a, b);
    if |a| < |b| {
      return -1;
    }
    if |a| > |b| {
      return 1;
    }
    return 0;
  }

  /** `lookup_resource_constant`: the value stored beside `name`, and whether
      it was found. On a name table sorted under `compare_strings`, a name is
      found exactly when the table holds it. */
  method LookupResourceConstant(names: seq<string>, values: seq<int>, name: string)
    returns (value: int, found: bool)
    requires |names| == |values|
    ensures found ==> exists i :: 0 <= i < |names| && names[i] == name && values[i] == value
    ensures !found ==> value == 0
    ensures Sorted(names) ==> (found <==> name in names)
  {
    var lo, hi := 0, |names| - 1;
    while lo <= hi
      invariant 0 <= lo <= hi + 1 <= |names|
      invariant Sorted(names) ==>
        forall i :: 0 <= i < |names| && (i < lo || hi < i) ==> names[i] != name
      decreases hi - lo
    {
      var mid := (lo + hi) / 2;
      var cmp := CompareStrings(name, names[mid]);
      if cmp == 0 {
        return values[mid], true;
      } else if cmp < 0 {
        if Sorted(names) {
          forall i | mid <= i < |names| ensures names[i] != name {
            LexZeroIffEqual(names[mid], names[i]);
            LexStrictTransitive(name, names[mid], names[i]);
            LexZeroIffEqual(name, names[i]);
          }
        }
        hi := mid - 1;
      } else {
        if Sorted(names) {
          forall i | 0 <= i <= mid ensures names[i] != name {
            LexZeroIffEqual(names[i], names[mid]);
            LexAntisymmetric(name, names[mid]);
            LexTransitiveStrict(names[i], names[mid], name);
            LexZeroIffEqual(names[i], name);
          }
        }
        lo := mid + 1;
      }
    }
    return 0, false;
  }
}
