/**
 Ordinal string order: strings compared character by character on their
 code values, the first differing character deciding and a proper prefix
 ordering before the longer string. Python's `<` on `str`, which orders the
 extracted table, and the generated `compare_strings` routine both follow it.
 */
module Ordinal {

  /** Three-way ordinal comparison: negative, zero or positive as `a` sorts
      before, equal to or after `b`. */
  function Lex(a: string, b: string): (r: int)
    ensures r == -1 || r == 0 || r == 1
    decreases |a|
  {
    if a == [] && b == [] then 0
    else if a == [] then -1
    else if b == [] then 1
    else if a[0] < b[0] then -1
    else if a[0] > b[0] then 1
    else Lex(a[1..], b[1..])
  }

  /** Ascending (non-strictly, duplicates allowed) under `Lex`. */
  predicate Sorted(names: seq<string>) {
    forall i, j :: 0 <= i < j < |names| ==> Lex(names[i], names[j]) <= 0
  }

  lemma {:induction false} LexZeroIffEqual(a: string, b: string)
    ensures Lex(a, b) == 0 <==> a == b
    decreases |a|
  {
    if a != [] && b != [] && a[0] == b[0] {
      LexZeroIffEqual(a[1..], b[1..]);
      assert a == [a[0]] + a[1..] && b == [b[0]] + b[1..];
    }
  }

  /** Swapping the arguments negates the result. */
  lemma {:induction false} LexAntisymmetric(a: string, b: string)
    ensures Lex(b, a) == -Lex(a, b)
    decreases |a|
  {
    if a != [] && b != [] && a[0] == b[0] {
      LexAntisymmetric(a[1..], b[1..]);
    }
  }

  lemma {:induction false} LexTransitive(a: string, b: string, c: string)
    requires Lex(a, b) <= 0 && Lex(b, c) <= 0
    ensures Lex(a, c) <= 0
    decreases |a|
  {
    if a != [] && b != [] && c != [] && a[0] == b[0] == c[0] {
      LexTransitive(a[1..], b[1..], c[1..]);
    }
  }

  /** A strict step followed by a non-strict one stays strict. */
  lemma LexStrictTransitive(a: string, b: string, c: string)
    requires Lex(a, b) < 0 && Lex(b, c) <= 0
    ensures Lex(a, c) < 0
  {
    LexTransitive(a, b, c);
    if Lex(a, c) == 0 {
      LexZeroIffEqual(a, c);
      LexAntisymmetric(a, b);
    }
  }

  /** A non-strict step followed by a strict one is strict. */
  lemma LexTransitiveStrict(a: string, b: string, c: string)
    requires Lex(a, b) <= 0 && Lex(b, c) < 0
    ensures Lex(a, c) < 0
  {
    LexTransitive(a, b, c);
    if Lex(a, c) == 0 {
      LexZeroIffEqual(a, c);
      LexAntisymmetric(b, c);
    }
  }

  /** A common prefix does not affect the comparison. */
  lemma {:induction false} LexDropPrefix(a: string, b: string, k: nat)
    requires k <= |a| && k <= |b| && a[..k] == b[..k]
    ensures Lex(a, b) == Lex(a[k..], b[k..])
    decreases k
  {
    if k > 0 {
      assert a[0] == a[..k][0] == b[..k][0] == b[0];
      assert a[1..][..k - 1] == a[1..k] == b[1..k] == b[1..][..k - 1];
      LexDropPrefix(a[1..], b[1..], k - 1);
      assert a[1..][k - 1..] == a[k..] && b[1..][k - 1..] == b[k..];
    }
  }

  /** The first differing character decides. */
  lemma LexFirstDifference(a: string, b: string, k: nat)
    requires k < |a| && k < |b| && a[..k] == b[..k] && a[k] != b[k]
    ensures Lex(a, b) == if a[k] < b[k] then -1 else 1
  {
    LexDropPrefix(a, b, k);
  }

  /** Without a difference in the common part, the shorter string is less. */
  lemma LexCommonPrefix(a: string, b: string)
    requires |a| <= |b| ==> a == b[..|a|]
    requires |b| <= |a| ==> b == a[..|b|]
    ensures Lex(a, b) == if |a| < |b| then -1 else if |a| > |b| then 1 else 0
  {
    var k := if |a| < |b| then |a| else |b|;
    assert a[..k] == b[..k];
    LexDropPrefix(a, b, k);
  }
}
