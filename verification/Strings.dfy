/** The order of strings, as Python compares them. */
module Strings {

  /** -1, 0 or 1, as cmp() compares strings. */
  function CompareStrings(a: string, b: string): int {
    if a == [] then (if b == [] then 0 else -1)
    else if b == [] then 1
    else if a[0] < b[0] then -1
    else if a[0] > b[0] then 1
    else CompareStrings(a[1..], b[1..])
  }

  lemma {:induction false} StringsAntisymmetric(a: string, b: string)
    ensures CompareStrings(b, a) == -CompareStrings(a, b) && (CompareStrings(a, b) == 0 <==> a == b)
  {
    if a != [] && b != [] {
      StringsAntisymmetric(a[1..], b[1..]);
      assert a == [a[0]] + a[1..] && b == [b[0]] + b[1..];
    }
  }

  lemma {:induction false} StringsTransitive(a: string, b: string, c: string)
    requires CompareStrings(a, b) <= 0 && CompareStrings(b, c) <= 0
    ensures CompareStrings(a, c) <= 0
  {
    if a != [] && b != [] && c != [] && a[0] == b[0] == c[0] {
      StringsTransitive(a[1..], b[1..], c[1..]);
    }
  }

  /** `a` and `b` agree up to position `k`, where `a` is smaller. */
  ghost predicate SmallerAt(a: string, b: string, k: nat) {
    k < |a| && k < |b| && a[..k] == b[..k] && a[k] < b[k]
  }

  /** `a` comes before `b`: a proper prefix, or smaller at the first position that differs. */
  ghost predicate Below(a: string, b: string) {
    a < b || exists k: nat :: SmallerAt(a, b, k)
  }

  lemma {:induction false} ComparedIsBelow(a: string, b: string)
    requires CompareStrings(a, b) < 0
    ensures Below(a, b)
  {
    if a != [] {
      if a[0] < b[0] {
        assert SmallerAt(a, b, 0);
      } else {
        ComparedIsBelow(a[1..], b[1..]);
        if exists k: nat :: SmallerAt(a[1..], b[1..], k) {
          var k: nat :| SmallerAt(a[1..], b[1..], k);
          assert a[..k + 1] == [a[0]] + a[1..][..k] && b[..k + 1] == [b[0]] + b[1..][..k];
          assert SmallerAt(a, b, k + 1);
        } else {
          assert a == [a[0]] + a[1..] && b == [b[0]] + b[1..];
        }
      }
    }
  }

  lemma {:induction false} SmallerIsCompared(a: string, b: string, k: nat)
    requires SmallerAt(a, b, k)
    ensures CompareStrings(a, b) < 0
  {
    if k > 0 {
      assert a[..k][0] == a[0] && b[..k][0] == b[0];
      assert a[1..][..k - 1] == a[..k][1..] && b[1..][..k - 1] == b[..k][1..];
      SmallerIsCompared(a[1..], b[1..], k - 1);
    }
  }

  lemma {:induction false} PrefixIsCompared(a: string, b: string)
    requires a < b
    ensures CompareStrings(a, b) < 0
  {
    if a != [] {
      assert a[1..] < b[1..];
      PrefixIsCompared(a[1..], b[1..]);
    }
  }

  /** The comparison is negative exactly when the first string comes before the second. */
  lemma {:induction false} BelowIff(a: string, b: string)
    ensures CompareStrings(a, b) < 0 <==> Below(a, b)
  {
    if CompareStrings(a, b) < 0 {
      ComparedIsBelow(a, b);
    }
    if a < b {
      PrefixIsCompared(a, b);
    } else if exists k: nat :: SmallerAt(a, b, k) {
      var k: nat :| SmallerAt(a, b, k);
      SmallerIsCompared(a, b, k);
    }
  }
}
