/** Java's comparison conventions: the `Comparable` contract and
    `String.compareTo`, as used by the exchange-rate ordering. */
module Comparisons {

  function Sign(x: int): int {
    if x < 0 then -1 else if x > 0 then 1 else 0
  }

  /** The contract `java.lang.Comparable` asks of an int-valued comparison:
      sign antisymmetry, transitivity, and that a tie compares alike
      against every third value. */
  ghost predicate IsComparator<T(!new)>(cmp: (T, T) -> int) {
    && (forall a, b :: Sign(cmp(a, b)) == -Sign(cmp(b, a)))
    && (forall a, b, c :: cmp(a, b) > 0 && cmp(b, c) > 0 ==> cmp(a, c) > 0)
    && (forall a, b, c :: cmp(a, b) == 0 ==> Sign(cmp(a, c)) == Sign(cmp(b, c)))
  }

  /** `String.compareTo`: the difference of the first differing characters,
      or, when one string is a prefix of the other, the difference of the
      lengths. Zero exactly on equal strings. */
  function CompareStrings(a: string, b: string): (r: int)
    ensures r == 0 <==> a == b
    decreases |a|
  {
    if |a| == 0 || |b| == 0 then |a| - |b|
    else if a[0] != b[0] then a[0] as int - b[0] as int
    else
      assert a == [a[0]] + a[1..] && b == [b[0]] + b[1..];
      CompareStrings(a[1..], b[1..])
  }

  /** Lexicographic order, defined independently of `CompareStrings`:
      `a` is a proper prefix of `b`, or the first difference favours `a`. */
  ghost predicate LexBefore(a: string, b: string) {
    || (|a| < |b| && a == b[..|a|])
    || exists k :: 0 <= k < |a| && k < |b| && a[..k] == b[..k] && a[k] < b[k]
  }

  lemma {:induction false} CompareStringsAntisymmetric(a: string, b: string)
    ensures CompareStrings(a, b) == -CompareStrings(b, a)
    decreases |a|
  {
    if |a| == 0 || |b| == 0 {
    } else if a[0] != b[0] {
    } else {
      CompareStringsAntisymmetric(a[1..], b[1..]);
    }
  }

  lemma {:induction false} CompareStringsTransitive(a: string, b: string, c: string)
    requires CompareStrings(a, b) < 0 && CompareStrings(b, c) < 0
    ensures CompareStrings(a, c) < 0
    decreases |a|
  {
    if |a| == 0 || |b| == 0 || |c| == 0 {
    } else if a[0] != b[0] || b[0] != c[0] {
    } else {
      CompareStringsTransitive(a[1..], b[1..], c[1..]);
    }
  }

  /** Lexicographic order survives dropping a common first character. */
  lemma LexBeforeDropHead(a: string, b: string)
    requires |a| > 0 && |b| > 0 && a[0] == b[0]
    requires LexBefore(a, b)
    ensures LexBefore(a[1..], b[1..])
  {
    var a', b' := a[1..], b[1..];
    if |a| < |b| && a == b[..|a|] {
      assert a' == b'[..|a'|];
    } else {
      var k :| 0 <= k < |a| && k < |b| && a[..k] == b[..k] && a[k] < b[k];
      assert k != 0;
      assert a'[..k-1] == a[1..k] == a[..k][1..];
      assert b'[..k-1] == b[1..k] == b[..k][1..];
      assert a'[k-1] == a[k] && b'[k-1] == b[k];
    }
  }

  /** Prefixing a common character preserves lexicographic order. */
  lemma LexBeforeAddHead(a: string, b: string)
    requires |a| > 0 && |b| > 0 && a[0] == b[0]
    requires LexBefore(a[1..], b[1..])
    ensures LexBefore(a, b)
  {
    var a', b' := a[1..], b[1..];
    if |a'| < |b'| && a' == b'[..|a'|] {
      assert a == [a[0]] + a';
      assert b[..|a|] == [b[0]] + b'[..|a'|];
    } else {
      var k :| 0 <= k < |a'| && k < |b'| && a'[..k] == b'[..k] && a'[k] < b'[k];
      assert a[..k+1] == [a[0]] + a'[..k];
      assert b[..k+1] == [b[0]] + b'[..k];
      assert a[k+1] == a'[k] && b[k+1] == b'[k];
    }
  }

  /** `String.compareTo` is negative exactly on lexicographically smaller
      strings. */
  lemma {:induction false} CompareStringsIsLexicographic(a: string, b: string)
    ensures CompareStrings(a, b) < 0 <==> LexBefore(a, b)
    decreases |a|
  {
    if |a| == 0 {
      if |b| > 0 {
        assert a == b[..0];
      }
    } else if |b| == 0 {
    } else if a[0] != b[0] {
      if a[0] < b[0] {
        assert a[..0] == b[..0];
      } else {
        if |a| < |b| {
          assert b[..|a|][0] == b[0];
        }
        forall k | 0 < k <= |a| && k <= |b|
          ensures a[..k] != b[..k]
        {
          assert a[..k][0] == a[0] && b[..k][0] == b[0];
        }
      }
    } else {
      CompareStringsIsLexicographic(a[1..], b[1..]);
      if LexBefore(a, b) {
        LexBeforeDropHead(a, b);
      }
      if LexBefore(a[1..], b[1..]) {
        LexBeforeAddHead(a, b);
      }
    }
  }
}
