/** Ordinal string comparison, as done by `StringComparer.Ordinal`: two strings
    are compared code unit by code unit, and when one is a prefix of the other
    the shorter one comes first. A .NET string is a sequence of UTF-16 code
    units (not of Unicode scalar values, which is what a Dafny `char` is), so
    names are modelled as sequences of 16-bit code units. */
module Ordinal {

  /** One UTF-16 code unit, the element of a .NET string. */
  newtype CodeUnit = x: int | 0 <= x < 0x1_0000

  type Utf16 = seq<CodeUnit>

  /** The sign of the ordinal comparison of `a` with `b`: negative when `a`
      sorts first, zero when the strings are equal, positive otherwise. Only
      the sign is meaningful to a caller such as `OrderBy`. */
  function CompareOrdinal(a: Utf16, b: Utf16): (c: int)
    ensures -1 <= c <= 1
    ensures c == 0 <==> a == b
    ensures |a| == 0 && |b| > 0 ==> c < 0
    ensures |a| > 0 && |b| > 0 && a[0] != b[0] ==> (c < 0 <==> a[0] < b[0])
  {
    if |a| == 0 then
      (if |b| == 0 then 0 else -1)
    else if |b| == 0 then
      1
    else if a[0] < b[0] then
      -1
    else if a[0] > b[0] then
      1
    else
      var c := CompareOrdinal(a[1..], b[1..]);
      assert c == 0 ==> a == [a[0]] + a[1..] == [b[0]] + b[1..] == b;
      c
  }

  /** The comparison is lexicographic: a proper prefix sorts first, and
      otherwise the first code unit at which the strings differ decides. */
  lemma {:induction false} CompareOrdinalIsLexicographic(a: Utf16, b: Utf16)
    ensures |a| < |b| && a == b[..|a|] ==> CompareOrdinal(a, b) < 0
    ensures forall k :: 0 <= k < |a| && k < |b| && a[..k] == b[..k] && a[k] != b[k] ==>
      (CompareOrdinal(a, b) < 0 <==> a[k] < b[k])
  {
    if |a| > 0 && |b| > 0 && a[0] == b[0] {
      CompareOrdinalIsLexicographic(a[1..], b[1..]);
      assert |a| < |b| && a == b[..|a|] ==> a[1..] == b[1..][..|a| - 1];
      forall k | 1 <= k < |a| && k < |b| && a[..k] == b[..k]
        ensures a[1..][..k - 1] == b[1..][..k - 1] && a[1..][k - 1] == a[k] && b[1..][k - 1] == b[k]
      {
        assert a[1..][..k - 1] == a[..k][1..];
        assert b[1..][..k - 1] == b[..k][1..];
      }
    }
  }

  /** `a` sorts no later than `b` under ordinal comparison. */
  predicate OrdinalLe(a: Utf16, b: Utf16) {
    CompareOrdinal(a, b) <= 0
  }

  /** Swapping the operands flips the sign of the comparison. */
  lemma {:induction false} CompareOrdinalAntisymmetric(a: Utf16, b: Utf16)
    ensures CompareOrdinal(b, a) == -CompareOrdinal(a, b)
  {
    if |a| > 0 && |b| > 0 && a[0] == b[0] {
      CompareOrdinalAntisymmetric(a[1..], b[1..]);
    }
  }

  lemma OrdinalLeReflexive(a: Utf16)
    ensures OrdinalLe(a, a)
  {
  }

  /** Any two strings are ordered one way or the other. */
  lemma OrdinalLeTotal(a: Utf16, b: Utf16)
    ensures OrdinalLe(a, b) || OrdinalLe(b, a)
  {
    CompareOrdinalAntisymmetric(a, b);
  }

  /** Strings that sort no later than each other are equal. */
  lemma OrdinalLeAntisymmetric(a: Utf16, b: Utf16)
    requires OrdinalLe(a, b) && OrdinalLe(b, a)
    ensures a == b
  {
    CompareOrdinalAntisymmetric(a, b);
  }

  lemma {:induction false} OrdinalLeTransitive(a: Utf16, b: Utf16, c: Utf16)
    requires OrdinalLe(a, b) && OrdinalLe(b, c)
    ensures OrdinalLe(a, c)
  {
    if |a| > 0 && |b| > 0 && |c| > 0 && a[0] == b[0] && b[0] == c[0] {
      OrdinalLeTransitive(a[1..], b[1..], c[1..]);
    }
  }

}
