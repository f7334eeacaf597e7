/**
 * The two string notions the core relies on: .NET's `string.IsNullOrWhiteSpace`
 * (title checks in the services and `[Required]` on the DTOs) and the ordinal
 * order SQLite's BINARY collation gives `ORDER BY Title`.
 */
module Text {
  import opened Wrappers

  /** `char.IsWhiteSpace`: the characters .NET classifies as white space. */
  predicate IsWhiteSpace(c: char) {
    || ('\U{9}' <= c <= '\U{D}')
    || c == ' '
    || c == '\U{85}'
    || c == '\U{A0}'
    || c == '\U{1680}'
    || ('\U{2000}' <= c <= '\U{200A}')
    || c == '\U{2028}'
    || c == '\U{2029}'
    || c == '\U{202F}'
    || c == '\U{205F}'
    || c == '\U{3000}'
  }

  /** `string.IsNullOrWhiteSpace` on a string that is present: empty or all white space. */
  predicate IsBlank(s: string) {
    forall i :: 0 <= i < |s| ==> IsWhiteSpace(s[i])
  }

  /** `string.IsNullOrWhiteSpace` on a nullable string. */
  /**
   * `string.Length`: the number of UTF-16 code units, so a character
   * outside the Basic Multilingual Plane (a surrogate pair) counts twice.
   */
  function Utf16Length(s: string): (n: nat)
    ensures |s| <= n <= 2 * |s|
    ensures n == |s| <==> forall i :: 0 <= i < |s| ==> s[i] as int <= 0xFFFF
  {
    if s == [] then 0 else (if s[0] as int > 0xFFFF then 2 else 1) + Utf16Length(s[1..])
  }

  predicate IsNullOrWhiteSpace(s: Option<string>) {
    s.None? || IsBlank(s.value)
  }

  /**
   * Ordinal order: lexicographic by character code, a proper prefix first.
   * Over Unicode scalar values this is the byte order of their UTF-8
   * encodings, which is how the BINARY collation compares stored text.
   */
  predicate OrdinalLess(a: string, b: string)
    decreases |a|
  {
    if a == [] then b != []
    else if b == [] then false
    else if a[0] != b[0] then a[0] < b[0]
    else OrdinalLess(a[1..], b[1..])
  }

  lemma {:induction false} OrdinalLessIrreflexive(a: string)
    ensures !OrdinalLess(a, a)
    decreases |a|
  {
    if a != [] {
      OrdinalLessIrreflexive(a[1..]);
    }
  }

  lemma {:induction false} OrdinalLessTransitive(a: string, b: string, c: string)
    requires OrdinalLess(a, b) && OrdinalLess(b, c)
    ensures OrdinalLess(a, c)
    decreases |a|
  {
    if a != [] && a[0] == b[0] && b[0] == c[0] {
      OrdinalLessTransitive(a[1..], b[1..], c[1..]);
    }
  }

  lemma {:induction false} OrdinalLessTotal(a: string, b: string)
    ensures a == b || OrdinalLess(a, b) || OrdinalLess(b, a)
    decreases |a|
  {
    if a != [] && b != [] && a[0] == b[0] {
      OrdinalLessTotal(a[1..], b[1..]);
      if a[1..] == b[1..] {
        assert a == [a[0]] + a[1..] && b == [b[0]] + b[1..];
      }
    }
  }

  lemma {:induction false} OrdinalLessAsymmetric(a: string, b: string)
    requires OrdinalLess(a, b)
    ensures !OrdinalLess(b, a)
  {
    if OrdinalLess(b, a) {
      OrdinalLessTransitive(a, b, a);
      OrdinalLessIrreflexive(a);
    }
  }
}
