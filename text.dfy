/** The optional value used wherever the source has a nullable reference. */
module Wrappers {
  datatype Option<+T> = None | Some(value: T)
}

/**
 * The .NET string operations the source relies on, over strings as `seq<char>`.
 */
module Text {
  import opened Wrappers

  /** `char.IsWhiteSpace`: the characters of the Unicode White_Space property. */
  predicate IsWhiteSpace(c: char) {
    || c == ' '
    || ('\t' <= c <= '\r')
    || c == '\U{85}' || c == '\U{A0}' || c == '\U{1680}'
    || ('\U{2000}' <= c <= '\U{200A}')
    || c == '\U{2028}' || c == '\U{2029}' || c == '\U{202F}' || c == '\U{205F}' || c == '\U{3000}'
  }

  /** `string.IsNullOrWhiteSpace` on a string that is not null: empty, or white space only. */
  predicate IsBlank(s: string) {
    forall i :: 0 <= i < |s| ==> IsWhiteSpace(s[i])
  }

  /** `string.IsNullOrWhiteSpace` on a nullable string. */
  predicate IsNullOrWhiteSpace(s: Option<string>) {
    s.None? || IsBlank(s.value)
  }

  lemma {:induction false} NonBlankIsNonEmpty(s: string)
    requires !IsBlank(s)
    ensures |s| >= 1
  {
    if |s| == 0 {
      assert IsBlank(s);
    }
  }

  /**
   * Upper-casing as `StringComparison.OrdinalIgnoreCase` does it, restricted to
   * ASCII letters.
   */
  function ToUpperAscii(c: char): (u: char)
    ensures 'a' <= c <= 'z' ==> 'A' <= u <= 'Z' && u as int == c as int - 32
    ensures !('a' <= c <= 'z') ==> u == c
  {
    if 'a' <= c <= 'z' then (c as int - 32) as char else c
  }

  predicate EqualsIgnoreCase(a: string, b: string) {
    |a| == |b| && forall i :: 0 <= i < |a| ==> ToUpperAscii(a[i]) == ToUpperAscii(b[i])
  }

  /** `s.StartsWith(prefix, StringComparison.OrdinalIgnoreCase)`. */
  predicate StartsWithIgnoreCase(s: string, prefix: string) {
    |prefix| <= |s| && EqualsIgnoreCase(s[..|prefix|], prefix)
  }

  /**
   * `PathString.StartsWithSegments(segment)`, whose default comparison ignores
   * case: the path starts with the segment and either ends there or continues
   * with a '/'.
   */
  predicate StartsWithSegments(path: string, segment: string) {
    StartsWithIgnoreCase(path, segment) && (|path| == |segment| || path[|segment|] == '/')
  }

  /** A prefix of a prefix is a prefix. */
  lemma PrefixOfPrefix(s: string, p: string, q: string)
    requires StartsWithIgnoreCase(s, p) && StartsWithIgnoreCase(p, q)
    ensures StartsWithIgnoreCase(s, q)
  {
    forall i | 0 <= i < |q|
      ensures ToUpperAscii(s[..|q|][i]) == ToUpperAscii(q[i])
    {
      assert s[..|q|][i] == s[..|p|][i];
      assert p[..|q|][i] == p[i];
    }
  }

  /** `string.Contains(sub)`: ordinal, case-sensitive substring search. */
  predicate Contains(s: string, sub: string)
    decreases |s|
  {
    |sub| <= |s| && (s[..|sub|] == sub || Contains(s[1..], sub))
  }

  /** `Contains` holds exactly when `sub` occurs at some position of `s`. */
  lemma {:induction false} ContainsAt(s: string, sub: string, k: nat)
    requires k + |sub| <= |s| && s[k..k + |sub|] == sub
    ensures Contains(s, sub)
    decreases k
  {
    if k == 0 {
      assert s[..|sub|] == s[0..|sub|];
    } else {
      assert s[1..][k - 1..k - 1 + |sub|] == s[k..k + |sub|];
      ContainsAt(s[1..], sub, k - 1);
    }
  }

  /** The values that are not empty, in their order. */
  function NonEmptyValues(values: seq<string>): (r: seq<string>)
    ensures |r| <= |values|
    ensures forall v :: v in r <==> v in values && v != ""
  {
    if values == [] then []
    else if values[0] == "" then NonEmptyValues(values[1..])
    else [values[0]] + NonEmptyValues(values[1..])
  }

  /** The values with a comma between each two. */
  function JoinWithCommas(values: seq<string>): string {
    if |values| == 0 then ""
    else if |values| == 1 then values[0]
    else values[0] + "," + JoinWithCommas(values[1..])
  }

  /**
   * `StringValues.ToString()`: no value gives "", one value gives itself, even
   * an empty one; several are joined with commas, the empty ones skipped.
   */
  function JoinValues(values: seq<string>): (r: string)
    ensures |values| == 1 ==> r == values[0]
    ensures r == "" <==> forall i :: 0 <= i < |values| ==> values[i] == ""
  {
    if |values| == 0 then ""
    else if |values| == 1 then values[0]
    else
      NoneLeftIffAllEmpty(values);
      JoinOfNonEmpty(NonEmptyValues(values));
      JoinWithCommas(NonEmptyValues(values))
  }

  lemma NoneLeftIffAllEmpty(values: seq<string>)
    ensures NonEmptyValues(values) == [] <==> forall i :: 0 <= i < |values| ==> values[i] == ""
  {
    var r := NonEmptyValues(values);
    if r != [] {
      assert r[0] in r;
    }
    forall i | 0 <= i < |values| && values[i] != ""
      ensures r != []
    {
      assert values[i] in values;
      assert values[i] in r;
    }
  }

  /** A join of values none of which is empty is empty only when there are none. */
  lemma {:induction false} JoinOfNonEmpty(values: seq<string>)
    requires forall v :: v in values ==> v != ""
    ensures JoinWithCommas(values) == "" <==> values == []
  {
    if |values| >= 2 {
      assert values[0] in values;
      assert |JoinWithCommas(values)| >= |values[0]|;
    } else if |values| == 1 {
      assert values[0] in values;
    }
  }

  /** Several values of which only the one at `k` is non-empty join to that one. */
  lemma {:induction false} OneNonEmptyValue(values: seq<string>, k: nat)
    requires k < |values| && values[k] != ""
    requires forall i :: 0 <= i < |values| && i != k ==> values[i] == ""
    ensures JoinValues(values) == values[k]
  {
    if |values| >= 2 {
      OnlyNonEmpty(values, k);
    }
  }

  lemma {:induction false} OnlyNonEmpty(values: seq<string>, k: nat)
    requires k < |values| && values[k] != ""
    requires forall i :: 0 <= i < |values| && i != k ==> values[i] == ""
    ensures NonEmptyValues(values) == [values[k]]
    decreases |values|
  {
    if k == 0 {
      var rest := values[1..];
      assert forall v :: v in rest ==> v == "";
      assert NonEmptyValues(rest) == [] by {
        if NonEmptyValues(rest) != [] {
          assert NonEmptyValues(rest)[0] in NonEmptyValues(rest);
        }
      }
    } else {
      assert values[0] == "";
      OnlyNonEmpty(values[1..], k - 1);
    }
  }

  /** With no empty value, the join is the plain comma join. */
  lemma {:induction false} NoEmptyValueJoinsAll(values: seq<string>)
    requires forall i :: 0 <= i < |values| ==> values[i] != ""
    ensures JoinValues(values) == JoinWithCommas(values)
  {
    if |values| >= 2 {
      NoEmptyValueKeepsAll(values);
    }
  }

  lemma {:induction false} NoEmptyValueKeepsAll(values: seq<string>)
    requires forall i :: 0 <= i < |values| ==> values[i] != ""
    ensures NonEmptyValues(values) == values
    decreases |values|
  {
    if values != [] {
      NoEmptyValueKeepsAll(values[1..]);
      assert values == [values[0]] + values[1..];
    }
  }

  /**
   * `string.Length`: the number of UTF-16 code units, two for each character
   * beyond U+FFFF and one for every other.
   */
  function Utf16Length(s: string): (n: nat)
    ensures |s| <= n <= 2 * |s|
    ensures (forall i :: 0 <= i < |s| ==> s[i] as int < 0x1_0000) ==> n == |s|
    ensures (forall i :: 0 <= i < |s| ==> s[i] as int >= 0x1_0000) ==> n == 2 * |s|
    decreases |s|
  {
    if s == [] then 0 else (if s[0] as int >= 0x1_0000 then 2 else 1) + Utf16Length(s[1..])
  }

  /**
   * Ordinal order of strings: code point by code point, a proper prefix first.
   * This is SQLite's BINARY collation, since UTF-8 byte order is code point order.
   */
  predicate OrdinalLessOrEqual(a: string, b: string)
    decreases |a|
  {
    a == [] || (b != [] && (a[0] < b[0] || (a[0] == b[0] && OrdinalLessOrEqual(a[1..], b[1..]))))
  }

  lemma {:induction false} OrdinalTotal(a: string, b: string)
    ensures OrdinalLessOrEqual(a, b) || OrdinalLessOrEqual(b, a)
    decreases |a|
  {
    if a != [] && b != [] && a[0] == b[0] {
      OrdinalTotal(a[1..], b[1..]);
    }
  }

  lemma {:induction false} OrdinalTransitive(a: string, b: string, c: string)
    requires OrdinalLessOrEqual(a, b) && OrdinalLessOrEqual(b, c)
    ensures OrdinalLessOrEqual(a, c)
    decreases |a|
  {
    if a != [] && a[0] == b[0] && b[0] == c[0] {
      OrdinalTransitive(a[1..], b[1..], c[1..]);
    }
  }

  lemma {:induction false} OrdinalAntisymmetric(a: string, b: string)
    requires OrdinalLessOrEqual(a, b) && OrdinalLessOrEqual(b, a)
    ensures a == b
    decreases |a|
  {
    if a != [] {
      OrdinalAntisymmetric(a[1..], b[1..]);
      assert a == [a[0]] + a[1..] && b == [b[0]] + b[1..];
    }
  }
}
