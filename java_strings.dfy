/**
 * The few `java.lang.String` operations the stream katas use, on `seq<char>`:
 * `trim`, `toLowerCase`, `startsWith`, `endsWith`, `equalsIgnoreCase` and the
 * natural order `compareTo` that `Stream.sorted()` relies on.
 *
 * Case mapping is modelled on ASCII `A`..`Z` only; every other character is
 * left as it is.
 */
module JavaStrings {

  /** `Character.toLowerCase` restricted to ASCII upper-case letters. */
  function LowerChar(c: char): (d: char)
    ensures 'A' <= c <= 'Z' ==> 'a' <= d <= 'z' && d as int - c as int == 32
    ensures !('A' <= c <= 'Z') ==> d == c
    ensures !('A' <= d <= 'Z')
  {
    if 'A' <= c <= 'Z' then (c as int + 32) as char else c
  }

  predicate IsLower(s: string) {
    forall i :: 0 <= i < |s| ==> !('A' <= s[i] <= 'Z')
  }

  /** `String.toLowerCase()`: maps every character, keeps the length. */
  function ToLower(s: string): (r: string)
    ensures |r| == |s|
    ensures forall i :: 0 <= i < |s| ==> r[i] == LowerChar(s[i])
    ensures IsLower(r)
  {
    seq(|s|, i requires 0 <= i < |s| => LowerChar(s[i]))
  }

  /** Lower-casing a string a second time changes nothing. */
  lemma ToLowerIdempotent(s: string)
    ensures ToLower(ToLower(s)) == ToLower(s)
  {
  }

  /** The characters `trim()` removes: every code point up to and including the space. */
  predicate IsBlank(c: char) {
    c <= ' '
  }

  /** Index of the first character `trim()` keeps. */
  function TrimStart(s: string): (st: nat)
    ensures st <= |s|
    ensures forall k :: 0 <= k < st ==> IsBlank(s[k])
    ensures st < |s| ==> !IsBlank(s[st])
  {
    if s == [] || !IsBlank(s[0]) then 0 else 1 + TrimStart(s[1..])
  }

  /** One past the index of the last character `trim()` keeps, scanning back to `st`. */
  function TrimEnd(s: string, st: nat): (len: nat)
    requires st <= |s|
    ensures st <= len <= |s|
    ensures forall k :: len <= k < |s| ==> IsBlank(s[k])
    ensures st < len ==> !IsBlank(s[len - 1])
    decreases |s|
  {
    if |s| == st || !IsBlank(s[|s| - 1]) then |s| else TrimEnd(s[..|s| - 1], st)
  }

  /**
   * `String.trim()`: the longest slice of `s` that neither starts nor ends
   * with a blank, after dropping only blanks on either side.
   */
  function Trim(s: string): (r: string)
    ensures |r| <= |s|
    ensures r == [] || (!IsBlank(r[0]) && !IsBlank(r[|r| - 1]))
    ensures (forall k :: 0 <= k < |s| ==> IsBlank(s[k])) ==> r == []
  {
    var st := TrimStart(s);
    s[st..TrimEnd(s, st)]
  }

  /**
   * `Trim` keeps a contiguous slice and drops nothing but blanks: there
   * are bounds `st <= len` such that the result is `s[st..len]`, everything
   * outside the bounds is blank, and the slice's ends are not.
   */
  lemma TrimIsBlankFreeSlice(s: string)
    ensures exists st, len :: && 0 <= st <= len <= |s|
                              && Trim(s) == s[st..len]
                              && (forall k :: 0 <= k < st ==> IsBlank(s[k]))
                              && (forall k :: len <= k < |s| ==> IsBlank(s[k]))
  {
    var st := TrimStart(s);
    var len := TrimEnd(s, st);
    assert Trim(s) == s[st..len];
  }

  /** A string that neither starts nor ends with a blank is its own trim. */
  lemma {:induction false} TrimOfTrimmed(s: string)
    requires s == [] || (!IsBlank(s[0]) && !IsBlank(s[|s| - 1]))
    ensures Trim(s) == s
  {
    assert TrimStart(s) == 0;
    assert TrimEnd(s, 0) == |s|;
    assert s[0..|s|] == s;
  }

  /** `trim()` is idempotent. */
  lemma TrimIdempotent(s: string)
    ensures Trim(Trim(s)) == Trim(s)
  {
    TrimOfTrimmed(Trim(s));
  }

  /** `s.startsWith(prefix)`. */
  predicate StartsWith(s: string, prefix: string) {
    |prefix| <= |s| && s[..|prefix|] == prefix
  }

  /** `s.endsWith(suffix)`. */
  predicate EndsWith(s: string, suffix: string) {
    |suffix| <= |s| && s[|s| - |suffix|..] == suffix
  }

  /** For a one-character suffix `endsWith` only looks at the last character. */
  lemma EndsWithChar(s: string, c: char)
    ensures EndsWith(s, [c]) <==> |s| > 0 && s[|s| - 1] == c
  {
    if |s| > 0 && s[|s| - 1] == c {
      assert s[|s| - 1..] == [c];
    }
  }

  /** For a one-character prefix `startsWith` only looks at the first character. */
  lemma StartsWithChar(s: string, c: char)
    ensures StartsWith(s, [c]) <==> |s| > 0 && s[0] == c
  {
    if |s| > 0 && s[0] == c {
      assert s[..1] == [c];
    }
  }

  /** `a.equalsIgnoreCase(b)`: same length and the characters agree after case mapping. */
  predicate EqualsIgnoreCase(a: string, b: string) {
    |a| == |b| && forall i :: 0 <= i < |a| ==> LowerChar(a[i]) == LowerChar(b[i])
  }

  /** Ignoring case is the same as comparing the lower-case forms. */
  lemma EqualsIgnoreCaseIffLowerEqual(a: string, b: string)
    ensures EqualsIgnoreCase(a, b) <==> ToLower(a) == ToLower(b)
  {
    if ToLower(a) == ToLower(b) {
      assert forall i :: 0 <= i < |a| ==> ToLower(a)[i] == ToLower(b)[i];
    }
  }

  /**
   * `a.compareTo(b)`: the difference of the first pair of characters that
   * differ, or else the difference of the lengths.
   */
  function CompareTo(a: string, b: string): int {
    if a == [] || b == [] then |a| - |b|
    else if a[0] != b[0] then a[0] as int - b[0] as int
    else CompareTo(a[1..], b[1..])
  }

  /** The natural order of strings: `a.compareTo(b) <= 0`. */
  predicate LessEq(a: string, b: string) {
    CompareTo(a, b) <= 0
  }

  /** Swapping the arguments of `compareTo` flips the sign. */
  lemma {:induction false} CompareToAntisymmetric(a: string, b: string)
    ensures CompareTo(a, b) == -CompareTo(b, a)
  {
    if a != [] && b != [] && a[0] == b[0] {
      CompareToAntisymmetric(a[1..], b[1..]);
    }
  }

  /** `compareTo` is zero exactly on equal strings. */
  lemma {:induction false} CompareToZeroIffEqual(a: string, b: string)
    ensures CompareTo(a, b) == 0 <==> a == b
  {
    if a != [] && b != [] && a[0] == b[0] {
      CompareToZeroIffEqual(a[1..], b[1..]);
      assert a == [a[0]] + a[1..];
      assert b == [b[0]] + b[1..];
      if a == b {
        assert a[1..] == b[1..];
      }
    }
  }

  /** The order is transitive. */
  lemma {:induction false} LessEqTransitive(a: string, b: string, c: string)
    requires LessEq(a, b) && LessEq(b, c)
    ensures LessEq(a, c)
  {
    if a != [] && b != [] && c != [] && a[0] == b[0] && b[0] == c[0] {
      LessEqTransitive(a[1..], b[1..], c[1..]);
    }
  }

  /** Any two strings are ordered one way or the other. */
  lemma LessEqTotal(a: string, b: string)
    ensures LessEq(a, b) || LessEq(b, a)
  {
    CompareToAntisymmetric(a, b);
  }

  /** Strings ordered both ways are equal. */
  lemma LessEqAntisymmetric(a: string, b: string)
    requires LessEq(a, b) && LessEq(b, a)
    ensures a == b
  {
    CompareToAntisymmetric(a, b);
    CompareToZeroIffEqual(a, b);
  }
}
