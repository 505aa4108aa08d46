/** The parts of `java.lang.String`, `Character` and Spring's `StringUtils` that the
    core relies on. A Dafny `char` is a Unicode scalar value; Java counts UTF-16 code
    units, so lengths are measured with `Utf16Length`. */
module JavaText {

  /** `Character.isWhitespace`: the ASCII controls TAB..CR and FS..US, and the Unicode
      space, line and paragraph separators except the no-break spaces U+00A0, U+2007
      and U+202F. */
  predicate IsWhitespace(c: char) {
    || ('\t' <= c <= '\r')
    || ('\U{1C}' <= c <= '\U{1F}')
    || c == ' '
    || c == '\U{1680}'
    || ('\U{2000}' <= c <= '\U{2006}')
    || ('\U{2008}' <= c <= '\U{200A}')
    || c == '\U{2028}'
    || c == '\U{2029}'
    || c == '\U{205F}'
    || c == '\U{3000}'
  }

  /** `StringUtils.hasText` on a non-null string: some character is not whitespace. */
  predicate HasText(s: string) {
    exists i :: 0 <= i < |s| && !IsWhitespace(s[i])
  }

  /** `String.startsWith`. */
  predicate StartsWith(s: string, prefix: string) {
    |prefix| <= |s| && s[..|prefix|] == prefix
  }

  /** Leading characters at or below U+0020 removed (first half of `String.trim`). */
  function TrimStart(s: string): (t: string)
    ensures |t| <= |s| && t == s[|s| - |t|..]
    ensures t != [] ==> t[0] > ' '
    ensures forall k :: 0 <= k < |s| - |t| ==> s[k] <= ' '
  {
    if s != [] && s[0] <= ' ' then TrimStart(s[1..]) else s
  }

  /** Trailing characters at or below U+0020 removed (second half of `String.trim`). */
  function TrimEnd(s: string): (t: string)
    ensures |t| <= |s| && t == s[..|t|]
    ensures t != [] ==> t[|t| - 1] > ' '
    ensures forall k :: |t| <= k < |s| ==> s[k] <= ' '
  {
    if s != [] && s[|s| - 1] <= ' ' then TrimEnd(s[..|s| - 1]) else s
  }

  /** `String.trim`. */
  function Trim(s: string): string {
    TrimEnd(TrimStart(s))
  }

  /** Trimming changes nothing when no character is at or below U+0020. */
  lemma TrimKeepsPrintable(s: string)
    requires forall k :: 0 <= k < |s| ==> s[k] > ' '
    ensures Trim(s) == s
  {
  }

  /** Trimming a string of characters at or below U+0020 leaves nothing. */
  lemma {:induction false} TrimOfControlsIsEmpty(s: string)
    requires forall k :: 0 <= k < |s| ==> s[k] <= ' '
    ensures Trim(s) == []
  {
    if s != [] {
      TrimOfControlsIsEmpty(s[1..]);
      assert TrimStart(s) == TrimStart(s[1..]);
    }
  }

  /** `String.length`: the number of UTF-16 code units. */
  function Utf16Length(s: string): (n: nat)
    ensures |s| <= n <= 2 * |s|
  {
    if s == [] then 0 else (if s[0] as int > 0xFFFF then 2 else 1) + Utf16Length(s[1..])
  }

  /** A string of Basic Multilingual Plane characters has one code unit per character. */
  lemma {:induction false} Utf16LengthOfBmp(s: string)
    requires forall k :: 0 <= k < |s| ==> s[k] as int <= 0xFFFF
    ensures Utf16Length(s) == |s|
  {
    if s != [] {
      Utf16LengthOfBmp(s[1..]);
    }
  }

  /** The position of the first `c` in `s`, or `|s|` when there is none. */
  function IndexOf(s: string, c: char): (k: nat)
    ensures k <= |s|
    ensures k < |s| ==> s[k] == c
    ensures forall j :: 0 <= j < k ==> s[j] != c
  {
    if s == [] then 0 else if s[0] == c then 0 else 1 + IndexOf(s[1..], c)
  }

  /** The first `c` of `a + [c] + b` is the one after `a` when `a` has none. */
  lemma IndexOfAfter(a: string, c: char, b: string)
    requires forall j :: 0 <= j < |a| ==> a[j] != c
    ensures IndexOf(a + [c] + b, c) == |a|
  {
    assert (a + [c] + b)[|a|] == c;
  }
}
