/** Python's `str.strip()` with no arguments, which removes leading and
    trailing whitespace as Python's `str.isspace` defines it. */
module Text {

  /** The characters Python's `str.isspace` accepts: the ASCII controls
      U+0009 to U+000D and U+001C to U+001F, the space, and the Unicode
      separators U+0085, U+00A0, U+1680, U+2000 to U+200A, U+2028, U+2029,
      U+202F, U+205F and U+3000. */
  predicate IsSpace(c: char): (b: bool)
    ensures b ==> 0x09 <= c as int <= 0x3000
  {
    var n := c as int;
    || (0x09 <= n <= 0x0D)
    || (0x1C <= n <= 0x20)
    || n == 0x85 || n == 0xA0 || n == 0x1680
    || (0x2000 <= n <= 0x200A)
    || n == 0x2028 || n == 0x2029 || n == 0x202F || n == 0x205F || n == 0x3000
  }

  /** The same code points listed one by one, as Python's Unicode
      database reports them for `str.isspace`. */
  const SpaceCodes: set<int> := {
    0x09, 0x0A, 0x0B, 0x0C, 0x0D, 0x1C, 0x1D, 0x1E, 0x1F, 0x20,
    0x85, 0xA0, 0x1680,
    0x2000, 0x2001, 0x2002, 0x2003, 0x2004, 0x2005, 0x2006, 0x2007, 0x2008, 0x2009, 0x200A,
    0x2028, 0x2029, 0x202F, 0x205F, 0x3000
  }

  /** The range tests of `IsSpace` accept exactly the listed code points. */
  lemma {:induction false} IsSpaceCodes(c: char)
    ensures IsSpace(c) <==> c as int in SpaceCodes
  {
  }

  /** Every character is whitespace (this includes the empty string). */
  predicate IsBlank(s: string) {
    forall i :: 0 <= i < |s| ==> IsSpace(s[i])
  }

  /** The length of the whitespace prefix. */
  function LeadingSpaces(s: string): (k: nat)
    ensures k <= |s|
    ensures IsBlank(s[..k])
    ensures k < |s| ==> !IsSpace(s[k])
  {
    if |s| == 0 || !IsSpace(s[0]) then 0
    else
      var k := 1 + LeadingSpaces(s[1..]);
      assert forall i :: 1 <= i < k ==> s[..k][i] == s[1..][..k - 1][i - 1];
      k
  }

  /** Where the whitespace suffix starts. */
  function TrailingStart(s: string): (k: nat)
    ensures k <= |s|
    ensures IsBlank(s[k..])
    ensures k > 0 ==> !IsSpace(s[k - 1])
  {
    if |s| == 0 || !IsSpace(s[|s| - 1]) then |s|
    else
      var k := TrailingStart(s[..|s| - 1]);
      assert forall i :: 0 <= i < |s| - 1 ==> s[..|s| - 1][i] == s[i];
      k
  }

  /** `r` is `s` with some whitespace removed from each end. */
  ghost predicate TrimmedFrom(r: string, s: string) {
    exists i, j :: 0 <= i <= j <= |s| && r == s[i..j] && IsBlank(s[..i]) && IsBlank(s[j..])
  }

  /** `s.strip()`: `s` from its first to its last character that is not
      whitespace; empty exactly when `s` is blank. */
  function Strip(s: string): (r: string)
    ensures |r| <= |s|
    ensures r == [] <==> IsBlank(s)
  {
    var a := LeadingSpaces(s);
    var t := TrailingStart(s);
    var b := if t < a then a else t;
    assert IsBlank(s) ==> a == |s|;
    s[a..b]
  }

  /** The stripped string is `s` less whitespace at both ends, and neither
      end of a non-empty result is whitespace. */
  lemma {:induction false} StripTrims(s: string)
    ensures TrimmedFrom(Strip(s), s)
    ensures Strip(s) != [] ==> !IsSpace(Strip(s)[0]) && !IsSpace(Strip(s)[|Strip(s)| - 1])
  {
    var a := LeadingSpaces(s);
    var t := TrailingStart(s);
    var b := if t < a then a else t;
    assert Strip(s) == s[a..b];
    assert a < b ==> s[b - 1] == s[a..b][b - 1 - a];
  }

  /** Stripping an already stripped string changes nothing. */
  lemma {:induction false} StripIdempotent(s: string)
    ensures Strip(Strip(s)) == Strip(s)
  {
    var r := Strip(s);
    StripTrims(s);
    if r != [] {
      assert LeadingSpaces(r) == 0;
      assert TrailingStart(r) == |r|;
      assert r[0..|r|] == r;
    }
  }
}
