/** String utilities the two halves of the system rely on: Python's `str.strip()`,
    JavaScript's `String.prototype.trim()` and JavaScript's `length` (UTF-16 code units).
    Strings are sequences of Unicode scalar values, which is what Python's `len` counts. */
module Text {

  /** Which language's notion of white space is meant. */
  datatype Flavor = Python | JavaScript

  /** White space recognised by both `str.isspace()` and ECMAScript's WhiteSpace/LineTerminator. */
  const SharedSpaces: set<char> :=
    {'\t', '\n', '\U{B}', '\U{C}', '\r', ' ', '\U{A0}', '\U{1680}',
     '\U{2000}', '\U{2001}', '\U{2002}', '\U{2003}', '\U{2004}', '\U{2005}',
     '\U{2006}', '\U{2007}', '\U{2008}', '\U{2009}', '\U{200A}',
     '\U{2028}', '\U{2029}', '\U{202F}', '\U{205F}', '\U{3000}'}

  /** Python also treats the information separators and NEL as white space. */
  const PythonOnlySpaces: set<char> := {'\U{1C}', '\U{1D}', '\U{1E}', '\U{1F}', '\U{85}'}

  /** ECMAScript also treats the byte-order mark as white space. */
  const JavaScriptOnlySpaces: set<char> := {'\U{FEFF}'}

  predicate IsSpace(f: Flavor, c: char) {
    c in SharedSpaces ||
    match f
    case Python => c in PythonOnlySpaces
    case JavaScript => c in JavaScriptOnlySpaces
  }

  predicate AllSpace(f: Flavor, s: string) {
    forall k :: 0 <= k < |s| ==> IsSpace(f, s[k])
  }

  /** True when `s` neither starts nor ends with white space. */
  predicate Trimmed(f: Flavor, s: string) {
    s == [] || (!IsSpace(f, s[0]) && !IsSpace(f, s[|s| - 1]))
  }

  /** Length of the white-space prefix of `s`. */
  function LeadingSpaces(f: Flavor, s: string): (n: nat)
    ensures n <= |s|
    ensures forall k :: 0 <= k < n ==> IsSpace(f, s[k])
    ensures n < |s| ==> !IsSpace(f, s[n])
  {
    if s == [] || !IsSpace(f, s[0]) then 0 else 1 + LeadingSpaces(f, s[1..])
  }

  /** Length of the white-space suffix of `s`. */
  function TrailingSpaces(f: Flavor, s: string): (n: nat)
    ensures n <= |s|
    ensures forall k :: |s| - n <= k < |s| ==> IsSpace(f, s[k])
    ensures n < |s| ==> !IsSpace(f, s[|s| - n - 1])
  {
    if s == [] || !IsSpace(f, s[|s| - 1]) then 0 else 1 + TrailingSpaces(f, s[..|s| - 1])
  }

  /** `s` with leading and trailing white space removed (`str.strip()` / `trim()`).
      Unless `s` is all white space, the two runs are separated by a non-space character. */
  function Strip(f: Flavor, s: string): (r: string)
    ensures Trimmed(f, r)
    ensures r == [] <==> AllSpace(f, s)
    ensures LeadingSpaces(f, s) + |r| <= |s|
    ensures r == s[LeadingSpaces(f, s)..LeadingSpaces(f, s) + |r|]
    ensures forall k :: LeadingSpaces(f, s) + |r| <= k < |s| ==> IsSpace(f, s[k])
  {
    var lead := LeadingSpaces(f, s);
    if lead == |s| then []
    else
      var trail := TrailingSpaces(f, s);
      assert lead < |s| - trail;
      s[lead..|s| - trail]
  }

  /** Stripping text that is already trimmed changes nothing. */
  lemma {:induction false} StripTrimmed(f: Flavor, s: string)
    requires Trimmed(f, s)
    ensures Strip(f, s) == s
  {
    assert LeadingSpaces(f, s) == 0;
    assert TrailingSpaces(f, s) == 0;
    assert s[0..|s|] == s;
  }

  /** Stripping is idempotent, which is why hashing `content.strip()` of already
      stripped content gives the same key as hashing the content itself. */
  lemma StripIdempotent(f: Flavor, s: string)
    ensures Strip(f, Strip(f, s)) == Strip(f, s)
  {
    StripTrimmed(f, Strip(f, s));
  }

  /** Number of UTF-16 code units needed for one character. */
  function Utf16Units(c: char): nat {
    if c as int > 0xFFFF then 2 else 1
  }

  /** JavaScript's `text.length`: characters outside the Basic Multilingual Plane count twice. */
  function Utf16Length(s: string): (n: nat)
    ensures |s| <= n <= 2 * |s|
    ensures (forall k :: 0 <= k < |s| ==> s[k] as int <= 0xFFFF) ==> n == |s|
  {
    if s == [] then 0 else Utf16Units(s[0]) + Utf16Length(s[1..])
  }
}
