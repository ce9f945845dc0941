/** Character and string primitives shared by the whole model: ASCII
    lower-casing, Python's whitespace class, searching for a character or a
    pattern, and `str.strip` over an arbitrary character class. */
module Text {
  import opened Wrappers

  /** ASCII lower-casing of one character; every other character is kept, so
      indices into a string and into its lower-cased copy stay aligned. */
  function LowerChar(c: char): char {
    if 'A' <= c <= 'Z' then (c as int - 'A' as int + 'a' as int) as char else c
  }

  function Lower(s: string): (r: string)
    ensures |r| == |s|
    ensures forall i :: 0 <= i < |s| ==> r[i] == LowerChar(s[i])
  {
    seq(|s|, i requires 0 <= i < |s| => LowerChar(s[i]))
  }

  predicate IsLowerLetter(c: char) {
    'a' <= c <= 'z'
  }

  /** The characters `str.isspace` accepts, which is what `str.strip()` with
      no argument removes. */
  predicate IsPyWhitespace(c: char) {
    || c == ' ' || c == '\t' || c == '\n' || c == '\r'
    || c == '\U{0B}' || c == '\U{0C}'
    || ('\U{1C}' <= c <= '\U{1F}')
    || c == '\U{85}' || c == '\U{A0}' || c == '\U{1680}'
    || ('\U{2000}' <= c <= '\U{200A}')
    || c == '\U{2028}' || c == '\U{2029}' || c == '\U{202F}'
    || c == '\U{205F}' || c == '\U{3000}'
  }

  /** Index of the first `c` at or after `from`, as `str.find(c, from)`. */
  function IndexFrom(s: string, c: char, from: nat): (r: Option<nat>)
    ensures r.Some? ==> from <= r.value < |s| && s[r.value] == c
    ensures r.Some? ==> forall j :: from <= j < r.value ==> s[j] != c
    ensures r.None? ==> forall j :: from <= j < |s| ==> s[j] != c
    decreases |s| - from
  {
    if from >= |s| then None
    else if s[from] == c then Some(from)
    else IndexFrom(s, c, from + 1)
  }

  /** `pat` occurs in `s` at position `i`. */
  predicate MatchesAt(s: string, i: nat, pat: string) {
    i + |pat| <= |s| && forall k :: 0 <= k < |pat| ==> s[i + k] == pat[k]
  }

  /** Index of the first occurrence of `pat` at or after `from`, as
      `str.find(pat, from)`. */
  function FindFrom(s: string, pat: string, from: nat): (r: Option<nat>)
    ensures r.Some? ==> from <= r.value && MatchesAt(s, r.value, pat)
    ensures r.Some? ==> forall j :: from <= j < r.value ==> !MatchesAt(s, j, pat)
    ensures r.None? ==> forall j :: from <= j ==> !MatchesAt(s, j, pat)
    decreases |s| - from
  {
    if from + |pat| > |s| then None
    else if MatchesAt(s, from, pat) then Some(from)
    else FindFrom(s, pat, from + 1)
  }

  /** `pat in s`. */
  predicate Contains(s: string, pat: string) {
    FindFrom(s, pat, 0).Some?
  }

  predicate StartsWith(s: string, pat: string) {
    MatchesAt(s, 0, pat)
  }

  /** The characters `text.strip("`\n ")` removes around a fenced block. */
  predicate IsFenceChar(c: char) {
    c == '`' || c == '\n' || c == ' '
  }

  /** The two character sets the application hands to `str.strip`. */
  datatype CharClass = PyWhitespace | FenceChars

  predicate InClass(c: char, cls: CharClass) {
    match cls
    case PyWhitespace => IsPyWhitespace(c)
    case FenceChars => IsFenceChar(c)
  }

  /** The first position at or after `i` whose character `cls` keeps. */
  function SkipForward(s: string, cls: CharClass, i: nat): (a: nat)
    requires i <= |s|
    ensures i <= a <= |s|
    ensures forall k :: i <= k < a ==> InClass(s[k], cls)
    ensures a < |s| ==> !InClass(s[a], cls)
    decreases |s| - i
  {
    if i == |s| || !InClass(s[i], cls) then i else SkipForward(s, cls, i + 1)
  }

  /** The end of `s[..j]` once its trailing characters in `cls` are cut. */
  function SkipBackward(s: string, cls: CharClass, j: nat): (b: nat)
    requires j <= |s|
    ensures b <= j
    ensures forall k :: b <= k < j ==> InClass(s[k], cls)
    ensures b > 0 ==> !InClass(s[b - 1], cls)
  {
    if j == 0 || !InClass(s[j - 1], cls) then j else SkipBackward(s, cls, j - 1)
  }

  /** The bounds `str.strip(chars)` keeps: everything before the first and
      after the last character outside the class is removed. */
  function StripBounds(s: string, cls: CharClass): (ab: (nat, nat))
    ensures ab.0 <= ab.1 <= |s|
    ensures forall i :: 0 <= i < ab.0 ==> InClass(s[i], cls)
    ensures forall i :: ab.1 <= i < |s| ==> InClass(s[i], cls)
    ensures ab.0 < ab.1 ==> !InClass(s[ab.0], cls) && !InClass(s[ab.1 - 1], cls)
  {
    var a := SkipForward(s, cls, 0);
    if a == |s| then (a, a) else (a, SkipBackward(s, cls, |s|))
  }

  /** `str.strip(chars)` where the class `cls` stands for `chars`. */
  function Strip(s: string, cls: CharClass): (r: string)
    ensures |r| <= |s|
    ensures r == [] || (!InClass(r[0], cls) && !InClass(r[|r| - 1], cls))
    ensures r == s[StripBounds(s, cls).0..StripBounds(s, cls).1]
  {
    var ab := StripBounds(s, cls);
    s[ab.0..ab.1]
  }

  /** A string with no strippable character at either end is its own strip. */
  lemma {:induction false} StripKeepsTrimmed(s: string, cls: CharClass)
    requires s == [] || (!InClass(s[0], cls) && !InClass(s[|s| - 1], cls))
    ensures Strip(s, cls) == s
  {
    var ab := StripBounds(s, cls);
    if s != [] {
      assert ab.0 == 0;
      assert ab.1 == |s|;
    }
  }

  /** The strip of `s` is `s[a..b]` whenever `a` and `b` delimit a non-empty
      core whose two ends are kept and everything outside it is dropped. */
  lemma {:induction false} StripIsCore(s: string, cls: CharClass, a: nat, b: nat)
    requires a < b <= |s|
    requires forall i :: 0 <= i < a ==> InClass(s[i], cls)
    requires forall i :: b <= i < |s| ==> InClass(s[i], cls)
    requires !InClass(s[a], cls) && !InClass(s[b - 1], cls)
    ensures Strip(s, cls) == s[a..b]
  {
    var ab := StripBounds(s, cls);
  }

  /** `str.strip` is idempotent. */
  lemma {:induction false} StripIdempotent(s: string, cls: CharClass)
    ensures Strip(Strip(s, cls), cls) == Strip(s, cls)
  {
    StripKeepsTrimmed(Strip(s, cls), cls);
  }

  /** `str.strip()`: Python whitespace removed from both ends. */
  function PyStrip(s: string): (r: string)
    ensures IsTrimmed(r)
  {
    Strip(s, PyWhitespace)
  }

  /** `str.strip()` applied twice strips nothing more. */
  lemma {:induction false} PyStripIdempotent(s: string)
    ensures PyStrip(PyStrip(s)) == PyStrip(s)
  {
    StripIdempotent(s, PyWhitespace);
  }

  /** No Python whitespace at either end of `s`. */
  predicate IsTrimmed(s: string) {
    s == [] || (!IsPyWhitespace(s[0]) && !IsPyWhitespace(s[|s| - 1]))
  }

  /** The strings `str.strip()` leaves alone are exactly the trimmed ones. */
  lemma {:induction false} TrimmedIsFixed(s: string)
    ensures IsTrimmed(s) <==> PyStrip(s) == s
  {
    if IsTrimmed(s) {
      StripKeepsTrimmed(s, PyWhitespace);
    }
  }
}
