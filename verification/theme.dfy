/** Styling the newsletter for display. The full-page theme is spliced in
    right after the tag that opens the document head, found without regard
    to case, or put in front of the page when there is no such tag; a
    summary fragment simply gets its stylesheet in front. The stylesheets
    themselves are parameters. */
module Theme {
  import opened Wrappers
  import opened Text

  /** Some `<head` (in any case) is followed, somewhere later, by a `>`. */
  predicate HasHeadTag(html: string) {
    exists i, c :: 0 <= i < c < |html| && MatchesAt(Lower(html), i, "<head") && html[c] == '>'
  }

  /** Only `>` lower-cases to `>`. */
  lemma {:induction false} LowerKeepsClose(html: string, j: nat)
    requires j < |html|
    ensures Lower(html)[j] == '>' <==> html[j] == '>'
  {
  }

  /** Where the theme goes: just after the first `>` that follows the first
      `<head` (in any case), or at the very start when there is none. */
  function ThemeAt(html: string): (p: nat)
    ensures p <= |html|
    ensures p == 0 <==> !HasHeadTag(html)
    ensures p > 0 ==> html[p - 1] == '>'
    ensures p > 0 ==> exists i :: (0 <= i < p - 1 && MatchesAt(Lower(html), i, "<head")
      && (forall j :: 0 <= j < i ==> !MatchesAt(Lower(html), j, "<head"))
      && (forall j :: i <= j < p - 1 ==> html[j] != '>'))
  {
    var lower := Lower(html);
    match FindFrom(lower, "<head", 0)
    case None => NoHead(html); 0
    case Some(i) =>
      match IndexFrom(lower, '>', i)
      case None => NoCloseAfterHead(html, i); 0
      case Some(c) =>
        LowerKeepsClose(html, c);
        assert c != i by { assert lower[i + 0] == "<head"[0]; }
        forall j | i <= j < c ensures html[j] != '>' {
          LowerKeepsClose(html, j);
        }
        c + 1
  }

  lemma {:induction false} NoHead(html: string)
    requires FindFrom(Lower(html), "<head", 0).None?
    ensures !HasHeadTag(html)
  {
  }

  lemma {:induction false} NoCloseAfterHead(html: string, i: nat)
    requires FindFrom(Lower(html), "<head", 0) == Some(i)
    requires IndexFrom(Lower(html), '>', i).None?
    ensures !HasHeadTag(html)
  {
    forall i', c | 0 <= i' < c < |html| && MatchesAt(Lower(html), i', "<head") && html[c] == '>'
      ensures false
    {
      LowerKeepsClose(html, c);
    }
  }

  /** `apply_theme`: the page with the theme inserted at `ThemeAt`. */
  function ApplyTheme(css: string, html: string): (r: string)
    ensures |r| == |html| + |css|
    ensures r[..ThemeAt(html)] == html[..ThemeAt(html)]
    ensures r[ThemeAt(html)..ThemeAt(html) + |css|] == css
    ensures r[ThemeAt(html) + |css|..] == html[ThemeAt(html)..]
  {
    var p := ThemeAt(html);
    html[..p] + css + html[p..]
  }

  /** Cutting the theme back out of a themed page gives the page back. */
  lemma {:induction false} ThemeRemovable(css: string, html: string)
    ensures var r, p := ApplyTheme(css, html), ThemeAt(html);
      r[..p] + r[p + |css|..] == html
  {
    var r, p := ApplyTheme(css, html), ThemeAt(html);
    assert html == html[..p] + html[p..];
  }

  /** A page without a head tag gets the theme in front. */
  lemma {:induction false} ThemePrepended(css: string, html: string)
    requires !HasHeadTag(html)
    ensures ApplyTheme(css, html) == css + html
  {
    assert html[..0] == [];
  }

  /** `style_summary_html`: the summary stylesheet, then the fragment, a
      missing fragment counting as empty. */
  function StyleSummaryHtml(css: string, html: Option<string>): (r: string)
    ensures |r| == |css| + |html.GetOr("")|
    ensures r[..|css|] == css
    ensures html.Some? ==> r[|css|..] == html.value
    ensures html.None? ==> r == css
  {
    css + html.GetOr("")
  }

  // ------------------------------------------------- as the code is written

  /** The character Python's `str.lower` lengthens: U+0130, capital I with
      dot above, becomes `i` followed by U+0307, combining dot above. */
  const DottedCapitalI: char := '\U{0130}'

  /** Python's `str.lower` as far as the head-tag search can see: only the
      dotted capital I changes length, and only ASCII capitals become the
      letters of `<head`. */
  function PyLowerChar(c: char): (r: string)
    ensures |r| == if c == DottedCapitalI then 2 else 1
  {
    if c == DottedCapitalI then "i\U{0307}" else [LowerChar(c)]
  }

  function PyLower(s: string): (r: string)
    ensures |r| >= |s|
    decreases |s|
  {
    if s == [] then [] else PyLowerChar(s[0]) + PyLower(s[1..])
  }

  /** Lower-casing lengthens the text by one for each dotted capital I. */
  lemma {:induction false} PyLowerLength(s: string)
    ensures |PyLower(s)| == |s| + multiset(s)[DottedCapitalI]
    decreases |s|
  {
    if s != [] {
      assert s == [s[0]] + s[1..];
      PyLowerLength(s[1..]);
    }
  }

  /** Without a dotted capital I, Python's lower-casing keeps every
      character in place. */
  lemma {:induction false} PyLowerKeepsPlaces(s: string)
    requires forall i :: 0 <= i < |s| ==> s[i] != DottedCapitalI
    ensures PyLower(s) == Lower(s)
    decreases |s|
  {
    if s != [] {
      PyLowerKeepsPlaces(s[1..]);
      LowerCons(s);
    }
  }

  lemma {:induction false} LowerCons(s: string)
    requires s != []
    ensures Lower(s) == [LowerChar(s[0])] + Lower(s[1..])
  {
  }

  /** `apply_theme` as written: the head tag is searched in the lower-cased
      page, and the index found there is used to cut the page itself. */
  function ApplyThemeAsWritten(css: string, html: string): (r: string)
    ensures |r| == |html| + |css|
  {
    var lower := PyLower(html);
    match FindFrom(lower, "<head", 0)
    case None => css + html
    case Some(i) =>
      match IndexFrom(lower, '>', i)
      case None => css + html
      case Some(c) =>
        var k := if c + 1 <= |html| then c + 1 else |html|;
        html[..k] + css + html[k..]
  }

  /** On a page without a dotted capital I the code as written puts the
      theme where `ApplyTheme` does. */
  lemma {:induction false} AsWrittenAgrees(css: string, html: string)
    requires forall i :: 0 <= i < |html| ==> html[i] != DottedCapitalI
    ensures ApplyThemeAsWritten(css, html) == ApplyTheme(css, html)
  {
    PyLowerKeepsPlaces(html);
    assert html[..0] == [];
  }

  /** Text without ASCII capitals is its own lower-case form. */
  lemma {:induction false} LowerKeepsLowercase(s: string)
    requires forall i :: 0 <= i < |s| ==> !('A' <= s[i] <= 'Z')
    ensures Lower(s) == s
  {
  }

  /** The page of the counterexample: a dotted capital I, then `rest`. */
  predicate DottedPage(html: string, rest: string) {
    rest == "<head><title>" && html == [DottedCapitalI] + rest
  }

  lemma {:induction false} DottedPageLowered(html: string, rest: string)
    requires DottedPage(html, rest)
    ensures PyLower(html) == "i\U{0307}" + rest
    ensures Lower(html) == html
  {
    assert html[0] == DottedCapitalI;
    assert html[1..] == rest;
    PyLowerKeepsPlaces(rest);
    LowerKeepsLowercase(rest);
    LowerKeepsLowercase(html);
  }

  /** The code as written finds `<head` two places in and the `>` at 7 in
      the lower-cased page, and so cuts the page itself at index 8, after
      `İ<head><`. */
  lemma {:induction false} DottedPageAsWritten(css: string, html: string, rest: string)
    requires DottedPage(html, rest)
    ensures ApplyThemeAsWritten(css, html) == html[..8] + css + html[8..]
  {
    DottedPageLowered(html, rest);
    var lower := PyLower(html);
    LoweredHead(lower, rest);
    FindFromFirst(lower, "<head", 0, 2);
    IndexFromFirst(lower, '>', 2, 7);
  }

  /** Where `<head` and its `>` sit in the lower-cased counterexample. */
  lemma {:induction false} LoweredHead(lower: string, rest: string)
    requires rest == "<head><title>" && lower == "i\U{0307}" + rest
    ensures MatchesAt(lower, 2, "<head")
    ensures forall j :: 0 <= j < 2 ==> !MatchesAt(lower, j, "<head")
    ensures |lower| == 15 && lower[7] == '>'
    ensures forall j :: 2 <= j < 7 ==> lower[j] != '>'
  {
    assert lower[2..] == rest;
    assert lower[0 + 0] != "<head"[0] && lower[1 + 0] != "<head"[0];
    forall k | 0 <= k < 5 ensures lower[2 + k] == "<head"[k] {
      assert lower[2 + k] == rest[k];
    }
  }

  /** `FindFrom` returns a match that no earlier position has. */
  lemma {:induction false} FindFromFirst(s: string, pat: string, from: nat, i: nat)
    requires from <= i && MatchesAt(s, i, pat)
    requires forall j :: from <= j < i ==> !MatchesAt(s, j, pat)
    ensures FindFrom(s, pat, from) == Some(i)
    decreases i - from
  {
    if from < i {
      FindFromFirst(s, pat, from + 1, i);
    }
  }

  /** `IndexFrom` returns an occurrence that no earlier position has. */
  lemma {:induction false} IndexFromFirst(s: string, c: char, from: nat, i: nat)
    requires from <= i < |s| && s[i] == c
    requires forall j :: from <= j < i ==> s[j] != c
    ensures IndexFrom(s, c, from) == Some(i)
    decreases i - from
  {
    if from < i {
      IndexFromFirst(s, c, from + 1, i);
    }
  }

  /** Searching the page itself finds `<head` at 1 and its `>` at 6. */
  lemma {:induction false} DottedPageThemeAt(html: string, rest: string)
    requires DottedPage(html, rest)
    ensures ThemeAt(html) == 7
  {
    DottedPageLowered(html, rest);
    DottedPageHead(html, rest);
    FindFromFirst(html, "<head", 0, 1);
    IndexFromFirst(html, '>', 1, 6);
  }

  /** Where `<head` and its `>` sit in the counterexample page. */
  lemma {:induction false} DottedPageHead(html: string, rest: string)
    requires DottedPage(html, rest)
    ensures MatchesAt(html, 1, "<head") && !MatchesAt(html, 0, "<head")
    ensures |html| == 14 && html[6] == '>'
    ensures forall j :: 1 <= j < 6 ==> html[j] != '>'
  {
    assert html[0] == DottedCapitalI;
    assert html[1..] == rest;
    assert html[0 + 0] != "<head"[0];
    forall k | 0 <= k < 5 ensures html[1 + k] == "<head"[k] {
      assert html[1 + k] == rest[k];
    }
  }

  /** Cutting one place after `ThemeAt` gives a different page from
      `ApplyTheme` unless the theme starts with the character cut past. */
  lemma {:induction false} ShiftedCutDiffers(css: string, html: string)
    requires 0 < ThemeAt(html) < |html| && css != [] && css[0] != html[ThemeAt(html)]
    ensures var p := ThemeAt(html);
      html[..p + 1] + css + html[p + 1..] != ApplyTheme(css, html)
  {
    var p := ThemeAt(html);
    assert (html[..p + 1] + css + html[p + 1..])[p] == html[p];
  }

  /** The counterexample page has fourteen characters, the `<` of
      `<title>` at 7. */
  lemma {:induction false} DottedPageShape(html: string, rest: string)
    requires DottedPage(html, rest)
    ensures |html| == 14 && html[7] == '<'
  {
    assert html[7] == rest[6];
  }

  /** A dotted capital I before the head tag shifts the cut by one: for
      `İ<head><title>` the theme lands inside the `<title>` tag, just after
      its `<`, instead of right after `<head>`. */
  lemma {:induction false} DottedIShiftsTheme(css: string, html: string, rest: string)
    requires DottedPage(html, rest)
    ensures ThemeAt(html) == 7 && |html| == 14 && html[7] == '<'
    ensures ApplyThemeAsWritten(css, html) == html[..8] + css + html[8..]
  {
    DottedPageShape(html, rest);
    DottedPageThemeAt(html, rest);
    DottedPageAsWritten(css, html, rest);
  }

  /** The dotted page themed as written differs from the page themed after
      its head tag whenever the theme does not start with `<`. */
  lemma {:induction false} DottedIMisplacesTheme(css: string, html: string, rest: string)
    requires DottedPage(html, rest) && css != [] && css[0] != '<'
    ensures ApplyThemeAsWritten(css, html) != ApplyTheme(css, html)
  {
    DottedIShiftsTheme(css, html, rest);
    ShiftedCutDiffers(css, html);
  }
}
