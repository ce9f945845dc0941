/** Splitting the final newsletter into (title, body) sections at its
    second-level headings. The application does this with one
    case-insensitive regular expression,
      `<h2[^>]*>(.*?)</h2>([\s\S]*?)(?=<h2[^>]*>|$)`,
    applied by `finditer`; here the same behaviour is a direct scanner.
    `ValidMatch` states declaratively what one match of the expression is,
    and `IsMatchList` what the sequence of `finditer` matches is. */
module Sections {
  import opened Wrappers
  import opened Text

  datatype Section = Section(title: string, body: string)

  /** Where one match lies: the heading opens at `start`, its text is
      `s[titleStart..titleEnd]`, `</h2>` sits at `titleEnd`, and the body runs
      from `titleEnd + 5` to `bodyEnd`. */
  datatype Match = Match(start: nat, titleStart: nat, titleEnd: nat, bodyEnd: nat)

  /** `<h2` at `i`. The expression is compiled case-insensitively, and `h`
      is the only letter in it: `<`, `2`, `/` and `>` match only
      themselves. */
  predicate OpenAt(s: string, i: nat) {
    i + 3 <= |s| && s[i] == '<' && (s[i + 1] == 'h' || s[i + 1] == 'H') && s[i + 2] == '2'
  }

  /** `</h2>` at `i`, again with `h` in either case. */
  predicate CloseAt(s: string, i: nat) {
    && i + 5 <= |s| && s[i] == '<' && s[i + 1] == '/'
    && (s[i + 2] == 'h' || s[i + 2] == 'H') && s[i + 3] == '2' && s[i + 4] == '>'
  }

  /** End of `<h2[^>]*>` at `i`: the first `>` after `<h2`, if any. */
  function OpenTagEnd(s: string, i: nat): (r: Option<nat>)
    ensures r.Some? ==> OpenAt(s, i) && i + 3 <= r.value < |s| && s[r.value] == '>'
    ensures r.Some? ==> forall q :: i + 3 <= q < r.value ==> s[q] != '>'
    ensures r.None? ==> !OpenAt(s, i) || forall q :: i + 3 <= q < |s| ==> s[q] != '>'
  {
    if OpenAt(s, i) then IndexFrom(s, '>', i + 3) else None
  }

  /** Where the lazy body may stop: before an opening heading tag, at the end
      of the text, or before a final newline (Python's `$`). */
  predicate IsBoundary(s: string, p: nat) {
    OpenTagEnd(s, p).Some? || p == |s| || (p + 1 == |s| && s[p] == '\n')
  }

  /** There is a newline in `s[from..to]`. */
  predicate NewlineBetween(s: string, from: nat, to: nat) {
    exists q :: from <= q < to && q < |s| && s[q] == '\n'
  }

  /** The lazy `(.*?)</h2>` from `from`: the first `</h2>` reached before
      any newline. */
  function CloseOnLine(s: string, from: nat): (r: Option<nat>)
    ensures r.Some? ==> from <= r.value && CloseAt(s, r.value)
    ensures r.Some? ==> forall q :: from <= q < r.value ==> s[q] != '\n' && !CloseAt(s, q)
    ensures r.None? ==> forall q :: from <= q && CloseAt(s, q) ==> NewlineBetween(s, from, q)
    decreases |s| - from
  {
    if from >= |s| then None
    else if CloseAt(s, from) then Some(from)
    else if s[from] == '\n' then None
    else CloseOnLine(s, from + 1)
  }

  /** The lazy body `([\s\S]*?)` from `from`: the first boundary. */
  function BodyEnd(s: string, from: nat): (r: nat)
    requires from <= |s|
    ensures from <= r <= |s| && IsBoundary(s, r)
    ensures forall p :: from <= p < r ==> !IsBoundary(s, p)
    decreases |s| - from
  {
    if IsBoundary(s, from) then from else BodyEnd(s, from + 1)
  }

  /** What a match of the heading expression at `m.start` is: its heading
      part and its lazy body. */
  predicate ValidMatch(s: string, m: Match) {
    HeadingMatches(s, m) && BodyMatches(s, m)
  }

  /** `<h2[^>]*>(.*?)</h2>` matches at `m.start`, with the title where `m`
      puts it. */
  predicate HeadingMatches(s: string, m: Match) {
    && OpenAt(s, m.start)
    && m.start + 3 < m.titleStart <= |s|
    && s[m.titleStart - 1] == '>'
    && (forall q :: m.start + 3 <= q < m.titleStart - 1 ==> s[q] != '>')
    && m.titleStart <= m.titleEnd
    && CloseAt(s, m.titleEnd)
    && (forall q :: m.titleStart <= q < m.titleEnd ==> s[q] != '\n' && !CloseAt(s, q))
  }

  /** `([\s\S]*?)(?=<h2[^>]*>|$)` after the heading ends at `m.bodyEnd`. */
  predicate BodyMatches(s: string, m: Match) {
    && m.titleEnd + 5 <= m.bodyEnd <= |s|
    && IsBoundary(s, m.bodyEnd)
    && (forall p :: m.titleEnd + 5 <= p < m.bodyEnd ==> !IsBoundary(s, p))
  }

  /** Trying the expression at position `i`. */
  function MatchAt(s: string, i: nat): (r: Option<Match>)
    ensures r.Some? ==> r.value.start == i && ValidMatch(s, r.value)
    ensures forall m: Match :: m.start == i && ValidMatch(s, m) ==> r == Some(m)
  {
    match OpenTagEnd(s, i)
    case None =>
      NoMatchWithoutOpenTag(s, i);
      None
    case Some(j) => MatchAfterOpen(s, i, j)
  }

  /** The rest of the attempt at `i` once `<h2[^>]*>` ended at `j`. */
  function MatchAfterOpen(s: string, i: nat, j: nat): (r: Option<Match>)
    requires OpenTagEnd(s, i) == Some(j)
    ensures r.Some? ==> r.value.start == i && ValidMatch(s, r.value)
    ensures forall m: Match :: m.start == i && ValidMatch(s, m) ==> r == Some(m)
  {
    match CloseOnLine(s, j + 1)
    case None =>
      NoMatchWithoutClose(s, i, j);
      None
    case Some(k) =>
      var m := Match(i, j + 1, k, BodyEnd(s, k + 5));
      OnlyMatchAt(s, m);
      Some(m)
  }

  lemma {:induction false} NoMatchWithoutOpenTag(s: string, i: nat)
    requires OpenTagEnd(s, i).None?
    ensures forall m: Match :: m.start == i ==> !HeadingMatches(s, m)
  {
  }

  lemma {:induction false} NoMatchWithoutClose(s: string, i: nat, j: nat)
    requires OpenTagEnd(s, i) == Some(j) && CloseOnLine(s, j + 1).None?
    ensures forall m: Match :: m.start == i ==> !HeadingMatches(s, m)
  {
  }

  /** A match at a position is unique: every part of it is the first of its
      kind. */
  lemma {:induction false} OnlyMatchAt(s: string, m: Match)
    requires OpenTagEnd(s, m.start) == Some(m.titleStart - 1) && m.titleStart >= 1
    requires CloseOnLine(s, m.titleStart) == Some(m.titleEnd)
    requires m.titleEnd + 5 <= |s| && m.bodyEnd == BodyEnd(s, m.titleEnd + 5)
    ensures ValidMatch(s, m)
    ensures forall m': Match :: m'.start == m.start && ValidMatch(s, m') ==> m' == m
  {
    forall m': Match | m'.start == m.start && ValidMatch(s, m') ensures m' == m {
      assert m'.titleStart == m.titleStart;
      assert m'.titleEnd == m.titleEnd;
      assert m'.bodyEnd == m.bodyEnd;
    }
  }

  /** Some match in `ms` spans position `p`. */
  predicate Covered(ms: seq<Match>, p: nat) {
    exists k :: 0 <= k < |ms| && ms[k].start <= p < ms[k].bodyEnd
  }

  /** `ms` is what `finditer` yields when it starts searching at `from`:
      valid matches, in order and without overlap, and every position it
      tries between them fails. */
  predicate IsMatchList(s: string, from: nat, ms: seq<Match>) {
    && (forall k :: 0 <= k < |ms| ==> from <= ms[k].start && ValidMatch(s, ms[k]))
    && (forall j, k :: 0 <= j < k < |ms| ==> ms[j].bodyEnd <= ms[k].start)
    && (forall p :: from <= p < |s| && !Covered(ms, p) ==> MatchAt(s, p).None?)
  }

  /** A position that fails may be skipped. */
  lemma {:induction false} MatchListSkip(s: string, from: nat, ms: seq<Match>)
    requires MatchAt(s, from).None?
    requires IsMatchList(s, from + 1, ms)
    ensures IsMatchList(s, from, ms)
  {
    forall k | 0 <= k < |ms| ensures from <= ms[k].start {
    }
  }

  /** A match at `from` followed by the matches from where it ends. */
  lemma {:induction false} MatchListCons(s: string, from: nat, m: Match, ms: seq<Match>)
    requires MatchAt(s, from) == Some(m)
    requires IsMatchList(s, m.bodyEnd, ms)
    ensures IsMatchList(s, from, [m] + ms)
  {
    assert m.start == from && ValidMatch(s, m);
    ConsOrdered(from, m, ms);
    ConsValid(s, from, m, ms);
    ConsGaps(s, from, m, ms);
  }

  lemma {:induction false} ConsValid(s: string, from: nat, m: Match, ms: seq<Match>)
    requires from <= m.bodyEnd && m.start == from && ValidMatch(s, m)
    requires forall k :: 0 <= k < |ms| ==> m.bodyEnd <= ms[k].start && ValidMatch(s, ms[k])
    ensures forall k :: 0 <= k < |[m] + ms| ==> from <= ([m] + ms)[k].start && ValidMatch(s, ([m] + ms)[k])
  {
    var r := [m] + ms;
    forall k | 0 <= k < |r| ensures from <= r[k].start && ValidMatch(s, r[k]) {
      if k > 0 {
        assert r[k] == ms[k - 1];
      }
    }
  }

  lemma {:induction false} ConsOrdered(from: nat, m: Match, ms: seq<Match>)
    requires m.start <= m.bodyEnd
    requires forall k :: 0 <= k < |ms| ==> m.bodyEnd <= ms[k].start
    requires forall j, k :: 0 <= j < k < |ms| ==> ms[j].bodyEnd <= ms[k].start
    ensures forall j, k :: 0 <= j < k < |[m] + ms| ==> ([m] + ms)[j].bodyEnd <= ([m] + ms)[k].start
  {
    var r := [m] + ms;
    forall j, k | 0 <= j < k < |r| ensures r[j].bodyEnd <= r[k].start {
      assert r[k] == ms[k - 1];
      if j > 0 {
        assert r[j] == ms[j - 1];
      }
    }
  }

  lemma {:induction false} ConsGaps(s: string, from: nat, m: Match, ms: seq<Match>)
    requires m.start == from && from < m.bodyEnd
    requires forall p :: m.bodyEnd <= p < |s| && !Covered(ms, p) ==> MatchAt(s, p).None?
    ensures forall p :: from <= p < |s| && !Covered([m] + ms, p) ==> MatchAt(s, p).None?
  {
    var r := [m] + ms;
    forall p | from <= p < |s| && !Covered(r, p) ensures MatchAt(s, p).None? {
      assert !(r[0].start <= p < r[0].bodyEnd);
      assert !Covered(ms, p) by {
        forall k | 0 <= k < |ms| ensures !(ms[k].start <= p < ms[k].bodyEnd) {
          assert r[k + 1] == ms[k];
        }
      }
    }
  }

  /** `finditer` from `from`: try each position; after a match, resume where
      it ended. */
  function Scan(s: string, from: nat): (r: seq<Match>)
    ensures IsMatchList(s, from, r)
    decreases |s| - from
  {
    if from >= |s| then []
    else
      match MatchAt(s, from)
      case None =>
        var rest := Scan(s, from + 1);
        MatchListSkip(s, from, rest);
        rest
      case Some(m) =>
        var rest := Scan(s, m.bodyEnd);
        MatchListCons(s, from, m, rest);
        [m] + rest
  }

  /** The matches `finditer` yields are determined by the text: any two lists
      meeting `IsMatchList` from the same position are equal. */
  lemma {:induction false} MatchListUnique(s: string, from: nat, ms1: seq<Match>, ms2: seq<Match>)
    requires IsMatchList(s, from, ms1) && IsMatchList(s, from, ms2)
    ensures ms1 == ms2
    decreases |ms1| + |ms2|
  {
    if ms1 != [] {
      FirstMatchNotSkipped(s, from, ms1, ms2);
    }
    if ms2 != [] {
      FirstMatchNotSkipped(s, from, ms2, ms1);
    }
    if ms1 != [] {
      SameFirstMatch(s, from, ms1, ms2);
      MatchListTail(s, from, ms1);
      MatchListTail(s, from, ms2);
      MatchListUnique(s, ms1[0].bodyEnd, ms1[1..], ms2[1..]);
      SameHeadAndTail(ms1, ms2);
    }
  }

  lemma {:induction false} SameHeadAndTail<T>(a: seq<T>, b: seq<T>)
    requires |a| > 0 && |b| > 0 && a[0] == b[0] && a[1..] == b[1..]
    ensures a == b
  {
    assert a == [a[0]] + a[1..];
    assert b == [b[0]] + b[1..];
  }

  /** Two match lists whose first matches start at the same place share
      that first match: a position starts at most one match. */
  lemma {:induction false} SameFirstMatch(s: string, from: nat, ms1: seq<Match>, ms2: seq<Match>)
    requires IsMatchList(s, from, ms1) && IsMatchList(s, from, ms2)
    requires |ms1| > 0 && |ms2| > 0 && ms1[0].start == ms2[0].start
    ensures ms1[0] == ms2[0]
  {
    assert ValidMatch(s, ms1[0]) && ValidMatch(s, ms2[0]);
    assert MatchAt(s, ms1[0].start) == Some(ms1[0]);
    assert MatchAt(s, ms2[0].start) == Some(ms2[0]);
  }

  /** The first match of one list cannot be skipped by another: the other
      list has a match starting no later. */
  lemma {:induction false} FirstMatchNotSkipped(s: string, from: nat, ms: seq<Match>, other: seq<Match>)
    requires IsMatchList(s, from, ms) && IsMatchList(s, from, other)
    requires |ms| > 0
    ensures |other| > 0 && other[0].start <= ms[0].start
  {
    var m := ms[0];
    var p := m.start;
    assert ValidMatch(s, m);
    assert MatchAt(s, p) == Some(m);
    assert Covered(other, p);
    var k :| 0 <= k < |other| && other[k].start <= p < other[k].bodyEnd;
    if k > 0 {
      assert other[0].bodyEnd <= other[k].start;
      assert ValidMatch(s, other[0]);
    }
  }

  /** After its first match, a match list continues as the match list from
      where that match ended. */
  lemma {:induction false} MatchListTail(s: string, from: nat, ms: seq<Match>)
    requires IsMatchList(s, from, ms) && |ms| > 0
    ensures IsMatchList(s, ms[0].bodyEnd, ms[1..])
  {
    var t := ms[1..];
    forall k | 0 <= k < |t| ensures ms[0].bodyEnd <= t[k].start && ValidMatch(s, t[k]) {
      assert t[k] == ms[k + 1];
    }
    forall j, k | 0 <= j < k < |t| ensures t[j].bodyEnd <= t[k].start {
      assert t[j] == ms[j + 1] && t[k] == ms[k + 1];
    }
    forall p | ms[0].bodyEnd <= p < |s| && !Covered(t, p) ensures MatchAt(s, p).None? {
      assert ValidMatch(s, ms[0]);
      assert !Covered(ms, p) by {
        forall k | 0 <= k < |ms| ensures !(ms[k].start <= p < ms[k].bodyEnd) {
          if k > 0 {
            assert t[k - 1] == ms[k];
          }
        }
      }
    }
  }

  /** The heading matches of a whole document. */
  function Headings(html: string): (ms: seq<Match>)
    ensures IsMatchList(html, 0, ms)
  {
    Scan(html, 0)
  }

  /** No character of `s` is `c`. */
  predicate Lacks(s: string, c: char) {
    forall i :: 0 <= i < |s| ==> s[i] != c
  }

  /** No `<` in `t` is followed, anywhere later, by a `>`. On a single line
      this says that `<.*?>` matches nowhere in `t`. */
  predicate NoTag(t: string) {
    forall i, j :: 0 <= i < j < |t| && t[i] == '<' ==> t[j] != '>'
  }

  /** The end of a `<.*?>` tag opened just before `from`: the first `>`
      reached before any newline. */
  function TagCloseOnLine(s: string, from: nat): (r: Option<nat>)
    ensures r.Some? ==> from <= r.value < |s| && s[r.value] == '>'
    ensures r.Some? ==> forall q :: from <= q < r.value ==> s[q] != '>' && s[q] != '\n'
    ensures r.None? ==> forall q :: from <= q < |s| && s[q] == '>' ==> NewlineBetween(s, from, q)
    decreases |s| - from
  {
    if from >= |s| then None
    else if s[from] == '>' then Some(from)
    else if s[from] == '\n' then None
    else TagCloseOnLine(s, from + 1)
  }

  /** `re.sub(r"<.*?>", "", s)`: every tag removed, left to right. */
  function StripTags(s: string): (r: string)
    ensures |r| <= |s|
    ensures Lacks(s, '\n') ==> Lacks(r, '\n')
    ensures Lacks(s, '>') ==> Lacks(r, '>')
    ensures Lacks(s, '\n') ==> NoTag(r)
    decreases |s|
  {
    if s == [] then []
    else if s[0] == '<' && TagCloseOnLine(s, 1).Some? then
      var j := TagCloseOnLine(s, 1).value;
      StripTags(s[j + 1..])
    else
      var rest := StripTags(s[1..]);
      KeptCharNoTag(s, rest);
      [s[0]] + rest
  }

  /** Keeping the first character in front of the stripped rest keeps the
      result free of tags. */
  lemma {:induction false} KeptCharNoTag(s: string, rest: string)
    requires s != [] && !(s[0] == '<' && TagCloseOnLine(s, 1).Some?)
    requires Lacks(s[1..], '>') ==> Lacks(rest, '>')
    requires Lacks(s[1..], '\n') ==> NoTag(rest)
    ensures Lacks(s, '\n') ==> NoTag([s[0]] + rest)
  {
    var r := [s[0]] + rest;
    if Lacks(s, '\n') {
      assert Lacks(s[1..], '\n');
      if s[0] == '<' {
        assert Lacks(s[1..], '>');
      }
      assert forall j :: 0 < j < |r| ==> r[j] == rest[j - 1];
    }
  }

  /** Text without `<` in front is kept as it is: `StripTags` removes only
      what starts at a `<`. */
  lemma {:induction false} StripTagsKeepsPlainPrefix(x: string, y: string)
    requires Lacks(x, '<')
    ensures StripTags(x + y) == x + StripTags(y)
    decreases |x|
  {
    if x == [] {
      assert x + y == y;
    } else {
      var s := x + y;
      assert s[0] == x[0] && s[0] != '<';
      assert s[1..] == x[1..] + y;
      StripTagsKeepsPlainPrefix(x[1..], y);
      assert x == [x[0]] + x[1..];
    }
  }

  /** A tag `<t>` on one line is removed whole, with nothing else. */
  lemma {:induction false} StripTagsDropsTag(t: string, y: string)
    requires Lacks(t, '>') && Lacks(t, '\n')
    ensures StripTags("<" + t + ">" + y) == StripTags(y)
  {
    var s := "<" + t + ">" + y;
    forall q | 1 <= q < |t| + 1 ensures s[q] != '>' && s[q] != '\n' {
      assert s[q] == t[q - 1];
    }
    assert s[|t| + 1] == '>';
    assert TagCloseOnLine(s, 1) == Some(|t| + 1) by {
      TagCloseFirst(s, 1, |t| + 1);
    }
    assert s[|t| + 2..] == y;
  }

  /** The first `>` on the line is the one `TagCloseOnLine` finds. */
  lemma {:induction false} TagCloseFirst(s: string, from: nat, j: nat)
    requires from <= j < |s| && s[j] == '>'
    requires forall q :: from <= q < j ==> s[q] != '>' && s[q] != '\n'
    ensures TagCloseOnLine(s, from) == Some(j)
    decreases j - from
  {
    if from < j {
      TagCloseFirst(s, from + 1, j);
    }
  }

  /** A heading text wrapped in one tag on each side, such as
      `<b>Treatment Methods</b>`, loses both tags and keeps its words. */
  lemma {:induction false} StripTagsWrapped(t1: string, x: string, t2: string)
    requires Lacks(t1, '>') && Lacks(t1, '\n') && Lacks(t2, '>') && Lacks(t2, '\n')
    requires Lacks(x, '<')
    ensures StripTags("<" + t1 + ">" + x + "<" + t2 + ">") == x
  {
    var close := "<" + t2 + ">";
    assert "<" + t1 + ">" + x + "<" + t2 + ">" == "<" + t1 + ">" + (x + close);
    StripTagsDropsTag(t1, x + close);
    StripTagsKeepsPlainPrefix(x, close);
    assert close == "<" + t2 + ">" + [];
    StripTagsDropsTag(t2, []);
    assert x + [] == x;
  }

  /** A tag-free text stays tag-free when cut down to a slice. */
  lemma {:induction false} NoTagSlice(t: string, a: nat, b: nat)
    requires a <= b <= |t| && NoTag(t)
    ensures NoTag(t[a..b])
  {
    var u := t[a..b];
    forall i, j | 0 <= i < j < |u| && u[i] == '<' ensures u[j] != '>' {
      assert t[a + i] == '<' && u[j] == t[a + j];
    }
  }

  /** The title shown when a heading's text is empty once tags are gone. */
  const FallbackTitle: string := "Section"

  /** A title as the application keeps it: non-empty, already trimmed, on one
      line, and free of tags. */
  predicate WellFormedTitle(t: string) {
    t != [] && IsTrimmed(t) && Lacks(t, '\n') && NoTag(t)
  }

  /** Heading text to title: tags removed, whitespace trimmed, and an empty
      result replaced by the fallback. */
  function CleanTitle(raw: string): (r: string)
    requires Lacks(raw, '\n')
    ensures WellFormedTitle(r)
    ensures PyStrip(StripTags(raw)) == [] ==> r == FallbackTitle
    ensures PyStrip(StripTags(raw)) != [] ==> r == PyStrip(StripTags(raw))
  {
    var stripped := StripTags(raw);
    var t := PyStrip(stripped);
    TrimKeepsTitleShape(stripped);
    if t == [] then
      FallbackIsWellFormed();
      FallbackTitle
    else t
  }

  /** A text with no `>` has no tag to remove: every `<` in it opens
      nothing and is kept, as `re.sub(r"<.*?>", "", …)` keeps it. */
  lemma {:induction false} StripTagsKeepsUntagged(y: string)
    requires Lacks(y, '>')
    ensures StripTags(y) == y
    decreases |y|
  {
    if y != [] {
      assert TagCloseOnLine(y, 1).None?;
      StripTagsKeepsUntagged(y[1..]);
      assert y == [y[0]] + y[1..];
    }
  }

  /** A one-line trimmed heading with no `>` is its own title, whatever
      `<` it holds. */
  lemma {:induction false} UnclosedTitle(raw: string)
    requires Lacks(raw, '>') && Lacks(raw, '\n') && raw != [] && IsTrimmed(raw)
    ensures CleanTitle(raw) == raw
  {
    StripTagsKeepsUntagged(raw);
    TrimmedIsFixed(raw);
  }

  /** `a < b` keeps its `<`. */
  lemma {:induction false} ExampleLessThan(raw: string)
    requires raw == "a < b"
    ensures CleanTitle(raw) == raw
  {
    assert raw[0] == 'a' && raw[1] == ' ' && raw[2] == '<' && raw[3] == ' ' && raw[4] == 'b';
    UnclosedTitle(raw);
  }

  /** A title wrapped in one tag on each side, on one line, loses both tags
      and is kept as it is when it is trimmed and non-empty. */
  lemma {:induction false} WrappedTitle(t1: string, x: string, t2: string)
    requires Lacks(t1, '>') && Lacks(t1, '\n') && Lacks(t2, '>') && Lacks(t2, '\n')
    requires Lacks(x, '<') && Lacks(x, '\n') && x != [] && IsTrimmed(x)
    ensures Lacks("<" + t1 + ">" + x + "<" + t2 + ">", '\n')
    ensures CleanTitle("<" + t1 + ">" + x + "<" + t2 + ">") == x
  {
    var raw := "<" + t1 + ">" + x + "<" + t2 + ">";
    forall i | 0 <= i < |raw| ensures raw[i] != '\n' {
      if i == 0 || i == |t1| + 1 || i == |t1| + 2 + |x| || i == |raw| - 1 {
      } else if i <= |t1| {
        assert raw[i] == t1[i - 1];
      } else if i < |t1| + 2 + |x| {
        assert raw[i] == x[i - |t1| - 2];
      } else {
        assert raw[i] == t2[i - |t1| - 3 - |x|];
      }
    }
    StripTagsWrapped(t1, x, t2);
    TrimmedIsFixed(x);
  }

  /** The words of the example heading: non-empty, trimmed, one line, no
      `<`. */
  lemma {:induction false} ExampleName(name: string)
    requires name == "Treatment Methods"
    ensures Lacks(name, '<') && Lacks(name, '\n') && name != [] && IsTrimmed(name)
  {
  }

  /** `<h2><b>Treatment Methods</b></h2>` gives the title `Treatment
      Methods`: `t1` and `t2` are the tag names `b` and `/b`. */
  lemma {:induction false} ExampleBoldTitle(raw: string, name: string, t1: string, t2: string)
    requires name == "Treatment Methods" && t1 == "b" && t2 == "/b"
    requires raw == "<" + t1 + ">" + name + "<" + t2 + ">"
    ensures Lacks(raw, '\n') && CleanTitle(raw) == name
  {
    ExampleName(name);
    WrappedTitle(t1, name, t2);
  }

  lemma {:induction false} FallbackIsWellFormed()
    ensures WellFormedTitle(FallbackTitle)
  {
  }

  /** Trimming a one-line, tag-free text gives a well-formed title unless
      nothing is left. */
  lemma {:induction false} TrimKeepsTitleShape(x: string)
    requires Lacks(x, '\n') && NoTag(x)
    ensures PyStrip(x) != [] ==> WellFormedTitle(PyStrip(x))
  {
    var t := PyStrip(x);
    var ab := StripBounds(x, PyWhitespace);
    assert t == x[ab.0..ab.1];
    NoTagSlice(x, ab.0, ab.1);
    forall i | 0 <= i < |t| ensures t[i] != '\n' {
      assert t[i] == x[ab.0 + i];
    }
  }

  /** No `<h2[^>]*>` opening tag occurs in `t`. */
  predicate NoOpenTag(t: string) {
    forall p: nat, q :: p + 3 <= q < |t| && OpenAt(t, p) ==> t[q] != '>'
  }

  /** A body as the application keeps it: trimmed, with no opening heading
      tag inside. */
  predicate WellFormedBody(b: string) {
    IsTrimmed(b) && NoOpenTag(b)
  }

  /** The title and body bounds of `m` lie inside `s` and the title is on
      one line. */
  predicate WellPlaced(s: string, m: Match) {
    m.titleStart <= m.titleEnd && m.titleEnd + 5 <= m.bodyEnd <= |s|
    && (forall q :: m.titleStart <= q < m.titleEnd ==> s[q] != '\n')
  }

  lemma {:induction false} ValidIsWellPlaced(s: string, m: Match)
    requires ValidMatch(s, m)
    ensures WellPlaced(s, m)
  {
    assert HeadingMatches(s, m);
  }

  lemma {:induction false} TitleOnOneLine(s: string, m: Match)
    requires WellPlaced(s, m)
    ensures Lacks(s[m.titleStart..m.titleEnd], '\n')
  {
    var t := s[m.titleStart..m.titleEnd];
    forall i | 0 <= i < |t| ensures t[i] != '\n' {
      assert t[i] == s[m.titleStart + i];
    }
  }

  /** The title of the section a match stands for: the heading text,
      cleaned. */
  function SectionTitle(s: string, m: Match): (r: string)
    requires WellPlaced(s, m)
    ensures WellFormedTitle(r)
  {
    TitleOnOneLine(s, m);
    CleanTitle(s[m.titleStart..m.titleEnd])
  }

  /** The body of the section a match stands for: the text after `</h2>` up
      to the match end, trimmed. */
  function SectionBody(s: string, m: Match): (r: string)
    requires m.titleEnd + 5 <= m.bodyEnd <= |s|
    ensures IsTrimmed(r) && |r| <= m.bodyEnd - (m.titleEnd + 5)
  {
    PyStrip(s[m.titleEnd + 5..m.bodyEnd])
  }

  /** The section a match stands for. */
  function SectionOf(s: string, m: Match): (r: Section)
    requires WellPlaced(s, m)
    ensures WellFormedTitle(r.title) && IsTrimmed(r.body)
  {
    Section(SectionTitle(s, m), SectionBody(s, m))
  }

  /** A stretch of text in which no opening tag starts has none as a slice. */
  lemma {:induction false} NoOpenTagInRange(s: string, lo: nat, hi: nat)
    requires lo <= hi <= |s|
    requires forall at :: lo <= at < hi ==> OpenTagEnd(s, at).None?
    ensures NoOpenTag(s[lo..hi])
  {
    var t := s[lo..hi];
    forall p: nat, q | p + 3 <= q < |t| && OpenAt(t, p) ensures t[q] != '>' {
      var at := lo + p;
      assert t[p] == s[at] && t[p + 1] == s[at + 1] && t[p + 2] == s[at + 2];
      assert OpenTagEnd(s, at).None?;
      assert t[q] == s[lo + q];
    }
  }

  /** The lazy body stops before the first opening heading tag, so the text
      it spans holds none. */
  lemma {:induction false} BodyHasNoOpenTag(s: string, m: Match)
    requires m.titleEnd + 5 <= m.bodyEnd <= |s|
    requires forall p :: m.titleEnd + 5 <= p < m.bodyEnd ==> !IsBoundary(s, p)
    ensures NoOpenTag(s[m.titleEnd + 5..m.bodyEnd])
  {
    var a := m.titleEnd + 5;
    forall at | a <= at < m.bodyEnd ensures OpenTagEnd(s, at).None? {
      assert !IsBoundary(s, at);
    }
    NoOpenTagInRange(s, a, m.bodyEnd);
  }

  /** Trimming text without an opening heading tag leaves none. */
  lemma {:induction false} StripKeepsNoOpenTag(u: string)
    requires NoOpenTag(u)
    ensures NoOpenTag(PyStrip(u))
  {
    var ab := StripBounds(u, PyWhitespace);
    NoOpenTagSlice(u, ab.0, ab.1);
  }

  lemma {:induction false} NoOpenTagSlice(t: string, a: nat, b: nat)
    requires a <= b <= |t| && NoOpenTag(t)
    ensures NoOpenTag(t[a..b])
  {
    var u := t[a..b];
    forall p: nat, q | p + 3 <= q < |u| && OpenAt(u, p) ensures u[q] != '>' {
      assert u[p] == t[a + p] && u[p + 1] == t[a + p + 1] && u[p + 2] == t[a + p + 2];
      assert OpenAt(t, a + p);
      assert u[q] == t[a + q];
    }
  }

  /** `extract_sections`: one (title, body) pair per heading match, in
      document order. */
  function ExtractSections(html: string): (r: seq<Section>)
    ensures |r| == |Headings(html)|
    ensures forall k :: 0 <= k < |r| ==> r[k] == SectionOf(html, Headings(html)[k])
    ensures r == [] <==> forall m: Match :: !ValidMatch(html, m)
  {
    var ms := Headings(html);
    AllWellPlaced(html, ms);
    NoHeadingsIff(html);
    seq(|ms|, k requires 0 <= k < |ms| => SectionOf(html, ms[k]))
  }

  /** Every extracted title is non-empty, trimmed, on one line and free of
      tags, and every extracted body is trimmed and holds no opening
      heading tag. */
  lemma {:induction false} ExtractedShape(html: string)
    ensures forall k :: 0 <= k < |ExtractSections(html)| ==> WellFormedTitle(ExtractSections(html)[k].title)
    ensures forall k :: 0 <= k < |ExtractSections(html)| ==> WellFormedBody(ExtractSections(html)[k].body)
  {
    var ms := Headings(html);
    AllWellPlaced(html, ms);
    SectionsShape(html, ms, ExtractSections(html));
  }

  lemma {:induction false} AllWellPlaced(html: string, ms: seq<Match>)
    requires forall k :: 0 <= k < |ms| ==> ValidMatch(html, ms[k])
    ensures forall k :: 0 <= k < |ms| ==> WellPlaced(html, ms[k])
  {
    forall k | 0 <= k < |ms| ensures WellPlaced(html, ms[k]) {
      ValidIsWellPlaced(html, ms[k]);
    }
  }

  lemma {:induction false} SectionsShape(html: string, ms: seq<Match>, r: seq<Section>)
    requires forall k :: 0 <= k < |ms| ==> ValidMatch(html, ms[k])
    requires forall k :: 0 <= k < |ms| ==> WellPlaced(html, ms[k])
    requires |r| == |ms| && forall k :: 0 <= k < |r| ==> r[k] == SectionOf(html, ms[k])
    ensures forall k :: 0 <= k < |r| ==> WellFormedTitle(r[k].title)
    ensures forall k :: 0 <= k < |r| ==> WellFormedBody(r[k].body)
  {
    forall k | 0 <= k < |r| ensures WellFormedTitle(r[k].title) && WellFormedBody(r[k].body) {
      SectionShape(html, ms[k]);
    }
  }

  lemma {:induction false} SectionShape(html: string, m: Match)
    requires ValidMatch(html, m) && WellPlaced(html, m)
    ensures WellFormedTitle(SectionOf(html, m).title)
    ensures WellFormedBody(SectionOf(html, m).body)
  {
    assert BodyMatches(html, m);
    BodyHasNoOpenTag(html, m);
    BodyShape(html, m);
  }

  lemma {:induction false} BodyShape(html: string, m: Match)
    requires m.titleEnd + 5 <= m.bodyEnd <= |html|
    requires NoOpenTag(html[m.titleEnd + 5..m.bodyEnd])
    ensures WellFormedBody(SectionBody(html, m))
  {
    var u := html[m.titleEnd + 5..m.bodyEnd];
    var b := SectionBody(html, m);
    assert b == PyStrip(u);
    TrimmedBodyShape(u);
  }

  /** Trimming text that holds no opening heading tag gives a well-formed
      body. */
  lemma {:induction false} TrimmedBodyShape(u: string)
    requires NoOpenTag(u)
    ensures WellFormedBody(PyStrip(u))
  {
    StripKeepsNoOpenTag(u);
  }

  /** Every match of the expression at or after `from` is spanned by the
      match list, so `finditer` cannot miss one. */
  lemma {:induction false} ValidMatchCovered(s: string, from: nat, ms: seq<Match>, m: Match)
    requires IsMatchList(s, from, ms) && ValidMatch(s, m) && from <= m.start
    ensures Covered(ms, m.start)
  {
    assert MatchAt(s, m.start) == Some(m);
  }

  /** The document has no heading match exactly when `finditer` yields none. */
  lemma {:induction false} NoHeadingsIff(html: string)
    ensures Headings(html) == [] <==> forall m: Match :: !ValidMatch(html, m)
  {
    var ms := Headings(html);
    if ms == [] {
      forall m: Match ensures !ValidMatch(html, m) {
        if ValidMatch(html, m) {
          ValidMatchCovered(html, 0, ms, m);
        }
      }
    } else {
      assert ValidMatch(html, ms[0]);
    }
  }
}
