/** Which extracted section is the newsletter's overview. A heading counts
    as an overview when its lower-cased letters, with everything else
    dropped, spell `overview`, `summary` or `executivesummary`, or contain
    `overview`. The overview is the first such section, or else the first
    section of all. */
module Overview {
  import opened Wrappers
  import opened Text
  import opened Sections

  /** `re.sub(r"[^a-z]", "", s)`: only the lower-case ASCII letters, in
      order. */
  function Letters(s: string): (r: string)
    ensures |r| <= |s|
    ensures forall i :: 0 <= i < |r| ==> IsLowerLetter(r[i])
    decreases |s|
  {
    if s == [] then []
    else (if IsLowerLetter(s[0]) then [s[0]] else []) + Letters(s[1..])
  }

  /** Dropping non-letters works piece by piece. */
  lemma {:induction false} LettersAppend(a: string, b: string)
    ensures Letters(a + b) == Letters(a) + Letters(b)
    decreases |a|
  {
    if a == [] {
      assert a + b == b;
    } else {
      assert (a + b)[0] == a[0];
      assert (a + b)[1..] == a[1..] + b;
      LettersAppend(a[1..], b);
    }
  }

  /** Text made of lower-case letters only is kept whole. */
  lemma {:induction false} LettersKeepsLetters(s: string)
    requires forall i :: 0 <= i < |s| ==> IsLowerLetter(s[i])
    ensures Letters(s) == s
    decreases |s|
  {
    if s != [] {
      LettersKeepsLetters(s[1..]);
      assert s == [s[0]] + s[1..];
    }
  }

  /** Lower-casing works piece by piece. */
  lemma {:induction false} LowerAppend(a: string, b: string)
    ensures Lower(a + b) == Lower(a) + Lower(b)
  {
    var l := Lower(a + b);
    forall i | 0 <= i < |l| ensures l[i] == (Lower(a) + Lower(b))[i] {
      if i < |a| {
        assert (a + b)[i] == a[i];
      } else {
        assert (a + b)[i] == b[i - |a|];
      }
    }
  }

  /** The heading text the overview test looks at. */
  function Normalize(title: string): (n: string)
    ensures |n| <= |title|
    ensures forall i :: 0 <= i < |n| ==> IsLowerLetter(n[i])
  {
    Letters(Lower(title))
  }

  /** `is_overview_title`. A passing title has at least the seven letters
      of `summary`, and every title whose letters start with `overview`
      passes. */
  predicate IsOverviewTitle(title: string)
    ensures IsOverviewTitle(title) ==> |Normalize(title)| >= 7
    ensures StartsWith(Normalize(title), "overview") ==> IsOverviewTitle(title)
  {
    var n := Normalize(title);
    n == "overview" || n == "summary" || n == "executivesummary" || Contains(n, "overview")
  }

  /** The test ignores case: two titles that agree once lower-cased get the
      same answer. */
  lemma {:induction false} OverviewIgnoresCase(t: string, u: string)
    requires |t| == |u|
    requires forall i :: 0 <= i < |t| ==> LowerChar(t[i]) == LowerChar(u[i])
    ensures IsOverviewTitle(t) <==> IsOverviewTitle(u)
  {
    assert Lower(t) == Lower(u);
  }

  /** Normalizing works piece by piece. */
  lemma {:induction false} NormalizeAppend(a: string, b: string)
    ensures Normalize(a + b) == Normalize(a) + Normalize(b)
  {
    LowerAppend(a, b);
    LettersAppend(Lower(a), Lower(b));
  }

  /** A single character normalizes to its lower-case letter, or to nothing. */
  lemma {:induction false} NormalizeChar(c: char)
    ensures Normalize([c]) == if IsLowerLetter(LowerChar(c)) then [LowerChar(c)] else []
  {
    var l := Lower([c]);
    assert l == [LowerChar(c)];
    assert l[1..] == [];
  }

  /** The test ignores punctuation, digits and spaces: inserting a character
      that is not a letter anywhere in a title never changes the answer. */
  lemma {:induction false} OverviewIgnoresNonLetters(a: string, c: char, b: string)
    requires !IsLowerLetter(LowerChar(c))
    ensures IsOverviewTitle(a + [c] + b) <==> IsOverviewTitle(a + b)
  {
    assert Normalize(a + [c] + b) == Normalize(a + b) by {
      NormalizeAppend(a + [c], b);
      NormalizeAppend(a, [c]);
      NormalizeAppend(a, b);
      NormalizeChar(c);
      assert Normalize(a) + [] == Normalize(a);
    }
  }

  /** A normalized title that starts with `overview` passes the test. */
  lemma {:induction false} StartsWithOverview(n: string)
    requires StartsWith(n, "overview")
    ensures Contains(n, "overview")
  {
    assert FindFrom(n, "overview", 0) == Some(0);
  }

  /** Normalizing a word of letters only just lower-cases it. */
  lemma {:induction false} NormalizeWord(word: string, lw: string)
    requires Lower(word) == lw
    requires forall i :: 0 <= i < |lw| ==> IsLowerLetter(lw[i])
    ensures Normalize(word) == lw
  {
    LettersKeepsLetters(lw);
  }

  /** Normalizing two words separated by a space joins them. */
  lemma {:induction false} NormalizeTwoWords(w1: string, w2: string, l1: string, l2: string)
    requires Lower(w1) == l1 && Lower(w2) == l2
    requires forall i :: 0 <= i < |l1| ==> IsLowerLetter(l1[i])
    requires forall i :: 0 <= i < |l2| ==> IsLowerLetter(l2[i])
    ensures Normalize(w1 + " " + w2) == l1 + l2
  {
    NormalizeAppend(w1 + " ", w2);
    NormalizeAppend(w1, " ");
    NormalizeChar(' ');
    NormalizeWord(w1, l1);
    NormalizeWord(w2, l2);
    assert l1 + [] == l1;
  }

  // The examples below take their string literals as parameters
  // (`requires t == "OVERVIEW"`) rather than writing them into the
  // contract. Applied to a literal directly, the recursive `Lower` and
  // `Letters` are unfolded by the solver over the whole constant, which is
  // far more costly than the general lemmas above with one short fact per
  // literal.

  lemma {:induction false} ExampleUpper(t: string)
    requires t == "OVERVIEW"
    ensures IsOverviewTitle(t)
  {
    assert Lower(t) == "overview";
    NormalizeWord(t, "overview");
  }

  lemma {:induction false} ExampleSummary(t: string, w: string)
    requires t == "SUMMARY:" && w == "SUMMARY"
    ensures IsOverviewTitle(t)
  {
    assert t == w + [':'];
    assert Lower(w) == "summary";
    NormalizeAppend(w, [':']);
    NormalizeWord(w, "summary");
    NormalizeChar(':');
    assert "summary" + [] == "summary";
  }

  lemma {:induction false} LowerOverview(w: string)
    requires w == "Overview"
    ensures Lower(w) == "overview"
  {
  }

  lemma {:induction false} NormalizeColon(t: string, w: string)
    requires t == w + [':'] && w == "Overview"
    ensures Normalize(t) == "overview"
  {
    LowerOverview(w);
    NormalizeAppend(w, [':']);
    NormalizeWord(w, "overview");
    NormalizeChar(':');
  }

  lemma {:induction false} ExampleColon(t: string)
    requires t == "Overview:"
    ensures IsOverviewTitle(t)
  {
    NormalizeColon(t, "Overview");
  }

  lemma {:induction false} ExampleExecutive(t: string, w1: string, w2: string)
    requires t == "Executive Summary" && w1 == "Executive" && w2 == "Summary"
    ensures IsOverviewTitle(t)
  {
    assert Lower(w1) == "executive";
    assert Lower(w2) == "summary";
    assert t == w1 + " " + w2;
    NormalizeTwoWords(w1, w2, "executive", "summary");
    assert "executive" + "summary" == "executivesummary";
  }

  lemma {:induction false} ExampleWeekly(t: string, w1: string, w2: string)
    requires t == "Weekly Overview" && w1 == "Weekly" && w2 == "Overview"
    ensures IsOverviewTitle(t)
  {
    assert Lower(w1) == "weekly";
    assert Lower(w2) == "overview";
    assert t == w1 + " " + w2;
    NormalizeTwoWords(w1, w2, "weekly", "overview");
    var n := "weekly" + "overview";
    assert MatchesAt(n, 6, "overview");
    assert FindFrom(n, "overview", 0).Some?;
  }

  /** `marketsummary` is not `summary` and holds no `overview`. */
  lemma {:induction false} NotOverviewText(n: string)
    requires n == "market" + "summary"
    ensures n != "overview" && n != "summary" && n != "executivesummary"
    ensures !Contains(n, "overview")
  {
    assert n == "marketsummary";
    forall j: nat | j + 8 <= |n| ensures !MatchesAt(n, j, "overview") {
      var k := 0;
      assert n[j + k] != "overview"[k];
    }
  }

  lemma {:induction false} ExampleMarket(t: string, w1: string, w2: string)
    requires t == "Market Summary" && w1 == "Market" && w2 == "Summary"
    ensures !IsOverviewTitle(t)
  {
    assert Lower(w1) == "market";
    assert Lower(w2) == "summary";
    assert t == w1 + " " + w2;
    NormalizeTwoWords(w1, w2, "market", "summary");
    NotOverviewText("market" + "summary");
  }

  /** Normalizing three words separated by spaces joins them. */
  lemma {:induction false} NormalizeThreeWords(w1: string, w2: string, w3: string,
                                               l1: string, l2: string, l3: string)
    requires Lower(w1) == l1 && Lower(w2) == l2 && Lower(w3) == l3
    requires forall i :: 0 <= i < |l1| ==> IsLowerLetter(l1[i])
    requires forall i :: 0 <= i < |l2| ==> IsLowerLetter(l2[i])
    requires forall i :: 0 <= i < |l3| ==> IsLowerLetter(l3[i])
    ensures Normalize(w1 + " " + w2 + " " + w3) == l1 + l2 + l3
  {
    NormalizeAppend(w1 + " " + w2 + " ", w3);
    NormalizeAppend(w1 + " " + w2, " ");
    NormalizeTwoWords(w1, w2, l1, l2);
    NormalizeChar(' ');
    NormalizeWord(w3, l3);
    assert l1 + l2 + [] == l1 + l2;
  }

  /** The substring rule is loose: a plural heading passes too. */
  lemma {:induction false} ExamplePlural(t: string, w1: string, w2: string, w3: string)
    requires t == "Overviews of Markets" && w1 == "Overviews" && w2 == "of" && w3 == "Markets"
    ensures IsOverviewTitle(t)
  {
    assert Lower(w1) == "overviews";
    assert Lower(w2) == "of";
    assert Lower(w3) == "markets";
    assert t == w1 + " " + w2 + " " + w3;
    NormalizeThreeWords(w1, w2, w3, "overviews", "of", "markets");
    var n := "overviews" + "of" + "markets";
    assert MatchesAt(n, 0, "overview");
    StartsWithOverview(n);
  }

  /** `summaryofresults` is not `summary` and holds no `overview`. */
  lemma {:induction false} NotOverviewResults(n: string)
    requires n == "summary" + "of" + "results"
    ensures n != "overview" && n != "summary" && n != "executivesummary"
    ensures !Contains(n, "overview")
  {
    assert n == "summaryofresults";
    forall j: nat | j + 8 <= |n| ensures !MatchesAt(n, j, "overview") {
      if n[j] != 'o' {
        assert n[j + 0] != "overview"[0];
      } else {
        assert n[j + 1] != "overview"[1];
      }
    }
  }

  /** A heading that merely starts with `Summary` does not pass. */
  lemma {:induction false} ExampleResults(t: string, w1: string, w2: string, w3: string)
    requires t == "Summary of Results" && w1 == "Summary" && w2 == "of" && w3 == "Results"
    ensures !IsOverviewTitle(t)
  {
    assert Lower(w1) == "summary";
    assert Lower(w2) == "of";
    assert Lower(w3) == "results";
    assert t == w1 + " " + w2 + " " + w3;
    NormalizeThreeWords(w1, w2, w3, "summary", "of", "results");
    NotOverviewResults("summary" + "of" + "results");
  }

  /** Index of the first overview section at or after `from`. */
  function FirstOverviewFrom(secs: seq<Section>, from: nat): (r: Option<nat>)
    requires from <= |secs|
    ensures r.Some? ==> from <= r.value < |secs| && IsOverviewTitle(secs[r.value].title)
    ensures r.Some? ==> forall j :: from <= j < r.value ==> !IsOverviewTitle(secs[j].title)
    ensures r.None? ==> forall j :: from <= j < |secs| ==> !IsOverviewTitle(secs[j].title)
    decreases |secs| - from
  {
    if from == |secs| then None
    else if IsOverviewTitle(secs[from].title) then Some(from)
    else FirstOverviewFrom(secs, from + 1)
  }

  /** The overview pair: the first section whose title passes the test, else
      the first section, else none. */
  function SelectOverview(secs: seq<Section>): (r: Option<Section>)
    ensures r.None? <==> secs == []
    ensures forall i ::
      (0 <= i < |secs| && IsOverviewTitle(secs[i].title) &&
       (forall j :: 0 <= j < i ==> !IsOverviewTitle(secs[j].title))) ==> r == Some(secs[i])
    ensures secs != [] && (forall j :: 0 <= j < |secs| ==> !IsOverviewTitle(secs[j].title))
      ==> r == Some(secs[0])
  {
    match FirstOverviewFrom(secs, 0)
    case Some(i) => Some(secs[i])
    case None => if secs == [] then None else Some(secs[0])
  }
}
