/** The panel for the selected topic: a heading, the topic's body (the
    newsletter section with exactly that title, else the summary text),
    its bullet points and its further-reading links. */
module Panel {
  import opened Wrappers
  import opened Text
  import opened Sections
  import opened Artifacts
  import opened Topics
  import opened Theme

  // ---------------------------------------------------------------- links

  /** Index of the last record named `name` among the first `n`. */
  function LastIndexFor(ts: seq<RawTopicItems>, name: string, n: nat): (r: Option<nat>)
    requires n <= |ts|
    ensures r.Some? ==> r.value < n && ts[r.value].topic == name
    ensures r.Some? ==> forall j :: r.value < j < n ==> ts[j].topic != name
    ensures r.None? ==> forall j :: 0 <= j < n ==> ts[j].topic != name
  {
    if n == 0 then None
    else if ts[n - 1].topic == name then Some(n - 1)
    else LastIndexFor(ts, name, n - 1)
  }

  /** `topic_to_items` after the first `n` records: records without a name
      are skipped, and a later record for a name replaces an earlier one. */
  function ItemsUpTo(ts: seq<RawTopicItems>, n: nat): (m: map<string, seq<RawNewsItem>>)
    requires n <= |ts|
    ensures "" !in m
  {
    if n == 0 then map[]
    else
      var m := ItemsUpTo(ts, n - 1);
      if ts[n - 1].topic != "" then m[ts[n - 1].topic := ts[n - 1].items] else m
  }

  /** The map holds a name exactly when some record has it, and holds the
      articles of the last such record. */
  lemma {:induction false} ItemsUpToLast(ts: seq<RawTopicItems>, n: nat, name: string)
    requires n <= |ts| && name != ""
    ensures name in ItemsUpTo(ts, n) <==> LastIndexFor(ts, name, n).Some?
    ensures name in ItemsUpTo(ts, n) ==>
      ItemsUpTo(ts, n)[name] == ts[LastIndexFor(ts, name, n).value].items
  {
    if n > 0 && ts[n - 1].topic != name {
      ItemsUpToLast(ts, n - 1, name);
    }
  }

  /** The articles listed for `selected`: those of the last fetch record
      with that name, none when there is no such record or no fetch
      artifact. */
  function ArticlesFor(fetch: Option<RawFetch>, selected: string): (r: seq<RawNewsItem>)
    ensures fetch.None? || selected == "" ==> r == []
    ensures fetch.Some? && selected != "" ==>
      var last := LastIndexFor(fetch.value.topics, selected, |fetch.value.topics|);
      && (last.None? ==> r == [])
      && (last.Some? ==> r == fetch.value.topics[last.value].items)
  {
    match fetch
    case None => []
    case Some(f) =>
      var m := ItemsUpTo(f.topics, |f.topics|);
      if selected == "" then []
      else
        ItemsUpToLast(f.topics, |f.topics|, selected);
        if selected in m then m[selected] else []
  }

  /** One further-reading link: its text and its target. */
  datatype Link = Link(text: string, url: string)

  /** The link an article gives, if any: articles without a URL give none,
      and an article without a title is labelled with its URL. */
  function LinkOf(it: RawNewsItem): (r: Option<Link>)
    ensures r.Some? <==> it.url != ""
    ensures r.Some? ==> r.value.url == it.url && r.value.text != ""
    ensures r.Some? && it.title != "" ==> r.value.text == it.title
    ensures r.Some? && it.title == "" ==> r.value.text == it.url
  {
    if it.url == "" then None
    else Some(Link(if it.title != "" then it.title else it.url, it.url))
  }

  /** The links of a list of articles, in order. */
  function Links(items: seq<RawNewsItem>): (r: seq<Link>)
    ensures |r| <= |items|
    ensures forall k :: 0 <= k < |r| ==> r[k].url != "" && r[k].text != ""
    decreases |items|
  {
    if items == [] then []
    else
      (match LinkOf(items[0]) case Some(l) => [l] case None => []) + Links(items[1..])
  }

  /** No link is invented: every link is the link of one of the articles. */
  lemma {:induction false} LinksFromArticles(items: seq<RawNewsItem>)
    ensures forall l :: l in Links(items) ==> exists k :: 0 <= k < |items| && LinkOf(items[k]) == Some(l)
    decreases |items|
  {
    if items != [] {
      var rest := Links(items[1..]);
      LinksFromArticles(items[1..]);
      forall l | l in Links(items) ensures exists k :: 0 <= k < |items| && LinkOf(items[k]) == Some(l) {
        if l in rest {
          var j :| 0 <= j < |items[1..]| && LinkOf(items[1..][j]) == Some(l);
          assert LinkOf(items[j + 1]) == Some(l);
        } else {
          assert LinkOf(items[0]) == Some(l);
        }
      }
    }
  }

  /** A single article gives its own link when it has a URL and nothing
      otherwise; with `LinksAppend` this fixes the links of every list. */
  lemma {:induction false} LinksOne(it: RawNewsItem)
    ensures Links([it]) == if it.url == "" then [] else [LinkOf(it).value]
  {
    assert [it][1..] == [];
  }

  /** Links are produced article by article. */
  lemma {:induction false} LinksAppend(a: seq<RawNewsItem>, b: seq<RawNewsItem>)
    ensures Links(a + b) == Links(a) + Links(b)
    decreases |a|
  {
    if a == [] {
      assert a + b == b;
    } else {
      assert (a + b)[0] == a[0];
      assert (a + b)[1..] == a[1..] + b;
      LinksAppend(a[1..], b);
    }
  }

  /** When every article has a URL, each gives exactly its own link, in
      order. */
  lemma {:induction false} LinksAllKept(items: seq<RawNewsItem>)
    requires forall k :: 0 <= k < |items| ==> items[k].url != ""
    ensures |Links(items)| == |items|
    ensures forall k :: 0 <= k < |items| ==> Some(Links(items)[k]) == LinkOf(items[k])
    decreases |items|
  {
    if items != [] {
      LinksAllKept(items[1..]);
    }
  }

  /** The further-reading block: absent when the topic has no articles,
      otherwise the links of its articles (possibly none, when no article
      has a URL). */
  function FurtherReading(fetch: Option<RawFetch>, selected: string): (r: Option<seq<Link>>)
    ensures r.None? <==> ArticlesFor(fetch, selected) == []
    ensures r.Some? ==> r.value == Links(ArticlesFor(fetch, selected))
  {
    var items := ArticlesFor(fetch, selected);
    if items == [] then None else Some(Links(items))
  }

  // -------------------------------------------------------------- bullets

  function BulletLine(b: string): string {
    "- " + b
  }

  /** The bullet list as markdown: one `- ` line per bullet, joined by
      newlines. */
  function BulletText(bs: seq<string>): (r: string)
    ensures bs == [] <==> r == []
    decreases |bs|
  {
    if bs == [] then []
    else if |bs| == 1 then BulletLine(bs[0])
    else BulletLine(bs[0]) + "\n" + BulletText(bs[1..])
  }

  /** The lines of a text, split at every newline. */
  function SplitLines(s: string): (r: seq<string>)
    ensures r != []
    ensures forall k :: 0 <= k < |r| ==> Lacks(r[k], '\n')
    decreases |s|
  {
    match IndexFrom(s, '\n', 0)
    case None => [s]
    case Some(i) =>
      assert Lacks(s[..i], '\n');
      [s[..i]] + SplitLines(s[i + 1..])
  }

  /** Splitting a line, a newline and more text. */
  lemma {:induction false} SplitAtFirstLine(line: string, rest: string)
    requires Lacks(line, '\n')
    ensures SplitLines(line + "\n" + rest) == [line] + SplitLines(rest)
  {
    var s := line + "\n" + rest;
    assert s[|line|] == '\n';
    assert IndexFrom(s, '\n', 0) == Some(|line|);
    assert s[..|line|] == line;
    assert s[|line| + 1..] == rest;
  }

  lemma {:induction false} BulletLineLacks(b: string)
    requires Lacks(b, '\n')
    ensures Lacks(BulletLine(b), '\n')
  {
  }

  /** Splitting the bullet markdown at newlines gives back one `- ` line per
      bullet, as long as no bullet holds a newline of its own. */
  lemma {:induction false} BulletTextLines(bs: seq<string>)
    requires bs != []
    requires forall k :: 0 <= k < |bs| ==> Lacks(bs[k], '\n')
    ensures |SplitLines(BulletText(bs))| == |bs|
    ensures forall k :: 0 <= k < |bs| ==> SplitLines(BulletText(bs))[k] == BulletLine(bs[k])
    decreases |bs|
  {
    BulletLineLacks(bs[0]);
    if |bs| == 1 {
      assert IndexFrom(BulletLine(bs[0]), '\n', 0).None?;
    } else {
      BulletTextLines(bs[1..]);
      SplitAtFirstLine(BulletLine(bs[0]), BulletText(bs[1..]));
    }
  }

  // ---------------------------------------------------------------- panel

  /** Index of the first summary record for `selected`. */
  function FirstSummaryFor(topics: seq<RawTopicSummary>, selected: string, from: nat): (r: Option<nat>)
    requires from <= |topics|
    ensures r.Some? ==> from <= r.value < |topics| && topics[r.value].topic == selected
    ensures r.Some? ==> forall j :: from <= j < r.value ==> topics[j].topic != selected
    ensures r.None? ==> forall j :: from <= j < |topics| ==> topics[j].topic != selected
    decreases |topics| - from
  {
    if from == |topics| then None
    else if topics[from].topic == selected then Some(from)
    else FirstSummaryFor(topics, selected, from + 1)
  }

  /** Index of the first section titled exactly `selected`. */
  function FirstSectionFor(secs: seq<Section>, selected: string, from: nat): (r: Option<nat>)
    requires from <= |secs|
    ensures r.Some? ==> from <= r.value < |secs| && secs[r.value].title == selected
    ensures r.Some? ==> forall j :: from <= j < r.value ==> secs[j].title != selected
    ensures r.None? ==> forall j :: from <= j < |secs| ==> secs[j].title != selected
    decreases |secs| - from
  {
    if from == |secs| then None
    else if secs[from].title == selected then Some(from)
    else FirstSectionFor(secs, selected, from + 1)
  }

  const SummaryTextOpen: string := "<div style='font-size:20px; line-height:1.75'>"
  const SummaryTextClose: string := "</div>"

  /** What the panel shows as the topic's body. */
  datatype PanelBody =
    | HtmlBody(html: string)
    | TextBody(html: string)
    | NoBody

  /** The selected topic's panel. */
  datatype TopicPanel = TopicPanel(
    heading: string,
    body: PanelBody,
    bullets: Option<string>,
    reading: Option<seq<Link>>)

  /** The panel body: the styled section body when the first section with
      the topic's exact title has a non-empty body, else the summary text
      in a larger font when there is one, else nothing. */
  function BodyFor(secs: seq<Section>, selected: string, summary: string, css: string): (r: PanelBody)
    ensures r.HtmlBody? <==>
      FirstSectionFor(secs, selected, 0).Some? && secs[FirstSectionFor(secs, selected, 0).value].body != ""
    ensures r.HtmlBody? ==>
      r.html == StyleSummaryHtml(css, Some(secs[FirstSectionFor(secs, selected, 0).value].body))
    ensures r.TextBody? <==> !r.HtmlBody? && summary != ""
    ensures r.TextBody? ==> r.html == SummaryTextOpen + summary + SummaryTextClose
  {
    var body := match FirstSectionFor(secs, selected, 0)
      case Some(k) => secs[k].body
      case None => "";
    if body != "" then HtmlBody(StyleSummaryHtml(css, Some(body)))
    else if summary != "" then TextBody(SummaryTextOpen + summary + SummaryTextClose)
    else NoBody
  }

  /** The panel for the selected topic: shown only when a topic is selected
      and some summary record names it; the first such record supplies the
      summary text and the bullets. */
  function BuildPanel(selected: Option<string>, topics: seq<RawTopicSummary>, secs: seq<Section>,
                      fetch: Option<RawFetch>, css: string): (r: Option<TopicPanel>)
    ensures r.Some? <==>
      Chosen(selected) && exists i :: 0 <= i < |topics| && topics[i].topic == selected.value
    ensures r.Some? ==>
      var t := topics[FirstSummaryFor(topics, selected.value, 0).value];
      && r.value.heading == "Summary: " + selected.value
      && r.value.body == BodyFor(secs, selected.value, t.summary, css)
      && (r.value.bullets.Some? <==> t.bullets != [])
      && (r.value.bullets.Some? ==> r.value.bullets.value == BulletText(t.bullets))
      && r.value.reading == FurtherReading(fetch, selected.value)
  {
    if !Chosen(selected) then None
    else
      match FirstSummaryFor(topics, selected.value, 0)
      case None => None
      case Some(i) =>
        var t := topics[i];
        Some(TopicPanel(
          "Summary: " + selected.value,
          BodyFor(secs, selected.value, t.summary, css),
          if t.bullets != [] then Some(BulletText(t.bullets)) else None,
          FurtherReading(fetch, selected.value)))
  }

  /** Only the first summary record for a topic matters: records appended
      after it do not change the panel. */
  lemma {:induction false} LaterRecordsIgnored(selected: Option<string>, topics: seq<RawTopicSummary>,
                                               more: seq<RawTopicSummary>, secs: seq<Section>,
                                               fetch: Option<RawFetch>, css: string)
    requires BuildPanel(selected, topics, secs, fetch, css).Some?
    ensures BuildPanel(selected, topics + more, secs, fetch, css) == BuildPanel(selected, topics, secs, fetch, css)
  {
    var i := FirstSummaryFor(topics, selected.value, 0).value;
    FirstSummaryPrefix(topics, more, selected.value, 0);
    assert (topics + more)[i] == topics[i];
  }

  lemma {:induction false} FirstSummaryPrefix(topics: seq<RawTopicSummary>, more: seq<RawTopicSummary>,
                                              selected: string, from: nat)
    requires from <= |topics|
    requires FirstSummaryFor(topics, selected, from).Some?
    ensures FirstSummaryFor(topics + more, selected, from) == FirstSummaryFor(topics, selected, from)
    decreases |topics| - from
  {
    assert (topics + more)[from] == topics[from];
    if topics[from].topic != selected {
      FirstSummaryPrefix(topics, more, selected, from + 1);
    }
  }

  /** The last fetch record for a topic decides its links: appending a
      record for the selected topic replaces what came before. */
  lemma {:induction false} LastFetchWins(f: RawFetch, selected: string, items: seq<RawNewsItem>)
    requires selected != ""
    ensures ArticlesFor(Some(RawFetch(f.topics + [RawTopicItems(selected, items)])), selected) == items
  {
    var ts := f.topics + [RawTopicItems(selected, items)];
    assert ts[|ts| - 1].topic == selected;
  }
}
