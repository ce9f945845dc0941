/** One rendering of the application page, as a function of the three
    artifacts, the selection kept between renderings and the stylesheets.
    The page is the sidebar's topics, the selection after its default, the
    main summary, the selected topic's panel and the themed preview. */
module View {
  import opened Wrappers
  import opened Text
  import opened Schemas
  import opened Artifacts
  import opened Sections
  import opened SectionsRender
  import opened Overview
  import opened Topics
  import opened Theme
  import opened Panel

  /** The main summary: the overview section's styled body, else the
      summaries' overview text, else a placeholder inviting a run. */
  datatype MainSummary =
    | SummaryHtml(html: string)
    | SummaryText(text: string)
    | SummaryPlaceholder

  /** The two stylesheets the page injects. */
  datatype Styles = Styles(theme: string, summary: string)

  datatype Page = Page(
    topics: seq<string>,
    selected: Option<string>,
    main: MainSummary,
    panel: Option<TopicPanel>,
    preview: Option<string>)

  /** The artifacts as files: each is its text, or None when missing or
      unreadable. The JSON decoders give None for text that is not a JSON
      object of the expected shape. */
  datatype Files = Files(
    summaries: Option<string>,
    news: Option<string>,
    finalHtml: Option<string>)

  datatype Decoders = Decoders(
    summaries: string -> Option<RawSummaries>,
    news: string -> Option<RawFetch>)

  /** The overview title, if there is an overview at all. */
  function OverviewTitle(secs: seq<Section>): (r: Option<string>)
    ensures r.None? <==> secs == []
    ensures r.Some? ==> r == Some(SelectOverview(secs).value.title)
  {
    match SelectOverview(secs)
    case None => None
    case Some(sec) => Some(sec.title)
  }

  /** The main summary for the sections and the summaries' overview text. */
  function MainSummaryOf(secs: seq<Section>, overviewText: string, css: string): (r: MainSummary)
    ensures r.SummaryHtml? <==> SelectOverview(secs).Some? && SelectOverview(secs).value.body != ""
    ensures r.SummaryHtml? ==> r.html == StyleSummaryHtml(css, Some(SelectOverview(secs).value.body))
    ensures r.SummaryText? <==> !r.SummaryHtml? && overviewText != ""
    ensures r.SummaryText? ==> r.text == overviewText
  {
    match SelectOverview(secs)
    case Some(sec) =>
      if sec.body != "" then SummaryHtml(StyleSummaryHtml(css, Some(sec.body)))
      else if overviewText != "" then SummaryText(overviewText)
      else SummaryPlaceholder
    case None =>
      if overviewText != "" then SummaryText(overviewText) else SummaryPlaceholder
  }

  /** The overview text and topic records of the summaries artifact; both
      empty without one. */
  function SummaryParts(summaries: Option<RawSummaries>): (r: (string, seq<RawTopicSummary>))
    ensures summaries.None? ==> r == ("", [])
    ensures summaries.Some? ==> r == (summaries.value.overview, summaries.value.topics)
  {
    match summaries
    case None => ("", [])
    case Some(s) => (s.overview, s.topics)
  }

  /** One rendering of the page. The topics are the sidebar's topics for the
      newsletter's sections and the summaries' records, the selection is
      the default applied to the kept one, and the main summary, the panel
      and the preview are built from the same artifacts. */
  function BuildPage(files: Files, decode: Decoders, state: Option<string>, styles: Styles): (r: Page)
    ensures forall t :: t in r.topics ==> t in CanonicalTopics
    ensures forall i, j :: 0 <= i < j < |r.topics| ==> r.topics[i] != r.topics[j]
    ensures r.topics != [] ==> Chosen(r.selected)
    ensures r.panel.Some? ==> Chosen(r.selected)
    ensures r.preview.None? <==> ReadText(files.finalHtml) == ""
    ensures r.preview.Some? ==> |r.preview.value| == |styles.theme| + |ReadText(files.finalHtml)|
    ensures var secs := ExtractSections(ReadText(files.finalHtml));
      var (overviewText, records) := SummaryParts(ReadJson(files.summaries, decode.summaries));
      && (forall t :: t in r.topics <==>
            t in CanonicalTopics &&
            (FromSummaries(records, t) || FromSections(secs, Excluded(OverviewTitle(secs)), t)))
      && (forall i, j :: 0 <= i < j < |r.topics| ==> Rank(r.topics[i]) < Rank(r.topics[j]))
      && r.selected == SelectTopic(state, r.topics)
      && r.main == MainSummaryOf(secs, overviewText, styles.summary)
      && r.panel == BuildPanel(r.selected, records, secs,
                               ReadJson(files.news, decode.news), styles.summary)
    ensures ReadText(files.finalHtml) != "" ==>
      r.preview == Some(ApplyTheme(styles.theme, ReadText(files.finalHtml)))
  {
    var summaries := ReadJson(files.summaries, decode.summaries);
    var fetch := ReadJson(files.news, decode.news);
    var html := ReadText(files.finalHtml);
    var secs := ExtractSections(html);
    var (overviewText, records) := SummaryParts(summaries);
    var offered := SidebarTopics(secs, OverviewTitle(secs), records);
    var selected := SelectTopic(state, offered);
    CanonicalNamesNonEmpty(offered);
    SelectTopicSettles(state, offered);
    Page(
      offered,
      selected,
      MainSummaryOf(secs, overviewText, styles.summary),
      BuildPanel(selected, records, secs, fetch, styles.summary),
      if html == "" then None else Some(ApplyTheme(styles.theme, html)))
  }

  /** The selection a rendering keeps is stable: rendering again from the
      same artifacts with the kept selection gives the same page. */
  lemma {:induction false} PageSettles(files: Files, decode: Decoders, state: Option<string>, styles: Styles)
    ensures var p := BuildPage(files, decode, state, styles);
      BuildPage(files, decode, p.selected, styles) == p
  {
    var p := BuildPage(files, decode, state, styles);
    var q := BuildPage(files, decode, p.selected, styles);
    CanonicalNamesNonEmpty(p.topics);
    SelectTopicSettles(state, p.topics);
    assert q.topics == p.topics;
    assert q.selected == p.selected;
  }

  /** None of the canonical names is empty. */
  lemma {:induction false} CanonicalNamesNonEmpty(offered: seq<string>)
    requires forall t :: t in offered ==> t in CanonicalTopics
    ensures forall i :: 0 <= i < |offered| ==> offered[i] != ""
  {
    forall i | 0 <= i < |offered| ensures offered[i] != "" {
      assert offered[i] in offered;
      assert |offered[i]| == |CanonicalTopics[Rank(offered[i])]|;
    }
  }

  /** When no heading passes the overview test, the first section stands in
      for the overview, so its title is not offered from the newsletter side
      even when it is a canonical topic; only the summaries can bring it
      back. */
  lemma {:induction false} FallbackOverviewHidden(secs: seq<Section>, records: seq<RawTopicSummary>)
    requires secs != []
    requires forall j :: 0 <= j < |secs| ==> !IsOverviewTitle(secs[j].title)
    requires !FromSummaries(records, secs[0].title)
    ensures secs[0].title !in SidebarTopics(secs, OverviewTitle(secs), records)
  {
    OverviewTitleHidden(secs, secs[0].title, records, secs[0].title);
  }

  /** Before the first run nothing exists: no topics, the placeholder, no
      panel and no preview, whatever the selection says. */
  lemma {:induction false} NothingYet(decode: Decoders, state: Option<string>, styles: Styles)
    ensures var p := BuildPage(Files(None, None, None), decode, state, styles);
      && p.topics == []
      && p.main == SummaryPlaceholder
      && p.panel.None?
      && p.preview.None?
  {
    assert ExtractSections("") == [] by {
      NoHeadingsIff("");
    }
    assert SummaryParts(ReadJson(None, decode.summaries)) == ("", []);
    assert SidebarTopics([], None, []) == [] by {
      EmptySidebar();
    }
    assert BuildPanel(SelectTopic(state, []), [], [], ReadJson(None, decode.news), styles.summary).None?;
  }

  /** With no sections and no summary records nothing is offered. */
  lemma {:induction false} EmptySidebar()
    ensures SidebarTopics([], None, []) == []
  {
    var r := SidebarTopics([], None, []);
    assert forall t :: t !in r;
    assert forall i :: 0 <= i < |r| ==> r[i] in r;
  }

  /** The newsletter of the running example: an overview section and one
      topic section. */
  predicate ExampleSections(a: Section, b: Section) {
    a == Section("Overview", "A") && b == Section("Research & Prevention", "B")
  }

  lemma {:induction false} ExampleRenderable(a: Section, b: Section)
    requires ExampleSections(a, b)
    ensures Renderable(a) && Renderable(b)
  {
    PlainTitle(a.title);
    PlainTitle(b.title);
    OneLetterBody(a.body);
    OneLetterBody(b.body);
  }

  /** The example's titles are trimmed single lines without a tag. */
  lemma {:induction false} PlainTitle(t: string)
    requires t == "Overview" || t == "Research & Prevention"
    ensures t != [] && IsTrimmed(t)
    ensures forall i :: 0 <= i < |t| ==> t[i] != '<' && t[i] != '\n'
  {
  }

  /** A one-letter body is trimmed and opens no heading. */
  lemma {:induction false} OneLetterBody(body: string)
    requires |body| == 1 && 'A' <= body[0] <= 'Z'
    ensures IsTrimmed(body) && forall p: nat :: p < |body| ==> !OpenAt(body, p)
  {
  }

  lemma {:induction false} ExampleOverview(a: Section, b: Section)
    requires ExampleSections(a, b)
    ensures SelectOverview([a, b]) == Some(a)
  {
    LowerOverview(a.title);
    NormalizeWord(a.title, "overview");
  }

  lemma {:induction false} ExampleTopics(a: Section, b: Section, records: seq<RawTopicSummary>)
    requires ExampleSections(a, b)
    requires records == [RawTopicSummary(b.title, "", [])]
    ensures SidebarTopics([a, b], Some(a.title), records) == [b.title]
  {
    assert b.title == CanonicalTopics[0];
    assert ParseTopicName(a.title).None?;
    assert records[0].topic == b.title;
    SingleTopicOffered([a, b], Some(a.title), records, b.title);
  }

  lemma {:induction false} ExamplePanel(a: Section, b: Section, records: seq<RawTopicSummary>, css: string)
    requires ExampleSections(a, b)
    requires records == [RawTopicSummary(b.title, "", [])]
    ensures BuildPanel(Some(b.title), records, [a, b], None, css)
      == Some(TopicPanel("Summary: " + b.title, HtmlBody(StyleSummaryHtml(css, Some(b.body))), None, None))
  {
    assert FirstSummaryFor(records, b.title, 0) == Some(0);
    assert a.title != b.title;
    assert FirstSectionFor([a, b], b.title, 0) == Some(1);
  }

  /** The running example end to end: a newsletter written as an overview
      section and a "Research & Prevention" section, with a summaries
      artifact naming that topic, shows the overview's body as the main
      summary, offers exactly that topic, selects it, and shows the
      section's body in its panel. */
  lemma {:induction false} RunningExample(files: Files, decode: Decoders, styles: Styles,
                                          a: Section, b: Section, records: seq<RawTopicSummary>)
    requires ExampleSections(a, b)
    requires records == [RawTopicSummary(b.title, "", [])]
    requires files.finalHtml == Some(Render([a, b])) && files.news.None? && files.summaries.Some?
    requires decode.summaries(StripFence(files.summaries.value)) == Some(RawSummaries("", records))
    ensures var p := BuildPage(files, decode, None, styles);
      && p.main == SummaryHtml(StyleSummaryHtml(styles.summary, Some(a.body)))
      && p.topics == [b.title]
      && p.selected == Some(b.title)
      && p.panel == Some(TopicPanel("Summary: " + b.title,
                                    HtmlBody(StyleSummaryHtml(styles.summary, Some(b.body))), None, None))
  {
    ExampleRenderable(a, b);
    ExtractRenderRoundTrip([a, b]);
    ExampleOverview(a, b);
    ExampleTopics(a, b, records);
    ExamplePanel(a, b, records, styles.summary);
  }
}
