/** The sidebar's topic list and the selected topic. A topic is offered
    when it is one of the five canonical names and either the summaries
    artifact lists it or the newsletter has a section with that title other
    than the overview; the offered topics keep the canonical order. */
module Topics {
  import opened Wrappers
  import opened Text
  import opened Schemas
  import opened Sections
  import opened Artifacts

  /** Position of a name in the canonical order, 5 for any other name. */
  function Rank(t: string): (r: nat)
    ensures r <= 5
    ensures r < 5 <==> t in CanonicalTopics
    ensures r < 5 ==> CanonicalTopics[r] == t
  {
    if t == CanonicalTopics[0] then 0
    else if t == CanonicalTopics[1] then 1
    else if t == CanonicalTopics[2] then 2
    else if t == CanonicalTopics[3] then 3
    else if t == CanonicalTopics[4] then 4
    else 5
  }

  /** Each canonical name sits at its own rank. */
  lemma {:induction false} RankOfCanonical(k: nat)
    requires k < 5
    ensures Rank(CanonicalTopics[k]) == k
  {
    TopicNamesAreCanonical();
  }

  /** The canonical names from position `k` on that are available, in
      canonical order. */
  function CanonicalFrom(avail: set<string>, k: nat): (r: seq<string>)
    requires k <= 5
    ensures forall i :: 0 <= i < |r| ==> k <= Rank(r[i]) < 5 && r[i] in avail
    ensures forall i, j :: 0 <= i < j < |r| ==> Rank(r[i]) < Rank(r[j])
    ensures forall j :: k <= j < 5 && CanonicalTopics[j] in avail ==> CanonicalTopics[j] in r
    decreases 5 - k
  {
    if k == 5 then []
    else
      var rest := CanonicalFrom(avail, k + 1);
      RankOfCanonical(k);
      if CanonicalTopics[k] in avail then [CanonicalTopics[k]] + rest else rest
  }

  /** `topic_titles`: the canonical topics that are available, in canonical
      order and without repetition. */
  function TopicList(avail: set<string>): (r: seq<string>)
    ensures forall t :: t in r <==> t in CanonicalTopics && t in avail
    ensures forall i, j :: 0 <= i < j < |r| ==> Rank(r[i]) < Rank(r[j])
    ensures forall i, j :: 0 <= i < j < |r| ==> r[i] != r[j]
  {
    var r := CanonicalFrom(avail, 0);
    assert forall t :: t in CanonicalTopics ==> CanonicalTopics[Rank(t)] == t;
    r
  }

  /** A section title the sidebar may offer: present, and not the overview's
      title once both are lower-cased. */
  predicate FromSections(secs: seq<Section>, excluded: string, t: string) {
    exists i :: 0 <= i < |secs| && secs[i].title == t && t != "" && Lower(t) != excluded
  }

  /** A topic name the summaries artifact gives. */
  predicate FromSummaries(topics: seq<RawTopicSummary>, t: string) {
    exists i :: 0 <= i < |topics| && topics[i].topic == t && t != ""
  }

  /** `available`: the section titles other than the overview's, together
      with the topic names of the summaries. */
  function Available(secs: seq<Section>, excluded: string, topics: seq<RawTopicSummary>): (r: set<string>)
    ensures forall t :: t in r <==> FromSections(secs, excluded, t) || FromSummaries(topics, t)
  {
    (set i | 0 <= i < |secs| && secs[i].title != "" && Lower(secs[i].title) != excluded :: secs[i].title)
    + (set i | 0 <= i < |topics| && topics[i].topic != "" :: topics[i].topic)
  }

  /** `excluded_title`: the lower-cased overview title, "" without one. */
  function Excluded(overviewTitle: Option<string>): (r: string)
    ensures overviewTitle.None? ==> r == ""
    ensures overviewTitle.Some? ==>
      && |r| == |overviewTitle.value|
      && forall i :: 0 <= i < |r| ==> r[i] == LowerChar(overviewTitle.value[i])
  {
    Lower(overviewTitle.GetOr(""))
  }

  /** The sidebar's topics for the extracted sections, the overview's title
      and the summaries' topic records. */
  function SidebarTopics(secs: seq<Section>, overviewTitle: Option<string>,
                         topics: seq<RawTopicSummary>): (r: seq<string>)
    ensures forall t :: t in r <==>
      t in CanonicalTopics &&
      (FromSummaries(topics, t) || FromSections(secs, Excluded(overviewTitle), t))
    ensures forall i, j :: 0 <= i < j < |r| ==> Rank(r[i]) < Rank(r[j])
    ensures forall i, j :: 0 <= i < j < |r| ==> r[i] != r[j]
  {
    TopicList(Available(secs, Excluded(overviewTitle), topics))
  }

  /** A section titled like the overview, ignoring case, is offered only
      when the summaries name it too. */
  lemma {:induction false} OverviewTitleHidden(secs: seq<Section>, title: string,
                                               topics: seq<RawTopicSummary>, t: string)
    requires Lower(t) == Lower(title)
    requires !FromSummaries(topics, t)
    ensures t !in SidebarTopics(secs, Some(title), topics)
  {
  }

  /** Every canonical topic the summaries name is offered. */
  lemma {:induction false} SummaryTopicsOffered(secs: seq<Section>, overviewTitle: Option<string>,
                                                topics: seq<RawTopicSummary>, i: nat)
    requires i < |topics| && topics[i].topic in CanonicalTopics
    ensures topics[i].topic in SidebarTopics(secs, overviewTitle, topics)
  {
    assert topics[i].topic != "";
  }

  /** Names outside the canonical five are never offered, whatever the
      artifacts say. */
  lemma {:induction false} OnlyCanonicalOffered(secs: seq<Section>, overviewTitle: Option<string>,
                                                topics: seq<RawTopicSummary>, t: string)
    requires t !in CanonicalTopics
    ensures t !in SidebarTopics(secs, overviewTitle, topics)
  {
  }

  /** When `t` is the only canonical name available, the canonical names
      from position `k` on that are available are `t` alone, or nothing once
      `k` has passed it. */
  lemma {:induction false} CanonicalFromSingle(avail: set<string>, t: string, k: nat)
    requires k <= 5 && t in CanonicalTopics && t in avail
    requires forall x :: x in avail && x in CanonicalTopics ==> x == t
    ensures CanonicalFrom(avail, k) == if k <= Rank(t) then [t] else []
    decreases 5 - k
  {
    if k < 5 {
      RankOfCanonical(k);
      CanonicalFromSingle(avail, t, k + 1);
    }
  }

  /** When every section title and every record names the same canonical
      topic or no canonical topic at all, and a record names it, the sidebar
      offers that topic alone. */
  lemma {:induction false} SingleTopicOffered(secs: seq<Section>, overviewTitle: Option<string>,
                                              records: seq<RawTopicSummary>, t: string)
    requires t in CanonicalTopics
    requires forall i :: 0 <= i < |secs| ==> secs[i].title == t || secs[i].title !in CanonicalTopics
    requires forall i :: 0 <= i < |records| ==> records[i].topic == t || records[i].topic !in CanonicalTopics
    requires exists i :: 0 <= i < |records| && records[i].topic == t
    ensures SidebarTopics(secs, overviewTitle, records) == [t]
  {
    var avail := Available(secs, Excluded(overviewTitle), records);
    assert FromSummaries(records, t);
    CanonicalFromSingle(avail, t, 0);
  }

  /** A selection counts when it is present and non-empty. */
  predicate Chosen(state: Option<string>) {
    state.Some? && state.value != ""
  }

  /** The selection after the default: an empty or missing selection becomes
      the first offered topic when there is one; any other selection stays. */
  function SelectTopic(state: Option<string>, offered: seq<string>): (r: Option<string>)
    ensures Chosen(state) ==> r == state
    ensures !Chosen(state) && offered != [] ==> r == Some(offered[0])
    ensures !Chosen(state) && offered == [] ==> r == state
  {
    if !Chosen(state) && offered != [] then Some(offered[0]) else state
  }

  /** With topics on offer, some non-empty topic ends up selected, and
      applying the default a second time changes nothing. */
  lemma {:induction false} SelectTopicSettles(state: Option<string>, offered: seq<string>)
    requires forall i :: 0 <= i < |offered| ==> offered[i] != ""
    ensures offered != [] ==> Chosen(SelectTopic(state, offered))
    ensures SelectTopic(SelectTopic(state, offered), offered) == SelectTopic(state, offered)
  {
  }
}
