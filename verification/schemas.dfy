/** The record shapes the pipeline's structured outputs are declared with,
    and the closed enumeration of the five newsletter topics. */
module Schemas {
  import opened Wrappers

  /** The five topics, in canonical order. */
  datatype TopicName =
    | ResearchAndPrevention
    | EarlyDetectionAndDiagnosis
    | DrugDiscoveryAndDevelopment
    | TreatmentMethods
    | PrecisionOncology

  /** The literal string a topic is written as. */
  function Name(t: TopicName): string {
    match t
    case ResearchAndPrevention => "Research & Prevention"
    case EarlyDetectionAndDiagnosis => "Early Detection and Diagnosis"
    case DrugDiscoveryAndDevelopment => "Drug Discovery and Development"
    case TreatmentMethods => "Treatment Methods"
    case PrecisionOncology => "Precision Oncology"
  }

  /** Every topic, in canonical order. */
  const AllTopics: seq<TopicName> := [
    ResearchAndPrevention, EarlyDetectionAndDiagnosis, DrugDiscoveryAndDevelopment,
    TreatmentMethods, PrecisionOncology
  ]

  /** The application's canonical topic order, used for the sidebar. */
  const CanonicalTopics: seq<string> := [
    "Research & Prevention",
    "Early Detection and Diagnosis",
    "Drug Discovery and Development",
    "Treatment Methods",
    "Precision Oncology"
  ]

  /** Reading a string as a topic: only the five literal names are accepted. */
  function ParseTopicName(s: string): (r: Option<TopicName>)
    ensures r.Some? <==> s in CanonicalTopics
  {
    if s == Name(ResearchAndPrevention) then Some(ResearchAndPrevention)
    else if s == Name(EarlyDetectionAndDiagnosis) then Some(EarlyDetectionAndDiagnosis)
    else if s == Name(DrugDiscoveryAndDevelopment) then Some(DrugDiscoveryAndDevelopment)
    else if s == Name(TreatmentMethods) then Some(TreatmentMethods)
    else if s == Name(PrecisionOncology) then Some(PrecisionOncology)
    else None
  }

  /** The topic enumeration and the application's canonical list name the
      same five strings in the same order, with no repetition. */
  lemma {:induction false} TopicNamesAreCanonical()
    ensures |AllTopics| == |CanonicalTopics| == 5
    ensures forall i :: 0 <= i < 5 ==> Name(AllTopics[i]) == CanonicalTopics[i]
    ensures forall i, j :: 0 <= i < j < 5 ==> CanonicalTopics[i] != CanonicalTopics[j]
    ensures forall t: TopicName :: t in AllTopics
  {
    forall t: TopicName ensures t in AllTopics {
      match t
      case ResearchAndPrevention => assert AllTopics[0] == t;
      case EarlyDetectionAndDiagnosis => assert AllTopics[1] == t;
      case DrugDiscoveryAndDevelopment => assert AllTopics[2] == t;
      case TreatmentMethods => assert AllTopics[3] == t;
      case PrecisionOncology => assert AllTopics[4] == t;
    }
  }

  /** Naming a topic and reading the name back are inverse to each other. */
  lemma {:induction false} ParseNameRoundTrip(t: TopicName, s: string)
    ensures ParseTopicName(Name(t)) == Some(t)
    ensures ParseTopicName(s).Some? ==> Name(ParseTopicName(s).value) == s
  {
  }

  /** One fetched article; the date and the snippet are optional. */
  datatype NewsItem = NewsItem(
    title: string,
    url: string,
    publishDate: Option<string> := None,
    snippet: Option<string> := None)

  /** The articles fetched for one topic. */
  datatype TopicItems = TopicItems(topic: TopicName, items: seq<NewsItem>)

  /** The research stage's output. */
  datatype FetchResult = FetchResult(topics: seq<TopicItems>)

  /** The condensed summary of one topic; bullets default to none. */
  datatype TopicSummary = TopicSummary(topic: TopicName, summary: string, bullets: seq<string> := [])

  /** The summarising stage's output. */
  datatype SummariesOutput = SummariesOutput(overview: string, topics: seq<TopicSummary>)

  /** Building a record with only its required fields leaves the optional
      ones at their declared defaults. */
  lemma {:induction false} DefaultsApply(title: string, url: string, t: TopicName, summary: string)
    ensures NewsItem(title, url).publishDate == None
    ensures NewsItem(title, url).snippet == None
    ensures TopicSummary(t, summary).bullets == []
  {
  }
}
