/** Reading the pipeline's artifacts. A missing or unreadable file is `None`;
    JSON decoding is a caller-supplied partial function, so a malformed file
    and a missing one look the same to every caller. The records below are
    the shapes the application reads without validating them against the
    schemas: topic names are arbitrary strings and missing keys read as
    empty. */
module Artifacts {
  import opened Wrappers
  import opened Text
  import Schemas

  /** A fetched article as read from raw JSON; a missing key reads as "". */
  datatype RawNewsItem = RawNewsItem(title: string, url: string)

  datatype RawTopicItems = RawTopicItems(topic: string, items: seq<RawNewsItem>)

  /** The fetch artifact; `topics` is empty when the key is missing. */
  datatype RawFetch = RawFetch(topics: seq<RawTopicItems>)

  /** One topic summary as read from raw JSON; a missing key reads as empty. */
  datatype RawTopicSummary = RawTopicSummary(topic: string, summary: string, bullets: seq<string>)

  /** The summaries artifact. */
  datatype RawSummaries = RawSummaries(overview: string, topics: seq<RawTopicSummary>)

  /** The raw view of a validated summaries record. */
  function SummariesAsRaw(s: Schemas.SummariesOutput): (r: RawSummaries)
    ensures r.overview == s.overview && |r.topics| == |s.topics|
    ensures forall i :: 0 <= i < |r.topics| ==>
      && Schemas.ParseTopicName(r.topics[i].topic) == Some(s.topics[i].topic)
      && r.topics[i].summary == s.topics[i].summary
      && r.topics[i].bullets == s.topics[i].bullets
  {
    RawSummaries(s.overview,
      seq(|s.topics|, i requires 0 <= i < |s.topics| =>
        RawTopicSummary(Schemas.Name(s.topics[i].topic), s.topics[i].summary, s.topics[i].bullets)))
  }

  /** The raw view of a validated fetch record. */
  function FetchAsRaw(f: Schemas.FetchResult): (r: RawFetch)
    ensures |r.topics| == |f.topics|
    ensures forall i :: 0 <= i < |r.topics| ==>
      && Schemas.ParseTopicName(r.topics[i].topic) == Some(f.topics[i].topic)
      && |r.topics[i].items| == |f.topics[i].items|
    ensures forall i, j :: 0 <= i < |r.topics| && 0 <= j < |r.topics[i].items| ==>
      && r.topics[i].items[j].title == f.topics[i].items[j].title
      && r.topics[i].items[j].url == f.topics[i].items[j].url
  {
    RawFetch(seq(|f.topics|, i requires 0 <= i < |f.topics| =>
      RawTopicItems(Schemas.Name(f.topics[i].topic),
        seq(|f.topics[i].items|, j requires 0 <= j < |f.topics[i].items| =>
          RawNewsItem(f.topics[i].items[j].title, f.topics[i].items[j].url)))))
  }

  /** A text artifact: a missing or undecodable file reads as "". */
  function ReadText(file: Option<string>): (r: string)
    ensures file.None? ==> r == ""
    ensures file.Some? ==> r == file.value
  {
    file.GetOr("")
  }

  const Fence: string := "```"

  /** The text handed to the JSON decoder: surrounding whitespace trimmed,
      then, if it opens with a triple backtick, every backtick, newline and
      space stripped from both ends. Because the second strip works on a
      character class, a language tag after the opening fence stays. */
  function StripFence(raw: string): (r: string)
    ensures !StartsWith(PyStrip(raw), Fence) ==> r == PyStrip(raw)
    ensures StartsWith(PyStrip(raw), Fence) ==>
      r == [] || (!IsFenceChar(r[0]) && !IsFenceChar(r[|r| - 1]))
    ensures StartsWith(PyStrip(raw), Fence) ==>
      var ab := StripBounds(PyStrip(raw), FenceChars);
      && r == PyStrip(raw)[ab.0..ab.1]
      && (forall i :: 0 <= i < ab.0 ==> IsFenceChar(PyStrip(raw)[i]))
      && (forall i :: ab.1 <= i < |PyStrip(raw)| ==> IsFenceChar(PyStrip(raw)[i]))
    ensures |r| <= |PyStrip(raw)|
  {
    var text := PyStrip(raw);
    if StartsWith(text, Fence) then Strip(text, FenceChars) else text
  }

  /** Reading a JSON artifact: a missing file and a text the decoder rejects
      both give None. */
  function ReadJson<T>(file: Option<string>, decode: string -> Option<T>): (r: Option<T>)
    ensures file.None? ==> r.None?
    ensures file.Some? ==> r == decode(StripFence(file.value))
  {
    match file
    case None => None
    case Some(text) => decode(StripFence(text))
  }

  /** The fence strip, applied to its own output, changes nothing. */
  lemma {:induction false} FenceStepIdempotent(raw: string)
    requires StartsWith(PyStrip(raw), Fence)
    ensures Strip(StripFence(raw), FenceChars) == StripFence(raw)
  {
    StripIdempotent(PyStrip(raw), FenceChars);
  }

  /** Reading twice equals reading once exactly when the result does not
      begin or end with whitespace the fence strip leaves behind (a tab, a
      carriage return, ...). Unfenced text always qualifies. */
  lemma {:induction false} StripFenceIdempotentIff(raw: string)
    ensures StripFence(StripFence(raw)) == StripFence(raw) <==>
      IsTrimmed(StripFence(raw))
  {
    var r := StripFence(raw);
    if IsTrimmed(r) {
      StripKeepsTrimmed(r, PyWhitespace);
      NotFencedAgain(raw);
    } else {
      var ab := StripBounds(r, PyWhitespace);
      assert |PyStrip(r)| < |r|;
    }
  }

  /** The output of a read never opens with a fence again. */
  lemma {:induction false} NotFencedAgain(raw: string)
    ensures !StartsWith(StripFence(raw), Fence)
  {
    if StartsWith(PyStrip(raw), Fence) {
      assert Fence[0] == '`';
    }
  }

  /** Whitespace the fence strip does not remove survives one read and is
      removed by a second one. */
  lemma {:induction false} StripFenceNotIdempotentWithTab()
    ensures StripFence("```\t1```") == "\t1"
    ensures StripFence("\t1") == "1"
  {
    var raw := "```\t1```";
    StripKeepsTrimmed(raw, PyWhitespace);
    assert StartsWith(raw, Fence);
    StripIsCore(raw, FenceChars, 3, 5);
    assert raw[3..5] == "\t1";
    var t := "\t1";
    assert !StartsWith(t, Fence);
    StripIsCore(t, PyWhitespace, 1, 2);
    assert t[1..2] == "1";
    StripKeepsTrimmed("1", PyWhitespace);
  }

  /** A language tag right after the opening fence is kept: the text handed
      to the decoder starts with it. */
  lemma {:induction false} LanguageTagSurvives(tag: string, rest: string)
    requires |tag| > 0 && !IsFenceChar(tag[0]) && !IsFenceChar(tag[|tag| - 1])
    ensures StartsWith(StripFence(Fence + tag + rest + Fence), tag)
  {
    var raw := Fence + tag + rest + Fence;
    assert raw[0] == '`' && raw[|raw| - 1] == '`';
    StripKeepsTrimmed(raw, PyWhitespace);
    assert StartsWith(raw, Fence);
    var ab := StripBounds(raw, FenceChars);
    assert raw[3] == tag[0];
    assert ab.0 == 3;
    assert raw[3 + |tag| - 1] == tag[|tag| - 1];
    assert ab.1 >= 3 + |tag|;
    var r := StripFence(raw);
    assert r == raw[3..ab.1];
    assert forall k :: 0 <= k < |tag| ==> r[k] == raw[3 + k] == tag[k];
  }
}
