/** A document assembled from sections, one `<h2>` heading each, and the
    proof that extracting sections from it gives the same sections back
    whenever each title and body could have come out of an extraction. */
module SectionsRender {
  import opened Wrappers
  import opened Text
  import opened Sections

  /** One section written out as `<h2>title</h2>body`. */
  function Chunk(sec: Section): string {
    "<h2>" + sec.title + "</h2>" + sec.body
  }

  /** A whole document written from its sections. */
  function Render(secs: seq<Section>): string {
    if secs == [] then "" else Chunk(secs[0]) + Render(secs[1..])
  }

  /** A section that reads back after rendering: a non-empty trimmed title
      on one line without any `<`, and a trimmed body without `<h2` (in
      either case) anywhere. This is narrower than what extraction yields:
      an extracted title may keep a `<` that opens no tag, and an extracted
      body may end in a bare `<h2`, which the next chunk's `<h2>` would turn
      into one opening tag `<h2<h2>`. */
  predicate Renderable(sec: Section) {
    && sec.title != []
    && IsTrimmed(sec.title)
    && (forall i :: 0 <= i < |sec.title| ==> sec.title[i] != '<' && sec.title[i] != '\n')
    && IsTrimmed(sec.body)
    && (forall p: nat :: p < |sec.body| ==> !OpenAt(sec.body, p))
  }

  /** The heading match a chunk at offset `o` gives rise to. */
  function ChunkMatch(o: nat, sec: Section): Match {
    Match(o, o + 4, o + 4 + |sec.title|, o + |Chunk(sec)|)
  }

  /** The matches of a rendered document whose first chunk is at `o`. */
  function RenderMatches(o: nat, secs: seq<Section>): (ms: seq<Match>)
    ensures |ms| == |secs|
    decreases |secs|
  {
    if secs == [] then [] else [ChunkMatch(o, secs[0])] + RenderMatches(o + |Chunk(secs[0])|, secs[1..])
  }

  /** Where each part of a chunk sits in the document around it. */
  lemma {:induction false} ChunkLayout(pre: string, sec: Section, tail: string)
    ensures var s := pre + Chunk(sec) + tail; var o := |pre|; var t := |sec.title|;
      && |s| == o + 9 + t + |sec.body| + |tail|
      && s[o] == '<' && s[o + 1] == 'h' && s[o + 2] == '2' && s[o + 3] == '>'
      && (forall i :: 0 <= i < t ==> s[o + 4 + i] == sec.title[i])
      && s[o + 4 + t] == '<' && s[o + 5 + t] == '/' && s[o + 6 + t] == 'h'
      && s[o + 7 + t] == '2' && s[o + 8 + t] == '>'
      && (forall i :: 0 <= i < |sec.body| ==> s[o + 9 + t + i] == sec.body[i])
      && (forall i :: 0 <= i < |tail| ==> s[o + 9 + t + |sec.body| + i] == tail[i])
  {
  }

  /** The heading of a renderable chunk matches the expression, and its body
      runs exactly to the next chunk or to the end. */
  lemma {:induction false} ChunkIsValidMatch(pre: string, sec: Section, rest: seq<Section>)
    requires Renderable(sec)
    ensures ValidMatch(pre + Chunk(sec) + Render(rest), ChunkMatch(|pre|, sec))
  {
    var tail := Render(rest);
    var s := pre + Chunk(sec) + tail;
    ChunkHeadingIn(pre, sec, tail);
    TailStartsWithHeading(rest);
    assert sec.body == [] || !IsPyWhitespace(sec.body[|sec.body| - 1]);
    ChunkBodyIn(pre, sec, tail);
  }

  lemma {:induction false} ChunkHeadingIn(pre: string, sec: Section, tail: string)
    requires forall i :: 0 <= i < |sec.title| ==> sec.title[i] != '<' && sec.title[i] != '\n'
    ensures HeadingMatches(pre + Chunk(sec) + tail, ChunkMatch(|pre|, sec))
  {
    ChunkLayout(pre, sec, tail);
    ChunkHeading(pre + Chunk(sec) + tail, |pre|, sec);
  }

  lemma {:induction false} ChunkBodyIn(pre: string, sec: Section, tail: string)
    requires sec.body == [] || sec.body[|sec.body| - 1] != '\n'
    requires forall p: nat :: p < |sec.body| ==> !OpenAt(sec.body, p)
    requires tail != [] ==> |tail| >= 4 && tail[0] == '<' && tail[1] == 'h' && tail[2] == '2' && tail[3] == '>'
    ensures BodyMatches(pre + Chunk(sec) + tail, ChunkMatch(|pre|, sec))
  {
    ChunkLayout(pre, sec, tail);
    ChunkBody(pre + Chunk(sec) + tail, |pre|, sec, tail);
  }

  /** The heading part of a match: `<h2>`, the title, `</h2>`. */
  lemma {:induction false} ChunkHeading(s: string, o: nat, sec: Section)
    requires o + 9 + |sec.title| <= |s|
    requires s[o] == '<' && s[o + 1] == 'h' && s[o + 2] == '2' && s[o + 3] == '>'
    requires forall i :: 0 <= i < |sec.title| ==> s[o + 4 + i] == sec.title[i]
    requires forall i :: 0 <= i < |sec.title| ==> sec.title[i] != '<' && sec.title[i] != '\n'
    requires var t := |sec.title|;
      && s[o + 4 + t] == '<' && s[o + 5 + t] == '/' && s[o + 6 + t] == 'h'
      && s[o + 7 + t] == '2' && s[o + 8 + t] == '>'
    ensures HeadingMatches(s, ChunkMatch(o, sec))
  {
    var m := ChunkMatch(o, sec);
    assert OpenAt(s, o);
    assert CloseAt(s, m.titleEnd);
    forall q | m.titleStart <= q < m.titleEnd ensures s[q] != '\n' && !CloseAt(s, q) {
      assert s[q] == sec.title[q - o - 4];
    }
  }

  /** The body part of a match: it ends where the next chunk begins, or at
      the end of the document, and nowhere earlier. */
  lemma {:induction false} ChunkBody(s: string, o: nat, sec: Section, tail: string)
    requires |s| == o + 9 + |sec.title| + |sec.body| + |tail|
    requires forall i :: 0 <= i < |sec.body| ==> s[o + 9 + |sec.title| + i] == sec.body[i]
    requires forall i :: 0 <= i < |tail| ==> s[o + 9 + |sec.title| + |sec.body| + i] == tail[i]
    requires tail != [] ==> |tail| >= 4 && tail[0] == '<' && tail[1] == 'h' && tail[2] == '2' && tail[3] == '>'
    requires sec.body == [] || sec.body[|sec.body| - 1] != '\n'
    requires forall p: nat :: p < |sec.body| ==> !OpenAt(sec.body, p)
    ensures BodyMatches(s, ChunkMatch(o, sec))
  {
    var m := ChunkMatch(o, sec);
    var e := m.bodyEnd;
    assert e == o + 9 + |sec.title| + |sec.body|;
    if tail != [] {
      assert s[e] == '<' && s[e + 1] == 'h' && s[e + 2] == '2' && s[e + 3] == '>';
      assert OpenAt(s, e);
      assert OpenTagEnd(s, e) == Some(e + 3);
    }
    forall p | m.titleEnd + 5 <= p < e ensures !IsBoundary(s, p) {
      BodyNotBoundary(s, o + 9 + |sec.title|, sec.body, tail, p);
    }
  }

  /** A rendered document that is not empty opens with `<h2>`. */
  lemma {:induction false} TailStartsWithHeading(rest: seq<Section>)
    ensures rest != [] ==>
      |Render(rest)| >= 4 && Render(rest)[0] == '<' && Render(rest)[1] == 'h'
      && Render(rest)[2] == '2' && Render(rest)[3] == '>'
  {
  }

  /** No position inside a body, trimmed and free of `<h2`, is a boundary
      when what follows it is empty or opens with `<`. */
  lemma {:induction false} BodyNotBoundary(s: string, b: nat, body: string, tail: string, p: nat)
    requires b + |body| + |tail| == |s|
    requires forall i :: 0 <= i < |body| ==> s[b + i] == body[i]
    requires forall i :: 0 <= i < |tail| ==> s[b + |body| + i] == tail[i]
    requires tail != [] ==> tail[0] == '<'
    requires body == [] || body[|body| - 1] != '\n'
    requires forall p: nat :: p < |body| ==> !OpenAt(body, p)
    requires b <= p < b + |body|
    ensures !IsBoundary(s, p)
  {
    var e := b + |body|;
    if p + 3 <= e {
      assert !OpenAt(body, p - b);
    } else if tail != [] {
      assert s[e] == '<';
    }
    if p + 1 == |s| {
      assert tail == [];
      assert s[p] == body[|body| - 1];
    }
  }

  /** Text with no `<` has no tag to strip. */
  lemma {:induction false} StripTagsWithoutTag(t: string)
    requires forall i :: 0 <= i < |t| ==> t[i] != '<'
    ensures StripTags(t) == t
    decreases |t|
  {
    if t != [] {
      StripTagsWithoutTag(t[1..]);
      assert t == [t[0]] + t[1..];
    }
  }

  /** The title and the body of a chunk, cut back out of the document. */
  lemma {:induction false} ChunkSlices(pre: string, sec: Section, tail: string)
    ensures var s := pre + Chunk(sec) + tail; var m := ChunkMatch(|pre|, sec);
      && m.titleEnd + 5 <= m.bodyEnd <= |s|
      && s[m.titleStart..m.titleEnd] == sec.title
      && s[m.titleEnd + 5..m.bodyEnd] == sec.body
  {
    var s := pre + Chunk(sec) + tail;
    var open := pre + "<h2>";
    var shut := open + sec.title + "</h2>";
    assert s == open + sec.title + ("</h2>" + sec.body + tail);
    assert s == shut + sec.body + tail;
    MiddleSlice(open, sec.title, "</h2>" + sec.body + tail);
    MiddleSlice(shut, sec.body, tail);
  }

  /** The middle part of a three-part concatenation is the slice at its offset. */
  lemma {:induction false} MiddleSlice(p: string, x: string, q: string)
    ensures (p + x + q)[|p|..|p| + |x|] == x
  {
    var s := p + x + q;
    assert forall i :: 0 <= i < |x| ==> s[|p| + i] == x[i];
  }

  /** A renderable title comes back unchanged from title cleanup. */
  lemma {:induction false} CleanTitleKeeps(title: string)
    requires title != [] && IsTrimmed(title)
    requires forall i :: 0 <= i < |title| ==> title[i] != '<' && title[i] != '\n'
    ensures Lacks(title, '\n') && CleanTitle(title) == title
  {
    StripTagsWithoutTag(title);
    TrimmedIsFixed(title);
  }

  /** The section read back from a renderable chunk is the section written. */
  lemma {:induction false} ChunkSection(s: string, pre: string, sec: Section, tail: string)
    requires s == pre + Chunk(sec) + tail && Renderable(sec)
    ensures ReadsBack(s, ChunkMatch(|pre|, sec), sec)
  {
    var m := ChunkMatch(|pre|, sec);
    ChunkSlices(pre, sec, tail);
    ChunkWellPlaced(s, m, sec.title);
    CleanTitleKeeps(sec.title);
    TrimmedIsFixed(sec.body);
    assert SectionTitle(s, m) == sec.title;
    assert SectionBody(s, m) == sec.body;
  }

  lemma {:induction false} ChunkWellPlaced(s: string, m: Match, title: string)
    requires m.titleStart <= m.titleEnd && m.titleEnd + 5 <= m.bodyEnd <= |s|
    requires s[m.titleStart..m.titleEnd] == title
    requires forall i :: 0 <= i < |title| ==> title[i] != '<' && title[i] != '\n'
    ensures WellPlaced(s, m)
  {
    forall q | m.titleStart <= q < m.titleEnd ensures s[q] != '\n' {
      assert s[q] == title[q - m.titleStart];
    }
  }

  /** Peeling the first chunk off a rendered document. */
  lemma {:induction false} RenderStep(pre: string, secs: seq<Section>)
    requires secs != []
    ensures pre + Render(secs) == (pre + Chunk(secs[0])) + Render(secs[1..])
    ensures pre + Render(secs) == pre + Chunk(secs[0]) + Render(secs[1..])
    ensures ChunkMatch(|pre|, secs[0]).bodyEnd == |pre + Chunk(secs[0])|
    ensures RenderMatches(|pre|, secs)
      == [ChunkMatch(|pre|, secs[0])] + RenderMatches(|pre + Chunk(secs[0])|, secs[1..])
  {
  }

  /** The matches of `doc == pre + Render(secs)` from where the rendered
      part begins are one per chunk. */
  lemma {:induction false} RenderMatchList(doc: string, pre: string, secs: seq<Section>)
    requires doc == pre + Render(secs)
    requires forall k :: 0 <= k < |secs| ==> Renderable(secs[k])
    ensures IsMatchList(doc, |pre|, RenderMatches(|pre|, secs))
    decreases |secs|
  {
    if secs == [] {
      assert doc == pre;
    } else {
      var sec, rest := secs[0], secs[1..];
      var pre' := pre + Chunk(sec);
      var m := ChunkMatch(|pre|, sec);
      RenderStep(pre, secs);
      RenderMatchList(doc, pre', rest);
      ChunkIsValidMatch(pre, sec, rest);
      assert ValidMatch(doc, m);
      assert MatchAt(doc, |pre|) == Some(m);
      MatchListCons(doc, |pre|, m, RenderMatches(|pre'|, rest));
    }
  }

  /** The match `m` of `doc` reads back as the section `sec`. */
  predicate ReadsBack(doc: string, m: Match, sec: Section) {
    WellPlaced(doc, m) && SectionOf(doc, m) == sec
  }

  /** Each match of `doc == pre + Render(secs)` gives its section back. */
  lemma {:induction false} RenderSectionsBack(doc: string, pre: string, secs: seq<Section>)
    requires doc == pre + Render(secs)
    requires forall k :: 0 <= k < |secs| ==> Renderable(secs[k])
    ensures forall k :: 0 <= k < |secs| ==> ReadsBack(doc, RenderMatches(|pre|, secs)[k], secs[k])
    decreases |secs|
  {
    if secs != [] {
      var sec, rest := secs[0], secs[1..];
      var pre' := pre + Chunk(sec);
      RenderStep(pre, secs);
      RenderSectionsBack(doc, pre', rest);
      ChunkSection(doc, pre, sec, Render(rest));
      var rel := (m, t) => ReadsBack(doc, m, t);
      ConsPairwise(rel, ChunkMatch(|pre|, sec), sec, RenderMatches(|pre'|, rest), rest,
        RenderMatches(|pre|, secs), secs);
    }
  }

  /** A relation that holds pairwise along two sequences still holds after
      a related pair is put in front of them. */
  lemma {:induction false} ConsPairwise<A, B>(rel: (A, B) -> bool, x: A, y: B, xs: seq<A>, ys: seq<B>,
                                              all: seq<A>, allY: seq<B>)
    requires rel(x, y) && |xs| == |ys|
    requires forall k :: 0 <= k < |ys| ==> rel(xs[k], ys[k])
    requires all == [x] + xs && allY == [y] + ys
    ensures forall k :: 0 <= k < |allY| ==> rel(all[k], allY[k])
  {
    forall k | 0 <= k < |allY| ensures rel(all[k], allY[k]) {
      if k > 0 {
        assert all[k] == xs[k - 1] && allY[k] == ys[k - 1];
      }
    }
  }

  /** Extracting the sections of a document written from renderable sections
      gives exactly those sections back, in order. */
  lemma {:induction false} ExtractRenderRoundTrip(secs: seq<Section>)
    requires forall k :: 0 <= k < |secs| ==> Renderable(secs[k])
    ensures ExtractSections(Render(secs)) == secs
  {
    var s, ms := Render(secs), RenderMatches(0, secs);
    assert s == "" + s;
    RenderMatchList(s, "", secs);
    MatchListUnique(s, 0, Headings(s), ms);
    RenderSectionsBack(s, "", secs);
    ExtractedAre(s, ms, secs);
  }

  lemma {:induction false} ExtractedAre(s: string, ms: seq<Match>, secs: seq<Section>)
    requires Headings(s) == ms && |ms| == |secs|
    requires forall k :: 0 <= k < |secs| ==> ReadsBack(s, ms[k], secs[k])
    ensures ExtractSections(s) == secs
  {
    var r := ExtractSections(s);
    forall k | 0 <= k < |r| ensures r[k] == secs[k] {
      assert r[k] == SectionOf(s, ms[k]);
    }
  }
}
