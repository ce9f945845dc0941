# AI_NEWS topic view, modelled in Dafny

The AI_NEWS application runs a news pipeline and then shows its results.
The pipeline writes three artifacts:

- a fetch result (JSON): articles per topic;
- a summaries record (JSON): an overview text plus one summary per topic;
- the final newsletter (HTML).

The viewer in `streamlit_app.py` rebuilds the topic view from these artifacts
on every rendering. This project models that rebuilding as pure functions and
proves what each step promises. The steps are:

- strip a code fence around the JSON text, then decode it (`Artifacts`);
- split the newsletter into sections at its `<h2>` headings (`Sections`),
  including a proof that rendering sections and extracting them again is a
  round trip (`SectionsRender`);
- pick the overview section with a loose title test (`Overview`);
- reconcile the sidebar's topics with the five canonical topics, and apply
  the default selection (`Topics`);
- build the panel for the selected topic: body, bullets and further-reading
  links (`Panel`);
- style the summaries and splice the theme into the preview page (`Theme`);
- put one rendering of the whole page together (`View`).

`Schemas` holds the record shapes declared in `src/assignment/schemas.py`,
with the closed five-topic enumeration as a datatype. The viewer itself
never validates against these shapes. It reads raw JSON, so `Artifacts`
also has raw records whose topic names are arbitrary strings. `Wrappers`
holds `Option`, and `Text` holds the string helpers:

- ASCII lower-casing;
- `str.find`;
- `str.strip()` over the full set of characters `str.isspace` accepts;
- `str.strip` with a character set.

Each operation also has a partner: an inverse, a preserved invariant, or an
independent characterisation. Some examples:

- The `<h2>` regular expression under `re.finditer` is written as a scanner,
  `Headings`. It is proved equal to the unique list of matches that the
  declarative `ValidMatch` / `IsMatchList` describe (`Sections.MatchListUnique`).
- The sidebar's topic list is characterised membership by membership.
- The theme splice is shown to be removable.

Every function is deterministic, so rebuilding the view twice from the same
artifacts gives the same view by construction.

## Model

| member | source | states |
|---|---|---|
| Text.Lower | streamlit_app.py:195 | lower-casing keeps the length and maps each character on its own, so indices in the lower-cased text are indices in the original |
| Text.IndexFrom | streamlit_app.py:105 | the result is the first occurrence of the character at or after the start, and None means there is none |
| Text.FindFrom | streamlit_app.py:104 | the result is the first position where the pattern occurs at or after the start, and None means it occurs nowhere |
| Text.Strip | streamlit_app.py:53 | the result is the text between the maximal runs of stripped characters at each end: it is bordered by kept characters, and everything cut away was in the set |
| Text.StripIdempotent | streamlit_app.py:53 | stripping with a character set twice is the same as stripping once |
| Text.PyStrip | streamlit_app.py:50 | the result of `str.strip()` starts and ends with a non-whitespace character |
| Text.PyStripIdempotent | streamlit_app.py:50 | `str.strip()` is idempotent |
| Text.TrimmedIsFixed | streamlit_app.py:186 | a text is left unchanged by `str.strip()` exactly when it is already trimmed |
| Schemas.ParseTopicName | src/assignment/schemas.py:5-11 | a string names a topic exactly when it is one of the five canonical names |
| Schemas.TopicNamesAreCanonical | streamlit_app.py:19-25 | the topic enumeration has the canonical list's five names, in the canonical order, all distinct, and it covers every topic |
| Schemas.ParseNameRoundTrip | src/assignment/schemas.py:5-11 | topic name to string and back is the identity, and so is string to topic name and back |
| Schemas.DefaultsApply | src/assignment/schemas.py:14-33 | a news item built from title and url alone has no publish date and no snippet; a topic summary built without bullets has none |
| Artifacts.SummariesAsRaw | src/assignment/schemas.py:30-38 | a validated summaries record, read raw, keeps its overview and one entry per topic summary, with a name that parses back to the topic and the same summary text and bullets |
| Artifacts.FetchAsRaw | src/assignment/schemas.py:14-27 | a validated fetch result, read raw, keeps one entry per topic, with a name that parses back to the topic and the same articles, each with its title and url |
| Artifacts.ReadText | streamlit_app.py:37-43 | a missing or unreadable file reads as the empty text; otherwise its text is returned |
| Artifacts.StripFence | streamlit_app.py:50-53 | text that does not start with three backticks once trimmed is only trimmed; fenced text loses every leading and trailing backtick, newline and space, and nothing else |
| Artifacts.ReadJson | streamlit_app.py:46-56 | a missing file gives None; a present file gives the decoder's answer on its fence-stripped text, None when the decoder rejects it |
| Artifacts.FenceStepIdempotent | streamlit_app.py:52-53 | removing fence characters a second time changes nothing |
| Artifacts.StripFenceIdempotentIff | streamlit_app.py:50-53 | reading twice equals reading once exactly when the first result is already trimmed |
| Artifacts.NotFencedAgain | streamlit_app.py:52-53 | the result never starts with three backticks |
| Artifacts.StripFenceNotIdempotentWithTab | streamlit_app.py:50-53 | `` ```\t1``` `` reads as a tab followed by 1, which reads again as 1: the step is not idempotent in general |
| Artifacts.LanguageTagSurvives | streamlit_app.py:52-53 | a language tag after the opening fence is kept at the front of the result |
| Sections.OpenTagEnd | streamlit_app.py:184 | the `>` that closes `<h2[^>]*>` (in either case) at a position: the first `>` after `<h2`, and None when there is no such tag |
| Sections.CloseOnLine | streamlit_app.py:184 | the first `</h2>` from a position with no newline before it (the lazy `(.*?)</h2>`), and None when every later `</h2>` is past a newline |
| Sections.BodyEnd | streamlit_app.py:184 | the body ends at the first boundary: the next `<h2[^>]*>` tag, the end of the text, or just before a final newline |
| Sections.MatchAt | streamlit_app.py:184 | the expression's match at a position is unique, and the result is that match when one exists |
| Sections.OnlyMatchAt | streamlit_app.py:184 | the tag end, the first close on the line and the first boundary make a valid match, and it is the only one at that start |
| Sections.Scan | streamlit_app.py:184 | the scanner's result is a `finditer` match list: valid matches, in order, without overlap, and every position outside them fails |
| Sections.MatchListUnique | streamlit_app.py:184 | two match lists of the same text from the same start are equal, so `finditer`'s result is determined |
| Sections.Headings | streamlit_app.py:184 | the headings of a document are the `finditer` match list from position 0 |
| Sections.ValidMatchCovered | streamlit_app.py:184 | any valid match starts inside one of the listed matches: `finditer` misses no heading that begins in a gap |
| Sections.StripTags | streamlit_app.py:185 | removing `<...>` tags leaves no tag in a one-line title, and adds no newline or `>` |
| Sections.StripTagsKeepsPlainPrefix | streamlit_app.py:185 | text before the first `<` is kept unchanged in front of the rest's result |
| Sections.StripTagsDropsTag | streamlit_app.py:185 | a tag `<t>` with no `>` or newline inside is removed whole, and nothing after it is touched |
| Sections.StripTagsWrapped | streamlit_app.py:185 | text between an opening and a closing tag, with no `<` of its own, is exactly what remains |
| Sections.StripTagsKeepsUntagged | streamlit_app.py:185 | a text with no `>` is left unchanged: a `<` that opens no tag is kept, so with the two lemmas above the tag removal is fixed on every one-line title |
| Sections.CleanTitle | streamlit_app.py:185-187 | the title is the trimmed tag-free heading text when that is non-empty, and `Section` otherwise; either way it is non-empty, trimmed, on one line and free of tags |
| Sections.WrappedTitle | streamlit_app.py:185-187 | a heading text wrapped in one tag on each side gives its inner words as the title when they are trimmed and free of `<` |
| Sections.ExampleBoldTitle | streamlit_app.py:185-187 | `<b>Treatment Methods</b>` gives the title `Treatment Methods` |
| Sections.UnclosedTitle | streamlit_app.py:185-187 | a one-line trimmed heading with no `>` is its own title, including any `<` in it |
| Sections.ExampleLessThan | streamlit_app.py:185-187 | `a < b` gives the title `a < b` |
| Sections.SectionTitle | streamlit_app.py:185 | the title of a heading match is a well-formed title: non-empty, trimmed, one line, no tag |
| Sections.SectionBody | streamlit_app.py:186 | the body of a heading match is trimmed and no longer than the text between `</h2>` and the match end |
| Sections.SectionOf | streamlit_app.py:185-187 | the pair built from a match has a well-formed title and a trimmed body |
| Sections.TrimKeepsTitleShape | streamlit_app.py:185 | trimming a one-line tag-free title keeps it tag-free |
| Sections.BodyHasNoOpenTag | streamlit_app.py:184 | a body runs up to the next `<h2...>` tag, so it contains no opening h2 tag |
| Sections.ExtractSections | streamlit_app.py:182-188 | one section per heading match, in document order, and no sections exactly when no heading matches |
| Sections.ExtractedShape | streamlit_app.py:185-187 | every extracted title is non-empty, trimmed and tag-free; every body is trimmed and has no opening h2 tag |
| Sections.NoHeadingsIff | streamlit_app.py:182-188 | the heading list is empty exactly when no `<h2...>...</h2>` heading matches anywhere |
| SectionsRender.RenderMatchList | streamlit_app.py:184 | a document written as `<h2>title</h2>body` chunks has exactly one heading match per chunk |
| SectionsRender.RenderSectionsBack | streamlit_app.py:185-187 | each chunk's match reads back its own title and body |
| SectionsRender.ExtractRenderRoundTrip | streamlit_app.py:182-188 | extracting sections from rendered sections gives the same sections, whenever each title is non-empty, trimmed and on one line with no `<`, and each body is trimmed with no `<h2` in either case |
| Overview.Letters | streamlit_app.py:195 | keeping only `[a-z]` leaves lower-case letters, never more than were there |
| Overview.LettersAppend | streamlit_app.py:195 | dropping non-letters works piece by piece |
| Overview.Normalize | streamlit_app.py:195 | the normalized title consists of lower-case letters only and is no longer than the title |
| Overview.NormalizeAppend | streamlit_app.py:195 | the normalized title of a concatenation is the concatenation of the normalized parts |
| Overview.IsOverviewTitle | streamlit_app.py:194-196 | a passing title has at least seven letters, and every title whose letters start with `overview` passes |
| Overview.OverviewIgnoresCase | streamlit_app.py:194-196 | two titles that agree once lower-cased get the same answer |
| Overview.OverviewIgnoresNonLetters | streamlit_app.py:194-196 | inserting a non-letter anywhere in a title never changes the answer |
| Overview.StartsWithOverview | streamlit_app.py:196 | a normalized title that starts with `overview` contains it |
| Overview.ExampleUpper | streamlit_app.py:194-196 | `OVERVIEW` is an overview title |
| Overview.ExampleColon | streamlit_app.py:194-196 | `Overview:` is an overview title |
| Overview.ExampleSummary | streamlit_app.py:194-196 | `SUMMARY:` is an overview title, by the exact-word rule once case and punctuation are dropped |
| Overview.ExampleExecutive | streamlit_app.py:194-196 | `Executive Summary` is an overview title |
| Overview.ExampleWeekly | streamlit_app.py:194-196 | `Weekly Overview` is an overview title, by the substring rule |
| Overview.ExamplePlural | streamlit_app.py:194-196 | `Overviews of Markets` is an overview title, by the substring rule |
| Overview.ExampleMarket | streamlit_app.py:194-196 | `Market Summary` is not an overview title |
| Overview.ExampleResults | streamlit_app.py:194-196 | `Summary of Results` is not an overview title |
| Overview.FirstOverviewFrom | streamlit_app.py:198 | the first section from a position whose title passes the test, and None when none does |
| Overview.SelectOverview | streamlit_app.py:198-200 | the overview is the first section that passes the test, else the first section, and None exactly when there are no sections |
| Topics.Rank | streamlit_app.py:19-25 | a name's position in the canonical list, below 5 exactly for the canonical names |
| Topics.CanonicalFrom | streamlit_app.py:213 | the available canonical names from a position on, in strictly increasing canonical position, missing none |
| Topics.TopicList | streamlit_app.py:213 | a name is listed exactly when it is canonical and available; the list follows canonical order and has no repetition |
| Topics.Available | streamlit_app.py:208-212 | a name is available exactly when it is a non-empty section title that differs from the overview's title once both are lower-cased, or a non-empty topic name of the summaries |
| Topics.Excluded | streamlit_app.py:211 | the excluded title is empty without an overview, and otherwise the overview title lower-cased character by character, of the same length |
| Topics.SidebarTopics | streamlit_app.py:206-213 | a topic is offered exactly when it is canonical and is named by the summaries or by a non-overview section; canonical order, no repetition |
| Topics.OverviewTitleHidden | streamlit_app.py:211-212 | a section titled like the overview, ignoring case, is offered only when the summaries name it |
| Topics.SummaryTopicsOffered | streamlit_app.py:208-213 | every canonical topic the summaries name is offered |
| Topics.OnlyCanonicalOffered | streamlit_app.py:213 | a name outside the canonical five is never offered |
| Topics.CanonicalFromSingle | streamlit_app.py:213 | when one canonical name is the only one available, the list is that name alone |
| Topics.SingleTopicOffered | streamlit_app.py:212-213 | when every source names the same canonical topic or none at all, and the summaries name it, the sidebar offers that topic alone |
| Topics.SelectTopic | streamlit_app.py:235-238 | a present non-empty selection stays; otherwise the first offered topic is chosen when there is one, and the selection is unchanged when there is none |
| Topics.SelectTopicSettles | streamlit_app.py:235-238 | with topics on offer some non-empty topic is selected, and applying the default again changes nothing |
| Theme.ThemeAt | streamlit_app.py:101-107 | the insertion point is just after the first `>` that follows the first case-insensitive `<head`, and 0 exactly when there is no such pair |
| Theme.ApplyTheme | streamlit_app.py:101-109 | the themed page is the page up to the insertion point, then the theme, then the rest of the page, with length the sum of both |
| Theme.ThemeRemovable | streamlit_app.py:107 | cutting the theme out of the themed page gives the page back |
| Theme.ThemePrepended | streamlit_app.py:108-109 | a page without a head tag gets the theme in front |
| Theme.StyleSummaryHtml | streamlit_app.py:112-128 | the styled fragment is the stylesheet followed by the fragment, with a missing fragment counting as empty |
| Theme.PyLower | streamlit_app.py:103 | Python's lower-casing never shortens the text |
| Theme.PyLowerLength | streamlit_app.py:103 | lower-casing lengthens the text by exactly one character per dotted capital I |
| Theme.PyLowerKeepsPlaces | streamlit_app.py:103 | Python's lower-casing keeps every character in place on text without a dotted capital I |
| Theme.ApplyThemeAsWritten | streamlit_app.py:101-109 | the splice as the code does it: the index is found in the lower-cased page and used to cut the page itself; the length is the sum of both |
| Theme.AsWrittenAgrees | streamlit_app.py:101-107 | on a page without a dotted capital I, the code as written puts the theme where `ApplyTheme` does |
| Theme.DottedIShiftsTheme | streamlit_app.py:103-107 | on `İ<head><title>` the intended insertion point is 7, but the code as written cuts at index 8, after `İ<head><`, inside `<title>` |
| Theme.DottedIMisplacesTheme | streamlit_app.py:103-107 | on that page, with any theme that does not start with `<`, the code as written gives a different page from the intended splice |
| Panel.LastIndexFor | streamlit_app.py:259-264 | the last fetch record with a given topic name among the first n, and None when there is none |
| Panel.ItemsUpTo | streamlit_app.py:259-264 | the topic-to-items map never has the empty name as a key |
| Panel.ItemsUpToLast | streamlit_app.py:259-265 | a non-empty name is in the map exactly when some record has it, and it maps to the items of the last such record |
| Panel.ArticlesFor | streamlit_app.py:259-265 | the selected topic's articles are the items of the last fetch record with that name, and nothing without a fetch result or a match |
| Panel.LastFetchWins | streamlit_app.py:264-265 | appending a record for the selected topic makes its items the articles shown |
| Panel.LinkOf | streamlit_app.py:269-272 | an article is linked exactly when its url is non-empty; the link text is its title, or the url when the title is empty |
| Panel.Links | streamlit_app.py:268-272 | every further-reading link has a non-empty url and a non-empty text |
| Panel.LinksAppend | streamlit_app.py:268-272 | linking works article by article: the links of two lists are the links of each, in order |
| Panel.LinksAllKept | streamlit_app.py:268-272 | when every article has a url, each is linked, in order |
| Panel.LinksOne | streamlit_app.py:268-272 | a single article with no url gives no link, and one with a url gives exactly its own link; with `LinksAppend` this fixes the links of every list |
| Panel.LinksFromArticles | streamlit_app.py:268-272 | no link is invented: every further-reading link is the link of one of the topic's articles |
| Panel.FurtherReading | streamlit_app.py:265-272 | the further-reading block is shown exactly when the topic has articles, and holds their links |
| Panel.BulletText | streamlit_app.py:254-255 | the bullet markdown is empty exactly when there are no bullets |
| Panel.BulletTextLines | streamlit_app.py:255 | splitting the bullet markdown at newlines gives back one `- b` line per bullet, in order |
| Panel.FirstSummaryFor | streamlit_app.py:242 | the first summaries record with the selected name, and None when there is none |
| Panel.FirstSectionFor | streamlit_app.py:249 | the first section whose title is exactly the selected name, and None when there is none |
| Panel.BodyFor | streamlit_app.py:249-253 | the body is the first matching section's styled body when that body is non-empty, else the summary text in its wrapper when that is non-empty, else nothing |
| Panel.BuildPanel | streamlit_app.py:240-272 | a panel exists exactly when a non-empty topic is selected and some summaries record names it; it holds the heading, the body from the first such record, its bullets when there are any, and the further reading |
| Panel.LaterRecordsIgnored | streamlit_app.py:242 | summaries records after the first for the topic do not change the panel |
| Panel.FirstSummaryPrefix | streamlit_app.py:242 | appending records does not move the first record found for a name |
| View.OverviewTitle | streamlit_app.py:202 | there is an overview title exactly when there are sections, and it is the selected overview's title |
| View.MainSummaryOf | streamlit_app.py:226-231 | the main summary is the overview's styled body when that is non-empty, else the summaries' overview text when that is non-empty, else the placeholder |
| View.SummaryParts | streamlit_app.py:206-207 | without a summaries record the overview text and the topic list are empty |
| View.BuildPage | streamlit_app.py:176-282 | a topic is offered exactly when it is canonical and named by the summaries or by a non-overview section, in canonical order; the selection is the default applied to the kept one; the main summary and the panel are those of the newsletter's sections and the summaries' records; the preview is the themed newsletter, shown exactly when the newsletter is non-empty |
| View.PageSettles | streamlit_app.py:235-238 | rendering again with the selection a rendering kept gives the same page |
| View.CanonicalNamesNonEmpty | streamlit_app.py:19-25 | no canonical topic name is empty |
| View.FallbackOverviewHidden | streamlit_app.py:198-212 | when no heading passes the overview test, the first section's title is not offered unless the summaries name it, even when it is a canonical topic |
| View.NothingYet | streamlit_app.py:176-278 | with no artifacts there are no topics, the main summary is the placeholder, and there is no panel and no preview |
| View.EmptySidebar | streamlit_app.py:212-213 | with no sections and no summaries nothing is offered |
| View.RunningExample | streamlit_app.py:176-272 | a newsletter with an overview section and a `Research & Prevention` section, plus a summaries record naming that topic, shows the overview body, offers and selects exactly that topic, and shows its section body in the panel |

## Left out

- File reading in `read_text_file`, `read_html_file` and `read_json_file`: each artifact is an optional text, where None is a missing or unreadable file.
- `json.loads` and pydantic validation: decoding is a caller-supplied function from text to an optional record. A text that is not a JSON object of the expected shape decodes to None.
- Crash paths on JSON entries that are not objects (`streamlit_app.py:242`, `261-264`), and null values for `items`, `bullets` or `summary`: the raw records are already shaped, and a missing or null value reads as empty.
- The stylesheet texts of `apply_theme` and `style_summary_html`: they are parameters.
- All Streamlit calls: page layout, buttons, the radio widget, the components and the download button.
  - The selection kept between renderings is an explicit optional text.
  - Streamlit's own handling of a radio value that is no longer among the options is not modelled.
- The pipeline run (`run_crew`) and `src/assignment/crew.py` / `src/assignment/main.py`: they configure agents and call external services, and hold no local logic.
- Text.Lower: ASCII lower-casing only. Python's `str.lower` also maps other capitals, such as the Kelvin sign and accented letters, so the overview test and the topic exclusion may differ on such titles. The one case where this shifts indices, U+0130, is modelled in `Theme.PyLower` for the theme splice.
- Python's general regular-expression semantics: only the one `<h2>` expression is modelled, as a scanner. `$` is taken as the end of the text or the position before a final newline.
- SectionsRender.ExtractRenderRoundTrip: proved only for titles without any `<` and bodies without `<h2` anywhere. An extracted title may keep a `<` that opens no tag, and an extracted body may end in a bare `<h2`. Rendered back, that `<h2` and the next heading's `<h2>` form one opening tag, so such sections do not read back.
- Panel.Links: the links are records of text and url. Their markdown rendering is not modelled.
- View.BuildPage: the source reads the final newsletter file twice, once for the sections (`streamlit_app.py:180`) and again for the preview (`streamlit_app.py:276`). The model reads it once (`files.finalHtml`), so both reads are taken to see the same file contents.

## Findings

| source | as written | input that shows it | evidently intended | confidence | as-written member | corrected member |
|---|---|---|---|---|---|---|
| streamlit_app.py:103-107 | the head tag and its `>` are searched for in `html.lower()`, and the index found there is used to cut `html` itself; `str.lower` turns U+0130 into two characters, so every later index is one too far | `İ<head><title>`: the `>` is at 7 in the lower-cased page but at 6 in the page, so the theme goes after `<head><` | insert the theme right after the `>` that closes `<head` in the page itself | high, not executed | Theme.DottedIShiftsTheme | Theme.ApplyTheme |

`Theme.ApplyThemeAsWritten` models the code as written. `Theme.DottedIMisplacesTheme` shows that it differs from the intended splice on the page above. `Theme.AsWrittenAgrees` proves that the two agree on every page without U+0130. `Theme.ApplyTheme` and `Theme.ThemeAt` are the corrected definition that `View` uses, and `Theme.ThemeRemovable` proves that their theme can be cut back out.

## Where the code goes beyond its own comments

- The comment at `streamlit_app.py:209` says the sidebar prefers section titles "excluding Overview". The code excludes every section whose title equals the overview's title once both are lower-cased (`streamlit_app.py:211-212`). That is the overview section and any other section with the same title in another case. The model follows the code (`Topics.Available`).
- The comment at `streamlit_app.py:248` says to "Prefer HTML section content". The code takes the first section with exactly the selected title, and uses the summary text instead when that section's body is empty (`streamlit_app.py:249-253`). The model follows the code (`Panel.BodyFor`).
- The comment at `streamlit_app.py:193` says the overview is a heading "containing 'overview' or 'summary'". The code accepts `overview` anywhere in the heading's letters, but `summary` only as the whole of them, or as `executivesummary` (`streamlit_app.py:196`). So `SUMMARY:` is an overview title (`Overview.ExampleSummary`), while `Market Summary` and `Summary of Results` are not (`Overview.ExampleMarket`, `Overview.ExampleResults`). The model follows the code (`Overview.IsOverviewTitle`).
- A topic's panel is shown only when the summaries record names the topic (`streamlit_app.py:242-243`). With no such record, the newsletter section for the topic is not shown either (`Panel.BuildPanel`).
