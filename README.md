# Statute ingestion and course-to-law requirements, in Dafny

This project models two scripts of the `droitis-next` ingestion tooling and
proves what they promise.

- `scripts/ingest/ingest_laws.py` turns statute pages into `legal_vectors`
  rows, one per provision.
  - LégisQuébec pages are cut into articles. The numbered-article pattern
    is tried first, then the `Article N` line pattern.
  - Justice Laws pages are cut into sections. The DOM strategy is used when
    it yields at least 20 rows; otherwise the section-line text fallback is
    used.
  - Each chunk runs from its match to the next one. The leading marker is
    removed, bodies under 60 characters are dropped, and the citation reads
    `art. N code` or `s. N code`.
  - Rows are deduplicated by `(code_id, jurisdiction, citation)`. The
    longest text wins, and the first wins on a tie.
  - A Justice Laws index page is replaced by its full-text page. The
    dispatcher picks the parser by jurisdiction.
- `scripts/ingest/seed_course_law_requirements.py` builds
  `course_law_requirements` rows from a course-to-law mapping.
  - Course keys are normalised into slugs.
  - Law keys are resolved directly, then through `LAW_KEY_ALIASES`.
  - Missing laws are optionally auto-created with a clamped jurisdiction.
  - The rows of one course and law are merged. Required beats recommended;
    within one priority the smaller rank wins.

## Module layout

| file | module | contents |
|---|---|---|
| `wrappers.dfy` | `Wrappers` | `Option` |
| `strings.dfy` | `Strings` | character classes, `strip`, `rstrip`, `lower`, `in` on strings |
| `best_by_key.dfy` | `BestByKey` | the generic "first entry of a key is stored, a later one replaces it only when its score beats it" dictionary that both `dedupe_rows` and the `rows_by_pair` merge are, with its insertion order |
| `law_rows.dfy` | `LawRows` | the `legal_vectors` row, `normalize_text`, `dedupe_rows` |
| `segmentation.dfy` | `Segmentation` | chunks between matches, marker removal, the per-match row loop |
| `dom_sections.dfy` | `DomSections` | the federal DOM strategy: candidate filter, section number, the `seen` scan |
| `full_text_url.dfy` | `FullTextUrl` | `resolve_justice_laws_fulltext_url`, `urlparse(..).netloc`, the dispatcher's URL tests |
| `ingest_laws.dfy` | `IngestLaws` | the two parsers and `parse_by_jurisdiction` |
| `course_keys.dfy` | `CourseKeys` | `normalize_course_key` |
| `course_law.dfy` | `CourseLaw` | law keys, `resolve_law`, auto-creation, `build_rows` |

**Methods and the loops they model.** The loops of the scripts are methods
proved against specification functions:

- `DedupeRows` maintains `BestByKey.Tracks` over the rows seen so far.
- `ChunkRows` keeps its rows equal to `LongRows` of the pieces so far.
- `DomRows` keeps its `seen` set and rows equal to `ScanWith`.
- `BuildRows` keeps its state equal to `CoursesUpTo`, the course-by-course
  specification of `build_rows`.

**Classes.** The registry table and the caller's `law_map` are classes,
because `build_rows` updates them in place.

**HTML and regular expressions** are inputs.

- A page is the hrefs of its links, its content root's elements and text,
  and the match lists of the article or section patterns (start position
  and captured number).
- Every marker removal is modelled character by character. For each, a
  lemma states that what is removed is a whole match of the pattern, and
  that a chunk starting with such a match loses it.

**The section number of the DOM path.** The pattern
`\d+(?:\.\d+){0,3}` allows up to three dotted groups after the first
digits. `DomSections.MaxSubsections` is 3.

## Model

| member | source | states |
|---|---|---|
| LawRows.NormalizeText | scripts/ingest/ingest_laws.py:41-42 | no non-breaking space is left, neither end is white space, and the result is no longer than the input |
| LawRows.NormalizeTextIdempotent | scripts/ingest/ingest_laws.py:41-42 | normalising normalised text changes nothing |
| LawRows.DedupeRows | scripts/ingest/ingest_laws.py:54-64 | the loop over `best` returns `IsDedupOf(out, rows)`: one row per key, the winner of each key, in order of first key appearance |
| LawRows.DedupeKeptRow | scripts/ingest/ingest_laws.py:59-64 | a kept row is an unchanged input row, at least as long as every input row with its key, and on equal length no later than any of them (strict `>`: the first stays) |
| LawRows.DedupeKeepsLongest | scripts/ingest/ingest_laws.py:59-64 | the output keys are distinct, every output row is an input row and the longest of its key, and every input key is present |
| LawRows.CitationInjective | scripts/ingest/ingest_laws.py:126 | within one prefix and code, equal citations have equal numbers |
| LawRows.Citation | scripts/ingest/ingest_laws.py:126 | the citation starts with the prefix and a space and ends with a space and the code |
| LawRows.WellFormed | scripts/ingest/ingest_laws.py:122-129 | the conflict key of a well-formed row is the law's code and jurisdiction with the row's citation |
| Segmentation.Slice | scripts/ingest/ingest_laws.py:112 | Python slicing `text[start:end]`: the exact slice when the bounds are in range |
| Segmentation.ChunkIsSlice | scripts/ingest/ingest_laws.py:108-112 | for ascending matches, chunk i is `text[start_i..end_i]` with `start_i <= end_i <= len(text)` |
| Segmentation.ChunksFromTile | scripts/ingest/ingest_laws.py:108-112 | the chunks from match k on, concatenated, are the text from match k to its end |
| Segmentation.ChunksTile | scripts/ingest/ingest_laws.py:108-112 | chunk i ends where match i+1 starts, the last chunk ends at the end of the text, and the chunks tile the text from the first match on |
| Segmentation.DotTokenEnd | scripts/ingest/ingest_laws.py:115 | a reported end lies within the chunk, further in than the number's length, and is followed by the end of the chunk or a visible character, so the greedy `\s+` took the whole run of white space; `DotTokenEndMatches` states that it is the end of a match |
| Segmentation.DotTokenEndMatches | scripts/ingest/ingest_laws.py:115 | a reported end is the end of a whole match of `^\s*N\s*\.\s+` at the head of the chunk; and when the chunk starts with such a match, an end is reported |
| Segmentation.DropDotToken | scripts/ingest/ingest_laws.py:115 | the result is a suffix of the chunk; when something was removed, the rest is empty or starts with a visible character; `DropDotTokenMatches` states what was removed |
| Segmentation.DropDotTokenMatches | scripts/ingest/ingest_laws.py:115 | what is removed is a whole match of `^\s*N\s*\.\s+`, and a chunk that starts with such a match loses it |
| Segmentation.LineEndAtOrBefore | scripts/ingest/ingest_laws.py:117 | the last position in a range where a multi-line `$` holds, or none when no line end is in the range |
| Segmentation.WordTokenEnd | scripts/ingest/ingest_laws.py:117 | a reported end lies further in than `Article` and the number together, at a line feed or at the end of the chunk (where a multi-line `$` holds); `WordTokenEndMatches` states that it is the end of a match |
| Segmentation.WordTokenEndMatches | scripts/ingest/ingest_laws.py:117 | a reported end is the end of a whole `Article N` line match (any case) at the head of the chunk; and when the chunk starts with such a line, an end is reported |
| Segmentation.DropWordToken | scripts/ingest/ingest_laws.py:117 | the result is a suffix of the chunk; when something was removed, the rest is empty or starts at a line feed; `DropWordTokenMatches` states what was removed |
| Segmentation.DropWordTokenMatches | scripts/ingest/ingest_laws.py:117 | what is removed is a whole `Article N` line match, and a chunk that starts with such a line loses it |
| Segmentation.SectionTokenEnd | scripts/ingest/ingest_laws.py:250 | a reported end lies within the chunk, further in than the number's length, and is followed by the end of the chunk or a visible character; `SectionTokenEndMatches` states that it is the end of a match |
| Segmentation.SectionTokenEndMatches | scripts/ingest/ingest_laws.py:250 | a reported end is the end of a whole match of `^\s*N\s+` at the head of the chunk; and when the chunk starts with such a match, an end is reported |
| Segmentation.DropSectionToken | scripts/ingest/ingest_laws.py:250 | the result is a suffix of the chunk; when something was removed, the rest is empty or starts with a visible character; `DropSectionTokenMatches` states what was removed |
| Segmentation.DropSectionTokenMatches | scripts/ingest/ingest_laws.py:250 | what is removed is a whole match of `^\s*N\s+`, and a chunk that starts with such a match loses it |
| Segmentation.DomTokenEnd | scripts/ingest/ingest_laws.py:219 | a reported end lies within the text, at least the number's length in, and is followed by the end of the text or a visible character; `DomTokenEndMatches` states that it is the end of a match |
| Segmentation.DomTokenEndMatches | scripts/ingest/ingest_laws.py:219 | a reported end is the end of a whole match of `^\s*N\b\s*` at the head of the text, the `\b` read on the whole text; and when the text starts with such a match, an end is reported |
| Segmentation.DropDomToken | scripts/ingest/ingest_laws.py:219 | the result is a suffix of the text; when something was removed, the rest is empty or starts with a visible character; `DropDomTokenMatches` states what was removed |
| Segmentation.DropDomTokenMatches | scripts/ingest/ingest_laws.py:219 | what is removed is a whole match of `^\s*N\b\s*`, and a text that starts with such a match loses it |
| Segmentation.DropMarker | scripts/ingest/ingest_laws.py:114-117 | each pattern's removal yields a suffix of the chunk; `DropMarkerMatches` and `DropMarkerFinds` state what is removed |
| Segmentation.DropMarkerMatches | scripts/ingest/ingest_laws.py:114-117 | what the removal for the chosen pattern cuts off is a whole match of that pattern |
| Segmentation.DropMarkerFinds | scripts/ingest/ingest_laws.py:114-117 | a chunk that starts with a match of the chosen pattern loses it |
| Segmentation.Prefix | scripts/ingest/ingest_laws.py:126 | the citation prefix is `s.` exactly for the section pattern, else `art.` |
| Segmentation.Pieces | scripts/ingest/ingest_laws.py:108-111 | one piece per match, in match order, holding the match's number and chunk |
| Segmentation.ProvisionRow | scripts/ingest/ingest_laws.py:122-129 | the row has the citation `prefix N code`, the body as text and no title; with a body of at least 60 characters it is well formed |
| Segmentation.LongRows | scripts/ingest/ingest_laws.py:119-120 | the length filter keeps at most as many rows as it is given |
| Segmentation.LongRowsSound | scripts/ingest/ingest_laws.py:119-129 | every kept row is the row of a piece whose text has at least 60 characters |
| Segmentation.LongRowsComplete | scripts/ingest/ingest_laws.py:119-129 | every piece whose row text has at least 60 characters gives its row |
| Segmentation.ChunkRowsSound | scripts/ingest/ingest_laws.py:108-129 | every row of the per-match loop is well formed and is the row of one match's chunk |
| Segmentation.ChunkRowsComplete | scripts/ingest/ingest_laws.py:108-129 | every match whose body is long enough yields its row |
| Segmentation.CutChunk | scripts/ingest/ingest_laws.py:109-117 | the body of match i is `PieceBody`: the chunk stripped, cut at some position and stripped again, where a non-zero cut is a whole match of the chosen pattern and a chunk that starts with a match of it is cut |
| Segmentation.AppendChunkRow | scripts/ingest/ingest_laws.py:119-129 | the loop body appends the match's row exactly when its body has at least 60 characters |
| Segmentation.ChunkRows | scripts/ingest/ingest_laws.py:107-129 | the `for i, m in enumerate(matches)` loop returns `ChunkRowsOf`: one row per long enough chunk, in match order |
| DomSections.JoinClasses | scripts/ingest/ingest_laws.py:195 | `" ".join` of no class is `""` and of one class is that class; `JoinClassesAppend` states the case of two or more |
| DomSections.JoinClassesAppend | scripts/ingest/ingest_laws.py:195 | joining two non-empty lists of classes is joining their joins with one space between |
| DomSections.JoinClassesMention | scripts/ingest/ingest_laws.py:195-196 | a word without a space occurs in the lower-cased joined classes exactly when it occurs in one lower-cased class |
| DomSections.IsSectionCandidate | scripts/ingest/ingest_laws.py:194-196 | an element is a candidate exactly when one of its lower-cased classes contains `section`, or its lower-cased id starts with `s-` or contains `section` |
| DomSections.Candidates | scripts/ingest/ingest_laws.py:192-197 | the candidates are exactly the elements `IsSectionCandidate` accepts, no more than there are elements; `CandidatesSnoc` and `CandidatesAppend` state the order |
| DomSections.CandidatesSnoc | scripts/ingest/ingest_laws.py:193-197 | one more element at the end is appended exactly when it is a candidate |
| DomSections.CandidatesAppend | scripts/ingest/ingest_laws.py:193-197 | the candidates of a concatenation are the candidates of each part, in order: document order, each occurrence once |
| DomSections.CollectCandidates | scripts/ingest/ingest_laws.py:192-197 | the first DOM loop returns `Candidates(elements)` |
| DomSections.DottedPrefix | scripts/ingest/ingest_laws.py:200 | what `\d+(?:\.\d+){0,k}\b` matches at the head, with backtracking: a number of at most k groups ending at a word boundary; none exactly when there is no leading digit or the digits run into a word character |
| DomSections.HeadNumberFound | scripts/ingest/ingest_laws.py:200 | a section number at the head of the text starts where its leading white space ends, and `DottedPrefix` finds a number there |
| DomSections.LeadingSectionNumber | scripts/ingest/ingest_laws.py:200-212 | a number is found exactly when `^\s*(\d+(?:\.\d+){0,3})\b` matches the text; a found number is a section number that starts right after the leading white space and ends at a word boundary |
| DomSections.OfferedNumber | scripts/ingest/ingest_laws.py:204-212 | a candidate offers a number exactly when its normalised text has at least 40 characters and the head pattern matches it; the number is a section number |
| DomSections.DomBody | scripts/ingest/ingest_laws.py:219 | the body is the normalised text cut at some position and stripped; a non-zero cut is a whole match of `^\s*N\b\s*`, and a text that starts with such a match is cut |
| DomSections.OfferOf | scripts/ingest/ingest_laws.py:204-219 | a candidate offers something exactly when it offers a number, and then a section number |
| DomSections.OffersOf | scripts/ingest/ingest_laws.py:203 | the offers of the candidates, one per candidate, in order |
| DomSections.OfferRow | scripts/ingest/ingest_laws.py:223-230 | the row has citation `s. N code` and the body as text; a long enough body makes it well formed |
| DomSections.Consider | scripts/ingest/ingest_laws.py:213-230 | a scan step adds no row that is not well formed |
| DomSections.ScanUpTo | scripts/ingest/ingest_laws.py:202-230 | every row of the scan is well formed |
| DomSections.ScanWithOffers | scripts/ingest/ingest_laws.py:203-204 | scanning the candidates is scanning their offers |
| DomSections.ScanSeen | scripts/ingest/ingest_laws.py:213-216 | `seen` holds exactly the keys `(code_id, jurisdiction, N)` of the numbers offered so far, whatever their body length |
| DomSections.ScanStep | scripts/ingest/ingest_laws.py:213-230 | an offer changes the scan exactly when it is the first of its number; it then adds its key, and its row when the body has at least 60 characters |
| DomSections.ScanRowsSound | scripts/ingest/ingest_laws.py:202-230 | every DOM row is the row of the first candidate of its number, with a long enough body |
| DomSections.ScanRowsComplete | scripts/ingest/ingest_laws.py:202-230 | every candidate that is the first of its number and has a long enough body gives its row |
| DomSections.ScanCitationsSeen | scripts/ingest/ingest_laws.py:213-227 | every row's citation carries a number whose key is in `seen` |
| DomSections.ScanCitationsDistinct | scripts/ingest/ingest_laws.py:213-227 | no two DOM rows share a citation |
| DomSections.DomRowsSpec | scripts/ingest/ingest_laws.py:202-230 | the DOM rows are well formed with distinct citations, and are exactly the rows of the first candidates of each number whose body is long enough |
| DomSections.ConsiderCandidate | scripts/ingest/ingest_laws.py:204-230 | the second loop's body for one candidate is the scan step `Consider` |
| DomSections.DomRows | scripts/ingest/ingest_laws.py:202-230 | the second DOM loop returns `DomRowsOf(cands)` |
| FullTextUrl.FullTextLinks | scripts/ingest/ingest_laws.py:148-152 | the candidates are exactly the hrefs naming a full-text page, and the first of them is the first such link of the page |
| FullTextUrl.IsFullTextLink | scripts/ingest/ingest_laws.py:151 | an href the case-sensitive link pattern accepts also passes the case-insensitive `is_full` test |
| FullTextUrl.CleanUrl | scripts/ingest/ingest_laws.py:162 | the URL `urlsplit` reads holds no tab or line break |
| FullTextUrl.AfterScheme | scripts/ingest/ingest_laws.py:162 | what follows the scheme is the URL itself, or what follows its first `:` |
| FullTextUrl.Netloc | scripts/ingest/ingest_laws.py:162 | the authority part holds no `/`, `?`, `#`, tab or line break |
| FullTextUrl.CleanUrlOfClean | scripts/ingest/ingest_laws.py:162 | a URL starting with a visible character and holding no tab or line break is read as it is |
| FullTextUrl.NetlocOfHttps | scripts/ingest/ingest_laws.py:162 | the authority part of `https://host/rest` is `host` |
| FullTextUrl.Absolutize | scripts/ingest/ingest_laws.py:157-165 | an `http` href is returned as is; a root-relative one follows `https://` and the page's authority part; any other follows the page URL with its trailing slashes removed and one slash; the result always ends with the href |
| FullTextUrl.ResolvedUrlSpec | scripts/ingest/ingest_laws.py:148-165 | the resolver returns nothing exactly when no link names the full text, and otherwise the first such link made absolute |
| FullTextUrl.ResolvedUrl | scripts/ingest/ingest_laws.py:279-285 | a resolved URL is non-empty (so `if full_url:` takes it), is itself full text and is never resolved again |
| FullTextUrl.ResolveFullTextUrl | scripts/ingest/ingest_laws.py:144-165 | the candidate loop and the three branches compute `ResolvedUrl` |
| FullTextUrl.EndsWithFullTextLink | scripts/ingest/ingest_laws.py:279 | a URL ending with a full-text href is non-empty and counts as a full-text URL for `is_full` |
| FullTextUrl.IsJusticeLawsUrl | scripts/ingest/ingest_laws.py:281 | only a URL with a `//` authority part at least as long as the host name passes the host test |
| FullTextUrl.IsFullTextUrl | scripts/ingest/ingest_laws.py:278-279 | the test ignores case: a URL containing `TexteComplet.html` or `FullText.html` passes |
| FullTextUrl.NeedsResolve | scripts/ingest/ingest_laws.py:281 | a URL that itself names a full-text page, or has no `//` authority part, is never resolved |
| IngestLaws.ParseLegisQuebecArticles | scripts/ingest/ingest_laws.py:94-131 | the Quebec parser returns the deduplicated rows of the pattern it chose |
| IngestLaws.QuebecStrategy | scripts/ingest/ingest_laws.py:97-102 | the pattern is one of the two article patterns; the `Article N` pattern is used only when the numbered one matches nowhere; no matches are left only when neither matches |
| IngestLaws.QuebecRows | scripts/ingest/ingest_laws.py:104-129 | every row before deduplication is well formed with `art.`; without matches there are none |
| IngestLaws.NoRowsWithoutMatches | scripts/ingest/ingest_laws.py:104-105 | no matches give no rows |
| IngestLaws.DedupOfNothing | scripts/ingest/ingest_laws.py:64 | deduplicating no rows gives no rows, and only that |
| IngestLaws.QuebecSpec | scripts/ingest/ingest_laws.py:97-131 | the rows have distinct citations and are well formed with `art.`; each is a match's row of the chosen pattern; the word pattern is used exactly when the dot pattern matches nowhere; nothing comes out when neither matches |
| IngestLaws.DistinctCitations | scripts/ingest/ingest_laws.py:126-131 | deduplicated rows of one law have distinct citations |
| IngestLaws.ParseJusticeLawsSections | scripts/ingest/ingest_laws.py:167-264 | no content root gives no rows; otherwise the deduplicated `FederalRows`: the DOM rows when there are at least 20, else the text fallback's rows |
| IngestLaws.FederalRows | scripts/ingest/ingest_laws.py:202-262 | every row before deduplication is well formed with `s.`; with fewer than 20 DOM rows and no section line there are none |
| IngestLaws.FederalSpec | scripts/ingest/ingest_laws.py:232-264 | rows are well formed with `s.` and have distinct citations; with at least 20 DOM rows all of them are returned; with fewer, every row comes from the fallback |
| IngestLaws.DedupOfDistinct | scripts/ingest/ingest_laws.py:233-234 | deduplicating rows with distinct citations keeps every one |
| IngestLaws.FederalSourcePage | scripts/ingest/ingest_laws.py:277-286 | the page parsed is the fetched full-text page exactly when the URL is on the Justice Laws host, is not already full text, and the index links to the full text |
| IngestLaws.FederalPage | scripts/ingest/ingest_laws.py:277-286 | the page is the given one unless the URL needs resolving; otherwise it is the given page or the fetch of a non-empty full-text URL |
| IngestLaws.ParseByJurisdiction | scripts/ingest/ingest_laws.py:272-290 | `QC` gives the Quebec parser's rows, `CA-FED` the federal parser's rows of the resolved page, and any other jurisdiction no rows |
| Strings.Strip | scripts/ingest/seed_course_law_requirements.py:67 | `str.strip()`: no white space at either end, no new characters, no longer |
| Strings.Trim | scripts/ingest/seed_course_law_requirements.py:62 | `strip(chars)`: the middle slice once the runs of the stripped characters at both ends are cut off |
| Strings.StripIdempotent | scripts/ingest/seed_course_law_requirements.py:67 | stripping twice is stripping once |
| Strings.TrimEnd | scripts/ingest/ingest_laws.py:164 | `rstrip(chars)`: the longest prefix not ending in a stripped character; what is cut off is only such characters |
| Strings.Lower | scripts/ingest/ingest_laws.py:142 | `lower()` keeps the length and maps each character by `LowerChar` |
| Strings.LowerChar | scripts/ingest/ingest_laws.py:142 | an ASCII capital becomes its lower-case letter and every other character stays |
| CourseKeys.FoldChars | scripts/ingest/seed_course_law_requirements.py:50-54 | every character comes from folding a character of the key; one character folds to `fold` of it; an identity fold changes nothing; `FoldCharsAppend` states that folding goes character by character |
| CourseKeys.FoldCharsAppend | scripts/ingest/seed_course_law_requirements.py:53-54 | folding a concatenation folds each part: the fold is applied character by character |
| CourseKeys.ControlsToSpace | scripts/ingest/seed_course_law_requirements.py:57 | line feeds, carriage returns and tabs become spaces and nothing else changes |
| CourseKeys.CollapseRuns | scripts/ingest/seed_course_law_requirements.py:58-62 | a run of a class becomes one replacement: no two neighbours are in the class, and every other character is an original one outside the class |
| CourseKeys.CollapseRunsKeepsOthers | scripts/ingest/seed_course_law_requirements.py:58-62 | the characters outside a class holding the collapsed class and the replacement stay, in order |
| CourseKeys.TightenHyphens | scripts/ingest/seed_course_law_requirements.py:59 | removing the space around hyphens adds no character |
| CourseKeys.TightenHyphensKeepsOthers | scripts/ingest/seed_course_law_requirements.py:59 | only white space is removed: every other character stays, in order |
| CourseKeys.TightenHyphensTight | scripts/ingest/seed_course_law_requirements.py:59 | no white space is left next to a hyphen: a hyphen is never followed by white space, and white space never by a hyphen |
| CourseKeys.PunctuationToHyphen | scripts/ingest/seed_course_law_requirements.py:61 | every non-word character other than `-` becomes `-`, and word characters stay |
| CourseKeys.CleanSpaces | scripts/ingest/seed_course_law_requirements.py:57-58 | only spaces are added; every white character left is a space, no two are neighbours, and neither end is white |
| CourseKeys.CleanSpacesKeepsOthers | scripts/ingest/seed_course_law_requirements.py:57-58 | only white space is removed or rewritten: every other character stays, in order |
| CourseKeys.Hyphenate | scripts/ingest/seed_course_law_requirements.py:59-61 | every character is `-` or a slug character of the input other than `_`, `/` and the vertical bar |
| CourseKeys.HyphenateKeepsAlnums | scripts/ingest/seed_course_law_requirements.py:59-61 | the letters and digits stay, in order |
| CourseKeys.TrimHyphens | scripts/ingest/seed_course_law_requirements.py:62 | no two hyphens in a row and none at either end |
| CourseKeys.TrimHyphensKeepsOthers | scripts/ingest/seed_course_law_requirements.py:62 | only hyphens are removed: every other character stays, in order |
| CourseKeys.NoTwoHyphensInRow | scripts/ingest/seed_course_law_requirements.py:62 | having no two neighbouring hyphens is the same as not containing `--` |
| CourseKeys.NormalizeCourseKey | scripts/ingest/seed_course_law_requirements.py:47-63 | an empty key gives `""`; the slug holds only word characters (not `_`) and `-`, has no `--`, and neither starts nor ends with `-`; its other characters come from the folded key |
| CourseKeys.NormalizeCourseKeyKeepsAlnums | scripts/ingest/seed_course_law_requirements.py:47-63 | the key keeps every letter and digit of the stripped, folded input, in order |
| CourseKeys.CollapseRunsKeeps | scripts/ingest/seed_course_law_requirements.py:58-62 | collapsing changes nothing when the class appears only as the replacement and never twice in a row |
| CourseKeys.TightenHyphensKeeps | scripts/ingest/seed_course_law_requirements.py:59 | tightening changes nothing without white space |
| CourseKeys.CleanSpacesKeeps | scripts/ingest/seed_course_law_requirements.py:57-58 | the space cleaning changes nothing without white space |
| CourseKeys.HyphenateKeeps | scripts/ingest/seed_course_law_requirements.py:59-61 | hyphenation changes nothing in slug characters without `_` |
| CourseKeys.TrimHyphensKeeps | scripts/ingest/seed_course_law_requirements.py:62 | the hyphen trim changes nothing without `--` or edge hyphens |
| CourseKeys.SlugIsFixed | scripts/ingest/seed_course_law_requirements.py:47-63 | a lower-case slug is its own normalised key |
| CourseKeys.NormalizeCourseKeyIdempotent | scripts/ingest/seed_course_law_requirements.py:47-63 | normalising a normalised key changes nothing |
| CourseLaw.NormalizeLawKey | scripts/ingest/seed_course_law_requirements.py:66-67 | a missing key is `""`; the key is stripped and gains no character |
| CourseLaw.NormalizeLawKeyIdempotent | scripts/ingest/seed_course_law_requirements.py:66-67 | a normalised law key is its own normal form |
| CourseLaw.AliasOf | scripts/ingest/seed_course_law_requirements.py:108-113 | the creation key is the key itself unless it is an alias; it is never an alias, never blank for a non-blank key, and normalised when the key is |
| CourseLaw.ResolveLaw | scripts/ingest/seed_course_law_requirements.py:144-162 | a found entry is an entry of the law map |
| CourseLaw.ResolveLawSpec | scripts/ingest/seed_course_law_requirements.py:144-162 | blank resolves to nothing; a stored key to its own entry; the alias only on a direct miss and only when stored; nothing exactly when neither is stored |
| CourseLaw.ClampJurisdiction | scripts/ingest/seed_course_law_requirements.py:177-181 | the result is one of QC, CA-FED, CA, OTHER: the stripped code when accepted, else OTHER (missing, blank and unknown alike) |
| CourseLaw.ClampJurisdictionIdempotent | scripts/ingest/seed_course_law_requirements.py:177-181 | clamping an accepted code keeps it |
| CourseLaw.CodesAreStripped | scripts/ingest/seed_course_law_requirements.py:180 | the accepted codes have no white space to strip |
| CourseLaw.NewRegistryEntry | scripts/ingest/seed_course_law_requirements.py:176-201 | the created entry has the normalised key, `canonical_code_id` equal to it, an accepted jurisdiction equal to its bucket, status `to_ingest` and the given title |
| CourseLaw.CreatedIsFound | scripts/ingest/seed_course_law_requirements.py:361-369 | a law that does not resolve is created under a key not yet stored, and once stored that key resolves to the new entry |
| CourseLaw.RegistryTable.Upsert | scripts/ingest/seed_course_law_requirements.py:193 | the row is stored under its law key, replacing the one there, and nothing else changes |
| CourseLaw.AutoCreateLawRegistryRow | scripts/ingest/seed_course_law_requirements.py:165-201 | the imperative clamp returns `NewRegistryEntry` and upserts it into the table |
| CourseLaw.ResolveCourse | scripts/ingest/seed_course_law_requirements.py:339-347 | a found slug is non-empty and a value of the lookup; the stripped key wins when it hits; nothing exactly when both the stripped and the normalised key miss or map to `""` |
| CourseLaw.Weight | scripts/ingest/seed_course_law_requirements.py:332 | weights are 1 and 2, and 2 exactly for required |
| CourseLaw.StatusOf | scripts/ingest/seed_course_law_requirements.py:383-384 | `ingested` exactly when the stripped registry status is `ingested` |
| CourseLaw.MergeRow | scripts/ingest/seed_course_law_requirements.py:398-407 | the `rows_by_pair` merge keeps `Tracks` of the offered rows with one more row, touching nothing else |
| CourseLaw.AddItem | scripts/ingest/seed_course_law_requirements.py:355-358 | an item without a law key changes nothing; otherwise the state follows `ItemStep` |
| CourseLaw.AddLaw | scripts/ingest/seed_course_law_requirements.py:360-381 | resolve, create or report: the state follows `LawStep` |
| CourseLaw.CreateLaw | scripts/ingest/seed_course_law_requirements.py:361-371 | the created entry is `NewRegistryEntry` of the aliased key, it is stored in the law map and the table, and the pair is reported created |
| CourseLaw.OfferRow | scripts/ingest/seed_course_law_requirements.py:375-407 | a blank canonical code is reported missing; otherwise the row is merged, as `Offer` says |
| CourseLaw.AddItems | scripts/ingest/seed_course_law_requirements.py:353-357 | the `enumerate(items, start=1)` loop follows `ItemsUpTo` with 1-based ranks |
| CourseLaw.BuildRows | scripts/ingest/seed_course_law_requirements.py:317-409 | the rows are `IsBestOf` the offered rows under (weight, smaller rank); the three report lists, the law map and the table are those of `Built` |
| CourseLaw.MergeSpec | scripts/ingest/seed_course_law_requirements.py:398-409 | at most one row per (course, law); each an offered row; every offered pair present; a required offer makes the kept row required; within its priority the kept row has the smallest rank |
| CourseLaw.Offer | scripts/ingest/seed_course_law_requirements.py:377-396 | an entry yields exactly one of a row and a missing report, and changes neither the law map, the table, the unresolved list nor the created list |
| CourseLaw.ItemStep | scripts/ingest/seed_course_law_requirements.py:355-357 | an item yields one row or report when it has a law key and none without; no course is reported |
| CourseLaw.LawStep | scripts/ingest/seed_course_law_requirements.py:359-396 | an item with a key yields one row or report; no law-map key is lost; a creation is reported only under auto-creation, once; no course is reported |
| CourseLaw.ItemsUpTo | scripts/ingest/seed_course_law_requirements.py:353-357 | n items yield between 0 and n rows or reports; no course is reported |
| CourseLaw.CourseStep | scripts/ingest/seed_course_law_requirements.py:339-357 | a course is added to the unresolved list exactly when it does not resolve, and then offers no row and reports no law |
| CourseLaw.CoursesUpTo | scripts/ingest/seed_course_law_requirements.py:338-357 | the unresolved list only grows at its end, by at most one key per course, and each new key is the key of one of the first n courses |
| CourseLaw.Built | scripts/ingest/seed_course_law_requirements.py:338-350 | the unresolved list is no longer than the mapping and holds only mapping keys |
| CourseLaw.EntryFor | scripts/ingest/seed_course_law_requirements.py:359-370 | the entry an item is offered with is a stored one, or a new `to_ingest` entry under the normalised aliased key whose canonical code is that key |
| CourseLaw.LawStepOffers | scripts/ingest/seed_course_law_requirements.py:359-396 | an item offers at most one row, of its course and list; the row has the item's rank, and the law key, stripped canonical code and status of the entry its key resolved to or was created as (`EntryFor`); no course is reported |
| CourseLaw.LawStepOutcome | scripts/ingest/seed_course_law_requirements.py:359-381 | an item with a key gives exactly one of a row and a missing report; the report exactly when its law is unresolved with creation off, or resolves to a blank canonical code; a created law always gives a row |
| CourseLaw.OfferOffers | scripts/ingest/seed_course_law_requirements.py:375-396 | offering an entry adds at most its row |
| CourseLaw.ItemStepOffers | scripts/ingest/seed_course_law_requirements.py:355-357 | an item without a law key offers nothing |
| CourseLaw.ItemsUpToOffers | scripts/ingest/seed_course_law_requirements.py:353-396 | a list's rows come after the earlier rows, each of its course and list, with rank between 1 and the list length |
| CourseLaw.ExtendOffers | scripts/ingest/seed_course_law_requirements.py:354 | rows up to position n-1, then one at n, are rows up to n |
| CourseLaw.UnresolvedKeys | scripts/ingest/seed_course_law_requirements.py:348-350 | every listed key is the key of a course that resolves to nothing |
| CourseLaw.CourseStepOffers | scripts/ingest/seed_course_law_requirements.py:339-357 | an unresolved course is reported and offers nothing; a resolved one reports nothing and offers only rows of its own lists |
| CourseLaw.ExtendCourseRows | scripts/ingest/seed_course_law_requirements.py:338-357 | what n-1 courses add, then the n-th, is what n courses add |
| CourseLaw.CoursesUpToOffers | scripts/ingest/seed_course_law_requirements.py:338-357 | after n courses, the unresolved list is `UnresolvedKeys` and every new row comes from one of them |
| CourseLaw.BuiltCourses | scripts/ingest/seed_course_law_requirements.py:338-357 | over a run, `unresolved_courses` lists exactly the keys of the unresolved courses in mapping order, and every row comes from a resolved course's list, at a 1-based position of that list |
| CourseLaw.OfferGrows | scripts/ingest/seed_course_law_requirements.py:375-381 | offering a stored entry leaves the law map alone and reports only a blank canonical code |
| CourseLaw.LawStepGrows | scripts/ingest/seed_course_law_requirements.py:359-381 | an item never replaces a law-map entry; a new entry is a reported creation; nothing is created without auto-creation |
| CourseLaw.ItemStepGrows | scripts/ingest/seed_course_law_requirements.py:355-381 | the same for an item that may lack a key |
| CourseLaw.ItemsUpToGrows | scripts/ingest/seed_course_law_requirements.py:353-381 | the same for a whole list |
| CourseLaw.CourseStepGrows | scripts/ingest/seed_course_law_requirements.py:339-381 | the same for one course |
| CourseLaw.CoursesUpToGrows | scripts/ingest/seed_course_law_requirements.py:338-381 | the same for the first n courses |
| CourseLaw.BuiltLaws | scripts/ingest/seed_course_law_requirements.py:359-381 | over a run: no law-map entry is replaced; every new entry is an auto-created one reported in `created_laws`, and every reported one is such an entry; without auto-creation nothing is created; with it, a law is missing only for a blank canonical code |

## Left out

- Network I/O: `fetch_html`, the `requests` calls and the timeout. The
  dispatcher's re-fetch is a function parameter `fetch`.
- Database access:
  - `upsert_legal_vectors`, `mark_ingested` and the `main` loops of both
    scripts;
  - `get_supabase`, `build_course_lookup`, `load_law_registry_map` and
    `upsert_course_law_requirements`.
  - The create step's `upsert` is the `RegistryTable` class.
- The `print` calls and the log lines.
- HTML parsing (`BeautifulSoup`, the tag removal of `extract_main_text`)
  and the regular-expression engine's search. Their outputs are inputs:
  - the elements and text of the content root;
  - the hrefs of the links;
  - the match lists.
  The match lists are assumed to be what `finditer` reports. The tiling
  lemmas require them ascending.
- `parse_mapping_file` and its JSON decoding. The mapping is an input list
  of course entries in file order. A missing list is an empty one.
- Strings.IsWordChar, Strings.IsDigit, Strings.Lower: `\w`, `\d` and
  `lower()` are modelled for ASCII only. Python's `str` patterns also
  accept the other Unicode letters and digits.
- CourseKeys.NormalizeCourseKey: lower-casing, NFD decomposition and the
  removal of nonspacing marks are the parameter `fold`, applied character
  by character. Context-dependent lower-casing (the final sigma) is not
  captured. Its own contract states the shape of the slug;
  `NormalizeCourseKeyKeepsAlnums` states that the letters and digits of
  the folded key stay, in order.
- FullTextUrl.Netloc: models `urlsplit`'s authority part. It does not
  model the `ValueError`s that `urlsplit` raises: on unbalanced brackets in
  the authority, and in `_checknetloc`, on a non-ASCII authority whose
  NFKC normalisation brings in one of `/`, `?`, `#`, `@` or `:`. Both
  exceptions would end the dispatcher's call; the model returns a string.
- Segmentation.DropWordToken: the multi-line `re.sub` of the `Article N`
  line is modelled at the head of a chunk only. Any such line elsewhere in
  a chunk would itself be a match, and so the start of another chunk.
  The function states only that the result is a suffix;
  `DropWordTokenMatches` states what is removed.
- Segmentation.DotTokenEnd: the function states only where a reported end lies;
  `DotTokenEndMatches` states that it ends a match and that a leading match is found.
- Segmentation.WordTokenEnd: the function states only where a reported end lies;
  `WordTokenEndMatches` states that it ends a match and that a leading match is found.
- Segmentation.SectionTokenEnd: the function states only where a reported end lies;
  `SectionTokenEndMatches` states that it ends a match and that a leading match is found.
- Segmentation.DomTokenEnd: the function states only where a reported end lies;
  `DomTokenEndMatches` states that it ends a match and that a leading match is found.
- Segmentation.DropDotToken: the function states only that the result is a suffix;
  `DropDotTokenMatches` states what is removed and that a leading match is removed.
- Segmentation.DropSectionToken: the function states only that the result is a suffix;
  `DropSectionTokenMatches` states what is removed and that a leading match is removed.
- Segmentation.DropDomToken: the function states only that the result is a suffix;
  `DropDomTokenMatches` states what is removed and that a leading match is removed.
- Segmentation.DropMarker: the function states only that the result is a
  suffix; `DropMarkerMatches`, `DropMarkerFinds` and `MarkerCut` state what
  is removed.
- DomSections.JoinClasses: the function covers no class and one class;
  `JoinClassesAppend` states the join of two or more.
- DomSections.Candidates: the function states membership;
  `CandidatesSnoc` and `CandidatesAppend` state document order and
  multiplicity.
- CourseKeys.FoldChars: the function states provenance; `FoldCharsAppend`
  states that folding goes character by character, in order.
- CourseKeys.CollapseRuns: the function states the shape of its result;
  `CollapseRunsKeepsOthers` states that the other characters stay, in order.
- CourseKeys.TightenHyphens: the function states only that it adds no
  character; `TightenHyphensKeepsOthers` states that the other characters
  stay, in order, and `TightenHyphensTight` that no white space is left
  next to a hyphen.
- CourseKeys.CleanSpaces: the function states the shape of its result;
  `CleanSpacesKeepsOthers` states that the other characters stay, in order.
- CourseKeys.TrimHyphens: the function states the shape of its result;
  `TrimHyphensKeepsOthers` states that the other characters stay, in order.
- CourseKeys.Hyphenate: the function states provenance;
  `HyphenateKeepsAlnums` states that the letters and digits stay, in order.
- IngestLaws.FederalSpec: with fewer than 20 DOM rows, the result is
  stated as drawn from the fallback's rows (membership), not as the exact
  deduplicated list. `IngestLaws.ParseJusticeLawsSections` states the
  exact list.
- CourseLaw.Requirement: the `requirement_type` column is not a separate
  field. It always equals `priority`.
- CourseLaw.NewRegistryEntry: the `source_url: None` of the upserted row
  is not modelled. The row returned to `build_rows` has no such field.
