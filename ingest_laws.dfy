/** The two statute parsers of `ingest_laws.py` — LégisQuébec articles and
    Justice Laws sections — and the dispatcher that picks one by
    jurisdiction. */
module IngestLaws {
  import opened Wrappers
  import opened Strings
  import opened BestByKey
  import opened LawRows
  import opened Segmentation
  import opened DomSections
  import opened FullTextUrl

  /** The content root of a page once its scripts, styles, headers, footers
      and navigation are removed: `<main>`, or `<body>` when there is none.
      `elements` are its descendants in document order, `text` is its text
      (`get_text("\n", strip=True)`) and `sectionLines` the matches of the
      section-line pattern `^\s*(N)\s+<letter>.+$` over that text once
      normalised. */
  datatype MainContent = MainContent(elements: seq<Element>, text: string, sectionLines: seq<Match>)

  /** A fetched HTML page as the HTML parser and the article patterns read
      it: the hrefs of its links, its content root if it has one, the text
      of the whole page, and the matches of the article patterns
      `^\s*(N)\s*\.\s+` and `^\s*Article\s+(N)\s*$` over the normalised
      text of the content root (of the whole page when there is none). */
  datatype Document = Document(links: seq<string>, main: Option<MainContent>, pageText: string,
                               articleDots: seq<Match>, articleWords: seq<Match>)

  /** The DOM strategy's rows are used only when there are at least this
      many of them. */
  const DomMinRows := 20

  // ---------------------------------------------------------------------
  // LégisQuébec
  // ---------------------------------------------------------------------

  /** `extract_main_text`: the normalised text of the content root, or of
      the whole page when there is none. */
  function QuebecText(d: Document): string {
    NormalizeText(if d.main.Some? then d.main.value.text else d.pageText)
  }

  /** The pattern the Quebec parser cuts with and its matches: the
      numbered-article pattern, unless it matches nowhere, in which case the
      `Article N` line pattern. */
  function QuebecStrategy(d: Document): (s: (Marker, seq<Match>))
    ensures s.0 != SectionNumber
    ensures s.0 == ArticleWord ==> d.articleDots == []
    ensures s.1 == [] <==> d.articleDots == [] && d.articleWords == []
  {
    if d.articleDots != [] then (ArticleDot, d.articleDots) else (ArticleWord, d.articleWords)
  }

  /** The rows the Quebec parser has before removing duplicates. */
  function QuebecRows(d: Document, law: Law): (rows: seq<Row>)
    ensures forall r :: r in rows ==> WellFormed(r, law, "art.")
    ensures d.articleDots == [] && d.articleWords == [] ==> rows == []
  {
    var (mk, ms) := QuebecStrategy(d);
    ChunkRowsSound(QuebecText(d), ms, mk, law);
    NoRowsWithoutMatches(QuebecText(d), mk, law);
    ChunkRowsOf(QuebecText(d), ms, mk, law)
  }

  /** `parse_legisquebec_articles`. */
  method ParseLegisQuebecArticles(d: Document, law: Law) returns (rows: seq<Row>)
    ensures IsDedupOf(rows, QuebecRows(d, law))
  {
    var text := QuebecText(d);
    var matches, mode := d.articleDots, ArticleDot;
    if matches == [] {
      matches, mode := d.articleWords, ArticleWord;
    }
    if matches == [] {
      NoRowsWithoutMatches(text, mode, law);
      return [];
    }
    var all := ChunkRows(text, matches, mode, law);
    rows := DedupeRows(all);
  }

  /** No matches, no rows; and removing duplicates from nothing leaves
      nothing. */
  lemma NoRowsWithoutMatches(text: string, mk: Marker, law: Law)
    ensures ChunkRowsOf(text, [], mk, law) == []
    ensures IsDedupOf([], [])
  {
    assert Pieces(text, []) == [];
  }

  /** The only result of removing duplicates from no rows is no rows. */
  lemma DedupOfNothing(out: seq<Row>)
    ensures IsDedupOf(out, []) <==> out == []
  {
    if out != [] {
      assert !IsWinner(out[0], [], RowKey, TextLength);
    }
  }

  /** What the Quebec parser returns: rows with distinct citations, each
      well formed with the `art.` prefix; each is the row of a numbered
      article match when there is any, and otherwise the row of an
      `Article N` line match; nothing comes out when neither matches. */
  lemma QuebecSpec(out: seq<Row>, d: Document, law: Law)
    requires IsDedupOf(out, QuebecRows(d, law))
    ensures forall r :: r in out ==> WellFormed(r, law, "art.")
    ensures forall i, j :: 0 <= i < j < |out| ==> out[i].citation != out[j].citation
    ensures d.articleDots != [] ==>
              forall r :: r in out ==>
                exists i :: 0 <= i < |d.articleDots| && r == PieceRow(ArticleDot, law)(Piece(d.articleDots[i].num, Chunk(QuebecText(d), d.articleDots, i)))
    ensures d.articleDots == [] ==>
              forall r :: r in out ==>
                exists i :: 0 <= i < |d.articleWords| && r == PieceRow(ArticleWord, law)(Piece(d.articleWords[i].num, Chunk(QuebecText(d), d.articleWords, i)))
    ensures d.articleDots == [] && d.articleWords == [] ==> out == []
  {
    var (mk, ms) := QuebecStrategy(d);
    var rows := QuebecRows(d, law);
    ChunkRowsSound(QuebecText(d), ms, mk, law);
    DedupeKeepsLongest(out, rows);
    DistinctCitations(out, rows, law, "art.");
    if d.articleDots == [] && d.articleWords == [] {
      NoRowsWithoutMatches(QuebecText(d), mk, law);
      DedupOfNothing(out);
    }
  }

  /** Rows of one law with distinct keys have distinct citations. */
  lemma DistinctCitations(out: seq<Row>, rows: seq<Row>, law: Law, prefix: string)
    requires IsDedupOf(out, rows)
    requires forall r :: r in rows ==> WellFormed(r, law, prefix)
    ensures forall r :: r in out ==> r in rows && WellFormed(r, law, prefix)
    ensures forall i, j :: 0 <= i < j < |out| ==> out[i].citation != out[j].citation
  {
    DedupeKeepsLongest(out, rows);
    forall i, j | 0 <= i < j < |out|
      ensures out[i].citation != out[j].citation
    {
      assert out[i] in rows && out[j] in rows;
      assert RowKey(out[i]) != RowKey(out[j]);
    }
  }

  // ---------------------------------------------------------------------
  // Justice Laws
  // ---------------------------------------------------------------------

  /** The rows the federal parser has before removing duplicates: those
      of the DOM strategy when there are at least `DomMinRows` of them, else
      those of the section lines of the normalised text. */
  function FederalRows(m: MainContent, law: Law): (rows: seq<Row>)
    ensures forall r :: r in rows ==> WellFormed(r, law, "s.")
    ensures m.sectionLines == [] && |DomRowsOf(Candidates(m.elements), law)| < DomMinRows ==> rows == []
  {
    var dom := DomRowsOf(Candidates(m.elements), law);
    DomRowsSpec(Candidates(m.elements), law);
    ChunkRowsSound(NormalizeText(m.text), m.sectionLines, SectionNumber, law);
    NoRowsWithoutMatches(NormalizeText(m.text), SectionNumber, law);
    if |dom| >= DomMinRows then dom else ChunkRowsOf(NormalizeText(m.text), m.sectionLines, SectionNumber, law)
  }

  /** `parse_justice_laws_sections`. */
  method ParseJusticeLawsSections(d: Document, law: Law) returns (rows: seq<Row>)
    ensures d.main.None? ==> rows == []
    ensures d.main.Some? ==> IsDedupOf(rows, FederalRows(d.main.value, law))
  {
    if d.main.None? {
      return [];
    }
    var m := d.main.value;
    var cands := CollectCandidates(m.elements);
    var domRows := DomRows(cands, law);
    if |domRows| >= DomMinRows {
      rows := DedupeRows(domRows);
      return;
    }
    var text := NormalizeText(m.text);
    if m.sectionLines == [] {
      NoRowsWithoutMatches(text, SectionNumber, law);
      return [];
    }
    var all := ChunkRows(text, m.sectionLines, SectionNumber, law);
    rows := DedupeRows(all);
  }

  /** What the federal parser returns: rows with distinct citations, each
      well formed with the `s.` prefix. With at least `DomMinRows` DOM rows
      it returns the DOM rows, all of them; with fewer, every row it returns
      is a row of the section-line fallback (`ChunkRowsSound` says which). */
  lemma FederalSpec(out: seq<Row>, m: MainContent, law: Law)
    requires IsDedupOf(out, FederalRows(m, law))
    ensures forall r :: r in out ==> WellFormed(r, law, "s.")
    ensures forall i, j :: 0 <= i < j < |out| ==> out[i].citation != out[j].citation
    ensures var dom := DomRowsOf(Candidates(m.elements), law);
            |dom| >= DomMinRows ==> forall r :: r in out <==> r in dom
    ensures var dom := DomRowsOf(Candidates(m.elements), law);
            |dom| < DomMinRows ==>
              forall r :: r in out ==> r in ChunkRowsOf(NormalizeText(m.text), m.sectionLines, SectionNumber, law)
  {
    var cands := Candidates(m.elements);
    var dom := DomRowsOf(cands, law);
    if |dom| >= DomMinRows {
      DomRowsSpec(cands, law);
      DistinctCitations(out, dom, law, "s.");
      DedupOfDistinct(out, dom, law);
    } else {
      ChunkRowsSound(NormalizeText(m.text), m.sectionLines, SectionNumber, law);
      DistinctCitations(out, FederalRows(m, law), law, "s.");
    }
  }

  /** Removing duplicates from rows of one law with distinct citations
      keeps every one of them. */
  lemma DedupOfDistinct(out: seq<Row>, rows: seq<Row>, law: Law)
    requires IsDedupOf(out, rows)
    requires forall r :: r in rows ==> r.codeId == law.codeId && r.jurisdiction == law.jurisdiction
    requires forall i, j :: 0 <= i < j < |rows| ==> rows[i].citation != rows[j].citation
    ensures forall r :: r in out <==> r in rows
  {
    DedupeKeepsLongest(out, rows);
    forall r | r in rows
      ensures r in out
    {
      var j :| 0 <= j < |rows| && rows[j] == r;
      var i :| 0 <= i < |out| && RowKey(out[i]) == RowKey(rows[j]);
      var w :| 0 <= w < |rows| && rows[w] == out[i];
      assert rows[w].citation == rows[j].citation;
      assert w == j;
    }
  }

  // ---------------------------------------------------------------------
  // The dispatcher
  // ---------------------------------------------------------------------

  /** The page the federal parser reads: an index page on the Justice Laws
      host whose URL does not already name the full text is replaced by
      the page its first full-text link leads to, when it has one. */
  function FederalPage(d: Document, url: string, fetch: string -> Document): (page: Document)
    ensures !NeedsResolve(url) ==> page == d
    ensures page == d || exists full :: full != [] && IsFullTextUrl(full) && page == fetch(full)
  {
    if NeedsResolve(url) then
      match ResolvedUrl(d.links, url)
      case None => d
      case Some(full) => fetch(full)
    else d
  }

  /** The federal branch of `parse_by_jurisdiction` up to the parse: decide
      whether the URL names an index page and, if it does and the page
      links to the full text, download that. */
  method FederalSourcePage(d: Document, url: string, fetch: string -> Document) returns (page: Document)
    ensures page == FederalPage(d, url, fetch)
  {
    page := d;
    if IsJusticeLawsUrl(url) && !IsFullTextUrl(url) {
      var full := ResolveFullTextUrl(d.links, url);
      if full.Some? && full.value != [] {
        page := fetch(full.value);
      }
    }
  }

  /** `parse_by_jurisdiction`: `fetch` stands for downloading a page. */
  method ParseByJurisdiction(d: Document, url: string, law: Law, fetch: string -> Document)
      returns (rows: seq<Row>)
    ensures law.jurisdiction == "QC" ==> IsDedupOf(rows, QuebecRows(d, law))
    ensures law.jurisdiction == "CA-FED" ==>
              var page := FederalPage(d, url, fetch);
              && (page.main.None? ==> rows == [])
              && (page.main.Some? ==> IsDedupOf(rows, FederalRows(page.main.value, law)))
    ensures law.jurisdiction != "QC" && law.jurisdiction != "CA-FED" ==> rows == []
  {
    if law.jurisdiction == "QC" {
      rows := ParseLegisQuebecArticles(d, law);
      return;
    }
    if law.jurisdiction == "CA-FED" {
      var page := FederalSourcePage(d, url, fetch);
      rows := ParseJusticeLawsSections(page, law);
      return;
    }
    rows := [];
  }
}
