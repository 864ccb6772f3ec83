/** The provision records that `ingest_laws.py` produces, the text
    normalisation it applies before cutting text, and `dedupe_rows`. */
module LawRows {
  import opened Wrappers
  import opened Strings
  import opened BestByKey

  /** A `legal_vectors` row: `{code_id, jurisdiction, jurisdiction_bucket,
      citation, title, text}`. */
  datatype Row = Row(codeId: string, jurisdiction: string, bucket: string,
                     citation: string, title: Option<string>, text: string)

  /** The registry fields a parser copies into every row it emits. */
  datatype Law = Law(codeId: string, jurisdiction: string, bucket: string)

  /** A body shorter than this is noise (a stray heading, an empty anchor). */
  const MinBodyLength := 60

  /** The conflict key of `legal_vectors`: `(code_id, jurisdiction, citation)`. */
  function RowKey(r: Row): (string, string, string) {
    (r.codeId, r.jurisdiction, r.citation)
  }

  /** The score `dedupe_rows` compares: a row replaces the stored one of
      its key only when its text is strictly longer. */
  function TextLength(r: Row): (int, int) {
    (|r.text|, 0)
  }

  /** `out` is what `dedupe_rows(rows)` returns: one row per key, the
      longest (the first of equally long ones), in order of first key
      appearance. */
  ghost predicate IsDedupOf(out: seq<Row>, rows: seq<Row>) {
    IsBestOf(out, rows, RowKey, TextLength)
  }

  /** `citation` reads `"<prefix> <number> <code_id>"`. */
  function Citation(prefix: string, num: string, codeId: string): (c: string)
    ensures StartsWith(c, prefix + " ") && EndsWith(c, " " + codeId)
  {
    prefix + " " + num + " " + codeId
  }

  /** Within one prefix and one code, the citation determines the number. */
  lemma CitationInjective(prefix: string, a: string, b: string, codeId: string)
    requires Citation(prefix, a, codeId) == Citation(prefix, b, codeId)
    ensures a == b
  {
    var c := Citation(prefix, a, codeId);
    assert |a| == |b|;
    assert a == c[|prefix| + 1..|prefix| + 1 + |a|];
    assert b == Citation(prefix, b, codeId)[|prefix| + 1..|prefix| + 1 + |b|];
  }

  /** Every row a parser emits has the law's fields, no title, a body of at
      least `MinBodyLength` characters and a citation with the parser's
      prefix and the law's code. */
  predicate WellFormed(r: Row, law: Law, prefix: string)
    ensures WellFormed(r, law, prefix) ==> RowKey(r) == (law.codeId, law.jurisdiction, r.citation)
  {
    && |r.text| >= MinBodyLength
    && r.title.None?
    && r.codeId == law.codeId && r.jurisdiction == law.jurisdiction && r.bucket == law.bucket
    && StartsWith(r.citation, prefix + " ") && EndsWith(r.citation, " " + law.codeId)
  }

  /** `normalize_text`: non-breaking spaces become spaces, then the text is
      stripped. */
  function NormalizeText(s: string): (r: string)
    ensures forall i :: 0 <= i < |r| ==> r[i] != '\U{a0}'
    ensures r == [] || (!IsSpace(r[0]) && !IsSpace(r[|r| - 1]))
    ensures |r| <= |s|
  {
    var t := ReplaceChar(s, '\U{a0}', ' ');
    assert '\U{a0}' !in t;
    Strip(t)
  }

  /** Normalising normalised text changes nothing. */
  lemma NormalizeTextIdempotent(s: string)
    ensures NormalizeText(NormalizeText(s)) == NormalizeText(s)
  {
    var r := NormalizeText(s);
    assert ReplaceChar(r, '\U{a0}', ' ') == r;
    TrimKeepsTrimmed(r, IsSpace);
  }

  /** `dedupe_rows`: keeps, per `(code_id, jurisdiction, citation)`, the row
      with the longest text; on equal length the row met first stays. */
  method DedupeRows(rows: seq<Row>) returns (out: seq<Row>)
    ensures IsDedupOf(out, rows)
  {
    var best: map<(string, string, string), Row> := map[];
    var order: seq<(string, string, string)> := [];
    ghost var at: map<(string, string, string), nat> := map[];
    TracksEmpty(RowKey, TextLength);
    for n := 0 to |rows|
      invariant Tracks(rows[..n], order, best, at, RowKey, TextLength)
    {
      var r := rows[n];
      var key := RowKey(r);
      assert rows[..n + 1] == rows[..n] + [r];
      if key !in best {
        TracksStepNew(rows[..n], r, order, best, at, RowKey, TextLength);
        order := order + [key];
        best := best[key := r];
        at := at[key := n];
      } else if |r.text| > |best[key].text| {
        assert Beats(TextLength(r), TextLength(best[key]));
        TracksStepReplace(rows[..n], r, order, best, at, RowKey, TextLength);
        best := best[key := r];
        at := at[key := n];
      } else {
        assert !Beats(TextLength(r), TextLength(best[key]));
        TracksStepKeep(rows[..n], r, order, best, at, RowKey, TextLength);
      }
    }
    assert rows[..|rows|] == rows;
    TracksGivesBest(rows, order, best, at, RowKey, TextLength);
    out := Values(order, best);
  }

  /** One kept row: it is an input row, at least as long as every input
      row with its key, and met no later than any equally long one. */
  lemma DedupeKeptRow(out: seq<Row>, rows: seq<Row>, i: nat)
    requires IsDedupOf(out, rows) && i < |out|
    ensures out[i] in rows
    ensures forall j :: 0 <= j < |rows| && RowKey(rows[j]) == RowKey(out[i]) ==> |rows[j].text| <= |out[i].text|
    ensures forall j :: (0 <= j < |rows| && RowKey(rows[j]) == RowKey(out[i])
                         && |rows[j].text| == |out[i].text|) ==> out[i] in rows[..j + 1]
  {
    assert IsWinner(out[i], rows, RowKey, TextLength);
    var w :| 0 <= w < |rows| && rows[w] == out[i] && Wins(rows, w, RowKey, TextLength);
    WinningRow(rows, w);
  }

  /** The row a longest-wins scan keeps at index `w`: at least as long as
      every row with its key, and strictly longer than every earlier one. */
  lemma WinningRow(rows: seq<Row>, w: nat)
    requires w < |rows| && Wins(rows, w, RowKey, TextLength)
    ensures rows[w] in rows
    ensures forall j :: 0 <= j < |rows| && RowKey(rows[j]) == RowKey(rows[w]) ==> |rows[j].text| <= |rows[w].text|
    ensures forall j :: (0 <= j < |rows| && RowKey(rows[j]) == RowKey(rows[w])
                         && |rows[j].text| == |rows[w].text|) ==> rows[w] in rows[..j + 1]
  {
    forall j | 0 <= j < |rows| && RowKey(rows[j]) == RowKey(rows[w]) && |rows[j].text| == |rows[w].text|
      ensures rows[w] in rows[..j + 1]
    {
      assert !Beats(TextLength(rows[w]), TextLength(rows[j]));
      assert w <= j;
      assert rows[..j + 1][w] == rows[w];
    }
  }

  /** What `IsDedupOf` promises over the whole output: distinct keys, each
      kept row an input row at least as long as every input row with its
      key, and every input key kept (the tie rule is `DedupeKeptRow`'s). */
  lemma DedupeKeepsLongest(out: seq<Row>, rows: seq<Row>)
    requires IsDedupOf(out, rows)
    ensures forall i, j :: 0 <= i < j < |out| ==> RowKey(out[i]) != RowKey(out[j])
    ensures forall i :: 0 <= i < |out| ==> out[i] in rows
    ensures forall i, j :: 0 <= i < |out| && 0 <= j < |rows| && RowKey(rows[j]) == RowKey(out[i]) ==>
              |rows[j].text| <= |out[i].text|
    ensures forall j :: 0 <= j < |rows| ==> exists i :: 0 <= i < |out| && RowKey(out[i]) == RowKey(rows[j])
  {
    forall i | 0 <= i < |out|
      ensures out[i] in rows
      ensures forall j :: 0 <= j < |rows| && RowKey(rows[j]) == RowKey(out[i]) ==> |rows[j].text| <= |out[i].text|
    {
      DedupeKeptRow(out, rows, i);
    }
    forall j | 0 <= j < |rows|
      ensures exists i :: 0 <= i < |out| && RowKey(out[i]) == RowKey(rows[j])
    {
      assert HasKey(out, RowKey(rows[j]), RowKey);
    }
  }
}
