/** Cutting a statute's text into provisions at the boundary matches of a
    pattern, removing each provision's leading marker and keeping the bodies
    long enough to be provisions (the `for i, m in enumerate(matches)` loops of
    `parse_legisquebec_articles` and of the federal text fallback). */
module Segmentation {
  import opened Wrappers
  import opened Strings
  import opened LawRows

  /** One match of a boundary pattern: where it starts in the text and the
      provision number its first group captured. */
  datatype Match = Match(pos: nat, num: string)

  /** The boundary pattern that produced the matches, which decides the
      marker a chunk starts with and the citation prefix:
      `ArticleDot` is `^\s*(N)\s*\.\s+`, `ArticleWord` is the line
      `Article N`, and `SectionNumber` is `^\s*(N)\s+<capital letter>`. */
  datatype Marker = ArticleDot | ArticleWord | SectionNumber

  function Prefix(mk: Marker): (p: string)
    ensures p == "s." <==> mk == SectionNumber
  {
    if mk == SectionNumber then "s." else "art."
  }

  /** Python's `s[lo:hi]` for non-negative bounds: out-of-range bounds are
      clamped and a reversed range is empty. */
  function Slice(s: string, lo: nat, hi: nat): (r: string)
    ensures lo <= hi <= |s| ==> r == s[lo..hi]
    ensures |r| <= |s|
  {
    if hi <= lo || |s| <= lo then [] else if hi <= |s| then s[lo..hi] else s[lo..]
  }

  /** Matches as `finditer` reports them: strictly ascending starts, all
      inside the text. */
  ghost predicate Ascending(text: string, ms: seq<Match>) {
    && (forall i, j :: 0 <= i < j < |ms| ==> ms[i].pos < ms[j].pos)
    && (forall i :: 0 <= i < |ms| ==> ms[i].pos <= |text|)
  }

  /** Where chunk `i` ends: at the next match, or at the end of the text. */
  function ChunkEnd(text: string, ms: seq<Match>, i: nat): nat
    requires i < |ms|
  {
    if i + 1 < |ms| then ms[i + 1].pos else |text|
  }

  /** `text[start:end]` for match `i`, before any stripping. */
  function Chunk(text: string, ms: seq<Match>, i: nat): string
    requires i < |ms|
  {
    Slice(text, ms[i].pos, ChunkEnd(text, ms, i))
  }

  /** The chunks from match `k` on, put back together. */
  function ChunksFrom(text: string, ms: seq<Match>, k: nat): string
    requires k <= |ms|
    decreases |ms| - k
  {
    if k == |ms| then [] else Chunk(text, ms, k) + ChunksFrom(text, ms, k + 1)
  }

  /** Chunk `i` is exactly `text[start_i..end_i]`. */
  lemma ChunkIsSlice(text: string, ms: seq<Match>, i: nat)
    requires Ascending(text, ms) && i < |ms|
    ensures ms[i].pos <= ChunkEnd(text, ms, i) <= |text|
    ensures Chunk(text, ms, i) == text[ms[i].pos..ChunkEnd(text, ms, i)]
  {
  }

  /** The chunks from match `k` on tile the text from that match to its end. */
  lemma {:induction false} ChunksFromTile(text: string, ms: seq<Match>, k: nat)
    requires Ascending(text, ms) && k < |ms|
    ensures ChunksFrom(text, ms, k) == text[ms[k].pos..]
    decreases |ms| - k
  {
    ChunkIsSlice(text, ms, k);
    if k + 1 == |ms| {
      assert ChunksFrom(text, ms, k + 1) == [];
    } else {
      ChunksFromTile(text, ms, k + 1);
      var p, e := ms[k].pos, ms[k + 1].pos;
      assert text[p..] == text[p..e] + text[e..];
    }
  }

  /** For N ascending matches the chunks are ordered, do not overlap, and
      cover the text from the first match to the end: chunk i is
      `text[start_i..start_{i+1}]`, the last one `text[start_{N-1}..]`. */
  lemma ChunksTile(text: string, ms: seq<Match>)
    requires Ascending(text, ms) && ms != []
    ensures forall i :: 0 <= i < |ms| ==> Chunk(text, ms, i) == text[ms[i].pos..ChunkEnd(text, ms, i)]
    ensures forall i :: 0 <= i < |ms| - 1 ==> ChunkEnd(text, ms, i) == ms[i + 1].pos
    ensures ChunkEnd(text, ms, |ms| - 1) == |text|
    ensures ChunksFrom(text, ms, 0) == text[ms[0].pos..]
  {
    forall i | 0 <= i < |ms|
      ensures Chunk(text, ms, i) == text[ms[i].pos..ChunkEnd(text, ms, i)]
    {
      ChunkIsSlice(text, ms, i);
    }
    ChunksFromTile(text, ms, 0);
  }

  // ---------------------------------------------------------------------
  // The marker removed at the head of a chunk
  // ---------------------------------------------------------------------

  /** Python's `\b` at position `q` of `s`: a word character on exactly one side. */
  predicate WordBoundary(s: string, q: nat)
    requires q <= |s|
  {
    (0 < q && IsWordChar(s[q - 1])) != (q < |s| && IsWordChar(s[q]))
  }

  /** A captured number starts with a digit, as the `(\d+...)` group of
      every boundary pattern makes it. */
  predicate LeadsWithDigit(num: string) {
    num != [] && IsDigit(num[0])
  }

  /** `c[lo..hi]` is white space. */
  ghost predicate SpacesIn(c: string, lo: nat, hi: nat)
    requires lo <= hi <= |c|
  {
    forall k :: lo <= k < hi ==> IsSpace(c[k])
  }

  lemma SpaceRunIs(c: string, lo: nat, hi: nat)
    requires lo <= hi <= |c| && SpacesIn(c, lo, hi) && (hi == |c| || !IsSpace(c[hi]))
    ensures RunLength(c, lo, IsSpace) == hi - lo
  {
    RunLengthIs(c, lo, hi, IsSpace);
  }

  lemma SpaceRunCovers(c: string, lo: nat, hi: nat)
    requires lo <= hi <= |c| && SpacesIn(c, lo, hi)
    ensures RunLength(c, lo, IsSpace) >= hi - lo
  {
    RunLengthCovers(c, lo, hi, IsSpace);
  }

  /** `c[..cut]` is a whole match of `^\s*N\s*\.\s+` whose number starts at
      `a` and whose dot is at `d`. */
  ghost predicate DotTokenAt(c: string, num: string, cut: nat, a: nat, d: nat) {
    && a + |num| <= d && d + 1 < cut <= |c|
    && SpacesIn(c, 0, a) && OccursAt(c, num, a)
    && SpacesIn(c, a + |num|, d) && c[d] == '.' && SpacesIn(c, d + 1, cut)
  }

  /** `c[..cut]` is a whole match of `^\s*N\s*\.\s+`. */
  ghost predicate DotToken(c: string, num: string, cut: nat) {
    exists a: nat, d: nat :: DotTokenAt(c, num, cut, a, d)
  }

  /** `c[..cut]` is a whole match of `^\s*Article\s+N\s*` (the letters of
      `Article` in either case) whose word starts at `a` and whose number
      at `b`. */
  ghost predicate WordTokenAt(c: string, num: string, cut: nat, a: nat, b: nat) {
    && a + 7 < b && b + |num| <= cut <= |c|
    && SpacesIn(c, 0, a) && Lower(c[a..a + 7]) == "article"
    && SpacesIn(c, a + 7, b) && OccursAt(c, num, b)
    && SpacesIn(c, b + |num|, cut)
  }

  /** `c[..cut]` is a whole match of `^\s*Article\s+N\s*`. */
  ghost predicate WordToken(c: string, num: string, cut: nat) {
    exists a: nat, b: nat :: WordTokenAt(c, num, cut, a, b)
  }

  /** `c[..cut]` is a whole match of `^\s*N\s+` whose number starts at `a`. */
  ghost predicate SectionTokenAt(c: string, num: string, cut: nat, a: nat) {
    && a + |num| < cut <= |c|
    && SpacesIn(c, 0, a) && OccursAt(c, num, a) && SpacesIn(c, a + |num|, cut)
  }

  /** `c[..cut]` is a whole match of `^\s*N\s+`. */
  ghost predicate SectionToken(c: string, num: string, cut: nat) {
    exists a: nat :: SectionTokenAt(c, num, cut, a)
  }

  /** `c[..cut]` is a whole match of `^\s*N\b\s*` at the head of `c` whose
      number starts at `a`. */
  ghost predicate DomTokenAt(c: string, num: string, cut: nat, a: nat) {
    && a + |num| <= cut <= |c|
    && SpacesIn(c, 0, a) && OccursAt(c, num, a) && SpacesIn(c, a + |num|, cut)
    && WordBoundary(c, a + |num|)
  }

  /** `c[..cut]` is a whole match of `^\s*N\b\s*` at the head of `c`. */
  ghost predicate DomToken(c: string, num: string, cut: nat) {
    exists a: nat :: DomTokenAt(c, num, cut, a)
  }

  /** `c` starts with a match of `^\s*N\s*\.\s+`. */
  ghost predicate HasDotToken(c: string, num: string) {
    exists cut: nat :: DotToken(c, num, cut)
  }

  /** `c` starts with a match of `^\s*Article\s+N\s*` that ends at a line
      end. */
  ghost predicate HasWordToken(c: string, num: string) {
    exists cut: nat :: cut <= |c| && WordToken(c, num, cut) && (cut == |c| || c[cut] == '\n')
  }

  /** `c` starts with a match of `^\s*N\s+`. */
  ghost predicate HasSectionToken(c: string, num: string) {
    exists cut: nat :: SectionToken(c, num, cut)
  }

  /** `c` starts with a match of `^\s*N\b\s*`. */
  ghost predicate HasDomToken(c: string, num: string) {
    exists cut: nat :: DomToken(c, num, cut)
  }

  /** White space up to index `a`, then the number: the run of white space
      at the head of `c` ends at `a`. */
  lemma SpaceThenNumber(c: string, num: string, a: nat)
    requires LeadsWithDigit(num) && OccursAt(c, num, a) && SpacesIn(c, 0, a)
    ensures RunLength(c, 0, IsSpace) == a
  {
    assert c[a] == c[a..a + |num|][0] == num[0];
    SpaceRunIs(c, 0, a);
  }

  /** The white-space runs `DotTokenEnd` measures, when the head of `c` is
      a dot marker. */
  ghost predicate DotRuns(c: string, num: string) {
    var a := RunLength(c, 0, IsSpace);
    && OccursAt(c, num, a)
    && var d := a + |num| + RunLength(c, a + |num|, IsSpace);
       d < |c| && c[d] == '.' && RunLength(c, d + 1, IsSpace) > 0
  }

  lemma DotTokenRuns(c: string, num: string, cut: nat, a: nat, d: nat)
    requires LeadsWithDigit(num) && DotTokenAt(c, num, cut, a, d)
    ensures DotRuns(c, num)
  {
    SpaceThenNumber(c, num, a);
    SpaceRunIs(c, a + |num|, d);
    SpaceRunCovers(c, d + 1, cut);
  }

  /** The runs `WordTokenEnd` measures, when the head of `c` is an
      `Article N` line ending at `cut`. */
  ghost predicate WordRuns(c: string, num: string, cut: nat) {
    var a := RunLength(c, 0, IsSpace);
    && a + 7 <= |c| && Lower(c[a..a + 7]) == "article"
    && var b := a + 7 + RunLength(c, a + 7, IsSpace);
       && b != a + 7 && OccursAt(c, num, b)
       && var q := b + |num|;
          q <= cut <= q + RunLength(c, q, IsSpace)
  }

  lemma WordTokenRuns(c: string, num: string, cut: nat, a: nat, b: nat)
    requires LeadsWithDigit(num) && WordTokenAt(c, num, cut, a, b)
    ensures WordRuns(c, num, cut)
  {
    ArticleNotSpace(c, a);
    SpaceRunIs(c, 0, a);
    assert c[b] == c[b..b + |num|][0] == num[0];
    SpaceRunIs(c, a + 7, b);
    SpaceRunCovers(c, b + |num|, cut);
    assert RunLength(c, 0, IsSpace) == a;
    assert a + 7 + RunLength(c, a + 7, IsSpace) == b;
  }

  /** A word that lower-cases to `article` does not start with white
      space. */
  lemma ArticleNotSpace(c: string, a: nat)
    requires a + 7 <= |c| && Lower(c[a..a + 7]) == "article"
    ensures !IsSpace(c[a])
  {
    var w := c[a..a + 7];
    assert w[0] == c[a];
    assert LowerChar(w[0]) == Lower(w)[0] == 'a';
  }

  /** The runs `SectionTokenEnd` measures, when the head of `c` is a
      section marker. */
  ghost predicate SectionRuns(c: string, num: string) {
    var a := RunLength(c, 0, IsSpace);
    OccursAt(c, num, a) && RunLength(c, a + |num|, IsSpace) > 0
  }

  lemma SectionTokenRuns(c: string, num: string, cut: nat, a: nat)
    requires LeadsWithDigit(num) && SectionTokenAt(c, num, cut, a)
    ensures SectionRuns(c, num)
  {
    SpaceThenNumber(c, num, a);
    SpaceRunCovers(c, a + |num|, cut);
  }

  /** What `DomTokenEnd` checks, when the head of `c` is a number at a word
      boundary. */
  ghost predicate DomRuns(c: string, num: string) {
    var a := RunLength(c, 0, IsSpace);
    OccursAt(c, num, a) && WordBoundary(c, a + |num|)
  }

  lemma DomTokenRuns(c: string, num: string, cut: nat, a: nat)
    requires LeadsWithDigit(num) && DomTokenAt(c, num, cut, a)
    ensures DomRuns(c, num)
  {
    SpaceThenNumber(c, num, a);
  }

  /** Where the match of `^\s*N\s*\.\s+` at the head of `c` ends, if there
      is one (the greedy `\s+` takes the whole run of white space).
      `DotTokenEndMatches` states that this is that match. */
  function DotTokenEnd(c: string, num: string): (p: Option<nat>)
    ensures p.Some? ==> |num| < p.value <= |c|
    ensures p.Some? ==> p.value == |c| || !IsSpace(c[p.value])
  {
    var a := RunLength(c, 0, IsSpace);
    if !OccursAt(c, num, a) then None
    else
      var b := a + |num|;
      var d := b + RunLength(c, b, IsSpace);
      if d == |c| || c[d] != '.' then None
      else
        var n := RunLength(c, d + 1, IsSpace);
        if n == 0 then None else Some(d + 1 + n)
  }

  /** `DotTokenEnd` finds the marker: what it reports is a match, and a
      marker at the head of `c` is reported. */
  lemma DotTokenEndMatches(c: string, num: string)
    ensures var p := DotTokenEnd(c, num); p.Some? ==> DotToken(c, num, p.value)
    ensures LeadsWithDigit(num) && HasDotToken(c, num) ==> DotTokenEnd(c, num).Some?
  {
    if LeadsWithDigit(num) && HasDotToken(c, num) {
      var cut: nat, a: nat, d: nat :| DotTokenAt(c, num, cut, a, d);
      DotTokenRuns(c, num, cut, a, d);
    }
    var p := DotTokenEnd(c, num);
    if p.Some? {
      var a := RunLength(c, 0, IsSpace);
      var d := a + |num| + RunLength(c, a + |num|, IsSpace);
      assert DotTokenAt(c, num, p.value, a, d);
    }
  }

  /** `re.sub(r"^\s*N\s*\.\s+", "", c)`: removes the dot marker at the head
      of `c`, or leaves `c` as it is when its head is not that marker. */
  function DropDotToken(c: string, num: string): (r: string)
    ensures |r| <= |c| && r == c[|c| - |r|..]
    ensures r != c ==> r == [] || !IsSpace(r[0])
  {
    match DotTokenEnd(c, num)
    case None => c
    case Some(p) => c[p..]
  }

  /** What `DropDotToken` removes is a dot marker, and a dot marker at the
      head of `c` is removed. */
  lemma DropDotTokenMatches(c: string, num: string)
    ensures var r := DropDotToken(c, num); r != c ==> DotToken(c, num, |c| - |r|)
    ensures LeadsWithDigit(num) && HasDotToken(c, num) ==> |DropDotToken(c, num)| < |c|
  {
    DotTokenEndMatches(c, num);
    var p := DotTokenEnd(c, num);
    if p.Some? {
      assert |c| - |DropDotToken(c, num)| == p.value;
    }
  }

  /** The greatest position `p` in `[q, e]` at which a multi-line `$` holds:
      the end of `c` or a line feed. */
  function LineEndAtOrBefore(c: string, q: nat, e: nat): (r: Option<nat>)
    requires q <= e <= |c|
    ensures r.Some? ==> q <= r.value <= e && (r.value == |c| || c[r.value] == '\n')
    ensures r.Some? ==> forall k :: r.value < k <= e ==> k < |c| && c[k] != '\n'
    ensures r.None? ==> forall k :: q <= k <= e ==> k < |c| && c[k] != '\n'
    decreases e - q
  {
    if e == |c| || c[e] == '\n' then Some(e)
    else if e == q then None
    else LineEndAtOrBefore(c, q, e - 1)
  }

  /** Where the match of `(?im)^\s*Article\s+N\s*$` at the head of `c`
      ends, if there is one: the last line end the greedy `\s*` can reach.
      `WordTokenEndMatches` states that this is that match. */
  function WordTokenEnd(c: string, num: string): (p: Option<nat>)
    ensures p.Some? ==> 7 + |num| < p.value <= |c|
    ensures p.Some? ==> p.value == |c| || c[p.value] == '\n'
  {
    var a := RunLength(c, 0, IsSpace);
    if !(a + 7 <= |c| && Lower(c[a..a + 7]) == "article") then None
    else
      var b := a + 7 + RunLength(c, a + 7, IsSpace);
      if b == a + 7 || !OccursAt(c, num, b) then None
      else
        var q := b + |num|;
        LineEndAtOrBefore(c, q, q + RunLength(c, q, IsSpace))
  }

  /** `WordTokenEnd` finds the marker line: what it reports is a match
      ending at a line end, and such a line at the head of `c` is
      reported. */
  lemma WordTokenEndMatches(c: string, num: string)
    ensures var p := WordTokenEnd(c, num); p.Some? ==> WordToken(c, num, p.value)
    ensures LeadsWithDigit(num) && HasWordToken(c, num) ==> WordTokenEnd(c, num).Some?
  {
    WordTokenEndSound(c, num);
    WordTokenEndFinds(c, num);
  }

  lemma WordTokenEndSound(c: string, num: string)
    ensures var p := WordTokenEnd(c, num); p.Some? ==> WordToken(c, num, p.value)
  {
    var p := WordTokenEnd(c, num);
    if p.Some? {
      var a := RunLength(c, 0, IsSpace);
      var b := a + 7 + RunLength(c, a + 7, IsSpace);
      assert WordTokenAt(c, num, p.value, a, b);
    }
  }

  lemma WordTokenEndFinds(c: string, num: string)
    ensures LeadsWithDigit(num) && HasWordToken(c, num) ==> WordTokenEnd(c, num).Some?
  {
    if LeadsWithDigit(num) && HasWordToken(c, num) {
      var cut: nat, a: nat, b: nat :| cut <= |c| && WordTokenAt(c, num, cut, a, b) && (cut == |c| || c[cut] == '\n');
      WordTokenRuns(c, num, cut, a, b);
    }
  }

  /** `re.sub(r"(?im)^\s*Article\s+N\s*$", "", c)` at the head of `c`. Only
      the head is considered: a marker line anywhere else in a chunk would
      itself have been a match, and so the start of the next chunk. */
  function DropWordToken(c: string, num: string): (r: string)
    ensures |r| <= |c| && r == c[|c| - |r|..]
    ensures r != c ==> r == [] || r[0] == '\n'
  {
    match WordTokenEnd(c, num)
    case None => c
    case Some(p) => c[p..]
  }

  /** What `DropWordToken` removes is an `Article N` line, and such a line
      at the head of `c` is removed. */
  lemma DropWordTokenMatches(c: string, num: string)
    ensures var r := DropWordToken(c, num); r != c ==> WordToken(c, num, |c| - |r|)
    ensures LeadsWithDigit(num) && HasWordToken(c, num) ==> |DropWordToken(c, num)| < |c|
  {
    WordTokenEndMatches(c, num);
    var p := WordTokenEnd(c, num);
    if p.Some? {
      assert |c| - |DropWordToken(c, num)| == p.value;
    }
  }

  /** Where the match of `^\s*N\s+` at the head of `c` ends, if there is one.
      `SectionTokenEndMatches` states that this is that match. */
  function SectionTokenEnd(c: string, num: string): (p: Option<nat>)
    ensures p.Some? ==> |num| < p.value <= |c|
    ensures p.Some? ==> p.value == |c| || !IsSpace(c[p.value])
  {
    var a := RunLength(c, 0, IsSpace);
    if !OccursAt(c, num, a) then None
    else
      var n := RunLength(c, a + |num|, IsSpace);
      if n == 0 then None else Some(a + |num| + n)
  }

  /** `SectionTokenEnd` finds the marker: what it reports is a match, and a
      marker at the head of `c` is reported. */
  lemma SectionTokenEndMatches(c: string, num: string)
    ensures var p := SectionTokenEnd(c, num); p.Some? ==> SectionToken(c, num, p.value)
    ensures LeadsWithDigit(num) && HasSectionToken(c, num) ==> SectionTokenEnd(c, num).Some?
  {
    if LeadsWithDigit(num) && HasSectionToken(c, num) {
      var cut: nat, a: nat :| SectionTokenAt(c, num, cut, a);
      SectionTokenRuns(c, num, cut, a);
    }
    var p := SectionTokenEnd(c, num);
    if p.Some? {
      assert SectionTokenAt(c, num, p.value, RunLength(c, 0, IsSpace));
    }
  }

  /** `re.sub(r"^\s*N\s+", "", c)`. */
  function DropSectionToken(c: string, num: string): (r: string)
    ensures |r| <= |c| && r == c[|c| - |r|..]
    ensures r != c ==> r == [] || !IsSpace(r[0])
  {
    match SectionTokenEnd(c, num)
    case None => c
    case Some(p) => c[p..]
  }

  /** What `DropSectionToken` removes is a section marker, and a section
      marker at the head of `c` is removed. */
  lemma DropSectionTokenMatches(c: string, num: string)
    ensures var r := DropSectionToken(c, num); r != c ==> SectionToken(c, num, |c| - |r|)
    ensures LeadsWithDigit(num) && HasSectionToken(c, num) ==> |DropSectionToken(c, num)| < |c|
  {
    SectionTokenEndMatches(c, num);
    var p := SectionTokenEnd(c, num);
    if p.Some? {
      assert |c| - |DropSectionToken(c, num)| == p.value;
    }
  }

  /** Where the match of `^\s*N\b\s*` at the head of `c` ends, if there is
      one. `DomTokenEndMatches` states that this is that match. */
  function DomTokenEnd(c: string, num: string): (p: Option<nat>)
    ensures p.Some? ==> |num| <= p.value <= |c|
    ensures p.Some? ==> p.value == |c| || !IsSpace(c[p.value])
  {
    var a := RunLength(c, 0, IsSpace);
    if !OccursAt(c, num, a) || !WordBoundary(c, a + |num|) then None
    else Some(a + |num| + RunLength(c, a + |num|, IsSpace))
  }

  /** `DomTokenEnd` finds the number: what it reports is a match, and a
      number at a word boundary at the head of `c` is reported. */
  lemma DomTokenEndMatches(c: string, num: string)
    ensures var p := DomTokenEnd(c, num); p.Some? ==> DomToken(c, num, p.value)
    ensures LeadsWithDigit(num) && HasDomToken(c, num) ==> DomTokenEnd(c, num).Some?
  {
    if LeadsWithDigit(num) && HasDomToken(c, num) {
      var cut: nat, a: nat :| DomTokenAt(c, num, cut, a);
      DomTokenRuns(c, num, cut, a);
    }
    var p := DomTokenEnd(c, num);
    if p.Some? {
      assert DomTokenAt(c, num, p.value, RunLength(c, 0, IsSpace));
    }
  }

  /** `re.sub(r"^\s*N\b\s*", "", c)`. */
  function DropDomToken(c: string, num: string): (r: string)
    ensures |r| <= |c| && r == c[|c| - |r|..]
    ensures r != c ==> r == [] || !IsSpace(r[0])
  {
    match DomTokenEnd(c, num)
    case None => c
    case Some(p) => c[p..]
  }

  /** What `DropDomToken` removes is the number and the white space after
      it, and such a number at the head of `c` is removed. */
  lemma DropDomTokenMatches(c: string, num: string)
    ensures var r := DropDomToken(c, num); r != c ==> DomToken(c, num, |c| - |r|)
    ensures LeadsWithDigit(num) && HasDomToken(c, num) ==> |DropDomToken(c, num)| < |c|
  {
    DomTokenEndMatches(c, num);
    var p := DomTokenEnd(c, num);
    if p.Some? {
      assert |c| - |DropDomToken(c, num)| == p.value;
    }
  }

  /** `c[..cut]` is a whole match of the marker pattern `mk` removes. */
  ghost predicate MarkerToken(mk: Marker, c: string, num: string, cut: nat) {
    match mk
    case ArticleDot => DotToken(c, num, cut)
    case ArticleWord => WordToken(c, num, cut)
    case SectionNumber => SectionToken(c, num, cut)
  }

  /** `c` starts with a marker of the pattern `mk` removes. */
  ghost predicate HasMarker(mk: Marker, c: string, num: string) {
    match mk
    case ArticleDot => HasDotToken(c, num)
    case ArticleWord => HasWordToken(c, num)
    case SectionNumber => HasSectionToken(c, num)
  }

  /** The marker removal each boundary pattern calls for. */
  function DropMarker(mk: Marker, c: string, num: string): (r: string)
    ensures |r| <= |c| && r == c[|c| - |r|..]
  {
    match mk
    case ArticleDot => DropDotToken(c, num)
    case ArticleWord => DropWordToken(c, num)
    case SectionNumber => DropSectionToken(c, num)
  }

  /** What `DropMarker` removes is a marker of its pattern. */
  lemma DropMarkerMatches(mk: Marker, c: string, num: string)
    ensures var r := DropMarker(mk, c, num); r != c ==> MarkerToken(mk, c, num, |c| - |r|)
  {
    match mk
    case ArticleDot => DropMarkerDot(mk, c, num);
    case ArticleWord => DropMarkerWord(mk, c, num);
    case SectionNumber => DropMarkerSection(mk, c, num);
  }

  lemma DropMarkerDot(mk: Marker, c: string, num: string)
    requires mk == ArticleDot
    ensures var r := DropMarker(mk, c, num); r != c ==> MarkerToken(mk, c, num, |c| - |r|)
  {
    var r := DropDotToken(c, num);
    assert DropMarker(mk, c, num) == r;
    if r != c {
      DropDotTokenMatches(c, num);
    }
  }

  lemma DropMarkerWord(mk: Marker, c: string, num: string)
    requires mk == ArticleWord
    ensures var r := DropMarker(mk, c, num); r != c ==> MarkerToken(mk, c, num, |c| - |r|)
  {
    var r := DropWordToken(c, num);
    assert DropMarker(mk, c, num) == r;
    if r != c {
      DropWordTokenMatches(c, num);
    }
  }

  lemma DropMarkerSection(mk: Marker, c: string, num: string)
    requires mk == SectionNumber
    ensures var r := DropMarker(mk, c, num); r != c ==> MarkerToken(mk, c, num, |c| - |r|)
  {
    var r := DropSectionToken(c, num);
    assert DropMarker(mk, c, num) == r;
    if r != c {
      DropSectionTokenMatches(c, num);
    }
  }

  /** A marker of `DropMarker`'s pattern at the head of `c` is removed. */
  lemma DropMarkerFinds(mk: Marker, c: string, num: string)
    ensures LeadsWithDigit(num) && HasMarker(mk, c, num) ==> |DropMarker(mk, c, num)| < |c|
  {
    match mk
    case ArticleDot =>
      assert DropMarker(mk, c, num) == DropDotToken(c, num);
      DropDotTokenMatches(c, num);
    case ArticleWord =>
      assert DropMarker(mk, c, num) == DropWordToken(c, num);
      DropWordTokenMatches(c, num);
    case SectionNumber =>
      assert DropMarker(mk, c, num) == DropSectionToken(c, num);
      DropSectionTokenMatches(c, num);
  }

  // ---------------------------------------------------------------------
  // From chunks to rows
  // ---------------------------------------------------------------------

  /** A chunk of the text together with the number of the match that
      starts it. */
  datatype Piece = Piece(num: string, chunk: string)

  /** The piece of every match, in match order. */
  function Pieces(text: string, ms: seq<Match>): (ps: seq<Piece>)
    ensures |ps| == |ms|
    ensures forall i :: 0 <= i < |ms| ==> ps[i] == Piece(ms[i].num, Chunk(text, ms, i))
  {
    seq(|ms|, i requires 0 <= i < |ms| => Piece(ms[i].num, Chunk(text, ms, i)))
  }

  /** The body kept for a piece: the chunk stripped, its marker removed,
      stripped again. */
  function PieceBody(mk: Marker, p: Piece): string {
    Strip(DropMarker(mk, Strip(p.chunk), p.num))
  }

  /** The row a provision becomes. */
  function ProvisionRow(law: Law, prefix: string, num: string, body: string): (r: Row)
    ensures r.citation == Citation(prefix, num, law.codeId) && r.text == body && r.title.None?
    ensures |body| >= MinBodyLength ==> WellFormed(r, law, prefix)
  {
    Row(law.codeId, law.jurisdiction, law.bucket, Citation(prefix, num, law.codeId), None, body)
  }

  /** The row a piece becomes, whether or not its body is long enough. */
  function PieceRow(mk: Marker, law: Law): Piece -> Row {
    (p: Piece) => ProvisionRow(law, Prefix(mk), p.num, PieceBody(mk, p))
  }

  /** The rows of the pieces whose row text has at least `MinBodyLength`
      characters, in order. */
  function LongRows<E>(xs: seq<E>, row: E -> Row): (rows: seq<Row>)
    ensures |rows| <= |xs|
  {
    if xs == [] then []
    else
      var last := row(xs[|xs| - 1]);
      LongRows(xs[..|xs| - 1], row) + if |last.text| >= MinBodyLength then [last] else []
  }

  /** Every row `LongRows` keeps is the long enough row of one of `xs`. */
  lemma {:induction false} LongRowsSound<E>(xs: seq<E>, row: E -> Row)
    ensures forall r :: r in LongRows(xs, row) ==>
              exists i :: 0 <= i < |xs| && |row(xs[i]).text| >= MinBodyLength && r == row(xs[i])
  {
    if xs != [] {
      var init := xs[..|xs| - 1];
      LongRowsSound(init, row);
      forall r | r in LongRows(init, row)
        ensures exists i :: 0 <= i < |xs| && |row(xs[i]).text| >= MinBodyLength && r == row(xs[i])
      {
        var i :| 0 <= i < |init| && |row(init[i]).text| >= MinBodyLength && r == row(init[i]);
        assert init[i] == xs[i];
      }
    }
  }

  /** Every element of `xs` whose row is long enough gives its row. */
  lemma {:induction false} LongRowsComplete<E>(xs: seq<E>, row: E -> Row)
    ensures forall i :: 0 <= i < |xs| && |row(xs[i]).text| >= MinBodyLength ==> row(xs[i]) in LongRows(xs, row)
  {
    if xs != [] {
      var init := xs[..|xs| - 1];
      LongRowsComplete(init, row);
      forall i | 0 <= i < |xs| - 1 && |row(xs[i]).text| >= MinBodyLength
        ensures row(xs[i]) in LongRows(xs, row)
      {
        assert init[i] == xs[i];
      }
    }
  }

  /** One more element of `xs` adds its row exactly when that row is long
      enough. */
  lemma LongRowsTake<E>(xs: seq<E>, i: nat, row: E -> Row)
    requires i < |xs|
    ensures LongRows(xs[..i + 1], row) ==
            LongRows(xs[..i], row) + if |row(xs[i]).text| >= MinBodyLength then [row(xs[i])] else []
  {
    assert xs[..i + 1][..i] == xs[..i];
  }

  /** The rows all the matches yield, in match order: one per match whose
      body is long enough, and nothing else. */
  function ChunkRowsOf(text: string, ms: seq<Match>, mk: Marker, law: Law): seq<Row> {
    LongRows(Pieces(text, ms), PieceRow(mk, law))
  }

  /** Every row comes from a match whose body is long enough, and is well
      formed for the marker's prefix. */
  lemma ChunkRowsSound(text: string, ms: seq<Match>, mk: Marker, law: Law)
    ensures forall r :: r in ChunkRowsOf(text, ms, mk, law) ==>
              WellFormed(r, law, Prefix(mk))
              && exists i :: 0 <= i < |ms| && r == PieceRow(mk, law)(Piece(ms[i].num, Chunk(text, ms, i)))
  {
    var ps := Pieces(text, ms);
    LongRowsSound(ps, PieceRow(mk, law));
  }

  /** Every match whose body is long enough yields its row. */
  lemma ChunkRowsComplete(text: string, ms: seq<Match>, mk: Marker, law: Law)
    ensures forall i :: 0 <= i < |ms| && |PieceBody(mk, Piece(ms[i].num, Chunk(text, ms, i)))| >= MinBodyLength ==>
              PieceRow(mk, law)(Piece(ms[i].num, Chunk(text, ms, i))) in ChunkRowsOf(text, ms, mk, law)
  {
    var ps := Pieces(text, ms);
    LongRowsComplete(ps, PieceRow(mk, law));
  }

  /** What `DropMarker` leaves is `c` after a cut that is either nothing or
      a whole marker, and that is a marker whenever `c` starts with one. */
  lemma MarkerCut(mk: Marker, c: string, num: string)
    ensures exists cut: nat :: cut <= |c| && DropMarker(mk, c, num) == c[cut..]
              && (cut > 0 ==> MarkerToken(mk, c, num, cut))
              && (LeadsWithDigit(num) && HasMarker(mk, c, num) ==> cut > 0)
  {
    var r := DropMarker(mk, c, num);
    DropMarkerMatches(mk, c, num);
    DropMarkerFinds(mk, c, num);
    var cut := |c| - |r|;
    assert r == c[cut..];
  }

  /** The text of match `i`'s chunk with its marker cut off and stripped:
      the stripped rest of the stripped chunk after a cut that is either
      nothing or a whole marker, and that is a marker whenever the stripped
      chunk starts with one. */
  method CutChunk(text: string, ms: seq<Match>, mk: Marker, i: nat) returns (chunk: string)
    requires i < |ms|
    ensures chunk == PieceBody(mk, Pieces(text, ms)[i])
    ensures var s := Strip(Chunk(text, ms, i));
            exists cut: nat :: cut <= |s| && chunk == Strip(s[cut..])
              && (cut > 0 ==> MarkerToken(mk, s, ms[i].num, cut))
              && (LeadsWithDigit(ms[i].num) && HasMarker(mk, s, ms[i].num) ==> cut > 0)
  {
    var m := ms[i];
    var end := if i + 1 < |ms| then ms[i + 1].pos else |text|;
    assert end == ChunkEnd(text, ms, i);
    var s := Strip(Slice(text, m.pos, end));
    var r := DropMarker(mk, s, m.num);
    MarkerCut(mk, s, m.num);
    chunk := Strip(r);
  }

  /** The loop body for match `i`: append its row when its body is long
      enough. */
  method AppendChunkRow(text: string, ms: seq<Match>, mk: Marker, law: Law, i: nat, rows: seq<Row>)
      returns (rows': seq<Row>)
    requires i < |ms|
    ensures var r := PieceRow(mk, law)(Pieces(text, ms)[i]);
            rows' == rows + if |r.text| >= MinBodyLength then [r] else []
  {
    var chunk := CutChunk(text, ms, mk, i);
    if |chunk| < MinBodyLength {
      return rows;
    }
    rows' := rows + [ProvisionRow(law, Prefix(mk), ms[i].num, chunk)];
  }

  /** The per-match loop: one row per chunk whose body, stripped and without
      its marker, has at least `MinBodyLength` characters. */
  method ChunkRows(text: string, ms: seq<Match>, mk: Marker, law: Law) returns (rows: seq<Row>)
    ensures rows == ChunkRowsOf(text, ms, mk, law)
  {
    ghost var ps := Pieces(text, ms);
    ghost var row := PieceRow(mk, law);
    rows := [];
    for i := 0 to |ms|
      invariant rows == LongRows(ps[..i], row)
    {
      LongRowsTake(ps, i, row);
      rows := AppendChunkRow(text, ms, mk, law, i, rows);
    }
    assert ps[..|ms|] == ps;
    assert rows == LongRows(ps, row);
  }
}
