/** `seed_course_law_requirements.py`: law keys resolved against the law
    registry (with the alias table), registry entries created for the laws
    it does not know, and `build_rows`, which turns the course-to-law
    mapping into one requirement row per course and law. */
module CourseLaw {
  import opened Wrappers
  import opened Strings
  import opened BestByKey
  import opened CourseKeys

  // ---------------------------------------------------------------------
  // Law keys and the registry
  // ---------------------------------------------------------------------

  /** `normalize_law_key`: a missing key is the empty one, and the white
      space at both ends goes. */
  function NormalizeLawKey(s: Option<string>): (r: string)
    ensures s.None? ==> r == []
    ensures forall c :: c in r ==> c in s.GetOr([])
    ensures r == [] || (!IsSpace(r[0]) && !IsSpace(r[|r| - 1]))
  {
    Strip(s.GetOr([]))
  }

  /** A normalised law key is its own normal form. */
  lemma NormalizeLawKeyIdempotent(s: Option<string>)
    ensures NormalizeLawKey(Some(NormalizeLawKey(s))) == NormalizeLawKey(s)
  {
    TrimKeepsTrimmed(NormalizeLawKey(s), IsSpace);
  }

  /** One entry of `law_map`: `{law_key, canonical_code_id, status,
      jurisdiction, jurisdiction_bucket, title}`. */
  datatype RegistryEntry = RegistryEntry(lawKey: string, canonicalCodeId: string, status: string,
                                         jurisdiction: string, bucket: string, title: Option<string>)

  /** `LAW_KEY_ALIASES`: short names of the two Quebec codes. */
  const LawKeyAliases: map<string, string> := map["ccq" := "ccq_qc", "cpc" := "cpc_qc"]

  /** `LAW_KEY_ALIASES.get(lk, lk)`: the key a law is created under. It is
      never itself an alias, and it is a normalised key when `lk` is one. */
  function AliasOf(lk: string): (r: string)
    ensures r !in LawKeyAliases
    ensures r == lk || lk in LawKeyAliases
    ensures lk != [] ==> r != []
    ensures NormalizeLawKey(Some(lk)) == lk ==> NormalizeLawKey(Some(r)) == r
  {
    if lk in LawKeyAliases then
      var r := LawKeyAliases[lk];
      assert r == "ccq_qc" || r == "cpc_qc";
      TrimKeepsTrimmed(r, IsSpace);
      r
    else lk
  }

  /** `resolve_law`: nothing for a blank key; the entry stored under the
      key itself when there is one; else the entry stored under the key's
      alias, when it has one and it is stored; else nothing. */
  function ResolveLaw(lawKey: string, laws: map<string, RegistryEntry>): (r: Option<RegistryEntry>)
    ensures r.Some? ==> r.value in laws.Values
  {
    var lk := NormalizeLawKey(Some(lawKey));
    if lk == [] then None
    else if lk in laws then Some(laws[lk])
    else if lk in LawKeyAliases && LawKeyAliases[lk] != [] && LawKeyAliases[lk] in laws then
      Some(laws[LawKeyAliases[lk]])
    else None
  }

  /** What `resolve_law` finds: a blank key resolves to nothing; a key
      stored as is resolves to its own entry, whatever its alias; the
      alias is read only when the key itself is not stored; and a key
      resolves to nothing exactly when neither it nor its alias is stored. */
  lemma ResolveLawSpec(lawKey: string, laws: map<string, RegistryEntry>)
    ensures var lk := NormalizeLawKey(Some(lawKey));
            var r := ResolveLaw(lawKey, laws);
            && (lk == [] ==> r.None?)
            && (lk != [] && lk in laws ==> r == Some(laws[lk]))
            && (lk != [] && lk !in laws ==>
                  r == (if lk in LawKeyAliases && LawKeyAliases[lk] in laws then Some(laws[LawKeyAliases[lk]]) else None))
            && (r.None? <==> lk == [] || (lk !in laws && (lk !in LawKeyAliases || LawKeyAliases[lk] !in laws)))
  {
    var lk := NormalizeLawKey(Some(lawKey));
    if lk in LawKeyAliases {
      assert LawKeyAliases[lk] != [] by {
        assert LawKeyAliases[lk] == "ccq_qc" || LawKeyAliases[lk] == "cpc_qc";
      }
    }
  }

  /** The jurisdictions the registry's check constraint accepts. */
  const Jurisdictions: set<string> := {"QC", "CA-FED", "CA", "OTHER"}

  /** The jurisdiction of an auto-created entry: the given one stripped,
      when it is one of the accepted codes, else `OTHER` (a missing, blank
      or unknown one alike). */
  function ClampJurisdiction(j: Option<string>): (r: string)
    ensures r in Jurisdictions
    ensures j.Some? && Strip(j.value) in Jurisdictions ==> r == Strip(j.value)
    ensures !(j.Some? && Strip(j.value) in Jurisdictions) ==> r == "OTHER"
  {
    var given := if j.Some? && j.value != [] then j.value else "OTHER";
    TrimKeepsTrimmed("OTHER", IsSpace);
    var jur := if Strip(given) == [] then "OTHER" else Strip(given);
    if jur in Jurisdictions then jur else "OTHER"
  }

  /** Clamping an accepted code changes nothing. */
  lemma ClampJurisdictionIdempotent(j: Option<string>)
    ensures ClampJurisdiction(Some(ClampJurisdiction(j))) == ClampJurisdiction(j)
  {
    CodesAreStripped();
  }

  /** The accepted codes have no white space to strip. */
  lemma CodesAreStripped()
    ensures forall r :: r in Jurisdictions ==> Strip(r) == r
  {
    TrimKeepsTrimmed("QC", IsSpace);
    TrimKeepsTrimmed("CA-FED", IsSpace);
    TrimKeepsTrimmed("CA", IsSpace);
    TrimKeepsTrimmed("OTHER", IsSpace);
  }

  /** The entry `auto_create_law_registry_row` returns (and upserts): keyed
      and coded by the normalised key, with an accepted jurisdiction that
      is also its bucket, still to be ingested. */
  function NewRegistryEntry(lawKey: string, title: Option<string>, jurisdiction: Option<string>): (e: RegistryEntry)
    ensures e.lawKey == NormalizeLawKey(Some(lawKey)) && e.canonicalCodeId == e.lawKey
    ensures e.jurisdiction in Jurisdictions && e.bucket == e.jurisdiction
    ensures e.status == "to_ingest" && e.title == title
  {
    var lk := NormalizeLawKey(Some(lawKey));
    var jur := ClampJurisdiction(jurisdiction);
    RegistryEntry(lk, lk, "to_ingest", jur, jur, title)
  }

  /** A law that does not resolve is created under a key that is not
      stored yet (so the insertion overwrites nothing), and once it is
      stored the same key resolves to it. */
  lemma CreatedIsFound(lk: string, laws: map<string, RegistryEntry>, e: RegistryEntry)
    requires lk != [] && NormalizeLawKey(Some(lk)) == lk
    requires ResolveLaw(lk, laws).None?
    requires e.lawKey == AliasOf(lk)
    ensures e.lawKey !in laws
    ensures ResolveLaw(lk, laws[e.lawKey := e]) == Some(e)
  {
    ResolveLawSpec(lk, laws);
    ResolveLawSpec(lk, laws[e.lawKey := e]);
    if lk in LawKeyAliases {
      assert LawKeyAliases[lk] != lk;
    }
  }

  /** The `law_registry` table as the create step sees it: its rows by law
      key. */
  class RegistryTable {
    var rows: map<string, RegistryEntry>

    constructor (rows0: map<string, RegistryEntry>)
      ensures rows == rows0
    {
      rows := rows0;
    }

    /** `upsert(row, on_conflict="law_key")`: the row is stored under its
        key, replacing the one there. */
    method Upsert(e: RegistryEntry)
      modifies this
      ensures rows == old(rows)[e.lawKey := e]
    {
      rows := rows[e.lawKey := e];
    }
  }

  /** `auto_create_law_registry_row`: the create step that writes a minimal
      registry entry for a law the registry lacks, and returns it. */
  method AutoCreateLawRegistryRow(table: RegistryTable, lawKey: string, title: Option<string>,
                                  jurisdiction: Option<string>) returns (e: RegistryEntry)
    modifies table
    ensures e == NewRegistryEntry(lawKey, title, jurisdiction)
    ensures table.rows == old(table.rows)[e.lawKey := e]
  {
    var lk := NormalizeLawKey(Some(lawKey));
    var jur := ClampJurisdiction(jurisdiction);
    e := RegistryEntry(lk, lk, "to_ingest", jur, jur, title);
    table.Upsert(e);
  }

  /** `law_map`, which `build_rows` extends with every entry it creates. */
  class LawMap {
    var entries: map<string, RegistryEntry>

    constructor (entries0: map<string, RegistryEntry>)
      ensures entries == entries0
    {
      entries := entries0;
    }
  }

  // ---------------------------------------------------------------------
  // Courses and requirement rows
  // ---------------------------------------------------------------------

  /** `build_rows`' course lookup: the stripped key as it is, then its
      normalised form (`fold` lower-cases and removes accents); an empty
      slug counts as a miss. */
  function ResolveCourse(raw: string, lookup: map<string, string>, fold: char -> string): (r: Option<string>)
    ensures r.Some? ==> r.value != [] && r.value in lookup.Values
    ensures Strip(raw) in lookup && lookup[Strip(raw)] != [] ==> r == Some(lookup[Strip(raw)])
    ensures r.None? <==>
              (Strip(raw) !in lookup || lookup[Strip(raw)] == [])
              && (NormalizeCourseKey(Strip(raw), fold) !in lookup || lookup[NormalizeCourseKey(Strip(raw), fold)] == [])
  {
    var key := Strip(raw);
    if key in lookup && lookup[key] != [] then Some(lookup[key])
    else
      var norm := NormalizeCourseKey(key, fold);
      if norm in lookup && lookup[norm] != [] then Some(lookup[norm]) else None
  }

  /** The two lists of a course's mapping entry. */
  datatype Priority = Required | Recommended

  /** `weight`: a required row outweighs a recommended one. */
  function Weight(p: Priority): (w: int)
    ensures w == 1 || w == 2
    ensures p == Required <==> w == 2
  {
    match p
    case Required => 2
    case Recommended => 1
  }

  /** The status column of a requirement row. */
  datatype IngestStatus = ToIngest | Ingested

  /** A row is ingested exactly when its law's registry status, stripped,
      says so. */
  function StatusOf(registryStatus: string): (s: IngestStatus)
    ensures s == Ingested <==> Strip(registryStatus) == "ingested"
  {
    if Strip(registryStatus) == "ingested" then Ingested else ToIngest
  }

  /** A `course_law_requirements` row (its `requirement_type` is its
      priority again). */
  datatype Requirement = Requirement(courseSlug: string, lawKey: string, canonicalCodeId: string,
                                     priority: Priority, rank: nat, status: IngestStatus)

  /** The conflict key of `course_law_requirements`. */
  function PairKey(r: Requirement): (string, string) {
    (r.courseSlug, r.lawKey)
  }

  /** The merge's score: the weight first, then the smaller rank. */
  function Score(r: Requirement): (int, int) {
    (Weight(r.priority), -(r.rank as int))
  }

  /** One law of a course's list: `{law_key, title, jurisdiction}`, any of
      them possibly missing. */
  datatype Item = Item(lawKey: Option<string>, title: Option<string>, jurisdiction: Option<string>)

  /** One entry of the mapping: the course key and its two lists (a missing
      list is an empty one). */
  datatype CourseEntry = CourseEntry(key: string, required: seq<Item>, recommended: seq<Item>)

  // ---------------------------------------------------------------------
  // What build_rows computes, step by step
  // ---------------------------------------------------------------------

  /** The state of `build_rows` after some items: the law map, the registry
      table, every row offered to the merge so far in order, and the three
      report lists. */
  datatype Progress = Progress(laws: map<string, RegistryEntry>, table: map<string, RegistryEntry>,
                               cands: seq<Requirement>, unresolved: seq<string>,
                               missing: seq<(string, string)>, created: seq<(string, string)>)

  /** The row an item yields once its registry entry `e` is known, or the
      report of a blank canonical code. */
  function Offer(p: Progress, slug: string, pr: Priority, rank: nat, e: RegistryEntry): (q: Progress)
    ensures q.laws == p.laws && q.table == p.table && q.unresolved == p.unresolved && q.created == p.created
    ensures |q.cands| + |q.missing| == |p.cands| + |p.missing| + 1
  {
    var code := Strip(e.canonicalCodeId);
    if code == [] then p.(missing := p.missing + [(slug, e.lawKey)])
    else p.(cands := p.cands + [Requirement(slug, e.lawKey, code, pr, rank, StatusOf(e.status))])
  }

  /** One item of a course's list, at 1-based position `rank`: an item
      without a law key is skipped. */
  function ItemStep(p: Progress, slug: string, pr: Priority, rank: nat, it: Item, autoCreate: bool): (q: Progress)
    ensures q.unresolved == p.unresolved
    ensures |q.cands| + |q.missing| == |p.cands| + |p.missing| + (if NormalizeLawKey(it.lawKey) == [] then 0 else 1)
  {
    var lk := NormalizeLawKey(it.lawKey);
    if lk == [] then p else LawStep(p, slug, pr, rank, lk, it, autoCreate)
  }

  /** An item with the normalised law key `lk`: its entry when the key
      resolves; a new entry when it does not and creation is allowed; else
      the report of a missing law. */
  function LawStep(p: Progress, slug: string, pr: Priority, rank: nat, lk: string, it: Item,
                   autoCreate: bool): (q: Progress)
    ensures q.unresolved == p.unresolved
    ensures |q.cands| + |q.missing| == |p.cands| + |p.missing| + 1
    ensures p.laws.Keys <= q.laws.Keys
    ensures q.created == p.created || (autoCreate && |q.created| == |p.created| + 1)
  {
    match ResolveLaw(lk, p.laws)
    case Some(e) => Offer(p, slug, pr, rank, e)
    case None =>
      if autoCreate then
        var e := NewRegistryEntry(AliasOf(lk), it.title, it.jurisdiction);
        Offer(p.(laws := p.laws[e.lawKey := e], table := p.table[e.lawKey := e],
                 created := p.created + [(slug, e.lawKey)]), slug, pr, rank, e)
      else p.(missing := p.missing + [(slug, lk)])
  }

  /** The first `n` items of a list. */
  function ItemsUpTo(p: Progress, slug: string, pr: Priority, items: seq<Item>, n: nat, autoCreate: bool): (q: Progress)
    requires n <= |items|
    ensures q.unresolved == p.unresolved
    ensures |p.cands| + |p.missing| <= |q.cands| + |q.missing| <= |p.cands| + |p.missing| + n
  {
    if n == 0 then p
    else ItemStep(ItemsUpTo(p, slug, pr, items, n - 1, autoCreate), slug, pr, n, items[n - 1], autoCreate)
  }

  /** One course: unresolved, it is reported; resolved, its required list
      and then its recommended one are processed. */
  function CourseStep(p: Progress, c: CourseEntry, lookup: map<string, string>, autoCreate: bool,
                      fold: char -> string): (q: Progress)
    ensures q.unresolved == p.unresolved + if ResolveCourse(c.key, lookup, fold).None? then [c.key] else []
    ensures ResolveCourse(c.key, lookup, fold).None? ==> q.cands == p.cands && q.missing == p.missing
  {
    match ResolveCourse(c.key, lookup, fold)
    case None => p.(unresolved := p.unresolved + [c.key])
    case Some(slug) =>
      var q := ItemsUpTo(p, slug, Required, c.required, |c.required|, autoCreate);
      ItemsUpTo(q, slug, Recommended, c.recommended, |c.recommended|, autoCreate)
  }

  /** The first `n` courses of the mapping. */
  function CoursesUpTo(p: Progress, mapping: seq<CourseEntry>, n: nat, lookup: map<string, string>,
                       autoCreate: bool, fold: char -> string): (q: Progress)
    requires n <= |mapping|
    ensures |p.unresolved| <= |q.unresolved| <= |p.unresolved| + n
    ensures q.unresolved[..|p.unresolved|] == p.unresolved
    ensures forall i :: |p.unresolved| <= i < |q.unresolved| ==>
              exists j :: 0 <= j < n && mapping[j].key == q.unresolved[i]
  {
    if n == 0 then p
    else
      var m := CoursesUpTo(p, mapping, n - 1, lookup, autoCreate, fold);
      var q := CourseStep(m, mapping[n - 1], lookup, autoCreate, fold);
      UnresolvedStep(p.unresolved, m.unresolved, q.unresolved, mapping, n);
      q
  }

  /** One more course adds at most its own key to the unresolved list. */
  lemma UnresolvedStep(u: seq<string>, mu: seq<string>, qu: seq<string>, mapping: seq<CourseEntry>, n: nat)
    requires 0 < n <= |mapping|
    requires |u| <= |mu| <= |u| + n - 1 && mu[..|u|] == u
    requires forall i :: |u| <= i < |mu| ==> exists j :: 0 <= j < n - 1 && mapping[j].key == mu[i]
    requires qu == mu || qu == mu + [mapping[n - 1].key]
    ensures |u| <= |qu| <= |u| + n && qu[..|u|] == u
    ensures forall i :: |u| <= i < |qu| ==> exists j :: 0 <= j < n && mapping[j].key == qu[i]
  {
    assert qu[..|mu|] == mu;
    forall i | |u| <= i < |qu|
      ensures exists j :: 0 <= j < n && mapping[j].key == qu[i]
    {
      if i < |mu| {
        assert qu[i] == mu[i];
        var j :| 0 <= j < n - 1 && mapping[j].key == mu[i];
      } else {
        assert mapping[n - 1].key == qu[i];
      }
    }
  }

  /** The whole mapping, from the given law map and registry table. */
  function Built(mapping: seq<CourseEntry>, lookup: map<string, string>, laws: map<string, RegistryEntry>,
                 table: map<string, RegistryEntry>, autoCreate: bool, fold: char -> string): (q: Progress)
    ensures |q.unresolved| <= |mapping|
    ensures forall i :: 0 <= i < |q.unresolved| ==> exists j :: 0 <= j < |mapping| && mapping[j].key == q.unresolved[i]
  {
    CoursesUpTo(Progress(laws, table, [], [], [], []), mapping, |mapping|, lookup, autoCreate, fold)
  }

  // ---------------------------------------------------------------------
  // build_rows
  // ---------------------------------------------------------------------

  /** The result lists `build_rows` keeps, and `rows_by_pair` with the
      order in which its keys were first stored. */
  datatype Results = Results(order: seq<(string, string)>, byPair: map<(string, string), Requirement>,
                             unresolved: seq<string>, missing: seq<(string, string)>,
                             created: seq<(string, string)>)

  /** The method's state is the state `p` describes: `rows_by_pair` is the
      merge of the rows offered so far (`at` gives where each stored row was
      offered). */
  ghost predicate Agrees(res: Results, at: map<(string, string), nat>, p: Progress, laws: LawMap,
                         table: RegistryTable)
    reads laws, table
  {
    laws.entries == p.laws && table.rows == p.table && Mirrors(res, at, p)
  }

  /** The result lists are those of `p`, and `rows_by_pair` is the merge of
      the rows `p` has offered. */
  ghost predicate Mirrors(res: Results, at: map<(string, string), nat>, p: Progress) {
    && res.unresolved == p.unresolved && res.missing == p.missing && res.created == p.created
    && Tracks(p.cands, res.order, res.byPair, at, PairKey, Score)
  }

  /** The merge of one new row into `rows_by_pair`: stored when its pair is
      new; else it replaces the stored row when it is required and that one
      recommended, or when both have the same priority and it has the
      smaller rank. */
  method MergeRow(res: Results, ghost cands: seq<Requirement>, ghost at: map<(string, string), nat>,
                  row: Requirement) returns (res': Results, ghost at': map<(string, string), nat>)
    requires Tracks(cands, res.order, res.byPair, at, PairKey, Score)
    ensures Tracks(cands + [row], res'.order, res'.byPair, at', PairKey, Score)
    ensures res' == res.(order := res'.order, byPair := res'.byPair)
  {
    var pair := PairKey(row);
    res', at' := res, at;
    if pair !in res.byPair {
      TracksStepNew(cands, row, res.order, res.byPair, at, PairKey, Score);
      res' := res.(order := res.order + [pair], byPair := res.byPair[pair := row]);
      at' := at[pair := |cands|];
    } else {
      var existing := res.byPair[pair];
      if Weight(row.priority) > Weight(existing.priority)
         || (row.priority == existing.priority && row.rank < existing.rank) {
        TracksStepReplace(cands, row, res.order, res.byPair, at, PairKey, Score);
        res' := res.(byPair := res.byPair[pair := row]);
        at' := at[pair := |cands|];
      } else {
        TracksStepKeep(cands, row, res.order, res.byPair, at, PairKey, Score);
      }
    }
  }

  /** One item of a course's list at 1-based position `rank`: resolve its
      law (creating it when allowed), report it when it stays missing or
      has no canonical code, else merge its row. */
  method AddItem(slug: string, pr: Priority, rank: nat, it: Item, autoCreate: bool, laws: LawMap,
                 table: RegistryTable, res: Results, ghost p: Progress, ghost at: map<(string, string), nat>)
      returns (res': Results, ghost at': map<(string, string), nat>)
    requires Agrees(res, at, p, laws, table)
    modifies laws, table
    ensures Agrees(res', at', ItemStep(p, slug, pr, rank, it, autoCreate), laws, table)
  {
    var lkRaw := NormalizeLawKey(it.lawKey);
    if lkRaw == [] {
      return res, at;
    }
    res', at' := AddLaw(slug, pr, rank, lkRaw, it, autoCreate, laws, table, res, p, at);
  }

  /** An item with a law key: resolve it (creating it when allowed), report
      it when it stays missing, else offer its entry's row. */
  method AddLaw(slug: string, pr: Priority, rank: nat, lk: string, it: Item, autoCreate: bool, laws: LawMap,
                table: RegistryTable, res: Results, ghost p: Progress, ghost at: map<(string, string), nat>)
      returns (res': Results, ghost at': map<(string, string), nat>)
    requires Agrees(res, at, p, laws, table)
    modifies laws, table
    ensures Agrees(res', at', LawStep(p, slug, pr, rank, lk, it, autoCreate), laws, table)
  {
    var reg := ResolveLaw(lk, laws.entries);
    if reg.Some? {
      assert LawStep(p, slug, pr, rank, lk, it, autoCreate) == Offer(p, slug, pr, rank, reg.value);
      res', at' := OfferRow(slug, pr, rank, reg.value, res, p, at);
    } else if autoCreate {
      var created, res1, q := CreateLaw(slug, lk, it, laws, table, res, p);
      assert LawStep(p, slug, pr, rank, lk, it, autoCreate) == Offer(q, slug, pr, rank, created);
      res', at' := OfferRow(slug, pr, rank, created, res1, q, at);
    } else {
      assert LawStep(p, slug, pr, rank, lk, it, autoCreate) == p.(missing := p.missing + [(slug, lk)]);
      res', at' := res.(missing := res.missing + [(slug, lk)]), at;
    }
  }

  /** The auto-create branch of one item: the create step writes the new
      entry, `law_map` gets it, and the pair is reported as created. */
  method CreateLaw(slug: string, lk: string, it: Item, laws: LawMap, table: RegistryTable, res: Results,
                   ghost p: Progress) returns (e: RegistryEntry, res': Results, ghost q: Progress)
    requires laws.entries == p.laws && table.rows == p.table
    modifies laws, table
    ensures e == NewRegistryEntry(AliasOf(lk), it.title, it.jurisdiction)
    ensures q == p.(laws := p.laws[e.lawKey := e], table := p.table[e.lawKey := e],
                    created := p.created + [(slug, e.lawKey)])
    ensures laws.entries == q.laws && table.rows == q.table
    ensures res' == res.(created := res.created + [(slug, e.lawKey)])
  {
    e := AutoCreateLawRegistryRow(table, AliasOf(lk), it.title, it.jurisdiction);
    laws.entries := laws.entries[e.lawKey := e];
    res' := res.(created := res.created + [(slug, e.lawKey)]);
    q := p.(laws := laws.entries, table := table.rows, created := p.created + [(slug, e.lawKey)]);
  }

  /** The end of one item whose registry entry `e` is known: report a
      blank canonical code, else merge the row. */
  method OfferRow(slug: string, pr: Priority, rank: nat, e: RegistryEntry, res: Results, ghost p: Progress,
                  ghost at: map<(string, string), nat>) returns (res': Results, ghost at': map<(string, string), nat>)
    requires Mirrors(res, at, p)
    ensures Mirrors(res', at', Offer(p, slug, pr, rank, e))
  {
    res', at' := res, at;
    var code := Strip(e.canonicalCodeId);
    if code == [] {
      res' := res'.(missing := res'.missing + [(slug, e.lawKey)]);
      return;
    }
    var row := Requirement(slug, e.lawKey, code, pr, rank, StatusOf(e.status));
    res', at' := MergeRow(res', p.cands, at', row);
  }

  /** The `enumerate(items, start=1)` loop over one list of a course. */
  method AddItems(slug: string, pr: Priority, items: seq<Item>, autoCreate: bool, laws: LawMap,
                  table: RegistryTable, res: Results, ghost p: Progress, ghost at: map<(string, string), nat>)
      returns (res': Results, ghost p': Progress, ghost at': map<(string, string), nat>)
    requires Agrees(res, at, p, laws, table)
    modifies laws, table
    ensures p' == ItemsUpTo(p, slug, pr, items, |items|, autoCreate)
    ensures Agrees(res', at', p', laws, table)
  {
    res', p', at' := res, p, at;
    for idx := 1 to |items| + 1
      invariant p' == ItemsUpTo(p, slug, pr, items, idx - 1, autoCreate)
      invariant Agrees(res', at', p', laws, table)
    {
      ghost var next := ItemStep(p', slug, pr, idx, items[idx - 1], autoCreate);
      assert next == ItemsUpTo(p, slug, pr, items, idx, autoCreate);
      res', at' := AddItem(slug, pr, idx, items[idx - 1], autoCreate, laws, table, res', p', at');
      p' := next;
    }
  }

  /** `build_rows`: `mapping` is the mapping file's entries in order,
      `lookup` the course lookup, `laws` the law map it extends, `table`
      the registry the create step writes to. It returns the merged rows
      (one per course and law, in order of first appearance), the
      unresolved course keys, and the missing and created laws. */
  method BuildRows(mapping: seq<CourseEntry>, lookup: map<string, string>, laws: LawMap, table: RegistryTable,
                   autoCreate: bool, fold: char -> string)
      returns (rows: seq<Requirement>, unresolved: seq<string>, missing: seq<(string, string)>,
               created: seq<(string, string)>)
    modifies laws, table
    ensures var p := Built(mapping, lookup, old(laws.entries), old(table.rows), autoCreate, fold);
            && IsBestOf(rows, p.cands, PairKey, Score)
            && unresolved == p.unresolved && missing == p.missing && created == p.created
            && laws.entries == p.laws && table.rows == p.table
  {
    var res := Results([], map[], [], [], []);
    ghost var start := Progress(laws.entries, table.rows, [], [], [], []);
    ghost var p := start;
    ghost var at: map<(string, string), nat> := map[];
    TracksEmpty(PairKey, Score);
    for i := 0 to |mapping|
      invariant p == CoursesUpTo(start, mapping, i, lookup, autoCreate, fold)
      invariant Agrees(res, at, p, laws, table)
    {
      var course := mapping[i];
      var slug := ResolveCourse(course.key, lookup, fold);
      if slug.None? {
        res := res.(unresolved := res.unresolved + [course.key]);
        p := p.(unresolved := res.unresolved);
      } else {
        res, p, at := AddItems(slug.value, Required, course.required, autoCreate, laws, table, res, p, at);
        res, p, at := AddItems(slug.value, Recommended, course.recommended, autoCreate, laws, table, res, p, at);
      }
    }
    TracksGivesBest(p.cands, res.order, res.byPair, at, PairKey, Score);
    rows := Values(res.order, res.byPair);
    unresolved, missing, created := res.unresolved, res.missing, res.created;
  }

  // ---------------------------------------------------------------------
  // What build_rows promises
  // ---------------------------------------------------------------------

  /** The merged rows: at most one per course and law; each an offered
      row; every offered pair present; and the kept row of a pair is
      required whenever a required row was offered for it, with the
      smallest rank among the offered rows of its priority. */
  lemma MergeSpec(out: seq<Requirement>, cands: seq<Requirement>)
    requires IsBestOf(out, cands, PairKey, Score)
    ensures forall i, j :: 0 <= i < j < |out| ==> PairKey(out[i]) != PairKey(out[j])
    ensures forall i :: 0 <= i < |out| ==> out[i] in cands
    ensures forall j :: 0 <= j < |cands| ==> exists i :: 0 <= i < |out| && PairKey(out[i]) == PairKey(cands[j])
    ensures forall i, j :: 0 <= i < |out| && 0 <= j < |cands| && PairKey(cands[j]) == PairKey(out[i]) ==>
              && (cands[j].priority == Required ==> out[i].priority == Required)
              && (cands[j].priority == out[i].priority ==> out[i].rank <= cands[j].rank)
  {
    forall i | 0 <= i < |out|
      ensures out[i] in cands
      ensures forall j :: 0 <= j < |cands| && PairKey(cands[j]) == PairKey(out[i]) ==>
                && (cands[j].priority == Required ==> out[i].priority == Required)
                && (cands[j].priority == out[i].priority ==> out[i].rank <= cands[j].rank)
    {
      assert IsWinner(out[i], cands, PairKey, Score);
      var w :| 0 <= w < |cands| && cands[w] == out[i] && Wins(cands, w, PairKey, Score);
      forall j | 0 <= j < |cands| && PairKey(cands[j]) == PairKey(out[i])
        ensures cands[j].priority == Required ==> out[i].priority == Required
        ensures cands[j].priority == out[i].priority ==> out[i].rank <= cands[j].rank
      {
        if j < w {
          assert Beats(Score(cands[w]), Score(cands[j]));
        } else if w < j {
          assert !Beats(Score(cands[j]), Score(cands[w]));
        }
      }
    }
    forall j | 0 <= j < |cands|
      ensures exists i :: 0 <= i < |out| && PairKey(out[i]) == PairKey(cands[j])
    {
      assert HasKey(out, PairKey(cands[j]), PairKey);
    }
  }

  /** The list of a course's entry a priority names. */
  function ListOf(c: CourseEntry, pr: Priority): seq<Item> {
    if pr == Required then c.required else c.recommended
  }

  /** `r` is a row of course `slug` in its list `pr`, at a 1-based position
      of a list of `n` items, with a canonical code. */
  predicate RowOf(r: Requirement, slug: string, pr: Priority, n: nat) {
    r.courseSlug == slug && r.priority == pr && 1 <= r.rank <= n && r.canonicalCodeId != []
  }

  /** The registry entry an item with law key `lk` is offered with: the
      one its key resolves to, else the one created for it. */
  function EntryFor(lk: string, it: Item, laws: map<string, RegistryEntry>): (e: RegistryEntry)
    ensures e in laws.Values
            || (e.lawKey == NormalizeLawKey(Some(AliasOf(lk))) && e.canonicalCodeId == e.lawKey && e.status == "to_ingest")
  {
    match ResolveLaw(lk, laws)
    case Some(e) => e
    case None => NewRegistryEntry(AliasOf(lk), it.title, it.jurisdiction)
  }

  /** One item offers at most one row, which is a row of its course and
      list at its position; it never drops an offered row or a report.
      The row has the item's rank, and the law key, stripped canonical
      code and status of the entry its key resolved to or was created
      as. */
  lemma LawStepOffers(p: Progress, slug: string, pr: Priority, rank: nat, lk: string, it: Item, autoCreate: bool)
    requires rank >= 1
    ensures var q := LawStep(p, slug, pr, rank, lk, it, autoCreate);
            && (q.cands == p.cands || exists r :: q.cands == p.cands + [r] && RowOf(r, slug, pr, rank))
            && q.unresolved == p.unresolved
    ensures var q, e := LawStep(p, slug, pr, rank, lk, it, autoCreate), EntryFor(lk, it, p.laws);
            q.cands != p.cands ==>
              && |q.cands| == |p.cands| + 1
              && q.cands[|p.cands|].rank == rank
              && q.cands[|p.cands|].lawKey == e.lawKey
              && q.cands[|p.cands|].canonicalCodeId == Strip(e.canonicalCodeId)
              && q.cands[|p.cands|].status == StatusOf(e.status)
  {
    match ResolveLaw(lk, p.laws)
    case Some(e) =>
      OfferOffers(p, slug, pr, rank, e);
    case None =>
      if autoCreate {
        var e := NewRegistryEntry(AliasOf(lk), it.title, it.jurisdiction);
        OfferOffers(p.(laws := p.laws[e.lawKey := e], table := p.table[e.lawKey := e],
                       created := p.created + [(slug, e.lawKey)]), slug, pr, rank, e);
      }
  }

  /** An item with a normalised law key yields exactly one of a row and a
      missing-law report; it yields the report exactly when its law does
      not resolve and creation is off, or resolves to an entry with a
      blank canonical code. A created entry always yields a row. */
  lemma LawStepOutcome(p: Progress, slug: string, pr: Priority, rank: nat, lk: string, it: Item, autoCreate: bool)
    requires lk != [] && NormalizeLawKey(Some(lk)) == lk
    ensures var q := LawStep(p, slug, pr, rank, lk, it, autoCreate);
            && ((|q.cands| == |p.cands| + 1 && q.missing == p.missing) ||
                (q.cands == p.cands && |q.missing| == |p.missing| + 1 && q.missing[|p.missing|].0 == slug))
            && (q.cands == p.cands <==>
                  match ResolveLaw(lk, p.laws)
                  case None => !autoCreate
                  case Some(e) => Strip(e.canonicalCodeId) == [])
  {
    match ResolveLaw(lk, p.laws)
    case Some(e) =>
    case None =>
      if autoCreate {
        var e := NewRegistryEntry(AliasOf(lk), it.title, it.jurisdiction);
        assert e.canonicalCodeId == AliasOf(lk) != [];
        assert Strip(e.canonicalCodeId) == e.canonicalCodeId;
      }
  }

  /** Offering an entry's row adds at most that one row. */
  lemma OfferOffers(p: Progress, slug: string, pr: Priority, rank: nat, e: RegistryEntry)
    requires rank >= 1
    ensures var q := Offer(p, slug, pr, rank, e);
            && (q.cands == p.cands || exists r :: q.cands == p.cands + [r] && RowOf(r, slug, pr, rank))
            && q.unresolved == p.unresolved
  {
    var code := Strip(e.canonicalCodeId);
    if code != [] {
      var r := Requirement(slug, e.lawKey, code, pr, rank, StatusOf(e.status));
      assert RowOf(r, slug, pr, rank);
    }
  }

  /** The first `n` items of a list offer rows of that course and list,
      each at a position between 1 and `n`, after the rows offered
      before. */
  lemma {:induction false} ItemsUpToOffers(p: Progress, slug: string, pr: Priority, items: seq<Item>, n: nat,
                                           autoCreate: bool)
    requires n <= |items|
    ensures var q := ItemsUpTo(p, slug, pr, items, n, autoCreate);
            && |p.cands| <= |q.cands| && q.cands[..|p.cands|] == p.cands
            && (forall k :: |p.cands| <= k < |q.cands| ==> RowOf(q.cands[k], slug, pr, n))
            && q.unresolved == p.unresolved
  {
    if n > 0 {
      var m := ItemsUpTo(p, slug, pr, items, n - 1, autoCreate);
      ItemsUpToOffers(p, slug, pr, items, n - 1, autoCreate);
      ItemStepOffers(m, slug, pr, n, items[n - 1], autoCreate);
      var q := ItemStep(m, slug, pr, n, items[n - 1], autoCreate);
      ExtendOffers(p.cands, m.cands, q.cands, slug, pr, n);
    }
  }

  /** `ItemStep`'s share of `LawStepOffers`: an item without a key offers
      nothing. */
  lemma ItemStepOffers(p: Progress, slug: string, pr: Priority, rank: nat, it: Item, autoCreate: bool)
    requires rank >= 1
    ensures var q := ItemStep(p, slug, pr, rank, it, autoCreate);
            && (q.cands == p.cands || exists r :: q.cands == p.cands + [r] && RowOf(r, slug, pr, rank))
            && q.unresolved == p.unresolved
  {
    var lk := NormalizeLawKey(it.lawKey);
    if lk != [] {
      LawStepOffers(p, slug, pr, rank, lk, it, autoCreate);
    }
  }

  /** Rows offered after `a` at positions up to `n - 1`, then at most one
      more at position `n`, are rows offered after `a` at positions up to
      `n`. */
  lemma ExtendOffers(a: seq<Requirement>, b: seq<Requirement>, c: seq<Requirement>, slug: string, pr: Priority, n: nat)
    requires n >= 1
    requires |a| <= |b| && b[..|a|] == a
    requires forall k :: |a| <= k < |b| ==> RowOf(b[k], slug, pr, n - 1)
    requires c == b || exists r :: c == b + [r] && RowOf(r, slug, pr, n)
    ensures |a| <= |c| && c[..|a|] == a
    ensures forall k :: |a| <= k < |c| ==> RowOf(c[k], slug, pr, n)
  {
    if c != b {
      var r :| c == b + [r] && RowOf(r, slug, pr, n);
      assert c[..|a|] == b[..|a|];
      forall k | |a| <= k < |c|
        ensures RowOf(c[k], slug, pr, n)
      {
        if k < |b| {
          assert c[k] == b[k];
        }
      }
    }
  }

  /** The keys of the first `n` courses that resolve to no course, in
      mapping order. */
  function UnresolvedKeys(mapping: seq<CourseEntry>, n: nat, lookup: map<string, string>,
                          fold: char -> string): (r: seq<string>)
    requires n <= |mapping|
    ensures |r| <= n
    ensures forall k :: k in r ==> exists i :: 0 <= i < n && mapping[i].key == k
                                              && ResolveCourse(mapping[i].key, lookup, fold).None?
  {
    if n == 0 then []
    else
      var c := mapping[n - 1];
      UnresolvedKeys(mapping, n - 1, lookup, fold) + if ResolveCourse(c.key, lookup, fold).None? then [c.key] else []
  }

  /** `r` is a row of one of the first `n` courses: the course resolves to
      `r`'s slug and `r`'s rank is a position of its list of `r`'s
      priority. */
  ghost predicate FromCourse(r: Requirement, mapping: seq<CourseEntry>, n: nat, lookup: map<string, string>,
                             fold: char -> string) {
    exists i :: 0 <= i < n && i < |mapping| && ResolveCourse(mapping[i].key, lookup, fold) == Some(r.courseSlug)
                && RowOf(r, r.courseSlug, r.priority, |ListOf(mapping[i], r.priority)|)
  }

  /** What one course adds, `slug` being what its key resolves to:
      unresolved, its key is reported and nothing is offered; resolved,
      nothing is reported unresolved and every row offered is a row of the
      course, at a position of its list. */
  ghost predicate CourseAdds(m: Progress, q: Progress, c: CourseEntry, slug: Option<string>) {
    match slug
    case None => q.cands == m.cands && q.unresolved == m.unresolved + [c.key]
    case Some(s) =>
      && q.unresolved == m.unresolved && IsPrefix(m.cands, q.cands)
      && forall k :: |m.cands| <= k < |q.cands| ==>
           RowOf(q.cands[k], s, q.cands[k].priority, |ListOf(c, q.cands[k].priority)|)
  }

  /** One course adds what `CourseAdds` says. */
  lemma CourseStepOffers(p: Progress, c: CourseEntry, lookup: map<string, string>, autoCreate: bool,
                         fold: char -> string)
    ensures CourseAdds(p, CourseStep(p, c, lookup, autoCreate, fold), c, ResolveCourse(c.key, lookup, fold))
  {
    match ResolveCourse(c.key, lookup, fold)
    case None =>
    case Some(slug) =>
      var m := ItemsUpTo(p, slug, Required, c.required, |c.required|, autoCreate);
      var q := ItemsUpTo(m, slug, Recommended, c.recommended, |c.recommended|, autoCreate);
      ItemsUpToOffers(p, slug, Required, c.required, |c.required|, autoCreate);
      ItemsUpToOffers(m, slug, Recommended, c.recommended, |c.recommended|, autoCreate);
      assert q.cands[..|m.cands|] == m.cands;
      assert q.cands[..|p.cands|] == m.cands[..|p.cands|];
      forall k | |p.cands| <= k < |q.cands|
        ensures RowOf(q.cands[k], slug, q.cands[k].priority, |ListOf(c, q.cands[k].priority)|)
      {
        if k < |m.cands| {
          assert q.cands[k] == m.cands[k];
        }
      }
  }

  /** What the first `n` courses add to `p`: the keys of the unresolved
      ones, and rows of resolved courses after the rows of `p`. */
  ghost predicate CourseRows(p: Progress, q: Progress, mapping: seq<CourseEntry>, n: nat, lookup: map<string, string>,
                             fold: char -> string)
    requires n <= |mapping|
  {
    && q.unresolved == p.unresolved + UnresolvedKeys(mapping, n, lookup, fold)
    && IsPrefix(p.cands, q.cands)
    && forall k :: |p.cands| <= k < |q.cands| ==> FromCourse(q.cands[k], mapping, n, lookup, fold)
  }

  /** `CourseRows` for `n - 1` courses, then what the `n`-th adds, give
      `CourseRows` for `n`. */
  lemma ExtendCourseRows(p: Progress, m: Progress, q: Progress, mapping: seq<CourseEntry>, n: nat,
                         lookup: map<string, string>, fold: char -> string)
    requires 0 < n <= |mapping|
    requires CourseRows(p, m, mapping, n - 1, lookup, fold)
    requires CourseAdds(m, q, mapping[n - 1], ResolveCourse(mapping[n - 1].key, lookup, fold))
    ensures CourseRows(p, q, mapping, n, lookup, fold)
  {
    PrefixTrans(p.cands, m.cands, q.cands);
    CourseAddsKey(m, q, mapping[n - 1], ResolveCourse(mapping[n - 1].key, lookup, fold));
    ExtendUnresolved(p, m, q, mapping, n, lookup, fold);
    ExtendFromCourses(p, m, q, mapping, n, lookup, fold);
  }

  /** What a course adds to the unresolved list: its key, when it does not
      resolve. */
  lemma CourseAddsKey(m: Progress, q: Progress, c: CourseEntry, slug: Option<string>)
    requires CourseAdds(m, q, c, slug)
    ensures q.unresolved == m.unresolved + if slug.None? then [c.key] else []
  {
    if slug.Some? {
      assert m.unresolved + [] == m.unresolved;
    }
  }

  /** Every row after those of `p` comes from one of the first `n`
      courses. */
  lemma ExtendFromCourses(p: Progress, m: Progress, q: Progress, mapping: seq<CourseEntry>, n: nat,
                          lookup: map<string, string>, fold: char -> string)
    requires 0 < n <= |mapping|
    requires IsPrefix(p.cands, m.cands)
    requires forall j :: |p.cands| <= j < |m.cands| ==> FromCourse(m.cands[j], mapping, n - 1, lookup, fold)
    requires CourseAdds(m, q, mapping[n - 1], ResolveCourse(mapping[n - 1].key, lookup, fold))
    ensures forall k :: |p.cands| <= k < |q.cands| ==> FromCourse(q.cands[k], mapping, n, lookup, fold)
  {
    forall k | |p.cands| <= k < |q.cands|
      ensures FromCourse(q.cands[k], mapping, n, lookup, fold)
    {
      ExtendFromCourse(p, m, q, mapping, n, k, lookup, fold);
    }
  }

  /** The unresolved keys after the `n`-th course. */
  lemma ExtendUnresolved(p: Progress, m: Progress, q: Progress, mapping: seq<CourseEntry>, n: nat,
                         lookup: map<string, string>, fold: char -> string)
    requires 0 < n <= |mapping|
    requires m.unresolved == p.unresolved + UnresolvedKeys(mapping, n - 1, lookup, fold)
    requires q.unresolved == m.unresolved + if ResolveCourse(mapping[n - 1].key, lookup, fold).None?
                                              then [mapping[n - 1].key] else []
    ensures q.unresolved == p.unresolved + UnresolvedKeys(mapping, n, lookup, fold)
  {
    var u := UnresolvedKeys(mapping, n - 1, lookup, fold);
    var x := if ResolveCourse(mapping[n - 1].key, lookup, fold).None? then [mapping[n - 1].key] else [];
    assert UnresolvedKeys(mapping, n, lookup, fold) == u + x;
    assert p.unresolved + (u + x) == (p.unresolved + u) + x;
  }

  /** The `k`-th row after the `n`-th course comes from one of the first
      `n` courses. */
  lemma ExtendFromCourse(p: Progress, m: Progress, q: Progress, mapping: seq<CourseEntry>, n: nat, k: nat,
                         lookup: map<string, string>, fold: char -> string)
    requires 0 < n <= |mapping|
    requires IsPrefix(p.cands, m.cands)
    requires forall j :: |p.cands| <= j < |m.cands| ==> FromCourse(m.cands[j], mapping, n - 1, lookup, fold)
    requires CourseAdds(m, q, mapping[n - 1], ResolveCourse(mapping[n - 1].key, lookup, fold))
    requires |p.cands| <= k < |q.cands|
    ensures FromCourse(q.cands[k], mapping, n, lookup, fold)
  {
    if k < |m.cands| {
      assert q.cands[..|m.cands|] == m.cands;
      assert q.cands[k] == m.cands[k];
      assert FromCourse(m.cands[k], mapping, n - 1, lookup, fold);
    } else {
      assert ResolveCourse(mapping[n - 1].key, lookup, fold) == Some(q.cands[k].courseSlug);
    }
  }

  /** `CourseRows` survives the `n`-th course. */
  lemma CoursesUpToStepOffers(p: Progress, mapping: seq<CourseEntry>, n: nat, lookup: map<string, string>,
                              autoCreate: bool, fold: char -> string)
    requires 0 < n <= |mapping|
    requires CourseRows(p, CoursesUpTo(p, mapping, n - 1, lookup, autoCreate, fold), mapping, n - 1, lookup, fold)
    ensures CourseRows(p, CoursesUpTo(p, mapping, n, lookup, autoCreate, fold), mapping, n, lookup, fold)
  {
    var m := CoursesUpTo(p, mapping, n - 1, lookup, autoCreate, fold);
    var q := CourseStep(m, mapping[n - 1], lookup, autoCreate, fold);
    assert CoursesUpTo(p, mapping, n, lookup, autoCreate, fold) == q;
    CourseStepOffers(m, mapping[n - 1], lookup, autoCreate, fold);
    ExtendCourseRows(p, m, q, mapping, n, lookup, fold);
  }

  /** The first `n` courses. */
  lemma {:induction false} CoursesUpToOffers(p: Progress, mapping: seq<CourseEntry>, n: nat,
                                             lookup: map<string, string>, autoCreate: bool, fold: char -> string)
    requires n <= |mapping|
    ensures CourseRows(p, CoursesUpTo(p, mapping, n, lookup, autoCreate, fold), mapping, n, lookup, fold)
  {
    if n == 0 {
      NoCourseRows(p, mapping, lookup, autoCreate, fold);
    } else {
      CoursesUpToOffers(p, mapping, n - 1, lookup, autoCreate, fold);
      CoursesUpToStepOffers(p, mapping, n, lookup, autoCreate, fold);
    }
  }

  /** No course adds nothing. */
  lemma NoCourseRows(p: Progress, mapping: seq<CourseEntry>, lookup: map<string, string>, autoCreate: bool,
                     fold: char -> string)
    ensures CourseRows(p, CoursesUpTo(p, mapping, 0, lookup, autoCreate, fold), mapping, 0, lookup, fold)
  {
    assert CoursesUpTo(p, mapping, 0, lookup, autoCreate, fold) == p;
    assert p.unresolved + UnresolvedKeys(mapping, 0, lookup, fold) == p.unresolved;
    assert p.cands[..|p.cands|] == p.cands;
  }

  /** Over a whole run: the unresolved course keys are exactly those of the
      courses that resolve to nothing, in mapping order; every row offered
      to the merge, hence every row returned, belongs to a course the
      mapping resolves to its slug, at a 1-based position of that course's
      list of its priority, with a canonical code. */
  lemma BuiltCourses(mapping: seq<CourseEntry>, lookup: map<string, string>, laws: map<string, RegistryEntry>,
                     table: map<string, RegistryEntry>, autoCreate: bool, fold: char -> string)
    ensures var q := Built(mapping, lookup, laws, table, autoCreate, fold);
            && q.unresolved == UnresolvedKeys(mapping, |mapping|, lookup, fold)
            && forall r :: r in q.cands ==> FromCourse(r, mapping, |mapping|, lookup, fold)
  {
    var start := Progress(laws, table, [], [], [], []);
    CoursesUpToOffers(start, mapping, |mapping|, lookup, autoCreate, fold);
    assert [] + UnresolvedKeys(mapping, |mapping|, lookup, fold) == UnresolvedKeys(mapping, |mapping|, lookup, fold);
  }

  // ---------------------------------------------------------------------
  // The law map and the reports over a whole run
  // ---------------------------------------------------------------------

  /** Every entry of `a` is in `b`, unchanged. */
  ghost predicate Extends(a: map<string, RegistryEntry>, b: map<string, RegistryEntry>) {
    forall k :: k in a ==> k in b && b[k] == a[k]
  }

  ghost predicate IsPrefix<T>(a: seq<T>, b: seq<T>) {
    |a| <= |b| && b[..|a|] == a
  }

  lemma PrefixTrans<T>(a: seq<T>, b: seq<T>, c: seq<T>)
    requires IsPrefix(a, b) && IsPrefix(b, c)
    ensures IsPrefix(a, c)
  {
    assert c[..|a|] == c[..|b|][..|a|];
  }

  /** `k` was not in `before` and is in `after` as an auto-created entry:
      coded by its key, to be ingested, with an accepted jurisdiction that
      is also its bucket. */
  ghost predicate CreatedIn(k: string, before: map<string, RegistryEntry>, after: map<string, RegistryEntry>) {
    && k !in before && k in after
    && after[k].canonicalCodeId == k && after[k].status == "to_ingest"
    && after[k].jurisdiction in Jurisdictions && after[k].bucket == after[k].jurisdiction
  }

  /** Some entry of `laws` has the law key `k` and a blank canonical code. */
  ghost predicate BlankIn(k: string, laws: map<string, RegistryEntry>) {
    exists e :: e in laws.Values && e.lawKey == k && Strip(e.canonicalCodeId) == []
  }

  /** From `p` to `q`: the law map only gains entries, each an auto-created
      one reported in `created` (none at all without auto-creation); the
      reports only grow; and with auto-creation every new missing report is
      of a registry entry with a blank canonical code. */
  ghost predicate Grows(p: Progress, q: Progress, autoCreate: bool) {
    && Extends(p.laws, q.laws)
    && IsPrefix(p.created, q.created) && IsPrefix(p.missing, q.missing)
    && (forall i :: |p.created| <= i < |q.created| ==> CreatedIn(q.created[i].1, p.laws, q.laws))
    && (forall k :: k in q.laws && k !in p.laws ==> exists i :: |p.created| <= i < |q.created| && q.created[i].1 == k)
    && (!autoCreate ==> q.laws == p.laws && q.created == p.created)
    && (autoCreate ==> forall i :: |p.missing| <= i < |q.missing| ==> BlankIn(q.missing[i].1, q.laws))
  }

  lemma GrowsRefl(p: Progress, autoCreate: bool)
    ensures Grows(p, p, autoCreate)
  {
    assert p.created[..|p.created|] == p.created;
    assert p.missing[..|p.missing|] == p.missing;
  }

  /** Growth composes. */
  lemma GrowsTrans(p: Progress, q: Progress, r: Progress, autoCreate: bool)
    requires Grows(p, q, autoCreate) && Grows(q, r, autoCreate)
    ensures Grows(p, r, autoCreate)
  {
    assert r.created[..|p.created|] == q.created[..|p.created|];
    assert r.missing[..|p.missing|] == q.missing[..|p.missing|];
    forall i | |p.created| <= i < |r.created|
      ensures CreatedIn(r.created[i].1, p.laws, r.laws)
    {
      if i < |q.created| {
        assert r.created[i] == q.created[i];
      }
    }
    forall k | k in r.laws && k !in p.laws
      ensures exists i :: |p.created| <= i < |r.created| && r.created[i].1 == k
    {
      if k in q.laws {
        var i :| |p.created| <= i < |q.created| && q.created[i].1 == k;
        assert r.created[i] == q.created[i];
      }
    }
    if autoCreate {
      forall i | |p.missing| <= i < |r.missing|
        ensures BlankIn(r.missing[i].1, r.laws)
      {
        if i < |q.missing| {
          assert r.missing[i] == q.missing[i];
          var e :| e in q.laws.Values && e.lawKey == r.missing[i].1 && Strip(e.canonicalCodeId) == [];
          var k :| k in q.laws && q.laws[k] == e;
          assert r.laws[k] == e;
        }
      }
    }
  }

  /** Offering an entry of the law map changes the map not at all, and
      reports it only when its canonical code is blank. */
  lemma OfferGrows(p: Progress, slug: string, pr: Priority, rank: nat, e: RegistryEntry, autoCreate: bool)
    requires e in p.laws.Values
    ensures Grows(p, Offer(p, slug, pr, rank, e), autoCreate)
  {
    var q := Offer(p, slug, pr, rank, e);
    GrowsRefl(p, autoCreate);
    assert q.created[..|p.created|] == p.created;
    assert q.missing[..|p.missing|] == p.missing;
  }

  /** One keyed item: an entry it creates is new and reported; a missing
      report under auto-creation is of a blank canonical code. */
  lemma LawStepGrows(p: Progress, slug: string, pr: Priority, rank: nat, lk: string, it: Item, autoCreate: bool)
    requires lk != [] && NormalizeLawKey(Some(lk)) == lk
    ensures Grows(p, LawStep(p, slug, pr, rank, lk, it, autoCreate), autoCreate)
  {
    var q := LawStep(p, slug, pr, rank, lk, it, autoCreate);
    match ResolveLaw(lk, p.laws)
    case Some(e) =>
      OfferGrows(p, slug, pr, rank, e, autoCreate);
    case None =>
      if autoCreate {
        var e := NewRegistryEntry(AliasOf(lk), it.title, it.jurisdiction);
        CreatedIsFound(lk, p.laws, e);
        var p' := p.(laws := p.laws[e.lawKey := e], table := p.table[e.lawKey := e],
                     created := p.created + [(slug, e.lawKey)]);
        assert Strip(e.canonicalCodeId) != [] by {
          TrimKeepsTrimmed(e.lawKey, IsSpace);
        }
        assert q == p'.(cands := q.cands);
        assert q.created[..|p.created|] == p.created;
        assert q.missing[..|p.missing|] == p.missing;
        assert CreatedIn(q.created[|p.created|].1, p.laws, q.laws);
      } else {
        assert q.created[..|p.created|] == p.created;
        assert q.missing[..|p.missing|] == p.missing;
      }
  }

  /** One item. */
  lemma ItemStepGrows(p: Progress, slug: string, pr: Priority, rank: nat, it: Item, autoCreate: bool)
    ensures Grows(p, ItemStep(p, slug, pr, rank, it, autoCreate), autoCreate)
  {
    var lk := NormalizeLawKey(it.lawKey);
    if lk == [] {
      GrowsRefl(p, autoCreate);
    } else {
      NormalizeLawKeyIdempotent(it.lawKey);
      LawStepGrows(p, slug, pr, rank, lk, it, autoCreate);
    }
  }

  /** The first `n` items of a list. */
  lemma {:induction false} ItemsUpToGrows(p: Progress, slug: string, pr: Priority, items: seq<Item>, n: nat,
                                          autoCreate: bool)
    requires n <= |items|
    ensures Grows(p, ItemsUpTo(p, slug, pr, items, n, autoCreate), autoCreate)
  {
    if n == 0 {
      GrowsRefl(p, autoCreate);
    } else {
      var m := ItemsUpTo(p, slug, pr, items, n - 1, autoCreate);
      ItemsUpToGrows(p, slug, pr, items, n - 1, autoCreate);
      ItemStepGrows(m, slug, pr, n, items[n - 1], autoCreate);
      GrowsTrans(p, m, ItemStep(m, slug, pr, n, items[n - 1], autoCreate), autoCreate);
    }
  }

  /** One course. */
  lemma CourseStepGrows(p: Progress, c: CourseEntry, lookup: map<string, string>, autoCreate: bool,
                        fold: char -> string)
    ensures Grows(p, CourseStep(p, c, lookup, autoCreate, fold), autoCreate)
  {
    match ResolveCourse(c.key, lookup, fold)
    case None =>
      GrowsRefl(p, autoCreate);
    case Some(slug) =>
      var q := ItemsUpTo(p, slug, Required, c.required, |c.required|, autoCreate);
      ItemsUpToGrows(p, slug, Required, c.required, |c.required|, autoCreate);
      ItemsUpToGrows(q, slug, Recommended, c.recommended, |c.recommended|, autoCreate);
      GrowsTrans(p, q, ItemsUpTo(q, slug, Recommended, c.recommended, |c.recommended|, autoCreate), autoCreate);
  }

  /** Growth from `p` survives the `n`-th course. */
  lemma CoursesUpToStepGrows(p: Progress, mapping: seq<CourseEntry>, n: nat, lookup: map<string, string>,
                             autoCreate: bool, fold: char -> string)
    requires 0 < n <= |mapping|
    ensures Grows(p, CoursesUpTo(p, mapping, n - 1, lookup, autoCreate, fold), autoCreate) ==>
            Grows(p, CoursesUpTo(p, mapping, n, lookup, autoCreate, fold), autoCreate)
  {
    var m := CoursesUpTo(p, mapping, n - 1, lookup, autoCreate, fold);
    var q := CourseStep(m, mapping[n - 1], lookup, autoCreate, fold);
    assert CoursesUpTo(p, mapping, n, lookup, autoCreate, fold) == q;
    CourseStepGrows(m, mapping[n - 1], lookup, autoCreate, fold);
    if Grows(p, m, autoCreate) {
      GrowsTrans(p, m, q, autoCreate);
    }
  }

  /** The first `n` courses. */
  lemma {:induction false} CoursesUpToGrows(p: Progress, mapping: seq<CourseEntry>, n: nat,
                                            lookup: map<string, string>, autoCreate: bool, fold: char -> string)
    requires n <= |mapping|
    ensures Grows(p, CoursesUpTo(p, mapping, n, lookup, autoCreate, fold), autoCreate)
  {
    if n == 0 {
      GrowsRefl(p, autoCreate);
    } else {
      CoursesUpToGrows(p, mapping, n - 1, lookup, autoCreate, fold);
      CoursesUpToStepGrows(p, mapping, n, lookup, autoCreate, fold);
    }
  }

  /** Over a whole run: no entry of the law map is ever replaced; every
      entry it gains is an auto-created one reported in `created`, and
      every reported one is such an entry; without auto-creation nothing
      is created; with it, a law is reported missing only for a blank
      canonical code. */
  lemma BuiltLaws(mapping: seq<CourseEntry>, lookup: map<string, string>, laws: map<string, RegistryEntry>,
                  table: map<string, RegistryEntry>, autoCreate: bool, fold: char -> string)
    ensures var q := Built(mapping, lookup, laws, table, autoCreate, fold);
            && Extends(laws, q.laws)
            && (forall m :: m in q.created ==> CreatedIn(m.1, laws, q.laws))
            && (forall k :: k in q.laws && k !in laws ==> exists m :: m in q.created && m.1 == k)
            && (!autoCreate ==> q.laws == laws && q.created == [])
            && (autoCreate ==> forall m :: m in q.missing ==> BlankIn(m.1, q.laws))
  {
    var start := Progress(laws, table, [], [], [], []);
    var q := Built(mapping, lookup, laws, table, autoCreate, fold);
    CoursesUpToGrows(start, mapping, |mapping|, lookup, autoCreate, fold);
    forall k | k in q.laws && k !in laws
      ensures exists m :: m in q.created && m.1 == k
    {
      var i :| 0 <= i < |q.created| && q.created[i].1 == k;
      assert q.created[i] in q.created;
    }
  }
}
