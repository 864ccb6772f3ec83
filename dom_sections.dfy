/** The DOM strategy of `parse_justice_laws_sections`: keep the elements of
    `<main>` that look like a section, read a section number at the head of
    each one's text, and turn the first element of each number into a row. */
module DomSections {
  import opened Wrappers
  import opened Strings
  import opened LawRows
  import opened Segmentation

  /** An element under `<main>` as the HTML parser gives it: its `id`
      attribute, its `class` list and its text (`get_text("\n", strip=True)`). */
  datatype Element = Element(id: Option<string>, classes: seq<string>, text: string)

  /** A candidate's normalised text must have at least this many characters. */
  const MinCandidateLength := 40

  /** The most `.digits` groups a section number may have after its first
      digits. */
  const MaxSubsections := 3

  /** `" ".join(classes)`. */
  function JoinClasses(cs: seq<string>): (r: string)
    ensures cs == [] ==> r == []
    ensures |cs| == 1 ==> r == cs[0]
  {
    if cs == [] then [] else if |cs| == 1 then cs[0] else cs[0] + " " + JoinClasses(cs[1..])
  }

  /** Joining two non-empty lists of classes is joining their joins with a
      space between them. */
  lemma {:induction false} JoinClassesAppend(xs: seq<string>, ys: seq<string>)
    requires xs != [] && ys != []
    ensures JoinClasses(xs + ys) == JoinClasses(xs) + " " + JoinClasses(ys)
    decreases |xs|
  {
    assert (xs + ys)[0] == xs[0];
    if |xs| == 1 {
      assert (xs + ys)[1..] == ys;
    } else {
      assert (xs + ys)[1..] == xs[1..] + ys;
      JoinClassesAppend(xs[1..], ys);
    }
  }

  /** A word without a space occurs in the lower-cased class string exactly
      when it occurs in one lower-cased class. */
  lemma {:induction false} JoinClassesMention(cs: seq<string>, word: string)
    requires word != [] && forall k :: 0 <= k < |word| ==> word[k] != ' '
    ensures Contains(Lower(JoinClasses(cs)), word) <==>
              exists i :: 0 <= i < |cs| && Contains(Lower(cs[i]), word)
    decreases |cs|
  {
    if cs == [] {
      assert !StartsWith(Lower([]), word);
    } else if |cs| == 1 {
      assert JoinClasses(cs) == cs[0];
    } else {
      var rest := JoinClasses(cs[1..]);
      assert Lower(JoinClasses(cs)) == Lower(cs[0]) + [' '] + Lower(rest);
      ContainsAroundSeparator(Lower(cs[0]), ' ', Lower(rest), word);
      JoinClassesMention(cs[1..], word);
      assert forall i :: 1 <= i < |cs| ==> cs[i] == cs[1..][i - 1];
    }
  }

  /** The element looks like a section: its lower-cased class string contains
      `section`, or its lower-cased id starts with `s-` or contains `section`.
      Because `section` has no space, the class string contains it exactly
      when one class does. */
  predicate IsSectionCandidate(e: Element)
    ensures var id := Lower(e.id.GetOr([]));
            IsSectionCandidate(e) <==>
              (exists i :: 0 <= i < |e.classes| && Contains(Lower(e.classes[i]), "section"))
              || StartsWith(id, "s-") || Contains(id, "section")
  {
    JoinClassesMention(e.classes, "section");
    var id := Lower(e.id.GetOr([]));
    Contains(Lower(JoinClasses(e.classes)), "section") || StartsWith(id, "s-") || Contains(id, "section")
  }

  /** The section-looking elements of `es`, in document order
      (`CandidatesSnoc` and `CandidatesAppend` state the order). */
  function Candidates(es: seq<Element>): (r: seq<Element>)
    ensures |r| <= |es|
    ensures forall e :: e in r <==> e in es && IsSectionCandidate(e)
  {
    if es == [] then []
    else
      var last := es[|es| - 1];
      assert es == es[..|es| - 1] + [last];
      Candidates(es[..|es| - 1]) + if IsSectionCandidate(last) then [last] else []
  }

  /** The candidates of a concatenation are the candidates of each part, in
      order: so `Candidates` keeps document order and each candidate once
      per occurrence. */
  lemma {:induction false} CandidatesAppend(xs: seq<Element>, ys: seq<Element>)
    ensures Candidates(xs + ys) == Candidates(xs) + Candidates(ys)
    decreases |ys|
  {
    if ys == [] {
      assert xs + ys == xs;
    } else {
      var front, last := ys[..|ys| - 1], ys[|ys| - 1];
      var t := if IsSectionCandidate(last) then [last] else [];
      assert ys == front + [last];
      assert xs + ys == (xs + front) + [last];
      calc {
        Candidates(xs + ys);
        { CandidatesSnoc(xs + front, last); }
        Candidates(xs + front) + t;
        { CandidatesAppend(xs, front); }
        (Candidates(xs) + Candidates(front)) + t;
        Candidates(xs) + (Candidates(front) + t);
        { CandidatesSnoc(front, last); }
        Candidates(xs) + Candidates(ys);
      }
    }
  }

  /** One more element at the end adds itself when it is a candidate. */
  lemma CandidatesSnoc(es: seq<Element>, e: Element)
    ensures Candidates(es + [e]) == Candidates(es) + if IsSectionCandidate(e) then [e] else []
  {
    assert (es + [e])[..|es|] == es;
  }

  // ---------------------------------------------------------------------
  // The section number at the head of a text: ^\s*(\d+(?:\.\d+){0,3})\b
  // ---------------------------------------------------------------------

  /** Digits, then at most `k` groups of a dot followed by digits. */
  predicate DottedNumber(s: string, k: nat)
    decreases |s|
  {
    && |s| > 0 && IsDigit(s[0])
    && (|s| == 1
        || (IsDigit(s[1]) && DottedNumber(s[1..], k))
        || (k > 0 && s[1] == '.' && DottedNumber(s[2..], k - 1)))
  }

  /** A section number: digits with up to three `.digits` groups. */
  predicate IsSectionNumber(s: string) {
    DottedNumber(s, MaxSubsections)
  }

  /** Digits followed by nothing, or by a dot and a number with one group
      fewer, make a number. */
  lemma {:induction false} DigitsThen(digits: string, tail: string, k: nat)
    requires |digits| > 0 && forall i :: 0 <= i < |digits| ==> IsDigit(digits[i])
    requires tail == [] || (k > 0 && tail[0] == '.' && DottedNumber(tail[1..], k - 1))
    ensures DottedNumber(digits + tail, k)
    decreases |digits|
  {
    var s := digits + tail;
    if |digits| == 1 {
      if tail != [] {
        assert s[1] == '.' && s[2..] == tail[1..];
      }
    } else {
      DigitsThen(digits[1..], tail, k);
      assert s[1..] == digits[1..] + tail;
    }
  }

  /** The leading digits of `s` make a number on their own. */
  lemma DigitsAlone(s: string, d: nat, k: nat)
    requires 0 < d <= |s| && forall i :: 0 <= i < d ==> IsDigit(s[i])
    ensures DottedNumber(s[..d], k)
  {
    assert forall i :: 0 <= i < d ==> IsDigit(s[..d][i]);
    DigitsThen(s[..d], [], k);
    assert s[..d] + [] == s[..d];
  }

  /** The leading digits of `s`, a dot and a number of `m` characters that
      ends at a word boundary of the rest make a number of `s` that ends at
      a word boundary. */
  lemma DigitsDotGroup(s: string, d: nat, m: nat, k: nat)
    requires 0 < d && d + 1 + m <= |s| && 0 < m && k > 0
    requires forall i :: 0 <= i < d ==> IsDigit(s[i])
    requires s[d] == '.'
    requires DottedNumber(s[d + 1..][..m], k - 1) && WordBoundary(s[d + 1..], m)
    ensures DottedNumber(s[..d + 1 + m], k) && WordBoundary(s, d + 1 + m)
  {
    var rest := s[d + 1..];
    assert s[d + 1 + m - 1] == rest[m - 1];
    assert d + 1 + m < |s| ==> s[d + 1 + m] == rest[m];
    var tail := s[d..d + 1 + m];
    assert tail[0] == '.';
    assert tail[1..] == rest[..m];
    assert forall i :: 0 <= i < d ==> IsDigit(s[..d][i]);
    DigitsThen(s[..d], tail, k);
    assert s[..d] + tail == s[..d + 1 + m];
  }

  /** The length of what `\d+(?:\.\d+){0,k}\b` matches at the head of `s`,
      with the regular expression's backtracking: each greedy group is
      given back when what follows it cannot end at a word boundary. */
  function DottedPrefix(s: string, k: nat): (m: Option<nat>)
    ensures m.Some? ==> 0 < m.value <= |s| && DottedNumber(s[..m.value], k) && WordBoundary(s, m.value)
    ensures var d := RunLength(s, 0, IsDigit);
            m.None? <==> (d == 0 || (d < |s| && IsWordChar(s[d])))
    decreases |s|
  {
    var d := RunLength(s, 0, IsDigit);
    if d == 0 then None
    else
      var group := if k > 0 && d + 1 < |s| && s[d] == '.' && IsDigit(s[d + 1])
                   then DottedPrefix(s[d + 1..], k - 1) else None;
      match group
      case Some(m) =>
        DigitsDotGroup(s, d, m, k);
        Some(d + 1 + m)
      case None =>
        DigitsAlone(s, d, k);
        if WordBoundary(s, d) then Some(d) else None
  }

  /** Every character of a number is a digit or a dot, and its last one is
      a digit. */
  lemma {:induction false} DottedChars(x: string, k: nat)
    requires DottedNumber(x, k)
    ensures forall i :: 0 <= i < |x| ==> IsDigit(x[i]) || x[i] == '.'
    ensures IsDigit(x[|x| - 1])
    decreases |x|
  {
    if |x| > 1 {
      if IsDigit(x[1]) && DottedNumber(x[1..], k) {
        DottedChars(x[1..], k);
        assert forall i :: 1 <= i < |x| ==> x[i] == x[1..][i - 1];
      } else {
        DottedChars(x[2..], k - 1);
        assert forall i :: 2 <= i < |x| ==> x[i] == x[2..][i - 2];
      }
    }
  }

  /** `t` is white space up to `a`, then a section number of `m` characters
      that ends at a word boundary. */
  ghost predicate HeadNumberAt(t: string, a: nat, m: nat) {
    a + m <= |t| && AllIn(t, 0, a, IsSpace) && IsSectionNumber(t[a..a + m]) && WordBoundary(t, a + m)
  }

  /** `re.match(r"^\s*(\d+(?:\.\d+){0,3})\b", t)` succeeds. */
  ghost predicate HasHeadNumber(t: string) {
    exists a: nat, m: nat :: HeadNumberAt(t, a, m)
  }

  /** A section number at the head of `t` starts where the white space at
      the head of `t` ends, and `DottedPrefix` finds a number there. */
  lemma HeadNumberFound(t: string, a: nat, m: nat)
    requires HeadNumberAt(t, a, m)
    ensures RunLength(t, 0, IsSpace) == a
    ensures DottedPrefix(t[a..], MaxSubsections).Some?
  {
    var x := t[a..a + m];
    DottedChars(x, MaxSubsections);
    assert t[a] == x[0];
    RunLengthIs(t, 0, a, IsSpace);
    var s := t[a..];
    assert forall i :: 0 <= i < m ==> s[i] == x[i];
    assert m < |s| ==> s[m] == t[a + m];
    assert s[m - 1] == x[m - 1] == t[a + m - 1];
  }

  /** The section number at the head of `t`, if `t` starts with one:
      exactly when `^\s*(\d+(?:\.\d+){0,3})\b` matches `t`. */
  function LeadingSectionNumber(t: string): (r: Option<string>)
    ensures r.Some? ==> IsSectionNumber(r.value)
    ensures r.Some? ==> var a := RunLength(t, 0, IsSpace);
                        HeadNumberAt(t, a, |r.value|) && t[a..a + |r.value|] == r.value
    ensures r.Some? <==> HasHeadNumber(t)
  {
    var a := RunLength(t, 0, IsSpace);
    assert HasHeadNumber(t) ==> DottedPrefix(t[a..], MaxSubsections).Some? by {
      if HasHeadNumber(t) {
        var a': nat, m: nat :| HeadNumberAt(t, a', m);
        HeadNumberFound(t, a', m);
      }
    }
    match DottedPrefix(t[a..], MaxSubsections)
    case None => None
    case Some(m) =>
      BoundaryAfterSkip(t, a, m);
      assert HeadNumberAt(t, a, m);
      Some(t[a..a + m])
  }

  /** A word boundary `m` characters after index `a` of `t` is one of `t`. */
  lemma BoundaryAfterSkip(t: string, a: nat, m: nat)
    requires a + m <= |t| && WordBoundary(t[a..], m)
    ensures t[a..][..m] == t[a..a + m]
    ensures m > 0 ==> WordBoundary(t, a + m)
  {
    if m > 0 {
      assert t[a + m - 1] == t[a..][m - 1];
      assert a + m < |t| ==> t[a + m] == t[a..][m];
    }
  }

  // ---------------------------------------------------------------------
  // The candidate scan with its `seen` set
  // ---------------------------------------------------------------------

  /** The number a candidate offers: its normalised text has at least
      `MinCandidateLength` characters and starts with a section number. */
  function OfferedNumber(e: Element): (r: Option<string>)
    ensures r.Some? ==> IsSectionNumber(r.value)
    ensures var t := NormalizeText(e.text);
            r.Some? <==> |t| >= MinCandidateLength && HasHeadNumber(t)
  {
    var t := NormalizeText(e.text);
    if |t| < MinCandidateLength then None else LeadingSectionNumber(t)
  }

  /** The body a candidate with number `num` gives: its normalised text
      without the leading number (and the white space after it), stripped.
      The number is removed only where it stands at the head of the text
      at a word boundary, and there it is always removed. */
  function DomBody(e: Element, num: string): (b: string)
    ensures var t := NormalizeText(e.text);
            exists cut: nat :: cut <= |t| && b == Strip(t[cut..])
              && (cut > 0 ==> DomToken(t, num, cut))
              && (LeadsWithDigit(num) && HasDomToken(t, num) ==> cut > 0)
  {
    var t := NormalizeText(e.text);
    var r := DropDomToken(t, num);
    DropDomTokenMatches(t, num);
    var cut := |t| - |r|;
    assert r == t[cut..];
    Strip(r)
  }

  /** What a candidate offers the scan: its section number and its body. */
  datatype Offer = Offer(num: string, body: string)

  /** The offer of a candidate: `None` when its normalised text is too
      short or does not start with a section number. */
  function OfferOf(e: Element): (o: Option<Offer>)
    ensures o.Some? ==> IsSectionNumber(o.value.num)
    ensures o.Some? <==> OfferedNumber(e).Some?
  {
    match OfferedNumber(e)
    case None => None
    case Some(num) => Some(Offer(num, DomBody(e, num)))
  }

  /** The offers of all elements of `xs`, in order. */
  function OffersOf<E>(xs: seq<E>, offer: E -> Option<Offer>): (os: seq<Option<Offer>>)
    ensures |os| == |xs|
    ensures forall i :: 0 <= i < |xs| ==> os[i] == offer(xs[i])
  {
    seq(|xs|, i requires 0 <= i < |xs| => offer(xs[i]))
  }

  /** Some offer before index `n` has number `num`. */
  ghost predicate SeenBefore(os: seq<Option<Offer>>, n: nat, num: string)
    requires n <= |os|
  {
    exists j :: 0 <= j < n && os[j].Some? && os[j].value.num == num
  }

  /** Offer `i` is the first with its number: the only one of that number
      that is ever considered. */
  ghost predicate FirstOfNumber(os: seq<Option<Offer>>, i: nat)
    requires i < |os|
  {
    os[i].Some? && !SeenBefore(os, i, os[i].value.num)
  }

  /** The row an offer gives when it is considered and its body is long
      enough. */
  function OfferRow(law: Law, o: Offer): (r: Row)
    ensures |o.body| >= MinBodyLength ==> WellFormed(r, law, "s.")
    ensures r.citation == Citation("s.", o.num, law.codeId) && r.text == o.body
  {
    ProvisionRow(law, "s.", o.num, o.body)
  }

  /** The state of the scan: the `seen` keys and the rows so far. */
  datatype Scan = Scan(seen: set<(string, string, string)>, rows: seq<Row>)

  /** The scan considering one more offer. A number enters `seen` before
      the length check on its body, so a later candidate with the same
      number is skipped even when the first one gave no row. */
  function Consider(st: Scan, law: Law, offer: Option<Offer>): (st': Scan)
    ensures forall r :: r in st'.rows ==> r in st.rows || WellFormed(r, law, "s.")
  {
    match offer
    case None => st
    case Some(o) =>
      var key := (law.codeId, law.jurisdiction, o.num);
      if key in st.seen then st
      else if |o.body| < MinBodyLength then Scan(st.seen + {key}, st.rows)
      else Scan(st.seen + {key}, st.rows + [OfferRow(law, o)])
  }

  /** The scan over the first `n` offers. */
  function ScanUpTo(os: seq<Option<Offer>>, law: Law, n: nat): (st: Scan)
    requires n <= |os|
    ensures forall r :: r in st.rows ==> WellFormed(r, law, "s.")
  {
    if n == 0 then Scan({}, []) else Consider(ScanUpTo(os, law, n - 1), law, os[n - 1])
  }

  /** The scan over the first `n` elements of `xs`, reading each one's
      offer with `offer`. */
  function ScanWith<E>(xs: seq<E>, offer: E -> Option<Offer>, law: Law, n: nat): Scan
    requires n <= |xs|
  {
    if n == 0 then Scan({}, []) else Consider(ScanWith(xs, offer, law, n - 1), law, offer(xs[n - 1]))
  }

  /** Scanning the elements is scanning their offers. */
  lemma {:induction false} ScanWithOffers<E>(xs: seq<E>, offer: E -> Option<Offer>, law: Law, n: nat)
    requires n <= |xs|
    ensures ScanWith(xs, offer, law, n) == ScanUpTo(OffersOf(xs, offer), law, n)
  {
    if n > 0 {
      ScanWithOffers(xs, offer, law, n - 1);
    }
  }

  /** The rows of the DOM strategy over candidates `cands`. */
  function DomRowsOf(cands: seq<Element>, law: Law): seq<Row> {
    ScanWith(cands, OfferOf, law, |cands|).rows
  }

  /** After `n` offers, `seen` holds exactly the keys of the numbers
      offered so far, under the law's code and jurisdiction. */
  lemma {:induction false} ScanSeen(os: seq<Option<Offer>>, law: Law, n: nat)
    requires n <= |os|
    ensures forall key: (string, string, string) :: key in ScanUpTo(os, law, n).seen <==>
              key.0 == law.codeId && key.1 == law.jurisdiction && SeenBefore(os, n, key.2)
  {
    if n > 0 {
      ScanSeen(os, law, n - 1);
      var st := ScanUpTo(os, law, n - 1);
      forall key: (string, string, string) | key.0 == law.codeId && key.1 == law.jurisdiction && SeenBefore(os, n, key.2)
        ensures key in ScanUpTo(os, law, n).seen
      {
        var j :| 0 <= j < n && os[j].Some? && os[j].value.num == key.2;
        if j < n - 1 {
          assert SeenBefore(os, n - 1, key.2);
        }
      }
      forall key | key in ScanUpTo(os, law, n).seen
        ensures SeenBefore(os, n, key.2)
      {
        if key in st.seen {
          var j :| 0 <= j < n - 1 && os[j].Some? && os[j].value.num == key.2;
        }
      }
    }
  }

  /** One step of the scan: an offer changes the state exactly when it is
      the first of its number; it then adds its key, and its row when the
      body is long enough. */
  lemma ScanStep(os: seq<Option<Offer>>, law: Law, n: nat)
    requires n < |os|
    ensures var st, st' := ScanUpTo(os, law, n), ScanUpTo(os, law, n + 1);
            if FirstOfNumber(os, n) then
              var o := os[n].value;
              && (law.codeId, law.jurisdiction, o.num) !in st.seen
              && st'.seen == st.seen + {(law.codeId, law.jurisdiction, o.num)}
              && st'.rows == st.rows + (if |o.body| < MinBodyLength then [] else [OfferRow(law, o)])
            else st' == st
  {
    ScanSeen(os, law, n);
  }

  /** Every row of the scan is the row of an offer that is the first of its
      number and whose body is long enough. */
  lemma {:induction false} ScanRowsSound(os: seq<Option<Offer>>, law: Law, n: nat)
    requires n <= |os|
    ensures forall r :: r in ScanUpTo(os, law, n).rows ==>
              exists i :: 0 <= i < n && FirstOfNumber(os, i) && |os[i].value.body| >= MinBodyLength
                          && r == OfferRow(law, os[i].value)
  {
    if n > 0 {
      ScanRowsSound(os, law, n - 1);
      ScanStep(os, law, n - 1);
    }
  }

  /** Every offer that is the first of its number and whose body is long
      enough gives its row. */
  lemma {:induction false} ScanRowsComplete(os: seq<Option<Offer>>, law: Law, n: nat)
    requires n <= |os|
    ensures forall i :: 0 <= i < n && FirstOfNumber(os, i) && |os[i].value.body| >= MinBodyLength
                        ==> OfferRow(law, os[i].value) in ScanUpTo(os, law, n).rows
  {
    if n > 0 {
      ScanRowsComplete(os, law, n - 1);
      ScanStep(os, law, n - 1);
    }
  }

  /** Every row's citation carries a number whose key is in `seen`. */
  lemma {:induction false} ScanCitationsSeen(os: seq<Option<Offer>>, law: Law, n: nat)
    requires n <= |os|
    ensures forall r :: r in ScanUpTo(os, law, n).rows ==>
              exists num :: r.citation == Citation("s.", num, law.codeId)
                            && (law.codeId, law.jurisdiction, num) in ScanUpTo(os, law, n).seen
  {
    if n > 0 {
      ScanCitationsSeen(os, law, n - 1);
      ScanStep(os, law, n - 1);
    }
  }

  /** No two rows of the scan share a citation. */
  lemma {:induction false} ScanCitationsDistinct(os: seq<Option<Offer>>, law: Law, n: nat)
    requires n <= |os|
    ensures var rows := ScanUpTo(os, law, n).rows;
            forall i, j :: 0 <= i < j < |rows| ==> rows[i].citation != rows[j].citation
  {
    if n > 0 {
      ScanCitationsDistinct(os, law, n - 1);
      ScanCitationsSeen(os, law, n - 1);
      ScanStep(os, law, n - 1);
      var st, st' := ScanUpTo(os, law, n - 1), ScanUpTo(os, law, n);
      if FirstOfNumber(os, n - 1) && |os[n - 1].value.body| >= MinBodyLength {
        var o := os[n - 1].value;
        var r := OfferRow(law, o);
        assert st'.rows == st.rows + [r];
        forall i | 0 <= i < |st.rows| ensures st.rows[i].citation != r.citation {
          var prev := st.rows[i];
          assert prev in st.rows;
          var num :| prev.citation == Citation("s.", num, law.codeId)
                     && (law.codeId, law.jurisdiction, num) in st.seen;
          if prev.citation == r.citation {
            CitationInjective("s.", num, o.num, law.codeId);
          }
        }
      }
    }
  }

  /** What the DOM strategy yields: well-formed rows with distinct
      citations; each the row of the first candidate offering its number,
      whose body is long enough; and every such candidate's row. */
  lemma DomRowsSpec(cands: seq<Element>, law: Law)
    ensures var os, rows := OffersOf(cands, OfferOf), DomRowsOf(cands, law);
            && (forall r :: r in rows ==> WellFormed(r, law, "s."))
            && (forall i, j :: 0 <= i < j < |rows| ==> rows[i].citation != rows[j].citation)
            && (forall r :: r in rows ==>
                  exists i :: 0 <= i < |os| && FirstOfNumber(os, i) && |os[i].value.body| >= MinBodyLength
                              && r == OfferRow(law, os[i].value))
            && (forall i :: 0 <= i < |os| && FirstOfNumber(os, i) && |os[i].value.body| >= MinBodyLength ==>
                  OfferRow(law, os[i].value) in rows)
  {
    var os := OffersOf(cands, OfferOf);
    ScanWithOffers(cands, OfferOf, law, |cands|);
    ScanCitationsDistinct(os, law, |os|);
    ScanRowsSound(os, law, |os|);
    ScanRowsComplete(os, law, |os|);
  }

  /** The first loop of the DOM strategy: collect the section-looking
      elements of `<main>`. */
  method CollectCandidates(elements: seq<Element>) returns (cands: seq<Element>)
    ensures cands == Candidates(elements)
  {
    cands := [];
    for i := 0 to |elements|
      invariant cands == Candidates(elements[..i])
    {
      assert elements[..i + 1][..i] == elements[..i];
      if IsSectionCandidate(elements[i]) {
        cands := cands + [elements[i]];
      }
    }
    assert elements[..|elements|] == elements;
  }

  /** The body of the second loop for one candidate: skip it when its text
      is too short, has no leading number or repeats a seen number; else
      mark its number seen and keep its row when the body is long enough. */
  method ConsiderCandidate(e: Element, law: Law, seen: set<(string, string, string)>, rows: seq<Row>)
      returns (seen': set<(string, string, string)>, rows': seq<Row>)
    ensures Scan(seen', rows') == Consider(Scan(seen, rows), law, OfferOf(e))
  {
    seen', rows' := seen, rows;
    var t := NormalizeText(e.text);
    if |t| < MinCandidateLength {
      return;
    }
    var m := LeadingSectionNumber(t);
    if m.None? {
      return;
    }
    var num := m.value;
    var key := (law.codeId, law.jurisdiction, num);
    if key in seen {
      return;
    }
    seen' := seen + {key};
    var body := Strip(DropDomToken(t, num));
    assert OfferOf(e) == Some(Offer(num, body));
    if |body| < MinBodyLength {
      return;
    }
    rows' := rows + [ProvisionRow(law, "s.", num, body)];
  }

  /** The second loop of the DOM strategy: one row per first candidate of
      each section number whose body has at least `MinBodyLength`
      characters. */
  method DomRows(cands: seq<Element>, law: Law) returns (rows: seq<Row>)
    ensures rows == DomRowsOf(cands, law)
  {
    var seen: set<(string, string, string)> := {};
    rows := [];
    for i := 0 to |cands|
      invariant Scan(seen, rows) == ScanWith(cands, OfferOf, law, i)
    {
      seen, rows := ConsiderCandidate(cands[i], law, seen, rows);
    }
  }
}
