/** `normalize_course_key`: a course name or key from the mapping file
    rewritten into a slug, step by step as the script does it. */
module CourseKeys {
  import opened Strings

  /** ASCII capitals (what `lower()` leaves no trace of). */
  predicate IsUpper(c: char) {
    'A' <= c <= 'Z'
  }

  /** The characters a slug is made of: `\w` or `-`. */
  predicate IsSlugChar(c: char) {
    IsWordChar(c) || c == '-'
  }

  /** The characters `[_/|]+` runs are made of. */
  predicate IsSlashLike(c: char) {
    c == '_' || c == '/' || c == '|'
  }

  predicate IsHyphen(c: char) {
    c == '-'
  }

  /** ASCII letters and digits: the characters every step after the
      folding leaves where they are. */
  predicate IsAlnum(c: char) {
    IsAsciiLetter(c) || IsDigit(c)
  }

  predicate NotAlnum(c: char) {
    !IsAlnum(c)
  }

  /** The letters and digits of `s`, in order. */
  function Alnums(s: string): string {
    Remove(s, NotAlnum)
  }

  /** No two neighbouring characters of `s` are both in the class `p`. */
  ghost predicate NoTwoInRow(s: string, p: char -> bool) {
    forall i, j :: 0 <= i && j == i + 1 && j < |s| ==> !(p(s[i]) && p(s[j]))
  }

  /** Having no two hyphens in a row is not containing `--`. */
  lemma NoTwoHyphensInRow(s: string)
    ensures NoTwoInRow(s, IsHyphen) <==> !Contains(s, "--")
  {
    ContainsAt(s, "--");
    if !NoTwoInRow(s, IsHyphen) {
      var i, j :| 0 <= i && j == i + 1 && j < |s| && IsHyphen(s[i]) && IsHyphen(s[j]);
      assert OccursAt(s, "--", i);
    }
    if Contains(s, "--") {
      var i: nat :| OccursAt(s, "--", i);
      assert s[i] == '-' && s[i + 1] == '-';
    }
  }

  /** No slug character is white space. */
  lemma SlugCharNotSpace(c: char)
    requires IsSlugChar(c)
    ensures !IsSpace(c)
  {
  }

  // ---------------------------------------------------------------------
  // The rewriting steps
  // ---------------------------------------------------------------------

  /** Lower-casing and removing accents, character by character: `fold(c)`
      is what `c.lower()` becomes once decomposed (NFD) and stripped of its
      nonspacing marks. */
  function FoldChars(s: string, fold: char -> string): (r: string)
    ensures forall d :: d in r ==> exists c :: c in s && d in fold(c)
    ensures (forall c :: c in s ==> fold(c) == [c]) ==> r == s
  {
    if s == [] then []
    else
      assert s == [s[0]] + s[1..];
      fold(s[0]) + FoldChars(s[1..], fold)
  }

  /** Folding a concatenation folds each part: together with the
      one-character case, each character is replaced by its fold in
      place. */
  lemma FoldCharsAppend(x: string, y: string, fold: char -> string)
    ensures |x| == 1 ==> FoldChars(x, fold) == fold(x[0])
    ensures FoldChars(x + y, fold) == FoldChars(x, fold) + FoldChars(y, fold)
  {
    if |x| == 1 {
      FoldCharsSingle(x, fold);
    }
    FoldCharsConcat(x, y, fold);
  }

  lemma FoldCharsSingle(x: string, fold: char -> string)
    requires |x| == 1
    ensures FoldChars(x, fold) == fold(x[0])
  {
    assert x[1..] == [];
    assert FoldChars(x, fold) == fold(x[0]) + FoldChars(x[1..], fold);
  }

  lemma {:induction false} FoldCharsConcat(x: string, y: string, fold: char -> string)
    ensures FoldChars(x + y, fold) == FoldChars(x, fold) + FoldChars(y, fold)
    decreases |x|
  {
    if x == [] {
      assert x + y == y;
    } else {
      var w := x + y;
      assert w[0] == x[0] && w[1..] == x[1..] + y;
      FoldCharsConcat(x[1..], y, fold);
      calc {
        FoldChars(w, fold);
        fold(w[0]) + FoldChars(w[1..], fold);
        fold(x[0]) + FoldChars(x[1..] + y, fold);
        fold(x[0]) + (FoldChars(x[1..], fold) + FoldChars(y, fold));
        (fold(x[0]) + FoldChars(x[1..], fold)) + FoldChars(y, fold);
        FoldChars(x, fold) + FoldChars(y, fold);
      }
    }
  }

  /** `s.replace("\n", " ").replace("\r", " ").replace("\t", " ")`. */
  function ControlsToSpace(s: string): (r: string)
    ensures |r| == |s|
    ensures forall i :: 0 <= i < |s| ==> r[i] == (if s[i] == '\n' || s[i] == '\r' || s[i] == '\t' then ' ' else s[i])
  {
    ReplaceChar(ReplaceChar(ReplaceChar(s, '\n', ' '), '\r', ' '), '\t', ' ')
  }

  /** `re.sub(P + "+", rep, s)` for a one-character class `P`: every maximal
      run of characters in `P` becomes one `rep`. No two neighbours of the
      result are both in `P`; what is not `rep` comes from `s` and is not
      in `P`. */
  function CollapseRuns(s: string, p: char -> bool, rep: char): (r: string)
    ensures forall c :: c in r ==> c == rep || (c in s && !p(c))
    ensures r != [] <==> s != []
    ensures s != [] ==> r[0] == (if p(s[0]) then rep else s[0])
    ensures NoTwoInRow(r, p)
    decreases |s|
  {
    if s == [] then []
    else if p(s[0]) then
      var n := RunLength(s, 0, p);
      [rep] + CollapseRuns(s[n..], p, rep)
    else
      [s[0]] + CollapseRuns(s[1..], p, rep)
  }

  /** The run collapse keeps, in order, every character outside a class
      `q` that holds the collapsed class and `rep`. */
  lemma {:induction false} CollapseRunsKeepsOthers(s: string, p: char -> bool, rep: char, q: char -> bool)
    requires forall c :: p(c) ==> q(c)
    requires q(rep)
    ensures Remove(CollapseRuns(s, p, rep), q) == Remove(s, q)
    decreases |s|
  {
    if s != [] {
      var r := CollapseRuns(s, p, rep);
      if p(s[0]) {
        var n := RunLength(s, 0, p);
        CollapseRunsKeepsOthers(s[n..], p, rep, q);
        assert r[0] == rep && r[1..] == CollapseRuns(s[n..], p, rep);
        assert s[0..] == s;
        RemoveSkipsRun(s, 0, n, q);
      } else {
        CollapseRunsKeepsOthers(s[1..], p, rep, q);
        assert r[0] == s[0] && r[1..] == CollapseRuns(s[1..], p, rep);
      }
    }
  }

  /** `re.sub(r"\s*-\s*", "-", s)`: a hyphen swallows the white space
      right before and right after it. */
  function TightenHyphens(s: string): (r: string)
    ensures forall c :: c in r ==> c in s
    decreases |s|
  {
    if s == [] then []
    else
      var n := RunLength(s, 0, IsSpace);
      if n < |s| && s[n] == '-' then
        var m := RunLength(s, n + 1, IsSpace);
        "-" + TightenHyphens(s[n + 1 + m..])
      else
        [s[0]] + TightenHyphens(s[1..])
  }

  /** The hyphen tightening removes white space and nothing else: the
      other characters stay, in order. */
  lemma {:induction false} TightenHyphensKeepsOthers(s: string)
    ensures Remove(TightenHyphens(s), IsSpace) == Remove(s, IsSpace)
    decreases |s|
  {
    if s != [] {
      var r := TightenHyphens(s);
      var n := RunLength(s, 0, IsSpace);
      if n < |s| && s[n] == '-' {
        var m := RunLength(s, n + 1, IsSpace);
        TightenHyphensKeepsOthers(s[n + 1 + m..]);
        assert r[0] == '-' && r[1..] == TightenHyphens(s[n + 1 + m..]);
        RemoveSpacedHyphen(s, n, m);
      } else {
        TightenHyphensKeepsOthers(s[1..]);
        assert r[0] == s[0] && r[1..] == TightenHyphens(s[1..]);
      }
    }
  }

  /** No white space is left next to a hyphen. */
  lemma {:induction false} TightenHyphensTight(s: string)
    ensures NoSpaceBesideHyphen(TightenHyphens(s))
    decreases |s|
  {
    if s != [] {
      var r := TightenHyphens(s);
      var n := RunLength(s, 0, IsSpace);
      if n < |s| && s[n] == '-' {
        var m := RunLength(s, n + 1, IsSpace);
        TightenHyphensTight(s[n + 1 + m..]);
        assert r[0] == '-' && r[1..] == TightenHyphens(s[n + 1 + m..]);
        AfterHyphenRun(s, n, m);
        ConsTight(r);
      } else {
        TightenHyphensTight(s[1..]);
        TightOtherCase(s);
      }
    }
  }

  /** What follows a hyphen and its white space starts with no white
      space. */
  lemma AfterHyphenRun(s: string, n: nat, m: nat)
    requires n < |s| && m == RunLength(s, n + 1, IsSpace)
    ensures var t := s[n + 1 + m..]; t != [] ==> !IsSpace(TightenHyphens(t)[0])
  {
    var t := s[n + 1 + m..];
    if t != [] {
      assert t[0] == s[n + 1 + m];
      TightenHead(t);
    }
  }

  /** The other branch of `TightenHyphens` keeps `NoSpaceBesideHyphen`. */
  lemma TightOtherCase(s: string)
    requires s != [] && !LeadsToHyphen(s)
    requires NoSpaceBesideHyphen(TightenHyphens(s[1..]))
    ensures NoSpaceBesideHyphen(TightenHyphens(s))
  {
    var t := s[1..];
    var r := TightenHyphens(s);
    assert r[0] == s[0] && r[1..] == TightenHyphens(t);
    if IsSpace(s[0]) && t != [] {
      TightenHead(t);
      SpaceRunShift(s);
      assert t[0] == s[1];
    }
    ConsTight(r);
  }

  /** A hyphen is never followed by white space, and white space never by
      a hyphen. */
  predicate NoSpaceBesideHyphen(r: string) {
    forall i :: 0 <= i < |r| - 1 ==>
      && (r[i] == '-' ==> !IsSpace(r[i + 1]))
      && (IsSpace(r[i]) ==> r[i + 1] != '-')
  }

  /** A first character that is not white space next to a hyphen keeps
      `NoSpaceBesideHyphen` of the rest. */
  lemma ConsTight(w: string)
    requires w != [] && NoSpaceBesideHyphen(w[1..])
    requires |w| > 1 ==> (w[0] == '-' ==> !IsSpace(w[1])) && (IsSpace(w[0]) ==> w[1] != '-')
    ensures NoSpaceBesideHyphen(w)
  {
    var r := w[1..];
    forall i | 0 <= i < |w| - 1
      ensures (w[i] == '-' ==> !IsSpace(w[i + 1])) && (IsSpace(w[i]) ==> w[i + 1] != '-')
    {
      if i > 0 {
        assert w[i] == r[i - 1] && w[i + 1] == r[i];
      }
    }
  }

  /** White space up to a hyphen at the head of `s`. */
  predicate LeadsToHyphen(s: string) {
    var n := RunLength(s, 0, IsSpace);
    n < |s| && s[n] == '-'
  }

  /** The first character of the tightened string: the hyphen the leading
      white space runs into, else the first character. */
  lemma TightenHead(t: string)
    requires t != []
    ensures TightenHyphens(t) != []
    ensures TightenHyphens(t)[0] == if LeadsToHyphen(t) then '-' else t[0]
  {
  }

  /** Leading white space does not change where the run of it ends. */
  lemma SpaceRunShift(s: string)
    requires s != [] && IsSpace(s[0])
    ensures LeadsToHyphen(s[1..]) ==> LeadsToHyphen(s)
  {
    var t := s[1..];
    var k := RunLength(t, 0, IsSpace);
    if LeadsToHyphen(t) {
      assert forall j :: 1 <= j < 1 + k ==> IsSpace(s[j]) by {
        forall j | 1 <= j < 1 + k ensures IsSpace(s[j]) {
          assert s[j] == t[j - 1];
        }
      }
      assert s[1 + k] == t[k] == '-';
      RunLengthIs(s, 0, 1 + k, IsSpace);
    }
  }

  /** A hyphen with white space before and after it keeps only the hyphen. */
  lemma RemoveSpacedHyphen(s: string, n: nat, m: nat)
    requires n + 1 + m <= |s| && s[n] == '-'
    requires AllIn(s, 0, n, IsSpace) && AllIn(s, n + 1, n + 1 + m, IsSpace)
    ensures Remove(s, IsSpace) == "-" + Remove(s[n + 1 + m..], IsSpace)
  {
    var t := s[n..];
    assert t[0] == '-' && t[1..] == s[n + 1..];
    assert Remove(t, IsSpace) == "-" + Remove(s[n + 1..], IsSpace);
    assert s[0..] == s;
    RemoveSkipsRun(s, 0, n, IsSpace);
    RemoveSkipsRun(s, n + 1, m, IsSpace);
  }

  /** `re.sub(r"[^\w-]", "-", s)`: every other character becomes `-`. */
  function PunctuationToHyphen(s: string): (r: string)
    ensures |r| == |s|
    ensures forall i :: 0 <= i < |s| ==> r[i] == (if IsSlugChar(s[i]) then s[i] else '-')
  {
    seq(|s|, i requires 0 <= i < |s| => if IsSlugChar(s[i]) then s[i] else '-')
  }

  /** Steps 3 and 4: control characters become spaces, runs of white space
      one space, and the ends are stripped. */
  function CleanSpaces(a: string): (b: string)
    ensures forall x :: x in b ==> x == ' ' || x in a
    ensures forall x :: x in b && IsSpace(x) ==> x == ' '
    ensures NoTwoInRow(b, IsSpace)
    ensures b == [] || (!IsSpace(b[0]) && !IsSpace(b[|b| - 1]))
  {
    var spaced := ControlsToSpace(a);
    var collapsed := CollapseRuns(spaced, IsSpace, ' ');
    var b := Strip(collapsed);
    assert forall x :: x in spaced ==> x == ' ' || x in a;
    SliceKeepsNeighbours(collapsed, b, RunLength(collapsed, 0, IsSpace), IsSpace);
    b
  }

  /** The space cleaning removes and rewrites white space only: the other
      characters stay, in order. */
  lemma CleanSpacesKeepsOthers(a: string)
    ensures Remove(CleanSpaces(a), IsSpace) == Remove(a, IsSpace)
  {
    var spaced := ControlsToSpace(a);
    var collapsed := CollapseRuns(spaced, IsSpace, ' ');
    RemoveAgree(spaced, a, IsSpace);
    CollapseRunsKeepsOthers(spaced, IsSpace, ' ', IsSpace);
    RemoveTrim(collapsed, IsSpace);
  }

  /** Steps 5 to 7: hyphens swallow their surrounding spaces, runs of `_`,
      `/` and `|` become one hyphen, and any other character that is not a
      word character becomes a hyphen. */
  function Hyphenate(b: string): (e: string)
    ensures forall x :: x in e ==> x == '-' || (x in b && IsSlugChar(x) && !IsSlashLike(x))
  {
    var c := TightenHyphens(b);
    var d := CollapseRuns(c, IsSlashLike, '-');
    PunctuationToHyphen(d)
  }

  /** The hyphenation keeps the letters and digits, in order: it only
      removes white space and turns other characters into hyphens. */
  lemma HyphenateKeepsAlnums(b: string)
    ensures Alnums(Hyphenate(b)) == Alnums(b)
  {
    var c := TightenHyphens(b);
    var d := CollapseRuns(c, IsSlashLike, '-');
    var e := PunctuationToHyphen(d);
    TightenHyphensKeepsOthers(b);
    RemoveCoarser(c, IsSpace, NotAlnum);
    RemoveCoarser(b, IsSpace, NotAlnum);
    CollapseRunsKeepsOthers(c, IsSlashLike, '-', NotAlnum);
    RemoveAgree(e, d, NotAlnum);
  }

  /** Step 8: runs of hyphens become one and the hyphens at both ends go. */
  function TrimHyphens(e: string): (r: string)
    ensures forall x :: x in r ==> x == '-' || x in e
    ensures NoTwoInRow(r, IsHyphen)
    ensures r == [] || (r[0] != '-' && r[|r| - 1] != '-')
  {
    var f := CollapseRuns(e, IsHyphen, '-');
    var r := Trim(f, IsHyphen);
    SliceKeepsNeighbours(f, r, RunLength(f, 0, IsHyphen), IsHyphen);
    assert forall x :: x in r ==> x in f;
    r
  }

  /** The hyphen trimming removes hyphens only: the other characters stay,
      in order. */
  lemma TrimHyphensKeepsOthers(e: string)
    ensures Remove(TrimHyphens(e), IsHyphen) == Remove(e, IsHyphen)
  {
    var f := CollapseRuns(e, IsHyphen, '-');
    CollapseRunsKeepsOthers(e, IsHyphen, '-', IsHyphen);
    RemoveTrim(f, IsHyphen);
  }

  /** `normalize_course_key`, with `fold` the lower-casing and accent
      removal of one character. The result is empty for an empty key; it
      is made of word characters (the underscore excepted) and hyphens, has
      no two hyphens in a row and neither starts nor ends with one. */
  function NormalizeCourseKey(s: string, fold: char -> string): (r: string)
    ensures s == [] ==> r == []
    ensures forall c :: c in r ==> IsSlugChar(c) && !IsSlashLike(c)
    ensures !Contains(r, "--")
    ensures r == [] || (r[0] != '-' && r[|r| - 1] != '-')
    ensures forall c :: c in r ==> c == '-' || c in FoldChars(Strip(s), fold)
  {
    if s == [] then []
    else
      var a := FoldChars(Strip(s), fold);
      var b := CleanSpaces(a);
      var e := Hyphenate(b);
      var r := TrimHyphens(e);
      SlugChars(a, b, e, r);
      NoTwoHyphensInRow(r);
      r
  }

  /** The key keeps every letter and digit of the folded, stripped input,
      in order: the steps only remove or rewrite the other characters. */
  lemma NormalizeCourseKeyKeepsAlnums(s: string, fold: char -> string)
    ensures Alnums(NormalizeCourseKey(s, fold)) == Alnums(FoldChars(Strip(s), fold))
  {
    if s != [] {
      StepsKeepAlnums(FoldChars(Strip(s), fold));
    }
  }

  /** Steps 3 to 8 keep the letters and digits, in order. */
  lemma StepsKeepAlnums(a: string)
    ensures Alnums(TrimHyphens(Hyphenate(CleanSpaces(a)))) == Alnums(a)
  {
    var b := CleanSpaces(a);
    HyphenStepsKeepAlnums(b);
    CleanSpacesKeepsAlnums(a);
  }

  lemma CleanSpacesKeepsAlnums(a: string)
    ensures Alnums(CleanSpaces(a)) == Alnums(a)
  {
    var b := CleanSpaces(a);
    calc {
      Alnums(b);
      { RemoveCoarser(b, IsSpace, NotAlnum); }
      Remove(Remove(b, IsSpace), NotAlnum);
      { CleanSpacesKeepsOthers(a); }
      Remove(Remove(a, IsSpace), NotAlnum);
      { RemoveCoarser(a, IsSpace, NotAlnum); }
      Alnums(a);
    }
  }

  lemma HyphenStepsKeepAlnums(b: string)
    ensures Alnums(TrimHyphens(Hyphenate(b))) == Alnums(b)
  {
    var e := Hyphenate(b);
    var r := TrimHyphens(e);
    calc {
      Alnums(r);
      { RemoveCoarser(r, IsHyphen, NotAlnum); }
      Remove(Remove(r, IsHyphen), NotAlnum);
      { TrimHyphensKeepsOthers(e); }
      Remove(Remove(e, IsHyphen), NotAlnum);
      { RemoveCoarser(e, IsHyphen, NotAlnum); }
      Alnums(e);
      { HyphenateKeepsAlnums(b); }
      Alnums(b);
    }
  }

  /** What steps 3 to 8 say of their characters, chained: what is left
      is slug characters, and those that are not hyphens come from `a`. */
  lemma SlugChars(a: string, b: string, e: string, r: string)
    requires forall x :: x in b ==> x == ' ' || x in a
    requires forall x :: x in e ==> x == '-' || (x in b && IsSlugChar(x) && !IsSlashLike(x))
    requires forall x :: x in r ==> x == '-' || x in e
    ensures forall c :: c in r ==> IsSlugChar(c) && !IsSlashLike(c) && (c == '-' || c in a)
  {
  }

  /** A slice of a string without two neighbours in `p` has none either. */
  lemma SliceKeepsNeighbours(f: string, r: string, lo: nat, p: char -> bool)
    requires lo + |r| <= |f| && r == f[lo..lo + |r|]
    requires NoTwoInRow(f, p)
    ensures NoTwoInRow(r, p)
  {
    forall i, j | 0 <= i && j == i + 1 && j < |r|
      ensures !(p(r[i]) && p(r[j]))
    {
      assert r[i] == f[lo + i] && r[j] == f[lo + j];
    }
  }

  // ---------------------------------------------------------------------
  // A slug is its own key
  // ---------------------------------------------------------------------

  /** The run collapse changes nothing in a string where every character
      of the class is `rep` and no two of them are neighbours. */
  lemma {:induction false} CollapseRunsKeeps(s: string, p: char -> bool, rep: char)
    requires forall c :: c in s && p(c) ==> c == rep
    requires NoTwoInRow(s, p)
    ensures CollapseRuns(s, p, rep) == s
    decreases |s|
  {
    if s != [] {
      var t := s[1..];
      NoTwoAtHead(s, p);
      assert s[0] in s;
      CollapseRunsHead(s, p, rep);
      assert forall c :: c in t ==> c in s;
      SliceKeepsNeighbours(s, t, 1, p);
      CollapseRunsKeeps(t, p, rep);
      assert s == [s[0]] + t;
    }
  }

  /** The first two characters are not both in the class. */
  lemma NoTwoAtHead(s: string, p: char -> bool)
    requires NoTwoInRow(s, p)
    ensures |s| > 1 ==> !(p(s[0]) && p(s[1]))
  {
    if |s| > 1 {
      assert !(p(s[0]) && p(s[1]));
    }
  }

  /** A first character outside the class, or a lone `rep`, stays first. */
  lemma CollapseRunsHead(s: string, p: char -> bool, rep: char)
    requires s != []
    requires p(s[0]) ==> s[0] == rep && (|s| == 1 || !p(s[1]))
    ensures CollapseRuns(s, p, rep) == [s[0]] + CollapseRuns(s[1..], p, rep)
  {
    var r := CollapseRuns(s, p, rep);
    if p(s[0]) {
      assert RunLength(s, 0, p) == 1;
    }
    assert r[0] == s[0] && r[1..] == CollapseRuns(s[1..], p, rep);
  }

  /** A hyphen tightening changes nothing in a string without white
      space. */
  lemma {:induction false} TightenHyphensKeeps(s: string)
    requires forall c :: c in s ==> !IsSpace(c)
    ensures TightenHyphens(s) == s
    decreases |s|
  {
    if s != [] {
      assert RunLength(s, 0, IsSpace) == 0;
      if s[0] == '-' {
        assert RunLength(s, 1, IsSpace) == 0 by {
          if |s| > 1 {
            assert s[1] in s;
          }
        }
      }
      TightenHyphensKeeps(s[1..]);
      assert s == [s[0]] + s[1..];
    }
  }

  /** The space cleaning changes nothing in a string without white
      space. */
  lemma CleanSpacesKeeps(t: string)
    requires forall x :: x in t ==> !IsSpace(x)
    ensures CleanSpaces(t) == t
  {
    assert forall i :: 0 <= i < |t| ==> t[i] in t;
    assert ControlsToSpace(t) == t;
    CollapseRunsKeeps(t, IsSpace, ' ');
    TrimKeepsTrimmed(t, IsSpace);
  }

  /** The hyphenation changes nothing in a string of slug characters
      without `_`. */
  lemma HyphenateKeeps(t: string)
    requires forall x :: x in t ==> IsSlugChar(x) && !IsSlashLike(x)
    ensures Hyphenate(t) == t
  {
    forall x | x in t
      ensures !IsSpace(x)
    {
      SlugCharNotSpace(x);
    }
    TightenHyphensKeeps(t);
    CollapseRunsKeeps(t, IsSlashLike, '-');
    assert PunctuationToHyphen(t) == t;
  }

  /** The hyphen trimming changes nothing in a string without two hyphens
      in a row or a hyphen at either end. */
  lemma TrimHyphensKeeps(t: string)
    requires !Contains(t, "--")
    requires t == [] || (t[0] != '-' && t[|t| - 1] != '-')
    ensures TrimHyphens(t) == t
  {
    NoTwoHyphensInRow(t);
    CollapseRunsKeeps(t, IsHyphen, '-');
    TrimKeepsTrimmed(t, IsHyphen);
  }

  /** A slug — slug characters other than `_` and capitals, no two hyphens
      in a row, no hyphen at either end — is its own key, as long as `fold`
      leaves such characters alone. */
  lemma SlugIsFixed(t: string, fold: char -> string)
    requires forall c :: IsSlugChar(c) && !IsUpper(c) ==> fold(c) == [c]
    requires forall c :: c in t ==> IsSlugChar(c) && !IsSlashLike(c) && !IsUpper(c)
    requires !Contains(t, "--")
    requires t == [] || (t[0] != '-' && t[|t| - 1] != '-')
    ensures NormalizeCourseKey(t, fold) == t
  {
    if t != [] {
      forall x | x in t
        ensures !IsSpace(x)
      {
        SlugCharNotSpace(x);
      }
      TrimKeepsTrimmed(t, IsSpace);
      assert FoldChars(t, fold) == t;
      CleanSpacesKeeps(t);
      HyphenateKeeps(t);
      TrimHyphensKeeps(t);
    }
  }

  /** A key is a fixed point of `normalize_course_key`, as long as `fold`
      never yields a capital and leaves the slug characters that are not
      capitals alone (both hold of lower-casing and accent removal). */
  lemma NormalizeCourseKeyIdempotent(s: string, fold: char -> string)
    requires forall c, d :: d in fold(c) ==> !IsUpper(d)
    requires forall c :: IsSlugChar(c) && !IsUpper(c) ==> fold(c) == [c]
    ensures NormalizeCourseKey(NormalizeCourseKey(s, fold), fold) == NormalizeCourseKey(s, fold)
  {
    var t := NormalizeCourseKey(s, fold);
    forall x | x in t
      ensures !IsUpper(x)
    {
      if x != '-' {
        var y :| y in Strip(s) && x in fold(y);
      }
    }
    SlugIsFixed(t, fold);
  }
}
