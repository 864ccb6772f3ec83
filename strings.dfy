/** Character classes and the few `str` methods the ingestion scripts rely on.
    Strings are sequences of Unicode code points, as Python's `str` is. */
module Strings {

  /** The characters for which Python's `str.isspace()` holds; they are also
      what `\s` matches in a `str` pattern and what `str.strip()` removes. */
  predicate IsSpace(c: char) {
    c == ' ' || ('\t' <= c <= '\r') || ('\U{1c}' <= c <= '\U{1f}')
    || c == '\U{85}' || c == '\U{a0}' || c == '\U{1680}'
    || ('\U{2000}' <= c <= '\U{200a}') || c == '\U{2028}' || c == '\U{2029}'
    || c == '\U{202f}' || c == '\U{205f}' || c == '\U{3000}'
  }

  /** `\d`, restricted to the ASCII digits. */
  predicate IsDigit(c: char) {
    '0' <= c <= '9'
  }

  predicate IsAsciiLetter(c: char) {
    ('a' <= c <= 'z') || ('A' <= c <= 'Z')
  }

  /** `\w`, restricted to ASCII: letters, digits and the underscore. */
  predicate IsWordChar(c: char) {
    IsAsciiLetter(c) || IsDigit(c) || c == '_'
  }

  /** `str.lower()` on one character, for the ASCII letters. */
  function LowerChar(c: char): (r: char)
    ensures !('A' <= r <= 'Z')
    ensures 'A' <= c <= 'Z' ==> r as int == c as int + 32
    ensures !('A' <= c <= 'Z') ==> r == c
  {
    if 'A' <= c <= 'Z' then (c as int - 'A' as int + 'a' as int) as char else c
  }

  /** `str.lower()`, for the ASCII letters. */
  function Lower(s: string): (r: string)
    ensures |r| == |s|
    ensures forall i :: 0 <= i < |s| ==> r[i] == LowerChar(s[i])
  {
    seq(|s|, i requires 0 <= i < |s| => LowerChar(s[i]))
  }

  predicate StartsWith(s: string, prefix: string) {
    |prefix| <= |s| && s[..|prefix|] == prefix
  }

  predicate EndsWith(s: string, suffix: string) {
    |suffix| <= |s| && s[|s| - |suffix|..] == suffix
  }

  /** Python's `sub in s`. */
  predicate Contains(s: string, sub: string)
    decreases |s|
  {
    StartsWith(s, sub) || (s != [] && Contains(s[1..], sub))
  }

  /** Every character of `s` from `lo` (inclusive) to `hi` (exclusive) is in `drop`. */
  ghost predicate AllIn(s: string, lo: int, hi: int, drop: char -> bool)
    requires 0 <= lo <= hi <= |s|
  {
    forall k :: lo <= k < hi ==> drop(s[k])
  }

  /** Length of the run of characters satisfying `p` that ends just before
      index `hi`. */
  function RunLengthBack(s: string, hi: nat, p: char -> bool): (n: nat)
    requires hi <= |s|
    ensures n <= hi
    ensures forall k :: hi - n <= k < hi ==> p(s[k])
    ensures n == hi || !p(s[hi - n - 1])
  {
    if 0 < hi && p(s[hi - 1]) then 1 + RunLengthBack(s, hi - 1, p) else 0
  }

  /** `s.strip(chars)`, where `drop` says which characters are in `chars`:
      the middle slice of `s` left once the runs of `chars` at both ends are
      cut off; its two ends, when it has any, are not in `chars`. */
  function Trim(s: string, drop: char -> bool): (r: string)
    ensures |r| <= |s|
    ensures r == [] || (!drop(r[0]) && !drop(r[|r| - 1]))
    ensures var lo := RunLength(s, 0, drop);
            && lo + |r| <= |s| && r == s[lo..lo + |r|]
            && AllIn(s, 0, lo, drop) && AllIn(s, lo + |r|, |s|, drop)
  {
    var lo := RunLength(s, 0, drop);
    if lo == |s| then []
    else
      var n := RunLengthBack(s, |s|, drop);
      assert n < |s| - lo by {
        assert !drop(s[lo]);
      }
      s[lo..|s| - n]
  }

  /** `s.strip()`. */
  function Strip(s: string): (r: string)
    ensures |r| <= |s|
    ensures forall c :: c in r ==> c in s
    ensures r == [] || (!IsSpace(r[0]) && !IsSpace(r[|r| - 1]))
  {
    Trim(s, IsSpace)
  }

  /** Trimming text whose two ends are already kept changes nothing. */
  lemma TrimKeepsTrimmed(s: string, drop: char -> bool)
    requires s == [] || (!drop(s[0]) && !drop(s[|s| - 1]))
    ensures Trim(s, drop) == s
  {
  }

  /** `str.strip()` is idempotent. */
  lemma StripIdempotent(s: string)
    ensures Strip(Strip(s)) == Strip(s)
  {
    TrimKeepsTrimmed(Strip(s), IsSpace);
  }

  /** `s.rstrip(chars)`, where `drop` says which characters are in `chars`:
      the longest prefix of `s` that does not end in one of them; what is
      cut off consists of them only. */
  function TrimEnd(s: string, drop: char -> bool): (r: string)
    ensures |r| <= |s| && r == s[..|r|]
    ensures r == [] || !drop(r[|r| - 1])
    ensures AllIn(s, |r|, |s|, drop)
  {
    s[..|s| - RunLengthBack(s, |s|, drop)]
  }

  /** `s` without the characters `drop` selects, the others kept in order
      (a chain of `s.replace(c, "")`). */
  function Remove(s: string, drop: char -> bool): (r: string)
    ensures |r| <= |s|
  {
    if s == [] then []
    else
      assert s == [s[0]] + s[1..];
      (if drop(s[0]) then [] else [s[0]]) + Remove(s[1..], drop)
  }

  /** What `Remove` keeps: the characters of `s` that are not dropped;
      all of `s` when none is. */
  lemma {:induction false} RemoveMembers(s: string, drop: char -> bool)
    ensures forall c :: c in Remove(s, drop) <==> c in s && !drop(c)
    ensures (forall c :: c in s ==> !drop(c)) ==> Remove(s, drop) == s
    decreases |s|
  {
    if s != [] {
      RemoveMembers(s[1..], drop);
      assert s == [s[0]] + s[1..];
    }
  }

  /** `Remove` distributes over concatenation. */
  lemma {:induction false} RemoveAppend(x: string, y: string, drop: char -> bool)
    ensures Remove(x + y, drop) == Remove(x, drop) + Remove(y, drop)
    decreases |x|
  {
    if x != [] {
      var head := if drop(x[0]) then [] else [x[0]];
      assert (x + y)[0] == x[0];
      assert (x + y)[1..] == x[1..] + y;
      RemoveAppend(x[1..], y, drop);
      calc {
        Remove(x + y, drop);
        head + Remove(x[1..] + y, drop);
        head + (Remove(x[1..], drop) + Remove(y, drop));
        (head + Remove(x[1..], drop)) + Remove(y, drop);
      }
    } else {
      assert x + y == y;
    }
  }

  /** Skipping a run of dropped characters does not change what is kept. */
  lemma {:induction false} RemoveSkipsRun(s: string, i: nat, n: nat, drop: char -> bool)
    requires i + n <= |s| && AllIn(s, i, i + n, drop)
    ensures Remove(s[i..], drop) == Remove(s[i + n..], drop)
    decreases n
  {
    if n > 0 {
      assert s[i..][1..] == s[i + 1..];
      RemoveSkipsRun(s, i + 1, n - 1, drop);
    }
  }

  /** Removing a finer class first changes nothing. */
  lemma {:induction false} RemoveCoarser(s: string, fine: char -> bool, coarse: char -> bool)
    requires forall c :: fine(c) ==> coarse(c)
    ensures Remove(Remove(s, fine), coarse) == Remove(s, coarse)
    decreases |s|
  {
    if s != [] {
      RemoveCoarser(s[1..], fine, coarse);
      var r := Remove(s, fine);
      if !fine(s[0]) {
        assert r == [s[0]] + Remove(s[1..], fine);
        assert r[0] == s[0] && r[1..] == Remove(s[1..], fine);
      } else {
        assert r == Remove(s[1..], fine);
      }
    }
  }

  /** Two strings that agree on which positions are dropped, and on the
      characters kept, keep the same characters. */
  lemma {:induction false} RemoveAgree(x: string, y: string, drop: char -> bool)
    requires |x| == |y|
    requires forall i :: 0 <= i < |x| ==> drop(x[i]) == drop(y[i]) && (!drop(x[i]) ==> x[i] == y[i])
    ensures Remove(x, drop) == Remove(y, drop)
    decreases |x|
  {
    if x != [] {
      assert forall i :: 0 <= i < |x| - 1 ==> x[1..][i] == x[i + 1] && y[1..][i] == y[i + 1];
      RemoveAgree(x[1..], y[1..], drop);
    }
  }

  /** Trimming drops only characters that `Remove` drops as well. */
  lemma RemoveTrim(s: string, drop: char -> bool)
    ensures Remove(Trim(s, drop), drop) == Remove(s, drop)
  {
    var r := Trim(s, drop);
    var lo := RunLength(s, 0, drop);
    var hi := lo + |r|;
    assert s == s[..lo] + r + s[hi..];
    RemoveAppend(s[..lo] + r, s[hi..], drop);
    RemoveAppend(s[..lo], r, drop);
    assert s[..lo][0..] == s[..lo];
    RemoveSkipsRun(s[..lo], 0, lo, drop);
    assert s[hi..][0..] == s[hi..];
    RemoveSkipsRun(s[hi..], 0, |s| - hi, drop);
  }

  /** Python's `s.replace(from, to)` for one-character `from` and `to`. */
  function ReplaceChar(s: string, from: char, to: char): (r: string)
    ensures |r| == |s|
    ensures forall i :: 0 <= i < |s| ==> r[i] == (if s[i] == from then to else s[i])
  {
    seq(|s|, i requires 0 <= i < |s| => if s[i] == from then to else s[i])
  }

  /** Length of the run of characters satisfying `p` that starts at index `i`. */
  function RunLength(s: string, i: nat, p: char -> bool): (n: nat)
    requires i <= |s|
    ensures i + n <= |s|
    ensures forall k :: i <= k < i + n ==> p(s[k])
    ensures i + n == |s| || !p(s[i + n])
    decreases |s| - i
  {
    if i < |s| && p(s[i]) then 1 + RunLength(s, i + 1, p) else 0
  }

  /** The run of `p` from `lo` ends at `hi` when `s[lo..hi]` is in `p` and
      `s[hi]`, if there is one, is not. */
  lemma RunLengthIs(s: string, lo: nat, hi: nat, p: char -> bool)
    requires lo <= hi <= |s| && AllIn(s, lo, hi, p) && (hi == |s| || !p(s[hi]))
    ensures RunLength(s, lo, p) == hi - lo
  {
  }

  /** The run of `p` from `lo` reaches at least `hi` when `s[lo..hi]` is in
      `p`. */
  lemma RunLengthCovers(s: string, lo: nat, hi: nat, p: char -> bool)
    requires lo <= hi <= |s| && AllIn(s, lo, hi, p)
    ensures RunLength(s, lo, p) >= hi - lo
  {
  }

  /** Around a separator `c` that `sub` does not contain, `sub` occurs in
      `x + [c] + y` exactly when it occurs in `x` or in `y`. */
  lemma ContainsAroundSeparator(x: string, c: char, y: string, sub: string)
    requires forall k :: 0 <= k < |sub| ==> sub[k] != c
    ensures Contains(x + [c] + y, sub) <==> Contains(x, sub) || Contains(y, sub)
  {
    ContainsBesideSeparator(x, c, y, sub);
    ContainsLeftOf(x, [c] + y, sub);
    ContainsRightOf(x + [c], y, sub);
    assert x + [c] + y == x + ([c] + y);
  }

  /** An occurrence in `x + [c] + y` of a `sub` without `c` is one in `x`
      or in `y`. */
  lemma ContainsBesideSeparator(x: string, c: char, y: string, sub: string)
    requires forall k :: 0 <= k < |sub| ==> sub[k] != c
    ensures Contains(x + [c] + y, sub) ==> Contains(x, sub) || Contains(y, sub)
  {
    var w := x + [c] + y;
    ContainsAt(w, sub);
    if Contains(w, sub) {
      var i: nat :| OccursAt(w, sub, i);
      OccursBesideSeparator(x, c, y, sub, i);
      ContainsAt(x, sub);
      ContainsAt(y, sub);
    }
  }

  /** What `x` contains, `x + z` contains. */
  lemma ContainsLeftOf(x: string, z: string, sub: string)
    ensures Contains(x, sub) ==> Contains(x + z, sub)
  {
    ContainsAt(x, sub);
    if Contains(x, sub) {
      var i: nat :| OccursAt(x, sub, i);
      assert (x + z)[i..i + |sub|] == x[i..i + |sub|];
      assert OccursAt(x + z, sub, i);
      ContainsAt(x + z, sub);
    }
  }

  /** What `y` contains, `z + y` contains. */
  lemma ContainsRightOf(z: string, y: string, sub: string)
    ensures Contains(y, sub) ==> Contains(z + y, sub)
  {
    ContainsAt(y, sub);
    if Contains(y, sub) {
      var i: nat :| OccursAt(y, sub, i);
      assert (z + y)[|z| + i..|z| + i + |sub|] == y[i..i + |sub|];
      assert OccursAt(z + y, sub, |z| + i);
      ContainsAt(z + y, sub);
    }
  }

  /** An occurrence in `x + [c] + y` of a `sub` without `c` lies within
      `x` or within `y`. */
  lemma OccursBesideSeparator(x: string, c: char, y: string, sub: string, i: nat)
    requires forall k :: 0 <= k < |sub| ==> sub[k] != c
    requires OccursAt(x + [c] + y, sub, i)
    ensures OccursAt(x, sub, i) || (i > |x| && OccursAt(y, sub, i - |x| - 1))
  {
    var w := x + [c] + y;
    assert w[|x|] == c;
    assert forall k :: i <= k < i + |sub| ==> w[k] == sub[k - i];
    if i + |sub| <= |x| {
      assert w[i..i + |sub|] == x[i..i + |sub|];
    } else {
      assert w[i..i + |sub|] == y[i - |x| - 1..i - |x| - 1 + |sub|];
    }
  }

  /** `sub` occurs in `s` at index `i`. */
  predicate OccursAt(s: string, sub: string, i: nat) {
    i + |sub| <= |s| && s[i..i + |sub|] == sub
  }

  /** `sub in s` holds exactly when `sub` occurs at some index of `s`. */
  lemma {:induction false} ContainsAt(s: string, sub: string)
    ensures Contains(s, sub) <==> exists i: nat :: OccursAt(s, sub, i)
    decreases |s|
  {
    if s != [] {
      ContainsAt(s[1..], sub);
      if StartsWith(s, sub) {
        assert OccursAt(s, sub, 0);
      }
      if exists i: nat :: OccursAt(s, sub, i) {
        var i: nat :| OccursAt(s, sub, i);
        if i > 0 {
          assert s[1..][i - 1..i - 1 + |sub|] == sub;
          assert OccursAt(s[1..], sub, i - 1);
        }
      }
      if Contains(s[1..], sub) {
        var i: nat :| OccursAt(s[1..], sub, i);
        assert s[i + 1..i + 1 + |sub|] == sub;
        assert OccursAt(s, sub, i + 1);
      }
    } else if sub == [] {
      assert OccursAt(s, sub, 0);
    }
  }

  /** A string that ends with `b` contains whatever `b` contains. */
  lemma ContainsInSuffix(s: string, b: string, sub: string)
    requires EndsWith(s, b) && Contains(b, sub)
    ensures Contains(s, sub)
  {
    ContainsAt(b, sub);
    ContainsAt(s, sub);
    var i: nat :| OccursAt(b, sub, i);
    var d := |s| - |b|;
    assert s[d + i..d + i + |sub|] == b[i..i + |sub|];
    assert OccursAt(s, sub, d + i);
  }

  /** Lower-casing keeps an occurrence, lower-cased. */
  lemma ContainsLower(s: string, sub: string)
    requires Contains(s, sub)
    ensures Contains(Lower(s), Lower(sub))
  {
    ContainsAt(s, sub);
    ContainsAt(Lower(s), Lower(sub));
    var i: nat :| OccursAt(s, sub, i);
    assert Lower(s)[i..i + |sub|] == Lower(sub);
    assert OccursAt(Lower(s), Lower(sub), i);
  }
}
