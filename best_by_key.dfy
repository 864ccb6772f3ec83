/** The "best entry per key" dictionary that both ingestion scripts build:
    entries are visited in order, the first entry of a key is stored, and a
    later entry of the same key replaces the stored one only when its score
    beats the stored one's. The dictionary's values are then read in
    insertion order, which in Python is the order in which each key was
    first stored. `dedupe_rows` (score: text length) and the `rows_by_pair`
    merge of `build_rows` (score: priority weight, then rank negated) are
    both instances. */
module BestByKey {

  /** Scores compare lexicographically: `a` beats `b` when its first
      component is larger, or equal with a larger second component. */
  predicate Beats(a: (int, int), b: (int, int)) {
    a.0 > b.0 || (a.0 == b.0 && a.1 > b.1)
  }

  /** Index of the first entry of `xs` whose key is `k` (|xs| when none). */
  function FirstIndex<T, K(==)>(xs: seq<T>, k: K, key: T -> K): (r: nat)
    ensures r <= |xs|
    ensures r < |xs| ==> key(xs[r]) == k
    ensures forall j :: 0 <= j < r ==> key(xs[j]) != k
  {
    if xs == [] then 0
    else if key(xs[0]) == k then 0
    else 1 + FirstIndex(xs[1..], k, key)
  }

  /** The entry at index `w` is the one a "replace only when strictly
      better" scan keeps for its key: it is better than every earlier entry
      with that key, and no later entry with that key is better than it. */
  ghost predicate Wins<T, K>(xs: seq<T>, w: nat, key: T -> K, score: T -> (int, int))
    requires w < |xs|
  {
    forall j :: 0 <= j < |xs| && key(xs[j]) == key(xs[w]) ==>
      (j < w ==> Beats(score(xs[w]), score(xs[j]))) && (w < j ==> !Beats(score(xs[j]), score(xs[w])))
  }

  /** `y` is the winning entry of `xs` for its key. */
  ghost predicate IsWinner<T, K>(y: T, xs: seq<T>, key: T -> K, score: T -> (int, int)) {
    exists w :: 0 <= w < |xs| && xs[w] == y && Wins(xs, w, key, score)
  }

  /** Some entry of `ys` has key `k`. */
  ghost predicate HasKey<T, K>(ys: seq<T>, k: K, key: T -> K) {
    exists i :: 0 <= i < |ys| && key(ys[i]) == k
  }

  /** `out` holds exactly one entry per distinct key of `xs`, each one the
      winning entry of `xs` for its key, in order of the keys' first
      appearance in `xs`. */
  ghost predicate IsBestOf<T, K>(out: seq<T>, xs: seq<T>, key: T -> K, score: T -> (int, int)) {
    && (forall i, j :: 0 <= i < j < |out| ==> key(out[i]) != key(out[j]))
    && (forall i :: 0 <= i < |out| ==> IsWinner(out[i], xs, key, score))
    && (forall j :: 0 <= j < |xs| ==> HasKey(out, key(xs[j]), key))
    && (forall i, j :: 0 <= i < j < |out| ==>
          FirstIndex(xs, key(out[i]), key) < FirstIndex(xs, key(out[j]), key))
  }

  /** Each stored entry sits at its recorded index, under its own key, and
      wins there. */
  ghost predicate Located<T, K>(xs: seq<T>, best: map<K, T>, at: map<K, nat>,
                                key: T -> K, score: T -> (int, int)) {
    forall k :: k in at ==>
      k in best && at[k] < |xs| && xs[at[k]] == best[k] && key(best[k]) == k && Wins(xs, at[k], key, score)
  }

  /** `order` lists the keys of `best` (and of `at`) once each. */
  ghost predicate KeyOrder<T, K>(order: seq<K>, best: map<K, T>, at: map<K, nat>) {
    && (forall i, j :: 0 <= i < j < |order| ==> order[i] != order[j])
    && (forall i :: 0 <= i < |order| ==> order[i] in best)
    && (forall k :: k in best ==> k in order)
    && best.Keys == at.Keys
  }

  /** Every key of `xs` is stored. */
  ghost predicate Covered<T, K>(xs: seq<T>, best: map<K, T>, key: T -> K) {
    forall j :: 0 <= j < |xs| ==> key(xs[j]) in best
  }

  /** `order` lists keys by their first appearance in `xs`. */
  ghost predicate FirstSeen<T, K>(xs: seq<T>, order: seq<K>, key: T -> K) {
    forall i, j :: 0 <= i < j < |order| ==> FirstIndex(xs, order[i], key) < FirstIndex(xs, order[j], key)
  }

  /** The dictionary after scanning `xs`: `order` is its key order, `best`
      its contents, and the ghost `at` gives the index in `xs` of each
      stored entry. */
  ghost predicate Tracks<T, K>(xs: seq<T>, order: seq<K>, best: map<K, T>, at: map<K, nat>,
                               key: T -> K, score: T -> (int, int)) {
    && KeyOrder(order, best, at)
    && Covered(xs, best, key)
    && Located(xs, best, at, key, score)
    && FirstSeen(xs, order, key)
  }

  /** The values of `best` in the order `order` gives (`list(best.values())`). */
  function Values<T, K>(order: seq<K>, best: map<K, T>): (r: seq<T>)
    requires forall i :: 0 <= i < |order| ==> order[i] in best
    ensures |r| == |order|
    ensures forall i :: 0 <= i < |order| ==> r[i] == best[order[i]]
  {
    seq(|order|, i requires 0 <= i < |order| => best[order[i]])
  }

  lemma TracksEmpty<T, K>(key: T -> K, score: T -> (int, int))
    ensures Tracks([], [], map[], map[], key, score)
  {
  }

  /** Once `xs` has an entry with key `k`, appending entries does not move
      the first index of `k`. */
  lemma FirstIndexAppend<T, K>(xs: seq<T>, x: T, k: K, key: T -> K)
    ensures FirstIndex(xs, k, key) < |xs| ==> FirstIndex(xs + [x], k, key) == FirstIndex(xs, k, key)
    ensures FirstIndex(xs, k, key) == |xs| && key(x) == k ==> FirstIndex(xs + [x], k, key) == |xs|
  {
    var ys := xs + [x];
    var f := FirstIndex(xs, k, key);
    if f < |xs| {
      assert ys[f] == xs[f];
      assert forall j :: 0 <= j < f ==> ys[j] == xs[j];
    } else if key(x) == k {
      assert ys[|xs|] == x;
      assert forall j :: 0 <= j < |xs| ==> ys[j] == xs[j];
    }
  }

  /** An entry keeps winning when the appended entry has another key or is
      not better than it. */
  lemma WinsAppendOther<T, K>(xs: seq<T>, x: T, w: nat, key: T -> K, score: T -> (int, int))
    requires w < |xs| && Wins(xs, w, key, score)
    requires key(x) == key(xs[w]) ==> !Beats(score(x), score(xs[w]))
    ensures Wins(xs + [x], w, key, score)
  {
    var ys := xs + [x];
    forall j | 0 <= j < |ys| && key(ys[j]) == key(ys[w])
      ensures (j < w ==> Beats(score(ys[w]), score(ys[j]))) && (w < j ==> !Beats(score(ys[j]), score(ys[w])))
    {
      if j < |xs| {
        assert ys[j] == xs[j];
      }
    }
  }

  /** An entry whose key is new wins. */
  lemma WinsAppendFresh<T, K>(xs: seq<T>, x: T, key: T -> K, score: T -> (int, int))
    requires forall j :: 0 <= j < |xs| ==> key(xs[j]) != key(x)
    ensures Wins(xs + [x], |xs|, key, score)
  {
    var ys := xs + [x];
    assert ys[|xs|] == x;
    forall j | 0 <= j < |ys| && key(ys[j]) == key(x)
      ensures j == |xs|
    {
    }
  }

  /** An entry strictly better than the current winner of its key wins. */
  lemma {:induction false} WinsAppendBetter<T, K>(xs: seq<T>, x: T, w0: nat, key: T -> K,
                                                       score: T -> (int, int))
    requires w0 < |xs| && Wins(xs, w0, key, score)
    requires key(x) == key(xs[w0]) && Beats(score(x), score(xs[w0]))
    ensures Wins(xs + [x], |xs|, key, score)
  {
    var ys := xs + [x];
    assert ys[|xs|] == x;
    forall j | 0 <= j < |xs| && key(ys[j]) == key(x)
      ensures Beats(score(x), score(ys[j]))
    {
      assert ys[j] == xs[j];
      if j < w0 {
        assert Beats(score(xs[w0]), score(xs[j]));
      } else if w0 < j {
        assert !Beats(score(xs[j]), score(xs[w0]));
      }
    }
  }

  /** Appending leaves the first index of every stored key where it was. */
  lemma FirstIndicesStable<T, K>(xs: seq<T>, x: T, order: seq<K>, best: map<K, T>, at: map<K, nat>,
                                 key: T -> K, score: T -> (int, int))
    requires KeyOrder(order, best, at) && Located(xs, best, at, key, score)
    ensures forall i :: 0 <= i < |order| ==>
              FirstIndex(xs + [x], order[i], key) == FirstIndex(xs, order[i], key) < |xs|
  {
    forall i | 0 <= i < |order|
      ensures FirstIndex(xs + [x], order[i], key) == FirstIndex(xs, order[i], key) < |xs|
    {
      var k := order[i];
      assert FirstIndex(xs, k, key) <= at[k];
      FirstIndexAppend(xs, x, k, key);
    }
  }

  /** Appending keeps the stored keys in first-appearance order. */
  lemma FirstSeenAppend<T, K>(xs: seq<T>, x: T, order: seq<K>, best: map<K, T>, at: map<K, nat>,
                              key: T -> K, score: T -> (int, int))
    requires KeyOrder(order, best, at) && Located(xs, best, at, key, score) && FirstSeen(xs, order, key)
    ensures FirstSeen(xs + [x], order, key)
  {
    FirstIndicesStable(xs, x, order, best, at, key, score);
  }

  /** Appending an entry with a new key, and that key to the order, keeps
      the order by first appearance. */
  lemma FirstSeenAppendNew<T, K>(xs: seq<T>, x: T, order: seq<K>, best: map<K, T>, at: map<K, nat>,
                                 key: T -> K, score: T -> (int, int))
    requires KeyOrder(order, best, at) && Located(xs, best, at, key, score) && FirstSeen(xs, order, key)
    requires Covered(xs, best, key) && key(x) !in best
    ensures FirstSeen(xs + [x], order + [key(x)], key)
  {
    var ys, k, order' := xs + [x], key(x), order + [key(x)];
    assert forall j :: 0 <= j < |xs| ==> key(xs[j]) != k;
    FirstIndexAppend(xs, x, k, key);
    FirstIndicesStable(xs, x, order, best, at, key, score);
    forall i, j | 0 <= i < j < |order'|
      ensures FirstIndex(ys, order'[i], key) < FirstIndex(ys, order'[j], key)
    {
      if j == |order| {
        assert order'[i] == order[i];
      }
    }
  }

  /** Appending an entry whose key ends up stored keeps every key stored. */
  lemma CoveredAppend<T, K>(xs: seq<T>, x: T, best: map<K, T>, best': map<K, T>, key: T -> K)
    requires Covered(xs, best, key) && best.Keys <= best'.Keys && key(x) in best'
    ensures Covered(xs + [x], best', key)
  {
    var ys := xs + [x];
    forall j | 0 <= j < |ys| ensures key(ys[j]) in best' {
      if j < |xs| {
        assert ys[j] == xs[j];
      }
    }
  }

  /** Storing a winning appended entry under its key keeps every stored
      entry located. */
  lemma LocatedStore<T, K>(xs: seq<T>, x: T, best: map<K, T>, at: map<K, nat>,
                           key: T -> K, score: T -> (int, int))
    requires Located(xs, best, at, key, score)
    requires Wins(xs + [x], |xs|, key, score)
    ensures Located(xs + [x], best[key(x) := x], at[key(x) := |xs|], key, score)
  {
    var ys, k, n := xs + [x], key(x), |xs|;
    var best', at' := best[k := x], at[k := n];
    assert ys[n] == x;
    forall k' | k' in at'
      ensures k' in best' && at'[k'] < |ys| && ys[at'[k']] == best'[k'] && key(best'[k']) == k'
      ensures Wins(ys, at'[k'], key, score)
    {
      if k' != k {
        WinsAppendOther(xs, x, at[k'], key, score);
      }
    }
  }

  /** Appending an entry that does not beat the stored one of its key keeps
      every stored entry located. */
  lemma LocatedKeep<T, K>(xs: seq<T>, x: T, best: map<K, T>, at: map<K, nat>,
                          key: T -> K, score: T -> (int, int))
    requires Located(xs, best, at, key, score)
    requires key(x) in best && !Beats(score(x), score(best[key(x)]))
    ensures Located(xs + [x], best, at, key, score)
  {
    var ys := xs + [x];
    forall k' | k' in at
      ensures k' in best && at[k'] < |ys| && ys[at[k']] == best[k'] && key(best[k']) == k'
      ensures Wins(ys, at[k'], key, score)
    {
      WinsAppendOther(xs, x, at[k'], key, score);
    }
  }

  /** Scan step for an entry whose key is not stored yet: it is stored, and
      its key goes to the end of the order. */
  lemma TracksStepNew<T, K>(xs: seq<T>, x: T, order: seq<K>, best: map<K, T>, at: map<K, nat>,
                            key: T -> K, score: T -> (int, int))
    requires Tracks(xs, order, best, at, key, score)
    requires key(x) !in best
    ensures Tracks(xs + [x], order + [key(x)], best[key(x) := x], at[key(x) := |xs|], key, score)
  {
    var ys, k := xs + [x], key(x);
    assert Located(ys, best[k := x], at[k := |xs|], key, score) by {
      assert forall j :: 0 <= j < |xs| ==> key(xs[j]) != k;
      WinsAppendFresh(xs, x, key, score);
      LocatedStore(xs, x, best, at, key, score);
    }
    assert Covered(ys, best[k := x], key) by {
      CoveredAppend(xs, x, best, best[k := x], key);
    }
    assert FirstSeen(ys, order + [k], key) by {
      FirstSeenAppendNew(xs, x, order, best, at, key, score);
    }
    assert KeyOrder(order + [k], best[k := x], at[k := |xs|]);
  }

  /** Scan step for an entry strictly better than the stored one: it takes
      that key's place, and the order does not change. */
  lemma TracksStepReplace<T, K>(xs: seq<T>, x: T, order: seq<K>, best: map<K, T>, at: map<K, nat>,
                                      key: T -> K, score: T -> (int, int))
    requires Tracks(xs, order, best, at, key, score)
    requires key(x) in best && Beats(score(x), score(best[key(x)]))
    ensures Tracks(xs + [x], order, best[key(x) := x], at[key(x) := |xs|], key, score)
  {
    var ys, k := xs + [x], key(x);
    assert Located(ys, best[k := x], at[k := |xs|], key, score) by {
      WinsAppendBetter(xs, x, at[k], key, score);
      LocatedStore(xs, x, best, at, key, score);
    }
    assert Covered(ys, best[k := x], key) by {
      CoveredAppend(xs, x, best, best[k := x], key);
    }
    assert FirstSeen(ys, order, key) by {
      FirstSeenAppend(xs, x, order, best, at, key, score);
    }
    assert KeyOrder(order, best[k := x], at[k := |xs|]);
  }

  /** Scan step for an entry that is not better than the stored one:
      nothing changes. */
  lemma TracksStepKeep<T, K>(xs: seq<T>, x: T, order: seq<K>, best: map<K, T>, at: map<K, nat>,
                             key: T -> K, score: T -> (int, int))
    requires Tracks(xs, order, best, at, key, score)
    requires key(x) in best && !Beats(score(x), score(best[key(x)]))
    ensures Tracks(xs + [x], order, best, at, key, score)
  {
    var ys := xs + [x];
    assert Located(ys, best, at, key, score) by {
      LocatedKeep(xs, x, best, at, key, score);
    }
    assert Covered(ys, best, key) by {
      CoveredAppend(xs, x, best, best, key);
    }
    assert FirstSeen(ys, order, key) by {
      FirstSeenAppend(xs, x, order, best, at, key, score);
    }
  }

  /** What the finished scan returns satisfies `IsBestOf`. */
  lemma TracksGivesBest<T, K>(xs: seq<T>, order: seq<K>, best: map<K, T>, at: map<K, nat>,
                                     key: T -> K, score: T -> (int, int))
    requires Tracks(xs, order, best, at, key, score)
    ensures IsBestOf(Values(order, best), xs, key, score)
  {
    var out := Values(order, best);
    forall i | 0 <= i < |out|
      ensures IsWinner(out[i], xs, key, score)
    {
      var k := order[i];
      assert k in best && k in at;
      var w := at[k];
      assert 0 <= w < |xs| && xs[w] == out[i] && Wins(xs, w, key, score);
    }
    forall j | 0 <= j < |xs|
      ensures HasKey(out, key(xs[j]), key)
    {
      var k := key(xs[j]);
      assert k in best;
      assert k in order;
      var i :| 0 <= i < |order| && order[i] == k;
      assert k in at && key(best[k]) == k;
      assert key(out[i]) == k;
    }
    forall i, j | 0 <= i < j < |out|
      ensures key(out[i]) != key(out[j])
      ensures FirstIndex(xs, key(out[i]), key) < FirstIndex(xs, key(out[j]), key)
    {
      assert order[i] in at && order[j] in at;
      assert key(out[i]) == order[i] && key(out[j]) == order[j];
    }
  }
}
