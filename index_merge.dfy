/**
 * `merge` of training/tokenizer/utils.py, the one training uses: it marks
 * every position where the pair starts, writes the combined symbol there,
 * collects the position after each match, and removes those positions.
 * Overlapping occurrences are all marked, so it differs from the greedy
 * pass exactly when the pair's two symbols are equal.
 */
module IndexMerge {
  import opened ByteStrings
  import opened PairUtils
  import opened Results
  import GreedyMerge

  /** The list `new` after the loop: the combined symbol at every match position. */
  function Marked(w: Word, p: Pair): Word
  {
    seq(|w|, i requires 0 <= i < |w| => if MatchAt(w, p, i) then CombinePair(p) else w[i])
  }

  /** `pop_indices` after the loop has looked at positions `0 .. n-1`. */
  function PopIndices(w: Word, p: Pair, n: nat): seq<int>
  {
    if n == 0 then [] else PopIndices(w, p, n - 1) + (if MatchAt(w, p, n - 1) then [n] else [])
  }

  /** The list `new` once positions `0 .. i-1` have been looked at. */
  function MarkedBefore(w: Word, p: Pair, i: nat): Word
  {
    seq(|w|, j requires 0 <= j < |w| => if j < i && MatchAt(w, p, j) then CombinePair(p) else w[j])
  }

  /** One step of `Merge`'s loop at position `i`. */
  lemma MarkStep(w: Word, p: Pair, i: nat)
    requires i < |w| - 1
    ensures MatchAt(w, p, i) <==> w[i] == p.0 && w[i + 1] == p.1
    ensures MatchAt(w, p, i) ==> MarkedBefore(w, p, i)[i := CombinePair(p)] == MarkedBefore(w, p, i + 1)
    ensures !MatchBefore(w, p, i) ==> MarkedBefore(w, p, i) == w
    ensures !MatchAt(w, p, i) ==> MarkedBefore(w, p, i + 1) == MarkedBefore(w, p, i)
    ensures MatchBefore(w, p, i + 1) <==> MatchBefore(w, p, i) || MatchAt(w, p, i)
    ensures PopIndices(w, p, i + 1) == PopIndices(w, p, i) + (if MatchAt(w, p, i) then [i + 1] else [])
  {
  }

  lemma MarkDone(w: Word, p: Pair)
    requires |w| >= 2
    ensures MarkedBefore(w, p, |w| - 1) == Marked(w, p)
    ensures MatchBefore(w, p, |w| - 1) <==> HasMatch(w, p)
  {
  }

  /** `remove_indices(new, pop_indices)` */
  function IndexMerged(w: Word, p: Pair): Word
  {
    RemoveIndices(Marked(w, p), PopIndices(w, p, if |w| == 0 then 0 else |w| - 1))
  }

  /**
   * `merge(word, pair)`: `None` for a word of fewer than two symbols or without
   * an adjacent occurrence of the pair, otherwise the index-merged word.
   */
  method Merge(word: Word, pair: Pair) returns (r: Option<Word>)
    ensures r.None? <==> !HasMatch(word, pair)
    ensures r.Some? ==> r.value == IndexMerged(word, pair)
  {
    // len(pair) is always 2
    if 2 > |word| {
      return None;
    }
    var l1, l2 := pair.0, pair.1;
    var pairFound := false;
    var popIndices: seq<int> := [];
    var merged: Word := [];  // Python's `new`, still None until the first match
    for i := 0 to |word| - 1
      invariant pairFound <==> MatchBefore(word, pair, i)
      invariant popIndices == PopIndices(word, pair, i)
      invariant pairFound ==> merged == MarkedBefore(word, pair, i)
    {
      MarkStep(word, pair, i);
      if word[i] == l1 && word[i + 1] == l2 {
        if pairFound {
          merged := merged[i := CombinePair(pair)];
        } else {
          merged := word;
          merged := merged[i := CombinePair(pair)];
          pairFound := true;
        }
        popIndices := popIndices + [i + 1];
      }
    }
    MarkDone(word, pair);
    if pairFound {
      merged := RemoveIndices(merged, popIndices);
      return Some(merged);
    }
    return None;
  }

  /** Position `j` is collected exactly when a match starts at `j - 1`. */
  lemma {:induction false} PopIndicesMembership(w: Word, p: Pair, n: nat, j: int)
    ensures j in PopIndices(w, p, n) <==> 1 <= j <= n && MatchAt(w, p, j - 1)
  {
    if n > 0 {
      PopIndicesMembership(w, p, n - 1, j);
    }
  }

  /** The index merge read from position `k` on: a position right after a match is dropped. */
  function IndexMergedFrom(w: Word, p: Pair, k: nat): Word
    requires k <= |w|
    decreases |w| - k
  {
    if k == |w| then []
    else
      (if k > 0 && MatchAt(w, p, k - 1) then []
       else [if MatchAt(w, p, k) then CombinePair(p) else w[k]])
      + IndexMergedFrom(w, p, k + 1)
  }

  lemma {:induction false} RemoveFromMarked(w: Word, p: Pair, k: nat)
    requires 0 < |w| && k <= |w|
    decreases |w| - k
    ensures RemoveFrom(Marked(w, p), PopIndices(w, p, |w| - 1), k) == IndexMergedFrom(w, p, k)
  {
    if k < |w| {
      PopIndicesMembership(w, p, |w| - 1, k);
      RemoveFromStep(Marked(w, p), PopIndices(w, p, |w| - 1), k);
      RemoveFromMarked(w, p, k + 1);
    }
  }

  lemma RemoveFromStep<T>(lst: seq<T>, indices: seq<int>, k: nat)
    requires k < |lst|
    ensures RemoveFrom(lst, indices, k)
      == (if k in indices then [] else [lst[k]]) + RemoveFrom(lst, indices, k + 1)
  {
  }

  lemma IndexMergedIsFrom(w: Word, p: Pair)
    ensures IndexMerged(w, p) == IndexMergedFrom(w, p, 0)
  {
    if |w| > 0 {
      RemoveFromMarked(w, p, 0);
    }
  }

  /** The number of positions `k ..` where the pair starts. */
  function CountFrom(w: Word, p: Pair, k: nat): nat
    decreases |w| - k
  {
    if k >= |w| then 0 else (if MatchAt(w, p, k) then 1 else 0) + CountFrom(w, p, k + 1)
  }

  lemma {:induction false} IndexMergedFromLength(w: Word, p: Pair, k: nat)
    requires k <= |w|
    decreases |w| - k
    ensures |IndexMergedFrom(w, p, k)|
      == |w| - k - (if k > 0 && MatchAt(w, p, k - 1) then 1 else 0) - CountFrom(w, p, k)
  {
    if k < |w| {
      IndexMergedFromLength(w, p, k + 1);
    }
  }

  lemma {:induction false} CountFromBounds(w: Word, p: Pair, k: nat)
    requires k <= |w|
    decreases |w| - k
    ensures k < |w| ==> CountFrom(w, p, k) <= |w| - 1 - k
    ensures (exists j :: k <= j && MatchAt(w, p, j)) ==> CountFrom(w, p, k) > 0
  {
    if k < |w| {
      CountFromBounds(w, p, k + 1);
      if (exists j :: k <= j && MatchAt(w, p, j)) && !MatchAt(w, p, k) {
        var j :| k <= j && MatchAt(w, p, j);
        assert k + 1 <= j;
      }
    }
  }

  /** A word with a match comes out shorter but never empty, so `if merged_word` holds. */
  lemma IndexMergeShorter(w: Word, p: Pair)
    requires HasMatch(w, p)
    ensures 0 < |IndexMerged(w, p)| < |w|
  {
    IndexMergeLength(w, p);
    CountFromBounds(w, p, 0);
  }

  /** The merged word is the input minus one symbol per matching position. */
  lemma IndexMergeLength(w: Word, p: Pair)
    ensures |IndexMerged(w, p)| == |w| - CountFrom(w, p, 0)
  {
    IndexMergedIsFrom(w, p);
    IndexMergedFromLength(w, p, 0);
  }

  lemma {:induction false} IndexMergedFromIsGreedy(w: Word, p: Pair, k: nat)
    requires p.0 != p.1
    requires k <= |w|
    requires !(k > 0 && MatchAt(w, p, k - 1))
    decreases |w| - k
    ensures IndexMergedFrom(w, p, k) == GreedyMerge.GreedyFrom(w, p, k)
  {
    if k + 1 < |w| {
      if MatchAt(w, p, k) {
        assert !MatchAt(w, p, k + 1);
        IndexMergedFromIsGreedy(w, p, k + 2);
        assert IndexMergedFrom(w, p, k + 1) == IndexMergedFrom(w, p, k + 2);
      } else {
        IndexMergedFromIsGreedy(w, p, k + 1);
      }
    } else if k + 1 == |w| {
      assert w[k..] == [w[k]];
    }
  }

  /** When the pair's two symbols differ, both `merge` functions give the same word. */
  lemma IndexMergeAgreesWithGreedy(w: Word, p: Pair)
    requires p.0 != p.1
    ensures IndexMerged(w, p) == GreedyMerge.Greedy(w, p)
  {
    IndexMergedIsFrom(w, p);
    IndexMergedFromIsGreedy(w, p, 0);
  }

  /**
   * On an overlapping occurrence both positions are merged and one of the two
   * combined symbols is then removed: `(a, a, a)` with `(a, a)` gives `(aa,)`,
   * and the bytes no longer spell the word.
   */
  lemma IndexMergeOverlapLosesBytes(a: Symbol)
    requires |a| > 0
    ensures IndexMerged([a, a, a], (a, a)) == [a + a]
    ensures Flatten(IndexMerged([a, a, a], (a, a))) != Flatten([a, a, a])
  {
    var w: Word := [a, a, a];
    var p: Pair := (a, a);
    IndexMergedIsFrom(w, p);
    assert MatchAt(w, p, 0) && MatchAt(w, p, 1);
    assert IndexMergedFrom(w, p, 3) == [];
    assert IndexMergedFrom(w, p, 2) == [];
    assert IndexMergedFrom(w, p, 1) == [];
    assert IndexMergedFrom(w, p, 0) == [a + a];
    FlattenConcat([a], [a, a]);
    FlattenConcat([a], [a]);
    assert [a] + [a, a] == w;
    assert Flatten([a]) == a;
    assert Flatten([a + a]) == a + a;
    assert |Flatten(w)| == |a| + |a| + |a|;
  }
}
