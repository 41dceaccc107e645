/**
 * `merge` of src/utils/tokenizer.py, the one the encoder uses: a single
 * left-to-right pass that merges each occurrence of the pair and steps past
 * the merged symbol without looking at it again.
 */
module GreedyMerge {
  import opened ByteStrings
  import opened PairUtils
  import opened Results

  /** The result of the pass once it has reached position `k` of the original word. */
  function GreedyFrom(w: Word, p: Pair, k: nat): Word
    requires k <= |w|
    decreases |w| - k
  {
    if k + 1 >= |w| then w[k..]
    else if MatchAt(w, p, k) then [CombinePair(p)] + GreedyFrom(w, p, k + 2)
    else [w[k]] + GreedyFrom(w, p, k + 1)
  }

  /** Non-overlapping greedy merging of `p` in `w`, scanning from the left. */
  function Greedy(w: Word, p: Pair): Word
  {
    GreedyFrom(w, p, 0)
  }

  /**
   * `merge(word, pair)`: `None` when no adjacent occurrence of the pair exists
   * (in particular for words of fewer than two symbols), otherwise the greedily
   * merged word.
   */
  method Merge(word: Word, pair: Pair) returns (r: Option<Word>)
    ensures r.None? <==> !HasMatch(word, pair)
    ensures r.Some? ==> r.value == Greedy(word, pair)
  {
    // len(pair) is always 2
    if 2 > |word| {
      return None;
    }
    var l1, l2 := pair.0, pair.1;
    var merged := word;
    var i := 0;
    var pairFound := false;
    ghost var k := 0;          // the position in `word` that new[i] came from
    ghost var done: Word := [];
    while i < |merged| - 1
      invariant k <= |word|
      invariant merged == done + word[k..]
      invariant i == |done|
      invariant Greedy(word, pair) == done + GreedyFrom(word, pair, k)
      invariant pairFound <==> MatchBefore(word, pair, k)
      decreases |word| - k
    {
      assert k + 1 < |word| && merged[i] == word[k] && merged[i + 1] == word[k + 1];
      if merged[i] == l1 && merged[i + 1] == l2 {
        MergeHit(word, pair, k, done);
        merged := merged[i := CombinePair(pair)];
        merged := merged[..i + 1] + merged[i + 2..];  // new.pop(i + 1)
        pairFound := true;
        done := done + [CombinePair(pair)];
        k := k + 2;
        i := i + 1;  // skip past the merged symbol
      } else {
        MergeMiss(word, pair, k, done);
        done := done + [word[k]];
        k := k + 1;
        i := i + 1;
      }
    }
    assert MatchBefore(word, pair, k) == HasMatch(word, pair);
    if pairFound {
      return Some(merged);
    }
    return None;
  }

  /** One step of `Merge`'s loop on a match: merge in place, then pop. */
  lemma MergeHit(word: Word, pair: Pair, k: nat, done: Word)
    requires MatchAt(word, pair, k)
    requires Greedy(word, pair) == done + GreedyFrom(word, pair, k)
    ensures Greedy(word, pair) == (done + [CombinePair(pair)]) + GreedyFrom(word, pair, k + 2)
    ensures var m := (done + word[k..])[|done| := CombinePair(pair)];
      m[..|done| + 1] + m[|done| + 2..] == (done + [CombinePair(pair)]) + word[k + 2..]
    ensures MatchBefore(word, pair, k + 2)
  {
    var c := CombinePair(pair);
    assert GreedyFrom(word, pair, k) == [c] + GreedyFrom(word, pair, k + 2);
    assert done + ([c] + GreedyFrom(word, pair, k + 2)) == (done + [c]) + GreedyFrom(word, pair, k + 2);
    ReplaceAndPop(done, word[k..], c);
    assert word[k..][2..] == word[k + 2..];
  }

  /** `new[i] = c; new.pop(i + 1)` at the end `i` of `done`. */
  lemma ReplaceAndPop(done: Word, rest: Word, c: Symbol)
    requires |rest| >= 2
    ensures var m := (done + rest)[|done| := c];
      m[..|done| + 1] + m[|done| + 2..] == (done + [c]) + rest[2..]
  {
    var m := (done + rest)[|done| := c];
    assert m[..|done| + 1] == done + [c];
    assert m[|done| + 2..] == rest[2..];
  }

  /** One step of `Merge`'s loop without a match: move on by one symbol. */
  lemma MergeMiss(word: Word, pair: Pair, k: nat, done: Word)
    requires k + 1 < |word| && !MatchAt(word, pair, k)
    requires Greedy(word, pair) == done + GreedyFrom(word, pair, k)
    ensures Greedy(word, pair) == (done + [word[k]]) + GreedyFrom(word, pair, k + 1)
    ensures done + word[k..] == (done + [word[k]]) + word[k + 1..]
    ensures MatchBefore(word, pair, k + 1) == MatchBefore(word, pair, k)
  {
    assert word[k..] == [word[k]] + word[k + 1..];
  }

  lemma GreedyFromHead(w: Word, p: Pair, k: nat)
    requires k < |w|
    ensures |GreedyFrom(w, p, k)| > 0
    ensures GreedyFrom(w, p, k)[0] == if MatchAt(w, p, k) then CombinePair(p) else w[k]
  {
  }

  /** The pass never lengthens a word, and shortens it as soon as it merges anything. */
  lemma {:induction false} GreedyFromLength(w: Word, p: Pair, k: nat)
    requires k <= |w|
    decreases |w| - k
    ensures |GreedyFrom(w, p, k)| <= |w| - k
    ensures (exists j :: k <= j && MatchAt(w, p, j)) ==> |GreedyFrom(w, p, k)| < |w| - k
  {
    if k + 1 >= |w| {
    } else if MatchAt(w, p, k) {
      GreedyFromLength(w, p, k + 2);
    } else {
      GreedyFromLength(w, p, k + 1);
      assert forall j :: k <= j && MatchAt(w, p, j) ==> k + 1 <= j;
    }
  }

  /** When `merge` succeeds its result has strictly fewer symbols, and at least one. */
  lemma GreedyShorter(w: Word, p: Pair)
    requires HasMatch(w, p)
    ensures 0 < |Greedy(w, p)| < |w|
  {
    GreedyFromLength(w, p, 0);
    GreedyFromHead(w, p, 0);
  }

  /** Merging keeps the bytes: each match becomes `pair[0] + pair[1]`. */
  lemma {:induction false} GreedyFromFlatten(w: Word, p: Pair, k: nat)
    requires k <= |w|
    decreases |w| - k
    ensures Flatten(GreedyFrom(w, p, k)) == Flatten(w[k..])
  {
    if k + 1 >= |w| {
    } else if MatchAt(w, p, k) {
      GreedyFromFlatten(w, p, k + 2);
      FlattenConcat([CombinePair(p)], GreedyFrom(w, p, k + 2));
      assert w[k..] == [w[k], w[k + 1]] + w[k + 2..];
      FlattenConcat([w[k], w[k + 1]], w[k + 2..]);
    } else {
      GreedyFromFlatten(w, p, k + 1);
      FlattenConcat([w[k]], GreedyFrom(w, p, k + 1));
      assert w[k..] == [w[k]] + w[k + 1..];
      FlattenConcat([w[k]], w[k + 1..]);
    }
  }

  lemma GreedyFlatten(w: Word, p: Pair)
    ensures Flatten(Greedy(w, p)) == Flatten(w)
  {
    GreedyFromFlatten(w, p, 0);
    assert w[0..] == w;
  }

  lemma NoMatchCons(x: Symbol, rest: Word, p: Pair)
    requires !HasMatch(rest, p)
    requires |rest| == 0 || x != p.0 || rest[0] != p.1
    ensures !HasMatch([x] + rest, p)
  {
    forall i | MatchAt([x] + rest, p, i)
      ensures false
    {
      assert i > 0 ==> MatchAt(rest, p, i - 1);
    }
  }

  /**
   * The pass leaves no occurrence of the pair behind (for non-empty pair
   * symbols), so merging its result again with the same pair gives `None`.
   */
  lemma {:induction false} GreedyFromNoResidual(w: Word, p: Pair, k: nat)
    requires k <= |w|
    requires |p.0| > 0 && |p.1| > 0
    decreases |w| - k
    ensures !HasMatch(GreedyFrom(w, p, k), p)
  {
    if k + 1 >= |w| {
    } else if MatchAt(w, p, k) {
      GreedyFromNoResidual(w, p, k + 2);
      NoMatchCons(CombinePair(p), GreedyFrom(w, p, k + 2), p);
    } else {
      GreedyFromNoResidual(w, p, k + 1);
      GreedyFromHead(w, p, k + 1);
      NoMatchCons(w[k], GreedyFrom(w, p, k + 1), p);
    }
  }

  lemma GreedyNoResidual(w: Word, p: Pair)
    requires |p.0| > 0 && |p.1| > 0
    ensures !HasMatch(Greedy(w, p), p)
  {
    GreedyFromNoResidual(w, p, 0);
  }

  /** A merged symbol is not scanned again: `(a, a, a)` with `(a, a)` gives `(aa, a)`. */
  lemma GreedyOverlap(a: Symbol)
    ensures Greedy([a, a, a], (a, a)) == [a + a, a]
  {
    var w: Word := [a, a, a];
    assert MatchAt(w, (a, a), 0);
    assert GreedyFrom(w, (a, a), 2) == [a];
  }
}
