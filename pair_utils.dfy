/**
 * The helpers shared, word for word, by src/utils/tokenizer.py and
 * training/tokenizer/utils.py: adjacent pairs, the most frequent pair,
 * pair concatenation and index removal.
 */
module PairUtils {
  import opened ByteStrings
  import opened Dicts
  import opened Results

  /** `get_adj_pairs`: the pairs `zip(sequence, sequence[1:])`. */
  function GetAdjPairs(s: Word): (r: seq<Pair>)
    ensures |r| == if |s| == 0 then 0 else |s| - 1
    ensures forall k :: 0 <= k < |r| ==> r[k] == (s[k], s[k + 1])
  {
    if |s| < 2 then [] else [(s[0], s[1])] + GetAdjPairs(s[1..])
  }

  /** `word[i] == pair[0] and word[i + 1] == pair[1]` */
  predicate MatchAt(w: Word, p: Pair, i: int)
  {
    0 <= i < |w| - 1 && w[i] == p.0 && w[i + 1] == p.1
  }

  ghost predicate HasMatch(w: Word, p: Pair)
  {
    exists i :: MatchAt(w, p, i)
  }

  /** Some occurrence of the pair starts before position `k`. */
  ghost predicate MatchBefore(w: Word, p: Pair, k: int)
  {
    exists i :: 0 <= i < k && MatchAt(w, p, i)
  }

  /** `combine_pair`: `b''.join(pair)`, the first symbol followed by the second. */
  function CombinePair(p: Pair): (r: Symbol)
    ensures |r| == |p.0| + |p.1|
    ensures r[..|p.0|] == p.0 && r[|p.0|..] == p.1
  {
    p.0 + p.1
  }

  /** The positions `k .. n-1` that are not listed in `indices`, in increasing order. */
  function Kept(n: nat, indices: seq<int>, k: nat): seq<nat>
    requires k <= n
    decreases n - k
  {
    if k == n then []
    else
      var rest := Kept(n, indices, k + 1);
      if k in indices then rest else [k] + rest
  }

  /** The kept positions lie in `k .. n-1`, are exactly those not listed, and ascend. */
  lemma {:induction false} KeptPositions(n: nat, indices: seq<int>, k: nat)
    requires k <= n
    decreases n - k
    ensures forall j :: 0 <= j < |Kept(n, indices, k)| ==> k <= Kept(n, indices, k)[j] < n
    ensures forall i :: k <= i < n ==> (i in Kept(n, indices, k) <==> i !in indices)
    ensures forall i, j :: 0 <= i < j < |Kept(n, indices, k)| ==> Kept(n, indices, k)[i] < Kept(n, indices, k)[j]
  {
    if k < n {
      KeptPositions(n, indices, k + 1);
    }
  }

  /** `[lst[i] for i in range(k, len(lst)) if i not in indices_set]` */
  function RemoveFrom<T>(lst: seq<T>, indices: seq<int>, k: nat): seq<T>
    requires k <= |lst|
    decreases |lst| - k
  {
    if k == |lst| then []
    else if k in indices then RemoveFrom(lst, indices, k + 1)
    else [lst[k]] + RemoveFrom(lst, indices, k + 1)
  }

  /**
   * `remove_indices`: the elements of `lst` at the positions not listed in
   * `indices`, in their original order.
   */
  function RemoveIndices<T>(lst: seq<T>, indices: seq<int>): seq<T>
  {
    RemoveFrom(lst, indices, 0)
  }

  /** The elements kept from position `k` on are those at the kept positions, in order. */
  lemma {:induction false} RemoveFromKept<T>(lst: seq<T>, indices: seq<int>, k: nat)
    requires k <= |lst|
    decreases |lst| - k
    ensures |RemoveFrom(lst, indices, k)| == |Kept(|lst|, indices, k)|
    ensures forall j :: 0 <= j < |RemoveFrom(lst, indices, k)| ==>
              Kept(|lst|, indices, k)[j] < |lst| && RemoveFrom(lst, indices, k)[j] == lst[Kept(|lst|, indices, k)[j]]
  {
    if k < |lst| {
      RemoveFromKept(lst, indices, k + 1);
      var rest, kept := RemoveFrom(lst, indices, k + 1), Kept(|lst|, indices, k + 1);
      if k !in indices {
        assert RemoveFrom(lst, indices, k) == [lst[k]] + rest;
        assert Kept(|lst|, indices, k) == [k] + kept;
        forall j | 0 < j <= |rest|
          ensures ([k] + kept)[j] < |lst| && ([lst[k]] + rest)[j] == lst[([k] + kept)[j]]
        {
          assert ([lst[k]] + rest)[j] == rest[j - 1];
        }
      }
    }
  }

  /** `remove_indices` keeps exactly the elements at the positions not listed, in order. */
  lemma RemoveIndicesKept<T>(lst: seq<T>, indices: seq<int>)
    ensures |RemoveIndices(lst, indices)| == |Kept(|lst|, indices, 0)|
    ensures forall j :: 0 <= j < |RemoveIndices(lst, indices)| ==>
              Kept(|lst|, indices, 0)[j] < |lst| && RemoveIndices(lst, indices)[j] == lst[Kept(|lst|, indices, 0)[j]]
  {
    RemoveFromKept(lst, indices, 0);
  }

  /**
   * What `get_most_freq_pair` promises: `p` is a key with the largest count,
   * and no other key with that count is greater in the tuple order.
   */
  ghost predicate IsMostFrequent(counts: map<Pair, nat>, p: Pair)
  {
    && p in counts
    && (forall q :: q in counts ==> counts[q] <= counts[p])
    && (forall q :: q in counts && counts[q] == counts[p] ==> !PairLess(p, q))
  }

  /** The most frequent pair of a table is unique, so the choice is deterministic. */
  lemma MostFrequentUnique(counts: map<Pair, nat>, p: Pair, q: Pair)
    requires IsMostFrequent(counts, p) && IsMostFrequent(counts, q)
    ensures p == q
  {
    PairLessTotal(p, q);
  }

  /** `max(pair_count.values())` over the keys in dict order. */
  function MaxCount(keys: seq<Pair>, vals: map<Pair, nat>): nat
    requires |keys| > 0 && forall i :: 0 <= i < |keys| ==> keys[i] in vals
  {
    if |keys| == 1 then vals[keys[0]]
    else
      var rest := MaxCount(keys[1..], vals);
      if vals[keys[0]] >= rest then vals[keys[0]] else rest
  }

  /** `max` returns one of the counts, and no count exceeds it. */
  lemma {:induction false} MaxCountIsMax(keys: seq<Pair>, vals: map<Pair, nat>)
    requires |keys| > 0 && forall i :: 0 <= i < |keys| ==> keys[i] in vals
    ensures exists i :: 0 <= i < |keys| && vals[keys[i]] == MaxCount(keys, vals)
    ensures forall i :: 0 <= i < |keys| ==> vals[keys[i]] <= MaxCount(keys, vals)
  {
    if |keys| > 1 {
      MaxCountIsMax(keys[1..], vals);
      var j :| 0 <= j < |keys[1..]| && vals[keys[1..][j]] == MaxCount(keys[1..], vals);
      if vals[keys[0]] < MaxCount(keys[1..], vals) {
        assert vals[keys[j + 1]] == MaxCount(keys, vals);
      } else {
        assert vals[keys[0]] == MaxCount(keys, vals);
      }
      forall i | 1 <= i < |keys|
        ensures vals[keys[i]] <= MaxCount(keys, vals)
      {
        assert keys[i] == keys[1..][i - 1];
      }
    } else {
      assert vals[keys[0]] == MaxCount(keys, vals);
    }
  }

  /** `[key for key, val in pair_count.items() if val == max_val]` */
  function KeysWithCount(keys: seq<Pair>, vals: map<Pair, nat>, m: nat): seq<Pair>
    requires forall i :: 0 <= i < |keys| ==> keys[i] in vals
  {
    if |keys| == 0 then []
    else if vals[keys[0]] == m then [keys[0]] + KeysWithCount(keys[1..], vals, m)
    else KeysWithCount(keys[1..], vals, m)
  }

  /** The list comprehension keeps exactly the keys whose count is `m`. */
  lemma {:induction false} KeysWithCountMembers(keys: seq<Pair>, vals: map<Pair, nat>, m: nat)
    requires forall i :: 0 <= i < |keys| ==> keys[i] in vals
    ensures forall p :: p in KeysWithCount(keys, vals, m) <==> p in keys && vals[p] == m
  {
    if |keys| > 0 {
      KeysWithCountMembers(keys[1..], vals, m);
      assert forall p :: p in keys <==> p == keys[0] || p in keys[1..];
    }
  }

  /** Python's `max(ps)`: keeps the running maximum, replacing it by each greater item. */
  function MaxPair(ps: seq<Pair>): Pair
    requires |ps| > 0
  {
    if |ps| == 1 then ps[0]
    else
      var m := MaxPair(ps[..|ps| - 1]);
      var last := ps[|ps| - 1];
      if PairLess(m, last) then last else m
  }

  /** `max` returns an item that no item exceeds. */
  lemma {:induction false} MaxPairIsMax(ps: seq<Pair>)
    requires |ps| > 0
    ensures MaxPair(ps) in ps
    ensures forall i :: 0 <= i < |ps| ==> !PairLess(MaxPair(ps), ps[i])
  {
    if |ps| == 1 {
      PairLessIrreflexive(ps[0]);
    } else {
      var init := ps[..|ps| - 1];
      MaxPairIsMax(init);
      var m := MaxPair(init);
      var last := ps[|ps| - 1];
      assert forall i :: 0 <= i < |ps| - 1 ==> init[i] == ps[i];
      if PairLess(m, last) {
        PairLessIrreflexive(last);
        forall i | 0 <= i < |ps| - 1 && PairLess(last, ps[i])
          ensures false
        {
          PairLessTransitive(m, last, ps[i]);
        }
      }
    }
  }

  /**
   * `get_most_freq_pair`: the pair with the largest count, ties broken in
   * favour of the greatest pair; `max()` of an empty table raises.
   */
  function GetMostFreqPair(pairCount: Dict<Pair, nat>): (r: Result<Pair>)
    requires pairCount.Valid()
    ensures r.Failure? <==> |pairCount.keys| == 0
    ensures r.Failure? ==> r.error == EmptyMaxError
  {
    if |pairCount.keys| == 0 then Failure(EmptyMaxError)
    else
      var maxVal := MaxCount(pairCount.keys, pairCount.vals);
      var best := KeysWithCount(pairCount.keys, pairCount.vals, maxVal);
      MaxCountIsMax(pairCount.keys, pairCount.vals);
      KeysWithCountMembers(pairCount.keys, pairCount.vals, maxVal);
      assert |best| > 0 by {
        var i :| 0 <= i < |pairCount.keys| && pairCount.vals[pairCount.keys[i]] == maxVal;
        assert pairCount.keys[i] in best;
      }
      Success(MaxPair(best))
  }

  /** The pair `get_most_freq_pair` picks from a non-empty table is its most frequent pair. */
  lemma GetMostFreqPairIsMostFrequent(pairCount: Dict<Pair, nat>)
    requires pairCount.Valid() && |pairCount.keys| > 0
    ensures IsMostFrequent(pairCount.vals, GetMostFreqPair(pairCount).value)
  {
    var maxVal := MaxCount(pairCount.keys, pairCount.vals);
    var best := KeysWithCount(pairCount.keys, pairCount.vals, maxVal);
    MaxCountIsMax(pairCount.keys, pairCount.vals);
    KeysWithCountMembers(pairCount.keys, pairCount.vals, maxVal);
    MaxPairIsMax(best);
    assert forall q :: q in pairCount.vals && pairCount.vals[q] == maxVal ==> q in best;
  }
}
