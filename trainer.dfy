/**
 * `run_train_bpe` of training/tokenizer/bpe.py. The vocabulary starts with
 * the escaped special tokens; the corpus is cut into chunks at the
 * end-of-text marker; every chunk is tallied and the tables are added up;
 * then each round counts the adjacent pairs weighted by word frequency,
 * takes the most frequent pair, records it, and merges it throughout the
 * table with the index-collecting `merge` of training/tokenizer/utils.py.
 */
module Trainer {
  import opened ByteStrings
  import opened Dicts
  import opened Results
  import opened PairUtils
  import opened PreTokenize
  import ChunkBoundaries
  import IndexMerge

  /** A vocabulary entry: an escaped special-token string, or the bytes of a merge. */
  datatype Token = Special(text: Text) | Bytes(bytes: Symbol)

  /** `num_processes`, which is also the number of chunks asked for. */
  const NumProcesses: nat := 8

  /** `"<|endoftext|>".encode("utf-8")` */
  const EndOfText: seq<Byte> := [60, 124, 101, 110, 100, 111, 102, 116, 101, 120, 116, 124, 62]

  /** The ids `0 .. n - 1` in ascending order. */
  function Range(n: nat): (r: seq<int>)
    ensures |r| == n && forall j :: 0 <= j < n ==> r[j] == j
  {
    seq(n, j => j)
  }

  // ----- special tokens (lines 43-47) -----

  /** `list(map(lambda st: re.escape(st), special_tokens))` */
  function Escaped(specialTokens: seq<Text>, rx: Regex): (r: seq<Text>)
    ensures |r| == |specialTokens|
  {
    seq(|specialTokens|, i requires 0 <= i < |specialTokens| => rx.escape(specialTokens[i]))
  }

  /** `for i, special_token in enumerate(special_tokens): vocab[i] = special_token` */
  method SpecialVocab(escaped: seq<Text>) returns (vocab: Dict<int, Token>)
    ensures vocab.Valid()
    ensures vocab.keys == Range(|escaped|)
    ensures forall j :: 0 <= j < |escaped| ==> j in vocab.vals && vocab.vals[j] == Special(escaped[j])
  {
    vocab := Empty();
    for i := 0 to |escaped|
      invariant vocab.Valid()
      invariant vocab.keys == Range(i)
      invariant forall j :: 0 <= j < i ==> j in vocab.vals && vocab.vals[j] == Special(escaped[j])
    {
      vocab.SetValid(i, Special(escaped[i]));
      vocab := vocab.Set(i, Special(escaped[i]));
    }
  }

  // ----- chunking and per-chunk tables (lines 51-62) -----

  /** The byte ranges between consecutive boundaries, each read with `seek`/`read` and decoded. */
  function Chunks(data: seq<Byte>, bounds: seq<int>, decode: seq<Byte> -> Text): (r: seq<Text>)
    requires forall j :: 0 <= j < |bounds| ==> 0 <= bounds[j]
    requires forall j :: 0 <= j < |bounds| - 1 ==> bounds[j] <= bounds[j + 1]
  {
    seq(if |bounds| == 0 then 0 else |bounds| - 1,
        j requires 0 <= j < |bounds| - 1 =>
          decode(ChunkBoundaries.Read(data, bounds[j], bounds[j + 1] - bounds[j])))
  }

  method ReadChunks(data: seq<Byte>, bounds: seq<int>, decode: seq<Byte> -> Text) returns (chunks: seq<Text>)
    requires |bounds| > 0
    requires forall j :: 0 <= j < |bounds| ==> 0 <= bounds[j]
    requires forall j :: 0 <= j < |bounds| - 1 ==> bounds[j] <= bounds[j + 1]
    ensures chunks == Chunks(data, bounds, decode)
  {
    chunks := [];
    ghost var all := Chunks(data, bounds, decode);
    for j := 0 to |bounds| - 1
      invariant chunks == all[..j]
    {
      var start, end := bounds[j], bounds[j + 1];
      chunks := chunks + [decode(ChunkBoundaries.Read(data, start, end - start))];
      assert all[..j + 1] == all[..j] + [all[j]];
    }
    assert all[..|all|] == all;
  }

  /** The table `pre_tokenize` of training/tokenizer/utils.py makes for each chunk. */
  function Tables(chunks: seq<Text>, escaped: seq<Text>, rx: Regex): (r: seq<Dict<Word, nat>>)
    ensures |r| == |chunks|
  {
    seq(|chunks|, j requires 0 <= j < |chunks| =>
      TallyOnes(AllSegments(rx.split(Join(escaped, "|"), chunks[j]), rx)))
  }

  /** Chunk `j`'s table holds exactly the per-byte splits of the chunk's segments, each with count 1. */
  lemma TablesMeaning(chunks: seq<Text>, escaped: seq<Text>, rx: Regex, j: nat)
    requires j < |chunks|
    ensures var ws, tab := AllSegments(rx.split(Join(escaped, "|"), chunks[j]), rx), Tables(chunks, escaped, rx)[j];
      && tab.Valid()
      && (forall key :: key in tab.vals <==> SplitOf(ws, key))
      && (forall key :: key in tab.vals ==> tab.vals[key] == 1)
  {
    TallyOnesValid(AllSegments(rx.split(Join(escaped, "|"), chunks[j]), rx));
    TallyOnesMeaning(AllSegments(rx.split(Join(escaped, "|"), chunks[j]), rx));
  }

  /** `pool.map(partial(pre_tokenize, special_tokens=...), chunks)`, one chunk after another. */
  method PreTokenizeChunks(chunks: seq<Text>, escaped: seq<Text>, rx: Regex) returns (tabs: seq<Dict<Word, nat>>)
    ensures tabs == Tables(chunks, escaped, rx)
    ensures |tabs| == |chunks|
    ensures forall j :: 0 <= j < |tabs| ==> tabs[j].Valid()
    ensures forall j, key :: 0 <= j < |tabs| ==>
              (key in tabs[j].vals <==> SplitOf(AllSegments(rx.split(Join(escaped, "|"), chunks[j]), rx), key))
    ensures forall j, key :: 0 <= j < |tabs| && key in tabs[j].vals ==> tabs[j].vals[key] == 1
  {
    tabs := [];
    ghost var all := Tables(chunks, escaped, rx);
    for j := 0 to |chunks|
      invariant tabs == all[..j]
    {
      var tab := TrainingPreTokenize(chunks[j], escaped, rx);
      tabs := tabs + [tab];
      assert all[..j + 1] == all[..j] + [all[j]];
    }
    assert all[..|chunks|] == all;
    forall j | 0 <= j < |chunks|
      ensures tabs[j].Valid()
      ensures forall key :: key in tabs[j].vals <==> SplitOf(AllSegments(rx.split(Join(escaped, "|"), chunks[j]), rx), key)
      ensures forall key :: key in tabs[j].vals ==> tabs[j].vals[key] == 1
    {
      TablesMeaning(chunks, escaped, rx, j);
    }
  }

  // ----- aggregation (lines 63-67) -----

  /** `freq_tab[k] = freq_tab.get(k, 0) + v` for the keys `ks` of `tab`, in order. */
  function AddEntries(freq: Dict<Word, nat>, tab: Dict<Word, nat>, ks: seq<Word>): Dict<Word, nat>
  {
    if |ks| == 0 then freq
    else
      var k := ks[|ks| - 1];
      var d := AddEntries(freq, tab, ks[..|ks| - 1]);
      d.Set(k, d.Get(k, 0) + tab.Get(k, 0))
  }

  /** The table the aggregation loop builds from the per-chunk tables. */
  function Aggregate(tabs: seq<Dict<Word, nat>>): Dict<Word, nat>
  {
    if |tabs| == 0 then Empty()
    else
      var t := tabs[|tabs| - 1];
      AddEntries(Aggregate(tabs[..|tabs| - 1]), t, t.keys)
  }

  lemma {:induction false} AddEntriesValid(freq: Dict<Word, nat>, tab: Dict<Word, nat>, ks: seq<Word>)
    requires freq.Valid()
    ensures AddEntries(freq, tab, ks).Valid()
  {
    if |ks| > 0 {
      var k := ks[|ks| - 1];
      AddEntriesValid(freq, tab, ks[..|ks| - 1]);
      var d := AddEntries(freq, tab, ks[..|ks| - 1]);
      d.SetValid(k, d.Get(k, 0) + tab.Get(k, 0));
    }
  }

  /** The aggregated table is a well-formed dict. */
  lemma {:induction false} AggregateValid(tabs: seq<Dict<Word, nat>>)
    ensures Aggregate(tabs).Valid()
  {
    if |tabs| > 0 {
      var t := tabs[|tabs| - 1];
      AggregateValid(tabs[..|tabs| - 1]);
      AddEntriesValid(Aggregate(tabs[..|tabs| - 1]), t, t.keys);
    }
  }

  /** The sum of `tab[k]` over the tables that hold `k`. */
  function SumOver(tabs: seq<Dict<Word, nat>>, k: Word): nat
  {
    if |tabs| == 0 then 0 else SumOver(tabs[..|tabs| - 1], k) + tabs[|tabs| - 1].Get(k, 0)
  }

  ghost predicate InSomeTable(tabs: seq<Dict<Word, nat>>, k: Word)
  {
    exists j :: 0 <= j < |tabs| && k in tabs[j].vals
  }

  lemma {:induction false} AddEntriesGet(freq: Dict<Word, nat>, tab: Dict<Word, nat>, ks: seq<Word>, k: Word)
    requires Distinct(ks)
    ensures AddEntries(freq, tab, ks).Get(k, 0) == freq.Get(k, 0) + (if k in ks then tab.Get(k, 0) else 0)
    ensures k in AddEntries(freq, tab, ks).vals <==> k in freq.vals || k in ks
  {
    if |ks| > 0 {
      var pre, last := ks[..|ks| - 1], ks[|ks| - 1];
      assert ks == pre + [last];
      assert forall i :: 0 <= i < |pre| ==> pre[i] == ks[i];
      AddEntriesGet(freq, tab, pre, k);
      if k == last {
        assert last !in pre;
      }
    }
  }

  /** After aggregation every word's count is the sum of its counts in the chunk tables. */
  lemma {:induction false} AggregateSums(tabs: seq<Dict<Word, nat>>, k: Word)
    requires forall j :: 0 <= j < |tabs| ==> tabs[j].Valid()
    ensures Aggregate(tabs).Get(k, 0) == SumOver(tabs, k)
    ensures k in Aggregate(tabs).vals <==> InSomeTable(tabs, k)
  {
    if |tabs| > 0 {
      var pre, t := tabs[..|tabs| - 1], tabs[|tabs| - 1];
      assert forall j :: 0 <= j < |pre| ==> pre[j] == tabs[j];
      AggregateSums(pre, k);
      assert t.Valid();
      assert k in t.keys <==> k in t.vals;
      AddEntriesGet(Aggregate(pre), t, t.keys, k);
      assert InSomeTable(tabs, k) <==> InSomeTable(pre, k) || k in t.vals by {
        if InSomeTable(tabs, k) && k !in t.vals {
          var j :| 0 <= j < |tabs| && k in tabs[j].vals;
          assert j < |pre|;
        }
        if InSomeTable(pre, k) {
          var j :| 0 <= j < |pre| && k in pre[j].vals;
        }
      }
    }
  }

  /** One more entry: the table so far, with `tab`'s count for the next key added in. */
  lemma AddEntriesSnoc(freq: Dict<Word, nat>, tab: Dict<Word, nat>, ks: seq<Word>, n: nat, d: Dict<Word, nat>, v: nat)
    requires n < |ks|
    requires d == AddEntries(freq, tab, ks[..n]) && v == tab.Get(ks[n], 0)
    ensures AddEntries(freq, tab, ks[..n + 1]) == d.Set(ks[n], d.Get(ks[n], 0) + v)
  {
    assert ks[..n + 1][..n] == ks[..n];
  }

  /** The inner aggregation loop, over the entries of one table. */
  method AddTable(freqTab: Dict<Word, nat>, tab: Dict<Word, nat>) returns (r: Dict<Word, nat>)
    requires tab.Valid()
    ensures r == AddEntries(freqTab, tab, tab.keys)
  {
    r := freqTab;
    for n := 0 to |tab.keys|
      invariant r == AddEntries(freqTab, tab, tab.keys[..n])
    {
      var k := tab.keys[n];
      var v := tab.vals[k];
      AddEntriesSnoc(freqTab, tab, tab.keys, n, r, v);
      r := r.Set(k, r.Get(k, 0) + v);
    }
    assert tab.keys[..|tab.keys|] == tab.keys;
  }

  /** The aggregation loop over `process_tabs`. */
  method AggregateTables(tabs: seq<Dict<Word, nat>>) returns (freqTab: Dict<Word, nat>)
    requires forall j :: 0 <= j < |tabs| ==> tabs[j].Valid()
    ensures freqTab == Aggregate(tabs) && freqTab.Valid()
    ensures forall k :: freqTab.Get(k, 0) == SumOver(tabs, k)
    ensures forall k :: k in freqTab.vals <==> InSomeTable(tabs, k)
  {
    freqTab := Empty();
    for j := 0 to |tabs|
      invariant freqTab == Aggregate(tabs[..j])
    {
      assert tabs[..j + 1][..j] == tabs[..j];
      freqTab := AddTable(freqTab, tabs[j]);
    }
    assert tabs[..|tabs|] == tabs;
    AggregateValid(tabs);
    forall k | true
      ensures freqTab.Get(k, 0) == SumOver(tabs, k)
      ensures k in freqTab.vals <==> InSomeTable(tabs, k)
    {
      AggregateSums(tabs, k);
    }
  }

  // ----- pair counting (lines 70-80) -----

  /** `pairs_count[p] += count`, or `= count`, for every pair of `ps` in order. */
  function AddPairs(d: Dict<Pair, nat>, ps: seq<Pair>, c: nat): Dict<Pair, nat>
  {
    if |ps| == 0 then d else AddTo(AddPairs(d, ps[..|ps| - 1], c), ps[|ps| - 1], c)
  }

  /** The pair table the counting loop builds from the words `ws` of a frequency table. */
  function PairCounts(vals: map<Word, nat>, ws: seq<Word>): Dict<Pair, nat>
    requires forall i :: 0 <= i < |ws| ==> ws[i] in vals
  {
    if |ws| == 0 then Empty()
    else
      var w := ws[|ws| - 1];
      AddPairs(PairCounts(vals, ws[..|ws| - 1]), GetAdjPairs(w), vals[w])
  }

  /** How often `p` occurs in `ps`. */
  function PairOccurrences(ps: seq<Pair>, p: Pair): nat
  {
    if |ps| == 0 then 0 else PairOccurrences(ps[..|ps| - 1], p) + (if ps[|ps| - 1] == p then 1 else 0)
  }

  /** The sum over the words of their frequency times the occurrences of `p` among their adjacent pairs. */
  function Weighted(vals: map<Word, nat>, ws: seq<Word>, p: Pair): nat
    requires forall i :: 0 <= i < |ws| ==> ws[i] in vals
  {
    if |ws| == 0 then 0
    else
      var w := ws[|ws| - 1];
      Weighted(vals, ws[..|ws| - 1], p) + vals[w] * PairOccurrences(GetAdjPairs(w), p)
  }

  /** Some word of `ws` has `p` among its adjacent pairs. */
  ghost predicate Adjacent(ws: seq<Word>, p: Pair)
  {
    exists i :: 0 <= i < |ws| && p in GetAdjPairs(ws[i])
  }

  lemma MulSucc(c: nat, n: nat)
    ensures c * (n + 1) == c * n + c
  {
  }

  lemma {:induction false} AddPairsValid(d: Dict<Pair, nat>, ps: seq<Pair>, c: nat)
    requires d.Valid()
    ensures AddPairs(d, ps, c).Valid()
  {
    if |ps| > 0 {
      AddPairsValid(d, ps[..|ps| - 1], c);
      AddToValid(AddPairs(d, ps[..|ps| - 1], c), ps[|ps| - 1], c);
    }
  }

  /** The pair table is a well-formed dict. */
  lemma {:induction false} PairCountsValid(vals: map<Word, nat>, ws: seq<Word>)
    requires forall i :: 0 <= i < |ws| ==> ws[i] in vals
    ensures PairCounts(vals, ws).Valid()
  {
    if |ws| > 0 {
      var w := ws[|ws| - 1];
      PairCountsValid(vals, ws[..|ws| - 1]);
      AddPairsValid(PairCounts(vals, ws[..|ws| - 1]), GetAdjPairs(w), vals[w]);
    }
  }

  lemma {:induction false} AddPairsGet(d: Dict<Pair, nat>, ps: seq<Pair>, c: nat, p: Pair)
    ensures AddPairs(d, ps, c).Get(p, 0) == d.Get(p, 0) + c * PairOccurrences(ps, p)
    ensures p in AddPairs(d, ps, c).vals <==> p in d.vals || p in ps
  {
    if |ps| > 0 {
      var pre, last := ps[..|ps| - 1], ps[|ps| - 1];
      assert ps == pre + [last];
      AddPairsGet(d, pre, c, p);
      AddToGet(AddPairs(d, pre, c), last, c, p);
      var n := PairOccurrences(pre, p);
      if last == p {
        assert PairOccurrences(ps, p) == n + 1;
        MulSucc(c, n);
      } else {
        assert PairOccurrences(ps, p) == n;
      }
    }
  }

  /** Every pair's count is its occurrences weighted by word frequency; the pairs present are exactly the adjacent ones. */
  lemma {:induction false} PairCountsWeighted(vals: map<Word, nat>, ws: seq<Word>, p: Pair)
    requires forall i :: 0 <= i < |ws| ==> ws[i] in vals
    ensures PairCounts(vals, ws).Get(p, 0) == Weighted(vals, ws, p)
    ensures p in PairCounts(vals, ws).vals <==> Adjacent(ws, p)
  {
    if |ws| > 0 {
      var pre, w := ws[..|ws| - 1], ws[|ws| - 1];
      PairCountsWeighted(vals, pre, p);
      AddPairsGet(PairCounts(vals, pre), GetAdjPairs(w), vals[w], p);
      if Adjacent(ws, p) && p !in GetAdjPairs(w) {
        var i :| 0 <= i < |ws| && p in GetAdjPairs(ws[i]);
        assert pre[i] == ws[i];
      }
      if Adjacent(pre, p) {
        var i :| 0 <= i < |pre| && p in GetAdjPairs(pre[i]);
        assert ws[i] == pre[i];
      }
    }
  }

  /** The pair table is empty exactly when every word has fewer than two symbols. */
  lemma NoPairsIffShort(vals: map<Word, nat>, ws: seq<Word>)
    requires forall i :: 0 <= i < |ws| ==> ws[i] in vals
    ensures |PairCounts(vals, ws).keys| == 0 <==> forall i :: 0 <= i < |ws| ==> |ws[i]| < 2
  {
    var r := PairCounts(vals, ws);
    PairCountsValid(vals, ws);
    if i :| 0 <= i < |ws| && |ws[i]| >= 2 {
      var p := GetAdjPairs(ws[i])[0];
      PairCountsWeighted(vals, ws, p);
      assert p in r.vals;
      assert p in r.keys;
    }
    if |r.keys| > 0 {
      var p := r.keys[0];
      PairCountsWeighted(vals, ws, p);
      var i :| 0 <= i < |ws| && p in GetAdjPairs(ws[i]);
      assert |ws[i]| >= 2;
    }
  }

  /** The pair-counting loop over the frequency table. */
  method CountPairs(freqTab: Dict<Word, nat>) returns (pairsCount: Dict<Pair, nat>)
    requires freqTab.Valid()
    ensures pairsCount == PairCounts(freqTab.vals, freqTab.keys) && pairsCount.Valid()
    ensures forall p :: pairsCount.Get(p, 0) == Weighted(freqTab.vals, freqTab.keys, p)
    ensures forall p :: p in pairsCount.vals <==> Adjacent(freqTab.keys, p)
  {
    var words := freqTab.keys;
    pairsCount := Empty();
    for n := 0 to |words|
      invariant pairsCount == PairCounts(freqTab.vals, words[..n])
    {
      var byteSeq := words[n];
      var count := freqTab.vals[byteSeq];
      var adjPairs := GetAdjPairs(byteSeq);
      PairCountsSnoc(freqTab.vals, words, n);
      pairsCount := AddWordPairs(pairsCount, adjPairs, count);
    }
    assert words[..|words|] == words;
    PairCountsValid(freqTab.vals, words);
    PairCountsMeaning(freqTab.vals, words);
  }

  /** The inner counting loop, over the adjacent pairs of one word. */
  method AddWordPairs(pairsCount: Dict<Pair, nat>, adjPairs: seq<Pair>, count: nat) returns (r: Dict<Pair, nat>)
    ensures r == AddPairs(pairsCount, adjPairs, count)
  {
    r := pairsCount;
    for m := 0 to |adjPairs|
      invariant r == AddPairs(pairsCount, adjPairs[..m], count)
    {
      assert adjPairs[..m + 1][..m] == adjPairs[..m];
      if adjPairs[m] in r.vals {
        r := r.Set(adjPairs[m], r.vals[adjPairs[m]] + count);
      } else {
        r := r.Set(adjPairs[m], count);
      }
    }
    assert adjPairs[..|adjPairs|] == adjPairs;
  }

  lemma PairCountsSnoc(vals: map<Word, nat>, ws: seq<Word>, n: nat)
    requires n < |ws| && forall i :: 0 <= i < |ws| ==> ws[i] in vals
    ensures PairCounts(vals, ws[..n + 1]) == AddPairs(PairCounts(vals, ws[..n]), GetAdjPairs(ws[n]), vals[ws[n]])
  {
    assert ws[..n + 1][..n] == ws[..n];
  }

  /** The pair table holds every adjacent pair of the words, with its weighted count. */
  lemma PairCountsMeaning(vals: map<Word, nat>, ws: seq<Word>)
    requires forall i :: 0 <= i < |ws| ==> ws[i] in vals
    ensures forall p :: PairCounts(vals, ws).Get(p, 0) == Weighted(vals, ws, p)
    ensures forall p :: p in PairCounts(vals, ws).vals <==> Adjacent(ws, p)
  {
    forall p | true
      ensures PairCounts(vals, ws).Get(p, 0) == Weighted(vals, ws, p)
      ensures p in PairCounts(vals, ws).vals <==> Adjacent(ws, p)
    {
      PairCountsWeighted(vals, ws, p);
    }
  }


  // ----- rewriting the table (lines 85-89) -----

  /**
   * `freq_tab[merged_word] = freq_tab.pop(w)` when `merge(w, pair)` gives a
   * non-empty tuple; the merged word's previous count, if any, is overwritten.
   */
  ghost function Rewrite(d: Dict<Word, nat>, w: Word, p: Pair): Dict<Word, nat>
  {
    if w in d.vals && HasMatch(w, p) && |IndexMerge.IndexMerged(w, p)| > 0 then
      var (c, rest) := d.Pop(w);
      rest.Set(IndexMerge.IndexMerged(w, p), c)
    else d
  }

  /** The rewrite of the table for the snapshot `ws` of its keys. */
  ghost function RewriteAll(d: Dict<Word, nat>, ws: seq<Word>, p: Pair): Dict<Word, nat>
  {
    if |ws| == 0 then d else Rewrite(RewriteAll(d, ws[..|ws| - 1], p), ws[|ws| - 1], p)
  }

  lemma RewriteValid(d: Dict<Word, nat>, w: Word, p: Pair)
    requires d.Valid()
    ensures Rewrite(d, w, p).Valid()
  {
    if w in d.vals && HasMatch(w, p) && |IndexMerge.IndexMerged(w, p)| > 0 {
      d.PopValid(w);
      d.Pop(w).1.SetValid(IndexMerge.IndexMerged(w, p), d.vals[w]);
    }
  }

  /** The rewritten table is a well-formed dict. */
  lemma {:induction false} RewriteAllValid(d: Dict<Word, nat>, ws: seq<Word>, p: Pair)
    requires d.Valid()
    ensures RewriteAll(d, ws, p).Valid()
  {
    if |ws| > 0 {
      RewriteAllValid(d, ws[..|ws| - 1], p);
      RewriteValid(RewriteAll(d, ws[..|ws| - 1], p), ws[|ws| - 1], p);
    }
  }

  /** A word of `ws` with a match merges into `x`. */
  ghost predicate MergedFrom(ws: seq<Word>, p: Pair, x: Word)
  {
    exists i :: 0 <= i < |ws| && HasMatch(ws[i], p) && x == IndexMerge.IndexMerged(ws[i], p)
  }

  /** A word with a match leaves the table, and its count moves to the merged word, replacing what was there. */
  lemma RewriteStep(d: Dict<Word, nat>, w: Word, p: Pair)
    requires w in d.vals && HasMatch(w, p)
    ensures var r, m := Rewrite(d, w, p), IndexMerge.IndexMerged(w, p);
      && w !in r.vals
      && m in r.vals && r.vals[m] == d.vals[w]
      && forall x :: x != w && x != m ==> (x in r.vals <==> x in d.vals) && (x in d.vals ==> r.vals[x] == d.vals[x])
  {
    IndexMerge.IndexMergeShorter(w, p);
  }

  /** Every key after the rewrite is an old word without a match, an old word not yet visited, or a merged word. */
  lemma {:induction false} RewriteAllKeys(d: Dict<Word, nat>, ws: seq<Word>, p: Pair)
    ensures forall x :: x in RewriteAll(d, ws, p).vals ==>
              (x in d.vals && (!HasMatch(x, p) || x !in ws)) || MergedFrom(ws, p, x)
  {
    if |ws| > 0 {
      var pre, w := ws[..|ws| - 1], ws[|ws| - 1];
      assert ws == pre + [w];
      RewriteAllKeys(d, pre, p);
      var before := RewriteAll(d, pre, p);
      forall x | x in RewriteAll(d, ws, p).vals
        ensures (x in d.vals && (!HasMatch(x, p) || x !in ws)) || MergedFrom(ws, p, x)
      {
        if MergedFrom(pre, p, x) {
          var i :| 0 <= i < |pre| && HasMatch(pre[i], p) && x == IndexMerge.IndexMerged(pre[i], p);
          assert ws[i] == pre[i];
        } else if w in before.vals && HasMatch(w, p) {
          RewriteStep(before, w, p);
          if x == IndexMerge.IndexMerged(w, p) {
            assert ws[|ws| - 1] == w;
          }
        }
      }
    }
  }

  /** An old word without a match that no word merges into keeps its key and its count. */
  lemma {:induction false} RewriteAllUnmatched(d: Dict<Word, nat>, ws: seq<Word>, p: Pair, x: Word)
    requires x in d.vals && !HasMatch(x, p) && !MergedFrom(ws, p, x)
    ensures x in RewriteAll(d, ws, p).vals && RewriteAll(d, ws, p).vals[x] == d.vals[x]
  {
    if |ws| > 0 {
      var pre, w := ws[..|ws| - 1], ws[|ws| - 1];
      RewriteAllUnmatched(d, pre, p, x);
      var before := RewriteAll(d, pre, p);
      if w in before.vals && HasMatch(w, p) {
        RewriteStep(before, w, p);
        assert x != IndexMerge.IndexMerged(w, p) by {
          assert ws[|ws| - 1] == w;
        }
      }
    }
  }

  /** An old word without a match is still a key after the rewrite. */
  lemma {:induction false} RewriteAllKeepsUnmatched(d: Dict<Word, nat>, ws: seq<Word>, p: Pair, x: Word)
    requires x in d.vals && !HasMatch(x, p)
    ensures x in RewriteAll(d, ws, p).vals
  {
    if |ws| > 0 {
      var pre, w := ws[..|ws| - 1], ws[|ws| - 1];
      RewriteAllKeepsUnmatched(d, pre, p, x);
      var before := RewriteAll(d, pre, p);
      if w in before.vals && HasMatch(w, p) {
        RewriteStep(before, w, p);
      }
    }
  }

  /** The merging loop over `list(freq_tab.keys())`. */
  method MergeTable(freqTab: Dict<Word, nat>, pair: Pair) returns (r: Dict<Word, nat>)
    requires freqTab.Valid()
    ensures r == RewriteAll(freqTab, freqTab.keys, pair) && r.Valid()
    ensures forall x :: x in r.vals ==> (x in freqTab.vals && !HasMatch(x, pair)) || MergedFrom(freqTab.keys, pair, x)
    ensures forall x :: x in freqTab.vals && !HasMatch(x, pair) ==> x in r.vals
    ensures forall x :: x in freqTab.vals && !HasMatch(x, pair) && !MergedFrom(freqTab.keys, pair, x) ==>
              r.vals[x] == freqTab.vals[x]
  {
    var words := freqTab.keys;
    r := freqTab;
    for n := 0 to |words|
      invariant r == RewriteAll(freqTab, words[..n], pair)
      invariant forall j :: n <= j < |words| ==> words[j] in r.vals
    {
      var w := words[n];
      assert words[..n + 1][..n] == words[..n];
      var mergedWord := IndexMerge.Merge(w, pair);
      if mergedWord.Some? && |mergedWord.value| > 0 {
        var (c, rest) := r.Pop(w);
        r := rest.Set(mergedWord.value, c);
      }
    }
    assert words[..|words|] == words;
    RewriteAllValid(freqTab, words, pair);
    RewriteAllKeys(freqTab, words, pair);
    forall x | x in freqTab.vals && !HasMatch(x, pair)
      ensures x in r.vals
      ensures !MergedFrom(words, pair, x) ==> r.vals[x] == freqTab.vals[x]
    {
      RewriteAllKeepsUnmatched(freqTab, words, pair, x);
      if !MergedFrom(words, pair, x) {
        RewriteAllUnmatched(freqTab, words, pair, x);
      }
    }
  }

  // ----- the training loop (lines 69-90) -----

  /**
   * The merges the loop records from round `i` on, for the frequency table
   * `freqTab` at the start of that round; `max()` of an empty pair table
   * raises, and nothing stops the loop early.
   */
  ghost function TrainFrom(freqTab: Dict<Word, nat>, i: int, vocabSize: int): Result<seq<Pair>>
    requires freqTab.Valid()
    decreases vocabSize - i
  {
    if i >= vocabSize then Success([])
    else
      PairCountsValid(freqTab.vals, freqTab.keys);
      match GetMostFreqPair(PairCounts(freqTab.vals, freqTab.keys))
      case Failure(e) => Failure(e)
      case Success(p) =>
        RewriteAllValid(freqTab, freqTab.keys, p);
        match TrainFrom(RewriteAll(freqTab, freqTab.keys, p), i + 1, vocabSize)
        case Failure(e) => Failure(e)
        case Success(ms) => Success([p] + ms)
  }

  /** The frequency table after the merges `ms`, one round each. */
  ghost function TableAfter(freqTab: Dict<Word, nat>, ms: seq<Pair>): Dict<Word, nat>
    decreases |ms|
  {
    if |ms| == 0 then freqTab else TableAfter(RewriteAll(freqTab, freqTab.keys, ms[0]), ms[1..])
  }

  lemma {:induction false} TableAfterValid(freqTab: Dict<Word, nat>, ms: seq<Pair>)
    requires freqTab.Valid()
    decreases |ms|
    ensures TableAfter(freqTab, ms).Valid()
  {
    if |ms| > 0 {
      RewriteAllValid(freqTab, freqTab.keys, ms[0]);
      TableAfterValid(RewriteAll(freqTab, freqTab.keys, ms[0]), ms[1..]);
    }
  }

  /** Training fails only by `max()` of an empty table, and otherwise records one merge per remaining id. */
  lemma {:induction false} TrainFromShape(freqTab: Dict<Word, nat>, i: int, vocabSize: int)
    requires freqTab.Valid()
    decreases vocabSize - i
    ensures TrainFrom(freqTab, i, vocabSize).Failure? ==> TrainFrom(freqTab, i, vocabSize).error == EmptyMaxError
    ensures TrainFrom(freqTab, i, vocabSize).Success? ==>
              |TrainFrom(freqTab, i, vocabSize).value| == if vocabSize > i then vocabSize - i else 0
  {
    if i < vocabSize {
      PairCountsValid(freqTab.vals, freqTab.keys);
      var best := GetMostFreqPair(PairCounts(freqTab.vals, freqTab.keys));
      if best.Success? {
        RewriteAllValid(freqTab, freqTab.keys, best.value);
        TrainFromShape(RewriteAll(freqTab, freqTab.keys, best.value), i + 1, vocabSize);
      }
    }
  }

  /** Every recorded merge is the most frequent pair of the table as it stood in its round. */
  lemma {:induction false} TrainFromMostFrequent(freqTab: Dict<Word, nat>, i: int, vocabSize: int, j: nat)
    requires freqTab.Valid()
    requires TrainFrom(freqTab, i, vocabSize).Success? && j < |TrainFrom(freqTab, i, vocabSize).value|
    decreases vocabSize - i
    ensures var ms := TrainFrom(freqTab, i, vocabSize).value;
            var t := TableAfter(freqTab, ms[..j]);
            t.Valid() && IsMostFrequent(PairCounts(t.vals, t.keys).vals, ms[j])
  {
    var ms := TrainFrom(freqTab, i, vocabSize).value;
    PairCountsValid(freqTab.vals, freqTab.keys);
    var p := GetMostFreqPair(PairCounts(freqTab.vals, freqTab.keys)).value;
    RewriteAllValid(freqTab, freqTab.keys, p);
    var next := RewriteAll(freqTab, freqTab.keys, p);
    assert ms == [p] + TrainFrom(next, i + 1, vocabSize).value;
    if j > 0 {
      TrainFromMostFrequent(next, i + 1, vocabSize, j - 1);
      assert ms[..j][0] == p && ms[..j][1..] == ms[1..][..j - 1];
    } else {
      assert ms[..j] == [];
      TableAfterValid(freqTab, []);
      GetMostFreqPairIsMostFrequent(PairCounts(freqTab.vals, freqTab.keys));
    }
  }

  /** Once every word is shorter than two symbols, a round that is still due raises. */
  lemma TrainFromRaises(freqTab: Dict<Word, nat>, i: int, vocabSize: int)
    requires freqTab.Valid()
    requires i < vocabSize
    requires forall j :: 0 <= j < |freqTab.keys| ==> |freqTab.keys[j]| < 2
    ensures TrainFrom(freqTab, i, vocabSize) == Failure(EmptyMaxError)
  {
    NoPairsIffShort(freqTab.vals, freqTab.keys);
    PairCountsValid(freqTab.vals, freqTab.keys);
  }

  /** `merges` followed by the rest of the training run, or its exception. */
  function Then(merges: seq<Pair>, rest: Result<seq<Pair>>): Result<seq<Pair>>
  {
    match rest
    case Failure(e) => Failure(e)
    case Success(ms) => Success(merges + ms)
  }

  /** One round: count the pairs, pick the best, and merge it throughout the table. */
  method Round(freqTab: Dict<Word, nat>) returns (best: Result<Pair>, next: Dict<Word, nat>)
    requires freqTab.Valid()
    ensures PairCounts(freqTab.vals, freqTab.keys).Valid()
    ensures best == GetMostFreqPair(PairCounts(freqTab.vals, freqTab.keys))
    ensures best.Success? ==> next == RewriteAll(freqTab, freqTab.keys, best.value) && next.Valid()
  {
    var pairsCount := CountPairs(freqTab);
    best := GetMostFreqPair(pairsCount);
    next := freqTab;
    if best.Success? {
      next := MergeTable(freqTab, best.value);
    }
  }

  /** The table the merge loop starts from: chunk, pre-tokenize and aggregate. */
  ghost function InitialTable(data: seq<Byte>, escaped: seq<Text>, rx: Regex, decode: seq<Byte> -> Text): (r: Dict<Word, nat>)
    ensures r.Valid()
  {
    var bounds := ChunkBoundaries.SortedSet(ChunkBoundaries.Planned(data, NumProcesses, EndOfText));
    ChunkBoundaries.PlanIsBoundaryList(data, NumProcesses, EndOfText);
    BoundsAscend(bounds);
    AggregateValid(Tables(Chunks(data, bounds, decode), escaped, rx));
    Aggregate(Tables(Chunks(data, bounds, decode), escaped, rx))
  }

  /** Lines 51-67: chunk the corpus, pre-tokenize every chunk, and add the tables up. */
  method CountWords(data: seq<Byte>, escaped: seq<Text>, rx: Regex, decode: seq<Byte> -> Text)
    returns (freqTab: Dict<Word, nat>)
    ensures freqTab == InitialTable(data, escaped, rx, decode)
  {
    var boundaries := ChunkBoundaries.FindChunkBoundaries(data, NumProcesses, EndOfText);
    var bounds := boundaries.value;
    BoundsAscend(bounds);
    var chunks := ReadChunks(data, bounds, decode);
    var processTabs := PreTokenizeChunks(chunks, escaped, rx);
    freqTab := AggregateTables(processTabs);
  }

  lemma BoundsAscend(bounds: seq<int>)
    requires 0 < |bounds| && bounds[0] == 0 && ChunkBoundaries.StrictlyIncreasing(bounds)
    ensures forall j :: 0 <= j < |bounds| ==> 0 <= bounds[j]
    ensures forall j :: 0 <= j < |bounds| - 1 ==> bounds[j] <= bounds[j + 1]
  {
    forall j | 0 < j < |bounds|
      ensures bounds[0] < bounds[j]
    {
    }
  }

  /**
   * The vocabulary holds ids `0 .. n - 1`: the escaped special tokens first,
   * in input order, then the concatenation of each merge in creation order.
   */
  ghost predicate VocabLayout(vocab: Dict<int, Token>, escaped: seq<Text>, merges: seq<Pair>, n: int)
  {
    && vocab.Valid()
    && vocab.keys == Range(if n > |escaped| then n else |escaped|)
    && (forall j :: 0 <= j < |escaped| ==> j in vocab.vals && vocab.vals[j] == Special(escaped[j]))
    && (forall id :: |escaped| <= id < |escaped| + |merges| ==>
          id in vocab.vals && vocab.vals[id] == Bytes(CombinePair(merges[id - |escaped|])))
  }

  /** `merges.append(p); vocab[i] = combine_pair(p)` keeps the layout, one id further. */
  lemma VocabLayoutStep(vocab: Dict<int, Token>, escaped: seq<Text>, merges: seq<Pair>, i: int, p: Pair)
    requires VocabLayout(vocab, escaped, merges, i)
    requires |escaped| <= i && |merges| == i - |escaped|
    ensures VocabLayout(vocab.Set(i, Bytes(CombinePair(p))), escaped, merges + [p], i + 1)
  {
    var v, ms := vocab.Set(i, Bytes(CombinePair(p))), merges + [p];
    vocab.SetValid(i, Bytes(CombinePair(p)));
    assert vocab.keys == Range(i);
    assert i !in vocab.keys;
    assert v.keys == Range(i + 1);
    assert v.Valid();
    forall j | 0 <= j < |escaped|
      ensures j in v.vals && v.vals[j] == Special(escaped[j])
    {
      assert j != i;
    }
    forall id | |escaped| <= id < |escaped| + |ms|
      ensures id in v.vals && v.vals[id] == Bytes(CombinePair(ms[id - |escaped|]))
    {
      if id < i {
        assert ms[id - |escaped|] == merges[id - |escaped|];
      }
    }
    assert VocabLayout(v, escaped, ms, i + 1);
  }

  /** `merges.append(p); vocab[i] = combine_pair(p)` */
  method AddMerge(vocab: Dict<int, Token>, merges: seq<Pair>, escaped: seq<Text>, i: int, p: Pair)
    returns (vocab': Dict<int, Token>, merges': seq<Pair>)
    requires VocabLayout(vocab, escaped, merges, i)
    requires |escaped| <= i && |merges| == i - |escaped|
    ensures merges' == merges + [p]
    ensures VocabLayout(vocab', escaped, merges', i + 1)
  {
    VocabLayoutStep(vocab, escaped, merges, i, p);
    merges' := merges + [p];
    vocab' := vocab.Set(i, Bytes(CombinePair(p)));
  }

  /** The vocabulary before any round: the special tokens only. */
  lemma VocabLayoutStart(vocab: Dict<int, Token>, escaped: seq<Text>)
    requires vocab.Valid() && vocab.keys == Range(|escaped|)
    requires forall j :: 0 <= j < |escaped| ==> j in vocab.vals && vocab.vals[j] == Special(escaped[j])
    ensures VocabLayout(vocab, escaped, [], |escaped|)
  {
  }

  /** A round whose pair table has a most frequent pair records it and goes on from the rewritten table. */
  lemma TrainFromStep(freqTab: Dict<Word, nat>, i: int, vocabSize: int, merges: seq<Pair>, p: Pair)
    requires freqTab.Valid() && i < vocabSize
    requires PairCounts(freqTab.vals, freqTab.keys).Valid()
    requires GetMostFreqPair(PairCounts(freqTab.vals, freqTab.keys)) == Success(p)
    requires RewriteAll(freqTab, freqTab.keys, p).Valid()
    ensures Then(merges, TrainFrom(freqTab, i, vocabSize))
         == Then(merges + [p], TrainFrom(RewriteAll(freqTab, freqTab.keys, p), i + 1, vocabSize))
  {
    match TrainFrom(RewriteAll(freqTab, freqTab.keys, p), i + 1, vocabSize)
    case Failure(e) =>
    case Success(ms) =>
      assert merges + ([p] + ms) == (merges + [p]) + ms;
  }

  /**
   * The state of the merge loop at round `i`: `vocab` and `merges` hold the
   * rounds done so far, and `run`, the whole training run, is those merges
   * followed by what the remaining rounds give from `freqTab`.
   */
  ghost predicate LoopState(run: Result<seq<Pair>>, vocab: Dict<int, Token>, merges: seq<Pair>,
                            freqTab: Dict<Word, nat>, escaped: seq<Text>, i: int, vocabSize: int)
  {
    && |escaped| <= i && |merges| == i - |escaped|
    && (i <= vocabSize || i == |escaped|)
    && freqTab.Valid()
    && run == Then(merges, TrainFrom(freqTab, i, vocabSize))
    && VocabLayout(vocab, escaped, merges, i)
  }

  /** One pass of the loop body: `None` when the round completed, or the exception it raised. */
  method TrainRound(ghost run: Result<seq<Pair>>, vocab: Dict<int, Token>, merges: seq<Pair>,
                    freqTab: Dict<Word, nat>, escaped: seq<Text>, i: int, vocabSize: int)
    returns (raised: Option<Error>, vocab': Dict<int, Token>, merges': seq<Pair>, freqTab': Dict<Word, nat>)
    requires LoopState(run, vocab, merges, freqTab, escaped, i, vocabSize) && i < vocabSize
    ensures raised.Some? ==> run == Failure(raised.value)
    ensures raised.None? ==> LoopState(run, vocab', merges', freqTab', escaped, i + 1, vocabSize)
  {
    var best, next := Round(freqTab);
    if best.Failure? {
      return Some(best.error), vocab, merges, freqTab;
    }
    var mostFreqPair := best.value;
    TrainFromStep(freqTab, i, vocabSize, merges, mostFreqPair);
    vocab', merges' := AddMerge(vocab, merges, escaped, i, mostFreqPair);
    return None, vocab', merges', next;
  }

  /** Before the first round nothing is recorded, and the run is all still to come. */
  lemma LoopStart(run: Result<seq<Pair>>, vocab: Dict<int, Token>, freqTab: Dict<Word, nat>, escaped: seq<Text>, vocabSize: int)
    requires freqTab.Valid() && VocabLayout(vocab, escaped, [], |escaped|)
    requires run == TrainFrom(freqTab, |escaped|, vocabSize)
    ensures LoopState(run, vocab, [], freqTab, escaped, |escaped|, vocabSize)
  {
    match run
    case Failure(e) =>
    case Success(ms) =>
      assert [] + ms == ms;
  }

  /** Once the rounds run out, the run is exactly the recorded merges. */
  lemma LoopEnd(run: Result<seq<Pair>>, vocab: Dict<int, Token>, merges: seq<Pair>,
                freqTab: Dict<Word, nat>, escaped: seq<Text>, i: int, vocabSize: int)
    requires LoopState(run, vocab, merges, freqTab, escaped, i, vocabSize) && i >= vocabSize
    ensures run == Success(merges) && VocabLayout(vocab, escaped, merges, vocabSize)
  {
    assert merges + [] == merges;
  }

  /**
   * What the merge loop reports for the training run `run`: its exception,
   * or its merges together with the vocabulary they fill in.
   */
  ghost predicate Reports(r: Result<(Dict<int, Token>, seq<Pair>)>, run: Result<seq<Pair>>, escaped: seq<Text>, vocabSize: int)
  {
    && (r.Failure? <==> run.Failure?)
    && (r.Failure? ==> r.error == run.error)
    && (r.Success? ==> r.value.1 == run.value && VocabLayout(r.value.0, escaped, r.value.1, vocabSize))
  }

  /** The merges recorded by the loop from round `|escaped|` on, with the vocabulary entries they add. */
  method MergeLoop(freqTab0: Dict<Word, nat>, vocab0: Dict<int, Token>, escaped: seq<Text>, vocabSize: int)
    returns (r: Result<(Dict<int, Token>, seq<Pair>)>)
    requires freqTab0.Valid()
    requires VocabLayout(vocab0, escaped, [], |escaped|)
    ensures Reports(r, TrainFrom(freqTab0, |escaped|, vocabSize), escaped, vocabSize)
  {
    var vocab, merges := vocab0, [];
    var freqTab := freqTab0;
    var i := |escaped|;
    ghost var run := TrainFrom(freqTab0, i, vocabSize);
    LoopStart(run, vocab, freqTab, escaped, vocabSize);
    while i < vocabSize
      invariant LoopState(run, vocab, merges, freqTab, escaped, i, vocabSize)
      decreases vocabSize - i
    {
      var raised;
      raised, vocab, merges, freqTab := TrainRound(run, vocab, merges, freqTab, escaped, i, vocabSize);
      if raised.Some? {
        return Failure(raised.value);
      }
      i := i + 1;
    }
    LoopEnd(run, vocab, merges, freqTab, escaped, i, vocabSize);
    return Success((vocab, merges));
  }

  /**
   * `run_train_bpe` over the corpus `data`: the vocabulary and the merges,
   * or the exception of a round whose pair table is empty.
   */
  method RunTrainBpe(data: seq<Byte>, vocabSize: int, specialTokens: seq<Text>, rx: Regex, decode: seq<Byte> -> Text)
    returns (r: Result<(Dict<int, Token>, seq<Pair>)>)
    ensures var run := TrainFrom(InitialTable(data, Escaped(specialTokens, rx), rx, decode), |specialTokens|, vocabSize);
            && (r.Failure? <==> run.Failure?)
            && (r.Failure? ==> r.error == run.error)
            && (r.Success? ==> r.value.1 == run.value)
    ensures r.Success? ==> VocabLayout(r.value.0, Escaped(specialTokens, rx), r.value.1, vocabSize)
  {
    var escaped := Escaped(specialTokens, rx);
    var vocab := SpecialVocab(escaped);
    VocabLayoutStart(vocab, escaped);
    var freqTab := CountWords(data, escaped, rx, decode);
    r := MergeLoop(freqTab, vocab, escaped, vocabSize);
  }
}
