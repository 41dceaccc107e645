/**
 * `pre_tokenize`, in both variants: a chunk of text is split around the
 * special tokens, every piece is cut into segments by the pre-tokenization
 * pattern, and the per-byte split of every segment is tallied in an
 * insertion-ordered dict.
 */
module PreTokenize {
  import opened ByteStrings
  import opened Dicts

  type Text = seq<char>

  /**
   * The calls into the `regex` library and the UTF-8 codec, left
   * uninterpreted: `re.escape(s)`, `re.split(pattern, s)`,
   * `re.findall(pattern, s)`, and the UTF-8 encoded matches of
   * `re.finditer(PAT, s)` for the fixed pre-tokenization pattern PAT.
   */
  datatype Regex = Regex(
    escape: Text -> Text,
    split: (Text, Text) -> seq<Text>,
    findAll: (Text, Text) -> seq<Text>,
    segments: Text -> seq<seq<Byte>>)

  /** `sep.join(parts)` */
  function Join(parts: seq<Text>, sep: Text): Text
  {
    if |parts| == 0 then []
    else if |parts| == 1 then parts[0]
    else parts[0] + sep + Join(parts[1..], sep)
  }

  /** The segments of every piece, piece after piece. */
  function AllSegments(pieces: seq<Text>, rx: Regex): seq<seq<Byte>>
  {
    if |pieces| == 0 then [] else AllSegments(pieces[..|pieces| - 1], rx) + rx.segments(pieces[|pieces| - 1])
  }

  lemma AllSegmentsSnoc(pieces: seq<Text>, j: nat, rx: Regex)
    requires j < |pieces|
    ensures AllSegments(pieces[..j + 1], rx) == AllSegments(pieces[..j], rx) + rx.segments(pieces[j])
  {
    assert pieces[..j + 1][..j] == pieces[..j];
  }

  lemma ExtendSlice<T>(a: seq<T>, b: seq<T>, k: nat)
    requires k < |b|
    ensures a + b[..k + 1] == (a + b[..k]) + [b[k]]
  {
  }

  /** How many of `ws` split into `key`. */
  function Occurrences(ws: seq<seq<Byte>>, key: Word): nat
  {
    if |ws| == 0 then 0
    else Occurrences(ws[..|ws| - 1], key) + (if SplitBytes(ws[|ws| - 1]) == key then 1 else 0)
  }

  /** A segment of `ws` splits into `key`. */
  ghost predicate SplitOf(ws: seq<seq<Byte>>, key: Word)
  {
    exists i :: 0 <= i < |ws| && SplitBytes(ws[i]) == key
  }

  lemma {:induction false} OccurrencesPositive(ws: seq<seq<Byte>>, key: Word)
    ensures Occurrences(ws, key) > 0 <==> SplitOf(ws, key)
  {
    if |ws| > 0 {
      var init := ws[..|ws| - 1];
      OccurrencesPositive(init, key);
      if SplitOf(init, key) {
        var i :| 0 <= i < |init| && SplitBytes(init[i]) == key;
        assert ws[i] == init[i];
      }
      if SplitOf(ws, key) && SplitBytes(ws[|ws| - 1]) != key {
        var i :| 0 <= i < |ws| && SplitBytes(ws[i]) == key;
        assert init[i] == ws[i];
      }
    }
  }

  // ----- src/utils/tokenizer.py: the counting variant -----

  /** The dict the counting loop builds from the segments `ws`. */
  function Tally(ws: seq<seq<Byte>>): Dict<Word, nat>
  {
    if |ws| == 0 then Empty() else AddTo(Tally(ws[..|ws| - 1]), SplitBytes(ws[|ws| - 1]), 1)
  }

  lemma {:induction false} TallyValid(ws: seq<seq<Byte>>)
    ensures Tally(ws).Valid()
  {
    if |ws| > 0 {
      TallyValid(ws[..|ws| - 1]);
      AddToValid(Tally(ws[..|ws| - 1]), SplitBytes(ws[|ws| - 1]), 1);
    }
  }

  lemma TallySnoc(ws: seq<seq<Byte>>, w: seq<Byte>)
    ensures Tally(ws + [w]) == AddTo(Tally(ws), SplitBytes(w), 1)
  {
    assert (ws + [w])[..|ws|] == ws;
  }

  /** Every key's count is the number of segments that split into it, and only such keys are present. */
  lemma {:induction false} TallyCounts(ws: seq<seq<Byte>>)
    ensures forall key :: key in Tally(ws).vals <==> Occurrences(ws, key) > 0
    ensures forall key :: key in Tally(ws).vals ==> Tally(ws).vals[key] == Occurrences(ws, key)
  {
    if |ws| > 0 {
      TallyCounts(ws[..|ws| - 1]);
    }
  }

  /** The counting dict's keys are the splits of the segments, each with its number of occurrences. */
  lemma TallyMeaning(ws: seq<seq<Byte>>)
    ensures forall key :: key in Tally(ws).vals <==> SplitOf(ws, key)
    ensures forall key :: key in Tally(ws).vals ==> Tally(ws).vals[key] == Occurrences(ws, key)
  {
    TallyCounts(ws);
    forall key | true
      ensures Occurrences(ws, key) > 0 <==> SplitOf(ws, key)
    {
      OccurrencesPositive(ws, key);
    }
  }

  /** The pieces the chunk is split into: the whole chunk when there are no special tokens. */
  function Pieces(chunk: Text, specialTokens: seq<Text>, rx: Regex): seq<Text>
  {
    if |specialTokens| > 0 then rx.split(Join(specialTokens, "|"), chunk) else [chunk]
  }

  /** The body of the counting loop: one more occurrence of the segment's per-byte split. */
  method CountSegment(freqTab: Dict<Word, nat>, w: seq<Byte>) returns (r: Dict<Word, nat>)
    ensures r == AddTo(freqTab, SplitBytes(w), 1)
  {
    var key := SplitBytes(w);
    if key in freqTab.vals {
      r := freqTab.Set(key, freqTab.vals[key] + 1);
    } else {
      r := freqTab.Set(key, 1);
    }
  }

  /** `pre_tokenize(chunk, special_tokens)` of src/utils/tokenizer.py. */
  method PreTokenize(chunk: Text, specialTokens: seq<Text>, rx: Regex) returns (freqTab: Dict<Word, nat>)
    ensures freqTab.Valid()
    ensures freqTab == Tally(AllSegments(Pieces(chunk, specialTokens, rx), rx))
    ensures forall key :: key in freqTab.vals <==> SplitOf(AllSegments(Pieces(chunk, specialTokens, rx), rx), key)
    ensures forall key :: key in freqTab.vals ==>
              freqTab.vals[key] == Occurrences(AllSegments(Pieces(chunk, specialTokens, rx), rx), key)
  {
    var splitData := [chunk];
    if |specialTokens| > 0 {
      splitData := rx.split(Join(specialTokens, "|"), chunk);
    }
    freqTab := Empty();
    for j := 0 to |splitData|
      invariant freqTab == Tally(AllSegments(splitData[..j], rx))
    {
      var preTok := rx.segments(splitData[j]);
      ghost var before := AllSegments(splitData[..j], rx);
      assert before + preTok[..0] == before;
      for k := 0 to |preTok|
        invariant freqTab == Tally(before + preTok[..k])
      {
        ExtendSlice(before, preTok, k);
        TallySnoc(before + preTok[..k], preTok[k]);
        freqTab := CountSegment(freqTab, preTok[k]);
      }
      assert preTok[..|preTok|] == preTok;
      AllSegmentsSnoc(splitData, j, rx);
    }
    assert splitData[..|splitData|] == splitData;
    TallyValid(AllSegments(splitData, rx));
    TallyMeaning(AllSegments(splitData, rx));
  }

  // ----- training/tokenizer/utils.py: the variant that tests the raw bytes -----

  /**
   * The training variant tests `w in freq_tab` with `w` the raw bytes of the
   * segment while the keys are tuples of one-byte strings; a bytes object
   * never equals a tuple, so every segment takes the `freq_tab[key] = 1` branch.
   */
  function TallyOnes(ws: seq<seq<Byte>>): Dict<Word, nat>
  {
    if |ws| == 0 then Empty() else TallyOnes(ws[..|ws| - 1]).Set(SplitBytes(ws[|ws| - 1]), 1)
  }

  lemma {:induction false} TallyOnesValid(ws: seq<seq<Byte>>)
    ensures TallyOnes(ws).Valid()
  {
    if |ws| > 0 {
      TallyOnesValid(ws[..|ws| - 1]);
      TallyOnes(ws[..|ws| - 1]).SetValid(SplitBytes(ws[|ws| - 1]), 1);
    }
  }

  lemma TallyOnesSnoc(ws: seq<seq<Byte>>, w: seq<Byte>)
    ensures TallyOnes(ws + [w]) == TallyOnes(ws).Set(SplitBytes(w), 1)
  {
    assert (ws + [w])[..|ws|] == ws;
  }

  /** The keys are the distinct per-byte splits of the segments, and every count is 1. */
  lemma {:induction false} TallyOnesCounts(ws: seq<seq<Byte>>)
    ensures forall key :: key in TallyOnes(ws).vals <==> Occurrences(ws, key) > 0
    ensures forall key :: key in TallyOnes(ws).vals ==> TallyOnes(ws).vals[key] == 1
  {
    if |ws| > 0 {
      TallyOnesCounts(ws[..|ws| - 1]);
    }
  }

  lemma TallyOnesMeaning(ws: seq<seq<Byte>>)
    ensures forall key :: key in TallyOnes(ws).vals <==> SplitOf(ws, key)
    ensures forall key :: key in TallyOnes(ws).vals ==> TallyOnes(ws).vals[key] == 1
  {
    TallyOnesCounts(ws);
    forall key | true
      ensures Occurrences(ws, key) > 0 <==> SplitOf(ws, key)
    {
      OccurrencesPositive(ws, key);
    }
  }

  /** A segment seen twice is counted once by the training variant and twice by the counting one. */
  lemma TallyOnesUndercounts(w: seq<Byte>)
    ensures TallyOnes([w, w]).vals[SplitBytes(w)] == 1
    ensures Tally([w, w]).vals[SplitBytes(w)] == 2
  {
    TallySnoc([], w);
    TallySnoc([w], w);
    assert [] + [w] == [w] && [w] + [w] == [w, w];
    assert Tally([w]).vals[SplitBytes(w)] == 1;
    TallyOnesSnoc([], w);
    TallyOnesSnoc([w], w);
  }

  /** `pre_tokenize(chunk, special_tokens)` of training/tokenizer/utils.py, which always splits. */
  method TrainingPreTokenize(chunk: Text, specialTokens: seq<Text>, rx: Regex) returns (freqTab: Dict<Word, nat>)
    ensures freqTab.Valid()
    ensures freqTab == TallyOnes(AllSegments(rx.split(Join(specialTokens, "|"), chunk), rx))
    ensures forall key :: key in freqTab.vals <==> SplitOf(AllSegments(rx.split(Join(specialTokens, "|"), chunk), rx), key)
    ensures forall key :: key in freqTab.vals ==> freqTab.vals[key] == 1
  {
    var splitData := rx.split(Join(specialTokens, "|"), chunk);
    freqTab := Empty();
    for j := 0 to |splitData|
      invariant freqTab == TallyOnes(AllSegments(splitData[..j], rx))
    {
      var preTok := rx.segments(splitData[j]);
      ghost var before := AllSegments(splitData[..j], rx);
      assert before + preTok[..0] == before;
      for k := 0 to |preTok|
        invariant freqTab == TallyOnes(before + preTok[..k])
      {
        var key := SplitBytes(preTok[k]);
        ExtendSlice(before, preTok, k);
        TallyOnesSnoc(before + preTok[..k], preTok[k]);
        freqTab := freqTab.Set(key, 1);
      }
      assert preTok[..|preTok|] == preTok;
      AllSegmentsSnoc(splitData, j, rx);
    }
    assert splitData[..|splitData|] == splitData;
    TallyOnesValid(AllSegments(splitData, rx));
    TallyOnesMeaning(AllSegments(splitData, rx));
  }
}
