/**
 * `BPETokenizer` of src/models/tokenizer/bpe_tokenizer.py. Encoding splits
 * the text around the special tokens and cuts every piece into pre-tokens;
 * the bytes of a pre-token are split into single bytes, the merges are
 * applied in list order with the greedy `merge` of src/utils/tokenizer.py,
 * and every resulting symbol is looked up in the vocabulary by value.
 * Decoding looks every id up and joins the entries.
 */
module Tokenizer {
  import opened ByteStrings
  import opened Dicts
  import opened Results
  import opened PairUtils
  import opened PreTokenize
  import GreedyMerge
  import Trainer

  /** A vocabulary entry or a pre-token: a `str` (special token) or `bytes`. */
  type Token = Trainer.Token

  // ----- _get_key (lines 10-11) -----

  /** `k` is a key of the map and its value is `v`. */
  predicate MapsTo<K, V(==)>(vals: map<K, V>, k: K, v: V)
  {
    k in vals && vals[k] == v
  }

  /** The first of `keys` that maps to `target`, if any. */
  function FirstKey<K, V(==)>(keys: seq<K>, vals: map<K, V>, target: V): Option<K>
  {
    if |keys| == 0 then None
    else if MapsTo(vals, keys[0], target) then Some(keys[0])
    else FirstKey(keys[1..], vals, target)
  }

  /** `_get_key(d, target_value)`: the reverse lookup, a linear scan in insertion order. */
  function GetKey<V(==)>(d: Dict<int, V>, target: V): Option<int>
  {
    FirstKey(d.keys, d.vals, target)
  }

  lemma {:induction false} FirstKeyIsFirst<K, V>(keys: seq<K>, vals: map<K, V>, target: V)
    ensures FirstKey(keys, vals, target).None? <==> forall i :: 0 <= i < |keys| ==> !MapsTo(vals, keys[i], target)
    ensures FirstKey(keys, vals, target).Some? ==>
              exists i :: 0 <= i < |keys| && keys[i] == FirstKey(keys, vals, target).value
                && MapsTo(vals, keys[i], target)
                && forall j :: 0 <= j < i ==> !MapsTo(vals, keys[j], target)
  {
    if |keys| > 0 {
      var rest := keys[1..];
      FirstKeyIsFirst(rest, vals, target);
      if MapsTo(vals, keys[0], target) {
        assert keys[0] == FirstKey(keys, vals, target).value;
      } else if FirstKey(rest, vals, target).Some? {
        var i :| 0 <= i < |rest| && rest[i] == FirstKey(rest, vals, target).value
                 && MapsTo(vals, rest[i], target)
                 && forall j :: 0 <= j < i ==> !MapsTo(vals, rest[j], target);
        assert keys[i + 1] == rest[i];
        forall j | 0 <= j < i + 1
          ensures !MapsTo(vals, keys[j], target)
        {
          if j > 0 {
            assert keys[j] == rest[j - 1];
          }
        }
      } else {
        forall i | 0 <= i < |keys|
          ensures !MapsTo(vals, keys[i], target)
        {
          if i > 0 {
            assert keys[i] == rest[i - 1];
          }
        }
      }
    }
  }

  /**
   * `_get_key` gives None exactly when no key has the value; otherwise it gives
   * a key holding the value, and no key inserted before it holds it.
   */
  lemma GetKeyMeaning<V>(d: Dict<int, V>, target: V)
    requires d.Valid()
    ensures GetKey(d, target).None? <==> forall k :: k in d.vals ==> d.vals[k] != target
    ensures GetKey(d, target).Some? ==>
              MapsTo(d.vals, GetKey(d, target).value, target)
              && exists i :: 0 <= i < |d.keys| && d.keys[i] == GetKey(d, target).value
                   && forall j :: 0 <= j < i ==> !MapsTo(d.vals, d.keys[j], target)
  {
    FirstKeyIsFirst(d.keys, d.vals, target);
    if GetKey(d, target).None? {
      forall k | k in d.vals
        ensures d.vals[k] != target
      {
        assert k in d.keys;
        var i :| 0 <= i < |d.keys| && d.keys[i] == k;
        assert !MapsTo(d.vals, d.keys[i], target);
      }
    } else {
      var i :| 0 <= i < |d.keys| && d.keys[i] == GetKey(d, target).value && MapsTo(d.vals, d.keys[i], target);
      assert d.vals[d.keys[i]] == target;
    }
  }

  // ----- _pre_tokenize (lines 44-60) -----

  /** `"|".join(map(re.escape, special_tokens))` */
  function Pattern(specialTokens: seq<Text>, rx: Regex): Text
  {
    Join(Trainer.Escaped(specialTokens, rx), "|")
  }

  /** `split_chunk`: the pieces between special tokens, or the chunk alone without any. */
  function SplitChunk(chunk: Text, specialTokens: seq<Text>, rx: Regex): seq<Text>
  {
    if |specialTokens| > 0 then rx.split(Pattern(specialTokens, rx), chunk) else [chunk]
  }

  /** `special_tokens_found`, with None read as the empty list: only its truth value and items are used. */
  function Found(chunk: Text, specialTokens: seq<Text>, rx: Regex): seq<Text>
  {
    if |specialTokens| > 0 then rx.findAll(Pattern(specialTokens, rx), chunk) else []
  }

  /** The byte segments as pre-tokens. */
  function AsBytes(segs: seq<seq<Byte>>): seq<Token>
  {
    seq(|segs|, i requires 0 <= i < |segs| => Trainer.Bytes(segs[i]))
  }

  /**
   * `pre_tokens` once the first `n` pieces have been handled: each piece's
   * segments, then the special token found after it unless it is the last
   * piece; an IndexError when `found` is non-empty but runs out.
   */
  function Interleaved(pieces: seq<Text>, found: seq<Text>, rx: Regex, n: nat): Result<seq<Token>>
    requires n <= |pieces|
  {
    if n == 0 then Success([])
    else
      match Interleaved(pieces, found, rx, n - 1)
      case Failure(e) => Failure(e)
      case Success(acc) =>
        var withSegments := acc + AsBytes(rx.segments(pieces[n - 1]));
        if |found| > 0 && n - 1 < |pieces| - 1 then
          if n - 1 < |found| then Success(withSegments + [Trainer.Special(found[n - 1])])
          else Failure(IndexError)
        else Success(withSegments)
  }

  /** What `_pre_tokenize(chunk)` returns or raises. */
  function PreTokens(chunk: Text, specialTokens: seq<Text>, rx: Regex): Result<seq<Token>>
  {
    var pieces := SplitChunk(chunk, specialTokens, rx);
    Interleaved(pieces, Found(chunk, specialTokens, rx), rx, |pieces|)
  }

  lemma {:induction false} InterleavedFailureStays(pieces: seq<Text>, found: seq<Text>, rx: Regex, n: nat, m: nat)
    requires n <= m <= |pieces|
    requires Interleaved(pieces, found, rx, n).Failure?
    decreases m - n
    ensures Interleaved(pieces, found, rx, m) == Interleaved(pieces, found, rx, n)
  {
    if n < m {
      InterleavedFailureStays(pieces, found, rx, n, m - 1);
    }
  }

  /** The byte segments among the pre-tokens, in order. */
  function BytesOf(ts: seq<Token>): seq<seq<Byte>>
  {
    if |ts| == 0 then []
    else BytesOf(ts[..|ts| - 1]) + (if ts[|ts| - 1].Bytes? then [ts[|ts| - 1].bytes] else [])
  }

  /** The special tokens among the pre-tokens, in order. */
  function SpecialsOf(ts: seq<Token>): seq<Text>
  {
    if |ts| == 0 then []
    else SpecialsOf(ts[..|ts| - 1]) + (if ts[|ts| - 1].Special? then [ts[|ts| - 1].text] else [])
  }

  lemma {:induction false} BytesOfConcat(a: seq<Token>, b: seq<Token>)
    ensures BytesOf(a + b) == BytesOf(a) + BytesOf(b)
  {
    if |b| == 0 {
      assert a + b == a;
    } else {
      var init, last := b[..|b| - 1], b[|b| - 1];
      BytesOfConcat(a, init);
      assert (a + b)[..|a + b| - 1] == a + init;
      assert (a + b)[|a + b| - 1] == last;
    }
  }

  lemma {:induction false} SpecialsOfConcat(a: seq<Token>, b: seq<Token>)
    ensures SpecialsOf(a + b) == SpecialsOf(a) + SpecialsOf(b)
  {
    if |b| == 0 {
      assert a + b == a;
    } else {
      var init, last := b[..|b| - 1], b[|b| - 1];
      SpecialsOfConcat(a, init);
      assert (a + b)[..|a + b| - 1] == a + init;
      assert (a + b)[|a + b| - 1] == last;
    }
  }

  /** The filters of one round of the loop: a piece's segments, then perhaps a special token. */
  lemma FiltersRound(acc: seq<Token>, segs: seq<seq<Byte>>, marker: Text)
    ensures BytesOf(acc + AsBytes(segs)) == BytesOf(acc) + segs
    ensures SpecialsOf(acc + AsBytes(segs)) == SpecialsOf(acc)
    ensures BytesOf(acc + AsBytes(segs) + [Trainer.Special(marker)]) == BytesOf(acc) + segs
    ensures SpecialsOf(acc + AsBytes(segs) + [Trainer.Special(marker)]) == SpecialsOf(acc) + [marker]
  {
    FiltersAsBytes(segs);
    BytesOfConcat(acc, AsBytes(segs));
    SpecialsOfConcat(acc, AsBytes(segs));
    var withSegments := acc + AsBytes(segs);
    assert (withSegments + [Trainer.Special(marker)])[..|withSegments|] == withSegments;
  }

  lemma {:induction false} FiltersAsBytes(segs: seq<seq<Byte>>)
    ensures BytesOf(AsBytes(segs)) == segs
    ensures SpecialsOf(AsBytes(segs)) == []
  {
    if |segs| > 0 {
      var init := segs[..|segs| - 1];
      FiltersAsBytes(init);
      assert AsBytes(segs)[..|segs| - 1] == AsBytes(init);
    }
  }

  /** How many special tokens the first `n` of `m` pieces are followed by. */
  function MarkerCount(n: nat, m: nat): nat
  {
    if n == m && n > 0 then n - 1 else n
  }

  lemma SliceSnoc<T>(s: seq<T>, k: nat)
    requires k < |s|
    ensures s[..k] + [s[k]] == s[..k + 1]
  {
  }

  /** `_pre_tokenize` raises exactly when some special token was found but fewer than one per gap between pieces. */
  lemma {:induction false} InterleavedRaises(pieces: seq<Text>, found: seq<Text>, rx: Regex, n: nat)
    requires n <= |pieces|
    ensures Interleaved(pieces, found, rx, n).Failure? <==> 0 < |found| < MarkerCount(n, |pieces|)
    ensures Interleaved(pieces, found, rx, n).Failure? ==> Interleaved(pieces, found, rx, n).error == IndexError
  {
    if n > 0 {
      InterleavedRaises(pieces, found, rx, n - 1);
      assert MarkerCount(n - 1, |pieces|) == n - 1;
      if n < |pieces| {
        assert MarkerCount(n, |pieces|) == n;
      } else {
        assert MarkerCount(n, |pieces|) == n - 1;
      }
    }
  }

  /** The pre-tokens after `n` pieces extend those after `n - 1` by the piece's segments and perhaps a special token. */
  lemma InterleavedStep(pieces: seq<Text>, found: seq<Text>, rx: Regex, n: nat)
    requires 0 < n <= |pieces|
    requires Interleaved(pieces, found, rx, n).Success?
    ensures Interleaved(pieces, found, rx, n - 1).Success?
    ensures |found| > 0 && n - 1 < |pieces| - 1 ==> n - 1 < |found|
    ensures Interleaved(pieces, found, rx, n).value
            == Interleaved(pieces, found, rx, n - 1).value + AsBytes(rx.segments(pieces[n - 1]))
               + (if |found| > 0 && n - 1 < |pieces| - 1 then [Trainer.Special(found[n - 1])] else [])
  {
  }

  /** When `_pre_tokenize` returns, its byte pre-tokens are the segments of the pieces in order. */
  lemma {:induction false} InterleavedBytes(pieces: seq<Text>, found: seq<Text>, rx: Regex, n: nat)
    requires n <= |pieces|
    requires Interleaved(pieces, found, rx, n).Success?
    ensures BytesOf(Interleaved(pieces, found, rx, n).value) == AllSegments(pieces[..n], rx)
  {
    if n > 0 {
      InterleavedStep(pieces, found, rx, n);
      InterleavedBytes(pieces, found, rx, n - 1);
      AllSegmentsSnoc(pieces, n - 1, rx);
      var prev := Interleaved(pieces, found, rx, n - 1).value;
      var segs := rx.segments(pieces[n - 1]);
      if |found| > 0 && n - 1 < |pieces| - 1 {
        FiltersRound(prev, segs, found[n - 1]);
      } else {
        FiltersRound(prev, segs, []);
        assert prev + AsBytes(segs) + [] == prev + AsBytes(segs);
      }
    }
  }

  /**
   * When `_pre_tokenize` returns, its `str` pre-tokens are the found special
   * tokens, one after every piece but the last.
   */
  lemma {:induction false} InterleavedSpecials(pieces: seq<Text>, found: seq<Text>, rx: Regex, n: nat)
    requires n <= |pieces|
    requires Interleaved(pieces, found, rx, n).Success?
    ensures |found| > 0 ==> MarkerCount(n, |pieces|) <= |found|
    ensures SpecialsOf(Interleaved(pieces, found, rx, n).value)
            == if |found| == 0 then [] else found[..MarkerCount(n, |pieces|)]
  {
    InterleavedRaises(pieces, found, rx, n);
    if n > 0 {
      InterleavedStep(pieces, found, rx, n);
      InterleavedSpecials(pieces, found, rx, n - 1);
      var prev := Interleaved(pieces, found, rx, n - 1).value;
      var segs := rx.segments(pieces[n - 1]);
      if |found| > 0 && n - 1 < |pieces| - 1 {
        FiltersRound(prev, segs, found[n - 1]);
        assert MarkerCount(n, |pieces|) == n && MarkerCount(n - 1, |pieces|) == n - 1;
        SliceSnoc(found, n - 1);
      } else {
        FiltersRound(prev, segs, []);
        assert prev + AsBytes(segs) + [] == prev + AsBytes(segs);
        assert |found| > 0 ==> MarkerCount(n, |pieces|) == MarkerCount(n - 1, |pieces|);
      }
    }
  }

  /** Without special tokens `_pre_tokenize` returns only bytes: the segments of the whole chunk. */
  lemma PreTokensWithoutSpecials(chunk: Text, rx: Regex)
    ensures PreTokens(chunk, [], rx) == Success(AsBytes(rx.segments(chunk)))
  {
    assert SplitChunk(chunk, [], rx) == [chunk];
    assert Interleaved([chunk], [], rx, 0) == Success([]);
    assert [] + AsBytes(rx.segments(chunk)) == AsBytes(rx.segments(chunk));
  }

  // ----- encode (lines 21-34) -----

  /** One merge of `encode`: the merged tuple, or the tuple itself when `merge` gives None. */
  ghost function MergeStep(t: Word, m: Pair): Word
  {
    if HasMatch(t, m) then GreedyMerge.Greedy(t, m) else t
  }

  /** The tuple after the merges `ms`, applied in list order. */
  ghost function ApplyMerges(t: Word, ms: seq<Pair>): Word
  {
    if |ms| == 0 then t else MergeStep(ApplyMerges(t, ms[..|ms| - 1]), ms[|ms| - 1])
  }

  /** Merging never changes the bytes the tuple spells. */
  lemma {:induction false} ApplyMergesFlatten(t: Word, ms: seq<Pair>)
    ensures Flatten(ApplyMerges(t, ms)) == Flatten(t)
  {
    if |ms| > 0 {
      ApplyMergesFlatten(t, ms[..|ms| - 1]);
      GreedyMerge.GreedyFlatten(ApplyMerges(t, ms[..|ms| - 1]), ms[|ms| - 1]);
    }
  }

  /** Merging never lengthens the tuple and never empties it. */
  lemma {:induction false} ApplyMergesLength(t: Word, ms: seq<Pair>)
    ensures |ApplyMerges(t, ms)| <= |t|
    ensures |t| > 0 ==> |ApplyMerges(t, ms)| > 0
  {
    if |ms| > 0 {
      ApplyMergesLength(t, ms[..|ms| - 1]);
      var u := ApplyMerges(t, ms[..|ms| - 1]);
      if HasMatch(u, ms[|ms| - 1]) {
        GreedyMerge.GreedyShorter(u, ms[|ms| - 1]);
      }
    }
  }

  /** `list(map(lambda x: _get_key(self.vocab, x), t))` */
  function Lookups(vocab: Dict<int, Token>, t: Word): seq<Option<int>>
  {
    seq(|t|, i requires 0 <= i < |t| => GetKey(vocab, Trainer.Bytes(t[i])))
  }

  /** The ids one pre-token contributes to `token_ids`. */
  ghost function PreTokenIds(vocab: Dict<int, Token>, merges: seq<Pair>, specialTokens: seq<Text>, pt: Token): seq<Option<int>>
  {
    match pt
    case Bytes(b) => Lookups(vocab, ApplyMerges(SplitBytes(b), merges))
    case Special(s) => if s in specialTokens then [GetKey(vocab, pt)] else []
  }

  /** `token_ids` after the pre-tokens `pts`. */
  ghost function EncodeIds(vocab: Dict<int, Token>, merges: seq<Pair>, specialTokens: seq<Text>, pts: seq<Token>): seq<Option<int>>
  {
    if |pts| == 0 then []
    else EncodeIds(vocab, merges, specialTokens, pts[..|pts| - 1])
         + PreTokenIds(vocab, merges, specialTokens, pts[|pts| - 1])
  }

  /**
   * A non-empty bytes pre-token gives between one id and one id per byte; a
   * special token gives its one lookup; any other `str` gives nothing.
   */
  lemma PreTokenIdsCount(vocab: Dict<int, Token>, merges: seq<Pair>, specialTokens: seq<Text>, pt: Token)
    ensures pt.Bytes? ==> |PreTokenIds(vocab, merges, specialTokens, pt)| <= |pt.bytes|
    ensures pt.Bytes? && |pt.bytes| > 0 ==> |PreTokenIds(vocab, merges, specialTokens, pt)| >= 1
    ensures pt.Special? && pt.text in specialTokens ==> PreTokenIds(vocab, merges, specialTokens, pt) == [GetKey(vocab, pt)]
    ensures pt.Special? && pt.text !in specialTokens ==> PreTokenIds(vocab, merges, specialTokens, pt) == []
  {
    if pt.Bytes? {
      FlattenSplitBytes(pt.bytes);
      ApplyMergesLength(SplitBytes(pt.bytes), merges);
    }
  }

  /** No id is None. */
  ghost predicate AllFound(ids: seq<Option<int>>)
  {
    forall i :: 0 <= i < |ids| ==> ids[i].Some?
  }

  /** Decoding at the byte level: every id must name a bytes entry, and their bytes are joined. */
  function ByteDecode(vocab: Dict<int, Token>, ids: seq<Option<int>>): Option<seq<Byte>>
  {
    if |ids| == 0 then Some([])
    else
      var last := ids[|ids| - 1];
      match ByteDecode(vocab, ids[..|ids| - 1])
      case None => None
      case Some(init) =>
        if last.Some? && last.value in vocab.vals && vocab.vals[last.value].Bytes?
        then Some(init + vocab.vals[last.value].bytes)
        else None
  }

  lemma {:induction false} ByteDecodeConcat(vocab: Dict<int, Token>, a: seq<Option<int>>, b: seq<Option<int>>)
    ensures ByteDecode(vocab, a + b)
            == if ByteDecode(vocab, a).Some? && ByteDecode(vocab, b).Some?
               then Some(ByteDecode(vocab, a).value + ByteDecode(vocab, b).value)
               else None
  {
    if |b| == 0 {
      assert a + b == a;
      if ByteDecode(vocab, a).Some? {
        assert ByteDecode(vocab, a).value + [] == ByteDecode(vocab, a).value;
      }
    } else {
      var init, last := b[..|b| - 1], b[|b| - 1];
      ByteDecodeConcat(vocab, a, init);
      assert (a + b)[..|a + b| - 1] == a + init;
      assert (a + b)[|a + b| - 1] == last;
      var ok := last.Some? && last.value in vocab.vals && vocab.vals[last.value].Bytes?;
      assert ByteDecode(vocab, b)
             == if ByteDecode(vocab, init).Some? && ok
                then Some(ByteDecode(vocab, init).value + vocab.vals[last.value].bytes) else None;
      assert ByteDecode(vocab, a + b)
             == if ByteDecode(vocab, a + init).Some? && ok
                then Some(ByteDecode(vocab, a + init).value + vocab.vals[last.value].bytes) else None;
      if ByteDecode(vocab, a).Some? && ByteDecode(vocab, b).Some? {
        var x, y, z := ByteDecode(vocab, a).value, ByteDecode(vocab, init).value, vocab.vals[last.value].bytes;
        assert (x + y) + z == x + (y + z);
      }
    }
  }

  /** Looking the symbols up by value and decoding the ids gives back the bytes they spell. */
  lemma {:induction false} LookupsRoundTrip(vocab: Dict<int, Token>, t: Word)
    requires AllFound(Lookups(vocab, t))
    ensures ByteDecode(vocab, Lookups(vocab, t)) == Some(Flatten(t))
  {
    if |t| > 0 {
      var rest := t[1..];
      assert Lookups(vocab, t) == [Lookups(vocab, t)[0]] + Lookups(vocab, rest);
      assert AllFound(Lookups(vocab, rest)) by {
        forall i | 0 <= i < |Lookups(vocab, rest)|
          ensures Lookups(vocab, rest)[i].Some?
        {
          assert Lookups(vocab, rest)[i] == Lookups(vocab, t)[i + 1];
        }
      }
      LookupsRoundTrip(vocab, rest);
      var id := Lookups(vocab, t)[0];
      FirstKeyIsFirst(vocab.keys, vocab.vals, Trainer.Bytes(t[0]));
      assert MapsTo(vocab.vals, id.value, Trainer.Bytes(t[0]));
      assert [id][..0] == [];
      assert ByteDecode(vocab, [id]) == Some([] + t[0]);
      ByteDecodeConcat(vocab, [id], Lookups(vocab, rest));
      assert ByteDecode(vocab, Lookups(vocab, t)) == Some(([] + t[0]) + Flatten(rest));
      assert [] + t[0] == t[0];
      assert Flatten(t) == t[0] + Flatten(rest);
    } else {
      assert Lookups(vocab, t) == [];
    }
  }

  lemma AllFoundConcat(a: seq<Option<int>>, b: seq<Option<int>>)
    requires AllFound(a + b)
    ensures AllFound(a) && AllFound(b)
  {
    assert forall i :: 0 <= i < |a| ==> a[i] == (a + b)[i];
    assert forall i :: 0 <= i < |b| ==> b[i] == (a + b)[|a| + i];
  }

  /**
   * For bytes pre-tokens whose symbols are all found in the vocabulary,
   * decoding the ids at the byte level gives back the pre-tokens' bytes.
   */
  lemma {:induction false} EncodeRoundTrip(vocab: Dict<int, Token>, merges: seq<Pair>, specialTokens: seq<Text>, pts: seq<Token>)
    requires forall i :: 0 <= i < |pts| ==> pts[i].Bytes?
    requires AllFound(EncodeIds(vocab, merges, specialTokens, pts))
    ensures ByteDecode(vocab, EncodeIds(vocab, merges, specialTokens, pts)) == Some(Flatten(BytesOf(pts)))
  {
    if |pts| > 0 {
      var init, last := pts[..|pts| - 1], pts[|pts| - 1];
      var a, b := EncodeIds(vocab, merges, specialTokens, init), PreTokenIds(vocab, merges, specialTokens, last);
      assert EncodeIds(vocab, merges, specialTokens, pts) == a + b;
      AllFoundConcat(a, b);
      EncodeRoundTrip(vocab, merges, specialTokens, init);
      var t := ApplyMerges(SplitBytes(last.bytes), merges);
      assert b == Lookups(vocab, t);
      LookupsRoundTrip(vocab, t);
      ApplyMergesFlatten(SplitBytes(last.bytes), merges);
      FlattenSplitBytes(last.bytes);
      ByteDecodeConcat(vocab, a, b);
      assert BytesOf(pts) == BytesOf(init) + [last.bytes];
      FlattenConcat(BytesOf(init), [last.bytes]);
      assert Flatten([last.bytes]) == last.bytes + [];
      assert last.bytes + [] == last.bytes;
    } else {
      assert EncodeIds(vocab, merges, specialTokens, pts) == [];
    }
  }

  // ----- decode (lines 36-43) -----

  /** `vocab[tok]`, decoded when it is bytes: a KeyError for an unknown id. */
  function DecodeOne(vocab: Dict<int, Token>, tok: int, utf8: seq<Byte> -> Option<Text>): Result<Text>
  {
    if tok !in vocab.vals then Failure(KeyError(tok))
    else
      match vocab.vals[tok]
      case Special(s) => Success(s)
      case Bytes(b) => if utf8(b).Some? then Success(utf8(b).value) else Failure(UnicodeDecodeError)
  }

  /** The first failure of the two, or both texts joined. */
  function Chain(x: Result<Text>, y: Result<Text>): Result<Text>
  {
    if x.Failure? then x else if y.Failure? then y else Success(x.value + y.value)
  }

  lemma ChainAssociative(x: Result<Text>, y: Result<Text>, z: Result<Text>)
    ensures Chain(x, Chain(y, z)) == Chain(Chain(x, y), z)
  {
    if x.Success? && y.Success? && z.Success? {
      assert x.value + (y.value + z.value) == (x.value + y.value) + z.value;
    }
  }

  /** What `decode(tokens)` returns or raises. */
  function DecodeText(vocab: Dict<int, Token>, tokens: seq<int>, utf8: seq<Byte> -> Option<Text>): Result<Text>
  {
    if |tokens| == 0 then Success([])
    else Chain(DecodeOne(vocab, tokens[0], utf8), DecodeText(vocab, tokens[1..], utf8))
  }

  /** Decoding a concatenation decodes the parts in order and joins them. */
  lemma {:induction false} DecodeConcat(vocab: Dict<int, Token>, a: seq<int>, b: seq<int>, utf8: seq<Byte> -> Option<Text>)
    ensures DecodeText(vocab, a + b, utf8) == Chain(DecodeText(vocab, a, utf8), DecodeText(vocab, b, utf8))
  {
    if |a| == 0 {
      assert a + b == b;
      var d := DecodeText(vocab, b, utf8);
      if d.Success? {
        assert [] + d.value == d.value;
      }
    } else {
      assert (a + b)[1..] == a[1..] + b;
      assert (a + b)[0] == a[0];
      DecodeConcat(vocab, a[1..], b, utf8);
      ChainAssociative(DecodeOne(vocab, a[0], utf8), DecodeText(vocab, a[1..], utf8), DecodeText(vocab, b, utf8));
    }
  }

  /**
   * `decode` succeeds exactly when every id is known and decodes; otherwise
   * it raises what the first id that does not raises.
   */
  lemma {:induction false} DecodeOutcome(vocab: Dict<int, Token>, tokens: seq<int>, utf8: seq<Byte> -> Option<Text>)
    ensures DecodeText(vocab, tokens, utf8).Success? <==> forall i :: 0 <= i < |tokens| ==> DecodeOne(vocab, tokens[i], utf8).Success?
    ensures DecodeText(vocab, tokens, utf8).Failure? ==>
              exists i :: 0 <= i < |tokens| && DecodeOne(vocab, tokens[i], utf8) == DecodeText(vocab, tokens, utf8)
                && forall j :: 0 <= j < i ==> DecodeOne(vocab, tokens[j], utf8).Success?
  {
    if |tokens| > 0 {
      var rest := tokens[1..];
      DecodeOutcome(vocab, rest, utf8);
      assert forall i :: 0 < i < |tokens| ==> tokens[i] == rest[i - 1];
      if DecodeOne(vocab, tokens[0], utf8).Success? && DecodeText(vocab, rest, utf8).Failure? {
        var i :| 0 <= i < |rest| && DecodeOne(vocab, rest[i], utf8) == DecodeText(vocab, rest, utf8)
                 && forall j :: 0 <= j < i ==> DecodeOne(vocab, rest[j], utf8).Success?;
        assert tokens[i + 1] == rest[i];
      }
    }
  }

  /** An id that is not in the vocabulary makes `decode` raise. */
  lemma DecodeUnknownRaises(vocab: Dict<int, Token>, tokens: seq<int>, utf8: seq<Byte> -> Option<Text>, i: int)
    requires 0 <= i < |tokens| && tokens[i] !in vocab.vals
    ensures DecodeText(vocab, tokens, utf8).Failure?
  {
    DecodeOutcome(vocab, tokens, utf8);
    assert DecodeOne(vocab, tokens[i], utf8).Failure?;
  }

  /** `"".join(texts)` grows by the appended text. */
  lemma {:induction false} JoinAppend(texts: seq<Text>, s: Text)
    ensures Join(texts + [s], "") == Join(texts, "") + s
  {
    if |texts| > 0 {
      assert (texts + [s])[1..] == texts[1..] + [s];
      JoinAppend(texts[1..], s);
    }
  }

  /**
   * A `BPETokenizer`: its vocabulary (id to entry, in insertion order), its
   * merges in the order they were learnt, and its special tokens (None as []).
   */
  datatype BPETokenizer = BPETokenizer(vocab: Dict<int, Token>, merges: seq<Pair>, specialTokens: seq<Text>)
  {
    /** `_pre_tokenize(chunk)` */
    method PreTokenize(chunk: Text, rx: Regex) returns (r: Result<seq<Token>>)
      ensures r == PreTokens(chunk, specialTokens, rx)
    {
      var splitChunk := [chunk];
      var found: seq<Text> := [];  // `special_tokens_found`, None until there are special tokens
      if |specialTokens| > 0 {
        var pattern := Join(Trainer.Escaped(specialTokens, rx), "|");
        splitChunk := rx.split(pattern, chunk);
        found := rx.findAll(pattern, chunk);
      }
      var preTokens: seq<Token> := [];
      for i := 0 to |splitChunk|
        invariant Interleaved(splitChunk, found, rx, i) == Success(preTokens)
      {
        var preTok := rx.segments(splitChunk[i]);
        preTokens := preTokens + AsBytes(preTok);
        if |found| > 0 && i < |splitChunk| - 1 {
          if i >= |found| {
            InterleavedFailureStays(splitChunk, found, rx, i + 1, |splitChunk|);
            return Failure(IndexError);
          }
          preTokens := preTokens + [Trainer.Special(found[i])];
        }
      }
      return Success(preTokens);
    }

    /** The merge chain of one bytes pre-token: `t = optional_t if optional_t else t`. */
    method MergeAll(t0: Word) returns (t: Word)
      ensures t == ApplyMerges(t0, merges)
    {
      t := t0;
      for k := 0 to |merges|
        invariant t == ApplyMerges(t0, merges[..k])
      {
        assert merges[..k + 1][..k] == merges[..k];
        var optionalT := GreedyMerge.Merge(t, merges[k]);
        if optionalT.Some? {
          GreedyMerge.GreedyShorter(t, merges[k]);
        }
        t := if optionalT.Some? && |optionalT.value| > 0 then optionalT.value else t;
      }
      assert merges[..|merges|] == merges;
    }

    /** The ids one pre-token adds to `token_ids`. */
    method EncodePreToken(preToken: Token) returns (ids: seq<Option<int>>)
      ensures ids == PreTokenIds(vocab, merges, specialTokens, preToken)
    {
      ids := [];
      if preToken.Bytes? {
        var t := SplitBytes(preToken.bytes);
        t := MergeAll(t);
        ids := Lookups(vocab, t);
      } else if preToken.text in specialTokens {
        ids := [GetKey(vocab, preToken)];
      }
    }

    /** `encode(text)`: the ids of every pre-token in order, None for a symbol or token not found. */
    method Encode(text: Text, rx: Regex) returns (r: Result<seq<Option<int>>>)
      ensures PreTokens(text, specialTokens, rx).Failure? ==>
                r == Failure(PreTokens(text, specialTokens, rx).error)
      ensures PreTokens(text, specialTokens, rx).Success? ==>
                r == Success(EncodeIds(vocab, merges, specialTokens, PreTokens(text, specialTokens, rx).value))
    {
      var pre := PreTokenize(text, rx);
      if pre.Failure? {
        return Failure(pre.error);
      }
      var preTokens := pre.value;
      var tokenIds: seq<Option<int>> := [];
      for j := 0 to |preTokens|
        invariant tokenIds == EncodeIds(vocab, merges, specialTokens, preTokens[..j])
      {
        assert preTokens[..j + 1][..j] == preTokens[..j];
        var ids := EncodePreToken(preTokens[j]);
        tokenIds := tokenIds + ids;
      }
      assert preTokens[..|preTokens|] == preTokens;
      return Success(tokenIds);
    }

    /** `decode(tokens)`, with the UTF-8 decoding of bytes entries as the parameter `utf8`. */
    method Decode(tokens: seq<int>, utf8: seq<Byte> -> Option<Text>) returns (r: Result<Text>)
      ensures r == DecodeText(vocab, tokens, utf8)
    {
      var texts: seq<Text> := [];
      assert tokens[0..] == tokens;
      assert Chain(Success(Join(texts, "")), DecodeText(vocab, tokens, utf8)) == DecodeText(vocab, tokens, utf8) by {
        var d := DecodeText(vocab, tokens, utf8);
        if d.Success? {
          assert [] + d.value == d.value;
        }
      }
      for j := 0 to |tokens|
        invariant DecodeText(vocab, tokens, utf8) == Chain(Success(Join(texts, "")), DecodeText(vocab, tokens[j..], utf8))
      {
        assert tokens[j..][1..] == tokens[j + 1..];
        var tok := tokens[j];
        if tok !in vocab.vals {
          return Failure(KeyError(tok));
        }
        var text: Text;
        var entry := vocab.vals[tok];
        if entry.Bytes? {
          var decoded := utf8(entry.bytes);
          if decoded.None? {
            return Failure(UnicodeDecodeError);
          }
          text := decoded.value;
        } else {
          text := entry.text;
        }
        assert DecodeOne(vocab, tok, utf8) == Success(text);
        ChainAssociative(Success(Join(texts, "")), Success(text), DecodeText(vocab, tokens[j + 1..], utf8));
        JoinAppend(texts, text);
        texts := texts + [text];
      }
      assert tokens[|tokens|..] == [];
      assert Join(texts, "") + [] == Join(texts, "");
      return Success(Join(texts, ""));
    }
  }

  /**
   * Without special tokens, encoding a text whose symbols are all in the
   * vocabulary and decoding the ids at the byte level gives back the bytes of
   * the text's segments.
   */
  lemma EncodeDecodeBytes(tok: BPETokenizer, text: Text, rx: Regex)
    requires tok.specialTokens == []
    requires AllFound(EncodeIds(tok.vocab, tok.merges, [], AsBytes(rx.segments(text))))
    ensures PreTokens(text, tok.specialTokens, rx) == Success(AsBytes(rx.segments(text)))
    ensures ByteDecode(tok.vocab, EncodeIds(tok.vocab, tok.merges, [], AsBytes(rx.segments(text))))
            == Some(Flatten(rx.segments(text)))
  {
    PreTokensWithoutSpecials(text, rx);
    FiltersAsBytes(rx.segments(text));
    EncodeRoundTrip(tok.vocab, tok.merges, [], AsBytes(rx.segments(text)));
  }
}
