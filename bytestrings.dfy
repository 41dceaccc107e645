/** Raw bytes, the byte strings the tokenizer merges, and Python's ordering on them. */
module ByteStrings {

  newtype Byte = b: int | 0 <= b < 256

  /** A vocabulary entry made of raw bytes (a Python `bytes`). */
  type Symbol = seq<Byte>

  /** A pre-token as a tuple of symbols (a Python `tuple[bytes, ...]`). */
  type Word = seq<Symbol>

  /** Two adjacent symbols (a Python `tuple[bytes, bytes]`). */
  type Pair = (Symbol, Symbol)

  /** `b"".join(word)`: the bytes a word spells out. */
  function Flatten(w: Word): seq<Byte>
  {
    if |w| == 0 then [] else w[0] + Flatten(w[1..])
  }

  lemma {:induction false} FlattenConcat(a: Word, b: Word)
    ensures Flatten(a + b) == Flatten(a) + Flatten(b)
  {
    if |a| == 0 {
      assert a + b == b;
    } else {
      assert (a + b)[1..] == a[1..] + b;
      FlattenConcat(a[1..], b);
    }
  }

  /** `tuple(bytes([byte]) for byte in w)`: one single-byte symbol per byte. */
  function SplitBytes(s: seq<Byte>): Word
  {
    seq(|s|, i requires 0 <= i < |s| => [s[i]])
  }

  /** Splitting into single bytes loses nothing: joining the pieces gives the bytes back. */
  lemma {:induction false} FlattenSplitBytes(s: seq<Byte>)
    ensures |SplitBytes(s)| == |s|
    ensures Flatten(SplitBytes(s)) == s
  {
    if |s| > 0 {
      assert SplitBytes(s)[1..] == SplitBytes(s[1..]);
      FlattenSplitBytes(s[1..]);
      assert s == [s[0]] + s[1..];
    }
  }

  /** Python's `a < b` on `bytes`: lexicographic, a proper prefix is smaller. */
  predicate BytesLess(a: Symbol, b: Symbol)
    decreases |a|
  {
    if |b| == 0 then false
    else if |a| == 0 then true
    else if a[0] != b[0] then a[0] < b[0]
    else BytesLess(a[1..], b[1..])
  }

  /** Python's `p < q` on `tuple[bytes, bytes]`: first components, then second ones. */
  predicate PairLess(p: Pair, q: Pair)
  {
    BytesLess(p.0, q.0) || (p.0 == q.0 && BytesLess(p.1, q.1))
  }

  lemma {:induction false} BytesLessIrreflexive(a: Symbol)
    ensures !BytesLess(a, a)
  {
    if |a| > 0 {
      BytesLessIrreflexive(a[1..]);
    }
  }

  lemma {:induction false} BytesLessTransitive(a: Symbol, b: Symbol, c: Symbol)
    requires BytesLess(a, b) && BytesLess(b, c)
    ensures BytesLess(a, c)
  {
    if |a| > 0 && a[0] == b[0] && b[0] == c[0] {
      BytesLessTransitive(a[1..], b[1..], c[1..]);
    }
  }

  /** Any two distinct byte strings are ordered one way or the other. */
  lemma {:induction false} BytesLessTotal(a: Symbol, b: Symbol)
    ensures a == b || BytesLess(a, b) || BytesLess(b, a)
  {
    if |a| > 0 && |b| > 0 && a[0] == b[0] {
      BytesLessTotal(a[1..], b[1..]);
      if a[1..] == b[1..] {
        assert a == [a[0]] + a[1..] && b == [b[0]] + b[1..];
      }
    }
  }

  lemma PairLessIrreflexive(p: Pair)
    ensures !PairLess(p, p)
  {
    BytesLessIrreflexive(p.0);
    BytesLessIrreflexive(p.1);
  }

  lemma PairLessTransitive(p: Pair, q: Pair, r: Pair)
    requires PairLess(p, q) && PairLess(q, r)
    ensures PairLess(p, r)
  {
    if BytesLess(p.0, q.0) && BytesLess(q.0, r.0) {
      BytesLessTransitive(p.0, q.0, r.0);
    } else if p.0 == q.0 && q.0 == r.0 {
      BytesLessTransitive(p.1, q.1, r.1);
    }
  }

  /** The tuple order is total: of two distinct pairs one is the greater. */
  lemma PairLessTotal(p: Pair, q: Pair)
    ensures p == q || PairLess(p, q) || PairLess(q, p)
  {
    BytesLessTotal(p.0, q.0);
    BytesLessTotal(p.1, q.1);
  }
}
