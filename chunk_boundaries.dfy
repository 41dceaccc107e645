/**
 * `find_chunk_boundaries` (identical in src/utils/tokenizer.py and
 * training/tokenizer/utils.py), with the file as an immutable byte sequence:
 * evenly spaced guesses, each moved forward to the next special-token marker
 * found by reading 4096-byte windows, then sorted and deduplicated.
 */
module ChunkBoundaries {
  import opened ByteStrings
  import opened Results

  /** The read-ahead window, `mini_chunk_size`. */
  const MiniChunkSize: nat := 4096

  /** `file.seek(pos); file.read(n)` on a file holding `data`. */
  function Read(data: seq<Byte>, pos: nat, n: nat): (r: seq<Byte>)
    ensures r == [] <==> pos >= |data| || n == 0
    ensures |r| <= n
    ensures pos < |data| ==> pos + |r| <= |data| && r == data[pos..pos + |r|]
  {
    if pos >= |data| then [] else data[pos..if pos + n <= |data| then pos + n else |data|]
  }

  /** `needle` occurs in full at offset `i` of `s`. */
  predicate OccursAt(s: seq<Byte>, needle: seq<Byte>, i: int)
  {
    0 <= i && i + |needle| <= |s| && s[i..i + |needle|] == needle
  }

  function FindFrom(s: seq<Byte>, needle: seq<Byte>, k: nat): (r: int)
    decreases |s| - k
    ensures r == -1 || (k <= r && OccursAt(s, needle, r))
    ensures forall i :: k <= i && (r == -1 || i < r) ==> !OccursAt(s, needle, i)
  {
    if k + |needle| > |s| then -1
    else if s[k..k + |needle|] == needle then k
    else FindFrom(s, needle, k + 1)
  }

  /** `s.find(needle)`: the first offset where `needle` occurs, or -1 when there is none. */
  function Find(s: seq<Byte>, needle: seq<Byte>): (r: int)
    ensures r == -1 <==> forall i :: !OccursAt(s, needle, i)
    ensures r != -1 ==> OccursAt(s, needle, r) && forall i :: 0 <= i < r ==> !OccursAt(s, needle, i)
  {
    FindFrom(s, needle, 0)
  }

  /**
   * Where the read-ahead loop started at `pos` puts the boundary: the first
   * window that holds the marker in full decides, and the end of the file
   * when no window does.
   */
  function NextBoundary(data: seq<Byte>, marker: seq<Byte>, pos: nat): int
    decreases |data| + MiniChunkSize - pos
  {
    var miniChunk := Read(data, pos, MiniChunkSize);
    if miniChunk == [] then |data|
    else
      var foundAt := Find(miniChunk, marker);
      if foundAt != -1 then pos + foundAt
      else NextBoundary(data, marker, pos + MiniChunkSize)
  }

  /** A moved boundary never goes back, stays inside the file, and sits on the marker or at the end. */
  lemma {:induction false} NextBoundaryBounds(data: seq<Byte>, marker: seq<Byte>, pos: nat)
    requires pos <= |data|
    decreases |data| - pos
    ensures pos <= NextBoundary(data, marker, pos) <= |data|
    ensures NextBoundary(data, marker, pos) == |data| || OccursAt(data, marker, NextBoundary(data, marker, pos))
  {
    var miniChunk := Read(data, pos, MiniChunkSize);
    if miniChunk != [] {
      var foundAt := Find(miniChunk, marker);
      if foundAt != -1 {
        SliceOfSlice(data, pos, pos + |miniChunk|, foundAt, foundAt + |marker|);
      } else if pos + MiniChunkSize <= |data| {
        NextBoundaryBounds(data, marker, pos + MiniChunkSize);
      }
    }
  }

  lemma SliceOfSlice(s: seq<Byte>, a: nat, b: nat, i: nat, j: nat)
    requires a <= b <= |s| && i <= j <= b - a
    ensures s[a..b][i..j] == s[a + i..a + j]
  {
    assert forall k :: 0 <= k < j - i ==> s[a..b][i..j][k] == s[a + i + k];
  }

  /** The boundary list before `sorted(set(...))`: 0, the moved guesses, and the file size. */
  function Planned(data: seq<Byte>, d: nat, marker: seq<Byte>): (r: seq<int>)
    requires d > 0
  {
    seq(d + 1, i requires 0 <= i <= d =>
      if i == 0 then 0
      else if i == d then |data|
      else NextBoundary(data, marker, Guess(|data|, d, i)))
  }

  predicate StrictlyIncreasing(s: seq<int>)
  {
    forall i, j :: 0 <= i < j < |s| ==> s[i] < s[j]
  }

  function Insert(s: seq<int>, x: int): (r: seq<int>)
    requires StrictlyIncreasing(s)
    ensures StrictlyIncreasing(r)
    ensures forall y :: y in r <==> y in s || y == x
    ensures |r| <= |s| + 1
  {
    if |s| == 0 then [x]
    else if x < s[0] then
      assert forall j :: 0 <= j < |s| ==> x < s[j];
      [x] + s
    else if x == s[0] then s
    else
      var rest := Insert(s[1..], x);
      assert forall y :: y in rest ==> s[0] < y;
      assert forall j :: 0 <= j < |rest| ==> rest[j] in rest;
      assert forall y :: y in s <==> y == s[0] || y in s[1..];
      [s[0]] + rest
  }

  /** `sorted(set(xs))` */
  function SortedSet(xs: seq<int>): (r: seq<int>)
    ensures StrictlyIncreasing(r)
    ensures forall y :: y in r <==> y in xs
    ensures |r| <= |xs|
  {
    if |xs| == 0 then [] else Insert(SortedSet(xs[..|xs| - 1]), xs[|xs| - 1])
  }

  lemma StrictlyIncreasingEnds(s: seq<int>, lo: int, hi: int)
    requires StrictlyIncreasing(s)
    requires lo in s && hi in s
    requires forall x :: x in s ==> lo <= x <= hi
    ensures s[0] == lo && s[|s| - 1] == hi
  {
    var k :| 0 <= k < |s| && s[k] == lo;
    assert s[0] in s && s[|s| - 1] in s;
    assert s[0] <= s[k];
    var m :| 0 <= m < |s| && s[m] == hi;
    assert s[m] <= s[|s| - 1];
  }

  /** Guess number `i` of `d` for a file of `size` bytes: `i * chunk_size`. */
  function Guess(size: nat, d: nat, i: nat): (g: nat)
    requires d > 0
    ensures i <= d ==> g <= size
  {
    assert i <= d ==> i * (size / d) <= size by {
      if i <= d {
        GuessInFile(i, size, d);
      }
    }
    i * (size / d)
  }

  lemma GuessInFile(i: nat, n: nat, d: nat)
    requires 0 < d && i <= d
    ensures i * (n / d) <= n
  {
    var q := n / d;
    assert d * q <= n;
    MulMono(i, d, q);
  }

  lemma {:induction false} MulMono(a: nat, b: nat, c: nat)
    requires a <= b
    ensures a * c <= b * c
    decreases c
  {
    if c > 0 {
      MulMono(a, b, c - 1);
      assert a * c == a * (c - 1) + a;
      assert b * c == b * (c - 1) + b;
    }
  }

  /**
   * What `find_chunk_boundaries` promises for a positive chunk count: a
   * strictly ascending list from 0 to the file size with at most
   * `desired + 1` entries, every other entry the moved place of a guess
   * `i * (size // desired)`: at or after that guess, on the marker or at the end.
   */
  ghost predicate IsBoundaryList(data: seq<Byte>, d: nat, marker: seq<Byte>, r: seq<int>)
    requires d > 0
  {
    && StrictlyIncreasing(r)
    && 0 < |r| <= d + 1
    && r[0] == 0
    && r[|r| - 1] == |data|
    && forall x :: x in r ==> x == 0 || x == |data| || MovedGuess(data, d, marker, x)
  }

  /** `x` is a marker offset that guess number `i` moved to, at or after the guess. */
  ghost predicate MovedGuess(data: seq<Byte>, d: nat, marker: seq<Byte>, x: int)
    requires d > 0
  {
    && OccursAt(data, marker, x)
    && exists i :: 0 < i < d && x == NextBoundary(data, marker, Guess(|data|, d, i)) && Guess(|data|, d, i) <= x
  }

  lemma PlannedEntry(data: seq<Byte>, d: nat, marker: seq<Byte>, i: nat)
    requires 0 <= i <= d && d > 0
    ensures 0 <= Planned(data, d, marker)[i] <= |data|
    ensures var x := Planned(data, d, marker)[i]; x == 0 || x == |data| || MovedGuess(data, d, marker, x)
  {
    if 0 < i < d {
      var g := Guess(|data|, d, i);
      NextBoundaryBounds(data, marker, g);
      var x := NextBoundary(data, marker, g);
      assert x == |data| || MovedGuess(data, d, marker, x);
    }
  }

  lemma PlanIsBoundaryList(data: seq<Byte>, d: nat, marker: seq<Byte>)
    requires d > 0
    ensures IsBoundaryList(data, d, marker, SortedSet(Planned(data, d, marker)))
  {
    var p := Planned(data, d, marker);
    var r := SortedSet(p);
    forall i | 0 <= i < |p|
      ensures 0 <= p[i] <= |data|
      ensures p[i] == 0 || p[i] == |data| || MovedGuess(data, d, marker, p[i])
    {
      PlannedEntry(data, d, marker, i);
    }
    assert p[0] == 0 && p[d] == |data|;
    StrictlyIncreasingEnds(r, 0, |data|);
  }

  /** Without the marker anywhere in a non-empty file, the whole file is one chunk. */
  lemma NoMarkerSingleChunk(data: seq<Byte>, d: nat, marker: seq<Byte>)
    requires d > 0 && |data| > 0
    requires forall i :: !OccursAt(data, marker, i)
    ensures SortedSet(Planned(data, d, marker)) == [0, |data|]
  {
    var r := SortedSet(Planned(data, d, marker));
    PlanIsBoundaryList(data, d, marker);
    assert r[0] != r[|r| - 1];
    forall k | 0 <= k < |r|
      ensures r[k] == 0 || r[k] == |data|
    {
      assert r[k] in r;
      assert !OccursAt(data, marker, r[k]);
    }
    assert r[1] == |data|;
  }

  /**
   * One pass of the read-ahead loop: boundary `bi` moves from its guess to the
   * first marker found in a window, or to the end of the file.
   */
  method MoveBoundary(data: seq<Byte>, marker: seq<Byte>, chunkBoundaries: array<int>, bi: nat)
    requires bi < chunkBoundaries.Length
    requires 0 <= chunkBoundaries[bi] <= |data|
    modifies chunkBoundaries
    ensures chunkBoundaries[bi] == NextBoundary(data, marker, old(chunkBoundaries[bi]))
    ensures forall j :: 0 <= j < chunkBoundaries.Length && j != bi ==> chunkBoundaries[j] == old(chunkBoundaries[j])
  {
    var fileSize := |data|;
    var initialPosition: nat := chunkBoundaries[bi];
    while true
      invariant initialPosition <= fileSize + MiniChunkSize
      invariant NextBoundary(data, marker, initialPosition) == NextBoundary(data, marker, old(chunkBoundaries[bi]))
      invariant chunkBoundaries[..] == old(chunkBoundaries[..])
      decreases fileSize + MiniChunkSize - initialPosition
    {
      var miniChunk := Read(data, initialPosition, MiniChunkSize);
      if miniChunk == [] {
        chunkBoundaries[bi] := fileSize;  // end of file
        break;
      }
      var foundAt := Find(miniChunk, marker);
      if foundAt != -1 {
        chunkBoundaries[bi] := initialPosition + foundAt;
        break;
      }
      initialPosition := initialPosition + MiniChunkSize;
    }
  }

  /**
   * `find_chunk_boundaries(file, desired_num_chunks, split_special_token)`.
   * A chunk count of 0 divides by zero; a negative one leaves the guess list
   * empty, so setting its last entry fails.
   */
  method FindChunkBoundaries(data: seq<Byte>, desiredNumChunks: int, splitSpecialToken: seq<Byte>)
    returns (r: Result<seq<int>>)
    ensures desiredNumChunks == 0 ==> r == Failure(ZeroDivisionError)
    ensures desiredNumChunks < 0 ==> r == Failure(IndexError)
    ensures desiredNumChunks > 0 ==> r == Success(SortedSet(Planned(data, desiredNumChunks, splitSpecialToken)))
    ensures desiredNumChunks > 0 ==> IsBoundaryList(data, desiredNumChunks, splitSpecialToken, r.value)
  {
    var fileSize := |data|;
    if desiredNumChunks == 0 {
      return Failure(ZeroDivisionError);
    }
    var chunkSize := fileSize / desiredNumChunks;  // a positive divisor from here on
    if desiredNumChunks + 1 <= 0 {
      return Failure(IndexError);  // chunk_boundaries[-1] of an empty list
    }
    var d: nat := desiredNumChunks;
    var planned := PlaceBoundaries(data, d, splitSpecialToken);
    PlanIsBoundaryList(data, d, splitSpecialToken);
    return Success(SortedSet(planned));
  }

  /**
   * Lines building `chunk_boundaries`: the evenly spaced guesses, the file
   * size last, and each inner guess moved forward to the next marker.
   */
  method PlaceBoundaries(data: seq<Byte>, d: nat, splitSpecialToken: seq<Byte>) returns (planned: seq<int>)
    requires d > 0
    ensures planned == Planned(data, d, splitSpecialToken)
  {
    var fileSize := |data|;
    var chunkBoundaries := new int[d + 1](i => Guess(fileSize, d, i));
    chunkBoundaries[d] := fileSize;

    for bi := 1 to d
      invariant chunkBoundaries[0] == 0 && chunkBoundaries[d] == fileSize
      invariant forall j :: 0 < j < bi ==> chunkBoundaries[j] == NextBoundary(data, splitSpecialToken, Guess(fileSize, d, j))
      invariant forall j :: bi <= j < d ==> chunkBoundaries[j] == Guess(fileSize, d, j)
    {
      MoveBoundary(data, splitSpecialToken, chunkBoundaries, bi);
    }
    planned := chunkBoundaries[..];
    assert planned == Planned(data, d, splitSpecialToken);
  }
}
