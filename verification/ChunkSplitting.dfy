/** How a read or a write is split: the chunks of the byte range are grouped by the daemon that
    stores them, and each daemon is told how many bytes are its share. */
module ChunkSplitting {
  import opened BlockArithmetic
  import opened Common
  import opened DivMod
  import opened Intervals

  const CHUNK_SIZE: Word := 524288

  lemma ChunkSizeForm()
    ensures CHUNK_SIZE == Power2(19) && IsPowerOf2(CHUNK_SIZE) && Log2(CHUNK_SIZE) == 19
  {
    assert Power2(9) == 512;
    assert Power2(14) == 16384;
    assert Power2(19) == 524288;
    PowersPass(19);
  }

  function Max(a: int, b: int): int {
    if a < b then b else a
  }

  /** The number of bytes of the range from `offset` to `end` that lie in a chunk. */
  function BytesIn(offset: nat, end: nat, chunk: nat): nat {
    Max(0, Min(end, (chunk + 1) * CHUNK_SIZE) - Max(offset, chunk * CHUNK_SIZE))
  }

  /** It is the number of bytes of the range whose chunk it is. */
  lemma BytesInCounts(offset: nat, end: nat, chunk: nat)
    ensures BytesIn(offset, end, chunk) == |set i | i in Interval(offset, end) && i / CHUNK_SIZE == chunk|
  {
    var lo, hi := Max(offset, chunk * CHUNK_SIZE), Min(end, (chunk + 1) * CHUNK_SIZE);
    assert (set i | i in Interval(offset, end) && i / CHUNK_SIZE == chunk) == Interval(lo, hi);
  }

  /** Where a chunk is stored. */
  type Locate = nat -> nat

  /** The chunks from `lo` up to `hi` that a daemon stores. */
  function ChunksOf(locate: Locate, daemon: nat, lo: nat, hi: nat): seq<nat>
    decreases hi
  {
    if hi <= lo then [] else
      ChunksOf(locate, daemon, lo, hi - 1) + if locate(hi - 1) == daemon then [hi - 1] else []
  }

  /** They are in order, and all of those the daemon stores. */
  lemma {:induction false} ChunksOfAre(locate: Locate, daemon: nat, lo: nat, hi: nat)
    ensures var s := ChunksOf(locate, daemon, lo, hi);
            && (forall c: nat :: c in s <==> lo <= c < hi && locate(c) == daemon)
            && forall i, j :: 0 <= i < j < |s| ==> s[i] < s[j]
    decreases hi
  {
    if lo < hi {
      ChunksOfAre(locate, daemon, lo, hi - 1);
      var t := ChunksOf(locate, daemon, lo, hi - 1);
      assert forall i :: 0 <= i < |t| ==> t[i] in t;
    }
  }

  /** The bytes of the range that a daemon stores, in the chunks from `lo` up to `hi`. */
  function BytesOf(locate: Locate, daemon: nat, offset: nat, end: nat, lo: nat, hi: nat): nat
    decreases hi
  {
    if hi <= lo then 0 else
      BytesOf(locate, daemon, offset, end, lo, hi - 1)
      + if locate(hi - 1) == daemon then BytesIn(offset, end, hi - 1) else 0
  }

  // ---------------------------------------------------------------- the loop over the chunks

  /** Each daemon that stores some of the chunks is listed with all of those it stores. */
  ghost predicate Grouped(locate: Locate, chunks: map<nat, seq<nat>>, lo: nat, hi: nat) {
    forall t: nat ::
      if t in chunks then chunks[t] == ChunksOf(locate, t, lo, hi) && chunks[t] != [] else ChunksOf(locate, t, lo, hi) == []
  }

  lemma GroupedStart(locate: Locate, lo: nat)
    ensures Grouped(locate, map[], lo, lo)
  {
  }

  lemma GroupedNext(locate: Locate, chunks: map<nat, seq<nat>>, lo: nat, id: nat)
    requires Grouped(locate, chunks, lo, id) && lo <= id
    ensures var t := locate(id); Grouped(locate, chunks[t := (if t in chunks then chunks[t] else []) + [id]], lo, id + 1)
  {
  }

  lemma DistinctSnoc(s: seq<nat>, t: nat)
    requires Distinct(s) && t !in s
    ensures Distinct(s + [t])
  {
  }

  /** Groups the chunks by daemon, remembering the daemons in the order they are met. */
  method GatherChunks(locate: Locate, start: nat, end: nat)
    returns (chunks: map<nat, seq<nat>>, targets: seq<nat>, startTarget: nat, endTarget: nat)
    requires start <= end
    ensures Distinct(targets) && (forall t :: t in targets <==> t in chunks)
    ensures Grouped(locate, chunks, start, end + 1)
    ensures startTarget == locate(start) && endTarget == locate(end)
  {
    hide Grouped, Distinct;
    chunks, targets, startTarget, endTarget := map[], [], 0, 0;
    GroupedStart(locate, start);
    NoneDistinct();
    for id := start to end + 1
      invariant Distinct(targets) && (forall t :: t in targets <==> t in chunks)
      invariant Grouped(locate, chunks, start, id)
      invariant id > start ==> startTarget == locate(start)
      invariant id > end ==> endTarget == locate(end)
    {
      var target := locate(id);
      GroupedNext(locate, chunks, start, id);
      if target !in chunks {
        DistinctSnoc(targets, target);
        chunks := chunks[target := [] + [id]];
        targets := targets + [target];
      } else {
        chunks := chunks[target := chunks[target] + [id]];
      }
      if id == start {
        startTarget := target;
      }
      if id == end {
        endTarget := target;
      }
    }
  }

  lemma NoneDistinct()
    ensures Distinct<nat>([])
  {
  }

  // ---------------------------------------------------------------- shares add up

  /** The chunks `first` and `last` hold the first and the last byte of the range. */
  predicate Covers(offset: nat, end: nat, first: nat, last: nat) {
    && offset < end && first <= last
    && first * CHUNK_SIZE <= offset < (first + 1) * CHUNK_SIZE
    && last * CHUNK_SIZE < end <= (last + 1) * CHUNK_SIZE
  }

  /** The bytes before the range in its first chunk. */
  function Before(offset: nat, first: nat): int {
    offset - first * CHUNK_SIZE
  }

  /** The bytes after the range in its last chunk. */
  function Beyond(end: nat, last: nat): int {
    (last + 1) * CHUNK_SIZE - end
  }

  lemma BytesInForm(offset: nat, end: nat, first: nat, last: nat, c: nat)
    requires Covers(offset, end, first, last) && first <= c <= last
    ensures BytesIn(offset, end, c) ==
            CHUNK_SIZE - (if c == first then Before(offset, first) else 0) - (if c == last then Beyond(end, last) else 0)
  {
  }

  /** The share computed from the number of chunks is the number of bytes the daemon stores. */
  lemma {:induction false} ShareFormula(locate: Locate, daemon: nat, offset: nat, end: nat, first: nat, last: nat, hi: nat)
    requires Covers(offset, end, first, last) && first <= hi <= last + 1
    ensures BytesOf(locate, daemon, offset, end, first, hi) ==
            |ChunksOf(locate, daemon, first, hi)| * CHUNK_SIZE
            - (if hi > first && locate(first) == daemon then Before(offset, first) else 0)
            - (if hi == last + 1 && locate(last) == daemon then Beyond(end, last) else 0)
    decreases hi
  {
    if hi > first {
      ShareFormula(locate, daemon, offset, end, first, last, hi - 1);
      BytesInForm(offset, end, first, last, hi - 1);
    }
  }

  function Shares(locate: Locate, targets: seq<nat>, offset: nat, end: nat, lo: nat, hi: nat): (s: seq<nat>)
    ensures |s| == |targets|
  {
    seq(|targets|, i requires 0 <= i < |targets| => BytesOf(locate, targets[i], offset, end, lo, hi))
  }

  lemma {:induction false} SumBump(s: seq<nat>, j: nat, x: nat)
    requires j < |s|
    ensures Sum(s[j := s[j] + x]) == Sum(s) + x
    decreases |s|
  {
    var t := s[j := s[j] + x];
    if j > 0 {
      SumBump(s[1..], j - 1, x);
      assert t[1..] == s[1..][j - 1 := s[1..][j - 1] + x];
    } else {
      assert t[1..] == s[1..];
    }
  }

  lemma {:induction false} SumOfZeros(s: seq<nat>)
    requires forall i :: 0 <= i < |s| ==> s[i] == 0
    ensures Sum(s) == 0
    decreases |s|
  {
    if s != [] {
      SumOfZeros(s[1..]);
    }
  }

  /** Every chunk counts towards exactly one daemon, so the shares add up to the bytes of the range. */
  lemma {:induction false} SharesAddUp(locate: Locate, targets: seq<nat>, offset: nat, end: nat, first: nat, last: nat, hi: nat)
    requires Covers(offset, end, first, last) && first <= hi <= last + 1
    requires Distinct(targets) && forall c: nat :: first <= c < hi ==> locate(c) in targets
    ensures Sum(Shares(locate, targets, offset, end, first, hi)) ==
            if hi == first then 0 else Min(end, hi * CHUNK_SIZE) - offset
    decreases hi
  {
    var shares := Shares(locate, targets, offset, end, first, hi);
    if hi == first {
      SumOfZeros(shares);
    } else {
      var c := hi - 1;
      var before := Shares(locate, targets, offset, end, first, c);
      SharesAddUp(locate, targets, offset, end, first, last, c);
      var j :| 0 <= j < |targets| && targets[j] == locate(c);
      assert shares == before[j := before[j] + BytesIn(offset, end, c)];
      SumBump(before, j, BytesIn(offset, end, c));
      BytesInForm(offset, end, first, last, c);
    }
  }

  // ---------------------------------------------------------------- the split

  lemma RangeChunks(offset: Word, size: Word) returns (first: nat, last: nat)
    requires size > 0 && offset + size < TWO64
    ensures IsPowerOf2(CHUNK_SIZE) && 0 <= Log2(CHUNK_SIZE) < 32
    ensures first == BlockIndex(offset, CHUNK_SIZE) && last == BlockIndex(offset + size - 1, CHUNK_SIZE)
    ensures Covers(offset, offset + size, first, last) && first <= last
    ensures first == offset / CHUNK_SIZE && last == (offset + size - 1) / CHUNK_SIZE
    ensures BlockOverrun(offset, CHUNK_SIZE) == Before(offset, first)
    ensures (if IsAligned(offset + size, CHUNK_SIZE) then 0 else BlockUnderrun(offset + size, CHUNK_SIZE)) ==
            Beyond(offset + size, last)
  {
    hide Power2, And, Bits, IsPowerOf2, Log2, BlockIndex, BlockOverrun, BlockUnderrun, IsAligned;
    ChunkSizeForm();
    var end := offset + size;
    MasksAreDivision(offset, CHUNK_SIZE);
    MasksAreDivision(end - 1, CHUNK_SIZE);
    MasksAreDivision(end, CHUNK_SIZE);
    first, last := offset / CHUNK_SIZE, (end - 1) / CHUNK_SIZE;
  }

  /** The share of a daemon, as the source computes it. */
  function Share(chunks: nat, startsHere: bool, endsHere: bool, offset: Word, size: Word): int
    requires IsPowerOf2(CHUNK_SIZE) && 0 <= Log2(CHUNK_SIZE) < 32 && offset + size < TWO64
  {
    chunks * CHUNK_SIZE
    - (if startsHere then BlockOverrun(offset, CHUNK_SIZE) else 0)
    - (if endsHere && !IsAligned(offset + size, CHUNK_SIZE) then BlockUnderrun(offset + size, CHUNK_SIZE) else 0)
  }

  /** Each daemon is told the number of bytes of the range that it stores, and together that is the
      size of the request, however the chunks are distributed. */
  method ShareSizes(locate: Locate, offset: Word, size: Word) returns (targets: seq<nat>, sizes: seq<int>)
    requires size > 0 && offset + size < TWO64
    ensures Distinct(targets)
    ensures var first, last := offset / CHUNK_SIZE, (offset + size - 1) / CHUNK_SIZE;
            && (forall c: nat :: first <= c <= last ==> locate(c) in targets)
            && sizes == Shares(locate, targets, offset, offset + size, first, last + 1)
            && Sum(Shares(locate, targets, offset, offset + size, first, last + 1)) == size
  {
    hide Power2, And, Bits, IsPowerOf2, Log2, BlockIndex, BlockOverrun, BlockUnderrun, IsAligned;
    hide ChunksOf, BytesOf, Sum, Distinct, Covers, Before, Beyond, Grouped;
    ghost var first, last := RangeChunks(offset, size);
    var start := BlockIndex(offset, CHUNK_SIZE);
    var final := BlockIndex(offset + size - 1, CHUNK_SIZE);
    var chunks, startTarget, endTarget;
    chunks, targets, startTarget, endTarget := GatherChunks(locate, start, final);
    sizes := [];
    for i := 0 to |targets|
      invariant |sizes| == i
      invariant forall k :: 0 <= k < i ==> sizes[k] == BytesOf(locate, targets[k], offset, offset + size, first, last + 1)
    {
      var target := targets[i];
      GroupedAt(locate, chunks, first, last + 1, target);
      ShareFormula(locate, target, offset, offset + size, first, last, last + 1);
      var share := Share(|chunks[target]|, target == startTarget, target == endTarget, offset, size);
      sizes := sizes + [share];
    }
    forall c: nat | first <= c <= last
      ensures locate(c) in targets
    {
      InChunks(locate, c, first, last + 1);
      GroupedAt(locate, chunks, first, last + 1, locate(c));
    }
    SharesAddUp(locate, targets, offset, offset + size, first, last, last + 1);
  }

  lemma GroupedAt(locate: Locate, chunks: map<nat, seq<nat>>, lo: nat, hi: nat, t: nat)
    requires Grouped(locate, chunks, lo, hi)
    ensures if t in chunks then chunks[t] == ChunksOf(locate, t, lo, hi) else ChunksOf(locate, t, lo, hi) == []
  {
  }

  lemma {:induction false} InChunks(locate: Locate, c: nat, lo: nat, hi: nat)
    requires lo <= c < hi
    ensures ChunksOf(locate, locate(c), lo, hi) != []
    decreases hi
  {
    if c < hi - 1 {
      InChunks(locate, c, lo, hi - 1);
    }
  }

  // ---------------------------------------------------------------- empty transfers

  /** A transfer of no bytes: inside a chunk it asks one daemon for nothing, at the start of a later
      chunk it asks nobody, and at the start of the file it goes through all chunks there can be. */
  lemma EmptyTransfer(offset: Word)
    ensures IsPowerOf2(CHUNK_SIZE) && 0 <= Log2(CHUNK_SIZE) < 32
    ensures var first, last := BlockIndex(offset, CHUNK_SIZE), BlockIndex(Wrap(offset + 0 - 1), CHUNK_SIZE);
            && (offset == 0 ==> first == 0 && last == 0x1fff_ffff_ffff)
            && (offset > 0 && offset % CHUNK_SIZE == 0 ==> last == first - 1)
            && (offset % CHUNK_SIZE != 0 ==> last == first && Share(1, true, true, offset, 0) == 0)
  {
    hide Power2, And, Bits, IsPowerOf2, Log2, BlockIndex, BlockOverrun, BlockUnderrun, IsAligned, Wrap;
    ChunkSizeForm();
    WrapDown(offset);
    MasksAreDivision(offset, CHUNK_SIZE);
    MasksAreDivision(Wrap(offset - 1), CHUNK_SIZE);
  }

  lemma WrapDown(offset: Word)
    ensures Wrap(offset - 1) == if offset == 0 then TWO64 - 1 else offset - 1
  {
  }

  // ---------------------------------------------------------------- truncation

  /** The largest size whose chunks are numbered in 32 bits. */
  const MAX_SIZE: Word := 0x7_ffff_fff8_0000

  /** The daemons that store the chunks from `lo` up to, and including, `hi`. */
  ghost function Owners(locate: Locate, lo: nat, hi: nat): iset<nat> {
    iset c: nat | lo <= c <= hi :: locate(c)
  }

  /** The daemons a truncation contacts. The last chunk is that of the number of bytes removed. */
  method TruncateTargets(locate: Locate, current: Word, newSize: Word) returns (hosts: set<nat>)
    requires newSize < current <= MAX_SIZE
    ensures (iset t | t in hosts) == Owners(locate, newSize / CHUNK_SIZE, (current - newSize - 1) / CHUNK_SIZE)
  {
    hide AlignLeft, AlignRight, NextBoundary, Owners;
    hide Power2, And, Bits, IsPowerOf2, Log2, BlockIndex, BlockOverrun, BlockUnderrun, IsAligned;
    ChunkSizeForm();
    MasksAreDivision(newSize, CHUNK_SIZE);
    MasksAreDivision(current - newSize - 1, CHUNK_SIZE);
    var start := BlockIndex(newSize, CHUNK_SIZE) % TWO32;
    var end := BlockIndex(current - newSize - 1, CHUNK_SIZE) % TWO32;
    hosts := {};
    var id := start;
    while id <= end
      invariant start <= id && (start <= end ==> id <= end + 1) && (start > end ==> id == start)
      invariant forall t :: t in hosts <==> exists c: nat :: start <= c < id && locate(c) == t
    {
      hosts := hosts + {locate(id)};
      id := id + 1;
    }
    OwnersOf(locate, newSize / CHUNK_SIZE, (current - newSize - 1) / CHUNK_SIZE, id, hosts);
  }

  lemma OwnersOf(locate: Locate, lo: nat, hi: nat, end: nat, hosts: set<nat>)
    requires if lo <= hi then end == hi + 1 else end == lo
    requires forall t :: t in hosts <==> exists c: nat :: lo <= c < end && locate(c) == t
    ensures (iset t | t in hosts) == Owners(locate, lo, hi)
  {
  }

  /** Truncation reaches every daemon that stores a removed byte, however the chunks are distributed,
      exactly when the number of removed bytes and the old size end in the same chunk; and it contacts
      nobody exactly when more whole chunks are kept than that number has. */
  lemma TruncationReaches(current: nat, newSize: nat)
    requires newSize < current
    ensures var first, last, reached := newSize / CHUNK_SIZE, (current - 1) / CHUNK_SIZE, (current - newSize - 1) / CHUNK_SIZE;
            && ((forall locate: Locate :: Owners(locate, first, last) <= Owners(locate, first, reached)) <==> reached == last)
            && (forall locate: Locate :: Owners(locate, first, reached) == iset{} <==> reached < first)
  {
    var first, last, reached := newSize / CHUNK_SIZE, (current - 1) / CHUNK_SIZE, (current - newSize - 1) / CHUNK_SIZE;
    DivMonotonic(current - newSize - 1, current - 1, CHUNK_SIZE);
    DivMonotonic(newSize, current - 1, CHUNK_SIZE);
    var own: Locate := c => c;
    if reached < last {
      assert own(last) in Owners(own, first, last);
      assert last !in Owners(own, first, reached);
    }
    forall locate: Locate
      ensures Owners(locate, first, reached) == iset{} <==> reached < first
    {
      if first <= reached {
        assert locate(first) in Owners(locate, first, reached);
      }
    }
  }

  /** Truncating a file to half of its whole chunks contacts nobody. */
  lemma HalfContactsNobody(chunks: nat, locate: Locate)
    requires chunks > 0
    ensures var current, newSize := 2 * chunks * CHUNK_SIZE, chunks * CHUNK_SIZE;
            Owners(locate, newSize / CHUNK_SIZE, (current - newSize - 1) / CHUNK_SIZE) == iset{}
  {
    DivModUnique(chunks * CHUNK_SIZE, CHUNK_SIZE, chunks, 0);
    DivModUnique(chunks * CHUNK_SIZE - 1, CHUNK_SIZE, chunks - 1, CHUNK_SIZE - 1);
  }
}
