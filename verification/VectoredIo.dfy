/** Reading and writing through descriptors, one buffer at a time or many. */
module VectoredIo {
  import opened Common
  import opened OpenFiles

  /** The daemons' answer to a transfer: an error, or a number of bytes moved, up to some limit. */
  datatype Reply = Error(code: nat) | Moves(limit: nat)

  /** What the daemons answer, by the number of the call: to a change of a file's size, which is an
      error code or 0, to a write and to a read. */
  datatype Daemons = Daemons(resize: nat -> nat, write: nat -> Reply, read: nat -> Reply)

  /** The bytes of one file, and the number of calls made so far. */
  datatype Disk = Disk(data: seq<Byte>, calls: nat)

  const FAILED: int := -1

  function Zeros(n: nat): (z: seq<Byte>)
    ensures |z| == n
  {
    if n == 0 then [] else Zeros(n - 1) + [0]
  }

  /** The file padded with zeros up to some offset. */
  function Padded(data: seq<Byte>, off: nat): seq<Byte> {
    if off <= |data| then data else data + Zeros(off - |data|)
  }

  /** The file with some bytes written over it at an offset. Writing nothing changes nothing. */
  function Overwritten(data: seq<Byte>, off: nat, b: seq<Byte>): seq<Byte> {
    if b == [] then data else
      var p := Padded(data, off);
      p[..off] + b + if off + |b| <= |p| then p[off + |b|..] else []
  }

  function Concat(iov: seq<seq<Byte>>): seq<Byte> {
    if iov == [] then [] else iov[0] + Concat(iov[1..])
  }

  function NonEmpty(iov: seq<seq<Byte>>): seq<seq<Byte>> {
    if iov == [] then [] else (if iov[0] == [] then [] else [iov[0]]) + NonEmpty(iov[1..])
  }

  // ---------------------------------------------------------------- writes, on values

  /** One write: the size is changed first, and then the bytes are sent. */
  function Write(ds: Daemons, d: Disk, regular: bool, b: seq<Byte>, off: nat): (Disk, int) {
    if !regular then (d, FAILED)
    else if ds.resize(d.calls) != 0 then (Disk(d.data, d.calls + 1), FAILED)
    else
      match ds.write(d.calls + 1)
      case Error(_) => (Disk(d.data, d.calls + 2), FAILED)
      case Moves(limit) =>
        var n: int := Min(limit, |b|);
        (Disk(Overwritten(d.data, off, b[..n]), d.calls + 2), n)
  }

  /** Buffers written one after the other, until one is not written whole: the disk and the total. */
  function WriteAll(ds: Daemons, d: Disk, regular: bool, iov: seq<seq<Byte>>, off: nat): (Disk, nat)
    decreases |iov|
  {
    if iov == [] then (d, 0)
    else if iov[0] == [] then WriteAll(ds, d, regular, iov[1..], off)
    else
      var (d1, n) := Write(ds, d, regular, iov[0], off);
      if n == -1 then (d1, 0)
      else if n < |iov[0]| then (d1, n)
      else
        var (d2, rest) := WriteAll(ds, d1, regular, iov[1..], off + n);
        (d2, n + rest)
  }

  lemma PaddedMore(data: seq<Byte>, off: nat, b: seq<Byte>)
    requires b != []
    ensures var once := Overwritten(data, off, b);
            && Padded(once, off + |b|) == once && |once| >= off + |b|
            && once[..off + |b|] == Padded(data, off)[..off] + b
            && once[off + |b|..] == if off + |b| <= |Padded(data, off)| then Padded(data, off)[off + |b|..] else []
  {
  }

  lemma DropTwice<T>(s: seq<T>, i: nat, j: nat)
    requires i <= j <= |s|
    ensures s[i..][j - i..] == s[j..]
  {
  }

  /** Writing two pieces one after the other is writing them together. */
  lemma OverwrittenTwice(data: seq<Byte>, off: nat, a: seq<Byte>, b: seq<Byte>)
    ensures Overwritten(Overwritten(data, off, a), off + |a|, b) == Overwritten(data, off, a + b)
  {
    if a == [] {
      assert a + b == b;
    } else if b == [] {
      assert a + b == a;
    } else {
      var p, once := Padded(data, off), Overwritten(data, off, a);
      PaddedMore(data, off, a);
      var m, n := off + |a|, off + |a| + |b|;
      if n <= |p| {
        DropTwice(p, m, n);
        DropTwice(once, m, n);
      }
      assert p[..off] + a + b == p[..off] + (a + b);
    }
  }

  /** Byte by byte: the bytes written where they go, the old ones around them, and zeros in a gap. */
  lemma OverwrittenAt(data: seq<Byte>, off: nat, b: seq<Byte>, i: nat)
    requires b != []
    ensures |Overwritten(data, off, b)| == if off + |b| <= |data| then |data| else off + |b|
    ensures i < |Overwritten(data, off, b)| ==>
              Overwritten(data, off, b)[i] ==
              if off <= i < off + |b| then b[i - off] else if i < |data| then data[i] else 0
  {
    if |data| < off {
      ZerosAreZero(off - |data|);
    }
  }

  lemma {:induction false} ZerosAreZero(n: nat)
    ensures forall i :: 0 <= i < n ==> Zeros(n)[i] == 0
    decreases n
  {
    if n > 0 {
      ZerosAreZero(n - 1);
    }
  }

  lemma ConcatPrefix(iov: seq<seq<Byte>>, n: nat)
    requires iov != []
    ensures n <= |iov[0]| ==> Concat(iov)[..n] == iov[0][..n]
    ensures |iov[0]| <= n <= |Concat(iov)| ==> Concat(iov)[..n] == iov[0] + Concat(iov[1..])[..n - |iov[0]|]
  {
  }

  /** With transfers that move a prefix of their buffer or nothing, what has landed of a vector is the
      prefix of the concatenation whose length is the total, at the offset asked for. */
  lemma {:induction false} WriteAllLands(ds: Daemons, d: Disk, regular: bool, iov: seq<seq<Byte>>, off: nat)
    ensures var (d', total) := WriteAll(ds, d, regular, iov, off);
            total <= |Concat(iov)| && d'.data == Overwritten(d.data, off, Concat(iov)[..total])
    decreases |iov|
  {
    hide Overwritten;
    OverwrittenNothing(d.data, off);
    if iov != [] {
      var (_, total) := WriteAll(ds, d, regular, iov, off);
      if iov[0] == [] {
        assert Concat(iov) == Concat(iov[1..]);
        WriteAllLands(ds, d, regular, iov[1..], off);
      } else {
        var (d1, n) := Write(ds, d, regular, iov[0], off);
        if n == |iov[0]| {
          WriteAllLands(ds, d1, regular, iov[1..], off + n);
          var (_, more) := WriteAll(ds, d1, regular, iov[1..], off + n);
          assert iov[0][..n] == iov[0];
          OverwrittenTwice(d.data, off, iov[0], Concat(iov[1..])[..more]);
          ConcatPrefix(iov, n + more);
        } else if n >= 0 {
          ConcatPrefix(iov, n);
        }
      }
    }
  }

  lemma OverwrittenNothing(data: seq<Byte>, off: nat)
    ensures Overwritten(data, off, []) == data
  {
  }

  /** Buffers of length zero never matter. */
  lemma {:induction false} EmptyBuffers(ds: Daemons, d: Disk, regular: bool, iov: seq<seq<Byte>>, off: nat)
    ensures WriteAll(ds, d, regular, iov, off) == WriteAll(ds, d, regular, NonEmpty(iov), off)
    ensures Concat(NonEmpty(iov)) == Concat(iov)
    decreases |iov|
  {
    if iov != [] {
      if iov[0] == [] {
        assert NonEmpty(iov) == NonEmpty(iov[1..]) && Concat(iov) == Concat(iov[1..]);
        EmptyBuffers(ds, d, regular, iov[1..], off);
      } else {
        var (d1, n) := Write(ds, d, regular, iov[0], off);
        assert NonEmpty(iov)[1..] == NonEmpty(iov[1..]);
        EmptyBuffers(ds, d1, regular, iov[1..], off + if n == -1 then 0 else n);
      }
    }
  }

  /** The daemons write every buffer whole. */
  ghost predicate WriteWhole(ds: Daemons, longest: nat) {
    forall i :: ds.resize(i) == 0 && ds.write(i).Moves? && ds.write(i).limit >= longest
  }

  lemma {:induction false} WriteAllWhole(ds: Daemons, d: Disk, iov: seq<seq<Byte>>, off: nat)
    requires WriteWhole(ds, |Concat(iov)|)
    ensures WriteAll(ds, d, true, iov, off).1 == |Concat(iov)|
    decreases |iov|
  {
    if iov != [] {
      if iov[0] == [] {
        WriteAllWhole(ds, d, iov[1..], off);
      } else {
        var (d1, n) := Write(ds, d, true, iov[0], off);
        WriteAllWhole(ds, d1, iov[1..], off + n);
      }
    }
  }

  /** What a call leaves: the file, the offset of the open file, and the answer. */
  datatype Outcome = Outcome(disk: Disk, pos: nat, ret: int)

  /** `write`: the offset moves by the whole count even when less was written. */
  function Written(ds: Daemons, d: Disk, regular: bool, b: seq<Byte>, pos: nat): Outcome {
    var (d', n) := Write(ds, d, regular, b, pos);
    Outcome(d', pos + if n > 0 then |b| else 0, n)
  }

  /** `writev` */
  function VectorWritten(ds: Daemons, d: Disk, regular: bool, iov: seq<seq<Byte>>, pos: nat): Outcome {
    var (d', total) := WriteAll(ds, d, regular, iov, pos);
    Outcome(d', pos + total, if total == 0 then FAILED else total)
  }

  /** With daemons that write whole buffers, `writev` leaves the bytes, the offset and the answer that
      one `write` of the concatenation leaves. */
  lemma VectorIsFlat(ds: Daemons, d: Disk, iov: seq<seq<Byte>>, pos: nat)
    requires WriteWhole(ds, |Concat(iov)|) && Concat(iov) != []
    ensures var many, one := VectorWritten(ds, d, true, iov, pos), Written(ds, d, true, Concat(iov), pos);
            many.disk.data == one.disk.data && many.pos == one.pos && many.ret == one.ret
  {
    WriteAllLands(ds, d, true, iov, pos);
    WriteAllWhole(ds, d, iov, pos);
  }

  /** The daemons take the write and answer with a number of bytes. */
  predicate Sent(ds: Daemons, d: Disk, regular: bool) {
    regular && ds.resize(d.calls) == 0 && ds.write(d.calls + 1).Moves?
  }

  /** A single buffer leaves in the file what a plain write does. The two leave the offset in different
      places exactly when the daemons move some of the bytes but not all, and answer differently exactly
      when they move none. */
  lemma OneBuffer(ds: Daemons, d: Disk, regular: bool, b: seq<Byte>, pos: nat)
    requires b != []
    ensures var plain, vector := Written(ds, d, regular, b, pos), VectorWritten(ds, d, regular, [b], pos);
            && plain.disk == vector.disk
            && plain.disk.calls == d.calls + (if !regular then 0 else if ds.resize(d.calls) != 0 then 1 else 2)
            && plain.ret == (if Sent(ds, d, regular) then Min(ds.write(d.calls + 1).limit, |b|) else FAILED)
            && (plain.pos != vector.pos <==> Sent(ds, d, regular) && 0 < ds.write(d.calls + 1).limit < |b|)
            && (plain.ret != vector.ret <==> Sent(ds, d, regular) && ds.write(d.calls + 1).limit == 0)
  {
    var (d', n) := Write(ds, d, regular, b, pos);
    assert [b][1..] == [];
    assert WriteAll(ds, d', regular, [], pos + |b|) == (d', 0);
  }

  // ---------------------------------------------------------------- reads, on values

  /** What is left of a file after an offset. */
  function Left(data: seq<Byte>, off: nat): nat {
    if off <= |data| then |data| - off else 0
  }

  /** One read: the number of bytes that reach a buffer of the given length. */
  function Read(ds: Daemons, d: Disk, regular: bool, length: nat, off: nat): (Disk, int) {
    if !regular then (d, FAILED)
    else
      var d1 := Disk(d.data, d.calls + 1);
      match ds.read(d.calls)
      case Error(_) => (d1, FAILED)
      case Moves(limit) =>
        var n: int := Min(limit, Min(length, Left(d.data, off)));
        (d1, n)
  }

  /** Buffers of the given lengths filled one after the other, until one is not filled whole. */
  function ReadTotal(ds: Daemons, d: Disk, regular: bool, lengths: seq<nat>, off: nat): (Disk, nat)
    decreases |lengths|
  {
    if lengths == [] then (d, 0)
    else if lengths[0] == 0 then ReadTotal(ds, d, regular, lengths[1..], off)
    else
      var (d1, n) := Read(ds, d, regular, lengths[0], off);
      if n == FAILED then (d1, 0)
      else if n < lengths[0] then (d1, n)
      else
        var (d2, rest) := ReadTotal(ds, d1, regular, lengths[1..], off + n);
        (d2, n + rest)
  }

  /** The daemons fill every buffer as far as the file goes. */
  ghost predicate ReadWhole(ds: Daemons, longest: nat) {
    forall i :: ds.read(i).Moves? && ds.read(i).limit >= longest
  }

  /** The total is never more than was asked for or is left, and is the smaller of the two
      when the daemons answer in full. */
  lemma {:induction false} ReadTotalBounds(ds: Daemons, d: Disk, regular: bool, lengths: seq<nat>, off: nat)
    ensures var (d', total) := ReadTotal(ds, d, regular, lengths, off);
            && d'.data == d.data
            && total <= Min(Sum(lengths), Left(d.data, off))
            && (regular && ReadWhole(ds, Sum(lengths)) ==> total == Min(Sum(lengths), Left(d.data, off)))
    decreases |lengths|
  {
    if lengths != [] {
      if lengths[0] == 0 {
        ReadTotalBounds(ds, d, regular, lengths[1..], off);
      } else {
        var (d1, n) := Read(ds, d, regular, lengths[0], off);
        if n == lengths[0] {
          ReadTotalBounds(ds, d1, regular, lengths[1..], off + n);
        }
      }
    }
  }

  /** `read` */
  function ReadOnce(ds: Daemons, d: Disk, regular: bool, length: nat, pos: nat): Outcome {
    var (d', n) := Read(ds, d, regular, length, pos);
    Outcome(d', pos + if n > 0 then n else 0, n)
  }

  /** `readv` */
  function VectorRead(ds: Daemons, d: Disk, regular: bool, lengths: seq<nat>, pos: nat): Outcome {
    var (d', total) := ReadTotal(ds, d, regular, lengths, pos);
    Outcome(d', pos + total, if total == 0 then FAILED else total)
  }

  /** A vector of one buffer reads what a plain read does and leaves the offset in the same place. The
      answers differ exactly when the daemons answer but there is nothing to read. */
  lemma OneBufferRead(ds: Daemons, d: Disk, regular: bool, length: nat, pos: nat)
    requires length > 0
    ensures var plain, vector := ReadOnce(ds, d, regular, length, pos), VectorRead(ds, d, regular, [length], pos);
            var served := regular && ds.read(d.calls).Moves?;
            && plain.disk == vector.disk && plain.disk == Disk(d.data, d.calls + if regular then 1 else 0)
            && plain.pos == vector.pos
            && (plain.ret != vector.ret <==> served && Min(ds.read(d.calls).limit, Left(d.data, pos)) == 0)
            && plain.ret == (if served then Min(Min(ds.read(d.calls).limit, length), Left(d.data, pos)) else FAILED)
  {
    var (d', n) := Read(ds, d, regular, length, pos);
    assert [length][1..] == [];
    assert ReadTotal(ds, d', regular, [], pos + length) == (d', 0);
  }

  /** With daemons that answer in full, `readv` reads as much as one `read` of the total length and
      leaves the offset in the same place; the answers differ exactly at the end of the file. */
  lemma VectorReadIsFlat(ds: Daemons, d: Disk, lengths: seq<nat>, pos: nat)
    requires ReadWhole(ds, Sum(lengths)) && Sum(lengths) > 0
    ensures var many, one := VectorRead(ds, d, true, lengths, pos), ReadOnce(ds, d, true, Sum(lengths), pos);
            && many.disk.data == one.disk.data && many.pos == one.pos
            && (many.ret == one.ret <==> pos < |d.data|)
            && (pos >= |d.data| ==> many.ret == FAILED && one.ret == 0)
  {
    ReadTotalBounds(ds, d, true, lengths, pos);
  }

  /** The lengths of buffers add up to the length of their concatenation. */
  lemma {:induction false} SumOfLengths(s: seq<seq<Byte>>, lengths: seq<nat>)
    requires |s| == |lengths| && forall i :: 0 <= i < |s| ==> |s[i]| == lengths[i]
    ensures Sum(lengths) == |Concat(s)|
    decreases |s|
  {
    if s != [] {
      SumOfLengths(s[1..], lengths[1..]);
    }
  }

  /** One turn of the loop over the buffers. */
  lemma WriteAllStep(ds: Daemons, d: Disk, regular: bool, iov: seq<seq<Byte>>, i: nat, off: nat)
    requires i < |iov|
    ensures iov[i] == [] ==> WriteAll(ds, d, regular, iov[i..], off) == WriteAll(ds, d, regular, iov[i + 1..], off)
    ensures iov[i] != [] ==>
              var (d1, n) := Write(ds, d, regular, iov[i], off);
              && (n == FAILED || 0 <= n <= |iov[i]|)
              && (n == FAILED ==> WriteAll(ds, d, regular, iov[i..], off) == (d1, 0))
              && (0 <= n < |iov[i]| ==> WriteAll(ds, d, regular, iov[i..], off) == (d1, n))
              && (n == |iov[i]| ==>
                    var rest := WriteAll(ds, d1, regular, iov[i + 1..], off + n);
                    WriteAll(ds, d, regular, iov[i..], off) == (rest.0, n + rest.1))
  {
    assert iov[i..][0] == iov[i] && iov[i..][1..] == iov[i + 1..];
  }

  lemma NothingToWrite(ds: Daemons, d: Disk, regular: bool, iov: seq<seq<Byte>>, off: nat)
    ensures WriteAll(ds, d, regular, iov[|iov|..], off) == (d, 0)
  {
  }

  /** The same for reads. */
  lemma ReadTotalStep(ds: Daemons, d: Disk, regular: bool, lengths: seq<nat>, i: nat, off: nat)
    requires i < |lengths|
    ensures lengths[i] == 0 ==>
              ReadTotal(ds, d, regular, lengths[i..], off) == ReadTotal(ds, d, regular, lengths[i + 1..], off)
    ensures lengths[i] != 0 ==>
              var (d1, n) := Read(ds, d, regular, lengths[i], off);
              && (n == FAILED || 0 <= n <= lengths[i])
              && (n == FAILED ==> ReadTotal(ds, d, regular, lengths[i..], off) == (d1, 0))
              && (0 <= n < lengths[i] ==> ReadTotal(ds, d, regular, lengths[i..], off) == (d1, n))
              && (n == lengths[i] ==>
                    var rest := ReadTotal(ds, d1, regular, lengths[i + 1..], off + n);
                    ReadTotal(ds, d, regular, lengths[i..], off) == (rest.0, n + rest.1))
  {
    assert lengths[i..][0] == lengths[i] && lengths[i..][1..] == lengths[i + 1..];
  }

  // ---------------------------------------------------------------- buffers filled in place

  /** The first `n` bytes of the buffers are those of the file from an offset, and no other changed. */
  predicate Filled(before: seq<Byte>, after: seq<Byte>, n: nat, data: seq<Byte>, off: nat) {
    && |after| == |before| && n <= |after| && n <= Left(data, off)
    && (n > 0 ==> after[..n] == data[off..off + n])
    && after[n..] == before[n..]
  }

  /** Byte by byte. */
  lemma FilledMeans(before: seq<Byte>, after: seq<Byte>, n: nat, data: seq<Byte>, off: nat)
    ensures Filled(before, after, n, data, off) <==>
              && |after| == |before| && n <= |after| && n <= Left(data, off)
              && forall i :: 0 <= i < |after| ==> after[i] == if i < n then data[off + i] else before[i]
  {
    if |after| == |before| && n <= |after| && n <= Left(data, off) {
      if after[n..] == before[n..] {
        forall i | n <= i < |after|
          ensures after[i] == before[i]
        {
          assert after[n..][i - n] == before[n..][i - n];
        }
      }
      if n > 0 && after[..n] == data[off..off + n] {
        forall i | 0 <= i < n
          ensures after[i] == data[off + i]
        {
          assert after[..n][i] == data[off..off + n][i];
        }
      }
    }
  }

  lemma {:induction false} ConcatSplit(s: seq<seq<Byte>>, i: nat)
    requires i < |s|
    ensures Concat(s) == Concat(s[..i]) + (s[i] + Concat(s[i + 1..]))
    decreases i
  {
    if i > 0 {
      var t := s[1..];
      ConcatSplit(t, i - 1);
      assert s[..i][1..] == t[..i - 1] && t[i..] == s[i + 1..];
      assert s[0] + (Concat(t[..i - 1]) + (s[i] + Concat(t[i..]))) == s[0] + Concat(t[..i - 1]) + (s[i] + Concat(t[i..]));
    } else {
      assert s[..0] == [];
    }
  }

  lemma {:induction false} ConcatSnoc(s: seq<seq<Byte>>, i: nat)
    requires i < |s|
    ensures Concat(s[..i + 1]) == Concat(s[..i]) + s[i]
  {
    var t := s[..i + 1];
    ConcatSplit(t, i);
    assert t[..i] == s[..i] && t[i + 1..] == [];
  }

  /** Filling the next buffer extends what is filled of all of them. */
  lemma FilledNext(s0: seq<seq<Byte>>, s1: seq<seq<Byte>>, i: nat, x: seq<Byte>, m: nat, data: seq<Byte>, off: nat)
    requires i < |s1| && |x| == |s1[i]|
    requires Filled(Concat(s0), Concat(s1), |Concat(s1[..i])|, data, off)
    requires Filled(s1[i], x, m, data, off + |Concat(s1[..i])|)
    ensures Filled(Concat(s0), Concat(s1[i := x]), |Concat(s1[..i])| + m, data, off)
  {
    hide Concat;
    var s2 := s1[i := x];
    ConcatSplit(s1, i);
    ConcatSplit(s2, i);
    assert s2[..i] == s1[..i] && s2[i + 1..] == s1[i + 1..];
    FilledPiece(Concat(s0), Concat(s1[..i]), s1[i], x, Concat(s1[i + 1..]), m, data, off);
  }

  /** The first `i` buffers hold `read` bytes, which are those of the file. */
  ghost predicate Progress(before: seq<seq<Byte>>, now: seq<seq<Byte>>, i: nat, read: nat, data: seq<Byte>, off: nat) {
    && i <= |now| && |Concat(now[..i])| == read
    && Filled(Concat(before), Concat(now), read, data, off)
  }

  /** Nothing but one buffer has changed. */
  predicate OneChanged(s1: seq<seq<Byte>>, s2: seq<seq<Byte>>, i: nat) {
    && i < |s1| == |s2| && |s2[i]| == |s1[i]|
    && forall k :: 0 <= k < |s1| && k != i ==> s2[k] == s1[k]
  }

  /** One more buffer read into, and the next one in line when it has been filled whole. */
  lemma ProgressNext(distinct: bool, s0: seq<seq<Byte>>, s1: seq<seq<Byte>>, s2: seq<seq<Byte>>, i: nat, read: nat, m: nat,
                     data: seq<Byte>, off: nat)
    requires i < |s1| == |s2|
    requires distinct ==> Progress(s0, s1, i, read, data, off) && OneChanged(s1, s2, i)
    requires Filled(s1[i], s2[i], m, data, off + read)
    ensures distinct ==> Filled(Concat(s0), Concat(s2), read + m, data, off)
    ensures distinct && m == |s1[i]| ==> Progress(s0, s2, i + 1, read + m, data, off)
  {
    hide Concat, Filled;
    if distinct {
      assert s2 == s1[i := s2[i]];
      FilledNext(s0, s1, i, s2[i], m, data, off);
      ConcatSnoc(s2, i);
      assert s2[..i] == s1[..i];
    }
  }

  lemma ProgressSkips(distinct: bool, s0: seq<seq<Byte>>, s1: seq<seq<Byte>>, i: nat, read: nat, data: seq<Byte>, off: nat)
    requires distinct ==> Progress(s0, s1, i, read, data, off)
    requires i < |s1| && s1[i] == []
    ensures distinct ==> Progress(s0, s1, i + 1, read, data, off)
  {
    ConcatSnoc(s1, i);
  }

  lemma ProgressEnds(distinct: bool, s0: seq<seq<Byte>>, s1: seq<seq<Byte>>, i: nat, read: nat, data: seq<Byte>, off: nat)
    requires distinct ==> Progress(s0, s1, i, read, data, off)
    ensures distinct ==> Filled(Concat(s0), Concat(s1), read, data, off)
  {
  }

  lemma ProgressStarts(s: seq<seq<Byte>>, data: seq<Byte>, off: nat)
    ensures Progress(s, s, 0, 0, data, off)
  {
  }

  lemma FilledPiece(before: seq<Byte>, a: seq<Byte>, prior: seq<Byte>, x: seq<Byte>, b: seq<Byte>, m: nat,
                    data: seq<Byte>, off: nat)
    requires |x| == |prior|
    requires Filled(before, a + (prior + b), |a|, data, off)
    requires Filled(prior, x, m, data, off + |a|)
    ensures Filled(before, a + (x + b), |a| + m, data, off)
  {
  }

  // ---------------------------------------------------------------- the calls

  /** The contents of some buffers. */
  function Snapshot(iov: seq<array<Byte>>): (s: seq<seq<Byte>>)
    reads set a | a in iov
    ensures |s| == |iov| && forall i :: 0 <= i < |iov| ==> s[i] == iov[i][..]
  {
    if iov == [] then [] else Snapshot(iov[..|iov| - 1]) + [iov[|iov| - 1][..]]
  }

  function Lengths(iov: seq<array<Byte>>): seq<nat> {
    seq(|iov|, i requires 0 <= i < |iov| => iov[i].Length)
  }

  class FileSystem {
    const daemons: Daemons
    const openFiles: OpenFileMap
    var contents: map<string, seq<Byte>>
    var calls: nat

    constructor (daemons: Daemons, openFiles: OpenFileMap)
      ensures this.daemons == daemons && this.openFiles == openFiles && contents == map[] && calls == 0
    {
      this.daemons, this.openFiles, contents, calls := daemons, openFiles, map[], 0;
    }

    function Content(path: string): seq<Byte>
      reads this`contents
    {
      if path in contents then contents[path] else []
    }

    function DiskOf(path: string): Disk
      reads this`contents, this`calls
    {
      Disk(Content(path), calls)
    }

    function FileAt(fd: int): OpenFile
      requires fd in openFiles.files
      reads openFiles
    {
      openFiles.files[fd]
    }

    /** Every other file is as it was. */
    twostate predicate OthersKept(path: string)
      reads this`contents
    {
      forall p :: p != path ==> Content(p) == old(Content(p))
    }

    method Pwrite(file: OpenFile, b: seq<Byte>, off: nat) returns (ret: int)
      requires b != [] || off > 0
      modifies this`contents, this`calls
      ensures (DiskOf(file.path), ret) == Write(daemons, old(DiskOf(file.path)), file.fileType == Regular, b, off)
      ensures OthersKept(file.path)
    {
      if file.fileType != Regular {
        return FAILED;
      }
      var err := daemons.resize(calls);
      calls := calls + 1;
      if err != 0 {
        return FAILED;
      }
      var reply := daemons.write(calls);
      calls := calls + 1;
      match reply
      case Error(_) =>
        ret := FAILED;
      case Moves(limit) =>
        var n := Min(limit, |b|);
        contents := contents[file.path := Overwritten(Content(file.path), off, b[..n])];
        ret := n;
    }

    method WriteFd(fd: int, b: seq<Byte>) returns (ret: int)
      requires fd in openFiles.files && Append !in openFiles.files[fd].flags
      requires b != [] || openFiles.files[fd].pos > 0
      modifies this`contents, this`calls, FileAt(fd)`pos
      ensures var file := openFiles.files[fd];
              Outcome(DiskOf(file.path), file.pos, ret) ==
              Written(daemons, old(DiskOf(file.path)), file.fileType == Regular, b, old(file.pos))
      ensures OthersKept(openFiles.files[fd].path)
    {
      var file := openFiles.files[fd];
      var pos := file.pos;
      ret := Pwrite(file, b, pos);
      if ret > 0 {
        file.pos := pos + |b|;
      }
    }

    method Pwritev(fd: int, iov: seq<seq<Byte>>, off: nat) returns (ret: int)
      requires fd in openFiles.files
      modifies this`contents, this`calls
      ensures var file := openFiles.files[fd];
              var (d, total) := WriteAll(daemons, old(DiskOf(file.path)), file.fileType == Regular, iov, off);
              DiskOf(file.path) == d && ret == if total == 0 then FAILED else total
      ensures OthersKept(openFiles.files[fd].path)
    {
      hide Write, WriteAll;
      var file := openFiles.files[fd];
      assert iov[0..] == iov;
      ghost var regular, start := file.fileType == Regular, DiskOf(file.path);
      var pos: nat, written: nat := off, 0;
      var i := 0;
      ghost var result := WriteAll(daemons, start, regular, iov, off);
      while i < |iov|
        invariant 0 <= i <= |iov| && pos == off + written
        invariant OthersKept(file.path)
        invariant var rest := WriteAll(daemons, DiskOf(file.path), regular, iov[i..], pos);
                  result == (rest.0, written + rest.1)
      {
        WriteAllStep(daemons, DiskOf(file.path), regular, iov, i, pos);
        if iov[i] == [] {
          i := i + 1;
          continue;
        }
        var n := Pwrite(file, iov[i], pos);
        if n == FAILED {
          break;
        }
        written := written + n;
        pos := pos + n;
        if n < |iov[i]| {
          break;
        }
        i := i + 1;
      }
      if i == |iov| {
        NothingToWrite(daemons, DiskOf(file.path), regular, iov, pos);
      }
      ret := if written == 0 then FAILED else written;
    }

    method Writev(fd: int, iov: seq<seq<Byte>>) returns (ret: int)
      requires fd in openFiles.files
      modifies this`contents, this`calls, FileAt(fd)`pos
      ensures var file := openFiles.files[fd];
              Outcome(DiskOf(file.path), file.pos, ret) ==
              VectorWritten(daemons, old(DiskOf(file.path)), file.fileType == Regular, iov, old(file.pos))
      ensures OthersKept(openFiles.files[fd].path)
    {
      var file := openFiles.files[fd];
      var pos := file.pos;
      ghost var total: nat := WriteAll(daemons, DiskOf(file.path), file.fileType == Regular, iov, pos).1;
      ret := Pwritev(fd, iov, pos);
      assert ret != 0;
      if ret < 0 {
        return FAILED;
      }
      file.pos := pos + ret;
    }

    method Pread(file: OpenFile, buf: array<Byte>, off: nat) returns (ret: int)
      requires buf.Length > 0 || off > 0
      modifies this`calls, buf
      ensures (DiskOf(file.path), ret) == Read(daemons, old(DiskOf(file.path)), file.fileType == Regular, buf.Length, off)
      ensures var n := if ret == FAILED then 0 else ret;
              0 <= n <= buf.Length && Filled(old(buf[..]), buf[..], n, Content(file.path), off)
    {
      if file.fileType != Regular {
        return FAILED;
      }
      var reply := daemons.read(calls);
      calls := calls + 1;
      match reply
      case Error(_) =>
        ret := FAILED;
      case Moves(limit) =>
        var data := Content(file.path);
        var n := Min(limit, Min(buf.Length, Left(data, off)));
        forall i | 0 <= i < n {
          buf[i] := data[off + i];
        }
        ret := n;
    }

    method ReadFd(fd: int, buf: array<Byte>) returns (ret: int)
      requires fd in openFiles.files && (buf.Length > 0 || openFiles.files[fd].pos > 0)
      modifies this`calls, buf, FileAt(fd)`pos
      ensures var file := openFiles.files[fd];
              && Outcome(DiskOf(file.path), file.pos, ret) ==
                 ReadOnce(daemons, old(DiskOf(file.path)), file.fileType == Regular, buf.Length, old(file.pos))
              && Filled(old(buf[..]), buf[..], file.pos - old(file.pos), Content(file.path), old(file.pos))
    {
      var file := openFiles.files[fd];
      var pos := file.pos;
      ret := Pread(file, buf, pos);
      if ret > 0 {
        file.pos := pos + ret;
      }
    }

    method Preadv(fd: int, iov: seq<array<Byte>>, off: nat) returns (ret: int)
      requires fd in openFiles.files
      modifies this`calls, set a | a in iov
      ensures var file := openFiles.files[fd];
              var (d, total) := ReadTotal(daemons, old(DiskOf(file.path)), file.fileType == Regular, Lengths(iov), off);
              && DiskOf(file.path) == d && ret == (if total == 0 then FAILED else total)
              && (Distinct(iov) ==> Filled(Concat(old(Snapshot(iov))), Concat(Snapshot(iov)), total, Content(file.path), off))
              && total <= Min(|Concat(Snapshot(iov))|, Left(Content(file.path), off))
              && (file.fileType == Regular && ReadWhole(daemons, Sum(Lengths(iov))) ==>
                    total == Min(|Concat(Snapshot(iov))|, Left(Content(file.path), off)))
    {
      hide Progress, Read, ReadTotal, Filled, Concat, Left, Min, Padded, Overwritten, Write, WriteAll, Sum, Snapshot;
      var file := openFiles.files[fd];
      ghost var regular, lengths, data := file.fileType == Regular, Lengths(iov), Content(file.path);
      ghost var before, distinct := Snapshot(iov), Distinct(iov);
      ghost var result := ReadTotal(daemons, DiskOf(file.path), regular, lengths, off);
      var pos: nat, read: nat := off, 0;
      var i := 0;
      assert lengths[0..] == lengths;
      ProgressStarts(before, data, off);
      while i < |iov|
        invariant 0 <= i <= |iov| && pos == off + read
        invariant contents == old(contents)
        invariant distinct ==> Progress(before, Snapshot(iov), i, read, data, off)
        invariant var rest := ReadTotal(daemons, DiskOf(file.path), regular, lengths[i..], pos);
                  result == (rest.0, read + rest.1)
      {
        ReadTotalStep(daemons, DiskOf(file.path), regular, lengths, i, pos);
        ghost var s1 := Snapshot(iov);
        if iov[i].Length == 0 {
          ProgressSkips(distinct, before, s1, i, read, data, off);
          i := i + 1;
          continue;
        }
        var n := Pread(file, iov[i], pos);
        assert distinct ==> OneChanged(s1, Snapshot(iov), i);
        ProgressNext(distinct, before, s1, Snapshot(iov), i, read, if n == FAILED then 0 else n, data, off);
        if n == FAILED {
          break;
        }
        read := read + n;
        pos := pos + n;
        if n < iov[i].Length {
          break;
        }
        i := i + 1;
      }
      if i == |iov| {
        NothingToRead(daemons, DiskOf(file.path), regular, lengths, pos);
        ProgressEnds(distinct, before, Snapshot(iov), i, read, data, off);
      }
      assert result == (DiskOf(file.path), read);
      assert distinct ==> Filled(Concat(before), Concat(Snapshot(iov)), read, data, off);
      ReadTotalBounds(daemons, old(DiskOf(file.path)), regular, lengths, off);
      SumOfLengths(Snapshot(iov), lengths);
      ret := if read == 0 then FAILED else read;
    }

    /** `readv`: the offset, which all descriptors of the same open file share, moves by what was read. */
    method Readv(fd: int, iov: seq<array<Byte>>) returns (ret: int)
      requires fd in openFiles.files
      modifies this`calls, FileAt(fd)`pos, set a | a in iov
      ensures var file := openFiles.files[fd];
              && Outcome(DiskOf(file.path), file.pos, ret) ==
                 VectorRead(daemons, old(DiskOf(file.path)), file.fileType == Regular, Lengths(iov), old(file.pos))
              && (Distinct(iov) ==>
                    file.pos >= old(file.pos) &&
                    Filled(Concat(old(Snapshot(iov))), Concat(Snapshot(iov)), file.pos - old(file.pos),
                           Content(file.path), old(file.pos)))
              && forall g :: g in openFiles.files && openFiles.files[g] != file ==>
                   openFiles.files[g].pos == old(openFiles.files[g].pos)
    {
      hide Read, ReadTotal, Filled, Concat;
      var file := openFiles.files[fd];
      var pos := file.pos;
      ghost var total: nat := ReadTotal(daemons, DiskOf(file.path), file.fileType == Regular, Lengths(iov), pos).1;
      ret := Preadv(fd, iov, pos);
      assert ret != 0;
      if ret < 0 {
        return FAILED;
      }
      ghost var filled := Snapshot(iov);
      file.pos := pos + ret;
      assert Snapshot(iov) == filled;
    }
  }

  lemma NothingToRead(ds: Daemons, d: Disk, regular: bool, lengths: seq<nat>, off: nat)
    ensures ReadTotal(ds, d, regular, lengths[|lengths|..], off) == (d, 0)
  {
  }
}
