/** `getdents` and `getdents64`: a resumable printer of directory entries into a caller's buffer. */
module Dirents {
  import opened Common
  import opened DirentLayout
  import opened OpenFiles

  datatype DirEntry = DirEntry(name: seq<Byte>, fileType: FileType)

  const DT_DIR: Byte := 4
  const DT_REG: Byte := 8

  /** An open directory: its entries, and the position the next call starts from. */
  class OpenDir {
    const path: seq<Byte>
    var entries: seq<DirEntry>
    var pos: nat

    constructor (path: seq<Byte>)
      ensures this.path == path && entries == [] && pos == 0
    {
      this.path, entries, pos := path, [], 0;
    }

    method Add(name: seq<Byte>, fileType: FileType)
      modifies this`entries
      ensures entries == old(entries) + [DirEntry(name, fileType)]
    {
      entries := entries + [DirEntry(name, fileType)];
    }
  }

  function Kind(t: FileType): Byte {
    if t == Regular then DT_REG else DT_DIR
  }

  /** `std::hash` of a full path, which this model leaves open. */
  type Hash = seq<Byte> -> nat

  ghost predicate IsHash(hash: Hash) {
    forall s :: hash(s) <= MAX_ULONG
  }

  function FullName(path: seq<Byte>, name: seq<Byte>): seq<Byte> {
    path + [47 as Byte] + name
  }

  /** The record of the entry at a position; its offset is the position after it. */
  function EntryDirent(hash: Hash, path: seq<Byte>, e: DirEntry, pos: nat): Dirent {
    Dirent(hash(FullName(path, e.name)), pos + 1, Kind(e.fileType), e.name)
  }

  // ---------------------------------------------------------------- what fits

  /** Where packing stops: at the first entry whose record does not fit what is left of the buffer. */
  function Fit(l: Layout, entries: seq<DirEntry>, pos: nat, room: nat): (end: nat)
    requires pos <= |entries|
    ensures pos <= end <= |entries|
    ensures end == pos <==> pos == |entries| || RecordSize(l, entries[pos].name) > room
    decreases |entries| - pos
  {
    if pos < |entries| && RecordSize(l, entries[pos].name) <= room
    then Fit(l, entries, pos + 1, room - RecordSize(l, entries[pos].name))
    else pos
  }

  /** The bytes taken by the records of some entries. */
  function Size(l: Layout, entries: seq<DirEntry>, from: nat, to: nat): (n: nat)
    requires from <= to <= |entries|
    ensures n % 8 == 0 && (from < to ==> n > 0)
    decreases |entries| - from
  {
    if from == to then 0 else RecordSize(l, entries[from].name) + Size(l, entries, from + 1, to)
  }

  lemma {:induction false} SizeSnoc(l: Layout, entries: seq<DirEntry>, from: nat, to: nat)
    requires from <= to < |entries|
    ensures Size(l, entries, from, to + 1) == Size(l, entries, from, to) + RecordSize(l, entries[to].name)
    decreases |entries| - from
  {
    if from < to {
      SizeSnoc(l, entries, from + 1, to);
    }
  }

  /** What is packed fits, and the next record would not. */
  lemma {:induction false} FitIsGreedy(l: Layout, entries: seq<DirEntry>, pos: nat, room: nat)
    requires pos <= |entries|
    ensures var end := Fit(l, entries, pos, room);
            && Size(l, entries, pos, end) <= room
            && (end < |entries| ==> Size(l, entries, pos, end) + RecordSize(l, entries[end].name) > room)
    decreases |entries| - pos
  {
    if pos < |entries| && RecordSize(l, entries[pos].name) <= room {
      FitIsGreedy(l, entries, pos + 1, room - RecordSize(l, entries[pos].name));
    }
  }

  /** `n` is where packing stops, when the entries before it fit and it is the end or does not. */
  lemma {:induction false} FitUnique(l: Layout, entries: seq<DirEntry>, pos: nat, room: nat, n: nat)
    requires pos <= n <= |entries|
    requires Size(l, entries, pos, n) <= room
    requires n < |entries| ==> Size(l, entries, pos, n) + RecordSize(l, entries[n].name) > room
    ensures Fit(l, entries, pos, room) == n
    decreases |entries| - pos
  {
    if pos < n {
      FitUnique(l, entries, pos + 1, room - RecordSize(l, entries[pos].name), n);
    }
  }

  // ---------------------------------------------------------------- what a buffer holds

  /** The bytes are the records of the entries from one position up to another, one after the other. */
  predicate Records(l: Layout, hash: Hash, path: seq<Byte>, entries: seq<DirEntry>, from: nat, to: nat, b: seq<Byte>)
    requires from <= to <= |entries|
    decreases |entries| - from
  {
    if from == to then b == [] else
      var size := RecordSize(l, entries[from].name);
      && size <= |b|
      && Holds(l, b[..size], EntryDirent(hash, path, entries[from], from))
      && Records(l, hash, path, entries, from + 1, to, b[size..])
  }

  lemma {:induction false} RecordsSnoc(l: Layout, hash: Hash, path: seq<Byte>, entries: seq<DirEntry>,
                                       from: nat, to: nat, b: seq<Byte>, rec: seq<Byte>)
    requires from <= to < |entries|
    requires Records(l, hash, path, entries, from, to, b)
    requires Holds(l, rec, EntryDirent(hash, path, entries[to], to))
    ensures Records(l, hash, path, entries, from, to + 1, b + rec)
    decreases |entries| - from
  {
    hide Holds;
    if from == to {
      assert b + rec == rec && rec[..|rec|] == rec && rec[|rec|..] == [];
      HoldsSize(l, rec, EntryDirent(hash, path, entries[to], to));
    } else {
      var size := RecordSize(l, entries[from].name);
      assert (b + rec)[..size] == b[..size] && (b + rec)[size..] == b[size..] + rec;
      RecordsSnoc(l, hash, path, entries, from + 1, to, b[size..], rec);
    }
  }

  lemma HoldsSize(l: Layout, rec: seq<Byte>, d: Dirent)
    requires Holds(l, rec, d)
    ensures |rec| == RecordSize(l, d.name)
  {
  }

  /** The records a reader should see. */
  function Listing(hash: Hash, path: seq<Byte>, entries: seq<DirEntry>, from: nat, to: nat): seq<Dirent>
    requires from <= to <= |entries|
    decreases |entries| - from
  {
    if from == to then [] else [EntryDirent(hash, path, entries[from], from)] + Listing(hash, path, entries, from + 1, to)
  }

  /** The records are those of the entries in order: each has its entry's name, the kind 4 of a directory
      or 8 of a file, a hash of the full path as its inode, and as its offset the position after it. */
  lemma {:induction false} ListingAt(hash: Hash, path: seq<Byte>, entries: seq<DirEntry>, from: nat, to: nat, i: nat)
    requires from <= to <= |entries| && i < to - from
    ensures |Listing(hash, path, entries, from, to)| == to - from
    ensures var d, e := Listing(hash, path, entries, from, to)[i], entries[from + i];
            && d.name == e.name && d.off == from + i + 1
            && d.kind == (if e.fileType == Directory then 4 else 8)
            && d.ino == hash(path + [47 as Byte] + e.name)
    decreases |entries| - from
  {
    if from + 1 < to {
      ListingAt(hash, path, entries, from + 1, to, if i == 0 then 0 else i - 1);
    } else {
      assert Listing(hash, path, entries, from + 1, to) == [];
    }
  }

  lemma {:induction false} ListingSplit(hash: Hash, path: seq<Byte>, entries: seq<DirEntry>, from: nat, mid: nat, to: nat)
    requires from <= mid <= to <= |entries|
    ensures Listing(hash, path, entries, from, to) ==
            Listing(hash, path, entries, from, mid) + Listing(hash, path, entries, mid, to)
    decreases |entries| - from
  {
    if from < mid {
      ListingSplit(hash, path, entries, from + 1, mid, to);
    }
  }

  /** Reading on at the offset of a record of a listing leaves exactly what comes after it. */
  lemma ResumesAfter(hash: Hash, path: seq<Byte>, entries: seq<DirEntry>, from: nat, to: nat, i: nat)
    requires from <= to <= |entries| && i < to - from
    ensures var all := Listing(hash, path, entries, from, to);
            && |all| == to - from && from < all[i].off <= to
            && all[i + 1..] == Listing(hash, path, entries, all[i].off, to)
  {
    hide Listing;
    ListingAt(hash, path, entries, from, to, i);
    var mid := from + i + 1;
    ListingSplit(hash, path, entries, from, mid, to);
    ListingAt(hash, path, entries, from, mid, i);
  }

  lemma ListingSize(hash: Hash, path: seq<Byte>, entries: seq<DirEntry>, from: nat, to: nat)
    requires from <= to <= |entries|
    ensures |Listing(hash, path, entries, from, to)| == to - from
  {
    if from < to {
      ListingAt(hash, path, entries, from, to, 0);
    }
  }

  /** What has been read up to a record is the listing up to its offset. */
  lemma ReadUpTo(hash: Hash, path: seq<Byte>, entries: seq<DirEntry>, end: nat, i: nat)
    requires end <= |entries| && i < |Listing(hash, path, entries, 0, end)|
    ensures var all := Listing(hash, path, entries, 0, end);
            && i < end && all[i].off <= end && all[i].name == entries[i].name
            && all[..i + 1] == Listing(hash, path, entries, 0, all[i].off)
  {
    hide Listing;
    ListingSize(hash, path, entries, 0, end);
    ListingAt(hash, path, entries, 0, end, i);
    ListingSplit(hash, path, entries, 0, i + 1, end);
    ListingSize(hash, path, entries, 0, i + 1);
  }

  /** Every name can be carried by a record. */
  predicate AllCarried(l: Layout, entries: seq<DirEntry>) {
    forall i :: 0 <= i < |entries| ==> Carries(l, entries[i].name)
  }

  lemma ReadFirst(l: Layout, b: seq<Byte>, size: nat, d: Dirent)
    requires size <= |b| && Holds(l, b[..size], d) && Carries(l, d.name)
    requires d.ino <= MAX_ULONG && d.off <= MAX_ULONG
    ensures HasRecord(l, b) && LengthOf(b) == size && ReadRecord(l, b) == d
  {
    var rec := b[..size];
    RecordRoundTrip(l, rec, d);
    assert b[0..8] == rec[0..8] && b[8..16] == rec[8..16] && b[16..18] == rec[16..18];
    assert b[NameAt(l)..size] == rec[NameAt(l)..size];
  }

  /** Walking the buffer by the record lengths recovers exactly the names, types and positions packed. */
  lemma {:induction false} ReadBack(l: Layout, hash: Hash, path: seq<Byte>, entries: seq<DirEntry>,
                                    from: nat, to: nat, b: seq<Byte>)
    requires from <= to <= |entries| <= MAX_ULONG
    requires IsHash(hash) && AllCarried(l, entries)
    requires Records(l, hash, path, entries, from, to, b)
    ensures ReadAll(l, b) == Listing(hash, path, entries, from, to)
    decreases |entries| - from
  {
    hide Holds, HasRecord, LengthOf, ReadRecord, Carries;
    if from < to {
      var size := RecordSize(l, entries[from].name);
      ReadFirst(l, b, size, EntryDirent(hash, path, entries[from], from));
      ReadBack(l, hash, path, entries, from + 1, to, b[size..]);
    } else {
      NoRecord(l);
    }
  }

  lemma NoRecord(l: Layout)
    ensures !HasRecord(l, [])
  {
  }

  // ---------------------------------------------------------------- storing into the caller's buffer

  /** The bytes from `from` up to `to` may differ, and no others. */
  predicate Differs(before: seq<Byte>, after: seq<Byte>, from: nat, to: nat) {
    |before| == |after| && forall i :: 0 <= i < |after| && (i < from || to <= i) ==> after[i] == before[i]
  }

  /** What does not overlap the changed stretch is kept. */
  lemma Kept(before: seq<Byte>, after: seq<Byte>, from: nat, to: nat, a: nat, b: nat)
    requires Differs(before, after, from, to)
    requires a <= b <= |after| && (b <= from || to <= a)
    ensures after[a..b] == before[a..b]
  {
  }

  lemma Part(s: seq<Byte>, at: nat, size: nat, i: nat, j: nat)
    requires i <= j <= size && at + size <= |s|
    ensures s[at..at + size][i..j] == s[at + i..at + j]
  {
    var part, whole := s[at..at + size], s[at + i..at + j];
    forall k | 0 <= k < j - i
      ensures part[i..j][k] == whole[k]
    {
      assert part[i..j][k] == part[i + k] == s[at + i + k];
    }
  }

  /** The fields of a record, each in its place in the whole buffer. */
  predicate Fields(l: Layout, s: seq<Byte>, at: nat, d: Dirent)
    requires at + RecordSize(l, d.name) <= |s|
  {
    var size, c := RecordSize(l, d.name), CString(0, d.name);
    && s[at..at + 8] == Bytes(d.ino, 8)
    && s[at + 8..at + 16] == Bytes(d.off, 8)
    && s[at + 16..at + 18] == Bytes(size, 2)
    && s[at + TypeAt(l, size)] == d.kind
    && s[at + NameAt(l)..at + NameAt(l) + |c|] == c
    && s[at + NameAt(l) + |c|] == 0
  }

  lemma FieldsHold(l: Layout, s: seq<Byte>, at: nat, d: Dirent)
    requires at + RecordSize(l, d.name) <= |s| && Fields(l, s, at, d)
    ensures Holds(l, s[at..at + RecordSize(l, d.name)], d)
  {
    hide Bytes, CString;
    var size, c := RecordSize(l, d.name), CString(0, d.name);
    Part(s, at, size, 0, 8);
    Part(s, at, size, 8, 16);
    Part(s, at, size, 16, 18);
    Part(s, at, size, NameAt(l), NameAt(l) + |c|);
    var rec := s[at..at + size];
    assert rec[TypeAt(l, size)] == s[at + TypeAt(l, size)];
    assert rec[NameAt(l) + |c|] == s[at + NameAt(l) + |c|];
  }

  /** Storing an integer field of the given width, least significant byte first. */
  method StoreNumber(buf: array<Byte>, at: nat, width: nat, value: nat)
    requires at + width <= buf.Length
    modifies buf
    ensures buf[..][at..at + width] == Bytes(value, width)
    ensures Differs(old(buf[..]), buf[..], at, at + width)
  {
    var i, rest := 0, value;
    ghost var all := Bytes(value, width);
    while i < width
      invariant i <= width
      invariant all == buf[at..at + i] + Bytes(rest, width - i)
      invariant Differs(old(buf[..]), buf[..], at, at + i)
    {
      buf[at + i] := (rest % 256) as Byte;
      rest := rest / 256;
      i := i + 1;
    }
  }

  /** `strcpy`: the name up to its first NUL, and a NUL. */
  method CopyString(buf: array<Byte>, at: nat, name: seq<Byte>)
    requires at + |name| + 1 <= buf.Length
    modifies buf
    ensures var c := CString(0, name); buf[..][at..at + |c|] == c && buf[at + |c|] == 0
    ensures Differs(old(buf[..]), buf[..], at, at + |CString(0, name)| + 1)
  {
    var i := 0;
    ghost var c := CString(0, name);
    while i < |name| && name[i] != 0
      invariant i <= |c|
      invariant buf[at..at + i] == c[..i]
      invariant Differs(old(buf[..]), buf[..], at, at + i)
    {
      StringGoesOn(name, i);
      buf[at + i] := name[i];
      i := i + 1;
    }
    StringEnds(name, i);
    buf[at + i] := 0;
  }

  lemma StringGoesOn(name: seq<Byte>, i: nat)
    requires i < |name| && i <= |CString(0, name)| && name[i] != 0
    ensures i < |CString(0, name)| && CString(0, name)[i] == name[i]
  {
  }

  lemma StringEnds(name: seq<Byte>, i: nat)
    requires i <= |name| && i <= |CString(0, name)| && (i < |name| ==> name[i] == 0)
    ensures i == |CString(0, name)|
  {
  }

  /** The fields of a `linux_dirent64`, in the order the source stores them. */
  method StoreRecord64(buf: array<Byte>, at: nat, d: Dirent)
    requires at + RecordSize(New64, d.name) <= buf.Length
    modifies buf
    ensures Holds(New64, buf[..][at..at + RecordSize(New64, d.name)], d)
    ensures Differs(old(buf[..]), buf[..], at, at + RecordSize(New64, d.name))
  {
    hide Bytes, CString, Holds;
    var size := RecordSize(New64, d.name);
    ghost var c := CString(0, d.name);
    StoreNumber(buf, at, 8, d.ino);
    ghost var s1 := buf[..];
    StoreNumber(buf, at + 16, 2, size);
    ghost var s2 := buf[..];
    buf[at + 18] := d.kind;
    ghost var s3 := buf[..];
    CopyString(buf, at + 19, d.name);
    ghost var s4 := buf[..];
    StoreNumber(buf, at + 8, 8, d.off);
    ghost var s5 := buf[..];
    Kept(s1, s5, at + 8, at + size, at, at + 8);
    Kept(s2, s3, at + 18, at + 19, at + 16, at + 18);
    Kept(s3, s4, at + 19, at + size, at + 16, at + 18);
    Kept(s4, s5, at + 8, at + 16, at + 16, at + 18);
    Kept(s4, s5, at + 8, at + 16, at + 19, at + 19 + |c|);
    FieldsHold(New64, s5, at, d);
  }

  /** The fields of a `linux_dirent`, in the order the source stores them: the type byte, in the
      last place of the record, is stored before the name and survives it. */
  method StoreRecordOld(buf: array<Byte>, at: nat, d: Dirent)
    requires at + RecordSize(Old, d.name) <= buf.Length
    modifies buf
    ensures Holds(Old, buf[..][at..at + RecordSize(Old, d.name)], d)
    ensures Differs(old(buf[..]), buf[..], at, at + RecordSize(Old, d.name))
  {
    hide Bytes, CString, Holds;
    var size := RecordSize(Old, d.name);
    ghost var c := CString(0, d.name);
    StoreNumber(buf, at, 8, d.ino);
    ghost var s1 := buf[..];
    StoreNumber(buf, at + 16, 2, size);
    ghost var s2 := buf[..];
    buf[at + size - 1] := d.kind;
    ghost var s3 := buf[..];
    CopyString(buf, at + 18, d.name);
    ghost var s4 := buf[..];
    StoreNumber(buf, at + 8, 8, d.off);
    OldFieldsKept(s1, s2, s3, s4, buf[..], at, d);
    FieldsHold(Old, buf[..], at, d);
  }

  /** Each field, once stored, is out of the way of the later ones. */
  lemma OldFieldsKept(s1: seq<Byte>, s2: seq<Byte>, s3: seq<Byte>, s4: seq<Byte>, s5: seq<Byte>, at: nat, d: Dirent)
    requires at + RecordSize(Old, d.name) <= |s1|
    requires s1[at..at + 8] == Bytes(d.ino, 8)
    requires Differs(s1, s2, at + 16, at + 18) && s2[at + 16..at + 18] == Bytes(RecordSize(Old, d.name), 2)
    requires Differs(s2, s3, at + RecordSize(Old, d.name) - 1, at + RecordSize(Old, d.name))
    requires s3[at + RecordSize(Old, d.name) - 1] == d.kind
    requires var c := CString(0, d.name);
             Differs(s3, s4, at + 18, at + 18 + |c| + 1) && s4[at + 18..at + 18 + |c|] == c && s4[at + 18 + |c|] == 0
    requires Differs(s4, s5, at + 8, at + 16) && s5[at + 8..at + 16] == Bytes(d.off, 8)
    ensures Fields(Old, s5, at, d)
  {
    hide Bytes, CString;
    var size, c := RecordSize(Old, d.name), CString(0, d.name);
    Kept(s1, s5, at + 8, at + size, at, at + 8);
    Kept(s2, s3, at + size - 1, at + size, at + 16, at + 18);
    Kept(s3, s4, at + 18, at + 18 + |c| + 1, at + 16, at + 18);
    Kept(s4, s5, at + 8, at + 16, at + 16, at + 18);
    Kept(s4, s5, at + 8, at + 16, at + 18, at + 18 + |c|);
  }

  // ---------------------------------------------------------------- the two calls

  /** An `unsigned int` returned as an `int`: the same number up to multiples of the range. */
  function ToInt(n: nat): (i: int)
    ensures -0x8000_0000 <= i < 0x8000_0000 && (n - i) % UINT_RANGE == 0
  {
    if n % UINT_RANGE < 0x8000_0000 then n % UINT_RANGE else n % UINT_RANGE - UINT_RANGE
  }

  /** What a call leaves in the buffer: records at the front, and the rest as it was. */
  predicate Packed(l: Layout, hash: Hash, path: seq<Byte>, entries: seq<DirEntry>, from: nat, to: nat,
                   before: seq<Byte>, after: seq<Byte>)
    requires from <= to <= |entries|
  {
    var n := Size(l, entries, from, to);
    && n <= |after|
    && Records(l, hash, path, entries, from, to, after[..n])
    && Differs(before, after, 0, n)
  }

  lemma PackedStart(l: Layout, hash: Hash, path: seq<Byte>, entries: seq<DirEntry>, from: nat, before: seq<Byte>)
    requires from <= |entries|
    ensures Packed(l, hash, path, entries, from, from, before, before)
  {
  }

  lemma PackedNext(l: Layout, hash: Hash, path: seq<Byte>, entries: seq<DirEntry>, from: nat, to: nat,
                   s0: seq<Byte>, s1: seq<Byte>, s2: seq<Byte>)
    requires from <= to < |entries|
    requires Packed(l, hash, path, entries, from, to, s0, s1)
    requires var n, size := Size(l, entries, from, to), RecordSize(l, entries[to].name);
             && n + size <= |s2| && Differs(s1, s2, n, n + size)
             && Holds(l, s2[n..n + size], EntryDirent(hash, path, entries[to], to))
    ensures Packed(l, hash, path, entries, from, to + 1, s0, s2)
  {
    hide Records, Holds;
    var n, size := Size(l, entries, from, to), RecordSize(l, entries[to].name);
    SizeSnoc(l, entries, from, to);
    Kept(s1, s2, n, n + size, 0, n);
    assert s1[0..n] == s1[..n] && s2[0..n] == s2[..n];
    RecordsSnoc(l, hash, path, entries, from, to, s1[..n], s2[n..n + size]);
    assert s2[..n + size] == s2[..n] + s2[n..n + size];
  }

  /** The answer of a call: nothing left, no room for the next record, or the bytes packed. */
  predicate Answered(l: Layout, hash: Hash, path: seq<Byte>, entries: seq<DirEntry>, count: nat, pos: nat, pos': nat,
                           before: seq<Byte>, after: seq<Byte>, ret: int, errno: int)
  {
    if pos >= |entries| then ret == 0 && pos' == pos && after == before
    else
      && pos' == Fit(l, entries, pos, count)
      && Packed(l, hash, path, entries, pos, pos', before, after)
      && (if pos' == pos then ret == -1 && errno == EINVAL && after == before
          else ret == ToInt(Size(l, entries, pos, pos')))
  }

  lemma AnsweredAt(l: Layout, hash: Hash, path: seq<Byte>, entries: seq<DirEntry>, count: nat, pos: nat, pos': nat,
                   before: seq<Byte>, after: seq<Byte>)
    requires pos < |entries| && pos <= pos' <= |entries|
    requires Size(l, entries, pos, pos') <= count
    requires pos' < |entries| ==> Size(l, entries, pos, pos') + RecordSize(l, entries[pos'].name) > count
    requires Packed(l, hash, path, entries, pos, pos', before, after)
    ensures pos' == pos ==> Answered(l, hash, path, entries, count, pos, pos', before, after, -1, EINVAL)
    ensures pos' > pos ==> Size(l, entries, pos, pos') > 0
    ensures pos' > pos ==>
              Answered(l, hash, path, entries, count, pos, pos', before, after, ToInt(Size(l, entries, pos, pos')), 0)
  {
    FitUnique(l, entries, pos, count, pos');
    if pos == pos' {
      assert after == before;
    }
  }

  /** `getdents64` */
  method Getdents64(hash: Hash, dir: OpenDir?, buf: array<Byte>, count: nat) returns (ret: int, errno: int)
    requires count <= buf.Length && count < UINT_RANGE
    modifies buf, if dir == null then {} else {dir}
    ensures dir == null ==> ret == -1 && errno == EBADF && buf[..] == old(buf[..])
    ensures dir != null ==> dir.entries == old(dir.entries)
    ensures dir != null ==>
              Answered(New64, hash, dir.path, dir.entries, count, old(dir.pos), dir.pos, old(buf[..]), buf[..], ret, errno)
  {
    hide Answered, Packed, Holds, Size, Fit, Differs;
    if dir == null {
      return -1, EBADF;
    }
    var pos := dir.pos;
    if pos >= |dir.entries| {
      AnsweredNothing(New64, hash, dir.path, dir.entries, count, pos, buf[..]);
      return 0, 0;
    }
    var written: nat := 0;
    ghost var start := buf[..];
    PackedStart(New64, hash, dir.path, dir.entries, pos, start);
    SizeOfNone(New64, dir.entries, pos);
    while pos < |dir.entries|
      invariant dir.entries == old(dir.entries) && dir.pos == old(dir.pos) <= pos <= |dir.entries|
      invariant written == Size(New64, dir.entries, dir.pos, pos) && written <= count
      invariant Packed(New64, hash, dir.path, dir.entries, dir.pos, pos, start, buf[..])
      decreases |dir.entries| - pos
    {
      var e := dir.entries[pos];
      var total := RecordSize(New64, e.name);
      if total > count - written {
        break;
      }
      ghost var s1 := buf[..];
      StoreRecord64(buf, written, EntryDirent(hash, dir.path, e, pos));
      PackedNext(New64, hash, dir.path, dir.entries, dir.pos, pos, start, s1, buf[..]);
      SizeSnoc(New64, dir.entries, dir.pos, pos);
      pos := pos + 1;
      written := written + total;
    }
    AnsweredAt(New64, hash, dir.path, dir.entries, count, dir.pos, pos, start, buf[..]);
    if written == 0 {
      SizeOfNone(New64, dir.entries, pos);
      return -1, EINVAL;
    }
    SizeOfNone(New64, dir.entries, pos);
    dir.pos := pos;
    ret, errno := ToInt(written), 0;
  }

  /** `getdents` */
  method Getdents(hash: Hash, dir: OpenDir?, buf: array<Byte>, count: nat) returns (ret: int, errno: int)
    requires count <= buf.Length && count < UINT_RANGE
    modifies buf, if dir == null then {} else {dir}
    ensures dir == null ==> ret == -1 && errno == EBADF && buf[..] == old(buf[..])
    ensures dir != null ==> dir.entries == old(dir.entries)
    ensures dir != null ==>
              Answered(Old, hash, dir.path, dir.entries, count, old(dir.pos), dir.pos, old(buf[..]), buf[..], ret, errno)
  {
    hide Answered, Packed, Holds, Size, Fit, Differs;
    if dir == null {
      return -1, EBADF;
    }
    var pos := dir.pos;
    if pos >= |dir.entries| {
      AnsweredNothing(Old, hash, dir.path, dir.entries, count, pos, buf[..]);
      return 0, 0;
    }
    var written: nat := 0;
    ghost var start := buf[..];
    PackedStart(Old, hash, dir.path, dir.entries, pos, start);
    SizeOfNone(Old, dir.entries, pos);
    while pos < |dir.entries|
      invariant dir.entries == old(dir.entries) && dir.pos == old(dir.pos) <= pos <= |dir.entries|
      invariant written == Size(Old, dir.entries, dir.pos, pos) && written <= count
      invariant Packed(Old, hash, dir.path, dir.entries, dir.pos, pos, start, buf[..])
      decreases |dir.entries| - pos
    {
      var e := dir.entries[pos];
      var total := RecordSize(Old, e.name);
      if total > count - written {
        break;
      }
      ghost var s1 := buf[..];
      StoreRecordOld(buf, written, EntryDirent(hash, dir.path, e, pos));
      PackedNext(Old, hash, dir.path, dir.entries, dir.pos, pos, start, s1, buf[..]);
      SizeSnoc(Old, dir.entries, dir.pos, pos);
      pos := pos + 1;
      written := written + total;
    }
    AnsweredAt(Old, hash, dir.path, dir.entries, count, dir.pos, pos, start, buf[..]);
    if written == 0 {
      SizeOfNone(Old, dir.entries, pos);
      return -1, EINVAL;
    }
    SizeOfNone(Old, dir.entries, pos);
    dir.pos := pos;
    ret, errno := ToInt(written), 0;
  }

  lemma AnsweredNothing(l: Layout, hash: Hash, path: seq<Byte>, entries: seq<DirEntry>, count: nat, pos: nat, s: seq<Byte>)
    requires pos >= |entries|
    ensures Answered(l, hash, path, entries, count, pos, pos, s, s, 0, 0)
  {
  }

  lemma SizeOfNone(l: Layout, entries: seq<DirEntry>, pos: nat)
    requires pos <= |entries|
    ensures Size(l, entries, pos, pos) == 0
  {
  }

  // ---------------------------------------------------------------- a whole directory

  /** What a successful call put in the buffer reads back as the entries it moved past. */
  lemma CallDelivers(l: Layout, hash: Hash, path: seq<Byte>, entries: seq<DirEntry>, count: nat, pos: nat, pos': nat,
                     before: seq<Byte>, after: seq<Byte>, ret: int, errno: int)
    requires IsHash(hash) && AllCarried(l, entries) && |entries| <= MAX_ULONG && count < 0x8000_0000
    requires pos < |entries| && Answered(l, hash, path, entries, count, pos, pos', before, after, ret, errno)
    ensures pos' == pos ==> ret == -1 && errno == EINVAL
    ensures pos' > pos ==>
              0 < ret <= count && ret <= |after| && ret % 8 == 0 &&
              ReadAll(l, after[..ret]) == Listing(hash, path, entries, pos, pos') &&
              |after| == |before| && after[ret..] == before[ret..]
  {
    hide Records, ReadAll, AllCarried, Size;
    FitIsGreedy(l, entries, pos, count);
    if pos' > pos {
      ReadBack(l, hash, path, entries, pos, pos', after[..Size(l, entries, pos, pos')]);
    }
  }

  /** A call as the caller sees it: the size it gave, its buffer before and after, and the answer. */
  datatype Call = Call(count: nat, before: seq<Byte>, after: seq<Byte>, ret: int, errno: int)

  /** Calls on one open directory, with the position before and after each of them. */
  ghost predicate Series(l: Layout, hash: Hash, path: seq<Byte>, entries: seq<DirEntry>, positions: seq<nat>, calls: seq<Call>) {
    && |positions| == |calls| + 1 && positions[0] == 0
    && forall i :: 0 <= i < |calls| ==>
         calls[i].count < 0x8000_0000 &&
         Answered(l, hash, path, entries, calls[i].count, positions[i], positions[i + 1],
                  calls[i].before, calls[i].after, calls[i].ret, calls[i].errno)
  }

  /** What the caller reads from the bytes that a call says it has put in its buffer. */
  function ReadFrom(l: Layout, c: Call): seq<Dirent> {
    if 0 < c.ret <= |c.after| then ReadAll(l, c.after[..c.ret]) else []
  }

  /** What it reads from all the calls. */
  function Received(l: Layout, calls: seq<Call>): seq<Dirent> {
    if calls == [] then [] else Received(l, calls[..|calls| - 1]) + ReadFrom(l, calls[|calls| - 1])
  }

  /** Each buffer has room for the record that is next when it is offered. */
  predicate RoomForNext(l: Layout, entries: seq<DirEntry>, positions: seq<nat>, calls: seq<Call>)
    requires |positions| == |calls| + 1
  {
    forall i :: 0 <= i < |calls| && positions[i] < |entries| ==>
      RecordSize(l, entries[positions[i]].name) <= calls[i].count
  }

  lemma CallReads(l: Layout, hash: Hash, path: seq<Byte>, entries: seq<DirEntry>, pos: nat, pos': nat, c: Call)
    requires IsHash(hash) && AllCarried(l, entries) && |entries| <= MAX_ULONG && c.count < 0x8000_0000
    requires pos <= pos' <= |entries|
    requires Answered(l, hash, path, entries, c.count, pos, pos', c.before, c.after, c.ret, c.errno)
    ensures ReadFrom(l, c) == Listing(hash, path, entries, pos, pos')
  {
    hide AllCarried, Listing, Packed;
    ListingNone(hash, path, entries, pos);
    if pos < |entries| {
      CallDelivers(l, hash, path, entries, c.count, pos, pos', c.before, c.after, c.ret, c.errno);
    }
  }

  /** What one call of a series does, without its bytes. */
  lemma CallMoves(l: Layout, hash: Hash, path: seq<Byte>, entries: seq<DirEntry>, pos: nat, pos': nat, c: Call)
    requires pos <= |entries| && c.count < 0x8000_0000
    requires Answered(l, hash, path, entries, c.count, pos, pos', c.before, c.after, c.ret, c.errno)
    ensures pos <= pos' <= |entries|
    ensures pos < |entries| ==> (pos' > pos <==> RecordSize(l, entries[pos].name) <= c.count)
    ensures c.ret == 0 <==> pos == |entries|
    ensures c.ret == -1 <==> pos < |entries| && RecordSize(l, entries[pos].name) > c.count
    ensures c.ret <= 0 ==> pos' == pos && c.after == c.before
  {
    hide Records, Size, Holds;
    if pos < |entries| {
      FitIsGreedy(l, entries, pos, c.count);
    }
  }

  lemma SeriesPrefix(l: Layout, hash: Hash, path: seq<Byte>, entries: seq<DirEntry>, positions: seq<nat>, calls: seq<Call>, i: nat)
    requires Series(l, hash, path, entries, positions, calls) && i <= |calls|
    ensures Series(l, hash, path, entries, positions[..i + 1], calls[..i])
    ensures i < |calls| ==>
              calls[i].count < 0x8000_0000 &&
              Answered(l, hash, path, entries, calls[i].count, positions[i], positions[i + 1],
                       calls[i].before, calls[i].after, calls[i].ret, calls[i].errno)
  {
    hide Answered;
  }

  lemma {:induction false} DeliveredSoFar(l: Layout, hash: Hash, path: seq<Byte>, entries: seq<DirEntry>,
                                          positions: seq<nat>, calls: seq<Call>)
    requires IsHash(hash) && AllCarried(l, entries) && |entries| <= MAX_ULONG
    requires Series(l, hash, path, entries, positions, calls)
    ensures positions[|calls|] <= |entries|
    ensures Received(l, calls) == Listing(hash, path, entries, 0, positions[|calls|])
    decreases |calls|
  {
    hide Answered, ReadFrom, Listing, AllCarried, RecordSize, IsHash, Series;
    SeriesStart(l, hash, path, entries, positions, calls);
    if calls == [] {
      ListingNone(hash, path, entries, 0);
    } else {
      var n := |calls| - 1;
      SeriesPrefix(l, hash, path, entries, positions, calls, n);
      DeliveredSoFar(l, hash, path, entries, positions[..n + 1], calls[..n]);
      CallMoves(l, hash, path, entries, positions[n], positions[n + 1], calls[n]);
      CallReads(l, hash, path, entries, positions[n], positions[n + 1], calls[n]);
      ListingSplit(hash, path, entries, 0, positions[n], positions[n + 1]);
    }
  }

  lemma SeriesStart(l: Layout, hash: Hash, path: seq<Byte>, entries: seq<DirEntry>, positions: seq<nat>, calls: seq<Call>)
    requires Series(l, hash, path, entries, positions, calls)
    ensures |positions| == |calls| + 1 && positions[0] == 0
  {
  }

  /** However large the buffers are, what the caller has read from them after any number of calls is
      the directory's listing up to where it has got, each entry once and in order. A call answers 0
      exactly at the end of the directory, and an error exactly when its buffer is too small for the
      next record. */
  lemma Delivery(l: Layout, hash: Hash, path: seq<Byte>, entries: seq<DirEntry>, positions: seq<nat>, calls: seq<Call>)
    requires IsHash(hash) && AllCarried(l, entries) && |entries| <= MAX_ULONG
    requires Series(l, hash, path, entries, positions, calls)
    ensures positions[|calls|] <= |entries|
    ensures Received(l, calls) == Listing(hash, path, entries, 0, positions[|calls|])
    ensures forall i :: 0 <= i < |calls| ==>
              && positions[i] <= |entries|
              && (calls[i].ret == 0 <==> positions[i] == |entries|)
              && (calls[i].ret == -1 <==>
                  positions[i] < |entries| && RecordSize(l, entries[positions[i]].name) > calls[i].count)
    ensures var all := Received(l, calls);
            |all| == positions[|calls|] &&
            forall i :: 0 <= i < |all| ==>
              && all[i].off <= |entries| && all[i].name == entries[i].name
              && all[..i + 1] == Listing(hash, path, entries, 0, all[i].off)
  {
    hide Answered, Received, Listing, AllCarried, RecordSize, IsHash, Series;
    SeriesStart(l, hash, path, entries, positions, calls);
    DeliveredSoFar(l, hash, path, entries, positions, calls);
    var end := positions[|calls|];
    ListingSize(hash, path, entries, 0, end);
    forall i | 0 <= i < |Received(l, calls)|
      ensures Received(l, calls)[i].off <= |entries| && Received(l, calls)[i].name == entries[i].name
      ensures Received(l, calls)[..i + 1] == Listing(hash, path, entries, 0, Received(l, calls)[i].off)
    {
      ReadUpTo(hash, path, entries, end, i);
    }
    forall i | 0 <= i < |calls|
      ensures positions[i] <= |entries| && (calls[i].ret == 0 <==> positions[i] == |entries|)
      ensures calls[i].ret == -1 <==>
              positions[i] < |entries| && RecordSize(l, entries[positions[i]].name) > calls[i].count
    {
      SeriesPrefix(l, hash, path, entries, positions, calls, i);
      DeliveredSoFar(l, hash, path, entries, positions[..i + 1], calls[..i]);
      CallMoves(l, hash, path, entries, positions[i], positions[i + 1], calls[i]);
    }
  }

  /** With room for the next record in every buffer, each call gets further, so that as many calls as
      there are entries deliver the whole directory. */
  lemma {:induction false} WholeDirectory(l: Layout, hash: Hash, path: seq<Byte>, entries: seq<DirEntry>,
                                          positions: seq<nat>, calls: seq<Call>)
    requires IsHash(hash) && AllCarried(l, entries) && |entries| <= MAX_ULONG
    requires Series(l, hash, path, entries, positions, calls) && RoomForNext(l, entries, positions, calls)
    ensures Min(|calls|, |entries|) <= positions[|calls|] <= |entries|
    ensures |calls| >= |entries| ==> Received(l, calls) == Listing(hash, path, entries, 0, |entries|)
    decreases |calls|
  {
    hide Answered, Received, Listing, AllCarried, RecordSize, IsHash, Series;
    SeriesStart(l, hash, path, entries, positions, calls);
    DeliveredSoFar(l, hash, path, entries, positions, calls);
    if calls != [] {
      var n := |calls| - 1;
      SeriesPrefix(l, hash, path, entries, positions, calls, n);
      WholeDirectory(l, hash, path, entries, positions[..n + 1], calls[..n]);
      CallMoves(l, hash, path, entries, positions[n], positions[n + 1], calls[n]);
    }
  }

  lemma ListingNone(hash: Hash, path: seq<Byte>, entries: seq<DirEntry>, pos: nat)
    requires pos <= |entries|
    ensures Listing(hash, path, entries, pos, pos) == []
  {
  }
}
