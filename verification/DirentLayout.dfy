/** Directory records as bytes: how a record is laid out, and how a reader walks a buffer of them. */
module DirentLayout {
  import opened Common
  import opened DivMod

  /** `linux_dirent`, with its type in the last byte, and `linux_dirent64`. */
  datatype Layout = Old | New64

  function NameAt(l: Layout): nat {
    if l == Old then 18 else 19
  }

  /** The offset of the type byte in a record of the given length. */
  function TypeAt(l: Layout, length: nat): int {
    if l == Old then length - 1 else 18
  }

  /** `ALIGN(x, 8)` */
  function Align8(x: nat): (r: nat)
    ensures x <= r < x + 8 && r % 8 == 0
  {
    (x + 7) / 8 * 8
  }

  function RecordSize(l: Layout, name: seq<Byte>): (size: nat)
    ensures size % 8 == 0
    ensures l == New64 ==> size - 8 < 19 + |name| + 1 <= size
    ensures l == Old ==> size - 8 < 18 + |name| + 3 <= size
    ensures l == Old ==> NameAt(l) + |name| + 1 <= TypeAt(l, size)
  {
    Align8(NameAt(l) + |name| + if l == Old then 3 else 1)
  }

  // ---------------------------------------------------------------- numbers and C strings

  function Pow256(width: nat): nat {
    if width == 0 then 1 else 256 * Pow256(width - 1)
  }

  /** The bytes of a number, least significant first; higher bytes are cut off. */
  function Bytes(value: nat, width: nat): (s: seq<Byte>)
    ensures |s| == width
  {
    if width == 0 then [] else [(value % 256) as Byte] + Bytes(value / 256, width - 1)
  }

  function Number(s: seq<Byte>): nat {
    if s == [] then 0 else s[0] as nat + 256 * Number(s[1..])
  }

  lemma {:induction false} NumberOfBytes(value: nat, width: nat)
    ensures Pow256(width) > 0 && Number(Bytes(value, width)) == value % Pow256(width)
    decreases width
  {
    if width > 0 {
      NumberOfBytes(value / 256, width - 1);
      var p := Pow256(width - 1);
      SplitModulo(value, p);
      assert Bytes(value, width)[1..] == Bytes(value / 256, width - 1);
    }
  }

  lemma SplitModulo(value: nat, p: nat)
    requires p > 0
    ensures value % (256 * p) == value % 256 + 256 * (value / 256 % p)
  {
    var q, r := value / 256, value % 256;
    var a, b := q / p, q % p;
    assert value == 256 * q + r && q == p * a + b;
    assert value == (256 * p) * a + (r + 256 * b) by {
      assert 256 * (p * a) == (256 * p) * a;
    }
    assert 0 <= r + 256 * b < 256 * p;
    DivModUnique(value, 256 * p, a, r + 256 * b);
  }

  // ---------------------------------------------------------------- records

  datatype Dirent = Dirent(ino: nat, off: nat, kind: Byte, name: seq<Byte>)

  /** What the kernel interface lets a reader see of a record: inode, offset and length in 8, 8 and 2
      bytes, and the name and the type where the two structures have them. */
  function LengthOf(b: seq<Byte>): nat
    requires |b| >= 18
  {
    Number(b[16..18])
  }

  predicate HasRecord(l: Layout, b: seq<Byte>) {
    |b| >= 18 && (if l == Old then 18 else 19) < LengthOf(b) <= |b|
  }

  function ReadRecord(l: Layout, b: seq<Byte>): Dirent
    requires HasRecord(l, b)
  {
    var length := LengthOf(b);
    if l == Old then Dirent(Number(b[0..8]), Number(b[8..16]), b[length - 1], CString(0, b[18..length]))
    else Dirent(Number(b[0..8]), Number(b[8..16]), b[18], CString(0, b[19..length]))
  }

  /** Walking a buffer from record to record by their lengths. */
  function ReadAll(l: Layout, b: seq<Byte>): seq<Dirent>
    decreases |b|
  {
    if !HasRecord(l, b) then [] else [ReadRecord(l, b)] + ReadAll(l, b[LengthOf(b)..])
  }

  const MAX_ULONG: nat := 0xffff_ffff_ffff_ffff

  /** The fields stored for a record, each in its place. */
  predicate Holds(l: Layout, rec: seq<Byte>, d: Dirent) {
    && |rec| == RecordSize(l, d.name)
    && rec[0..8] == Bytes(d.ino, 8)
    && rec[8..16] == Bytes(d.off, 8)
    && rec[16..18] == Bytes(|rec|, 2)
    && rec[TypeAt(l, |rec|)] == d.kind
    && (var c := CString(0, d.name);
        rec[NameAt(l)..NameAt(l) + |c|] == c && rec[NameAt(l) + |c|] == 0)
  }

  /** A name that a record can carry: it has no NUL, and the record's length fits 16 bits. */
  predicate Carries(l: Layout, name: seq<Byte>) {
    0 !in name && RecordSize(l, name) < 0x1_0000
  }

  lemma LengthStored(l: Layout, rec: seq<Byte>, d: Dirent)
    requires Holds(l, rec, d)
    ensures LengthOf(rec) == |rec| % 0x1_0000
  {
    NumberOfBytes(|rec|, 2);
    assert Pow256(2) == 256 * Pow256(1) && Pow256(1) == 256 * Pow256(0);
  }

  lemma Pow256Eight()
    ensures Pow256(8) == MAX_ULONG + 1
  {
  }

  lemma FieldsStored(l: Layout, rec: seq<Byte>, d: Dirent)
    requires Holds(l, rec, d) && d.ino <= MAX_ULONG && d.off <= MAX_ULONG
    ensures Number(rec[0..8]) == d.ino && Number(rec[8..16]) == d.off
  {
    hide CString, Bytes, Pow256, Number;
    NumberOfBytes(d.ino, 8);
    NumberOfBytes(d.off, 8);
    Pow256Eight();
  }

  /** A stored record is read back as what it was made from, exactly when its name can be carried. */
  lemma RecordRoundTrip(l: Layout, rec: seq<Byte>, d: Dirent)
    requires Holds(l, rec, d) && d.ino <= MAX_ULONG && d.off <= MAX_ULONG
    ensures HasRecord(l, rec) && LengthOf(rec) == |rec| && ReadRecord(l, rec) == d <==> Carries(l, d.name)
  {
    hide CString, Bytes, Number;
    LengthStored(l, rec, d);
    if |rec| < 0x1_0000 {
      FieldsStored(l, rec, d);
      NameStored(l, rec, d);
    }
  }

  lemma NameStored(l: Layout, rec: seq<Byte>, d: Dirent)
    requires Holds(l, rec, d)
    ensures CString(0, rec[NameAt(l)..|rec|]) == CString(0, d.name)
  {
    hide CString, Bytes;
    var c, s := CString(0, d.name), rec[NameAt(l)..|rec|];
    assert s[..|c|] == rec[NameAt(l)..NameAt(l) + |c|];
    assert s[|c|] == rec[NameAt(l) + |c|];
    CStringUnique(0, s, c);
  }
}
