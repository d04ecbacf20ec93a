/** The text forms in which metadata and first chunks are kept in the key-value store. */
module Codecs {
  import opened Common
  import opened Decimal

  const BAR: char := '|'
  const NUL: char := '\0'

  /** Which of the optional fields are kept. */
  datatype Config = Config(atime: bool, mtime: bool, ctime: bool, linkCount: bool, blocks: bool)

  datatype Metadata = Metadata(
    mode: int, size: int, atime: int, mtime: int, ctime: int, linkCount: int, blocks: int, target: string)

  predicate IsLong(n: int) {
    -LONG_MAX - 1 <= n <= LONG_MAX
  }

  predicate IsUlong(n: int) {
    0 <= n < LONG_RANGE
  }

  /** Every field is in the range of its C type. */
  predicate InType(m: Metadata) {
    && 0 <= m.mode < UINT_RANGE && IsUlong(m.size)
    && IsLong(m.atime) && IsLong(m.mtime) && IsLong(m.ctime)
    && IsUlong(m.linkCount) && IsLong(m.blocks)
  }

  /** `S_ISLNK`: the file type in the four bits from bit 12 is 10. */
  predicate IsLink(mode: int) {
    mode / 4096 % 16 == 10
  }

  // ---------------------------------------------------------------- printing metadata

  function FieldText(enabled: bool, n: int): string {
    if enabled then [BAR] + Printed(n) else ""
  }

  function Serialized(c: Config, m: Metadata): string {
    Printed(m.mode) + (FieldText(true, m.size) + TimesText(c, m))
  }

  function TimesText(c: Config, m: Metadata): string {
    FieldText(c.atime, m.atime) + (FieldText(c.mtime, m.mtime) + (FieldText(c.ctime, m.ctime) + LastText(c, m)))
  }

  function LastText(c: Config, m: Metadata): string {
    FieldText(c.linkCount, m.linkCount) + (FieldText(c.blocks, m.blocks) + ([BAR] + m.target))
  }

  method Serialize(c: Config, m: Metadata) returns (s: string)
    ensures s == Serialized(c, m)
  {
    hide Printed;
    s := "";
    s := s + Printed(m.mode);
    s := s + [BAR];
    s := s + Printed(m.size);
    FieldAppended(Printed(m.mode), true, m.size, s);
    ghost var s1 := s;
    if c.atime {
      s := s + [BAR];
      s := s + Printed(m.atime);
    }
    FieldAppended(s1, c.atime, m.atime, s);
    ghost var s2 := s;
    if c.mtime {
      s := s + [BAR];
      s := s + Printed(m.mtime);
    }
    FieldAppended(s2, c.mtime, m.mtime, s);
    ghost var s3 := s;
    if c.ctime {
      s := s + [BAR];
      s := s + Printed(m.ctime);
    }
    FieldAppended(s3, c.ctime, m.ctime, s);
    ghost var s4 := s;
    if c.linkCount {
      s := s + [BAR];
      s := s + Printed(m.linkCount);
    }
    FieldAppended(s4, c.linkCount, m.linkCount, s);
    ghost var s5 := s;
    if c.blocks {
      s := s + [BAR];
      s := s + Printed(m.blocks);
    }
    FieldAppended(s5, c.blocks, m.blocks, s);
    ghost var s6 := s;
    s := s + [BAR];
    s := s + m.target;
    Regroup(c, m, s1, s2, s3, s4, s5, s6, s);
  }

  lemma FieldAppended(before: string, enabled: bool, n: int, after: string)
    requires after == if enabled then before + [BAR] + Printed(n) else before
    ensures after == before + FieldText(enabled, n)
  {
  }

  lemma Associate(a: string, b: string, rest: string)
    ensures (a + b) + rest == a + (b + rest)
  {
  }

  lemma Regroup(c: Config, m: Metadata, s1: string, s2: string, s3: string, s4: string, s5: string, s6: string, s: string)
    requires s1 == Printed(m.mode) + FieldText(true, m.size)
    requires s2 == s1 + FieldText(c.atime, m.atime) && s3 == s2 + FieldText(c.mtime, m.mtime)
    requires s4 == s3 + FieldText(c.ctime, m.ctime) && s5 == s4 + FieldText(c.linkCount, m.linkCount)
    requires s6 == s5 + FieldText(c.blocks, m.blocks) && s == s6 + [BAR] + m.target
    ensures s == Serialized(c, m)
  {
    hide FieldText, Printed;
    var t6 := [BAR] + m.target;
    var t5 := FieldText(c.blocks, m.blocks) + t6;
    var t4 := FieldText(c.linkCount, m.linkCount) + t5;
    var t3 := FieldText(c.ctime, m.ctime) + t4;
    var t2 := FieldText(c.mtime, m.mtime) + t3;
    Associate(s6, [BAR], m.target);
    Associate(s5, FieldText(c.blocks, m.blocks), t6);
    Associate(s4, FieldText(c.linkCount, m.linkCount), t5);
    Associate(s3, FieldText(c.ctime, m.ctime), t4);
    Associate(s2, FieldText(c.mtime, m.mtime), t3);
    Associate(s1, FieldText(c.atime, m.atime), t2);
    Associate(Printed(m.mode), FieldText(true, m.size), TimesText(c, m));
  }

  // ---------------------------------------------------------------- reading metadata

  datatype Field = Field(value: int, rest: string) | Malformed

  /** A number at the front of a text. */
  function NumberAt(unsigned: bool, s: string): Field {
    var r := if unsigned then Stoul(s) else Stol(s);
    if r.Read? then Field(r.value, s[r.length..]) else Malformed
  }

  /** A separator and a number; nothing at all when the field is not kept. */
  function NextField(enabled: bool, unsigned: bool, s: string): Field {
    if !enabled then Field(0, s)
    else if s == "" || s[0] != BAR then Malformed
    else NumberAt(unsigned, s[1..])
  }

  /** A signed number kept in an unsigned 64-bit field, and the other way around. */
  function ToUlong(n: int): (r: int)
    ensures IsLong(n) ==> IsUlong(r) && (r - n) % LONG_RANGE == 0
  {
    if n < 0 then n + LONG_RANGE else n
  }

  function ToLong(n: int): (r: int)
    ensures IsUlong(n) ==> IsLong(r) && (r - n) % LONG_RANGE == 0
  {
    if n > LONG_MAX then n - LONG_RANGE else n
  }

  /** The metadata a text stands for; `None` when an assertion fails or a conversion throws. */
  function Parsed(c: Config, s: string): Option<Metadata> {
    var mode := NumberAt(true, s);
    if mode.Malformed? then None else
    var size := NextField(true, false, mode.rest);
    if size.Malformed? then None else
    var atime := NextField(c.atime, false, size.rest);
    if atime.Malformed? then None else
    var mtime := NextField(c.mtime, false, atime.rest);
    if mtime.Malformed? then None else
    var ctime := NextField(c.ctime, false, mtime.rest);
    if ctime.Malformed? then None else
    var linkCount := NextField(c.linkCount, true, ctime.rest);
    if linkCount.Malformed? then None else
    var blocks := NextField(c.blocks, true, linkCount.rest);
    if blocks.Malformed? || blocks.rest == "" || blocks.rest[0] != BAR then None else
    var target := CString(NUL, blocks.rest[1..]);
    if target != "" && !IsLink(mode.value % UINT_RANGE) then None else
    Some(Metadata(mode.value % UINT_RANGE, ToUlong(size.value), atime.value, mtime.value, ctime.value,
                  linkCount.value, ToLong(blocks.value), target))
  }

  method ReadNumber(unsigned: bool, s: string, ptr: nat) returns (ok: bool, value: int, ptr': nat)
    requires ptr <= |s|
    ensures ok ==> ptr' <= |s|
    ensures NumberAt(unsigned, s[ptr..]) == if ok then Field(value, s[ptr'..]) else Malformed
  {
    var r := if unsigned then Stoul(s[ptr..]) else Stol(s[ptr..]);
    match r
    case Read(v, n) =>
      assert s[ptr..][n..] == s[ptr + n..];
      return true, v, ptr + n;
    case _ =>
      return false, 0, 0;
  }

  /** One optional field: its separator is asserted, then its number is read. */
  method ReadField(enabled: bool, unsigned: bool, s: string, ptr: nat) returns (ok: bool, value: int, ptr': nat)
    requires ptr <= |s|
    ensures ok ==> ptr' <= |s|
    ensures NextField(enabled, unsigned, s[ptr..]) == if ok then Field(value, s[ptr'..]) else Malformed
  {
    if !enabled {
      return true, 0, ptr;
    }
    if ptr == |s| || s[ptr] != BAR {
      return false, 0, 0;
    }
    assert s[ptr..][1..] == s[ptr + 1..];
    ok, value, ptr' := ReadNumber(unsigned, s, ptr + 1);
  }

  /** The constructor from a stored text, moving a pointer over it. */
  method Deserialize(c: Config, s: string) returns (r: Option<Metadata>)
    ensures r == Parsed(c, s)
  {
    hide NumberAt, NextField, CString;
    assert s[0..] == s;
    var ok, mode, ptr := ReadNumber(true, s, 0);
    if !ok {
      return None;
    }
    var size, atime, mtime, ctime, linkCount, blocks;
    ok, size, ptr := ReadField(true, false, s, ptr);
    if !ok {
      return None;
    }
    ok, atime, ptr := ReadField(c.atime, false, s, ptr);
    if !ok {
      return None;
    }
    ok, mtime, ptr := ReadField(c.mtime, false, s, ptr);
    if !ok {
      return None;
    }
    ok, ctime, ptr := ReadField(c.ctime, false, s, ptr);
    if !ok {
      return None;
    }
    ok, linkCount, ptr := ReadField(c.linkCount, true, s, ptr);
    if !ok {
      return None;
    }
    ok, blocks, ptr := ReadField(c.blocks, true, s, ptr);
    if !ok || ptr == |s| || s[ptr] != BAR {
      return None;
    }
    assert s[ptr..][1..] == s[ptr + 1..];
    var target := CString(NUL, s[ptr + 1..]);
    if target != "" && !IsLink(mode % UINT_RANGE) {
      return None;
    }
    r := Some(Metadata(mode % UINT_RANGE, ToUlong(size), atime, mtime, ctime, linkCount, ToLong(blocks), target));
  }

  // ---------------------------------------------------------------- round trips

  predicate StartsWithBar(s: string) {
    s != "" && s[0] == BAR
  }

  /** The number that comes back from a field. */
  function ReadBack(unsigned: bool, n: int): int {
    if unsigned && n < 0 then n + LONG_RANGE else n
  }

  lemma NumberPrinted(unsigned: bool, n: int, rest: string)
    requires StartsWithBar(rest)
    ensures var f := NumberAt(unsigned, Printed(n) + rest);
            if (if unsigned then -LONG_RANGE < n < LONG_RANGE else IsLong(n)) then f == Field(ReadBack(unsigned, n), rest)
            else f == Malformed
  {
    ScanPrinted(n, rest);
    assert (Printed(n) + rest)[|Printed(n)|..] == rest;
  }

  lemma FieldPrinted(enabled: bool, unsigned: bool, n: int, rest: string)
    requires StartsWithBar(rest)
    requires if unsigned then -LONG_RANGE < n < LONG_RANGE else IsLong(n)
    ensures NextField(enabled, unsigned, FieldText(enabled, n) + rest) == Field(if enabled then ReadBack(unsigned, n) else 0, rest)
    ensures StartsWithBar(FieldText(enabled, n) + rest)
  {
    if enabled {
      Associate([BAR], Printed(n), rest);
      assert ([BAR] + (Printed(n) + rest))[1..] == Printed(n) + rest;
      NumberPrinted(unsigned, n, rest);
    } else {
      assert "" + rest == rest;
    }
  }

  /** What the fields that are kept bring back; the others come back as zero. */
  function Kept(c: Config, m: Metadata): Metadata {
    Metadata(m.mode, m.size, if c.atime then m.atime else 0, if c.mtime then m.mtime else 0,
             if c.ctime then m.ctime else 0, if c.linkCount then m.linkCount else 0, if c.blocks then m.blocks else 0,
             CString(NUL, m.target))
  }

  /** What a stored text brings back, for every metadata and every setting of the optional fields. */
  lemma ParsedSerialized(c: Config, m: Metadata)
    requires InType(m)
    ensures Parsed(c, Serialized(c, m)) ==
            if m.size > LONG_MAX || (CString(NUL, m.target) != "" && !IsLink(m.mode)) then None else Some(Kept(c, m))
  {
    hide Printed, FieldText, NumberAt, NextField, CString;
    var t6 := [BAR] + m.target;
    assert t6[1..] == m.target && StartsWithBar(t6);
    FieldPrinted(c.blocks, true, m.blocks, t6);
    var t5 := FieldText(c.blocks, m.blocks) + t6;
    FieldPrinted(c.linkCount, true, m.linkCount, t5);
    var t4 := FieldText(c.linkCount, m.linkCount) + t5;
    FieldPrinted(c.ctime, false, m.ctime, t4);
    var t3 := FieldText(c.ctime, m.ctime) + t4;
    FieldPrinted(c.mtime, false, m.mtime, t3);
    var t2 := FieldText(c.mtime, m.mtime) + t3;
    FieldPrinted(c.atime, false, m.atime, t2);
    var t1 := FieldText(c.atime, m.atime) + t2;
    SizePrinted(m.size, t1);
    NumberPrinted(true, m.mode, FieldText(true, m.size) + t1);
  }

  lemma SizePrinted(size: int, rest: string)
    requires IsUlong(size) && StartsWithBar(rest)
    ensures StartsWithBar(FieldText(true, size) + rest)
    ensures NextField(true, false, FieldText(true, size) + rest) == if size <= LONG_MAX then Field(size, rest) else Malformed
  {
    Associate([BAR], Printed(size), rest);
    assert ([BAR] + (Printed(size) + rest))[1..] == Printed(size) + rest;
    NumberPrinted(false, size, rest);
  }

  /** The fields that are not kept have their default value. */
  predicate DefaultsElsewhere(c: Config, m: Metadata) {
    && (!c.atime ==> m.atime == 0) && (!c.mtime ==> m.mtime == 0) && (!c.ctime ==> m.ctime == 0)
    && (!c.linkCount ==> m.linkCount == 0) && (!c.blocks ==> m.blocks == 0)
  }

  /** Metadata survive being stored exactly when the size fits a signed number, the fields that are
      not kept have their defaults, and the target has no NUL and belongs to a link. */
  lemma MetadataRoundTrip(c: Config, m: Metadata)
    requires InType(m)
    ensures Parsed(c, Serialized(c, m)) == Some(m) <==>
              m.size <= LONG_MAX && DefaultsElsewhere(c, m) && NUL !in m.target && (m.target == "" || IsLink(m.mode))
  {
    hide Parsed, Serialized, IsLink;
    ParsedSerialized(c, m);
    assert CString(NUL, "") == "";
  }

  // ---------------------------------------------------------------- what is read at all

  ghost predicate IsNumber(t: string) {
    exists v :: StandsFor(t, v)
  }

  ghost predicate AreNumbers(ts: seq<string>) {
    forall i :: 0 <= i < |ts| ==> IsNumber(ts[i])
  }

  /** Texts with a separator in front of each. */
  function Separated(ts: seq<string>): string {
    if ts == [] then "" else [BAR] + ts[0] + Separated(ts[1..])
  }

  function One(enabled: bool): nat {
    if enabled then 1 else 0
  }

  lemma NumberShape(unsigned: bool, s: string) returns (t: string)
    requires NumberAt(unsigned, s) != Malformed
    ensures var f := NumberAt(unsigned, s);
            s == t + f.rest && IsNumber(t) && Reads(t, unsigned, f.value)
  {
    hide StandsFor, Scanned;
    ScansNumerals(s);
    var r := if unsigned then Stoul(s) else Stol(s);
    t := s[..r.length];
    assert s == t + s[r.length..];
    var v := Scanned(s).value;
    assert StandsFor(t, v);
    Multiples(v, NumberAt(unsigned, s).value);
  }

  /** The numeral is read as a number of its C type that differs by multiples of that type's range. */
  ghost predicate Reads(t: string, unsigned: bool, value: int) {
    && (if unsigned then IsUlong(value) else IsLong(value))
    && exists v :: StandsFor(t, v) && (value - v) % LONG_RANGE == 0
  }

  lemma Multiples(v: int, value: int)
    requires value == v || value == v + LONG_RANGE
    ensures (value - v) % LONG_RANGE == 0
  {
  }

  lemma FieldShape(enabled: bool, unsigned: bool, s: string) returns (ts: seq<string>)
    requires NextField(enabled, unsigned, s) != Malformed
    ensures |ts| == One(enabled) && AreNumbers(ts) && s == Separated(ts) + NextField(enabled, unsigned, s).rest
    ensures enabled ==> Reads(ts[0], unsigned, NextField(enabled, unsigned, s).value)
  {
    hide NumberAt, IsNumber, Reads;
    if enabled {
      var t := NumberShape(unsigned, s[1..]);
      ts := [t];
      assert [t][1..] == [] && [BAR] + t + "" == [BAR] + t;
      assert s == [BAR] + s[1..];
      Associate([BAR], t, NextField(enabled, unsigned, s).rest);
    } else {
      ts := [];
      assert "" + s == s;
    }
  }

  lemma {:induction false} SeparatedConcat(a: seq<string>, b: seq<string>, rest: string)
    ensures Separated(a + b) + rest == Separated(a) + (Separated(b) + rest)
    ensures AreNumbers(a) && AreNumbers(b) ==> AreNumbers(a + b)
    decreases |a|
  {
    hide IsNumber;
    if a == [] {
      assert a + b == b && "" + (Separated(b) + rest) == Separated(b) + rest;
    } else {
      assert (a + b)[1..] == a[1..] + b && (a + b)[0] == a[0];
      SeparatedConcat(a[1..], b, rest);
      Associate([BAR] + a[0], Separated(a[1..] + b), rest);
      Associate([BAR] + a[0], Separated(a[1..]), Separated(b) + rest);
    }
  }

  /** A text that is read at all is a numeral for each field that is kept, with a separator in front of
      each but the first, and after one more separator the target, up to a NUL. */
  lemma ParsedShape(c: Config, s: string) returns (mode: string, ts: seq<string>, target: string)
    ensures Parsed(c, s).Some? ==>
              && s == mode + (Separated(ts) + ([BAR] + target))
              && |ts| == 1 + One(c.atime) + One(c.mtime) + One(c.ctime) + One(c.linkCount) + One(c.blocks)
              && IsNumber(mode) && AreNumbers(ts)
              && Parsed(c, s).value.target == CString(NUL, target)
              && 0 <= Parsed(c, s).value.mode < UINT_RANGE
              && (exists v :: Reads(mode, true, v) && (Parsed(c, s).value.mode - v) % UINT_RANGE == 0)
              && (exists v :: Reads(ts[0], false, v) && Parsed(c, s).value.size == ToUlong(v))
  {
    hide NumberAt, NextField, IsNumber, CString, AreNumbers, Separated, One, IsLink, Reads;
    mode, ts, target := "", [], "";
    if Parsed(c, s).Some? {
      OneIsOne();
      mode := NumberShape(true, s);
      var f0 := NumberAt(true, s);
      ModeWraps(f0.value);
      assert Reads(mode, true, f0.value);
      var f1 := NextField(true, false, f0.rest);
      var t1 := FieldShape(true, false, f0.rest);
      var f2 := NextField(c.atime, false, f1.rest);
      var t2 := FieldShape(c.atime, false, f1.rest);
      var f3 := NextField(c.mtime, false, f2.rest);
      var t3 := FieldShape(c.mtime, false, f2.rest);
      var f4 := NextField(c.ctime, false, f3.rest);
      var t4 := FieldShape(c.ctime, false, f3.rest);
      var f5 := NextField(c.linkCount, true, f4.rest);
      var t5 := FieldShape(c.linkCount, true, f4.rest);
      var f6 := NextField(c.blocks, true, f5.rest);
      var t6 := FieldShape(c.blocks, true, f5.rest);
      target := f6.rest[1..];
      assert f6.rest == [BAR] + target;
      SeparatedConcat(t5, t6, f6.rest);
      SeparatedConcat(t4, t5 + t6, f6.rest);
      SeparatedConcat(t3, t4 + (t5 + t6), f6.rest);
      SeparatedConcat(t2, t3 + (t4 + (t5 + t6)), f6.rest);
      SeparatedConcat(t1, t2 + (t3 + (t4 + (t5 + t6))), f6.rest);
      ts := t1 + (t2 + (t3 + (t4 + (t5 + t6))));
      assert ts[0] == t1[0];
      assert Reads(ts[0], false, f1.value);
    }
  }

  lemma ModeWraps(v: int)
    ensures 0 <= v % UINT_RANGE < UINT_RANGE && (v % UINT_RANGE - v) % UINT_RANGE == 0
  {
  }

  lemma OneIsOne()
    ensures One(true) == 1
  {
  }

  /** The file type of a link is 10 in the four bits from bit 12 on, whatever the other bits. */
  lemma LinkBits(high: nat, kind: nat, low: nat)
    requires kind < 16 && low < 4096
    ensures IsLink(high * 65536 + kind * 4096 + low) <==> kind == 10
  {
    var mode := high * 65536 + kind * 4096 + low;
    assert mode / 4096 == high * 16 + kind;
  }

  // ---------------------------------------------------------------- the first chunk of a file

  datatype FirstChunk = FirstChunk(size: int, content: string)

  function ChunkSerialized(f: FirstChunk): string {
    Printed(f.size) + ([BAR] + f.content)
  }

  method SerializeChunk(f: FirstChunk) returns (s: string)
    ensures s == ChunkSerialized(f)
  {
    s := "";
    s := s + Printed(f.size);
    s := s + [BAR];
    s := s + f.content;
  }

  function ChunkParsed(s: string): Option<FirstChunk> {
    var size := NumberAt(false, s);
    if size.Malformed? || size.rest == "" || size.rest[0] != BAR then None
    else Some(FirstChunk(ToUlong(size.value), CString(NUL, size.rest[1..])))
  }

  method DeserializeChunk(s: string) returns (r: Option<FirstChunk>)
    ensures r == ChunkParsed(s)
  {
    assert s[0..] == s;
    var ok, size, ptr := ReadNumber(false, s, 0);
    if !ok || ptr == |s| || s[ptr] != BAR {
      return None;
    }
    assert s[ptr..][1..] == s[ptr + 1..];
    r := Some(FirstChunk(ToUlong(size), CString(NUL, s[ptr + 1..])));
  }

  /** A first chunk survives being stored, whatever separators and digits its content has, exactly
      when its size fits a signed number and its content has no NUL. */
  lemma ChunkRoundTrip(f: FirstChunk)
    requires IsUlong(f.size)
    ensures ChunkParsed(ChunkSerialized(f)) == Some(f) <==> f.size <= LONG_MAX && NUL !in f.content
  {
    hide Printed, NumberAt, CString;
    var rest := [BAR] + f.content;
    assert rest[1..] == f.content;
    NumberPrinted(false, f.size, rest);
  }

  /** A text that is read as a first chunk is a numeral, a separator and the content, up to a NUL. */
  lemma ChunkShape(s: string) returns (t: string, content: string)
    ensures ChunkParsed(s).Some? ==>
              && s == t + ([BAR] + content)
              && ChunkParsed(s).value.content == CString(NUL, content)
              && exists v :: StandsFor(t, v) && IsLong(v) && ChunkParsed(s).value.size == ToUlong(v)
  {
    hide StandsFor, CString;
    t, content := "", "";
    if ChunkParsed(s).Some? {
      ScansNumerals(s);
      var r := Scanned(s);
      t, content := s[..r.length], s[r.length + 1..];
      assert s == t + ([BAR] + content);
      assert s[r.length..][1..] == content;
      assert StandsFor(t, r.value);
    }
  }
}
