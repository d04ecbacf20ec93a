/** The hosts file: every daemon appends a line to it, and every client makes the same list of it. */
module HostsFile {
  import opened Common

  // ---------------------------------------------------------------- the order of hosts

  /** The order of `std::string`. */
  predicate Leq(a: string, b: string) {
    a == "" || (b != "" && (a[0] < b[0] || (a[0] == b[0] && Leq(a[1..], b[1..]))))
  }

  /** The texts part at an index, where the first has the smaller character. */
  predicate PartsAt(a: string, b: string, k: nat) {
    k < |a| && k < |b| && a[..k] == b[..k] && a[k] < b[k]
  }

  /** It is the order of the dictionary: a prefix, or smaller where the two part. */
  lemma {:induction false} LeqIs(a: string, b: string)
    ensures Leq(a, b) <==> a <= b || exists k: nat :: PartsAt(a, b, k)
    decreases |a|
  {
    if a != "" && b != "" {
      LeqIs(a[1..], b[1..]);
      assert a <= b <==> a[0] == b[0] && a[1..] <= b[1..];
      forall k: nat | k > 0
        ensures PartsAt(a, b, k) <==> a[0] == b[0] && PartsAt(a[1..], b[1..], k - 1)
      {
        PartsAtTail(a, b, k);
      }
      assert PartsAt(a, b, 0) <==> a[0] < b[0];
      if k: nat :| PartsAt(a[1..], b[1..], k) {
        assert PartsAt(a, b, k + 1) <==> a[0] == b[0] && PartsAt(a[1..], b[1..], k + 1 - 1);
      }
    }
  }

  lemma PartsAtTail(a: string, b: string, k: nat)
    requires a != "" && b != "" && k > 0
    ensures PartsAt(a, b, k) <==> a[0] == b[0] && PartsAt(a[1..], b[1..], k - 1)
  {
    if k < |a| && k < |b| {
      assert a[..k] == [a[0]] + a[1..][..k - 1] && b[..k] == [b[0]] + b[1..][..k - 1];
      assert a[..k][1..] == a[1..][..k - 1] && b[..k][1..] == b[1..][..k - 1];
      assert a[..k][0] == a[0] && b[..k][0] == b[0];
    }
  }

  lemma {:induction false} LeqTotal(a: string, b: string)
    ensures Leq(a, b) || Leq(b, a)
    ensures Leq(a, a)
    decreases |a| + |b|
  {
    if a != "" {
      LeqTotal(a[1..], if b == "" then "" else b[1..]);
    }
  }

  lemma {:induction false} LeqAntisymmetric(a: string, b: string)
    requires Leq(a, b) && Leq(b, a)
    ensures a == b
    decreases |a|
  {
    if a != "" {
      LeqAntisymmetric(a[1..], b[1..]);
      assert a == [a[0]] + a[1..] && b == [b[0]] + b[1..];
    }
  }

  lemma {:induction false} LeqTransitive(a: string, b: string, c: string)
    requires Leq(a, b) && Leq(b, c)
    ensures Leq(a, c)
    decreases |a|
  {
    if a != "" && a[0] == b[0] == c[0] {
      LeqTransitive(a[1..], b[1..], c[1..]);
    }
  }

  /** A host and the address of its daemon, ordered as `std::pair`. */
  datatype Host = Host(name: string, uri: string)

  predicate Before(a: Host, b: Host) {
    if a.name == b.name then Leq(a.uri, b.uri) else Leq(a.name, b.name)
  }

  lemma BeforeIs(a: Host, b: Host)
    ensures Before(a, b) <==>
              if a.name == b.name then a.uri <= b.uri || exists k: nat :: PartsAt(a.uri, b.uri, k)
              else a.name <= b.name || exists k: nat :: PartsAt(a.name, b.name, k)
  {
    LeqIs(a.name, b.name);
    LeqIs(a.uri, b.uri);
  }

  lemma BeforeTotal(a: Host, b: Host)
    ensures Before(a, b) || Before(b, a)
  {
    LeqTotal(a.name, b.name);
    LeqTotal(a.uri, b.uri);
  }

  lemma BeforeAntisymmetric(a: Host, b: Host)
    requires Before(a, b) && Before(b, a)
    ensures a == b
  {
    if a.name == b.name {
      LeqAntisymmetric(a.uri, b.uri);
    } else {
      LeqAntisymmetric(a.name, b.name);
    }
  }

  lemma BeforeTransitive(a: Host, b: Host, c: Host)
    requires Before(a, b) && Before(b, c)
    ensures Before(a, c)
  {
    if a.name == b.name == c.name {
      LeqTransitive(a.uri, b.uri, c.uri);
    } else {
      LeqTotal(b.name, b.name);
      LeqTransitive(a.name, b.name, c.name);
      if a.name == c.name {
        LeqAntisymmetric(a.name, b.name);
      }
    }
  }

  predicate IsSorted(s: seq<Host>) {
    forall i, j :: 0 <= i < j < |s| ==> Before(s[i], s[j])
  }

  /** Insertion into a sorted list. */
  function Inserted(h: Host, s: seq<Host>): seq<Host> {
    if s == [] || Before(h, s[0]) then [h] + s else [s[0]] + Inserted(h, s[1..])
  }

  /** A sorted rearrangement, which is what `std::sort` makes. */
  function Sorted(s: seq<Host>): seq<Host> {
    if s == [] then [] else Inserted(s[0], Sorted(s[1..]))
  }

  lemma {:induction false} InsertedSorted(h: Host, s: seq<Host>)
    requires IsSorted(s)
    ensures IsSorted(Inserted(h, s)) && multiset(Inserted(h, s)) == multiset(s) + multiset{h}
    decreases |s|
  {
    if s == [] {
    } else if Before(h, s[0]) {
      HeadFirst(h, s);
    } else {
      BeforeTotal(h, s[0]);
      assert s == [s[0]] + s[1..];
      InsertedSorted(h, s[1..]);
      var t := Inserted(h, s[1..]);
      forall x | x in t
        ensures Before(s[0], x)
      {
        assert x in multiset(t);
        assert x == h || x in s[1..];
      }
      ConsSorted(s[0], t);
    }
  }

  lemma HeadFirst(h: Host, s: seq<Host>)
    requires IsSorted(s) && s != [] && Before(h, s[0])
    ensures IsSorted([h] + s)
  {
    forall x | x in s
      ensures Before(h, x)
    {
      if x != s[0] {
        BeforeTransitive(h, s[0], x);
      }
    }
    ConsSorted(h, s);
  }

  lemma ConsSorted(h: Host, s: seq<Host>)
    requires IsSorted(s) && forall x :: x in s ==> Before(h, x)
    ensures IsSorted([h] + s)
  {
  }

  lemma {:induction false} SortedSorts(s: seq<Host>)
    ensures IsSorted(Sorted(s)) && multiset(Sorted(s)) == multiset(s)
    decreases |s|
  {
    if s != [] {
      SortedSorts(s[1..]);
      InsertedSorted(s[0], Sorted(s[1..]));
      assert s == [s[0]] + s[1..];
    }
  }

  /** There is only one sorted arrangement of given hosts, so it does not matter how they are sorted. */
  lemma {:induction false} SortedUnique(a: seq<Host>, b: seq<Host>)
    requires IsSorted(a) && IsSorted(b) && multiset(a) == multiset(b)
    ensures a == b
    decreases |a|
  {
    assert |a| == |multiset(a)| == |multiset(b)| == |b|;
    if a != [] {
      assert a[0] in multiset(b) && b[0] in multiset(a);
      if a[0] != b[0] {
        BeforeAntisymmetric(a[0], b[0]);
      }
      assert a == [a[0]] + a[1..] && b == [b[0]] + b[1..];
      assert multiset(a[1..]) == multiset(a) - multiset{a[0]};
      SortedUnique(a[1..], b[1..]);
    }
  }

  // ---------------------------------------------------------------- lines

  predicate NoSpace(s: string) {
    forall i :: 0 <= i < |s| ==> !IsSpace(s[i])
  }

  /** The length of the run of spaces, or of other characters, at the front. */
  function Run(s: string, spaces: bool): (k: nat)
    ensures k <= |s|
    ensures forall i :: 0 <= i < k ==> (IsSpace(s[i]) <==> spaces)
    ensures k < |s| ==> (IsSpace(s[k]) <==> !spaces)
  {
    if s == "" || (IsSpace(s[0]) != spaces) then 0 else 1 + Run(s[1..], spaces)
  }

  /** The line format `^(\S+)\s+(\S+)$`. */
  function MatchLine(line: string): Option<Host> {
    var k := Run(line, false);
    var w := Run(line[k..], true);
    var uri := line[k + w..];
    if k == 0 || w == 0 || uri == "" || !NoSpace(uri) then None else Some(Host(line[..k], uri))
  }

  /** The line a daemon appends: its host, the suffix of its root directory if it has one, its address. */
  function DaemonLine(hostname: string, suffix: string, uri: string): string {
    DaemonName(hostname, suffix) + (" " + uri)
  }

  function DaemonName(hostname: string, suffix: string): string {
    if suffix == "" then hostname else hostname + ("#" + suffix)
  }

  /** The hosts file after a daemon has started. */
  method PopulateHostsFile(lines: seq<string>, hostname: string, suffix: string, uri: string) returns (lines': seq<string>)
    ensures lines' == lines + [DaemonLine(hostname, suffix, uri)]
  {
    var name := hostname;
    if suffix != "" {
      name := hostname + ("#" + suffix);
    }
    lines' := lines + [name + (" " + uri)];
  }

  lemma {:induction false} RunOf(a: string, b: string, spaces: bool)
    requires forall i :: 0 <= i < |a| ==> (IsSpace(a[i]) <==> spaces)
    requires b == "" || (IsSpace(b[0]) <==> !spaces)
    ensures Run(a + b, spaces) == |a|
    decreases |a|
  {
    if a == "" {
      assert a + b == b;
    } else {
      assert (a + b)[1..] == a[1..] + b && (a + b)[0] == a[0];
      RunOf(a[1..], b, spaces);
    }
  }

  /** A daemon's line gives back its name and its address. */
  lemma LineMatches(name: string, uri: string)
    requires name != "" && NoSpace(name) && uri != "" && NoSpace(uri)
    ensures MatchLine(name + (" " + uri)) == Some(Host(name, uri))
  {
    var line := name + (" " + uri);
    RunOf(name, " " + uri, false);
    assert line[|name|..] == " " + uri && line[..|name|] == name;
    RunOf(" ", uri, true);
    assert line[|name| + 1..] == uri;
  }

  predicate AllSpace(s: string) {
    forall i :: 0 <= i < |s| ==> IsSpace(s[i])
  }

  /** A line matches exactly when it is two words with spaces between them and nothing else. */
  lemma MatchesExactly(line: string, h: Host)
    ensures MatchLine(line) == Some(h) <==>
              && h.name != "" && NoSpace(h.name) && h.uri != "" && NoSpace(h.uri)
              && exists w :: w != "" && AllSpace(w) && line == h.name + (w + h.uri)
  {
    var k := Run(line, false);
    var w := Run(line[k..], true);
    assert line == line[..k] + (line[k..][..w] + line[k + w..]);
    if MatchLine(line) == Some(h) {
      var gap := line[k..][..w];
      assert gap != "" && AllSpace(gap) && line == h.name + (gap + h.uri);
    }
    if h.name != "" && NoSpace(h.name) && h.uri != "" && NoSpace(h.uri) {
      forall gap | gap != "" && AllSpace(gap) && line == h.name + (gap + h.uri)
        ensures MatchLine(line) == Some(h)
      {
        WordsMatch(h.name, gap, h.uri);
      }
    }
  }

  lemma WordsMatch(name: string, gap: string, uri: string)
    requires name != "" && NoSpace(name) && uri != "" && NoSpace(uri) && gap != "" && AllSpace(gap)
    ensures MatchLine(name + (gap + uri)) == Some(Host(name, uri))
  {
    var line := name + (gap + uri);
    RunOf(name, gap + uri, false);
    assert line[|name|..] == gap + uri && line[..|name|] == name;
    RunOf(gap, uri, true);
    assert line[|name| + |gap|..] == uri;
  }

  // ---------------------------------------------------------------- stripping the suffix

  predicate HashFree(s: string) {
    forall i :: 0 <= i < |s| ==> s[i] != '#'
  }

  /** The index of the last `#`, or -1. */
  function LastHash(s: string): (k: int)
    ensures -1 <= k < |s| && (k >= 0 ==> s[k] == '#')
    ensures forall i :: k < i < |s| ==> s[i] != '#'
  {
    if s == "" then -1
    else if s[|s| - 1] == '#' then |s| - 1
    else LastHash(s[..|s| - 1])
  }

  function Stripped(name: string): string {
    var k := LastHash(name);
    if k >= 0 then name[..k] else name
  }

  /** Stripping recovers the host of a daemon. */
  lemma StripsSuffix(hostname: string, suffix: string)
    requires HashFree(hostname) && HashFree(suffix)
    ensures Stripped(DaemonName(hostname, suffix)) == hostname
  {
    var name := DaemonName(hostname, suffix);
    if suffix != "" {
      assert name[|hostname|] == '#' && name[..|hostname|] == hostname;
      assert forall i :: |hostname| < i < |name| ==> name[i] == suffix[i - |hostname| - 1];
    }
  }

  // ---------------------------------------------------------------- loading

  predicate Contains(s: string, part: string) {
    part <= s || (s != "" && Contains(s[1..], part))
  }

  lemma {:induction false} ContainsIs(s: string, part: string)
    ensures Contains(s, part) <==> exists i: nat :: HasAt(s, part, i)
    decreases |s|
  {
    assert part <= s <==> HasAt(s, part, 0);
    if s != "" {
      ContainsIs(s[1..], part);
      forall i: nat | i > 0
        ensures HasAt(s, part, i) <==> HasAt(s[1..], part, i - 1)
      {
        if i + |part| <= |s| {
          assert s[i..i + |part|] == s[1..][i - 1..i - 1 + |part|];
        }
      }
      if i: nat :| HasAt(s[1..], part, i) {
        assert HasAt(s, part, i + 1) <==> HasAt(s[1..], part, i + 1 - 1);
      }
    }
  }

  predicate HasAt(s: string, part: string, i: nat) {
    i + |part| <= |s| && s[i..i + |part|] == part
  }

  /** The transports, in the order in which they are looked for. */
  const PROTOCOLS := ["ofi+sockets", "ofi+psm2", "ofi+verbs", "na+sm"]

  /** The transport of an address is the first of them that it contains. */
  lemma ProtocolIs(uri: string, k: nat)
    requires k < |PROTOCOLS|
    ensures ProtocolOf(uri) == Some(PROTOCOLS[k]) <==>
              && Contains(uri, "://") && Contains(uri, PROTOCOLS[k])
              && forall j :: 0 <= j < k ==> !Contains(uri, PROTOCOLS[j])
    ensures ProtocolOf(uri) == None <==> !Contains(uri, "://") || forall j :: 0 <= j < |PROTOCOLS| ==> !Contains(uri, PROTOCOLS[j])
  {
    hide Contains;
    assert |PROTOCOLS[0]| == 11 && |PROTOCOLS[1]| == 8 && |PROTOCOLS[2]| == 9 && |PROTOCOLS[3]| == 5;
  }

  /** The transport named by an address; shared memory counts only when no other transport is named. */
  function ProtocolOf(uri: string): Option<string> {
    if !Contains(uri, "://") then None
    else if Contains(uri, "ofi+sockets") then Some("ofi+sockets")
    else if Contains(uri, "ofi+psm2") then Some("ofi+psm2")
    else if Contains(uri, "ofi+verbs") then Some("ofi+verbs")
    else if Contains(uri, "na+sm") then Some("na+sm")
    else None
  }

  datatype Loaded = Hosts(hosts: seq<Host>, protocol: string) | BadLine(line: string) | NoHosts | BadProtocol(uri: string)

  function MatchedAll(lines: seq<string>): Option<seq<Host>> {
    if lines == [] then Some([]) else
      var init, last := MatchedAll(lines[..|lines| - 1]), MatchLine(lines[|lines| - 1]);
      if init.None? || last.None? then None else Some(init.value + [last.value])
  }

  function StripAll(hosts: seq<Host>): (r: seq<Host>)
    ensures |r| == |hosts|
    ensures forall i :: 0 <= i < |hosts| ==> r[i] == Host(Stripped(hosts[i].name), hosts[i].uri)
  {
    if hosts == [] then [] else
      StripAll(hosts[..|hosts| - 1]) + [Host(Stripped(hosts[|hosts| - 1].name), hosts[|hosts| - 1].uri)]
  }

  lemma MatchedAllNext(lines: seq<string>, i: nat)
    requires i < |lines|
    ensures var init, last := MatchedAll(lines[..i]), MatchLine(lines[i]);
            MatchedAll(lines[..i + 1]) == if init.None? || last.None? then None else Some(init.value + [last.value])
  {
    assert lines[..i + 1][..i] == lines[..i];
  }

  lemma {:induction false} MatchedAllFails(lines: seq<string>, i: nat)
    requires i <= |lines| && MatchedAll(lines[..i]).None?
    ensures MatchedAll(lines).None?
    decreases |lines| - i
  {
    if i < |lines| {
      MatchedAllNext(lines, i);
      MatchedAllFails(lines, i + 1);
    } else {
      assert lines[..i] == lines;
    }
  }

  /** What loading some lines comes to. */
  function Loading(lines: seq<string>): Loaded {
    var all := MatchedAll(lines);
    if all.None? then BadLine(FirstBad(lines))
    else if all.value == [] then NoHosts
    else if ProtocolOf(all.value[0].uri).None? then BadProtocol(all.value[0].uri)
    else Hosts(StripAll(Sorted(all.value)), ProtocolOf(all.value[0].uri).value)
  }

  function FirstBad(lines: seq<string>): string {
    if lines == [] then "" else if MatchLine(lines[0]).None? then lines[0] else FirstBad(lines[1..])
  }

  lemma {:induction false} FirstBadIs(lines: seq<string>, i: nat)
    requires i < |lines| && MatchLine(lines[i]).None? && forall k :: 0 <= k < i ==> MatchLine(lines[k]).Some?
    ensures FirstBad(lines) == lines[i]
    decreases i
  {
    if i > 0 {
      FirstBadIs(lines[1..], i - 1);
    }
  }

  lemma SortedLength(s: seq<Host>)
    ensures |Sorted(s)| == |s|
  {
    hide Sorted;
    SortedSorts(s);
    assert |multiset(s)| == |s| && |multiset(Sorted(s))| == |Sorted(s)|;
  }

  /** Reads the lines, takes the protocol of the first one, sorts the hosts and strips their suffixes. */
  method LoadHostfile(lines: seq<string>) returns (r: Loaded)
    ensures r == Loading(lines)
    ensures r.BadLine? <==> exists k :: 0 <= k < |lines| && MatchLine(lines[k]).None?
    ensures r.BadLine? ==>
              exists k :: 0 <= k < |lines| && r.line == lines[k] && MatchLine(lines[k]).None? &&
                forall j :: 0 <= j < k ==> MatchLine(lines[j]).Some?
    ensures r == NoHosts <==> lines == []
    ensures r.BadProtocol? ==> ProtocolOf(r.uri).None? && MatchLine(lines[0]).Some? && r.uri == MatchLine(lines[0]).value.uri
    ensures r.Hosts? ==>
              && |r.hosts| == |lines| && MatchLine(lines[0]).Some?
              && ProtocolOf(MatchLine(lines[0]).value.uri) == Some(r.protocol)
  {
    hide ProtocolOf, MatchLine, Sorted, Stripped;
    var hosts: seq<Host> := [];
    for i := 0 to |lines|
      invariant MatchedAll(lines[..i]) == Some(hosts) && |hosts| == i
      invariant forall k :: 0 <= k < i ==> MatchLine(lines[k]) == Some(hosts[k])
    {
      MatchedAllNext(lines, i);
      var h := MatchLine(lines[i]);
      if h.None? {
        MatchedAllFails(lines, i + 1);
        FirstBadIs(lines, i);
        return BadLine(lines[i]);
      }
      hosts := hosts + [h.value];
    }
    assert lines[..|lines|] == lines;
    if hosts == [] {
      return NoHosts;
    }
    var protocol := ProtocolOf(hosts[0].uri);
    if protocol.None? {
      return BadProtocol(hosts[0].uri);
    }
    SortedLength(hosts);
    hosts := Sorted(hosts);
    ghost var sorted := hosts;
    for i := 0 to |hosts|
      invariant |hosts| == |sorted|
      invariant forall k :: 0 <= k < i ==> hosts[k] == Host(Stripped(sorted[k].name), sorted[k].uri)
      invariant forall k :: i <= k < |hosts| ==> hosts[k] == sorted[k]
    {
      hosts := hosts[i := Host(Stripped(hosts[i].name), hosts[i].uri)];
    }
    assert hosts == StripAll(sorted);
    r := Hosts(hosts, protocol.value);
  }

  /** A daemon, as it writes itself into the hosts file. */
  datatype Daemon = Daemon(hostname: string, suffix: string, uri: string)

  predicate WellNamed(d: Daemon) {
    && d.hostname != "" && NoSpace(d.hostname) && HashFree(d.hostname)
    && NoSpace(d.suffix) && HashFree(d.suffix)
    && d.uri != "" && NoSpace(d.uri)
  }

  predicate AllWellNamed(ds: seq<Daemon>) {
    forall i :: 0 <= i < |ds| ==> WellNamed(ds[i])
  }

  function Lines(ds: seq<Daemon>): seq<string> {
    if ds == [] then [] else Lines(ds[..|ds| - 1]) + [DaemonLine(ds[|ds| - 1].hostname, ds[|ds| - 1].suffix, ds[|ds| - 1].uri)]
  }

  function Written(d: Daemon): Host {
    Host(DaemonName(d.hostname, d.suffix), d.uri)
  }

  function WrittenAll(ds: seq<Daemon>): seq<Host> {
    if ds == [] then [] else WrittenAll(ds[..|ds| - 1]) + [Written(ds[|ds| - 1])]
  }

  lemma NameHasNoSpace(d: Daemon)
    requires WellNamed(d)
    ensures DaemonName(d.hostname, d.suffix) != "" && NoSpace(DaemonName(d.hostname, d.suffix))
  {
  }

  lemma {:induction false} LinesMatch(ds: seq<Daemon>)
    requires AllWellNamed(ds)
    ensures MatchedAll(Lines(ds)) == Some(WrittenAll(ds)) && |Lines(ds)| == |ds| == |WrittenAll(ds)|
    decreases |ds|
  {
    hide MatchLine, WellNamed;
    if ds != [] {
      var d := ds[|ds| - 1];
      LinesMatch(ds[..|ds| - 1]);
      NameHasNoSpace(d);
      WellNamedUri(d);
      LineMatches(DaemonName(d.hostname, d.suffix), d.uri);
      assert Lines(ds)[..|ds| - 1] == Lines(ds[..|ds| - 1]);
    }
  }

  lemma WellNamedUri(d: Daemon)
    requires WellNamed(d)
    ensures d.uri != "" && NoSpace(d.uri)
  {
  }

  /** Whatever the order in which the daemons have started, the hosts written are a rearrangement. */
  lemma {:induction false} WrittenMultiset(a: seq<Daemon>, b: seq<Daemon>)
    requires multiset(a) == multiset(b)
    ensures multiset(WrittenAll(a)) == multiset(WrittenAll(b))
    decreases |a|
  {
    if a == [] {
      assert b == [] by {
        assert |multiset(b)| == |b|;
      }
    } else {
      var n := |a| - 1;
      WithoutOne(a, n);
      assert a[n] in multiset(b);
      var j :| 0 <= j < |b| && b[j] == a[n];
      WithoutOne(b, j);
      var x, y := a[..n] + a[n + 1..], b[..j] + b[j + 1..];
      CancelOne(multiset(x), multiset(y), a[n]);
      WrittenMultiset(x, y);
    }
  }

  lemma CancelOne<T>(x: multiset<T>, y: multiset<T>, d: T)
    requires x + multiset{d} == y + multiset{d}
    ensures x == y
  {
    assert x == (x + multiset{d}) - multiset{d};
    assert y == (y + multiset{d}) - multiset{d};
  }

  lemma WithoutOne(b: seq<Daemon>, j: nat)
    requires j < |b|
    ensures var rest := b[..j] + b[j + 1..];
            && multiset(b) == multiset(rest) + multiset{b[j]}
            && multiset(WrittenAll(b)) == multiset(WrittenAll(rest)) + multiset{Written(b[j])}
  {
    var before, after := b[..j], b[j + 1..];
    assert b == (before + [b[j]]) + after;
    WrittenConcat(before + [b[j]], after);
    WrittenConcat(before, after);
    assert (before + [b[j]])[..j] == before;
  }

  lemma {:induction false} WrittenConcat(a: seq<Daemon>, b: seq<Daemon>)
    ensures WrittenAll(a + b) == WrittenAll(a) + WrittenAll(b)
    decreases |b|
  {
    if b == [] {
      assert a + b == a;
    } else {
      var n := |b| - 1;
      assert (a + b)[..|a + b| - 1] == a + b[..n];
      WrittenConcat(a, b[..n]);
    }
  }

  /** The hosts a client has of some daemons. */
  function HostsOf(ds: seq<Daemon>): seq<Host> {
    StripAll(Sorted(WrittenAll(ds)))
  }

  /** A client finds every line of the daemons in order, and starts unless it does not know the
      protocol of the first one. */
  lemma LoadingLines(ds: seq<Daemon>)
    requires AllWellNamed(ds)
    ensures Loading(Lines(ds)) ==
            if ds == [] then NoHosts
            else if ProtocolOf(ds[0].uri).None? then BadProtocol(ds[0].uri)
            else Hosts(HostsOf(ds), ProtocolOf(ds[0].uri).value)
  {
    hide ProtocolOf, WellNamed, Sorted, StripAll, Lines;
    LinesMatch(ds);
    if ds != [] {
      FirstWritten(ds);
    }
  }

  lemma {:induction false} FirstWritten(ds: seq<Daemon>)
    requires ds != []
    ensures WrittenAll(ds) != [] && WrittenAll(ds)[0] == Written(ds[0])
    decreases |ds|
  {
    if |ds| > 1 {
      FirstWritten(ds[..|ds| - 1]);
    } else {
      assert WrittenAll(ds[..0]) == [];
    }
  }

  /** Whatever the order the daemons started in, the hosts are the same, as many as there are daemons,
      and each is one of them with its suffix removed. */
  lemma ClientsAgree(a: seq<Daemon>, b: seq<Daemon>)
    requires AllWellNamed(a) && multiset(a) == multiset(b)
    ensures HostsOf(a) == HostsOf(b) && |HostsOf(a)| == |a|
    ensures forall h :: h in HostsOf(a) ==> exists d :: d in a && h == Host(d.hostname, d.uri)
  {
    hide WellNamed, Sorted, Stripped;
    WrittenMultiset(a, b);
    SortedSorts(WrittenAll(a));
    SortedSorts(WrittenAll(b));
    var hosts := Sorted(WrittenAll(a));
    SortedUnique(hosts, Sorted(WrittenAll(b)));
    LinesMatch(a);
    assert |hosts| == |multiset(hosts)| == |multiset(WrittenAll(a))| == |a|;
    HostsAreDaemons(a, hosts);
  }

  /** Two clients agree: neither starts, or both do with the same hosts and the same protocol. */
  predicate SameStart(x: Loaded, y: Loaded) {
    (x.Hosts? <==> y.Hosts?) && (x.Hosts? ==> x == y)
  }

  predicate OneProtocol(ds: seq<Daemon>) {
    forall d, e :: d in ds && e in ds ==> ProtocolOf(d.uri) == ProtocolOf(e.uri)
  }

  lemma AgreeOnProtocol(a: seq<Daemon>, b: seq<Daemon>)
    requires AllWellNamed(a) && OneProtocol(a) && multiset(a) == multiset(b)
    ensures SameStart(Loading(Lines(a)), Loading(Lines(b)))
  {
    hide ProtocolOf, WellNamed, Lines, Loading, HostsOf;
    SameDaemons(a, b);
    LoadingLines(a);
    LoadingLines(b);
    ClientsAgree(a, b);
  }

  lemma SameDaemons(a: seq<Daemon>, b: seq<Daemon>)
    requires multiset(a) == multiset(b)
    ensures |a| == |b| && forall d :: d in a <==> d in b
    ensures AllWellNamed(a) ==> AllWellNamed(b)
  {
    hide WellNamed;
    assert |multiset(a)| == |a| && |multiset(b)| == |b|;
    forall d
      ensures d in a <==> d in b
    {
      assert d in a <==> d in multiset(a);
      assert d in b <==> d in multiset(b);
    }
    forall i | 0 <= i < |b|
      ensures AllWellNamed(a) ==> WellNamed(b[i])
    {
      assert b[i] in a;
    }
  }

  /** The order with one daemon moved to the front. */
  function FirstInLine(ds: seq<Daemon>, i: nat): (r: seq<Daemon>)
    requires i < |ds|
    ensures multiset(r) == multiset(ds) && r != [] && r[0] == ds[i]
  {
    assert ds == ds[..i] + ([ds[i]] + ds[i + 1..]);
    [ds[i]] + (ds[..i] + ds[i + 1..])
  }

  lemma MovedToFront(ds: seq<Daemon>, i: nat)
    requires AllWellNamed(ds) && i < |ds|
    requires SameStart(Loading(Lines(ds)), Loading(Lines(FirstInLine(ds, i))))
    ensures ProtocolOf(ds[i].uri) == ProtocolOf(ds[0].uri)
  {
    hide ProtocolOf, WellNamed, Lines, Loading, HostsOf;
    SameDaemons(ds, FirstInLine(ds, i));
    LoadingLines(ds);
    LoadingLines(FirstInLine(ds, i));
  }

  lemma OtherStart(a: seq<Daemon>) returns (b: seq<Daemon>)
    requires AllWellNamed(a) && !OneProtocol(a)
    ensures multiset(b) == multiset(a) && !SameStart(Loading(Lines(a)), Loading(Lines(b)))
  {
    hide ProtocolOf, WellNamed, Lines, Loading, SameStart, AllWellNamed, FirstInLine;
    var i := OtherProtocol(a);
    b := FirstInLine(a, i);
    if SameStart(Loading(Lines(a)), Loading(Lines(b))) {
      MovedToFront(a, i);
      assert false;
    }
  }

  lemma OtherProtocol(a: seq<Daemon>) returns (i: nat)
    requires !OneProtocol(a)
    ensures i < |a| && ProtocolOf(a[i].uri) != ProtocolOf(a[0].uri)
  {
    hide ProtocolOf;
    var d, e :| d in a && e in a && ProtocolOf(d.uri) != ProtocolOf(e.uri);
    var j :| 0 <= j < |a| && a[j] == d;
    var k :| 0 <= k < |a| && a[k] == e;
    i := if ProtocolOf(d.uri) != ProtocolOf(a[0].uri) then j else k;
  }

  /** Only the protocol of the first line is looked at. Whatever the order the daemons started in, all
      clients start alike if and only if all daemons name the same known protocol, or all an unknown one. */
  lemma ClientsAgreeOnProtocol(a: seq<Daemon>)
    requires AllWellNamed(a)
    ensures (forall b :: multiset(b) == multiset(a) ==> SameStart(Loading(Lines(a)), Loading(Lines(b)))) <==> OneProtocol(a)
  {
    hide ProtocolOf, WellNamed, Lines, Loading, SameStart;
    if OneProtocol(a) {
      forall b | multiset(b) == multiset(a)
        ensures SameStart(Loading(Lines(a)), Loading(Lines(b)))
      {
        AgreeOnProtocol(a, b);
      }
    } else {
      var b := OtherStart(a);
    }
  }

  /** A daemon whose protocol is unknown, first in line, keeps every client from starting. */
  lemma FirstLineDecides(d: Daemon, e: Daemon)
    requires WellNamed(d) && WellNamed(e) && ProtocolOf(d.uri).Some? && ProtocolOf(e.uri).None?
    ensures Loading(Lines([d, e])).Hosts? && Loading(Lines([e, d])) == BadProtocol(e.uri)
  {
    hide ProtocolOf, WellNamed, Lines, Loading;
    LoadingLines([d, e]);
    LoadingLines([e, d]);
  }

  lemma HostsAreDaemons(a: seq<Daemon>, hosts: seq<Host>)
    requires AllWellNamed(a) && multiset(hosts) == multiset(WrittenAll(a))
    ensures forall h :: h in StripAll(hosts) ==> exists d :: d in a && h == Host(d.hostname, d.uri)
  {
    hide Stripped;
    forall h | h in StripAll(hosts)
      ensures exists d :: d in a && h == Host(d.hostname, d.uri)
    {
      var i :| 0 <= i < |hosts| && StripAll(hosts)[i] == h;
      assert hosts[i] in multiset(WrittenAll(a));
      var d := WriterOf(a, hosts[i]);
      assert WellNamed(d);
      StripsSuffix(d.hostname, d.suffix);
    }
  }

  lemma {:induction false} WriterOf(ds: seq<Daemon>, h: Host) returns (d: Daemon)
    requires h in WrittenAll(ds)
    ensures d in ds && Written(d) == h
    decreases |ds|
  {
    var n := |ds| - 1;
    if h == Written(ds[n]) {
      d := ds[n];
    } else {
      d := WriterOf(ds[..n], h);
    }
  }

  // ---------------------------------------------------------------- connecting

  type Endpoint = int

  const MAX_RETRIES := 3

  /** The network's answer to a lookup, by address and attempt. */
  type Network = (string, nat) -> Option<Endpoint>

  function FirstAnswer(network: Network, uri: string, attempt: nat): Option<Endpoint>
    decreases MAX_RETRIES - attempt
  {
    if network(uri, attempt).Some? || attempt + 1 >= MAX_RETRIES then network(uri, attempt)
    else FirstAnswer(network, uri, attempt + 1)
  }

  /** Looks an address up, three times at most. */
  method LookupEndpoint(network: Network, uri: string) returns (e: Option<Endpoint>)
    ensures e == FirstAnswer(network, uri, 0)
    ensures e.Some? ==>
              exists k :: 0 <= k < MAX_RETRIES && network(uri, k) == e && forall j :: 0 <= j < k ==> network(uri, j).None?
    ensures e.None? <==> forall k :: 0 <= k < MAX_RETRIES ==> network(uri, k).None?
  {
    var attempts := 0;
    while true
      invariant 0 <= attempts < MAX_RETRIES && FirstAnswer(network, uri, 0) == FirstAnswer(network, uri, attempts)
      invariant forall k :: 0 <= k < attempts ==> network(uri, k).None?
      decreases MAX_RETRIES - attempts
    {
      e := network(uri, attempts);
      if e.Some? {
        return;
      }
      attempts := attempts + 1;
      if attempts >= MAX_RETRIES {
        break;
      }
    }
  }

  /** The first host in the order of the lookups that bears the local name, or host 0. */
  function LocalId(hosts: seq<Host>, order: seq<nat>, hostname: string): nat
    requires forall i :: 0 <= i < |order| ==> order[i] < |hosts|
  {
    if order == [] then 0
    else if hosts[order[0]].name == hostname then order[0]
    else LocalId(hosts, order[1..], hostname)
  }

  /** The first host in some order that bears the name. */
  predicate FirstMatch(hosts: seq<Host>, order: seq<nat>, hostname: string, k: nat) {
    && k < |order| && order[k] < |hosts| && hosts[order[k]].name == hostname
    && forall j :: 0 <= j < k ==> order[j] < |hosts| && hosts[order[j]].name != hostname
  }

  predicate IsShuffle(order: seq<nat>, n: nat) {
    && |order| == n
    && (forall i :: 0 <= i < n ==> order[i] < n)
    && (forall id :: 0 <= id < n ==> id in order)
  }

  lemma {:induction false} LocalIdNext(hosts: seq<Host>, order: seq<nat>, hostname: string, i: nat)
    requires i < |order| && forall k :: 0 <= k < |order| ==> order[k] < |hosts|
    requires forall k :: 0 <= k < i ==> hosts[order[k]].name != hostname
    ensures hosts[order[i]].name == hostname ==> LocalId(hosts, order, hostname) == order[i]
    decreases |order|
  {
    if i > 0 {
      LocalIdNext(hosts, order[1..], hostname, i - 1);
    }
  }

  lemma {:induction false} LocalIdNone(hosts: seq<Host>, order: seq<nat>, hostname: string)
    requires forall k :: 0 <= k < |order| ==> order[k] < |hosts| && hosts[order[k]].name != hostname
    ensures LocalId(hosts, order, hostname) == 0
    decreases |order|
  {
    if order != [] {
      LocalIdNone(hosts, order[1..], hostname);
    }
  }

  /** Looks all hosts up in a shuffled order. `None` is the exception of a failed lookup. */
  method ConnectToHosts(network: Network, hosts: seq<Host>, order: seq<nat>, hostname: string)
    returns (addrs: Option<seq<Endpoint>>, localId: nat)
    requires IsShuffle(order, |hosts|)
    ensures addrs.Some? <==> forall i :: 0 <= i < |hosts| ==> FirstAnswer(network, hosts[i].uri, 0).Some?
    ensures addrs.Some? ==>
              && |addrs.value| == |hosts|
              && (forall i :: 0 <= i < |hosts| ==> FirstAnswer(network, hosts[i].uri, 0) == Some(addrs.value[i]))
              && localId == LocalId(hosts, order, hostname)
              && ((forall i :: 0 <= i < |hosts| ==> hosts[i].name != hostname) ==> localId == 0)
              && ((exists i :: 0 <= i < |hosts| && hosts[i].name == hostname) ==>
                    exists k: nat :: FirstMatch(hosts, order, hostname, k) && localId == order[k])
  {
    var table := new Endpoint[|hosts|];
    var found := false;
    localId := 0;
    for k := 0 to |order|
      invariant forall j :: 0 <= j < k ==> FirstAnswer(network, hosts[order[j]].uri, 0) == Some(table[order[j]])
      invariant !found ==> forall j :: 0 <= j < k ==> hosts[order[j]].name != hostname
      invariant found ==> localId == LocalId(hosts, order, hostname)
      invariant found ==> exists j: nat :: FirstMatch(hosts, order, hostname, j) && localId == order[j]
      invariant !found ==> localId == 0
    {
      var id := order[k];
      var e := LookupEndpoint(network, hosts[id].uri);
      if e.None? {
        return None, 0;
      }
      table[id] := e.value;
      if !found && hosts[id].name == hostname {
        LocalIdNext(hosts, order, hostname, k);
        assert FirstMatch(hosts, order, hostname, k);
        localId := id;
        found := true;
      }
    }
    if !found {
      LocalIdNone(hosts, order, hostname);
      forall i | 0 <= i < |hosts|
        ensures hosts[i].name != hostname
      {
        assert i in order;
        var j :| 0 <= j < |order| && order[j] == i;
      }
    }
    forall i | 0 <= i < |hosts|
      ensures FirstAnswer(network, hosts[i].uri, 0) == Some(table[i])
    {
      assert i in order;
      var j :| 0 <= j < |order| && order[j] == i;
    }
    addrs := Some(table[..]);
  }

  lemma {:induction false} LocalIdMatches(hosts: seq<Host>, order: seq<nat>, hostname: string, id: nat)
    requires forall k :: 0 <= k < |order| ==> order[k] < |hosts|
    requires id in order && hosts[id].name == hostname
    ensures LocalId(hosts, order, hostname) < |hosts| && hosts[LocalId(hosts, order, hostname)].name == hostname
    decreases |order|
  {
    if hosts[order[0]].name != hostname {
      LocalIdMatches(hosts, order[1..], hostname, id);
    }
  }

  /** Every shuffle finds the same local host exactly when no two hosts bear the local name, as they
      do when daemons with different suffixes run on one machine. */
  lemma LocalHostDetermined(hosts: seq<Host>, hostname: string)
    ensures (forall x, y :: IsShuffle(x, |hosts|) && IsShuffle(y, |hosts|) ==>
               LocalId(hosts, x, hostname) == LocalId(hosts, y, hostname)) <==>
            (forall i, j :: 0 <= i < |hosts| && 0 <= j < |hosts| ==>
               hosts[i].name == hostname && hosts[j].name == hostname ==> i == j)
  {
    if forall i, j :: 0 <= i < |hosts| && 0 <= j < |hosts| && hosts[i].name == hostname && hosts[j].name == hostname ==> i == j {
      forall x, y | IsShuffle(x, |hosts|) && IsShuffle(y, |hosts|)
        ensures LocalId(hosts, x, hostname) == LocalId(hosts, y, hostname)
      {
        if id: nat :| id < |hosts| && hosts[id].name == hostname {
          LocalIdMatches(hosts, x, hostname, id);
          LocalIdMatches(hosts, y, hostname, id);
        } else {
          LocalIdNone(hosts, x, hostname);
          LocalIdNone(hosts, y, hostname);
        }
      }
    } else {
      var i, j :| 0 <= i < |hosts| && 0 <= j < |hosts| && hosts[i].name == hostname && hosts[j].name == hostname && i != j;
      var x, y := Rotated(|hosts|, i), Rotated(|hosts|, j);
      assert LocalId(hosts, x, hostname) == i && LocalId(hosts, y, hostname) == j;
    }
  }

  /** A shuffle that starts with a given host. */
  function Rotated(n: nat, first: nat): (order: seq<nat>)
    requires first < n
    ensures IsShuffle(order, n) && order[0] == first
  {
    var order := seq(n, k requires 0 <= k < n => if k == 0 then first else if k <= first then k - 1 else k);
    assert forall id :: 0 <= id < n ==> id in order by {
      forall id | 0 <= id < n
        ensures id in order
      {
        var k := if id == first then 0 else if id < first then id + 1 else id;
        assert order[k] == id;
      }
    }
    order
  }
}
