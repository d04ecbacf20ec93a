/** The text of paths: separators, components, and the text of a component stack. */
module PathText {

  const SEPARATOR: char := '/'

  /** `std::string::npos`, the answer of a search that finds nothing. */
  const NPOS: int := -1

  predicate IsAbsolute(path: string) {
    path != "" && path[0] == SEPARATOR
  }

  predicate HasTrailingSlash(path: string) {
    path != "" && path[|path| - 1] == SEPARATOR
  }

  predicate SlashFree(c: string) {
    SEPARATOR !in c
  }

  /** A component that survives normalisation. */
  predicate IsName(c: string) {
    c != "" && SlashFree(c) && c != "." && c != ".."
  }

  predicate AreNames(cs: seq<string>) {
    forall i :: 0 <= i < |cs| ==> IsName(cs[i])
  }

  predicate AreSlashFree(cs: seq<string>) {
    forall i :: 0 <= i < |cs| ==> SlashFree(cs[i])
  }

  /** The text of a component stack: every component preceded by one separator. */
  function Join(cs: seq<string>): string {
    if cs == [] then "" else Join(cs[..|cs| - 1]) + [SEPARATOR] + cs[|cs| - 1]
  }

  /** The canonical absolute path of a component stack; the empty stack is the root. */
  function Canonical(cs: seq<string>): string {
    if cs == [] then [SEPARATOR] else Join(cs)
  }

  /** Index of the first separator, or the length when there is none. */
  function FirstSlash(s: string): (k: nat)
    ensures k <= |s| && SlashFree(s[..k])
    ensures k < |s| ==> s[k] == SEPARATOR
  {
    if s == "" || s[0] == SEPARATOR then 0
    else
      assert s[1..][..FirstSlash(s[1..])] == s[..1 + FirstSlash(s[1..])][1..];
      1 + FirstSlash(s[1..])
  }

  /** The pieces between single separators; no piece follows a final separator. */
  function Segments(s: string): seq<string>
    decreases |s|
  {
    if s == "" then [] else
      var k := FirstSlash(s);
      [s[..k]] + if k < |s| then Segments(s[k + 1..]) else []
  }

  /** The pieces of a path after its first character, which is taken to be a separator. */
  function SegmentsOf(path: string): seq<string> {
    if path == "" then [] else Segments(path[1..])
  }

  function SkipSlashes(s: string): (t: string)
    ensures |t| <= |s| && t == s[|s| - |t|..]
    ensures t != "" ==> t[0] != SEPARATOR
  {
    if s != "" && s[0] == SEPARATOR then SkipSlashes(s[1..]) else s
  }

  /** A non-empty component of a path, and all the text that comes after it. */
  datatype Token = Token(name: string, tail: string)

  function Tokens(s: string): seq<Token>
    decreases |s|
  {
    var t := SkipSlashes(s);
    if t == "" then [] else
      var k := FirstSlash(t);
      assert k > 0;
      [Token(t[..k], t[k..])] + Tokens(t[k..])
  }

  // ---------------------------------------------------------------- joins

  lemma {:induction false} JoinConcat(a: seq<string>, b: seq<string>)
    ensures Join(a + b) == Join(a) + Join(b)
  {
    if b == [] {
      assert a + b == a;
    } else {
      var n := |b| - 1;
      assert (a + b)[..|a + b| - 1] == a + b[..n];
      JoinConcat(a, b[..n]);
    }
  }

  lemma JoinSnoc(cs: seq<string>, c: string)
    ensures Join(cs + [c]) == Join(cs) + [SEPARATOR] + c
  {
  }

  lemma JoinCons(c: string, cs: seq<string>)
    ensures Join([c] + cs) == [SEPARATOR] + c + Join(cs)
  {
    JoinConcat([c], cs);
    JoinSnoc([], c);
    assert [] + [c] == [c];
  }

  lemma {:induction false} JoinIsAbsolute(cs: seq<string>)
    requires cs != []
    ensures IsAbsolute(Join(cs))
  {
    JoinCons(cs[0], cs[1..]);
    assert cs == [cs[0]] + cs[1..];
  }

  /** Prefixing a separator-free piece does not move the first separator before the piece's end. */
  lemma {:induction false} FirstSlashAfter(c: string, rest: string)
    requires SlashFree(c)
    requires rest == "" || rest[0] == SEPARATOR
    ensures FirstSlash(c + rest) == |c|
  {
    if c != "" {
      assert (c + rest)[1..] == c[1..] + rest;
      FirstSlashAfter(c[1..], rest);
    } else {
      assert c + rest == rest;
    }
  }

  /** Splitting undoes joining. */
  lemma {:induction false} SegmentsOfJoin(cs: seq<string>)
    requires AreNames(cs) && cs != []
    ensures Segments(Join(cs)[1..]) == cs
  {
    var c, rest := cs[0], cs[1..];
    assert cs == [c] + rest;
    JoinCons(c, rest);
    var s := Join(cs)[1..];
    assert s == c + Join(rest);
    if rest == [] {
      assert s == c + "";
      FirstSlashAfter(c, "");
      assert s[..|c|] == c;
    } else {
      JoinIsAbsolute(rest);
      FirstSlashAfter(c, Join(rest));
      assert s[..|c|] == c && s[|c| + 1..] == Join(rest)[1..];
      SegmentsOfJoin(rest);
    }
  }

  lemma {:induction false} SegmentsAreSlashFree(s: string)
    ensures AreSlashFree(Segments(s))
    decreases |s|
  {
    if s != "" {
      var k := FirstSlash(s);
      var rest := if k < |s| then Segments(s[k + 1..]) else [];
      if k < |s| {
        SegmentsAreSlashFree(s[k + 1..]);
      }
      ConsSlashFree(s[..k], rest);
    }
  }

  lemma ConsSlashFree(c: string, cs: seq<string>)
    requires SlashFree(c) && AreSlashFree(cs)
    ensures AreSlashFree([c] + cs)
  {
  }

  /** The separator that splitting drops at the end of a text. */
  function Dropped(s: string): string {
    if s == "" || HasTrailingSlash(s) then [SEPARATOR] else ""
  }

  lemma DroppedOfSuffix(s: string, k: nat)
    requires k < |s| && s[k] == SEPARATOR
    ensures Dropped(s) == Dropped(s[k + 1..])
  {
  }

  /** Joining undoes splitting, up to one final separator. */
  lemma {:induction false} JoinOfSegments(s: string)
    ensures Join(Segments(s)) + Dropped(s) == [SEPARATOR] + s
    decreases |s|
  {
    if s != "" {
      var k := FirstSlash(s);
      if k == |s| {
        LastSegment(s);
      } else {
        var head, t := s[..k], s[k + 1..];
        JoinOfSegments(t);
        JoinCons(head, Segments(t));
        DroppedOfSuffix(s, k);
        Reassociate(head, Join(Segments(t)), Dropped(t), t);
        Reassemble(s, k);
      }
    }
  }

  lemma Reassemble(s: string, k: nat)
    requires k < |s| && s[k] == SEPARATOR
    ensures s == s[..k] + [SEPARATOR] + s[k + 1..]
  {
  }

  lemma LastSegment(s: string)
    requires s != "" && FirstSlash(s) == |s|
    ensures Join(Segments(s)) + Dropped(s) == [SEPARATOR] + s
  {
    hide Segments, Join, FirstSlash;
    assert s[..|s|] == s;
    assert s[|s| - 1] in s;
    OneSegment(s);
    assert Dropped(s) == "";
  }

  lemma NothingJoined()
    ensures Join([]) == ""
  {
  }

  lemma OneSegment(s: string)
    requires s != "" && FirstSlash(s) == |s|
    ensures Segments(s) == [s] && Join([s]) == [SEPARATOR] + s
  {
    hide Join;
    assert s[..|s|] == s && [] + [s] == [s];
    JoinSnoc([], s);
    NothingJoined();
    assert "" + [SEPARATOR] + s == [SEPARATOR] + s;
  }

  lemma Reassociate(head: string, joined: string, dropped: string, t: string)
    requires joined + dropped == [SEPARATOR] + t
    ensures [SEPARATOR] + head + joined + dropped == [SEPARATOR] + (head + [SEPARATOR] + t)
  {
    assert [SEPARATOR] + head + joined + dropped == [SEPARATOR] + head + (joined + dropped);
  }

  // ---------------------------------------------------------------- tokens

  lemma SkipNothing(s: string)
    requires s == "" || s[0] != SEPARATOR
    ensures SkipSlashes(s) == s
  {
  }

  lemma {:induction false} TokensOfSlashes(s: string)
    ensures Tokens([SEPARATOR] + s) == Tokens(s)
  {
  }

  predicate AreNamed(toks: seq<Token>) {
    forall i :: 0 <= i < |toks| ==> toks[i].name != "" && SlashFree(toks[i].name)
  }

  /** Every token name is non-empty and free of separators. */
  lemma {:induction false} TokenNames(s: string)
    ensures AreNamed(Tokens(s))
    decreases |s|
  {
    var t := SkipSlashes(s);
    if t != "" {
      var k := FirstSlash(t);
      assert k > 0;
      TokenNames(t[k..]);
      ConsNamed(Token(t[..k], t[k..]), Tokens(t[k..]));
    }
  }

  lemma ConsNamed(tok: Token, toks: seq<Token>)
    requires tok.name != "" && SlashFree(tok.name) && AreNamed(toks)
    ensures AreNamed([tok] + toks)
  {
  }

  /** A component followed by nothing or by a separator is the first token. */
  lemma {:induction false} TokensCons(c: string, rest: string)
    requires c != "" && SlashFree(c)
    requires rest == "" || rest[0] == SEPARATOR
    ensures Tokens([SEPARATOR] + c + rest) == [Token(c, rest)] + Tokens(rest)
  {
    var t := c + rest;
    assert [SEPARATOR] + c + rest == [SEPARATOR] + t;
    TokensOfSlashes(t);
    assert t[0] == c[0];
    assert c[0] in c;
    SkipNothing(t);
    FirstSlashAfter(c, rest);
    assert t[..|c|] == c && t[|c|..] == rest;
  }
}
