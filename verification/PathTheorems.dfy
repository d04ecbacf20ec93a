/** What resolving guarantees: the closed form on plain directories, the shape of every internal
    path, links meaning their targets, and internal paths resolving to themselves. */
module PathTheorems {
  import opened Common
  import opened PathText
  import opened PathWalk

  // ---------------------------------------------------------------- lexical normalisation

  function Applied(stack: seq<string>, name: string): seq<string> {
    if name == "." then stack
    else if name == ".." then if stack == [] then [] else stack[..|stack| - 1]
    else stack + [name]
  }

  /** The stack after the components of a path, read from left to right. */
  function Normal(base: seq<string>, toks: seq<Token>): seq<string>
    decreases |toks|
  {
    if toks == [] then base else Normal(Applied(base, toks[0].name), toks[1..])
  }

  /** Some `..` of the path is read while the stack is empty. */
  predicate Climbs(base: seq<string>, toks: seq<Token>)
    decreases |toks|
  {
    toks != [] && ((toks[0].name == ".." && base == []) || Climbs(Applied(base, toks[0].name), toks[1..]))
  }

  /** The spot after the components of a path, when every lookup is plain. */
  function After(at: Spot, toks: seq<Token>): Spot {
    Spot(at.rooted && !Climbs(at.stack, toks), Normal(at.stack, toks))
  }

  /** Looking the component up, if it is looked up at all, finds a directory;
      at the end of the path a file, or a link that is not followed, will do. */
  predicate PlainAt(os: OS, mnt: seq<string>, follow: bool, at: Spot, tok: Token) {
    tok.name == "." || tok.name == ".." || mnt <= at.stack ||
    var entry := os.lstat(Text(Down(at, tok.name)));
    entry == Directory || (tok.tail == "" && (entry == Other || (entry == Symlink && !follow)))
  }

  /** Every lookup along the path is plain. */
  predicate Plain(os: OS, mnt: seq<string>, follow: bool, at: Spot, toks: seq<Token>) {
    forall i :: 0 <= i < |toks| ==> PlainAt(os, mnt, follow, After(at, toks[..i]), toks[i])
  }

  lemma AfterHead(at: Spot, toks: seq<Token>)
    requires toks != []
    ensures After(at, toks) == After(After(at, [toks[0]]), toks[1..])
  {
    assert [toks[0]][1..] == [];
    assert Normal(at.stack, [toks[0]]) == Applied(at.stack, toks[0].name);
    assert Climbs(at.stack, [toks[0]]) <==> toks[0].name == ".." && at.stack == [];
  }

  lemma PlainTail(os: OS, mnt: seq<string>, follow: bool, at: Spot, toks: seq<Token>)
    requires toks != [] && Plain(os, mnt, follow, at, toks)
    ensures PlainAt(os, mnt, follow, at, toks[0])
    ensures Plain(os, mnt, follow, After(at, [toks[0]]), toks[1..])
  {
    assert After(at, toks[..0]) == at;
    var next, rest := After(at, [toks[0]]), toks[1..];
    forall i | 0 <= i < |rest|
      ensures PlainAt(os, mnt, follow, After(next, rest[..i]), rest[i])
    {
      assert toks[..i + 1][1..] == rest[..i] && toks[..i + 1][0] == toks[0];
      AfterHead(at, toks[..i + 1]);
      assert PlainAt(os, mnt, follow, After(at, toks[..i + 1]), toks[i + 1]);
    }
  }

  lemma PlainAdvance(os: OS, mnt: seq<string>, follow: bool, at: Spot, tok: Token)
    requires PlainAt(os, mnt, follow, at, tok)
    ensures Advance(os, mnt, follow, at, tok) == Next(After(at, [tok]))
  {
    assert [tok][1..] == [];
    assert Normal(at.stack, [tok]) == Applied(at.stack, tok.name);
    assert Climbs(at.stack, [tok]) <==> tok.name == ".." && at.stack == [];
  }

  lemma {:induction false} PlainWalk(os: OS, mnt: seq<string>, follow: bool, at: Spot, toks: seq<Token>)
    requires Plain(os, mnt, follow, at, toks)
    ensures Walk(os, mnt, follow, at, toks) == Finish(mnt, After(at, toks))
    decreases |toks|
  {
    if toks != [] {
      PlainTail(os, mnt, follow, at, toks);
      PlainAdvance(os, mnt, follow, at, toks[0]);
      AfterHead(at, toks);
      PlainWalk(os, mnt, follow, After(at, [toks[0]]), toks[1..]);
    }
  }

  /** On plain directories the resolver answers true exactly when the mount's components are a
      prefix of the normalised stack, and the text is what the stack says. */
  lemma ResolvePlain(os: OS, mnt: seq<string>, follow: bool, path: string)
    requires !Excluded(path) && Plain(os, mnt, follow, START, Tokens(path))
    ensures var stack := Normal([], Tokens(path));
            Resolved(os, mnt, follow, path) ==
            if mnt <= stack then Inside(Canonical(stack[|mnt|..])) else Outside(Canonical(stack))
  {
    hide Walk, Tokens, Normal, Climbs, Plain, Finish, Excluded;
    PlainWalk(os, mnt, follow, START, Tokens(path));
    FinishPlain(mnt, Normal([], Tokens(path)));
  }

  lemma FinishPlain(mnt: seq<string>, stack: seq<string>)
    ensures Finish(mnt, Spot(false, stack)) ==
            if mnt <= stack then Inside(Canonical(stack[|mnt|..])) else Outside(Canonical(stack))
  {
  }

  // ---------------------------------------------------------------- the shape of internal paths

  /** Where a walk ends, when it reaches the end of the path. */
  function Last(os: OS, mnt: seq<string>, follow: bool, at: Spot, toks: seq<Token>): Option<Spot>
    decreases |toks|
  {
    if toks == [] then Some(at)
    else
      var step := Advance(os, mnt, follow, at, toks[0]);
      if step.Stop? then None else Last(os, mnt, follow, step.at, toks[1..])
  }

  lemma SpotNamesUp(stack: seq<string>)
    requires AreNames(stack) && stack != []
    ensures AreNames(stack[..|stack| - 1])
  {
  }

  lemma LandNames(mnt: seq<string>, target: string)
    requires IsCanonical(target)
    ensures AreNames(SegmentsOf(target))
  {
    var cs :| AreNames(cs) && target == Canonical(cs);
    if cs != [] {
      JoinIsAbsolute(cs);
      SegmentsOfJoin(cs);
    }
  }

  /** One component keeps the stack free of empty, `.` and `..` components. */
  lemma AdvanceNames(os: OS, mnt: seq<string>, follow: bool, at: Spot, tok: Token)
    requires ValidOS(os) && AreNames(at.stack)
    requires tok.name != "" && SlashFree(tok.name)
    requires Advance(os, mnt, follow, at, tok).Next?
    ensures AreNames(Advance(os, mnt, follow, at, tok).at.stack)
  {
    if tok.name == ".." {
      if at.stack != [] {
        SpotNamesUp(at.stack);
      }
    } else if tok.name != "." {
      var text := Text(Down(at, tok.name));
      if os.realpath(text).Some? {
        LandNames(mnt, os.realpath(text).value);
      }
    }
  }

  /** A walk ends outside unless it ends at a spot whose stack starts with the mount's components. */
  lemma {:induction false} WalkEnd(os: OS, mnt: seq<string>, follow: bool, at: Spot, toks: seq<Token>)
    requires ValidOS(os) && AreNames(at.stack) && AreNamed(toks)
    ensures var last, out := Last(os, mnt, follow, at, toks), Walk(os, mnt, follow, at, toks);
            && (last.Some? ==> AreNames(last.value.stack) && out == Finish(mnt, last.value))
            && (last.None? ==> !out.Inside?)
    decreases |toks|
  {
    if toks != [] {
      var step := Advance(os, mnt, follow, at, toks[0]);
      if step.Next? {
        AdvanceNames(os, mnt, follow, at, toks[0]);
        WalkEnd(os, mnt, follow, step.at, toks[1..]);
      } else {
        StopsOutside(os, mnt, follow, at, toks[0]);
      }
    }
  }

  lemma StopsOutside(os: OS, mnt: seq<string>, follow: bool, at: Spot, tok: Token)
    requires Advance(os, mnt, follow, at, tok).Stop?
    ensures !Advance(os, mnt, follow, at, tok).out.Inside?
  {
  }

  lemma DoubledIsNotCanonical(cs: seq<string>)
    requires cs != []
    ensures !IsCanonical([SEPARATOR] + Join(cs))
  {
    var p := [SEPARATOR] + Join(cs);
    JoinIsAbsolute(cs);
    assert p[0] == p[1] == SEPARATOR;
    forall ds | AreNames(ds)
      ensures p != Canonical(ds)
    {
      if ds != [] {
        JoinCons(ds[0], ds[1..]);
        assert ds == [ds[0]] + ds[1..];
        assert Join(ds)[1] == ds[0][0];
        assert ds[0][0] in ds[0];
      }
    }
  }

  /** The text handed out for a spot below the mount point. */
  function Below(mnt: seq<string>, at: Spot): string
    requires mnt <= at.stack
  {
    var below := at.stack[|mnt|..];
    if below == [] then [SEPARATOR] else Lead(at) + Join(below)
  }

  lemma CanonicalOf(cs: seq<string>)
    requires AreNames(cs)
    ensures IsCanonical(Canonical(cs))
  {
  }

  lemma FinishShape(mnt: seq<string>, at: Spot)
    requires AreNames(at.stack)
    ensures Finish(mnt, at).Inside? <==> mnt <= at.stack
    ensures mnt <= at.stack ==> Finish(mnt, at) == Inside(Below(mnt, at))
    ensures mnt <= at.stack ==> (IsCanonical(Below(mnt, at)) <==> !at.rooted || at.stack == mnt)
  {
    hide Join, IsCanonical;
    if mnt <= at.stack {
      var below := at.stack[|mnt|..];
      assert below == [] <==> at.stack == mnt;
      CanonicalOf(below);
      if below == [] {
      } else if at.rooted {
        DoubledIsNotCanonical(below);
      } else {
        assert "" + Join(below) == Canonical(below);
      }
    }
  }

  /** An internal path never escapes the mount: whatever the links and `..` on the way, it is the
      canonical path of the components below the mount point, and the one exception is a walk whose
      last restart was a link to the root directory, which leaves a second leading separator. */
  lemma InsideShape(os: OS, mnt: seq<string>, follow: bool, path: string)
    requires ValidOS(os)
    ensures var last, out := Last(os, mnt, follow, START, Tokens(path)), Resolved(os, mnt, follow, path);
            && (out.Inside? <==> !Excluded(path) && last.Some? && mnt <= last.value.stack)
            && (out.Inside? ==>
                  && AreNames(last.value.stack)
                  && out.path == Below(mnt, last.value)
                  && (IsCanonical(out.path) <==> !last.value.rooted || last.value.stack == mnt))
  {
    hide Walk, Last, Finish, Tokens, Below, IsCanonical;
    TokenNames(path);
    WalkEnd(os, mnt, follow, START, Tokens(path));
    var last := Last(os, mnt, follow, START, Tokens(path));
    if last.Some? {
      FinishShape(mnt, last.value);
    }
  }

  lemma {:induction false} NeverRooted(os: OS, mnt: seq<string>, follow: bool, at: Spot, toks: seq<Token>)
    requires forall p :: os.realpath(p) != Some([SEPARATOR])
    requires !at.rooted
    ensures var last := Last(os, mnt, follow, at, toks); last.Some? ==> !last.value.rooted
    decreases |toks|
  {
    if toks != [] {
      var step := Advance(os, mnt, follow, at, toks[0]);
      if step.Next? {
        NeverRooted(os, mnt, follow, step.at, toks[1..]);
      }
    }
  }

  /** Where no link leads to the root directory, every internal path is canonical. */
  lemma InsideIsCanonical(os: OS, mnt: seq<string>, follow: bool, path: string)
    requires ValidOS(os) && forall p :: os.realpath(p) != Some([SEPARATOR])
    ensures var out := Resolved(os, mnt, follow, path); out.Inside? ==> IsCanonical(out.path)
  {
    hide Walk, Last, Tokens, IsCanonical, Resolved;
    InsideShape(os, mnt, follow, path);
    NeverRooted(os, mnt, follow, START, Tokens(path));
  }

  lemma TextIsAbsolute(at: Spot)
    requires Text(at) != ""
    ensures IsAbsolute(Text(at))
  {
    if at.stack != [] {
      JoinIsAbsolute(at.stack);
    }
  }

  lemma StopIsAbsolute(os: OS, mnt: seq<string>, follow: bool, at: Spot, tok: Token)
    ensures var step := Advance(os, mnt, follow, at, tok);
            step.Stop? && step.out != OutOfRange ==> IsAbsolute(step.out.path)
  {
    var down := Down(at, tok.name);
    JoinIsAbsolute(down.stack);
    TextIsAbsolute(down);
  }

  /** Internal and external answers alike are absolute paths. */
  lemma {:induction false} WalkIsAbsolute(os: OS, mnt: seq<string>, follow: bool, at: Spot, toks: seq<Token>)
    ensures var out := Walk(os, mnt, follow, at, toks); out != OutOfRange ==> IsAbsolute(out.path)
    decreases |toks|
  {
    if toks == [] {
      FinishIsAbsolute(mnt, at);
    } else {
      var step := Advance(os, mnt, follow, at, toks[0]);
      StopIsAbsolute(os, mnt, follow, at, toks[0]);
      if step.Next? {
        WalkIsAbsolute(os, mnt, follow, step.at, toks[1..]);
      }
    }
  }

  lemma FinishIsAbsolute(mnt: seq<string>, at: Spot)
    ensures var out := Finish(mnt, at); out != OutOfRange && IsAbsolute(out.path)
  {
    if Text(at) != "" {
      TextIsAbsolute(at);
    }
    if mnt <= at.stack && at.stack != mnt {
      JoinIsAbsolute(at.stack[|mnt|..]);
    }
  }

  // ---------------------------------------------------------------- final separators of external paths

  /** A walk that is abandoned hands out the end of the path as it was. */
  lemma {:induction false} AbandonedSlash(os: OS, mnt: seq<string>, follow: bool, at: Spot, s: string)
    ensures var out := Walk(os, mnt, follow, at, Tokens(s));
            Last(os, mnt, follow, at, Tokens(s)).None? && out.Outside? ==>
              (HasTrailingSlash(out.path) <==> HasTrailingSlash(s))
    decreases |s|
  {
    hide Advance, Tokens, SkipSlashes, HasTrailingSlash;
    FirstToken(s);
    var t, toks := SkipSlashes(s), Tokens(s);
    if toks != [] {
      var tok := toks[0];
      Halves(s, |s| - |t|);
      TrailingConcat(s[..|s| - |t|], t);
      TrailingConcat(tok.name, tok.tail);
      var step := Advance(os, mnt, follow, at, tok);
      if step.Next? {
        if tok.tail == "" {
          NothingLeft();
          assert Last(os, mnt, follow, step.at, []) == Some(step.at);
        }
        AbandonedSlash(os, mnt, follow, step.at, tok.tail);
      } else {
        AbandonedText(os, mnt, follow, at, tok);
      }
    }
  }

  lemma TrailingConcat(a: string, b: string)
    ensures HasTrailingSlash(a + b) <==> if b == "" then HasTrailingSlash(a) else HasTrailingSlash(b)
  {
    if b == "" {
      assert a + b == a;
    }
  }

  /** A path is some separators, its first component, and the rest. */
  lemma FirstToken(s: string)
    ensures var t, toks := SkipSlashes(s), Tokens(s);
            if t == "" then toks == [] else
              && toks != [] && toks[1..] == Tokens(toks[0].tail)
              && toks[0].name != "" && t == toks[0].name + toks[0].tail
  {
    hide SkipSlashes, FirstSlash;
    var t := SkipSlashes(s);
    if t != "" {
      var k := FirstSlash(t);
      Halves(t, k);
      assert Tokens(s) == [Token(t[..k], t[k..])] + Tokens(t[k..]);
    }
  }

  lemma Halves(t: string, k: nat)
    requires k <= |t|
    ensures t == t[..k] + t[k..]
  {
  }

  lemma AbandonedText(os: OS, mnt: seq<string>, follow: bool, at: Spot, tok: Token)
    requires tok.name != "" && Advance(os, mnt, follow, at, tok).Stop?
    ensures var out := Advance(os, mnt, follow, at, tok).out;
            out.Outside? ==> (HasTrailingSlash(out.path) <==> HasTrailingSlash(tok.name + tok.tail))
  {
    hide Join, HasTrailingSlash;
    var down := Down(at, tok.name);
    JoinSnoc(at.stack, tok.name);
    TrailingConcat(Join(at.stack) + [SEPARATOR], tok.name);
    TrailingConcat(Lead(at), Join(down.stack));
    TrailingConcat(Text(down), tok.tail);
    TrailingConcat(tok.name, tok.tail);
  }

  lemma NamesEnd(cs: seq<string>)
    requires AreNames(cs) && cs != []
    ensures Join(cs) != "" && !HasTrailingSlash(Join(cs))
  {
    hide Join;
    var n := |cs| - 1;
    var c := cs[n];
    assert IsName(c) && c[|c| - 1] in c;
    assert cs == cs[..n] + [c];
    JoinSnoc(cs[..n], c);
    TrailingConcat(Join(cs[..n]) + [SEPARATOR], c);
  }

  lemma FinishedSlash(mnt: seq<string>, at: Spot)
    requires AreNames(at.stack) && Finish(mnt, at).Outside?
    ensures HasTrailingSlash(Finish(mnt, at).path) <==> at.stack == []
  {
    hide Join;
    if at.stack != [] {
      NamesEnd(at.stack);
      TrailingConcat(Lead(at), Join(at.stack));
    } else {
      NothingLeft();
    }
  }

  /** The path is walked to its end at the root, or it ends in a separator and is not walked to its end:
      because it is excluded, or because the walk is abandoned at something missing or no directory. */
  predicate KeepsSlash(os: OS, mnt: seq<string>, follow: bool, path: string) {
    var last := Last(os, mnt, follow, START, Tokens(path));
    if Excluded(path) || last.None? then HasTrailingSlash(path) else last.value.stack == []
  }

  /** An external path ends in a separator exactly for these paths. */
  lemma ExternalSlash(os: OS, mnt: seq<string>, follow: bool, path: string)
    requires ValidOS(os)
    ensures var out := Resolved(os, mnt, follow, path);
            out.Outside? ==> (HasTrailingSlash(out.path) <==> KeepsSlash(os, mnt, follow, path))
  {
    hide Walk, Last, Finish, Tokens;
    TokenNames(path);
    WalkEnd(os, mnt, follow, START, Tokens(path));
    var last := Last(os, mnt, follow, START, Tokens(path));
    if last.None? {
      AbandonedSlash(os, mnt, follow, START, path);
    } else if Resolved(os, mnt, follow, path).Outside? && !Excluded(path) {
      FinishedSlash(mnt, last.value);
    }
  }

  // ---------------------------------------------------------------- walking known directories

  /** Every proper extension of `base` by components of `cs` is a directory or inside the mount. */
  predicate Directories(os: OS, mnt: seq<string>, base: seq<string>, cs: seq<string>) {
    forall k :: 0 <= k < |cs| ==>
      mnt <= base + cs[..k] || os.lstat(Join(base + cs[..k] + [cs[k]])) == Directory
  }

  lemma DirectoriesTail(os: OS, mnt: seq<string>, base: seq<string>, cs: seq<string>)
    requires cs != [] && Directories(os, mnt, base, cs)
    ensures mnt <= base || os.lstat(Join(base + [cs[0]])) == Directory
    ensures Directories(os, mnt, base + [cs[0]], cs[1..])
  {
    assert base + cs[..0] == base;
    forall k | 0 <= k < |cs| - 1
      ensures mnt <= base + [cs[0]] + cs[1..][..k] ||
              os.lstat(Join(base + [cs[0]] + cs[1..][..k] + [cs[1..][k]])) == Directory
    {
      assert base + [cs[0]] + cs[1..][..k] == base + cs[..k + 1];
    }
  }

  /** Walking the text of plain directories pushes them all. */
  lemma {:induction false} WalkDirectories(os: OS, mnt: seq<string>, follow: bool, base: seq<string>,
                                           cs: seq<string>, tail: string)
    requires AreNames(cs) && Directories(os, mnt, base, cs)
    requires tail == "" || tail[0] == SEPARATOR
    ensures Walk(os, mnt, follow, Spot(false, base), Tokens(Join(cs) + tail)) ==
            Walk(os, mnt, follow, Spot(false, base + cs), Tokens(tail))
    decreases |cs|
  {
    hide Walk, Tokens, Directories;
    if cs == [] {
      assert Join(cs) + tail == tail && base + cs == base;
    } else {
      var c, rest := cs[0], cs[1..];
      DirectoriesTail(os, mnt, base, cs);
      FirstOfJoin(cs, tail);
      EnterDirectory(os, mnt, follow, base, c, Join(rest) + tail, Tokens(Join(rest) + tail));
      WalkDirectories(os, mnt, follow, base + [c], rest, tail);
      MoveHead(base, cs);
    }
  }

  lemma MoveHead(base: seq<string>, cs: seq<string>)
    requires cs != []
    ensures base + [cs[0]] + cs[1..] == base + cs
  {
  }

  lemma JoinHead(cs: seq<string>, tail: string)
    requires cs != []
    requires tail == "" || tail[0] == SEPARATOR
    ensures var rest := Join(cs[1..]) + tail;
            Join(cs) + tail == [SEPARATOR] + cs[0] + rest && (rest == "" || rest[0] == SEPARATOR)
    ensures tail != "" ==> Join(cs[1..]) + tail != ""
  {
    assert cs == [cs[0]] + cs[1..];
    JoinCons(cs[0], cs[1..]);
    if cs[1..] != [] {
      JoinIsAbsolute(cs[1..]);
    }
    TextAssociates([SEPARATOR] + cs[0], Join(cs[1..]), tail);
  }

  lemma TextAssociates(a: string, b: string, c: string)
    ensures (a + b) + c == a + (b + c)
  {
  }

  lemma FirstOfJoin(cs: seq<string>, tail: string)
    requires cs != [] && IsName(cs[0])
    requires tail == "" || tail[0] == SEPARATOR
    ensures var rest := Join(cs[1..]) + tail;
            Tokens(Join(cs) + tail) == [Token(cs[0], rest)] + Tokens(rest)
  {
    JoinHead(cs, tail);
    TokensCons(cs[0], Join(cs[1..]) + tail);
  }

  /** A component that is inside the mount, a directory, or a file at the end of the path. */
  predicate Passes(os: OS, mnt: seq<string>, base: seq<string>, c: string, tail: string) {
    mnt <= base || os.lstat(Join(base + [c])) == Directory || (tail == "" && os.lstat(Join(base + [c])) == Other)
  }

  lemma EnterDirectory(os: OS, mnt: seq<string>, follow: bool, base: seq<string>, c: string, tail: string, toks: seq<Token>)
    requires IsName(c)
    requires Passes(os, mnt, base, c, tail)
    ensures Walk(os, mnt, follow, Spot(false, base), [Token(c, tail)] + toks) ==
            Walk(os, mnt, follow, Spot(false, base + [c]), toks)
  {
    assert ([Token(c, tail)] + toks)[1..] == toks;
    assert Text(Down(Spot(false, base), c)) == Join(base + [c]);
  }

  // ---------------------------------------------------------------- links mean their targets

  predicate StartsExcluded(cs: seq<string>) {
    cs != [] && (cs[0] == "sys" || cs[0] == "proc")
  }

  /** A canonical text followed by a separator is excluded exactly for the two directories. */
  lemma ExcludedJoin(cs: seq<string>, tail: string)
    requires AreNames(cs) && cs != []
    requires tail != "" && tail[0] == SEPARATOR
    ensures Excluded(Join(cs) + tail) <==> StartsExcluded(cs)
  {
    hide Join, SlashFree;
    JoinHead(cs, tail);
    var text := Join(cs) + tail;
    ComponentPrefix("sys", cs[0], Join(cs[1..]) + tail);
    ComponentPrefix("proc", cs[0], Join(cs[1..]) + tail);
    ExcludedTexts(text);
  }

  lemma ExcludedTexts(text: string)
    ensures SlashFree("sys") && SlashFree("proc")
    ensures Excluded(text) <==> [SEPARATOR] + "sys" + [SEPARATOR] <= text || [SEPARATOR] + "proc" + [SEPARATOR] <= text
  {
  }

  lemma ComponentPrefix(d: string, c: string, rest: string)
    requires SlashFree(d) && SlashFree(c) && rest != "" && rest[0] == SEPARATOR
    ensures [SEPARATOR] + d + [SEPARATOR] <= [SEPARATOR] + c + rest <==> c == d
  {
    var p, s := [SEPARATOR] + d + [SEPARATOR], [SEPARATOR] + c + rest;
    if p <= s {
      var after := s[1 + |d|..];
      assert after[0] == p[1 + |d|] == SEPARATOR;
      assert d == p[1..1 + |d|] == s[1..1 + |d|];
      assert s[1..] == c + rest && s[1..] == d + after;
      FirstSlashAfter(c, rest);
      FirstSlashAfter(d, after);
      assert c == s[1..1 + |c|];
    }
  }

  /** A path whose next component, reached over plain directories outside the mount, is a link to be
      followed walks on as from the link. */
  lemma ReachLink(os: OS, mnt: seq<string>, follow: bool, dirs: seq<string>, link: string, tail: string)
    requires AreNames(dirs + [link])
    requires tail == "" || tail[0] == SEPARATOR
    requires Directories(os, mnt, [], dirs)
    requires !Excluded(Join(dirs + [link]) + tail)
    ensures Resolved(os, mnt, follow, Join(dirs + [link]) + tail) ==
            Walk(os, mnt, follow, Spot(false, dirs), [Token(link, tail)] + Tokens(tail))
    ensures IsName(link)
  {
    hide Walk, Tokens, Directories, Excluded, Join, IsName;
    NamesSnoc(dirs, link);
    JoinSnoc(dirs, link);
    MoveLink(Join(dirs), link, tail);
    WalkDirectories(os, mnt, follow, [], dirs, [SEPARATOR] + link + tail);
    assert [] + dirs == dirs;
    TokensCons(link, tail);
  }

  /** The real path of a link: plain directories, and last a directory, or a file that ends the path. */
  predicate Reachable(os: OS, mnt: seq<string>, target: seq<string>, tail: string)
    requires target != []
  {
    var n := |target| - 1;
    Directories(os, mnt, [], target[..n]) && Passes(os, mnt, target[..n], target[n], tail)
  }

  lemma WalkTarget(os: OS, mnt: seq<string>, follow: bool, target: seq<string>, tail: string)
    requires AreNames(target) && target != [] && Reachable(os, mnt, target, tail)
    requires tail == "" || tail[0] == SEPARATOR
    requires !Excluded(Join(target) + tail)
    ensures Resolved(os, mnt, follow, Join(target) + tail) == Walk(os, mnt, follow, Spot(false, target), Tokens(tail))
  {
    hide Walk, Tokens, Directories, Excluded, Join, IsName, Resolved, Passes;
    var n := |target| - 1;
    assert target == target[..n] + [target[n]];
    ReachLink(os, mnt, follow, target[..n], target[n], tail);
    EnterDirectory(os, mnt, follow, target[..n], target[n], tail, Tokens(tail));
  }

  /** Resolving a path that goes through a link, reached over plain directories outside the mount,
      is resolving the link's real path followed by the rest of the path, except when the real path
      lies strictly below the mount: then the exception is thrown. */
  lemma LinkMeansTarget(os: OS, mnt: seq<string>, follow: bool, dirs: seq<string>, link: string,
                        target: seq<string>, tail: string)
    requires AreNames(dirs + [link]) && AreNames(target) && target != []
    requires tail == "" || tail[0] == SEPARATOR
    requires Directories(os, mnt, [], dirs) && !(mnt <= dirs)
    requires os.lstat(Join(dirs + [link])) == Symlink && (follow || tail != "")
    requires os.realpath(Join(dirs + [link])) == Some(Join(target))
    requires Reachable(os, mnt, target, tail)
    requires !Excluded(Join(dirs + [link]) + tail) && !Excluded(Join(target) + tail)
    ensures Resolved(os, mnt, follow, Join(dirs + [link]) + tail) ==
            if mnt < target then OutOfRange else Resolved(os, mnt, follow, Join(target) + tail)
  {
    hide Walk, Tokens, Directories, Excluded, Join, IsName, Resolved, Reachable;
    if mnt < target {
      LinkBelowMountThrows(os, mnt, follow, dirs, link, target, tail);
    } else {
      ReachLink(os, mnt, follow, dirs, link, tail);
      EnterLink(os, mnt, follow, dirs, Token(link, tail), target, Tokens(tail));
      WalkTarget(os, mnt, follow, target, tail);
    }
  }

  /** A path through a link whose real path lies strictly below the mount is never resolved. */
  lemma LinkBelowMountThrows(os: OS, mnt: seq<string>, follow: bool, dirs: seq<string>, link: string,
                             target: seq<string>, tail: string)
    requires AreNames(dirs + [link]) && AreNames(target) && mnt < target
    requires tail == "" || tail[0] == SEPARATOR
    requires Directories(os, mnt, [], dirs) && !(mnt <= dirs)
    requires os.lstat(Join(dirs + [link])) == Symlink && (follow || tail != "")
    requires os.realpath(Join(dirs + [link])) == Some(Join(target))
    requires !Excluded(Join(dirs + [link]) + tail)
    ensures Resolved(os, mnt, follow, Join(dirs + [link]) + tail) == OutOfRange
  {
    hide Walk, Tokens, Directories, Excluded, Join, IsName, Resolved;
    ReachLink(os, mnt, follow, dirs, link, tail);
    EnterLink(os, mnt, follow, dirs, Token(link, tail), target, Tokens(tail));
  }

  /** A path whose next component, reached over plain directories outside the mount, is missing, a file
      that something follows, or a link that leads nowhere, goes out as it is. */
  lemma AbandonedGoesOut(os: OS, mnt: seq<string>, follow: bool, dirs: seq<string>, name: string, tail: string)
    requires AreNames(dirs + [name])
    requires tail == "" || tail[0] == SEPARATOR
    requires Directories(os, mnt, [], dirs) && !(mnt <= dirs)
    requires var entry := os.lstat(Join(dirs + [name]));
             || entry == Missing
             || (entry == Other && tail != "")
             || (entry == Symlink && (follow || tail != "") && os.realpath(Join(dirs + [name])).None?)
    requires !Excluded(Join(dirs + [name]) + tail)
    ensures Resolved(os, mnt, follow, Join(dirs + [name]) + tail) == Outside(Join(dirs + [name]) + tail)
  {
    hide Tokens, Directories, Excluded, Join, IsName, Resolved;
    ReachLink(os, mnt, follow, dirs, name, tail);
    NamesSnoc(dirs, name);
    assert Text(Down(Spot(false, dirs), name)) == Join(dirs + [name]);
    AbandonedStop(os, mnt, follow, Spot(false, dirs), Token(name, tail), Tokens(tail));
  }

  lemma AbandonedStop(os: OS, mnt: seq<string>, follow: bool, at: Spot, tok: Token, toks: seq<Token>)
    requires tok.name != "." && tok.name != ".." && !(mnt <= at.stack)
    requires var p := Text(Down(at, tok.name));
             || os.lstat(p) == Missing
             || (os.lstat(p) == Other && tok.tail != "")
             || (os.lstat(p) == Symlink && (follow || tok.tail != "") && os.realpath(p).None?)
    ensures Walk(os, mnt, follow, at, [tok] + toks) == Outside(Text(Down(at, tok.name)) + tok.tail)
  {
    hide Text, Down;
  }

  /** A host where `/l` is a link to the given directory and everything else is a directory. */
  function LinkHost(l: string, target: seq<string>): OS {
    OS(p => if p == Join([l]) then Symlink else Directory, p => Some(Canonical(target)))
  }

  /** With the file system mounted on `/m`, such a link to `/m/x` throws, whatever follows it. */
  lemma LinkIntoMountThrows(l: string, m: string, x: string, tail: string)
    requires IsName(l) && IsName(m) && IsName(x) && l != "sys" && l != "proc"
    requires tail == "" || tail[0] == SEPARATOR
    ensures ValidOS(LinkHost(l, [m, x]))
    ensures Resolved(LinkHost(l, [m, x]), [m], true, Join([l]) + tail) == OutOfRange
  {
    hide Resolved, Excluded, Join;
    assert [] + [l] == [l];
    if tail == "" {
      NotExcluded([l]);
      assert Join([l]) + tail == Join([l]);
    } else {
      ExcludedJoin([l], tail);
    }
    LinkBelowMountThrows(LinkHost(l, [m, x]), [m], true, [], l, [m, x], tail);
  }

  lemma NotExcluded(cs: seq<string>)
    requires AreNames(cs) && cs != [] && !StartsExcluded(cs)
    ensures !Excluded(Join(cs))
  {
    ExcludedJoin(cs, [SEPARATOR]);
    if Excluded(Join(cs)) {
      ExcludedPrefix(Join(cs));
    }
  }

  lemma ExcludedPrefix(text: string)
    requires Excluded(text)
    ensures Excluded(text + [SEPARATOR])
  {
  }

  lemma NamesSnoc(cs: seq<string>, c: string)
    requires AreNames(cs + [c])
    ensures AreNames(cs) && IsName(c) && c != "" && c != "." && c != ".." && SlashFree(c)
  {
    assert (cs + [c])[|cs|] == c;
    assert forall i :: 0 <= i < |cs| ==> (cs + [c])[i] == cs[i];
  }

  lemma MoveLink(dirs: string, link: string, tail: string)
    ensures (dirs + [SEPARATOR] + link) + tail == dirs + ([SEPARATOR] + link + tail)
    ensures ([SEPARATOR] + link + tail)[0] == SEPARATOR
  {
  }

  lemma EnterLink(os: OS, mnt: seq<string>, follow: bool, dirs: seq<string>, tok: Token, target: seq<string>, toks: seq<Token>)
    requires IsName(tok.name) && AreNames(target) && target != []
    requires !(mnt <= dirs) && (follow || tok.tail != "")
    requires os.lstat(Join(dirs + [tok.name])) == Symlink
    requires os.realpath(Join(dirs + [tok.name])) == Some(Join(target))
    ensures Walk(os, mnt, follow, Spot(false, dirs), [tok] + toks) ==
            if mnt < target then OutOfRange else Walk(os, mnt, follow, Spot(false, target), toks)
  {
    assert ([tok] + toks)[1..] == toks;
    assert Text(Down(Spot(false, dirs), tok.name)) == Join(dirs + [tok.name]);
    JoinIsAbsolute(target);
    SegmentsOfJoin(target);
    NotRoot(target);
  }

  lemma NotRoot(cs: seq<string>)
    requires AreNames(cs) && cs != []
    ensures Join(cs) != [SEPARATOR]
  {
  }

  /** After a link to the root directory the walk starts again there, with a separator in hand.
      The internal path then is canonical exactly when the rest of the path is the mount point
      itself or climbs above the root once, which drops that separator. */
  lemma LinkToRoot(os: OS, mnt: seq<string>, follow: bool, dirs: seq<string>, link: string, tail: string)
    requires AreNames(dirs + [link])
    requires tail == "" || tail[0] == SEPARATOR
    requires Directories(os, mnt, [], dirs) && !(mnt <= dirs) && mnt != []
    requires os.lstat(Join(dirs + [link])) == Symlink && (follow || tail != "")
    requires os.realpath(Join(dirs + [link])) == Some([SEPARATOR])
    requires !Excluded(Join(dirs + [link]) + tail)
    requires Plain(os, mnt, follow, Spot(true, []), Tokens(tail))
    ensures var stack := Normal([], Tokens(tail));
            var out := Resolved(os, mnt, follow, Join(dirs + [link]) + tail);
            && (out.Inside? <==> mnt <= stack)
            && (out.Inside? ==> AreNames(stack) && (IsCanonical(out.path) <==> stack == mnt || Climbs([], Tokens(tail))))
  {
    hide Walk, Tokens, Directories, Excluded, Join, IsName, IsCanonical, Plain, Normal, Climbs;
    ReachLink(os, mnt, follow, dirs, link, tail);
    EnterRootLink(os, mnt, follow, dirs, Token(link, tail), Tokens(tail));
    PlainWalk(os, mnt, follow, Spot(true, []), Tokens(tail));
    TokenNames(tail);
    NormalNames([], Tokens(tail));
    FinishShape(mnt, After(Spot(true, []), Tokens(tail)));
  }

  lemma {:induction false} NormalNames(base: seq<string>, toks: seq<Token>)
    requires AreNames(base) && AreNamed(toks)
    ensures AreNames(Normal(base, toks))
    decreases |toks|
  {
    if toks != [] {
      if base != [] {
        SpotNamesUp(base);
      }
      NormalNames(Applied(base, toks[0].name), toks[1..]);
    }
  }

  lemma EnterRootLink(os: OS, mnt: seq<string>, follow: bool, dirs: seq<string>, tok: Token, toks: seq<Token>)
    requires IsName(tok.name)
    requires !(mnt <= dirs) && (follow || tok.tail != "")
    requires os.lstat(Join(dirs + [tok.name])) == Symlink
    requires os.realpath(Join(dirs + [tok.name])) == Some([SEPARATOR])
    ensures Walk(os, mnt, follow, Spot(false, dirs), [tok] + toks) == Walk(os, mnt, follow, Spot(true, []), toks)
  {
    assert ([tok] + toks)[1..] == toks;
    assert Text(Down(Spot(false, dirs), tok.name)) == Join(dirs + [tok.name]);
    assert [SEPARATOR][1..] == "";
  }

  /** With the file system mounted on `/m`, the path `/l/m/x` over such a link is internal,
      but its internal path has a doubled separator. */
  lemma RootLinkDoubles(l: string, m: string, x: string)
    requires IsName(l) && IsName(m) && IsName(x) && l != "sys" && l != "proc"
    ensures var out := Resolved(LinkHost(l, []), [m], true, Join([l]) + Join([m, x]));
            out.Inside? && !IsCanonical(out.path)
  {
    hide Walk, Join, IsCanonical, Resolved, Plain, Normal, Climbs, Tokens, Excluded, IsName;
    var host, tail := LinkHost(l, []), Join([m, x]);
    assert [] + [l] == [l];
    JoinIsAbsolute([m, x]);
    ExcludedJoin([l], tail);
    TailTokens(m, x);
    LookupsPlain(l, m, x);
    LinkToRoot(host, [m], true, [], l, tail);
    assert [m] <= [m, x];
  }

  lemma TailTokens(m: string, x: string)
    requires IsName(m) && IsName(x)
    ensures Tokens(Join([m, x])) == [Token(m, Join([x])), Token(x, "")]
    ensures Normal([], Tokens(Join([m, x]))) == [m, x] && !Climbs([], Tokens(Join([m, x])))
  {
    hide Join, Tokens;
    FirstOfJoin([m, x], "");
    FirstOfJoin([x], "");
    NothingLeft();
    assert [m, x][1..] == [x] && [x][1..] == [];
    assert Join([x]) + "" == Join([x]) && Join([m, x]) + "" == Join([m, x]) && "" + "" == "";
    TwoNames(Token(m, Join([x])), Token(x, ""));
  }

  lemma NothingLeft()
    ensures Tokens("") == [] && Join([]) == ""
  {
  }

  lemma TwoNames(a: Token, b: Token)
    requires IsName(a.name) && IsName(b.name)
    ensures After(Spot(true, []), [a]) == Spot(true, [a.name])
    ensures Normal([], [a, b]) == [a.name, b.name] && !Climbs([], [a, b])
  {
    assert [a, b][1..] == [b] && [b][1..] == [] && [a][1..] == [];
    assert [] + [a.name] == [a.name] && [a.name] + [b.name] == [a.name, b.name];
    NothingRead(Spot(true, [a.name]));
    NothingRead(Spot(true, [a.name, b.name]));
    AfterHead(Spot(true, [a.name]), [b]);
    AfterHead(Spot(true, []), [a, b]);
    assert After(Spot(true, []), [a]) == Spot(true, [a.name]);
    assert After(Spot(true, [a.name]), [b]) == Spot(true, [a.name, b.name]);
  }

  lemma RootedText(l: string, m: string)
    requires IsName(l)
    ensures Text(Down(Spot(true, []), m)) != Join([l])
  {
    JoinCons(l, []);
    JoinCons(m, []);
    assert [l] + [] == [l] && [m] + [] == [m] && [] + [m] == [m];
    assert Text(Down(Spot(true, []), m))[1] == SEPARATOR;
    assert Join([l])[1] == l[0] && l[0] in l;
  }

  lemma LookupsPlain(l: string, m: string, x: string)
    requires IsName(l) && IsName(m) && IsName(x)
    ensures Plain(LinkHost(l, []), [m], true, Spot(true, []), Tokens(Join([m, x])))
  {
    hide Tokens, Join, Text, Normal, Climbs, Down;
    TailTokens(m, x);
    var a, b := Token(m, Join([x])), Token(x, "");
    TwoNames(a, b);
    RootedText(l, m);
    assert [a, b][..0] == [] && [a, b][..1] == [a];
    NothingRead(Spot(true, []));
    assert PlainAt(LinkHost(l, []), [m], true, Spot(true, []), a);
    assert PlainAt(LinkHost(l, []), [m], true, Spot(true, [m]), b);
  }

  lemma NothingRead(at: Spot)
    ensures After(at, []) == at
  {
  }

  /** The component is a link that has to be followed, and its real path lies strictly below the mount. */
  predicate LeadsBelow(os: OS, mnt: seq<string>, follow: bool, at: Spot, tok: Token) {
    var p := Text(Down(at, tok.name));
    && tok.name != "." && tok.name != ".." && !(mnt <= at.stack)
    && os.lstat(p) == Symlink && (follow || tok.tail != "")
    && os.realpath(p).Some? && mnt < SegmentsOf(os.realpath(p).value)
  }

  /** The walk gets as far as the i-th component, and that is such a link. */
  predicate ThrowsAt(os: OS, mnt: seq<string>, follow: bool, at: Spot, toks: seq<Token>, i: nat)
    requires i < |toks|
  {
    var here := Last(os, mnt, follow, at, toks[..i]);
    here.Some? && LeadsBelow(os, mnt, follow, here.value, toks[i])
  }

  /** The exception is thrown exactly when the walk comes to a link whose real path lies strictly
      below the mount. */
  lemma {:induction false} ThrownExactly(os: OS, mnt: seq<string>, follow: bool, at: Spot, toks: seq<Token>)
    ensures Walk(os, mnt, follow, at, toks) == OutOfRange <==>
            exists i: nat :: i < |toks| && ThrowsAt(os, mnt, follow, at, toks, i)
    decreases |toks|
  {
    hide LeadsBelow, Finish;
    FinishIsAbsolute(mnt, at);
    if toks != [] {
      var step := Advance(os, mnt, follow, at, toks[0]);
      StepThrows(os, mnt, follow, at, toks[0]);
      assert toks[..0] == [];
      assert ThrowsAt(os, mnt, follow, at, toks, 0) <==> LeadsBelow(os, mnt, follow, at, toks[0]);
      forall i: nat | i < |toks| - 1
        ensures ThrowsAt(os, mnt, follow, at, toks, i + 1) <==>
                step.Next? && ThrowsAt(os, mnt, follow, step.at, toks[1..], i)
      {
        assert toks[..i + 1][0] == toks[0] && toks[..i + 1][1..] == toks[1..][..i];
      }
      if step.Next? {
        ThrownExactly(os, mnt, follow, step.at, toks[1..]);
      }
      forall i: nat | 0 < i < |toks| && ThrowsAt(os, mnt, follow, at, toks, i)
        ensures step.Next? && ThrowsAt(os, mnt, follow, step.at, toks[1..], i - 1)
      {
        assert i == (i - 1) + 1;
      }
    }
  }

  lemma StepThrows(os: OS, mnt: seq<string>, follow: bool, at: Spot, tok: Token)
    ensures Advance(os, mnt, follow, at, tok) == Stop(OutOfRange) <==> LeadsBelow(os, mnt, follow, at, tok)
  {
  }

  // ---------------------------------------------------------------- internal paths resolve to themselves

  /** The mount point is reached over plain directories. */
  predicate PlainMount(os: OS, mnt: seq<string>) {
    AreNames(mnt) && mnt != [] && Directories(os, mnt, [], mnt)
  }

  /** A name relative to the directory `dir` below the mount point means the walk that starts there. */
  lemma ResolveBelow(os: OS, mnt: seq<string>, follow: bool, dir: seq<string>, rel: string)
    requires PlainMount(os, mnt) && AreNames(dir) && !StartsExcluded(mnt)
    requires IsAbsolute(rel)
    ensures Resolved(os, mnt, follow, Join(mnt) + Join(dir) + rel) ==
            Walk(os, mnt, follow, Spot(false, mnt + dir), Tokens(rel))
  {
    hide Walk, Tokens, Directories, Excluded, Join;
    JoinConcat(mnt, dir);
    NamesConcat(mnt, dir);
    ExcludedJoin(mnt + dir, rel);
    assert (mnt + dir)[0] == mnt[0];
    DirectoriesBelow(os, mnt, dir);
    WalkDirectories(os, mnt, follow, [], mnt + dir, rel);
    assert [] + (mnt + dir) == mnt + dir;
  }

  lemma NamesConcat(a: seq<string>, b: seq<string>)
    requires AreNames(a) && AreNames(b)
    ensures AreNames(a + b)
  {
  }

  lemma DirectoriesBelow(os: OS, mnt: seq<string>, dir: seq<string>)
    requires Directories(os, mnt, [], mnt)
    ensures Directories(os, mnt, [], mnt + dir)
  {
    var all := mnt + dir;
    forall k | 0 <= k < |all|
      ensures mnt <= [] + all[..k] || os.lstat(Join([] + all[..k] + [all[k]])) == Directory
    {
      if k < |mnt| {
        assert all[..k] == mnt[..k];
      } else {
        assert all[..k][..|mnt|] == mnt;
      }
    }
  }

  lemma {:induction false} WalkInside(os: OS, mnt: seq<string>, follow: bool, cs: seq<string>)
    requires AreNames(cs)
    ensures Walk(os, mnt, follow, Spot(false, mnt), Tokens(Canonical(cs))) == Inside(Canonical(cs))
  {
    hide Join, Tokens;
    NothingLeft();
    if cs == [] {
      TokensOfSlashes("");
      assert [SEPARATOR] + "" == [SEPARATOR];
    } else {
      assert Join(cs) + "" == Join(cs);
      assert Directories(os, mnt, mnt, cs);
      WalkDirectories(os, mnt, follow, mnt, cs, "");
      assert (mnt + cs)[|mnt|..] == cs;
      assert "" + Join(cs) == Join(cs);
    }
  }

  /** Prefixing an internal path with the mount directory and resolving it again gives it back
      exactly when it has no doubled separator and the mount is not below /sys or /proc. */
  lemma ReResolve(os: OS, mnt: seq<string>, follow: bool, path: string)
    requires ValidOS(os) && PlainMount(os, mnt)
    ensures var out := Resolved(os, mnt, follow, path);
            out.Inside? ==>
              (Resolved(os, mnt, follow, Join(mnt) + out.path) == out <==> IsCanonical(out.path) && !StartsExcluded(mnt))
  {
    hide Walk, Last, Tokens, Directories, IsCanonical, Resolved;
    InsideShape(os, mnt, follow, path);
    if Resolved(os, mnt, follow, path).Inside? {
      var p := Resolved(os, mnt, follow, path).path;
      var last := Last(os, mnt, follow, START, Tokens(path)).value;
      var below := last.stack[|mnt|..];
      BelowCases(mnt, last);
      CanonicalIsAbsolute(below);
      if StartsExcluded(mnt) {
        ExcludedJoin(mnt, p);
        ExcludedOutside(os, mnt, follow, Join(mnt) + p);
      } else {
        assert Join(mnt) + Join([]) == Join(mnt) && mnt + [] == mnt;
        ResolveBelow(os, mnt, follow, [], p);
        WalkInside(os, mnt, follow, below);
        TokensOfSlashes(Canonical(below));
      }
    }
  }

  lemma ExcludedOutside(os: OS, mnt: seq<string>, follow: bool, path: string)
    requires Excluded(path)
    ensures Resolved(os, mnt, follow, path) == Outside(path)
  {
  }

  lemma CanonicalIsAbsolute(cs: seq<string>)
    ensures IsAbsolute(Canonical(cs))
  {
    if cs != [] {
      JoinIsAbsolute(cs);
    }
  }

  lemma BelowCases(mnt: seq<string>, at: Spot)
    requires mnt <= at.stack && AreNames(at.stack)
    ensures var below := at.stack[|mnt|..];
            && AreNames(below)
            && Below(mnt, at) == if at.rooted && at.stack != mnt then [SEPARATOR] + Canonical(below) else Canonical(below)
  {
  }
}
