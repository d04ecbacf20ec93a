/** The one-pass path resolver: a string edited in place, three counters and no stack. */
module PathResolver {
  import opened Common
  import opened PathText
  import opened PathWalk

  /** `k` is the length of the longest common prefix of `a` and `b`. */
  predicate IsCommon(k: nat, a: seq<string>, b: seq<string>) {
    && k <= |a| && k <= |b|
    && a[..k] == b[..k]
    && (k < |a| && k < |b| ==> a[k] != b[k])
  }

  /** What the counter of matched components means for a stack. */
  predicate Counts(matched: nat, stack: seq<string>, mnt: seq<string>) {
    if mnt <= stack then matched == |stack| else IsCommon(matched, stack, mnt)
  }

  // ---------------------------------------------------------------- string searches

  /** `std::string::find` of the separator. */
  method Find(s: string, start: nat) returns (k: int)
    requires start <= |s|
    ensures k == (if FirstSlash(s[start..]) == |s| - start then NPOS else start + FirstSlash(s[start..]))
  {
    k := start;
    while k < |s| && s[k] != SEPARATOR
      invariant start <= k <= |s|
      invariant FirstSlash(s[start..]) == k - start + FirstSlash(s[k..])
    {
      assert s[k..][1..] == s[k + 1..];
      k := k + 1;
    }
    if k == |s| {
      k := NPOS;
    }
  }

  /** `slash` is what `std::string::find_last_of` answers for the separator. */
  predicate IsLastSlash(slash: int, s: string) {
    if SlashFree(s) then slash == NPOS
    else 0 <= slash < |s| && s[slash] == SEPARATOR && SlashFree(s[slash + 1..])
  }

  method FindLastSlash(s: string) returns (k: int)
    ensures IsLastSlash(k, s)
  {
    k := |s| - 1;
    while 0 <= k && s[k] != SEPARATOR
      invariant -1 <= k < |s|
      invariant SlashFree(s[k + 1..])
    {
      assert s[k..] == [s[k]] + s[k + 1..];
      k := k - 1;
    }
  }

  // ---------------------------------------------------------------- splitting

  /** The pieces of a path from some index on; none when the index is past the end. */
  function PiecesFrom(path: string, at: nat): seq<string> {
    if at < |path| then Segments(path[at..]) else []
  }

  /** `all` is what has been split off so far, followed by the pieces still to come. */
  predicate SplitAt(all: seq<string>, done: seq<string>, path: string, at: nat) {
    all == done + PiecesFrom(path, at)
  }

  /** The first piece ends at the next separator, or at the end of the path. */
  lemma FirstPiece(path: string, start: nat)
    requires start < |path|
    ensures var stop := start + FirstSlash(path[start..]);
            PiecesFrom(path, start) == [path[start..stop]] + PiecesFrom(path, stop + 1)
  {
    var s := path[start..];
    var k := FirstSlash(s);
    assert s[..k] == path[start..start + k];
    if k < |s| {
      assert s[k + 1..] == path[start + k + 1..];
    }
  }

  lemma Peel(done: seq<string>, piece: string, left: seq<string>)
    ensures done + ([piece] + left) == done + [piece] + left
  {
  }

  lemma NextPiece(all: seq<string>, done: seq<string>, path: string, start: nat, stop: nat)
    requires start < |path| && stop == start + FirstSlash(path[start..])
    requires SplitAt(all, done, path, start)
    ensures SplitAt(all, done + [path[start..stop]], path, stop + 1)
  {
    hide PiecesFrom;
    FirstPiece(path, start);
    Peel(done, path[start..stop], PiecesFrom(path, stop + 1));
  }

  lemma StartSplit(path: string, at: nat)
    requires at <= |path|
    ensures SplitAt(PiecesFrom(path, at), [], path, at) && PiecesFrom(path, at) == Segments(path[at..])
  {
  }

  lemma Finished(all: seq<string>, done: seq<string>, path: string, at: nat)
    requires SplitAt(all, done, path, at) && at >= |path|
    ensures all == done
  {
  }

  /** The components of the mount directory, as the context stores them. */
  method SplitPath(path: string) returns (tokens: seq<string>)
    requires path != ""
    ensures tokens == Segments(if path[0] == SEPARATOR then path[1..] else path)
    ensures IsAbsolute(path) && !HasTrailingSlash(path) ==> tokens != [] && AreSlashFree(tokens) && Join(tokens) == path
  {
    hide SplitAt, FirstSlash, Segments, Join;
    tokens := [];
    var end: int := if path[0] == SEPARATOR then 1 else 0;
    ghost var all := PiecesFrom(path, end);
    ghost var at: nat := end;
    StartSplit(path, at);
    assert path[0..] == path;
    while end != NPOS && end < |path|
      invariant if end == NPOS then at > |path| else at == end <= |path|
      invariant SplitAt(all, tokens, path, at)
      decreases if end == NPOS then 0 else |path| - end + 1
    {
      var start := end;
      end := Find(path, start);
      var stop := if end == NPOS then |path| else end;
      NextPiece(all, tokens, path, start, stop);
      tokens := tokens + [path[start..stop]];
      at := stop + 1;
      if end != NPOS {
        end := end + 1;
      }
    }
    Finished(all, tokens, path, at);
    if IsAbsolute(path) && !HasTrailingSlash(path) {
      WholePath(path);
    }
  }

  lemma WholePath(path: string)
    requires IsAbsolute(path) && !HasTrailingSlash(path)
    ensures var cs := Segments(path[1..]);
            cs != [] && AreSlashFree(cs) && Join(cs) == path
  {
    var s := path[1..];
    SegmentsAreSlashFree(s);
    JoinOfSegments(s);
    assert s != "" && s[|s| - 1] == path[|path| - 1];
    assert [SEPARATOR] + s == path;
    assert Join(Segments(s)) + "" == Join(Segments(s));
  }

  /** How many components of a path agree with the mount's and how many there are, or the
      exception thrown when the path lies strictly below the mount. */
  datatype Match = Matched(matched: nat, processed: nat) | Thrown

  method MatchComponents(path: string, components: seq<string>) returns (r: Match)
    ensures r.Thrown? <==> components < SegmentsOf(path)
    ensures r.Matched? ==> Counts(r.matched, SegmentsOf(path), components) && r.processed == |SegmentsOf(path)|
  {
    hide IsCommon, SplitAt, Counts;
    var matched: nat := 0;
    var processed := 0;
    var end := 1;
    ghost var all := SegmentsOf(path);
    ghost var done: seq<string> := [];
    NothingSplit(path, components);
    while end < |path|
      invariant 1 <= end && |done| == processed
      invariant SplitAt(all, done, path, end)
      invariant matched <= processed && matched <= |components| && (matched < processed ==> matched < |components|)
      invariant IsCommon(matched, done, components)
      decreases |path| - end
    {
      var start := end;
      end := Find(path, start);
      if end == NPOS {
        end := |path|;
      }
      var piece := path[start..end];
      NextPiece(all, done, path, start, end);
      if matched == processed && matched == |components| {
        BelowAll(all, done, piece, path, end + 1, components);
        return Thrown;
      }
      ghost var agrees := matched == processed && piece == components[matched];
      CommonSnoc(matched, done, piece, components, agrees);
      if matched == processed && piece == components[matched] {
        matched := matched + 1;
      }
      done := done + [piece];
      processed := processed + 1;
      end := end + 1;
    }
    Finished(all, done, path, end);
    CommonCounts(matched, all, components);
    r := Matched(matched, processed);
  }

  lemma NothingSplit(path: string, components: seq<string>)
    ensures SplitAt(SegmentsOf(path), [], path, 1) && IsCommon(0, [], components)
  {
  }

  lemma BelowAll(all: seq<string>, done: seq<string>, piece: string, path: string, at: nat, components: seq<string>)
    requires IsCommon(|done|, done, components) && |done| == |components|
    requires SplitAt(all, done + [piece], path, at)
    ensures components < all
  {
  }

  lemma CommonCounts(k: nat, all: seq<string>, components: seq<string>)
    requires IsCommon(k, all, components)
    requires k < |all| ==> k < |components|
    ensures Counts(k, all, components) && !(components < all)
  {
  }

  /** How one more component changes the common prefix. */
  lemma CommonSnoc(k: nat, a: seq<string>, c: string, b: seq<string>, agrees: bool)
    requires IsCommon(k, a, b)
    requires k < |b|
    requires agrees <==> k == |a| && c == b[k]
    ensures IsCommon(if agrees then k + 1 else k, a + [c], b)
  {
    assert (a + [c])[..k] == a[..k];
    if agrees {
      assert (a + [c])[..k + 1] == a + [c];
    }
  }

  // ---------------------------------------------------------------- the counters

  /** Leaving a component, across the mount boundary or not. */
  lemma CountsUp(matched: nat, stack: seq<string>, mnt: seq<string>)
    requires Counts(matched, stack, mnt) && stack != []
    ensures matched <= |stack|
    ensures matched == |stack| ==> Counts(matched - 1, stack[..|stack| - 1], mnt)
    ensures matched < |stack| ==> Counts(matched, stack[..|stack| - 1], mnt)
  {
  }

  lemma CountsDownOutside(matched: nat, stack: seq<string>, c: string, mnt: seq<string>, agrees: bool)
    requires Counts(matched, stack, mnt) && matched < |mnt|
    requires agrees <==> matched == |stack| && c == mnt[matched]
    ensures Counts(if agrees then matched + 1 else matched, stack + [c], mnt)
  {
    CommonSnoc(matched, stack, c, mnt, agrees);
    var k := if agrees then matched + 1 else matched;
    assert k < |stack| + 1 && k < |mnt| ==> (stack + [c])[k] != mnt[k];
  }

  lemma CountsDownInside(matched: nat, stack: seq<string>, c: string, mnt: seq<string>)
    requires Counts(matched, stack, mnt) && matched >= |mnt|
    ensures Counts(matched + 1, stack + [c], mnt)
  {
  }

  // ---------------------------------------------------------------- the edited string

  /** The string and the slash index stand for a spot of the walk. */
  predicate Tracks(at: Spot, resolved: string, lastSlash: int) {
    && resolved == Text(at)
    && AreSlashFree(at.stack)
    && (resolved != "" ==> 0 <= lastSlash < |resolved| && resolved[..lastSlash] == Text(Up(at)))
  }

  lemma TextDown(at: Spot, name: string)
    ensures Text(Down(at, name)) == Text(at) + [SEPARATOR] + name
    ensures Up(Down(at, name)) == at
  {
  }

  lemma TracksDown(at: Spot, resolved: string, lastSlash: int, name: string)
    requires Tracks(at, resolved, lastSlash) && SlashFree(name)
    ensures resolved + [SEPARATOR] + name == Text(Down(at, name))
    ensures Tracks(Down(at, name), resolved + [SEPARATOR] + name, |resolved|)
  {
    TextDown(at, name);
    assert (resolved + [SEPARATOR] + name)[..|resolved|] == resolved;
  }

  lemma TextUp(at: Spot)
    requires at.stack != []
    ensures Text(at) == Text(Up(at)) + [SEPARATOR] + at.stack[|at.stack| - 1]
  {
  }

  lemma AfterLastSlash(s: string, slash: nat)
    requires slash < |s| && SlashFree(s[slash + 1..])
    ensures forall j :: slash < j < |s| ==> s[j] != SEPARATOR
  {
  }

  lemma LastSlashIs(s: string, before: string, c: string, slash: int)
    requires s == before + [SEPARATOR] + c && SlashFree(c)
    requires IsLastSlash(slash, s)
    ensures slash == |before| && s[..slash] == before
  {
    assert s[|before|] == SEPARATOR;
    assert s[|before| + 1..] == c;
    AfterLastSlash(s, |before|);
    AfterLastSlash(s, slash);
  }

  /** Searching the last separator afresh restores the slash index. */
  lemma TracksSearched(at: Spot, resolved: string, slash: int)
    requires resolved == Text(at) && AreSlashFree(at.stack)
    requires IsLastSlash(slash, resolved)
    ensures Tracks(at, resolved, slash)
  {
    if at.stack != [] {
      TextUp(at);
      LastSlashIs(resolved, Text(Up(at)), at.stack[|at.stack| - 1], slash);
    } else if at.rooted {
      assert resolved == [SEPARATOR];
      LastSlashIs(resolved, "", "", slash);
    }
  }

  lemma TextOfCanonical(target: string)
    requires IsCanonical(target)
    ensures Text(Spot(target == [SEPARATOR], SegmentsOf(target))) == target
    ensures AreSlashFree(SegmentsOf(target))
  {
    var cs :| AreNames(cs) && target == Canonical(cs);
    if cs != [] {
      JoinIsAbsolute(cs);
      SegmentsOfJoin(cs);
      JoinCons(cs[0], cs[1..]);
      assert cs == [cs[0]] + cs[1..];
    }
  }

  // ---------------------------------------------------------------- the end of the run

  /** `std::string::erase(1, n)`. */
  function Erased(t: string, n: nat): string
    requires t != ""
  {
    t[..1] + if 1 + n < |t| then t[1 + n..] else ""
  }

  lemma EraseAll(lead: string, m: string)
    requires IsAbsolute(m) && (lead == "" || lead == [SEPARATOR])
    ensures Erased(lead + m, |m|) == [SEPARATOR]
  {
  }

  lemma EraseMiddle(lead: string, m: string, r: string)
    requires IsAbsolute(m) && IsAbsolute(r) && (lead == "" || lead == [SEPARATOR])
    ensures Erased(lead + (m + r), |m|) == lead + r
  {
  }

  /** Erasing |mountdir| characters after the first one leaves the path below the mount. */
  lemma EraseMount(mnt: seq<string>, at: Spot)
    requires mnt != [] && mnt <= at.stack
    ensures Text(at) != "" && Finish(mnt, at) == Inside(Erased(Text(at), |Join(mnt)|))
  {
    hide Join, Erased;
    var rest := at.stack[|mnt|..];
    assert at.stack == mnt + rest;
    JoinConcat(mnt, rest);
    JoinIsAbsolute(mnt);
    if rest != [] {
      JoinIsAbsolute(rest);
      EraseMiddle(Lead(at), Join(mnt), Join(rest));
    } else {
      assert at.stack == mnt;
      EraseAll(Lead(at), Join(mnt));
    }
  }

  // ---------------------------------------------------------------- the resolver

  lemma UnfoldTokens(s: string, k: nat)
    requires k == FirstSlash(SkipSlashes(s))
    ensures var t := SkipSlashes(s);
            Tokens(s) == if t == "" then [] else [Token(t[..k], t[k..])] + Tokens(t[k..])
  {
  }

  lemma Pieces(path: string, start: nat, stop: nat)
    requires start <= stop <= |path|
    ensures path[start..][..stop - start] == path[start..stop]
    ensures path[start..][stop - start..] == path[stop..]
  {
  }

  /** Moving past one component of the path. */
  lemma TokensFrom(path: string, from: nat, start: nat, stop: nat)
    requires from <= start <= stop <= |path|
    requires SkipSlashes(path[from..]) == path[start..]
    requires stop == start + FirstSlash(path[start..])
    ensures start == stop ==> Tokens(path[from..]) == []
    ensures start < stop ==> Tokens(path[from..]) == [Token(path[start..stop], path[stop..])] + Tokens(path[stop..])
    ensures SlashFree(path[start..stop])
    ensures stop < |path| ==> path[stop] == SEPARATOR
  {
    hide Tokens;
    UnfoldTokens(path[from..], stop - start);
    Pieces(path, start, stop);
  }

  lemma UnfoldWalk(os: OS, mnt: seq<string>, follow: bool, at: Spot, tok: Token, rest: seq<Token>)
    ensures var step := Advance(os, mnt, follow, at, tok);
            Walk(os, mnt, follow, at, [tok] + rest) ==
            if step.Stop? then step.out else Walk(os, mnt, follow, step.at, rest)
  {
  }

  lemma NoTokens(path: string, end: nat)
    requires end <= |path| <= end + 1
    requires end < |path| ==> path[end] == SEPARATOR
    ensures Tokens(path[end..]) == []
  {
  }

  lemma SkipOne(path: string, start: nat)
    requires start < |path| && path[start] == SEPARATOR
    ensures SkipSlashes(path[start..]) == SkipSlashes(path[start + 1..])
  {
  }

  lemma SkipDone(path: string, start: nat)
    requires start <= |path|
    requires start < |path| ==> path[start] != SEPARATOR
    ensures SkipSlashes(path[start..]) == path[start..]
  {
  }

  lemma UpTracks(at: Spot, resolved: string, lastSlash: int)
    requires Tracks(at, resolved, lastSlash)
    ensures AreSlashFree(Up(at).stack)
    ensures resolved == "" ==> Up(at) == at
    ensures resolved != "" ==> 0 <= lastSlash < |resolved| && resolved[..lastSlash] == Text(Up(at))
  {
    if at.stack != [] {
      TextUp(at);
    }
  }

  /** One component, case by case. */
  lemma AdvanceCases(os: OS, mnt: seq<string>, follow: bool, at: Spot, tok: Token)
    ensures tok.name == "." ==> Advance(os, mnt, follow, at, tok) == Next(at)
    ensures tok.name == ".." ==> Advance(os, mnt, follow, at, tok) == Next(Up(at))
    ensures tok.name != "." && tok.name != ".." ==>
              Advance(os, mnt, follow, at, tok) == Enter(os, mnt, follow, at, tok)
  {
  }

  lemma EnterCases(os: OS, mnt: seq<string>, follow: bool, at: Spot, tok: Token, text: string)
    requires text == Text(Down(at, tok.name))
    ensures var entered := Enter(os, mnt, follow, at, tok);
            var down, abandoned := Next(Down(at, tok.name)), Stop(Outside(text + tok.tail));
            if mnt <= at.stack || os.lstat(text) == Directory then entered == down
            else if os.lstat(text) == Missing then entered == abandoned
            else if os.lstat(text) == Other then entered == if tok.tail == "" then down else abandoned
            else if !follow && tok.tail == "" then entered == down
            else if os.realpath(text).None? then entered == abandoned
            else entered == Land(mnt, os.realpath(text).value)
  {
  }

  lemma LandCases(os: OS, mnt: seq<string>, p: string)
    requires ValidOS(os) && os.realpath(p).Some?
    ensures var target := os.realpath(p).value;
            var at := Spot(target == [SEPARATOR], SegmentsOf(target));
            && target == Text(at) && AreSlashFree(at.stack)
            && Land(mnt, target) == if mnt < at.stack then Stop(OutOfRange) else Next(at)
  {
    TextOfCanonical(os.realpath(p).value);
  }

  method SkipSeparators(path: string, from: nat) returns (start: nat)
    requires from <= |path|
    ensures from <= start <= |path|
    ensures SkipSlashes(path[from..]) == path[start..]
  {
    hide SkipSlashes;
    start := from;
    while start < |path| && path[start] == SEPARATOR
      invariant from <= start <= |path|
      invariant SkipSlashes(path[from..]) == SkipSlashes(path[start..])
    {
      SkipOne(path, start);
      start := start + 1;
    }
    SkipDone(path, start);
  }

  /** The string, the slash index and the two counters agree with a spot of the walk. */
  predicate Agrees(at: Spot, mnt: seq<string>, resolved: string, lastSlash: int, matched: nat, components: nat) {
    Tracks(at, resolved, lastSlash) && Counts(matched, at.stack, mnt) && components == |at.stack|
  }

  /** The branch for `..`: roll the string back to its last separator. */
  method RollBack(mnt: seq<string>, resolved: string, lastSlash: int, matched: nat, components: nat, ghost at: Spot)
    returns (resolved': string, lastSlash': int, matched': nat, components': nat)
    requires Agrees(at, mnt, resolved, lastSlash, matched, components)
    ensures Agrees(Up(at), mnt, resolved', lastSlash', matched', components')
  {
    hide Tracks, Counts, IsLastSlash, Text;
    resolved', lastSlash', matched', components' := resolved, lastSlash, matched, components;
    UpTracks(at, resolved, lastSlash);
    if resolved != "" {
      resolved' := resolved[..lastSlash];
      lastSlash' := FindLastSlash(resolved');
      TracksSearched(Up(at), resolved', lastSlash');
    }
    if components > 0 {
      CountsUp(matched, at.stack, mnt);
      if matched == components {
        matched' := matched - 1;
      }
      components' := components - 1;
    }
  }

  /** The branch for a link: continue from its real path, or throw when that is below the mount. */
  method SubstituteLink(os: OS, mnt: seq<string>, link: string)
    returns (thrown: bool, resolved: string, lastSlash: int, matched: nat, components: nat)
    requires ValidOS(os) && os.realpath(link).Some?
    ensures var step := Land(mnt, os.realpath(link).value);
            if thrown then step == Stop(OutOfRange) else step.Next? && Agrees(step.at, mnt, resolved, lastSlash, matched, components)
  {
    hide Tracks, Counts, IsLastSlash, Text, ValidOS;
    LandCases(os, mnt, link);
    resolved := os.realpath(link).value;
    ghost var at := Spot(resolved == [SEPARATOR], SegmentsOf(resolved));
    lastSlash := FindLastSlash(resolved);
    TracksSearched(at, resolved, lastSlash);
    var counts := MatchComponents(resolved, mnt);
    thrown := counts.Thrown?;
    matched, components := 0, 0;
    if counts.Matched? {
      matched, components := counts.matched, counts.processed;
    }
  }

  lemma AgreesCases(at: Spot, mnt: seq<string>, resolved: string, lastSlash: int, matched: nat, components: nat)
    requires Agrees(at, mnt, resolved, lastSlash, matched, components)
    ensures resolved == Text(at) && components == |at.stack| && (mnt <= at.stack <==> matched >= |mnt|)
  {
  }

  lemma AgreesDown(at: Spot, mnt: seq<string>, resolved: string, lastSlash: int, matched: nat, components: nat,
                   name: string, agrees: bool)
    requires Agrees(at, mnt, resolved, lastSlash, matched, components) && SlashFree(name)
    requires agrees <==> matched >= |mnt| || (matched == components && name == mnt[matched])
    ensures resolved + [SEPARATOR] + name == Text(Down(at, name))
    ensures Agrees(Down(at, name), mnt, resolved + [SEPARATOR] + name, |resolved|,
                   if agrees then matched + 1 else matched, components + 1)
  {
    hide Tracks, Counts, Text, SlashFree;
    TracksDown(at, resolved, lastSlash, name);
    if matched >= |mnt| {
      CountsDownInside(matched, at.stack, name, mnt);
    } else {
      CountsDownOutside(matched, at.stack, name, mnt, agrees);
    }
  }

  lemma AgreesStart(mnt: seq<string>)
    requires mnt != []
    ensures Agrees(START, mnt, "", 0, 0, 0) && Text(START) == ""
  {
  }

  /** What is left of the agreement when the last link is kept: its component is not counted. */
  predicate Settled(at: Spot, mnt: seq<string>, resolved: string, matched: nat) {
    resolved == Text(at) && (mnt <= at.stack <==> matched >= |mnt|)
  }

  /** The branch that adds a named component, with the text that follows it in the path. */
  method AddComponent(os: OS, mnt: seq<string>, follow: bool, name: string, tail: string,
                      resolved: string, lastSlash: int, matched: nat, components: nat, ghost at: Spot)
    returns (out: Option<Outcome>, resolved': string, lastSlash': int, matched': nat, components': nat)
    requires ValidOS(os) && SlashFree(name)
    requires Agrees(at, mnt, resolved, lastSlash, matched, components)
    ensures var step := Enter(os, mnt, follow, at, Token(name, tail));
            if out.Some? then step == Stop(out.value) else
              && step.Next? && Settled(step.at, mnt, resolved', matched')
              && (tail != "" ==> Agrees(step.at, mnt, resolved', lastSlash', matched', components'))
  {
    hide Agrees, ValidOS, Enter, Land, Text, SlashFree;
    AgreesCases(at, mnt, resolved, lastSlash, matched, components);
    ghost var agrees := matched >= |mnt| || (matched == components && name == mnt[matched]);
    AgreesDown(at, mnt, resolved, lastSlash, matched, components, name, agrees);
    EnterCases(os, mnt, follow, at, Token(name, tail), resolved + [SEPARATOR] + name);
    out, components' := None, components;
    ghost var at' := Down(at, name);
    resolved', lastSlash', matched' := resolved + [SEPARATOR] + name, |resolved|, matched;
    if matched < |mnt| {
      // Outside the file system.
      if matched == components && name == mnt[matched] {
        matched' := matched + 1;
      }
      AgreesCases(at', mnt, resolved', lastSlash', matched', components + 1);
      var entry := os.lstat(resolved');
      if entry == Missing {
        out := Some(Outside(resolved' + tail));
        return;
      }
      if entry == Symlink {
        if !follow && tail == "" {
          return;
        }
        if os.realpath(resolved').None? {
          out := Some(Outside(resolved' + tail));
          return;
        }
        var thrown;
        ghost var step := Land(mnt, os.realpath(resolved').value);
        thrown, resolved', lastSlash', matched', components' := SubstituteLink(os, mnt, resolved');
        if thrown {
          out := Some(OutOfRange);
          return;
        }
        at' := step.at;
        AgreesCases(at', mnt, resolved', lastSlash', matched', components');
        return;
      } else if entry != Directory && tail != "" {
        out := Some(Outside(resolved' + tail));
        return;
      }
    } else {
      // Inside the file system.
      matched' := matched + 1;
    }
    components' := components + 1;
    AgreesCases(at', mnt, resolved', lastSlash', matched', components');
  }

  /** `resolve`: fills in the canonical path and tells whether it lies in the mounted file
      system. The mount directory and its components are those of the client context. */
  method Resolve(os: OS, mountdir: string, mnt: seq<string>, path: string, follow: bool) returns (o: Outcome)
    requires IsAbsolute(path) && ValidOS(os)
    requires mnt != [] && mountdir == Join(mnt)
    ensures o == Resolved(os, mnt, follow, path)
  {
    hide Agrees, Settled, Excluded, ValidOS, Enter, Walk, Advance, Land, Tokens, Text, Join, Finish,
      SkipSlashes, FirstSlash, Segments, SlashFree;
    if Excluded(path) {
      return Outside(path);
    }
    var resolved, lastSlash := "", 0;
    var matched: nat, components: nat := 0, 0;
    var end := 0;
    ghost var at := START;
    AgreesStart(mnt);
    SettledCases(at, mnt, resolved, lastSlash, matched, components);
    assert path[0..] == path;
    while end + 1 < |path|
      invariant end <= |path| && (end < |path| ==> path[end] == SEPARATOR)
      invariant end < |path| ==> Agrees(at, mnt, resolved, lastSlash, matched, components)
      invariant Settled(at, mnt, resolved, matched)
      invariant Walk(os, mnt, follow, at, Tokens(path[end..])) == Walk(os, mnt, follow, START, Tokens(path))
      decreases |path| - end
    {
      ghost var from := end;
      SkipOne(path, from);
      var start := SkipSeparators(path, end + 1);
      end := Find(path, start);
      if end == NPOS {
        end := |path|;
      }
      TokensFrom(path, from, start, end);
      var component := path[start..end];
      if end == start {
        // The component is empty, so it is the last one.
        break;
      }
      ghost var tok := Token(component, path[end..]);
      UnfoldWalk(os, mnt, follow, at, tok, Tokens(path[end..]));
      AdvanceCases(os, mnt, follow, at, tok);
      if component == "." {
        continue;
      }
      if component == ".." {
        resolved, lastSlash, matched, components := RollBack(mnt, resolved, lastSlash, matched, components, at);
        at := Up(at);
        SettledCases(at, mnt, resolved, lastSlash, matched, components);
        continue;
      }
      ghost var step := Enter(os, mnt, follow, at, tok);
      var out;
      out, resolved, lastSlash, matched, components :=
        AddComponent(os, mnt, follow, component, path[end..], resolved, lastSlash, matched, components, at);
      if out.Some? {
        return out.value;
      }
      at := step.at;
    }
    NoTokens(path, end);
    SettledFinish(os, mnt, follow, at, resolved, matched);
    if matched >= |mnt| {
      return Inside(Erased(resolved, |mountdir|));
    }
    if resolved == "" {
      resolved := [SEPARATOR];
    }
    o := Outside(resolved);
  }

  lemma SettledCases(at: Spot, mnt: seq<string>, resolved: string, lastSlash: int, matched: nat, components: nat)
    requires Agrees(at, mnt, resolved, lastSlash, matched, components)
    ensures Settled(at, mnt, resolved, matched)
  {
  }

  lemma SettledFinish(os: OS, mnt: seq<string>, follow: bool, at: Spot, resolved: string, matched: nat)
    requires mnt != [] && Settled(at, mnt, resolved, matched)
    ensures matched >= |mnt| ==> resolved != "" && Walk(os, mnt, follow, at, []) == Inside(Erased(resolved, |Join(mnt)|))
    ensures matched < |mnt| ==> Walk(os, mnt, follow, at, []) == Outside(if resolved == "" then [SEPARATOR] else resolved)
  {
    if mnt <= at.stack {
      EraseMount(mnt, at);
    }
  }
}
