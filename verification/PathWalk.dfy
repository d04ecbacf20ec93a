/** What resolving a path means: a walk over its components with a stack.
    The resolver itself never builds this stack; it edits one string and keeps counters. */
module PathWalk {
  import opened Common
  import opened PathText

  /** What `lstat` says about a path. */
  datatype Entry = Missing | Directory | Symlink | Other

  /** The operating system, as far as the resolver asks it. */
  datatype OS = OS(lstat: string -> Entry, realpath: string -> Option<string>)

  /** `realpath` answers with a canonical absolute path. */
  ghost predicate IsCanonical(path: string) {
    exists cs :: AreNames(cs) && path == Canonical(cs)
  }

  ghost predicate ValidOS(os: OS) {
    forall p :: os.realpath(p).Some? ==> IsCanonical(os.realpath(p).value)
  }

  /** The result of `resolve`: true, false, or an exception from `vector::at`. */
  datatype Outcome = Inside(path: string) | Outside(path: string) | OutOfRange

  /** Where a walk stands: the component stack, and whether the text has an extra leading
      separator because a link led to the root directory. */
  datatype Spot = Spot(rooted: bool, stack: seq<string>)

  function Lead(at: Spot): string {
    if at.rooted then [SEPARATOR] else ""
  }

  /** The text the resolver holds at a spot. */
  function Text(at: Spot): string {
    Lead(at) + Join(at.stack)
  }

  /** One component of the path moves the walk on, or ends it. */
  datatype Step = Next(at: Spot) | Stop(out: Outcome)

  function Up(at: Spot): Spot {
    if at.stack == [] then Spot(false, []) else at.(stack := at.stack[..|at.stack| - 1])
  }

  function Down(at: Spot, name: string): Spot {
    at.(stack := at.stack + [name])
  }

  /** Following a link whose real path is `target`. */
  function Land(mnt: seq<string>, target: string): Step {
    var cs := SegmentsOf(target);
    if mnt < cs then Stop(OutOfRange) else Next(Spot(target == [SEPARATOR], cs))
  }

  /** Entering a named component. Below the mount point nothing is looked up. */
  function Enter(os: OS, mnt: seq<string>, follow: bool, at: Spot, tok: Token): Step
  {
    var down := Down(at, tok.name);
    var abandoned := Stop(Outside(Text(down) + tok.tail));
    if mnt <= at.stack then Next(down) else
    match os.lstat(Text(down))
    case Missing => abandoned
    case Directory => Next(down)
    case Other => if tok.tail == "" then Next(down) else abandoned
    case Symlink =>
      if !follow && tok.tail == "" then Next(down)
      else if os.realpath(Text(down)).None? then abandoned
      else Land(mnt, os.realpath(Text(down)).value)
  }

  function Advance(os: OS, mnt: seq<string>, follow: bool, at: Spot, tok: Token): Step {
    if tok.name == "." then Next(at)
    else if tok.name == ".." then Next(Up(at))
    else Enter(os, mnt, follow, at, tok)
  }

  /** The end of a walk: inside when the mount's components are a prefix of the stack. */
  function Finish(mnt: seq<string>, at: Spot): Outcome {
    if mnt <= at.stack then
      Inside(if at.stack == mnt then [SEPARATOR] else Lead(at) + Join(at.stack[|mnt|..]))
    else
      Outside(if Text(at) == "" then [SEPARATOR] else Text(at))
  }

  function Walk(os: OS, mnt: seq<string>, follow: bool, at: Spot, toks: seq<Token>): Outcome
    decreases |toks|
  {
    if toks == [] then Finish(mnt, at)
    else
      match Advance(os, mnt, follow, at, toks[0])
      case Stop(out) => out
      case Next(next) => Walk(os, mnt, follow, next, toks[1..])
  }

  const START := Spot(false, [])

  /** Texts that begin with the name of one of these two directories go out as they are. Another text
      of the same path, with a doubled separator or a `.`, is resolved. */
  predicate Excluded(path: string) {
    "/sys/" <= path || "/proc/" <= path
  }

  function Resolved(os: OS, mnt: seq<string>, follow: bool, path: string): Outcome {
    if Excluded(path) then Outside(path)
    else Walk(os, mnt, follow, START, Tokens(path))
  }
}
