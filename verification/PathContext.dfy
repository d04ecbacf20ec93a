/** The client context where it turns names into internal paths: the mount directory, the current
    working directory and the open directories a relative name can start from. */
module PathContext {
  import opened Common
  import opened PathText
  import opened PathWalk
  import opened PathResolver
  import opened PathTheorems

  datatype OpenedAt = RegularAt(path: string) | DirectoryAt(path: string)

  datatype Relativized = Internal(path: string) | External(path: string) | FdUnknown | FdNotADir | Threw

  const ENOTDIR := 20
  const ERANGE := 34

  function StatusOf(o: Outcome): (r: Relativized)
    ensures forall p :: r == Internal(p) <==> o == Inside(p)
    ensures forall p :: r == External(p) <==> o == Outside(p)
    ensures r == Threw <==> o == OutOfRange
  {
    match o
    case Inside(p) => Internal(p)
    case Outside(p) => External(p)
    case OutOfRange => Threw
  }

  /** `prepend_path` */
  function PrependPath(prefix: string, raw: string): string {
    prefix + ([SEPARATOR] + raw)
  }

  function DropTrailingSlash(path: string): string {
    if HasTrailingSlash(path) then path[..|path| - 1] else path
  }

  /** The text that is resolved for a name. */
  function FullText(cwd: string, raw: string): string {
    if IsAbsolute(raw) then raw else PrependPath(cwd, raw)
  }

  /** What a name means from a working directory. */
  function FromCwd(os: OS, mnt: seq<string>, cwd: string, raw: string, follow: bool): Outcome {
    Resolved(os, mnt, follow, FullText(cwd, raw))
  }

  /** The working directory that `chdir` sets for an outcome. */
  function CwdOf(mountdir: string, o: Outcome): string
    requires !o.OutOfRange?
  {
    if o.Inside? then DropTrailingSlash(mountdir + o.path) else o.path
  }


  /** The working directory stands for a directory below the mount point: its text is the mount
      directory and the components below it, every relative name starts the walk there, and resolving
      the working directory itself gives the directory. */
  ghost predicate StandsFor(os: OS, mnt: seq<string>, cwd: string, dir: seq<string>) {
    && cwd == Join(mnt) + Join(dir)
    && (forall raw, follow :: !IsAbsolute(raw) ==>
          FromCwd(os, mnt, cwd, raw, follow) == Walk(os, mnt, follow, Spot(false, mnt + dir), Tokens(raw)))
    && FromCwd(os, mnt, cwd, cwd, true) == Inside(Canonical(dir))
  }

  class PreloadContext {
    var mountdir: string
    var mountdirComponents: seq<string>
    var cwd: string
    var sysCwd: string
    var envCwd: Option<string>
    var files: map<int, OpenedAt>

    ghost predicate Valid()
      reads this
    {
      && mountdirComponents != [] && mountdir == Join(mountdirComponents) && !HasTrailingSlash(mountdir)
      && IsAbsolute(cwd)
      && forall fd :: fd in files ==> IsAbsolute(files[fd].path)
    }

    constructor (mount: string, here: string)
      requires IsAbsolute(mount) && !HasTrailingSlash(mount) && IsAbsolute(here)
      ensures Valid() && mountdir == mount && cwd == here && files == map[]
    {
      var components := SplitPath(mount);
      mountdir, mountdirComponents := mount, components;
      cwd, sysCwd, envCwd, files := here, here, None, map[];
    }

    method RelativizePath(os: OS, raw: string, follow: bool) returns (o: Outcome)
      requires Valid() && ValidOS(os)
      ensures o == FromCwd(os, mountdirComponents, cwd, raw, follow)
    {
      o := Resolve(os, mountdir, mountdirComponents, FullText(cwd, raw), follow);
    }

    /** What a name means from a directory descriptor; `None` is `AT_FDCWD`. */
    function FromFd(os: OS, dirfd: Option<int>, raw: string, emptyPath: bool, follow: bool): Relativized
      reads this
    {
      if IsAbsolute(raw) || dirfd.None? then
        StatusOf(FromCwd(os, mountdirComponents, cwd, raw, follow))
      else if dirfd.value !in files then FdUnknown
      else if emptyPath then Internal(files[dirfd.value].path)
      else if files[dirfd.value].RegularAt? then FdNotADir
      else StatusOf(Resolved(os, mountdirComponents, follow,
                             mountdir + files[dirfd.value].path + ([SEPARATOR] + raw)))
    }

    method RelativizeFdPath(os: OS, dirfd: Option<int>, raw: string, emptyPath: bool, follow: bool)
      returns (r: Relativized)
      requires Valid() && ValidOS(os)
      ensures r == FromFd(os, dirfd, raw, emptyPath, follow)
      ensures IsAbsolute(raw) ==> r == StatusOf(Resolved(os, mountdirComponents, follow, raw))
      ensures !IsAbsolute(raw) && dirfd.Some? ==>
                && (r == FdUnknown <==> dirfd.value !in files)
                && (dirfd.value in files && emptyPath ==> r == Internal(files[dirfd.value].path))
                && (dirfd.value in files && !emptyPath ==> (r == FdNotADir <==> files[dirfd.value].RegularAt?))
    {
      var path := raw;
      if !IsAbsolute(raw) {
        if dirfd.None? {
          path := PrependPath(cwd, raw);
        } else if dirfd.value !in files {
          return FdUnknown;
        } else {
          if emptyPath {
            return Internal(files[dirfd.value].path);
          }
          if files[dirfd.value].RegularAt? {
            return FdNotADir;
          }
          path := mountdir;
          path := path + files[dirfd.value].path;
          path := path + ([SEPARATOR] + raw);
          JoinIsAbsolute(mountdirComponents);
        }
      }
      var o := Resolve(os, mountdir, mountdirComponents, path, follow);
      r := StatusOf(o);
    }

    /** `set_cwd`; the two system calls involved fail with the given errors, or succeed with 0.
        A failing `setenv` leaves the kernel's directory changed and the context's not. */
    method SetCwd(path: string, inside: bool, chdirError: nat, envError: nat) returns (error: nat)
      modifies this`cwd, this`sysCwd, this`envCwd
      ensures error == if chdirError != 0 then chdirError else envError
      ensures sysCwd == if chdirError != 0 then old(sysCwd) else if inside then mountdir else path
      ensures error == 0 ==> cwd == path && envCwd == if inside then Some(path) else None
      ensures error != 0 ==> cwd == old(cwd) && envCwd == old(envCwd)
    {
      if chdirError != 0 {
        return chdirError;
      }
      sysCwd := if inside then mountdir else path;
      if envError != 0 {
        return envError;
      }
      envCwd := if inside then Some(path) else None;
      cwd := path;
      error := 0;
    }

    /** `chdir`. The file system answers for an internal path with an error or with its kind. */
    method HookChdir(os: OS, raw: string, errorOf: string -> nat, isDirectory: string -> bool,
                     chdirError: nat, envError: nat)
      returns (a: Answer)
      requires Valid() && ValidOS(os)
      modifies this`cwd, this`sysCwd, this`envCwd
      ensures Valid()
      ensures var o := FromCwd(os, mountdirComponents, old(cwd), raw, true);
              && (a == Raised <==> o == OutOfRange)
              && (o.Inside? && errorOf(o.path) != 0 ==> a == Returned(0 - errorOf(o.path)))
              && (o.Inside? && errorOf(o.path) == 0 && !isDirectory(o.path) ==> a == Returned(-ENOTDIR))
              && (o.Outside? || (o.Inside? && errorOf(o.path) == 0 && isDirectory(o.path)) ==>
                    a == Returned(0 - if chdirError != 0 then chdirError else envError))
      ensures a == Returned(0) ==>
                var o := FromCwd(os, mountdirComponents, old(cwd), raw, true);
                !o.OutOfRange? && cwd == CwdOf(mountdir, o) &&
                if o.Inside? then sysCwd == mountdir && envCwd == Some(cwd) else sysCwd == o.path && envCwd == None
      ensures a == Returned(0) && FromCwd(os, mountdirComponents, old(cwd), raw, true).Outside? ==>
                cwd == FromCwd(os, mountdirComponents, old(cwd), raw, true).path
      ensures a == Returned(0) && PlainMount(os, mountdirComponents) && !StartsExcluded(mountdirComponents) ==>
                forall dir :: AreNames(dir) && FromCwd(os, mountdirComponents, old(cwd), raw, true) == Inside(Canonical(dir)) ==>
                  StandsFor(os, mountdirComponents, cwd, dir)
      ensures a == Returned(0) ==>
                (HasTrailingSlash(cwd) <==> KeepsSlash(os, mountdirComponents, true, FullText(old(cwd), raw)))
      ensures a != Returned(0) ==> cwd == old(cwd) && envCwd == old(envCwd)
    {
      hide Resolved, Join, KeepsSlash, FullText, Last, Tokens, StandsFor, Directories, Canonical;
      var o := RelativizePath(os, raw, true);
      if o.OutOfRange? {
        return Raised;
      }
      FromCwdIsAbsolute(os, mountdirComponents, cwd, raw, true);
      JoinIsAbsolute(mountdirComponents);
      ChdirSlash(os, mountdirComponents, mountdir, FullText(cwd, raw));
      ChdirStandsFor(os, mountdirComponents, mountdir, o);
      var path := o.path;
      if o.Inside? {
        if errorOf(path) != 0 {
          return Returned(0 - errorOf(path));
        }
        if !isDirectory(path) {
          return Returned(-ENOTDIR);
        }
        MountedIsAbsolute(mountdir, path);
        path := DropTrailingSlash(mountdir + path);
      }
      var error: int := SetCwd(path, o.Inside?, chdirError, envError);
      a := Returned(0 - error);
    }

    /** `fchdir`. A descriptor the file map does not know goes to the kernel, which changes to the
        directory `elsewhere`, or fails, and then the hook throws. It throws as well when clearing the
        environment fails, or reading back where the kernel is now: the kernel has changed directory
        then and the context has not. */
    method HookFchdir(fd: int, elsewhere: Option<string>, readable: bool, chdirError: nat, envError: nat)
      returns (a: Answer)
      requires Valid() && (elsewhere.Some? ==> IsAbsolute(elsewhere.value))
      modifies this`cwd, this`sysCwd, this`envCwd
      ensures Valid()
      ensures fd in files && files[fd].RegularAt? ==> a == Returned(-EBADF)
      ensures fd in files && files[fd].DirectoryAt? ==>
                a == Returned(0 - if chdirError != 0 then chdirError else envError)
      ensures fd in files && a == Returned(0) ==>
                cwd == DropTrailingSlash(mountdir + files[fd].path) && sysCwd == mountdir && envCwd == Some(cwd)
      ensures fd in files && a == Returned(0) && AreNames(mountdirComponents) ==>
                forall dir :: AreNames(dir) && files[fd].path == Canonical(dir) ==> cwd == mountdir + Join(dir)
      ensures fd !in files ==>
                && a == (if elsewhere.Some? && envError == 0 && readable then Returned(0) else Raised)
                && sysCwd == (if elsewhere.Some? then elsewhere.value else old(sysCwd))
                && envCwd == (if elsewhere.Some? && envError == 0 then None else old(envCwd))
      ensures fd !in files && a == Returned(0) ==> cwd == elsewhere.value
      ensures a == Returned(0) && fd in files && IsCanonical(files[fd].path) ==> !HasTrailingSlash(cwd)
      ensures a == Returned(0) && fd !in files && IsCanonical(elsewhere.value) ==>
                (HasTrailingSlash(cwd) <==> elsewhere.value == "/")
      ensures a != Returned(0) ==> cwd == old(cwd)
      ensures a != Returned(0) && fd in files ==> envCwd == old(envCwd)
    {
      hide Join, IsCanonical, Canonical;
      if fd in files {
        if files[fd].RegularAt? {
          return Returned(-EBADF);
        }
        JoinIsAbsolute(mountdirComponents);
        MountedIsAbsolute(mountdir, files[fd].path);
        CanonicalSlash(mountdir, files[fd].path);
        forall dir | AreNames(mountdirComponents) && AreNames(dir) && files[fd].path == Canonical(dir)
          ensures DropTrailingSlash(mountdir + files[fd].path) == mountdir + Join(dir)
        {
          ChdirText(mountdirComponents, dir);
        }
        var error: int := SetCwd(DropTrailingSlash(mountdir + files[fd].path), true, chdirError, envError);
        return Returned(0 - error);
      }
      if elsewhere.None? {
        return Raised;
      }
      CanonicalSlash("/", elsewhere.value);
      sysCwd := elsewhere.value;
      if envError != 0 {
        return Raised;
      }
      envCwd := None;
      if !readable {
        return Raised;
      }
      cwd := sysCwd;
      a := Returned(0);
    }

    /** `getcwd` into a buffer of the given size: the text with its terminator, or an error. */
    method HookGetcwd(size: nat) returns (a: Answer, text: string)
      ensures |cwd| + 1 > size ==> a == Returned(-ERANGE) && text == ""
      ensures |cwd| + 1 <= size ==> a == Returned(|text| + 1) && text == cwd
    {
      if |cwd| + 1 > size {
        return Returned(-ERANGE), "";
      }
      text := cwd;
      a := Returned(|cwd| + 1);
    }
  }

  lemma FromCwdIsAbsolute(os: OS, mnt: seq<string>, cwd: string, raw: string, follow: bool)
    requires IsAbsolute(cwd)
    ensures var o := FromCwd(os, mnt, cwd, raw, follow); o.Inside? || o.Outside? ==> IsAbsolute(o.path)
  {
    hide Walk, Tokens;
    WalkIsAbsolute(os, mnt, follow, START, Tokens(FullText(cwd, raw)));
  }

  lemma MountedIsAbsolute(mountdir: string, path: string)
    requires IsAbsolute(mountdir) && IsAbsolute(path)
    ensures IsAbsolute(DropTrailingSlash(mountdir + path))
  {
  }

  // ---------------------------------------------------------------- final separators of working directories

  lemma InternalSlash(mnt: seq<string>, mountdir: string, at: Spot)
    requires mnt <= at.stack && AreNames(at.stack) && mountdir != "" && !HasTrailingSlash(mountdir)
    ensures !HasTrailingSlash(DropTrailingSlash(mountdir + Below(mnt, at)))
  {
    hide Join;
    var below := at.stack[|mnt|..];
    if below == [] {
      assert (mountdir + [SEPARATOR])[..|mountdir|] == mountdir;
    } else {
      NamesEnd(below);
      TrailingConcat(Lead(at), Join(below));
      TrailingConcat(mountdir, Lead(at) + Join(below));
    }
  }

  /** The root is the one canonical path that ends in a separator. */
  lemma CanonicalSlash(prefix: string, path: string)
    ensures IsCanonical(path) ==> (HasTrailingSlash(path) <==> path == "/")
    ensures IsCanonical(path) && prefix != "" && !HasTrailingSlash(prefix) ==> !HasTrailingSlash(DropTrailingSlash(prefix + path))
  {
    hide Join;
    if cs :| AreNames(cs) && path == Canonical(cs) {
      if cs != [] {
        NamesEnd(cs);
        TrailingConcat(prefix, path);
      } else {
        assert (prefix + [SEPARATOR])[..|prefix|] == prefix;
      }
    }
  }

  /** A working directory must not end in a separator, or `prepend_path` refuses the next relative
      name. The directory set by a successful `chdir` does exactly for these paths. */
  lemma ChdirSlash(os: OS, mnt: seq<string>, mountdir: string, path: string)
    requires ValidOS(os) && mnt != [] && mountdir != "" && !HasTrailingSlash(mountdir)
    ensures var o := Resolved(os, mnt, true, path);
            !o.OutOfRange? ==> (HasTrailingSlash(CwdOf(mountdir, o)) <==> KeepsSlash(os, mnt, true, path))
  {
    hide Last, Tokens, Resolved, Below, IsCanonical;
    ExternalSlash(os, mnt, true, path);
    InsideShape(os, mnt, true, path);
    var last := Last(os, mnt, true, START, Tokens(path));
    if Resolved(os, mnt, true, path).Inside? {
      InternalSlash(mnt, mountdir, last.value);
    }
  }

  /** It does for the root directory, and for an excluded directory named with a final separator. */
  lemma ChdirSlashes(os: OS, mnt: seq<string>, name: string)
    requires mnt != []
    ensures Resolved(os, mnt, true, "/") == Outside("/") && KeepsSlash(os, mnt, true, "/")
    ensures var path := "/sys/" + name + "/";
            Resolved(os, mnt, true, path) == Outside(path) && KeepsSlash(os, mnt, true, path)
  {
    TokensOfSlashes("");
    NothingLeft();
    assert [SEPARATOR] + "" == "/";
    EndsAt(os, mnt, []);
    var path := "/sys/" + name + "/";
    assert "/sys/" <= path;
  }

  /** Where assertions are compiled out, a name relative to the root is always walked, while its absolute
      form is walked unless it is excluded: then the two mean the same only if the walk changes nothing. */
  lemma RelativeToRoot(os: OS, mnt: seq<string>, raw: string, follow: bool)
    requires !IsAbsolute(raw)
    ensures FromCwd(os, mnt, "/", raw, follow) == Walk(os, mnt, follow, START, Tokens(raw))
    ensures FromCwd(os, mnt, "/", raw, follow) == Resolved(os, mnt, follow, "/" + raw) <==>
            Excluded("/" + raw) ==> Walk(os, mnt, follow, START, Tokens(raw)) == Outside("/" + raw)
  {
    hide Walk, Tokens;
    var text := [SEPARATOR] + raw;
    assert "/" + raw == text && "/" + text == [SEPARATOR] + text;
    TokensOfSlashes(raw);
    TokensOfSlashes(text);
    assert ([SEPARATOR] + text)[1] == SEPARATOR;
  }

  /** It changes something for a directory below `/sys` named with a final separator. */
  lemma RelativeToRootDiffers(os: OS, mnt: seq<string>, name: string, follow: bool)
    requires IsName(name) && mnt != [] && mnt[0] != "sys" && Directories(os, mnt, [], ["sys", name])
    ensures var raw := "sys/" + name + "/";
            && FromCwd(os, mnt, "/", raw, follow) == Outside("/sys/" + name)
            && Resolved(os, mnt, follow, "/" + raw) == Outside("/sys/" + name + "/")
  {
    hide Walk, Tokens, Join, Directories;
    var raw, dirs := "sys/" + name + "/", ["sys", name];
    assert raw[0] == 's';
    RelativeToRoot(os, mnt, raw, follow);
    SysText(name);
    TokensOfSlashes(raw);
    assert [SEPARATOR] + raw == Join(dirs) + [SEPARATOR] == "/" + raw;
    assert AreNames(dirs);
    WalkDirectories(os, mnt, follow, [], dirs, [SEPARATOR]);
    TokensOfSlashes("");
    NothingLeft();
    assert [SEPARATOR] + "" == [SEPARATOR] && [] + dirs == dirs;
    EndsOutside(os, mnt, follow, dirs);
    assert "/sys/" <= "/" + raw;
  }

  lemma SysText(name: string)
    ensures Join(["sys", name]) == "/sys/" + name
  {
    hide Join;
    JoinSnoc([], "sys");
    JoinSnoc(["sys"], name);
    NothingLeft();
    assert [] + ["sys"] == ["sys"] && ["sys"] + [name] == ["sys", name];
    assert "" + [SEPARATOR] + "sys" == "/sys" && "/sys" + [SEPARATOR] + name == "/sys/" + name;
  }

  lemma EndsOutside(os: OS, mnt: seq<string>, follow: bool, stack: seq<string>)
    requires mnt != [] && stack != [] && mnt[0] != stack[0]
    ensures Walk(os, mnt, follow, Spot(false, stack), []) == Outside(Join(stack))
  {
    JoinIsAbsolute(stack);
    assert "" + Join(stack) == Join(stack);
  }

  // ---------------------------------------------------------------- what the context guarantees

  /** The working directory of an internal directory: the mount directory, then its components. */
  lemma ChdirText(mnt: seq<string>, dir: seq<string>)
    requires AreNames(mnt) && mnt != [] && AreNames(dir)
    ensures DropTrailingSlash(Join(mnt) + Canonical(dir)) == Join(mnt) + Join(dir)
    ensures !HasTrailingSlash(Join(mnt) + Join(dir))
  {
  }

  /** A relative name means the same from an open internal directory and from a working directory
      set to it: the walk that starts at the mount's components followed by the directory's. */
  lemma RelativeNames(os: OS, mnt: seq<string>, follow: bool, dir: seq<string>, raw: string)
    requires PlainMount(os, mnt) && AreNames(dir) && !StartsExcluded(mnt)
    requires !IsAbsolute(raw)
    ensures var walk := Walk(os, mnt, follow, Spot(false, mnt + dir), Tokens(raw));
            && Resolved(os, mnt, follow, Join(mnt) + Canonical(dir) + ([SEPARATOR] + raw)) == walk
            && FromCwd(os, mnt, DropTrailingSlash(Join(mnt) + Canonical(dir)), raw, follow) == walk
  {
    hide Walk, Tokens, Join, Resolved;
    var rel := [SEPARATOR] + raw;
    TokensOfSlashes(raw);
    ChdirText(mnt, dir);
    ResolveBelow(os, mnt, follow, dir, rel);
    if dir == [] {
      ResolveBelow(os, mnt, follow, [], [SEPARATOR] + rel);
      TokensOfSlashes(rel);
      JoinOfNothing();
      TextAssociates(Join(mnt), [SEPARATOR], rel);
      assert Join(mnt) + "" == Join(mnt);
    }
  }

  lemma JoinOfNothing()
    ensures Join([]) == ""
  {
  }

  /** The directory that `chdir` sets for an internal path is that path's. */
  lemma ChdirStandsFor(os: OS, mnt: seq<string>, mountdir: string, o: Outcome)
    requires mountdir == Join(mnt)
    ensures PlainMount(os, mnt) && !StartsExcluded(mnt) ==>
              forall dir :: AreNames(dir) && o == Inside(Canonical(dir)) ==> StandsFor(os, mnt, CwdOf(mountdir, o), dir)
  {
    hide Walk, Tokens, Join, Directories, FromCwd, Canonical;
    if PlainMount(os, mnt) && !StartsExcluded(mnt) {
      forall dir | AreNames(dir) && o == Inside(Canonical(dir))
        ensures StandsFor(os, mnt, CwdOf(mountdir, o), dir)
      {
        CwdStandsFor(os, mnt, dir);
      }
    }
  }

  lemma CwdStandsFor(os: OS, mnt: seq<string>, dir: seq<string>)
    requires PlainMount(os, mnt) && !StartsExcluded(mnt) && AreNames(dir)
    ensures StandsFor(os, mnt, DropTrailingSlash(Join(mnt) + Canonical(dir)), dir)
  {
    hide Walk, Tokens, Join, Directories, FromCwd, Canonical, DropTrailingSlash;
    var cwd := DropTrailingSlash(Join(mnt) + Canonical(dir));
    ChdirText(mnt, dir);
    ChdirToCwd(os, mnt, dir, cwd);
    forall raw, follow | !IsAbsolute(raw)
      ensures FromCwd(os, mnt, cwd, raw, follow) == Walk(os, mnt, follow, Spot(false, mnt + dir), Tokens(raw))
    {
      RelativeNames(os, mnt, follow, dir, raw);
    }
  }

  /** The same, for the two entry points of a context: after an internal `chdir` to a directory,
      a relative name gets the answer it gets from a descriptor of that directory. */
  lemma ChdirAgreesWithFd(ctx: PreloadContext, os: OS, fd: int, dir: seq<string>, raw: string, follow: bool)
    requires ctx.Valid() && PlainMount(os, ctx.mountdirComponents) && !StartsExcluded(ctx.mountdirComponents)
    requires AreNames(dir) && fd in ctx.files && ctx.files[fd] == DirectoryAt(Canonical(dir))
    requires ctx.cwd == DropTrailingSlash(ctx.mountdir + Canonical(dir))
    requires !IsAbsolute(raw)
    ensures ctx.FromFd(os, Some(fd), raw, false, follow) == ctx.FromFd(os, None, raw, false, follow)
    ensures ctx.FromFd(os, Some(fd), raw, false, follow) ==
            StatusOf(Walk(os, ctx.mountdirComponents, follow, Spot(false, ctx.mountdirComponents + dir), Tokens(raw)))
  {
    hide Walk, Tokens, Join, Resolved, Directories;
    var mnt, rel := ctx.mountdirComponents, [SEPARATOR] + raw;
    RelativeNames(os, mnt, follow, dir, raw);
    assert ctx.FromFd(os, Some(fd), raw, false, follow) ==
           StatusOf(Resolved(os, mnt, follow, Join(mnt) + Canonical(dir) + rel));
    assert ctx.FromFd(os, None, raw, false, follow) == StatusOf(FromCwd(os, mnt, ctx.cwd, raw, follow));
  }

  /** Changing to what `getcwd` answered for an internal directory changes nothing. */
  lemma ChdirToCwd(os: OS, mnt: seq<string>, dir: seq<string>, cwd: string)
    requires PlainMount(os, mnt) && AreNames(dir) && !StartsExcluded(mnt)
    requires cwd == DropTrailingSlash(Join(mnt) + Canonical(dir))
    ensures FromCwd(os, mnt, cwd, cwd, true) == Inside(Canonical(dir))
  {
    hide Walk, Tokens, Join, Excluded, Directories;
    ChdirText(mnt, dir);
    JoinConcat(mnt, dir);
    var all := mnt + dir;
    NamesConcat(mnt, dir);
    JoinIsAbsolute(all);
    NotExcluded(all);
    DirectoriesBelow(os, mnt, dir);
    assert Join(all) + "" == Join(all) && [] + all == all;
    WalkDirectories(os, mnt, true, [], all, "");
    NothingLeft();
    EndsAt(os, mnt, all);
    assert all[|mnt|..] == dir;
    assert "" + Join(dir) == Join(dir);
    assert dir == [] <==> all == mnt;
  }

  lemma EndsAt(os: OS, mnt: seq<string>, stack: seq<string>)
    ensures Walk(os, mnt, true, Spot(false, stack), []) == Finish(mnt, Spot(false, stack))
  {
  }
}
