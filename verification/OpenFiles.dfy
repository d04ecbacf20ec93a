/** The table of open files: a descriptor allocator that trusts its counter until it has wrapped
    around or `dup2` has placed a descriptor above it, and validates every descriptor from then on. */
module OpenFiles {
  import opened Common
  import opened Intervals

  const INT_MAX: int := 0x7fff_ffff

  /** The first descriptor handed out, and the one handed out after a wraparound. */
  const FIRST_FD: int := 10000
  const WRAP_FD: int := 100000

  datatype FileType = Regular | Directory

  datatype Flag = Append | Creat | Trunc | Rdonly | Wronly | Rdwr | Cloexec

  /** An open file. All the descriptors that `dup` made of one another share the object. */
  class OpenFile {
    const path: string
    const fileType: FileType
    var pos: nat
    var flags: set<Flag>

    constructor (path: string, flags: set<Flag>, fileType: FileType)
      ensures this.path == path && this.flags == flags && this.fileType == fileType && pos == 0
    {
      this.path, this.flags, this.fileType, this.pos := path, flags, fileType, 0;
    }
  }

  // ---------------------------------------------------------------- the allocator, on values

  /** `std::map::insert` keeps a binding that is already there. */
  function Insert<F>(m: map<int, F>, fd: int, f: F): map<int, F> {
    if fd in m then m else m[fd := f]
  }

  /** The descriptor the counter yields, and the counter afterwards. */
  function Issued(idx: int): int {
    if idx == INT_MAX then WRAP_FD else idx
  }

  /** The descriptor yielded by the n-th call from now on. */
  function NthIssued(idx: int, n: nat): int
    decreases n
  {
    if n == 0 then Issued(idx) else NthIssued(Issued(idx) + 1, n - 1)
  }

  lemma {:induction false} NthNext(idx: int, n: nat)
    ensures NthIssued(idx, n + 1) == Issued(NthIssued(idx, n) + 1)
    decreases n
  {
    if n > 0 {
      NthNext(Issued(idx) + 1, n - 1);
    }
  }

  predicate InRange(idx: int) {
    FIRST_FD <= idx <= INT_MAX
  }

  /** The smallest descriptor the counter can still reach. */
  function Floor(idx: int): int {
    if idx < WRAP_FD then idx else WRAP_FD
  }

  /** A descriptor that is not live and that the counter will come to. */
  predicate Available(live: set<int>, idx: int, fd: int) {
    Floor(idx) <= fd < INT_MAX && fd !in live
  }

  ghost predicate HasAvailable(live: set<int>, idx: int) {
    exists fd :: Available(live, idx, fd)
  }

  /** How many calls it takes the counter to come to `fd`, going round past INT_MAX. */
  function Distance(idx: int, fd: int): (d: nat)
    requires InRange(idx) && Floor(idx) <= fd < INT_MAX
  {
    if idx <= fd then fd - idx else INT_MAX - idx + (fd - WRAP_FD)
  }

  lemma {:induction false} NthAtDistance(idx: int, fd: int)
    requires InRange(idx) && Floor(idx) <= fd < INT_MAX
    ensures NthIssued(idx, Distance(idx, fd)) == fd
    decreases Distance(idx, fd)
  {
    if Issued(idx) != fd {
      NthAtDistance(Issued(idx) + 1, fd);
    }
  }

  /** The counter only ever yields descriptors in its reach. */
  lemma {:induction false} NthInReach(idx: int, n: nat)
    requires InRange(idx)
    ensures Floor(idx) <= NthIssued(idx, n) < INT_MAX
    decreases n
  {
    if n > 0 {
      NthInReach(Issued(idx) + 1, n - 1);
    }
  }

  /** The validating search terminates exactly when some descriptor in reach is free:
      otherwise every descriptor it will ever try is live. */
  lemma SearchTerminates(live: set<int>, idx: int)
    requires InRange(idx)
    ensures HasAvailable(live, idx) <==> exists n: nat :: NthIssued(idx, n) !in live
  {
    if fd :| Available(live, idx, fd) {
      NthAtDistance(idx, fd);
    }
    if n: nat :| NthIssued(idx, n) !in live {
      NthInReach(idx, n);
      assert Available(live, idx, NthIssued(idx, n));
    }
  }

  /** A table with fewer than INT_MAX - 100000 descriptors always leaves one in reach. */
  lemma FewFilesLeaveRoom(live: set<int>, idx: int)
    requires InRange(idx) && |live| < INT_MAX - WRAP_FD
    ensures HasAvailable(live, idx)
  {
    hide Interval;
    var upper := Interval(WRAP_FD, INT_MAX);
    if upper <= live {
      SubsetSize(upper, live);
    } else {
      var fd :| fd in upper && fd !in live;
      assert Available(live, idx, fd);
    }
  }

  // ---------------------------------------------------------------- the table, on values

  datatype Table<F> = Table(files: map<int, F>, idx: int, validating: bool)

  /** The n-th descriptor yielded from now on is the first one that is not live. */
  ghost predicate FirstFree(live: set<int>, idx: int, n: nat) {
    && NthIssued(idx, n) !in live
    && forall j: nat :: j < n ==> NthIssued(idx, j) in live
  }

  /** What `safe_generate_fd_idx_` does: it takes the next descriptor, and when validation is on, or
      has just been turned on by a wraparound, the next one that is not live. */
  ghost predicate Generates<F>(t: Table<F>, t': Table<F>, fd: int) {
    && t'.files == t.files
    && t'.idx == fd + 1
    && t'.validating == (t.validating || t.idx == INT_MAX)
    && if t'.validating then exists n: nat :: fd == NthIssued(t.idx, n) && FirstFree(t.files.Keys, t.idx, n)
       else fd == t.idx
  }

  function Removed<F>(t: Table<F>, fd: int): Table<F> {
    if fd !in t.files then t else
      var files := t.files - {fd};
      t.(files := files, validating := t.validating && files != map[])
  }

  function Dup2ed<F>(t: Table<F>, oldfd: int, newfd: int): Table<F> {
    if oldfd !in t.files || oldfd == newfd then t else
      var freed := Removed(t, newfd);
      freed.(validating := freed.validating || (t.idx < newfd && newfd != 0 && newfd != 1 && newfd != 2),
             files := Insert(freed.files, newfd, t.files[oldfd]))
  }

  /** The calls a client makes, with what they answered. */
  datatype Event<F> =
    | Add(file: F, fd: int)
    | Remove(fd: int)
    | Dup(oldfd: int, newfd: int)
    | Dup2(oldfd: int, newfd: int)

  ghost predicate Step<F>(t: Table<F>, e: Event<F>, t': Table<F>) {
    match e
    case Add(f, fd) =>
      Generates(t, t'.(files := t.files), fd) && t'.files == Insert(t.files, fd, f)
    case Remove(fd) => t' == Removed(t, fd)
    case Dup(oldfd, newfd) =>
      if oldfd in t.files then
        Generates(t, t'.(files := t.files), newfd) && t'.files == Insert(t.files, newfd, t.files[oldfd])
      else newfd == -1 && t' == t
    case Dup2(oldfd, newfd) => t' == Dup2ed(t, oldfd, newfd)
  }

  /** The allocator is safe: it validates, or is about to, or everything live is below its counter. */
  ghost predicate Safe<F>(t: Table<F>) {
    InRange(t.idx) && (t.validating || t.idx == INT_MAX || forall fd :: fd in t.files ==> fd < t.idx)
  }

  /** Whether safe or not, the counter stays in its range and yields descriptors of it. */
  lemma GeneratesInRange<F>(t: Table<F>, t': Table<F>, fd: int)
    requires InRange(t.idx) && Generates(t, t', fd)
    ensures FIRST_FD <= fd < INT_MAX && InRange(t'.idx)
    ensures t'.validating ==> fd !in t.files
  {
    if t'.validating {
      var n: nat :| fd == NthIssued(t.idx, n) && FirstFree(t.files.Keys, t.idx, n);
      NthInReach(t.idx, n);
    }
  }

  /** A safe allocator yields a descriptor that is not live, and stays safe once it is taken. */
  lemma GeneratesFresh<F>(t: Table<F>, t': Table<F>, fd: int, f: F)
    requires Safe(t) && Generates(t, t', fd)
    ensures FIRST_FD <= fd < INT_MAX && fd !in t.files
    ensures Insert(t.files, fd, f) == t.files[fd := f]
    ensures Safe(t'.(files := t.files[fd := f]))
  {
    GeneratesInRange(t, t', fd);
  }

  /** The call does not place a descriptor at the counter of an allocator that does not validate. */
  predicate OffCounter<F>(t: Table<F>, oldfd: int, newfd: int) {
    t.validating || t.idx == INT_MAX || newfd != t.idx || oldfd !in t.files
  }

  /** `dup2` keeps the allocator safe exactly when it does not place a descriptor at the very
      counter of an allocator that does not validate and will not with the next number: its test is strict. */
  lemma Dup2Safe<F>(t: Table<F>, oldfd: int, newfd: int)
    requires Safe(t)
    ensures Safe(Dup2ed(t, oldfd, newfd)) <==> OffCounter(t, oldfd, newfd)
  {
    if oldfd in t.files && oldfd != newfd {
      var freed := Removed(t, newfd);
      assert oldfd in freed.files;
      assert newfd in Dup2ed(t, oldfd, newfd).files;
    }
  }

  /** When it does, the next file added is lost: it gets a live descriptor, which keeps its file. */
  lemma Dup2AtCounter<F>(t: Table<F>, oldfd: int, f: F, t': Table<F>, fd: int)
    requires Safe(t) && !t.validating && oldfd in t.files && t.idx < INT_MAX
    requires Step(Dup2ed(t, oldfd, t.idx), Add(f, fd), t')
    ensures fd == t.idx && t'.files[fd] == t.files[oldfd]
    ensures t'.files == Dup2ed(t, oldfd, t.idx).files
  {
  }

  /** The plain meaning of the calls: a table of bindings with no counter and no validation. */
  function Bound<F>(files: map<int, F>, e: Event<F>): map<int, F> {
    match e
    case Add(f, fd) => files[fd := f]
    case Remove(fd) => files - {fd}
    case Dup(oldfd, newfd) => if oldfd in files then files[newfd := files[oldfd]] else files
    case Dup2(oldfd, newfd) => if oldfd in files then files[newfd := files[oldfd]] else files
  }

  /** A descriptor handed out by a call was not live before it. */
  predicate FreshIn<F>(files: map<int, F>, e: Event<F>) {
    match e
    case Add(_, fd) => fd !in files
    case Dup(oldfd, newfd) => oldfd in files ==> newfd !in files
    case _ => true
  }

  lemma StepSafe<F>(t: Table<F>, e: Event<F>, t': Table<F>)
    requires Safe(t) && Step(t, e, t') && (e.Dup2? ==> OffCounter(t, e.oldfd, e.newfd))
    ensures Safe(t') && FreshIn(t.files, e) && t'.files == Bound(t.files, e)
  {
    match e
    case Add(f, fd) =>
      GeneratesFresh(t, t'.(files := t.files), fd, f);
    case Remove(fd) =>
    case Dup(oldfd, newfd) =>
      if oldfd in t.files {
        GeneratesFresh(t, t'.(files := t.files), newfd, t.files[oldfd]);
      }
    case Dup2(oldfd, newfd) =>
      Dup2Safe(t, oldfd, newfd);
      if oldfd in t.files {
        assert t.files[newfd := t.files[oldfd]] == (t.files - {newfd})[newfd := t.files[oldfd]];
      }
  }

  /** A run of the table, with every state it goes through. */
  ghost predicate Run<F>(states: seq<Table<F>>, events: seq<Event<F>>) {
    && |states| == |events| + 1
    && states[0].files == map[] && states[0].idx == FIRST_FD && !states[0].validating
    && forall i :: 0 <= i < |events| ==> Step(states[i], events[i], states[i + 1])
  }

  function BoundAll<F>(events: seq<Event<F>>): map<int, F> {
    if events == [] then map[] else Bound(BoundAll(events[..|events| - 1]), events[|events| - 1])
  }

  /** In every run, however often the counter wraps and whatever is closed and duplicated, every
      descriptor handed out is fresh and the table is the plain history of its bindings. */
  lemma {:induction false} RunSafe<F>(states: seq<Table<F>>, events: seq<Event<F>>)
    requires Run(states, events)
    requires forall i :: 0 <= i < |events| && events[i].Dup2? ==> OffCounter(states[i], events[i].oldfd, events[i].newfd)
    ensures Safe(states[|events|]) && states[|events|].files == BoundAll(events)
    ensures forall i :: 0 <= i < |events| ==> FreshIn(states[i].files, events[i])
    decreases |events|
  {
    if events != [] {
      var n := |events| - 1;
      RunSafe(states[..|events|], events[..n]);
      assert Step(states[n], events[n], states[n + 1]);
      StepSafe(states[n], events[n], states[n + 1]);
      forall i | 0 <= i < n
        ensures FreshIn(states[i].files, events[i])
      {
        assert FreshIn(states[..|events|][i].files, events[..n][i]);
      }
    }
  }

  // ---------------------------------------------------------------- the table, as the client has it

  class OpenFileMap {
    var files: map<int, OpenFile>
    var fdIdx: int
    var fdValidationNeeded: bool
    var errno: int

    ghost function State(): Table<OpenFile>
      reads this
    {
      Table(files, fdIdx, fdValidationNeeded)
    }

    constructor ()
      ensures files == map[] && fdIdx == FIRST_FD && !fdValidationNeeded && Safe(State())
    {
      files, fdIdx, fdValidationNeeded, errno := map[], FIRST_FD, false, 0;
    }

    method Get(fd: int) returns (file: OpenFile?)
      ensures if fd in files then file == files[fd] else file == null
    {
      file := if fd in files then files[fd] else null;
    }

    method GetDir(fd: int) returns (dir: OpenFile?)
      ensures dir == if fd in files && files[fd].fileType == Directory then files[fd] else null
    {
      var f := Get(fd);
      if f == null || f.fileType != Directory {
        dir := null;
      } else {
        dir := f;
      }
    }

    method Exist(fd: int) returns (live: bool)
      ensures live <==> fd in files
    {
      live := fd in files;
    }

    method GenerateFdIdx() returns (fd: int)
      requires InRange(fdIdx)
      modifies this`fdIdx, this`fdValidationNeeded
      ensures fd == Issued(old(fdIdx)) && fdIdx == fd + 1
      ensures fdValidationNeeded == (old(fdValidationNeeded) || old(fdIdx) == INT_MAX)
    {
      if fdIdx == INT_MAX {
        fdIdx := WRAP_FD;
        fdValidationNeeded := true;
      }
      fd := fdIdx;
      fdIdx := fdIdx + 1;
    }

    /** Terminates whenever the search it may have to do terminates. */
    method SafeGenerateFdIdx() returns (fd: int)
      requires InRange(fdIdx)
      requires fdValidationNeeded || fdIdx == INT_MAX ==> HasAvailable(files.Keys, fdIdx)
      modifies this`fdIdx, this`fdValidationNeeded
      ensures Generates(old(State()), State(), fd)
    {
      ghost var start, live := fdIdx, files.Keys;
      ghost var n: nat := 0;
      fd := GenerateFdIdx();
      if fdValidationNeeded {
        SearchTerminates(live, start);
        ghost var m: nat :| NthIssued(start, m) !in live;
        var taken := Exist(fd);
        while taken
          invariant InRange(fdIdx) && fdIdx == fd + 1 && fdValidationNeeded
          invariant files == old(files) && (taken <==> fd in files)
          invariant n <= m && fd == NthIssued(start, n)
          invariant forall j: nat :: j < n ==> NthIssued(start, j) in live
          decreases m - n
        {
          NthNext(start, n);
          fd := GenerateFdIdx();
          n := n + 1;
          taken := Exist(fd);
        }
        assert FirstFree(live, start, n);
      }
    }

    method Add(file: OpenFile) returns (fd: int)
      requires InRange(fdIdx)
      requires fdValidationNeeded || fdIdx == INT_MAX ==> HasAvailable(files.Keys, fdIdx)
      modifies this`files, this`fdIdx, this`fdValidationNeeded
      ensures Step(old(State()), Event.Add(file, fd), State()) && InRange(fdIdx)
      ensures old(Safe(State())) ==> fd !in old(files) && files == old(files)[fd := file] && Safe(State())
    {
      fd := SafeGenerateFdIdx();
      ghost var g := State();
      GeneratesInRange(old(State()), g, fd);
      if old(Safe(State())) {
        GeneratesFresh(old(State()), g, fd, file);
      }
      files := Insert(files, fd, file);
      assert g == State().(files := old(files));
    }

    method Remove(fd: int) returns (found: bool)
      modifies this`files, this`fdValidationNeeded
      ensures State() == Removed(old(State()), fd) && (found <==> fd in old(files))
      ensures old(Safe(State())) ==> Safe(State())
    {
      if fd !in files {
        return false;
      }
      files := files - {fd};
      if fdValidationNeeded && files == map[] {
        fdValidationNeeded := false;
      }
      found := true;
    }

    method Dup(oldfd: int) returns (newfd: int)
      requires InRange(fdIdx)
      requires fdValidationNeeded || fdIdx == INT_MAX ==> HasAvailable(files.Keys, fdIdx)
      modifies this`files, this`fdIdx, this`fdValidationNeeded, this`errno
      ensures Step(old(State()), Event.Dup(oldfd, newfd), State()) && InRange(fdIdx)
      ensures old(Safe(State())) ==> Safe(State())
      ensures old(Safe(State())) && oldfd in old(files) ==>
                newfd !in old(files) && files == old(files)[newfd := old(files)[oldfd]]
      ensures oldfd !in old(files) ==> newfd == -1 && files == old(files) && errno == EBADF
    {
      var file := Get(oldfd);
      if file == null {
        errno := EBADF;
        return -1;
      }
      newfd := SafeGenerateFdIdx();
      ghost var g := State();
      GeneratesInRange(old(State()), g, newfd);
      if old(Safe(State())) {
        GeneratesFresh(old(State()), g, newfd, file);
      }
      files := Insert(files, newfd, file);
      assert g == State().(files := old(files));
    }

    method Dup2(oldfd: int, newfd: int) returns (fd: int)
      modifies this`files, this`fdValidationNeeded, this`errno
      ensures State() == Dup2ed(old(State()), oldfd, newfd)
      ensures old(Safe(State())) ==> (Safe(State()) <==> OffCounter(old(State()), oldfd, newfd))
      ensures fd == if oldfd in old(files) then newfd else -1
      ensures oldfd !in old(files) ==> errno == EBADF
    {
      if Safe(State()) {
        Dup2Safe(State(), oldfd, newfd);
      }
      var file := Get(oldfd);
      if file == null {
        errno := EBADF;
        return -1;
      }
      if oldfd == newfd {
        return newfd;
      }
      var live := Exist(newfd);
      if live {
        var _ := Remove(newfd);
      }
      if fdIdx < newfd && newfd != 0 && newfd != 1 && newfd != 2 {
        fdValidationNeeded := true;
      }
      files := Insert(files, newfd, file);
      fd := newfd;
    }
  }
}
