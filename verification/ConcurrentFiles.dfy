/** The open-file table under threads. `add` draws its descriptor under one lock, reads the validation
    flag under none, and inserts under another, so other calls run in between; `dup` and `dup2` hold
    the files lock throughout, but not the counter's. */
module ConcurrentFiles {
  import opened OpenFiles

  /** A descriptor that a thread holds: just drawn, about to be looked up, or ready for insertion. */
  datatype Stage = Drawn | Checking | Numbered

  /** Where a thread is inside a call. A `copy` is `dup`'s, which holds the files lock. */
  datatype Progress<F> =
    | Idle
    | Drawing(file: F, copy: bool, first: bool)
    | Holding(file: F, fd: int, stage: Stage, copy: bool)
    | Replacing(file: F, newfd: int, above: bool, raised: bool)   // `dup2`, with its test of the counter

  /** The shared table, the threads, and who holds the files lock. */
  datatype World<F> = World(table: Table<F>, threads: map<int, Progress<F>>, holder: int)

  /** Nobody holds the files lock. */
  const NOBODY := -1

  datatype Action<F> =
    | BeginAdd(tid: int, file: F)
    | BeginDup(tid: int, oldfd: int)
    | Draw(tid: int)                                  // `generate_fd_idx`
    | Test(tid: int)                                  // the flag is read once, after the first draw
    | Look(tid: int)                                  // `exist`, and back to drawing if it does
    | Insert(tid: int)
    | Close(tid: int, fd: int)
    | BeginReplace(tid: int, oldfd: int, newfd: int)  // frees the new descriptor and tests the counter
    | Raise(tid: int)                                 // turns validation on if the test said so
    | Place(tid: int)

  function At<F>(w: World<F>, tid: int): Progress<F> {
    if tid in w.threads then w.threads[tid] else Idle
  }

  function Goes<F>(w: World<F>, tid: int, p: Progress<F>): World<F> {
    w.(threads := w.threads[tid := p])
  }

  predicate MayLock<F>(w: World<F>, tid: int) {
    w.holder == NOBODY || w.holder == tid
  }

  predicate Enabled<F>(w: World<F>, a: Action<F>) {
    a.tid >= 0 &&
    var p := At(w, a.tid);
    match a
    case BeginAdd(_, _) => p.Idle?
    case BeginDup(_, oldfd) => p.Idle? && w.holder == NOBODY && oldfd in w.table.files
    case Draw(_) => p.Drawing?
    case Test(_) => p.Holding? && p.stage == Drawn
    case Look(tid) => p.Holding? && p.stage == Checking && MayLock(w, tid)
    case Insert(tid) => p.Holding? && p.stage == Numbered && MayLock(w, tid)
    case Close(_, _) => p.Idle? && w.holder == NOBODY
    case BeginReplace(_, oldfd, newfd) => p.Idle? && w.holder == NOBODY && oldfd in w.table.files && oldfd != newfd
    case Raise(_) => p.Replacing? && !p.raised
    case Place(_) => p.Replacing? && p.raised
  }

  /** The counter gives out its next number. */
  function Counted<F>(t: Table<F>): Table<F> {
    t.(idx := Issued(t.idx) + 1, validating := t.validating || t.idx == INT_MAX)
  }

  function Inserted<F>(t: Table<F>, fd: int, f: F): Table<F> {
    t.(files := OpenFiles.Insert(t.files, fd, f))
  }

  function Do<F>(w: World<F>, a: Action<F>): World<F>
    requires Enabled(w, a)
  {
    var p := At(w, a.tid);
    match a
    case BeginAdd(tid, f) => Goes(w, tid, Drawing(f, false, true))
    case BeginDup(tid, oldfd) => Goes(w, tid, Drawing(w.table.files[oldfd], true, true)).(holder := tid)
    case Draw(tid) =>
      Goes(w, tid, Holding(p.file, Issued(w.table.idx), if p.first then Drawn else Checking, p.copy)).(table := Counted(w.table))
    case Test(tid) => Goes(w, tid, p.(stage := if w.table.validating then Checking else Numbered))
    case Look(tid) =>
      Goes(w, tid, if p.fd in w.table.files then Drawing(p.file, p.copy, false) else p.(stage := Numbered))
    case Insert(tid) =>
      Goes(w, tid, Idle).(table := Inserted(w.table, p.fd, p.file), holder := if p.copy then NOBODY else w.holder)
    case Close(_, fd) => w.(table := Removed(w.table, fd))
    case BeginReplace(tid, oldfd, newfd) =>
      var above := w.table.idx < newfd && newfd != 0 && newfd != 1 && newfd != 2;
      Goes(w, tid, Replacing(w.table.files[oldfd], newfd, above, false)).(table := Removed(w.table, newfd), holder := tid)
    case Raise(tid) =>
      Goes(w, tid, p.(raised := true)).(table := w.table.(validating := w.table.validating || p.above))
    case Place(tid) => Goes(w, tid, Idle).(table := Inserted(w.table, p.newfd, p.file), holder := NOBODY)
  }

  // ---------------------------------------------------------------- what is kept, and by which steps

  /** The thread has been given the descriptor and has not inserted it yet. */
  predicate Pending<F>(w: World<F>, tid: int, fd: int) {
    At(w, tid).Holding? && At(w, tid).fd == fd
  }

  predicate PendingAs<F>(w: World<F>, tid: int, fd: int, stage: Stage) {
    Pending(w, tid, fd) && At(w, tid).stage == stage
  }

  ghost predicate AllBelow<F>(w: World<F>) {
    forall tid, fd :: Pending(w, tid, fd) ==> fd < w.table.idx
  }

  /** No two threads hold one descriptor, and one that is ready is not live. While nothing is
      validated, a first draw is not live either and everything is below the counter. */
  ghost predicate Sound<F>(w: World<F>) {
    var t := w.table;
    && InRange(t.idx)
    && (forall tid, fd :: Pending(w, tid, fd) ==> FIRST_FD <= fd < INT_MAX)
    && (forall r, s, fd :: Pending(w, r, fd) && Pending(w, s, fd) ==> r == s)
    && (forall tid, fd :: PendingAs(w, tid, fd, Numbered) ==> fd !in t.files)
    && (!t.validating ==>
          && AllBelow(w)
          && (t.idx == INT_MAX || forall fd :: fd in t.files ==> fd < t.idx)
          && (forall tid, fd :: PendingAs(w, tid, fd, Drawn) ==> fd !in t.files))
  }

  /** The files lock is held by whoever is inside `dup` or `dup2`, by nobody else, and `dup2`'s new
      descriptor is free. */
  ghost predicate Exclusive<F>(w: World<F>) {
    && (forall tid :: LocksRightly(w, tid))
    && (w.holder == NOBODY || InsideLock(At(w, w.holder)))
  }

  predicate InsideLock<F>(p: Progress<F>) {
    ((p.Drawing? || p.Holding?) && p.copy) || p.Replacing?
  }

  predicate LocksRightly<F>(w: World<F>, tid: int) {
    var p := At(w, tid);
    && ((p.Drawing? || p.Holding?) && p.copy ==> w.holder == tid >= 0)
    && (p.Replacing? ==> w.holder == tid >= 0 && p.newfd !in w.table.files)
  }

  /** The steps that can do harm: drawing a number another thread holds, closing the last file while
      such a thread is ahead of the counter, and placing `dup2`'s descriptor where a thread holds it
      or, without validation, where the counter has yet to come. */
  ghost predicate Careful<F>(w: World<F>, a: Action<F>)
    requires Enabled(w, a)
  {
    match a
    case Draw(_) => forall tid :: !Pending(w, tid, Issued(w.table.idx))
    case Close(_, fd) => w.table.validating && !Removed(w.table, fd).validating ==> AllBelow(w)
    case Place(tid) =>
      var newfd := At(w, tid).newfd;
      && (forall r :: !PendingAs(w, r, newfd, Numbered))
      && (w.table.validating ||
          ((newfd < w.table.idx || w.table.idx == INT_MAX) && forall r :: !PendingAs(w, r, newfd, Drawn)))
    case _ => true
  }

  /** Only the acting thread's descriptor changes. */
  lemma OthersPending<F>(w: World<F>, a: Action<F>)
    requires Enabled(w, a)
    ensures forall tid, fd :: tid != a.tid ==> (Pending(Do(w, a), tid, fd) <==> Pending(w, tid, fd))
    ensures forall tid, fd, stage :: tid != a.tid ==> (PendingAs(Do(w, a), tid, fd, stage) <==> PendingAs(w, tid, fd, stage))
    ensures !a.Draw? ==> forall fd :: Pending(Do(w, a), a.tid, fd) ==> Pending(w, a.tid, fd)
    ensures a.Draw? ==> forall fd :: Pending(Do(w, a), a.tid, fd) <==> fd == Issued(w.table.idx)
    ensures forall fd :: PendingAs(Do(w, a), a.tid, fd, Numbered) ==>
              || (a.Test? && PendingAs(w, a.tid, fd, Drawn) && !w.table.validating)
              || (a.Look? && fd !in w.table.files)
    ensures forall fd :: PendingAs(Do(w, a), a.tid, fd, Drawn) ==> a.Draw?
  {
  }

  /** Each step keeps soundness exactly when it is careful. */
  lemma StepSound<F>(w: World<F>, a: Action<F>)
    requires Sound(w) && Enabled(w, a)
    ensures Sound(Do(w, a)) <==> Careful(w, a)
  {
    hide Do, Careful, Sound;
    match a
    case BeginAdd(_, _) => QuietStep(w, a);
    case BeginDup(_, _) => QuietStep(w, a);
    case Draw(_) => DrawSound(w, a);
    case Test(_) => QuietStep(w, a);
    case Look(_) => QuietStep(w, a);
    case Insert(_) => InsertSound(w, a);
    case Close(_, _) => CloseSound(w, a);
    case BeginReplace(_, _, _) => QuietStep(w, a);
    case Raise(_) => QuietStep(w, a);
    case Place(_) => PlaceSound(w, a);
  }

  lemma QuietStep<F>(w: World<F>, a: Action<F>)
    requires Sound(w) && Enabled(w, a) && !a.Draw? && !a.Insert? && !a.Close? && !a.Place?
    ensures Sound(Do(w, a)) && Careful(w, a)
  {
    OthersPending(w, a);
    if a.BeginReplace? {
      assert a.oldfd in w.table.files - {a.newfd};
    }
  }

  lemma DrawSound<F>(w: World<F>, a: Action<F>)
    requires Sound(w) && Enabled(w, a) && a.Draw?
    ensures Sound(Do(w, a)) <==> Careful(w, a)
  {
    OthersPending(w, a);
    assert Pending(Do(w, a), a.tid, Issued(w.table.idx));
    if r :| Pending(w, r, Issued(w.table.idx)) {
      assert Pending(Do(w, a), r, Issued(w.table.idx)) && r != a.tid;
    }
  }

  lemma InsertSound<F>(w: World<F>, a: Action<F>)
    requires Sound(w) && Enabled(w, a) && a.Insert?
    ensures Sound(Do(w, a)) && Careful(w, a)
    ensures var p, files := At(w, a.tid), w.table.files;
            p.fd !in files && Do(w, a).table.files == files[p.fd := p.file]
  {
    OthersPending(w, a);
    assert PendingAs(w, a.tid, At(w, a.tid).fd, Numbered);
  }

  lemma CloseSound<F>(w: World<F>, a: Action<F>)
    requires Sound(w) && Enabled(w, a) && a.Close?
    ensures Sound(Do(w, a)) <==> Careful(w, a)
  {
    OthersPending(w, a);
  }

  lemma PlaceSound<F>(w: World<F>, a: Action<F>)
    requires Sound(w) && Enabled(w, a) && a.Place?
    ensures Sound(Do(w, a)) <==> Careful(w, a)
  {
    OthersPending(w, a);
    var newfd := At(w, a.tid).newfd;
    assert newfd in Do(w, a).table.files;
    if r :| PendingAs(w, r, newfd, Numbered) {
      assert PendingAs(Do(w, a), r, newfd, Numbered);
    } else if r :| PendingAs(w, r, newfd, Drawn) {
      assert PendingAs(Do(w, a), r, newfd, Drawn);
    }
  }

  lemma StepExclusive<F>(w: World<F>, a: Action<F>)
    requires Exclusive(w) && Enabled(w, a)
    ensures Exclusive(Do(w, a))
    ensures a.Place? ==> var p := At(w, a.tid); Do(w, a).table.files == w.table.files[p.newfd := p.file]
  {
    assert LocksRightly(w, a.tid);
    forall tid
      ensures LocksRightly(Do(w, a), tid)
    {
      assert LocksRightly(w, tid);
    }
  }

  // ---------------------------------------------------------------- runs

  function Start<F>(): World<F> {
    World(Table(map[], FIRST_FD, false), map[], NOBODY)
  }

  ghost predicate Trace<F>(worlds: seq<World<F>>, actions: seq<Action<F>>) {
    && |worlds| == |actions| + 1 && worlds[0] == Start<F>()
    && forall i :: 0 <= i < |actions| ==> Enabled(worlds[i], actions[i]) && worlds[i + 1] == Do(worlds[i], actions[i])
  }

  ghost predicate CarefulTrace<F>(worlds: seq<World<F>>, actions: seq<Action<F>>) {
    Trace(worlds, actions) && forall i :: 0 <= i < |actions| ==> Careful(worlds[i], actions[i])
  }

  /** The call leaves the descriptor without its file. */
  predicate Frees<F>(a: Action<F>, fd: int) {
    (a.Close? && a.fd == fd) || (a.BeginReplace? && a.newfd == fd)
  }

  lemma TraceInit<F>(worlds: seq<World<F>>, actions: seq<Action<F>>)
    requires CarefulTrace(worlds, actions) && actions != []
    ensures var n := |actions| - 1;
            && CarefulTrace(worlds[..|actions|], actions[..n])
            && Enabled(worlds[n], actions[n]) && Careful(worlds[n], actions[n])
            && worlds[|actions|] == Do(worlds[n], actions[n])
  {
    hide Careful, Do, Enabled;
  }

  /** Every state of an interleaving of careful steps is sound. */
  lemma {:induction false} AlwaysSound<F>(worlds: seq<World<F>>, actions: seq<Action<F>>)
    requires CarefulTrace(worlds, actions)
    ensures Sound(worlds[|actions|]) && Exclusive(worlds[|actions|])
    decreases |actions|
  {
    hide Careful, Do, Enabled;
    if actions == [] {
      StartSound<F>();
    } else {
      var n := |actions| - 1;
      TraceInit(worlds, actions);
      AlwaysSound(worlds[..|actions|], actions[..n]);
      StepSound(worlds[n], actions[n]);
      StepExclusive(worlds[n], actions[n]);
    }
  }

  lemma StartSound<F>()
    ensures Sound(Start<F>()) && Exclusive(Start<F>())
  {
  }

  lemma TracePrefix<F>(worlds: seq<World<F>>, actions: seq<Action<F>>, i: nat)
    requires CarefulTrace(worlds, actions) && i <= |actions|
    ensures CarefulTrace(worlds[..i + 1], actions[..i])
    ensures i < |actions| ==> Enabled(worlds[i], actions[i]) && worlds[i + 1] == Do(worlds[i], actions[i])
  {
    hide Careful, Do, Enabled;
  }

  /** Apart from freeing it, no step takes a live descriptor away or changes what it stands for. */
  lemma StepKeepsFile<F>(w: World<F>, a: Action<F>, fd: int)
    requires Enabled(w, a) && fd in w.table.files && !Frees(a, fd)
    ensures fd in Do(w, a).table.files && Do(w, a).table.files[fd] == w.table.files[fd]
  {
  }

  /** A call starts, and a call ends by inserting. */
  predicate Begins<F>(a: Action<F>) {
    a.BeginAdd? || a.BeginDup? || a.BeginReplace?
  }

  predicate Finishes<F>(a: Action<F>) {
    a.Insert? || a.Place?
  }

  /** The file a call is about: the one handed to `add`, or that of the descriptor named to `dup` or `dup2`. */
  function Supplied<F>(w: World<F>, a: Action<F>): F
    requires Enabled(w, a) && Begins(a)
  {
    if a.BeginAdd? then a.file else w.table.files[a.oldfd]
  }

  /** The thread's call that has started with one action is still going on before another. */
  ghost predicate GoesOn<F>(actions: seq<Action<F>>, b: nat, k: nat, tid: int) {
    && b < k <= |actions| && Begins(actions[b]) && actions[b].tid == tid
    && forall j :: b < j < k && actions[j].tid == tid ==> !Finishes(actions[j])
  }

  /** Until it ends, a call keeps its file, and `dup2` its descriptor as well. */
  lemma StepCarries<F>(w: World<F>, a: Action<F>, tid: int)
    requires Enabled(w, a) && !At(w, tid).Idle? && (a.tid == tid ==> !Finishes(a))
    ensures var p, q := At(w, tid), At(Do(w, a), tid);
            && !q.Idle? && q.file == p.file
            && (q.Replacing? <==> p.Replacing?) && (p.Replacing? ==> q.newfd == p.newfd)
  {
  }

  lemma StepBegins<F>(w: World<F>, a: Action<F>)
    requires Enabled(w, a) && Begins(a)
    ensures var q := At(Do(w, a), a.tid);
            && !q.Idle? && q.file == Supplied(w, a)
            && (q.Replacing? <==> a.BeginReplace?) && (a.BeginReplace? ==> q.newfd == a.newfd)
  {
  }

  lemma {:induction false} Carried<F>(worlds: seq<World<F>>, actions: seq<Action<F>>, b: nat, k: nat, tid: int)
    requires Trace(worlds, actions) && GoesOn(actions, b, k, tid)
    ensures Enabled(worlds[b], actions[b])
    ensures var a, p := actions[b], At(worlds[k], tid);
            && !p.Idle? && p.file == Supplied(worlds[b], a)
            && (p.Replacing? <==> a.BeginReplace?) && (a.BeginReplace? ==> p.newfd == a.newfd)
    decreases k
  {
    hide Do, Enabled, Supplied;
    assert worlds[k - 1 + 1] == Do(worlds[k - 1], actions[k - 1]);
    if b == k - 1 {
      StepBegins(worlds[b], actions[b]);
    } else {
      Carried(worlds, actions, b, k - 1, tid);
      StepCarries(worlds[k - 1], actions[k - 1], tid);
    }
  }

  /** Every thread inside a call has started it. */
  lemma {:induction false} HasBegun<F>(worlds: seq<World<F>>, actions: seq<Action<F>>, k: nat, tid: int) returns (b: nat)
    requires Trace(worlds, actions) && k <= |actions| && !At(worlds[k], tid).Idle?
    ensures GoesOn(actions, b, k, tid)
    decreases k
  {
    hide Do, Enabled;
    assert At(Start<F>(), tid).Idle?;
    assert worlds[k - 1 + 1] == Do(worlds[k - 1], actions[k - 1]);
    StepFinishes(worlds[k - 1], actions[k - 1], tid);
    if At(worlds[k - 1], tid).Idle? {
      b := k - 1;
    } else {
      b := HasBegun(worlds, actions, k - 1, tid);
    }
  }

  lemma StepFinishes<F>(w: World<F>, a: Action<F>, tid: int)
    requires Enabled(w, a) && !At(Do(w, a), tid).Idle?
    ensures At(w, tid).Idle? ==> Begins(a) && a.tid == tid
    ensures a.tid == tid ==> !Finishes(a)
  {
  }

  /** While one thread is inside `dup` or `dup2`, the others can only start an `add`, draw and test. */
  lemma OthersWait<F>(w: World<F>, a: Action<F>)
    requires Exclusive(w) && Enabled(w, a) && w.holder != NOBODY && a.tid != w.holder
    ensures a.BeginAdd? || a.Draw? || a.Test?
    ensures Do(w, a).table.files == w.table.files && Do(w, a).holder == w.holder
  {
    assert LocksRightly(w, a.tid);
  }

  lemma OwnSteps<F>(w: World<F>, a: Action<F>)
    requires Enabled(w, a) && a.tid == w.holder && !Finishes(a) && !At(w, a.tid).Idle?
    ensures Do(w, a).table.files == w.table.files && Do(w, a).holder == w.holder
  {
  }

  lemma TakesLock<F>(w: World<F>, a: Action<F>)
    requires Enabled(w, a) && (a.BeginDup? || a.BeginReplace?)
    ensures Do(w, a).holder == a.tid != NOBODY
    ensures Do(w, a).table.files == if a.BeginReplace? then w.table.files - {a.newfd} else w.table.files
  {
  }

  /** From the start of a `dup` or `dup2` until it inserts, the files are as it found them, except for
      the descriptor that `dup2` has freed: the two are atomic in this respect. */
  lemma {:induction false} FilesHeld<F>(worlds: seq<World<F>>, actions: seq<Action<F>>, b: nat, k: nat, tid: int)
    requires Trace(worlds, actions) && GoesOn(actions, b, k, tid) && !actions[b].BeginAdd?
    ensures Enabled(worlds[b], actions[b]) && worlds[k].holder == tid
    ensures worlds[k].table.files ==
            if actions[b].BeginReplace? then worlds[b].table.files - {actions[b].newfd} else worlds[b].table.files
    decreases k
  {
    hide Do, Enabled, Exclusive;
    var w, a := worlds[k - 1], actions[k - 1];
    assert worlds[k - 1 + 1] == Do(w, a) && Enabled(worlds[b], actions[b]);
    if b == k - 1 {
      TakesLock(w, a);
    } else {
      FilesHeld(worlds, actions, b, k - 1, tid);
      Carried(worlds, actions, b, k - 1, tid);
      AlwaysExclusive(worlds, actions, k - 1);
      NotNobody(worlds[b], actions[b]);
      if a.tid == tid {
        OwnSteps(w, a);
      } else {
        OthersWait(w, a);
      }
    }
  }

  lemma NotNobody<F>(w: World<F>, a: Action<F>)
    requires Enabled(w, a)
    ensures a.tid >= 0
  {
  }

  lemma {:induction false} AlwaysExclusive<F>(worlds: seq<World<F>>, actions: seq<Action<F>>, k: nat)
    requires Trace(worlds, actions) && k <= |actions|
    ensures Exclusive(worlds[k])
    decreases k
  {
    hide Do, Enabled, Exclusive;
    if k == 0 {
      StartSound<F>();
    } else {
      AlwaysExclusive(worlds, actions, k - 1);
      assert worlds[k - 1 + 1] == Do(worlds[k - 1], actions[k - 1]);
      StepExclusive(worlds[k - 1], actions[k - 1]);
    }
  }

  /** What a call inserts: the descriptor, and the state it is ready in. */
  function InsertedFd<F>(w: World<F>, a: Action<F>): int
    requires Enabled(w, a) && Finishes(a)
  {
    if a.Insert? then At(w, a.tid).fd else At(w, a.tid).newfd
  }

  lemma FinishInserts<F>(w: World<F>, a: Action<F>)
    requires Sound(w) && Exclusive(w) && Enabled(w, a) && Finishes(a)
    ensures var fd, files := InsertedFd(w, a), w.table.files;
            && !At(w, a.tid).Idle? && (At(w, a.tid).Replacing? <==> a.Place?)
            && fd !in files && Do(w, a).table.files == files[fd := At(w, a.tid).file]
  {
    hide Sound;
    if a.Insert? {
      InsertSound(w, a);
    } else {
      StepExclusive(w, a);
      assert LocksRightly(w, a.tid);
    }
  }

  /** In every interleaving of careful steps, the descriptor that a call inserts was not live, and from
      then on it stands for the file the call was about when it began, until someone closes or replaces
      it. `dup2` inserts the descriptor it was asked to. */
  lemma {:induction false} EveryInterleaving<F>(worlds: seq<World<F>>, actions: seq<Action<F>>, i: nat) returns (b: nat)
    requires CarefulTrace(worlds, actions)
    requires i < |actions| && Finishes(actions[i])
    requires Enabled(worlds[i], actions[i])
    requires forall k :: i < k < |actions| ==> !Frees(actions[k], InsertedFd(worlds[i], actions[i]))
    ensures GoesOn(actions, b, i, actions[i].tid) && Enabled(worlds[b], actions[b])
    ensures var fd, files := InsertedFd(worlds[i], actions[i]), worlds[|actions|].table.files;
            && fd !in worlds[i].table.files
            && fd in files && files[fd] == Supplied(worlds[b], actions[b])
            && (actions[i].Place? <==> actions[b].BeginReplace?)
            && (actions[i].Place? ==> fd == actions[b].newfd)
    decreases |actions|
  {
    hide Careful, Do, Enabled, Frees, Sound, Supplied, Exclusive;
    var n := |actions| - 1;
    TracePrefix(worlds, actions, i);
    AlwaysSound(worlds[..i + 1], actions[..i]);
    FinishInserts(worlds[i], actions[i]);
    b := HasBegun(worlds, actions, i, actions[i].tid);
    Carried(worlds, actions, b, i, actions[i].tid);
    if i < n {
      TraceInit(worlds, actions);
      var b' := EveryInterleaving(worlds[..|actions|], actions[..n], i);
      Carried(worlds, actions, b', i, actions[i].tid);
      StepKeepsFile(worlds[n], actions[n], InsertedFd(worlds[i], actions[i]));
      b := b';
    }
  }

  /** Two callers never have the same descriptor at the same time. */
  lemma DistinctCallers<F>(worlds: seq<World<F>>, actions: seq<Action<F>>, i: nat, j: nat)
    requires CarefulTrace(worlds, actions)
    requires i < j < |actions| && Finishes(actions[i]) && Finishes(actions[j])
    requires Enabled(worlds[i], actions[i]) && Enabled(worlds[j], actions[j])
    requires forall k :: i < k < j ==> !Frees(actions[k], InsertedFd(worlds[i], actions[i]))
    ensures InsertedFd(worlds[i], actions[i]) != InsertedFd(worlds[j], actions[j])
  {
    hide Careful, Do, Frees, Sound, Exclusive;
    TracePrefix(worlds, actions, j);
    var b := EveryInterleaving(worlds[..j + 1], actions[..j], i);
    AlwaysSound(worlds[..j + 1], actions[..j]);
    FinishInserts(worlds[j], actions[j]);
  }

  /** As long as the counter does not wrap around, only `dup2` can do harm. */
  lemma {:induction false} WithoutWrap<F>(worlds: seq<World<F>>, actions: seq<Action<F>>)
    requires Trace(worlds, actions)
    requires forall i :: 0 <= i < |actions| && actions[i].Draw? ==> worlds[i].table.idx < INT_MAX
    requires forall i :: 0 <= i < |actions| && actions[i].Place? ==> Careful(worlds[i], actions[i])
    ensures CarefulTrace(worlds, actions) && AllBelow(worlds[|actions|])
    decreases |actions|
  {
    hide Careful, Do, Enabled, Sound;
    if actions != [] {
      var n := |actions| - 1;
      assert worlds[n + 1] == Do(worlds[n], actions[n]);
      WithoutWrap(worlds[..|actions|], actions[..n]);
      AlwaysSound(worlds[..|actions|], actions[..n]);
      StepBelow(worlds[n], actions[n]);
      forall i | 0 <= i < |actions|
        ensures Careful(worlds[i], actions[i])
      {
        if i < n {
          assert worlds[..|actions|][i] == worlds[i] && actions[..n][i] == actions[i];
        }
      }
    } else {
      assert worlds[0] == Start<F>();
    }
  }

  lemma StepBelow<F>(w: World<F>, a: Action<F>)
    requires Sound(w) && Enabled(w, a) && AllBelow(w) && (a.Draw? ==> w.table.idx < INT_MAX)
    ensures AllBelow(Do(w, a)) && (!a.Place? ==> Careful(w, a))
  {
    OthersPending(w, a);
  }

  // ---------------------------------------------------------------- the four races

  /** Placing `dup2`'s descriptor where a thread holds it ready: the thread's file is lost. */
  lemma ReplaceRace<F>(w: World<F>, adder: int, other: int)
    requires Exclusive(w) && adder >= 0 && other >= 0 && adder != other
    requires At(w, other).Replacing? && At(w, other).raised
    requires PendingAs(w, adder, At(w, other).newfd, Numbered) && !At(w, adder).copy
    ensures var place, insert := Action<F>.Place(other), Action<F>.Insert(adder);
            && Enabled(w, place) && Enabled(Do(w, place), insert)
            && Do(Do(w, place), insert).table.files == w.table.files[At(w, other).newfd := At(w, other).file]
  {
    StepExclusive(w, Place(other));
  }

  /** `dup2` sees its descriptor ahead of the counter; before it turns validation on, a thread draws that
      very descriptor and finds validation off. The thread's file is lost. */
  lemma LateFlag<F>(w: World<F>, adder: int, other: int)
    requires Exclusive(w) && adder >= 0 && other >= 0 && adder != other
    requires At(w, other).Replacing? && At(w, other).above && !At(w, other).raised
    requires w.table.idx == At(w, other).newfd < INT_MAX
    requires At(w, adder).Drawing? && At(w, adder).first && !At(w, adder).copy && !w.table.validating
    ensures var draw, test, raise := Action<F>.Draw(adder), Action<F>.Test(adder), Action<F>.Raise(other);
            && Enabled(w, draw) && Enabled(Do(w, draw), test) && Enabled(Do(Do(w, draw), test), raise)
            && var w3 := Do(Do(Do(w, draw), test), raise);
            && PendingAs(w3, adder, At(w3, other).newfd, Numbered) && At(w3, other).Replacing? && At(w3, other).raised
  {
  }

  /** After a wrap-around the counter comes to a descriptor that another thread still holds: validation
      does not see it, both threads get it, and the file of the later one is lost. */
  lemma WrapRace<F>(w: World<F>, slow: int, fast: int)
    requires w.holder == NOBODY && slow >= 0 && fast >= 0 && slow != fast && w.table.idx == INT_MAX
    requires PendingAs(w, slow, WRAP_FD, Numbered) && !At(w, slow).copy && WRAP_FD !in w.table.files
    requires At(w, fast).Drawing? && At(w, fast).first && !At(w, fast).copy
    ensures var draw, test, look := Action<F>.Draw(fast), Action<F>.Test(fast), Action<F>.Look(fast);
            && Enabled(w, draw) && Enabled(Do(w, draw), test) && Enabled(Do(Do(w, draw), test), look)
            && var w3 := Do(Do(Do(w, draw), test), look);
            && PendingAs(w3, fast, WRAP_FD, Numbered) && At(w3, fast).file == At(w, fast).file
            && Enabled(w3, Insert(slow)) && Enabled(Do(w3, Insert(slow)), Insert(fast))
            && Do(Do(w3, Insert(slow)), Insert(fast)).table.files == w.table.files[WRAP_FD := At(w, slow).file]
  {
  }

  /** A thread holds the number at the counter, which a wrap-around has brought back there, and the last
      file is closed: validation goes off. When the thread has inserted, the next one draws the same
      number, finds validation off, and its file is lost. */
  lemma CloseRace<F>(w: World<F>, slow: int, fast: int, closer: int, fd: int) returns (w': World<F>)
    requires w.holder == NOBODY && slow >= 0 && fast >= 0 && closer >= 0 && slow != fast
    requires w.table.validating && w.table.files.Keys == {fd} && w.table.idx != fd && w.table.idx < INT_MAX
    requires PendingAs(w, slow, w.table.idx, Numbered) && !At(w, slow).copy
    requires At(w, fast).Drawing? && At(w, fast).first && !At(w, fast).copy && At(w, closer).Idle?
    ensures Leads(w, [Close(closer, fd), Insert(slow), Draw(fast), Test(fast), Insert(fast)], w')
    ensures w'.table.files == map[w.table.idx := At(w, slow).file] && At(w', slow).Idle? && At(w', fast).Idle?
  {
    assert w.table.files - {fd} == map[];
    var w1 := Do(w, Close(closer, fd));
    var w2 := Do(w1, Insert(slow));
    var w3 := Do(w2, Draw(fast));
    var w4 := Do(w3, Test(fast));
    w' := Do(w4, Insert(fast));
    OneStep(w4, Insert(fast), [], w');
    OneStep(w3, Test(fast), [Insert(fast)], w');
    OneStep(w2, Draw(fast), [Test(fast), Insert(fast)], w');
    OneStep(w1, Insert(slow), [Draw(fast), Test(fast), Insert(fast)], w');
    OneStep(w, Close(closer, fd), [Insert(slow), Draw(fast), Test(fast), Insert(fast)], w');
  }

  // ---------------------------------------------------------------- sequences of actions

  /** Some actions lead from one world to another. */
  ghost predicate Leads<F>(w: World<F>, actions: seq<Action<F>>, w': World<F>)
    decreases |actions|
  {
    if actions == [] then w' == w
    else Enabled(w, actions[0]) && Leads(Do(w, actions[0]), actions[1..], w')
  }

  lemma OneStep<F>(w: World<F>, a: Action<F>, rest: seq<Action<F>>, w': World<F>)
    requires Enabled(w, a) && Leads(Do(w, a), rest, w')
    ensures Leads(w, [a] + rest, w')
  {
    assert ([a] + rest)[1..] == rest;
  }

  lemma {:induction false} LeadsOn<F>(w: World<F>, a: seq<Action<F>>, mid: World<F>, b: seq<Action<F>>, w': World<F>)
    requires Leads(w, a, mid) && Leads(mid, b, w')
    ensures Leads(w, a + b, w')
    decreases |a|
  {
    hide Do, Enabled;
    if a == [] {
      assert a + b == b;
    } else {
      assert (a + b)[0] == a[0] && (a + b)[1..] == a[1..] + b;
      LeadsOn(Do(w, a[0]), a[1..], mid, b, w');
    }
  }

  // ---------------------------------------------------------------- a thread on its own

  /** Looking descriptors up and drawing the next ones, until one is free. */
  function Retries<F>(tid: int, n: nat): seq<Action<F>> {
    if n == 0 then [Look(tid), Insert(tid)] else [Look(tid), Draw(tid)] + Retries(tid, n - 1)
  }

  lemma TwoSteps<F>(w: World<F>, a: Action<F>, b: Action<F>, rest: seq<Action<F>>, w': World<F>)
    requires Enabled(w, a) && Enabled(Do(w, a), b) && Leads(Do(Do(w, a), b), rest, w')
    ensures Leads(w, [a, b] + rest, w')
  {
    assert ([a, b] + rest)[1..] == [b] + rest && ([b] + rest)[1..] == rest;
  }

  lemma {:induction false} SoloRetries<F>(w: World<F>, tid: int, n: nat) returns (w': World<F>)
    requires tid >= 0 && MayLock(w, tid) && w.table.validating
    requires At(w, tid).Holding? && At(w, tid).stage == Checking && w.table.idx == At(w, tid).fd + 1
    requires n == 0 ==> At(w, tid).fd !in w.table.files
    requires n > 0 ==> At(w, tid).fd in w.table.files && FirstFree(w.table.files.Keys, w.table.idx, n - 1)
    ensures Leads(w, Retries(tid, n), w')
    ensures var p, t := At(w, tid), w.table;
            var fd := if n == 0 then p.fd else NthIssued(t.idx, n - 1);
            && w'.table == Table(t.files[fd := p.file], fd + 1, true)
            && At(w', tid).Idle? && w'.holder == if p.copy then NOBODY else w.holder
    decreases n
  {
    var w1 := Do(w, Look(tid));
    if n == 0 {
      w' := Do(w1, Insert(tid));
      assert Leads(w', [], w');
      TwoSteps(w, Look(tid), Insert(tid), [], w');
      assert [Action<F>.Look(tid), Insert(tid)] + [] == [Look(tid), Insert(tid)];
    } else {
      var w2 := Do(w1, Draw(tid));
      var idx, live := w.table.idx, w.table.files.Keys;
      assert NthIssued(idx, 0) == Issued(idx) == At(w2, tid).fd;
      forall j: nat | j < n - 2
        ensures NthIssued(w2.table.idx, j) in live
      {
        assert NthIssued(idx, j + 1) == NthIssued(w2.table.idx, j);
      }
      if n > 1 {
        assert NthIssued(idx, n - 1) == NthIssued(w2.table.idx, n - 2);
      }
      w' := SoloRetries(w2, tid, n - 1);
      TwoSteps(w, Look(tid), Draw(tid), Retries(tid, n - 1), w');
    }
  }

  /** What a thread does after it has the file: it draws, tests the flag, and looks up if it is on. */
  function Drawings<F>(validates: bool, tid: int, n: nat): seq<Action<F>> {
    [Draw(tid), Test(tid)] + if validates then Retries(tid, n) else [Insert(tid)]
  }

  lemma SoloDraws<F>(w: World<F>, tid: int, n: nat) returns (w': World<F>, fd: int)
    requires tid >= 0 && MayLock(w, tid) && At(w, tid).Drawing? && At(w, tid).first
    requires w.table.validating || w.table.idx == INT_MAX ==> FirstFree(w.table.files.Keys, w.table.idx, n)
    ensures Leads(w, Drawings(w.table.validating || w.table.idx == INT_MAX, tid, n), w')
    ensures Generates(w.table, w'.table.(files := w.table.files), fd)
    ensures w'.table.files == OpenFiles.Insert(w.table.files, fd, At(w, tid).file)
    ensures At(w', tid).Idle? && w'.holder == if At(w, tid).copy then NOBODY else w.holder
  {
    var t := w.table;
    var w1 := Do(w, Draw(tid));
    var w2 := Do(w1, Test(tid));
    assert NthIssued(t.idx, 0) == Issued(t.idx);
    if t.validating || t.idx == INT_MAX {
      if n > 0 {
        forall j: nat | j < n - 1
          ensures NthIssued(w2.table.idx, j) in t.files.Keys
        {
          assert NthIssued(t.idx, j + 1) == NthIssued(w2.table.idx, j);
        }
        assert NthIssued(t.idx, n) == NthIssued(w2.table.idx, n - 1);
      }
      w' := SoloRetries(w2, tid, n);
      fd := NthIssued(t.idx, n);
      TwoSteps(w, Draw(tid), Test(tid), Retries(tid, n), w');
    } else {
      w', fd := Do(w2, Insert(tid)), t.idx;
      OneStep(w2, Insert(tid), [], w');
      assert [Action<F>.Insert(tid)] + [] == [Insert(tid)];
      TwoSteps(w, Draw(tid), Test(tid), [Insert(tid)], w');
    }
  }

  /** A thread that is not disturbed does what the table does in one call of `add`. */
  lemma SoloAdd<F>(w: World<F>, tid: int, f: F, n: nat) returns (w': World<F>, fd: int)
    requires tid >= 0 && w.holder == NOBODY && At(w, tid).Idle?
    requires w.table.validating || w.table.idx == INT_MAX ==> FirstFree(w.table.files.Keys, w.table.idx, n)
    ensures Leads(w, [BeginAdd(tid, f)] + Drawings(w.table.validating || w.table.idx == INT_MAX, tid, n), w')
    ensures Step(w.table, Event.Add(f, fd), w'.table) && w'.holder == NOBODY && At(w', tid).Idle?
  {
    hide Generates, FirstFree;
    w', fd := SoloDraws(Do(w, BeginAdd(tid, f)), tid, n);
    OneStep(w, BeginAdd(tid, f), Drawings(w.table.validating || w.table.idx == INT_MAX, tid, n), w');
  }

  /** And of `dup`. */
  lemma SoloDup<F>(w: World<F>, tid: int, oldfd: int, n: nat) returns (w': World<F>, fd: int)
    requires tid >= 0 && w.holder == NOBODY && At(w, tid).Idle? && oldfd in w.table.files
    requires w.table.validating || w.table.idx == INT_MAX ==> FirstFree(w.table.files.Keys, w.table.idx, n)
    ensures Leads(w, [BeginDup(tid, oldfd)] + Drawings(w.table.validating || w.table.idx == INT_MAX, tid, n), w')
    ensures Step(w.table, Event.Dup(oldfd, fd), w'.table) && w'.holder == NOBODY && At(w', tid).Idle?
  {
    hide Generates, FirstFree;
    w', fd := SoloDraws(Do(w, BeginDup(tid, oldfd)), tid, n);
    OneStep(w, BeginDup(tid, oldfd), Drawings(w.table.validating || w.table.idx == INT_MAX, tid, n), w');
  }

  /** And of `dup2` and of closing. */
  lemma SoloDup2<F>(w: World<F>, tid: int, oldfd: int, newfd: int) returns (w': World<F>)
    requires tid >= 0 && w.holder == NOBODY && At(w, tid).Idle? && oldfd in w.table.files && oldfd != newfd
    ensures Leads(w, [BeginReplace(tid, oldfd, newfd), Raise(tid), Place(tid)], w')
    ensures Step(w.table, Event.Dup2(oldfd, newfd), w'.table) && w'.holder == NOBODY && At(w', tid).Idle?
  {
    var w1 := Do(w, BeginReplace(tid, oldfd, newfd));
    var w2 := Do(w1, Raise(tid));
    w' := Do(w2, Place(tid));
    OneStep(w2, Place(tid), [], w');
    OneStep(w1, Raise(tid), [Place(tid)], w');
    OneStep(w, BeginReplace(tid, oldfd, newfd), [Raise(tid), Place(tid)], w');
  }

  lemma SoloClose<F>(w: World<F>, tid: int, fd: int)
    requires tid >= 0 && w.holder == NOBODY && At(w, tid).Idle?
    ensures Enabled(w, Close(tid, fd)) && Step(w.table, Event.Remove(fd), Do(w, Close(tid, fd)).table)
  {
  }

  // ---------------------------------------------------------------- two of them from the start

  /** They continue a trace, and the files lock is held as it should be. */
  lemma {:induction false} LeadsFrom<F>(worlds: seq<World<F>>, before: seq<Action<F>>, actions: seq<Action<F>>, w': World<F>)
    returns (all: seq<World<F>>)
    requires Trace(worlds, before) && Exclusive(worlds[|before|]) && Leads(worlds[|before|], actions, w')
    ensures Trace(all, before + actions) && all[|before + actions|] == w' && Exclusive(w')
    decreases |actions|
  {
    hide Do, Enabled, Exclusive;
    if actions == [] {
      all := worlds;
      assert before + actions == before;
    } else {
      var w := worlds[|before|];
      var next := Do(w, actions[0]);
      StepExclusive(w, actions[0]);
      assert Trace(worlds + [next], before + [actions[0]]);
      all := LeadsFrom(worlds + [next], before + [actions[0]], actions[1..], w');
      assert before + [actions[0]] + actions[1..] == before + actions;
    }
  }

  lemma LeadsFromStart<F>(actions: seq<Action<F>>, w': World<F>) returns (worlds: seq<World<F>>)
    requires Leads(Start<F>(), actions, w')
    ensures Trace(worlds, actions) && worlds[|actions|] == w' && Exclusive(w')
  {
    StartSound<F>();
    var none: seq<Action<F>> := [];
    assert Trace([Start<F>()], none);
    worlds := LeadsFrom([Start<F>()], none, actions, w');
    assert none + actions == actions;
  }

  /** One file added from the start. */
  function OneFile<F>(f: F): World<F> {
    World(Table(map[FIRST_FD := f], FIRST_FD + 1, false), map[0 := Idle], NOBODY)
  }

  lemma OneFileAdded<F>(f: F)
    ensures Leads(Start<F>(), [BeginAdd(0, f), Draw(0), Test(0), Insert(0)], OneFile(f))
  {
    var w1 := Do(Start<F>(), BeginAdd(0, f));
    var w2 := Do(w1, Draw(0));
    var w3 := Do(w2, Test(0));
    assert Do(w3, Insert(0)).threads == OneFile(f).threads;
    assert Do(w3, Insert(0)).table.files == OneFile(f).table.files;
    OneStep(w3, Insert(0), [], OneFile(f));
    OneStep(w2, Test(0), [Insert(0)], OneFile(f));
    OneStep(w1, Draw(0), [Test(0), Insert(0)], OneFile(f));
    OneStep(Start<F>(), BeginAdd(0, f), [Draw(0), Test(0), Insert(0)], OneFile(f));
  }

  /** Nine steps from the start lead to a race of `dup2` with `add`. */
  lemma ReplaceRaceReached<F>(f: F, g: F) returns (worlds: seq<World<F>>, actions: seq<Action<F>>)
    ensures |actions| == 9 && Trace(worlds, actions)
    ensures var w := worlds[|actions|];
            && Exclusive(w) && At(w, 2).Replacing? && At(w, 2).raised
            && PendingAs(w, 1, At(w, 2).newfd, Numbered) && !At(w, 1).copy && At(w, 1).file == g
  {
    var first: seq<Action<F>> := [BeginAdd(0, f), Draw(0), Test(0), Insert(0)];
    var later: seq<Action<F>> := [BeginAdd(1, g), Draw(1), Test(1), BeginReplace(2, FIRST_FD, FIRST_FD + 1), Raise(2)];
    var w1 := Do(OneFile(f), BeginAdd(1, g));
    var w2 := Do(w1, Draw(1));
    var w3 := Do(w2, Test(1));
    var w4 := Do(w3, BeginReplace(2, FIRST_FD, FIRST_FD + 1));
    var w5 := Do(w4, Raise(2));
    OneStep(w4, Raise(2), [], w5);
    OneStep(w3, BeginReplace(2, FIRST_FD, FIRST_FD + 1), [Raise(2)], w5);
    OneStep(w2, Test(1), [BeginReplace(2, FIRST_FD, FIRST_FD + 1), Raise(2)], w5);
    OneStep(w1, Draw(1), [Test(1), BeginReplace(2, FIRST_FD, FIRST_FD + 1), Raise(2)], w5);
    OneStep(OneFile(f), BeginAdd(1, g), [Draw(1), Test(1), BeginReplace(2, FIRST_FD, FIRST_FD + 1), Raise(2)], w5);
    OneFileAdded(f);
    LeadsOn(Start<F>(), first, OneFile(f), later, w5);
    actions := first + later;
    worlds := LeadsFromStart(actions, w5);
  }

  /** Eight lead to the other one. */
  lemma LateFlagReached<F>(f: F, g: F, h: F) returns (worlds: seq<World<F>>, actions: seq<Action<F>>)
    ensures |actions| == 8 && Trace(worlds, actions)
    ensures var w := worlds[|actions|];
            && Exclusive(w) && At(w, 2).Replacing? && At(w, 2).above && !At(w, 2).raised
            && w.table.idx == At(w, 2).newfd < INT_MAX && !w.table.validating
            && At(w, 1) == Drawing(g, false, true)
  {
    var first: seq<Action<F>> := [BeginAdd(0, f), Draw(0), Test(0), Insert(0)];
    var later: seq<Action<F>> := [BeginAdd(1, g), BeginReplace(2, FIRST_FD, FIRST_FD + 2), BeginAdd(3, h), Draw(3)];
    var w1 := Do(OneFile(f), BeginAdd(1, g));
    var w2 := Do(w1, BeginReplace(2, FIRST_FD, FIRST_FD + 2));
    var w3 := Do(w2, BeginAdd(3, h));
    var w4 := Do(w3, Draw(3));
    OneStep(w3, Draw(3), [], w4);
    OneStep(w2, BeginAdd(3, h), [Draw(3)], w4);
    OneStep(w1, BeginReplace(2, FIRST_FD, FIRST_FD + 2), [BeginAdd(3, h), Draw(3)], w4);
    OneStep(OneFile(f), BeginAdd(1, g), [BeginReplace(2, FIRST_FD, FIRST_FD + 2), BeginAdd(3, h), Draw(3)], w4);
    OneFileAdded(f);
    LeadsOn(Start<F>(), first, OneFile(f), later, w4);
    actions := first + later;
    worlds := LeadsFromStart(actions, w4);
  }
}
