/** The descriptors the client library keeps for itself: a bitmap over the top of the descriptor
    range, relocation into it, and the protection of the application's range during start-up. */
module InternalFds {
  import opened Common
  import opened Intervals
  import opened OpenFiles

  const MAX_INTERNAL_FDS: nat := 256

  const EMFILE := 24

  /** Open descriptions are known by number; descriptors refer to them. */
  type Description = int

  // ---------------------------------------------------------------- the kernel's table, on values

  /** The lowest descriptor from `fd` on that is not in use, or the limit. */
  function LowestFree(table: map<int, Description>, fd: nat, limit: nat): (low: nat)
    requires fd <= limit
    ensures fd <= low <= limit
    ensures low < limit ==> low !in table
    ensures forall k :: fd <= k < low ==> k in table
    decreases limit - fd
  {
    if fd == limit || fd !in table then fd else LowestFree(table, fd + 1, limit)
  }

  lemma {:induction false} LowestIs(table: map<int, Description>, fd: nat, limit: nat, low: nat)
    requires fd <= low < limit && low !in table && forall k :: fd <= k < low ==> k in table
    ensures LowestFree(table, fd, limit) == low
    decreases limit - fd
  {
    if fd < low {
      LowestIs(table, fd + 1, limit, low);
    }
  }

  function Holders(table: map<int, Description>, d: Description): set<int> {
    set fd | fd in table && table[fd] == d
  }

  /** Moving a description from one descriptor to a free one keeps the collection of descriptions. */
  lemma MoveConserves(table: map<int, Description>, fd: int, to: int, d: Description)
    requires fd in table && to !in table
    ensures |Holders(table[to := table[fd]] - {fd}, d)| == |Holders(table, d)|
  {
    var moved := table[to := table[fd]] - {fd};
    if table[fd] == d {
      assert Holders(moved, d) == Holders(table, d) - {fd} + {to};
    } else {
      assert Holders(moved, d) == Holders(table, d);
    }
  }

  /** Moving it onto a descriptor in use loses one reference to what that referred to. */
  lemma MoveReplaces(table: map<int, Description>, fd: int, to: int)
    requires fd in table && to in table && fd != to
    ensures var d := table[to];
            |Holders(table[to := table[fd]] - {fd}, d)| == |Holders(table, d)| - 1
  {
    var d, moved := table[to], table[to := table[fd]] - {fd};
    if table[fd] == d {
      assert Holders(moved, d) == Holders(table, d) - {fd};
    } else {
      assert Holders(moved, d) == Holders(table, d) - {to};
    }
  }

  /** `dup2`, and the stricter `dup3`, succeed. */
  predicate CanDup2(table: map<int, Description>, limit: nat, oldfd: int, newfd: int, strict: bool) {
    oldfd in table && 0 <= newfd < limit && !(strict && oldfd == newfd)
  }

  class Kernel {
    const limit: nat
    var table: map<int, Description>

    constructor (limit: nat)
      ensures this.limit == limit && table == map[]
    {
      this.limit, table := limit, map[];
    }

    /** A new description on the lowest free descriptor. */
    method Open(d: Description) returns (fd: int)
      modifies this`table
      ensures var low := LowestFree(old(table), 0, limit);
              && fd == (if low < limit then low as int else -EMFILE)
              && table == if low < limit then old(table)[low := d] else old(table)
    {
      var low := 0;
      while low < limit && low in table
        invariant low <= limit
        invariant LowestFree(table, 0, limit) == LowestFree(table, low, limit)
      {
        low := low + 1;
      }
      if low == limit {
        return -EMFILE;
      }
      table := table[low := d];
      fd := low;
    }

    method Dup3(oldfd: int, newfd: int) returns (fd: int)
      modifies this`table
      ensures fd == (if oldfd == newfd then -EINVAL
                     else if oldfd !in old(table) || newfd < 0 || newfd >= limit then -EBADF else newfd)
      ensures table == if fd == newfd && fd >= 0 then old(table)[newfd := old(table)[oldfd]] else old(table)
    {
      if oldfd == newfd {
        return -EINVAL;
      }
      if oldfd !in table || newfd < 0 || newfd >= limit {
        return -EBADF;
      }
      table := table[newfd := table[oldfd]];
      fd := newfd;
    }

    method Dup2(oldfd: int, newfd: int) returns (fd: int)
      modifies this`table
      ensures fd == if CanDup2(old(table), limit, oldfd, newfd, false) then newfd else -EBADF
      ensures table == if fd == -EBADF then old(table) else old(table)[newfd := old(table)[oldfd]]
    {
      if oldfd !in table || newfd < 0 || newfd >= limit {
        return -EBADF;
      }
      table := table[newfd := table[oldfd]];
      fd := newfd;
    }

    /** `dup`, and `fcntl` with `F_DUPFD`: the lowest free descriptor from a given one on. */
    method DupFrom(oldfd: int, from: nat) returns (fd: int)
      modifies this`table
      ensures fd == if oldfd !in old(table) then -EBADF
                    else if from >= limit then -EINVAL
                    else var low := LowestFree(old(table), from, limit); if low < limit then low else -EMFILE
      ensures table == if fd < 0 then old(table) else old(table)[fd := old(table)[oldfd]]
    {
      if oldfd !in table {
        return -EBADF;
      }
      if from >= limit {
        return -EINVAL;
      }
      var low := from;
      while low < limit && low in table
        invariant from <= low <= limit
        invariant LowestFree(table, from, limit) == LowestFree(table, low, limit)
      {
        low := low + 1;
      }
      if low == limit {
        return -EMFILE;
      }
      table := table[low := table[oldfd]];
      fd := low;
    }

    method Close(fd: int) returns (error: int)
      modifies this`table
      ensures table == old(table) - {fd} && error == if fd in old(table) then 0 else EBADF
    {
      error := if fd in table then 0 else EBADF;
      table := table - {fd};
    }
  }

  // ---------------------------------------------------------------- the library's state, on values

  /** The kernel's table, the bitmap of free internal slots, whether registering relocates, the
      protected descriptors, and the descriptors the library owns with what they refer to. */
  datatype State = State(
    maxOpen: nat, table: map<int, Description>, free: seq<bool>, relocate: bool,
    protectedFds: set<int>, owned: map<int, Description>)

  function MinInternal(s: State): int {
    s.maxOpen - MAX_INTERNAL_FDS
  }

  predicate WellSized(s: State) {
    s.maxOpen >= MAX_INTERNAL_FDS && |s.free| == MAX_INTERNAL_FDS
  }

  /** The bitmap and the kernel agree: a bit is clear exactly for the descriptors the library owns,
      and each of them still refers to the description it was registered with. */
  predicate Agree(s: State) {
    && WellSized(s)
    && (forall i :: 0 <= i < |s.free| ==> (!s.free[i] <==> MinInternal(s) + i in s.owned))
    && (forall fd :: fd in s.owned ==> MinInternal(s) <= fd < s.maxOpen)
    && (forall fd :: fd in s.owned ==> fd in s.table && s.table[fd] == s.owned[fd])
  }

  /** `_Find_first`: the first bit set from some index on, or the size. */
  function FirstSet(free: seq<bool>, i: nat): (k: nat)
    requires i <= |free|
    ensures i <= k <= |free| && (k < |free| ==> free[k])
    ensures forall j :: i <= j < k ==> !free[j]
    decreases |free| - i
  {
    if i == |free| || free[i] then i else FirstSet(free, i + 1)
  }

  /** The internal slot a relocation goes to. */
  function Target(s: State): int
    requires WellSized(s)
  {
    MinInternal(s) + FirstSet(s.free, 0)
  }

  function Registered(s: State, fd: int): (State, Answer)
    requires WellSized(s) && fd in s.table
  {
    if !s.relocate then
      var pos := fd - MinInternal(s);
      if 0 <= pos < MAX_INTERNAL_FDS
      then (s.(free := s.free[pos := false], owned := s.owned[fd := s.table[fd]]), Returned(fd))
      else (s, Raised)
    else
      var pos := FirstSet(s.free, 0);
      var to := MinInternal(s) + pos;
      if pos == MAX_INTERNAL_FDS then (s, Raised)
      else if to == fd then (s.(free := s.free[pos := false], table := s.table - {fd}), Returned(-EINVAL))
      else (s.(free := s.free[pos := false], table := s.table[to := s.table[fd]] - {fd},
               owned := s.owned[to := s.table[fd]]), Returned(to))
  }

  /** The descriptor is not relocated, or it is neither the slot it would go to nor one the library
      owns already. */
  predicate RegistersSafely(s: State, fd: int)
    requires WellSized(s)
  {
    !s.relocate || FirstSet(s.free, 0) == MAX_INTERNAL_FDS || (Target(s) != fd && fd !in s.owned)
  }

  /** Registering keeps the agreement, except when it relocates a descriptor that already is the slot it
      would go to, or one that the library owns. In the first case `dup3` refuses, and in both the
      descriptor is closed while its bit stays clear with nothing behind it. */
  lemma RegisterAgrees(s: State, fd: int)
    requires Agree(s) && fd in s.table
    ensures Agree(Registered(s, fd).0) <==> RegistersSafely(s, fd)
  {
    var s' := Registered(s, fd).0;
    if s.relocate && FirstSet(s.free, 0) < MAX_INTERNAL_FDS {
      var pos := FirstSet(s.free, 0);
      assert Target(s) !in s.owned;
      if Target(s) == fd {
        assert !s'.free[pos] && MinInternal(s) + pos !in s'.owned;
      } else if fd in s.owned {
        assert fd in s'.owned && fd !in s'.table;
      }
    }
  }

  /** A descriptor the library owns and registers again, as its own `dup2` onto it does, loses its number
      to the kernel, while the bit still says that it is internal: whatever the application has there
      later, it cannot close. */
  lemma RegisteredTwice(s: State, fd: int, d: Description)
    requires Agree(s) && s.relocate && fd in s.owned && FirstSet(s.free, 0) < MAX_INTERNAL_FDS
    ensures fd in s.table && Target(s) != fd
    ensures var s' := Registered(s, fd).0;
            var later := s'.(table := s'.table[fd := d]);
            && fd !in s'.table && IsInternal(s', fd) == Returned(1) && !Agree(s')
            && HookClosed(later, {}, fd) == (later, Returned(0))
  {
    RegisterAgrees(s, fd);
  }

  /** What registering answers: the descriptor where it is in the internal range; the lowest slot whose
      bit is set when it relocates; the error of `dup3` when it already is that slot, and then it is
      closed all the same. It throws, and changes nothing, for a descriptor outside the internal range
      that is not relocated, and when no bit is set. */
  lemma RegisterAnswers(s: State, fd: int)
    requires WellSized(s) && fd in s.table
    ensures var (s', a) := Registered(s, fd);
            && (a == Raised <==> if s.relocate then forall i :: 0 <= i < MAX_INTERNAL_FDS ==> !s.free[i]
                                 else fd < MinInternal(s) || fd >= s.maxOpen)
            && (a == Raised ==> s' == s)
            && (!s.relocate && a != Raised ==> a == Returned(fd) && s'.table == s.table)
            && (s.relocate && a != Raised ==>
                  && MinInternal(s) <= Target(s) < s.maxOpen && s.free[Target(s) - MinInternal(s)]
                  && (forall i :: 0 <= i < Target(s) - MinInternal(s) ==> !s.free[i])
                  && a == Returned(if fd == Target(s) then -EINVAL else Target(s))
                  && fd !in s'.table)
            && (a.Returned? && a.value >= 0 ==>
                  a.value in s'.owned && a.value in s'.table && s'.table[a.value] == s.table[fd])
  {
  }

  /** Relocating a descriptor of the application's range moves its description to the lowest slot that
      is free in the bitmap, frees the old number and touches no third descriptor. It conserves the
      descriptions exactly when that slot is free in the kernel's table as well: otherwise what the
      application has there is replaced. */
  lemma RelocateMoves(s: State, fd: int)
    requires Agree(s) && s.relocate && fd in s.table && fd < MinInternal(s)
    requires FirstSet(s.free, 0) < MAX_INTERNAL_FDS
    ensures var (s', a) := Registered(s, fd);
            && a == Returned(Target(s)) && Target(s) in s'.owned
            && s'.table[Target(s)] == s.table[fd] && fd !in s'.table
            && (forall k :: k != fd && k != Target(s) ==>
                  (k in s'.table <==> k in s.table) && (k in s.table ==> s'.table[k] == s.table[k]))
            && (forall k :: MinInternal(s) <= k < Target(s) ==> k in s.owned)
            && ((forall d :: |Holders(s'.table, d)| == |Holders(s.table, d)|) <==> Target(s) !in s.table)
  {
    if Target(s) in s.table {
      MoveReplaces(s.table, fd, Target(s));
    }
    forall d | Target(s) !in s.table
      ensures |Holders(Registered(s, fd).0.table, d)| == |Holders(s.table, d)|
    {
      MoveConserves(s.table, fd, Target(s), d);
    }
    forall k | MinInternal(s) <= k < Target(s)
      ensures k in s.owned
    {
      assert !s.free[k - MinInternal(s)];
    }
  }

  /** When the application's range is full and the internal range holds nothing but owned
      descriptors, the kernel's next descriptor is exactly the slot that relocation would choose. */
  lemma FullRangeClashes(s: State, limit: nat)
    requires Agree(s) && limit >= s.maxOpen
    requires forall k :: 0 <= k < MinInternal(s) ==> k in s.table
    requires forall k :: MinInternal(s) <= k < s.maxOpen && k in s.table ==> k in s.owned
    requires FirstSet(s.free, 0) < MAX_INTERNAL_FDS
    ensures LowestFree(s.table, 0, limit) == Target(s)
  {
    var low, pos := LowestFree(s.table, 0, limit), FirstSet(s.free, 0);
    assert Target(s) !in s.table;
    forall k | MinInternal(s) <= k < Target(s)
      ensures k in s.table
    {
      assert !s.free[k - MinInternal(s)];
    }
  }

  // ---------------------------------------------------------------- closing, protecting and runs, on values

  /** `is_internal_fd`; the bitmap has no bit for descriptors past the end of the internal range. */
  function IsInternal(s: State, fd: int): Answer
    requires WellSized(s)
  {
    if fd < MinInternal(s) then Returned(0)
    else if fd - MinInternal(s) >= MAX_INTERNAL_FDS then Raised
    else Returned(if s.free[fd - MinInternal(s)] then 0 else 1)
  }

  /** `close` by the application: emulated files are the file map's, internal descriptors are
      left alone, and everything else goes to the kernel. */
  function HookClosed(s: State, emulated: set<int>, fd: int): (State, Answer)
    requires WellSized(s)
  {
    if fd in emulated then (s, Returned(0))
    else match IsInternal(s, fd)
    case Raised => (s, Raised)
    case Returned(internal) =>
      if internal == 1 then (s, Returned(0))
      else if fd in s.table then (s.(table := s.table - {fd}), Returned(0))
      else (s, Returned(-EBADF))
  }

  /** An application's close, of a descriptor that is not emulated and not past the internal range: the
      library's are left alone, and any other is gone from the kernel's table. */
  lemma CloseMeans(s: State, emulated: set<int>, fd: int)
    requires Agree(s) && fd !in emulated && fd < s.maxOpen
    ensures var (s', a) := HookClosed(s, emulated, fd);
            && s'.owned == s.owned
            && (fd in s.owned ==> s'.table == s.table && a == Returned(0))
            && (fd !in s.owned ==>
                  s'.table == s.table - {fd} && a == Returned(if fd in s.table then 0 else -EBADF))
  {
    if fd !in s.table {
      assert s.table - {fd} == s.table;
    }
    if fd >= MinInternal(s) {
      assert !s.free[fd - MinInternal(s)] <==> fd in s.owned;
    }
  }

  function Opened(s: State, limit: nat, d: Description): State {
    var low := LowestFree(s.table, 0, limit);
    if low < limit then s.(table := s.table[low := d]) else s
  }

  /** The descriptors of the application's range that are not in use. */
  function UserFree(table: map<int, Description>, n: int): set<int> {
    set k | k in Interval(0, n) && k !in table
  }

  /** The table with some descriptors made to refer to one description. */
  function Occupied(table: map<int, Description>, taken: set<int>, d: Description): map<int, Description> {
    table + (map k | k in taken :: d)
  }

  lemma OccupyOne(table: map<int, Description>, taken: set<int>, d: Description, fd: int)
    ensures Occupied(table, taken, d)[fd := d] == Occupied(table, taken + {fd}, d)
    ensures Occupied(table, {}, d) == table
    ensures fd !in taken ==> (fd in Occupied(table, taken, d) <==> fd in table)
    ensures forall k :: k in table && k !in taken ==> k in Occupied(table, taken, d) && Occupied(table, taken, d)[k] == table[k]
  {
  }

  function Protected(s: State, limit: nat, nullDevice: Description): State {
    var s1 := Opened(s, limit, nullDevice);
    var taken := UserFree(s1.table, MinInternal(s));
    s1.(table := Occupied(s1.table, taken, nullDevice), protectedFds := s1.protectedFds + taken, relocate := false)
  }

  function Unprotected(s: State): State {
    s.(table := s.table - s.protectedFds, relocate := true)
  }

  /** `unregister_internal_fd`; a descriptor outside the internal range has no bit. */
  function Unregistered(s: State, fd: int): (State, Answer)
    requires WellSized(s)
  {
    var pos := fd - MinInternal(s);
    if 0 <= pos < MAX_INTERNAL_FDS then (s.(free := s.free[pos := true], owned := s.owned - {fd}), Returned(0))
    else (s, Raised)
  }

  /** The kernel makes a descriptor refer to a description. */
  function Placed(s: State, fd: int, d: Description): State {
    s.(table := s.table[fd := d])
  }

  /** What the application and the library do to the descriptors. */
  datatype Event =
    | InternalOpen(d: Description)
    | InternalDup(oldfd: int, from: nat)
    | InternalDup2(oldfd: int, newfd: int, strict: bool)
    | InternalRegister(fd: int)   // a descriptor the kernel has made otherwise, as in a pipe or a message
    | InternalClose(fd: int)
    | AppOpen(d: Description)
    | AppClose(emulated: set<int>, fd: int)
    | AppDup2(oldfd: int, newfd: int)
    | Protect(nullDevice: Description)
    | Unprotect

  function Effect(s: State, limit: nat, e: Event): State
    requires WellSized(s)
  {
    match e
    case InternalOpen(d) =>
      var low := LowestFree(s.table, 0, limit);
      if low < limit then Registered(Opened(s, limit, d), low).0 else s
    case InternalDup(oldfd, from) =>
      if oldfd !in s.table || from >= limit then s else
        var low := LowestFree(s.table, from, limit);
        if low < limit then Registered(Placed(s, low, s.table[oldfd]), low).0 else s
    case InternalDup2(oldfd, newfd, strict) =>
      if CanDup2(s.table, limit, oldfd, newfd, strict) then Registered(Placed(s, newfd, s.table[oldfd]), newfd).0 else s
    case InternalRegister(fd) => if fd in s.table then Registered(s, fd).0 else s
    case InternalClose(fd) =>
      if fd in s.table then Unregistered(s.(table := s.table - {fd}), fd).0 else s
    case AppOpen(d) => Opened(s, limit, d)
    case AppClose(emulated, fd) => HookClosed(s, emulated, fd).0
    case AppDup2(oldfd, newfd) =>
      if oldfd in s.table && oldfd != newfd && 0 <= newfd < limit then s.(table := s.table[newfd := s.table[oldfd]]) else s
    case Protect(nullDevice) => Protected(s, limit, nullDevice)
    case Unprotect => Unprotected(s)
  }

  /** None of the things that break the agreement: relocating a descriptor onto itself, relocating one
      the library owns, and duplicating something else onto an owned descriptor without registering it. */
  predicate Careful(s: State, limit: nat, e: Event)
    requires WellSized(s)
  {
    match e
    case InternalOpen(_) =>
      var low := LowestFree(s.table, 0, limit);
      low < limit ==> RegistersSafely(s, low)
    case InternalDup(oldfd, from) =>
      oldfd in s.table && from < limit ==>
        var low := LowestFree(s.table, from, limit);
        low < limit ==> RegistersSafely(s, low)
    case InternalDup2(oldfd, newfd, strict) =>
      CanDup2(s.table, limit, oldfd, newfd, strict) ==>
        && RegistersSafely(s, newfd)
        && (s.relocate && newfd in s.owned ==> s.table[oldfd] == s.owned[newfd])
    case InternalRegister(fd) => fd in s.table ==> RegistersSafely(s, fd)
    case AppDup2(oldfd, newfd) =>
      oldfd in s.table && newfd in s.owned ==> s.table[oldfd] == s.owned[newfd]
    case _ => true
  }

  predicate InOrder(s: State, limit: nat) {
    limit >= s.maxOpen && forall fd :: fd in s.protectedFds ==> 0 <= fd < MinInternal(s)
  }

  lemma EffectInOrder(s: State, limit: nat, e: Event)
    requires WellSized(s) && InOrder(s, limit)
    ensures WellSized(Effect(s, limit, e)) && InOrder(Effect(s, limit, e), limit)
  {
  }

  /** Each event keeps the agreement exactly when it is careful. */
  lemma EffectAgrees(s: State, limit: nat, e: Event)
    requires Agree(s) && InOrder(s, limit)
    ensures Agree(Effect(s, limit, e)) <==> Careful(s, limit, e)
  {
    hide Registered, RegistersSafely, LowestFree;
    match e
    case InternalOpen(d) =>
      NewAgrees(s, limit, 0, d);
      var low := LowestFree(s.table, 0, limit);
      assert Opened(s, limit, d) == if low < limit then Placed(s, low, d) else s;
    case InternalDup(oldfd, from) =>
      if oldfd in s.table && from < limit {
        NewAgrees(s, limit, from, s.table[oldfd]);
      }
    case InternalDup2(oldfd, newfd, strict) => InternalDup2Agrees(s, limit, oldfd, newfd, strict);
    case InternalRegister(fd) =>
      if fd in s.table {
        RegisterAgrees(s, fd);
      }
    case InternalClose(fd) => CloseAgrees(s, limit, fd);
    case AppOpen(d) =>
    case AppClose(emulated, fd) =>
    case AppDup2(oldfd, newfd) => Dup2Agrees(s, limit, oldfd, newfd);
    case Protect(nullDevice) => ProtectAgrees(s, limit, nullDevice);
    case Unprotect =>
  }

  /** Making a new descriptor and registering it. */
  lemma NewAgrees(s: State, limit: nat, from: nat, d: Description)
    requires Agree(s) && from <= limit
    ensures var low := LowestFree(s.table, from, limit);
            low < limit ==> (Agree(Registered(Placed(s, low, d), low).0) <==> RegistersSafely(s, low))
  {
    var low := LowestFree(s.table, from, limit);
    if low < limit {
      RegisterAgrees(Placed(s, low, d), low);
    }
  }

  lemma InternalDup2Agrees(s: State, limit: nat, oldfd: int, newfd: int, strict: bool)
    requires Agree(s) && InOrder(s, limit)
    ensures var e := InternalDup2(oldfd, newfd, strict); Agree(Effect(s, limit, e)) <==> Careful(s, limit, e)
  {
    if CanDup2(s.table, limit, oldfd, newfd, strict) {
      var d := s.table[oldfd];
      var t := Placed(s, newfd, d);
      var s' := Registered(t, newfd).0;
      if newfd !in s.owned || s.owned[newfd] == d {
        RegisterAgrees(t, newfd);
      } else if !s.relocate {
        assert newfd - MinInternal(s) >= 0 && !s.free[newfd - MinInternal(s)];
      } else {
        assert newfd in s'.owned && s'.owned[newfd] == s.owned[newfd];
      }
    }
  }

  lemma CloseAgrees(s: State, limit: nat, fd: int)
    requires Agree(s)
    ensures Agree(Effect(s, limit, InternalClose(fd)))
  {
  }

  lemma Dup2Agrees(s: State, limit: nat, oldfd: int, newfd: int)
    requires Agree(s) && InOrder(s, limit)
    ensures Agree(Effect(s, limit, AppDup2(oldfd, newfd))) <==> Careful(s, limit, AppDup2(oldfd, newfd))
  {
  }

  lemma ProtectAgrees(s: State, limit: nat, nullDevice: Description)
    requires Agree(s)
    ensures Agree(Protected(s, limit, nullDevice))
  {
  }

  ghost predicate Run(states: seq<State>, events: seq<Event>, limit: nat) {
    && |states| == |events| + 1
    && WellSized(states[0]) && InOrder(states[0], limit) && states[0].owned == map[]
    && (forall i :: 0 <= i < |states[0].free| ==> states[0].free[i])
    && forall i :: 0 <= i < |events| ==>
         WellSized(states[i]) && Careful(states[i], limit, events[i]) && states[i + 1] == Effect(states[i], limit, events[i])
  }

  /** In every reachable state the bitmap agrees with the kernel, so that whatever the application
      closes, a descriptor of the library refers to what it was registered with until it is closed
      by the library itself. */
  lemma {:induction false} AlwaysAgree(states: seq<State>, events: seq<Event>, limit: nat)
    requires Run(states, events, limit)
    ensures Agree(states[|events|]) && InOrder(states[|events|], limit)
    decreases |events|
  {
    if events != [] {
      var n := |events| - 1;
      AlwaysAgree(states[..|events|], events[..n], limit);
      EffectInOrder(states[n], limit, events[n]);
      EffectAgrees(states[n], limit, events[n]);
    }
  }

  /** The library closes the descriptor, or puts something else there. */
  predicate GivesUp(e: Event, fd: int) {
    e == InternalClose(fd) || (e.InternalDup2? && e.newfd == fd)
  }

  lemma OwnedKept(s: State, limit: nat, e: Event, fd: int)
    requires Agree(s) && fd in s.owned && !GivesUp(e, fd)
    ensures var s' := Effect(s, limit, e); fd in s'.owned && s'.owned[fd] == s.owned[fd]
  {
  }

  /** From when the library has registered a descriptor until it closes or replaces it itself, the
      kernel's table has the same description there, whatever else happens in between. */
  lemma {:induction false} LibraryKeeps(states: seq<State>, events: seq<Event>, limit: nat, i: nat, fd: int)
    requires Run(states, events, limit) && i <= |events|
    requires fd in states[i].owned
    requires forall k :: i <= k < |events| ==> !GivesUp(events[k], fd)
    ensures fd in states[i].table && fd in states[|events|].table
    ensures states[|events|].table[fd] == states[i].table[fd]
    ensures fd in states[|events|].owned && states[|events|].owned[fd] == states[i].owned[fd]
    decreases |events|
  {
    hide Effect, Careful, Agree, GivesUp;
    AlwaysAgree(states, events, limit);
    AgreeAt(states[|events|]);
    if i < |events| {
      var n := |events| - 1;
      RunInit(states, events, limit);
      LibraryKeeps(states[..|events|], events[..n], limit, i, fd);
      AlwaysAgree(states[..|events|], events[..n], limit);
      OwnedKept(states[n], limit, events[n], fd);
      AgreeAt(states[n]);
    }
  }

  lemma AgreeAt(s: State)
    requires Agree(s)
    ensures WellSized(s) && forall fd :: fd in s.owned ==> fd in s.table && s.table[fd] == s.owned[fd]
  {
  }

  lemma RunInit(states: seq<State>, events: seq<Event>, limit: nat)
    requires Run(states, events, limit) && events != []
    ensures Run(states[..|events|], events[..|events| - 1], limit)
    ensures var n := |events| - 1;
            && WellSized(states[n]) && Careful(states[n], limit, events[n])
            && states[|events|] == Effect(states[n], limit, events[n])
  {
  }

  /** An application that puts a descriptor of its own on the slot that is next in the bitmap, loses it
      to the library's next descriptor: no event is careless, and the agreement holds at the end. */
  lemma ApplicationLosesSlot(s: State, limit: nat, oldfd: int, d: Description)
    requires Agree(s) && InOrder(s, limit) && s.relocate && FirstSet(s.free, 0) < MAX_INTERNAL_FDS
    requires oldfd in s.table && oldfd != Target(s)
    requires LowestFree(s.table, 0, limit) < MinInternal(s)
    ensures var dup, open := AppDup2(oldfd, Target(s)), InternalOpen(d);
            var s1 := Effect(s, limit, dup);
            var s2 := Effect(s1, limit, open);
            && Careful(s, limit, dup) && Careful(s1, limit, open) && Agree(s2)
            && Target(s) in s1.table && s1.table[Target(s)] == s.table[oldfd]
            && Target(s) in s2.table && s2.table[Target(s)] == d
  {
    var dup := AppDup2(oldfd, Target(s));
    var s1, low := Effect(s, limit, dup), LowestFree(s.table, 0, limit);
    EffectAgrees(s, limit, dup);
    EffectInOrder(s, limit, dup);
    LowestIs(s1.table, 0, limit, low);
    EffectAgrees(s1, limit, InternalOpen(d));
  }

  /** `close` throws exactly for a descriptor past the table's size that the file map does not know. */
  lemma CloseThrows(s: State, emulated: set<int>, fd: int)
    requires WellSized(s)
    ensures HookClosed(s, emulated, fd).1 == Raised <==> fd !in emulated && fd >= s.maxOpen
  {
  }

  // ---------------------------------------------------------------- protection

  lemma ProtectedIsFull(s: State, limit: nat, nullDevice: Description)
    requires WellSized(s) && limit >= s.maxOpen
    ensures var p := Protected(s, limit, nullDevice);
            && (forall k :: 0 <= k < MinInternal(s) ==> k in p.table)
            && LowestFree(p.table, 0, limit) >= MinInternal(s)
  {
  }

  /** The table restricted to the application's range. */
  function UserRange(table: map<int, Description>, n: int): map<int, Description> {
    map k | k in table && 0 <= k < n :: table[k]
  }

  /** After start-up, if nothing else touched the application's range, it is as before, with the
      descriptor of the null device that is never closed, and without what an earlier protection
      had marked, since its marks are never cleared. */
  lemma ProtectionRestores(s: State, limit: nat, nullDevice: Description, later: State)
    requires WellSized(s) && InOrder(s, limit)
    requires var p := Protected(s, limit, nullDevice);
             later.protectedFds == p.protectedFds && UserRange(later.table, MinInternal(s)) == UserRange(p.table, MinInternal(s))
    ensures UserRange(Unprotected(later).table, MinInternal(s)) ==
            UserRange(Opened(s, limit, nullDevice).table, MinInternal(s)) - s.protectedFds
    ensures s.protectedFds == {} ==>
              UserRange(Unprotected(later).table, MinInternal(s)) ==
              UserRange(Opened(s, limit, nullDevice).table, MinInternal(s))
  {
    var n, p, u := MinInternal(s), Protected(s, limit, nullDevice), Opened(s, limit, nullDevice);
    var taken := UserFree(u.table, n);
    var x, y := UserRange(Unprotected(later).table, n), UserRange(u.table, n) - s.protectedFds;
    forall k
      ensures k in x <==> k in y
      ensures k in x ==> x[k] == y[k]
    {
      assert k in UserRange(later.table, n) <==> k in UserRange(p.table, n);
      assert k in UserRange(later.table, n) ==> UserRange(later.table, n)[k] == UserRange(p.table, n)[k];
    }
  }

  /** The application keeps all its descriptors exactly when none of them carries a mark of an
      earlier protection. */
  lemma NothingLost(s: State, limit: nat, nullDevice: Description)
    requires WellSized(s) && InOrder(s, limit)
    ensures var u := Unprotected(Protected(s, limit, nullDevice));
            (forall k :: 0 <= k < MinInternal(s) && k in s.table ==> k in u.table && u.table[k] == s.table[k]) <==>
            (forall k :: k in s.protectedFds ==> k !in s.table)
  {
  }

  /** An event that neither protects nor unprotects, and closes or replaces nothing in the
      application's range. */
  predicate SparesUser(s: State, e: Event) {
    match e
    case InternalDup2(_, newfd, _) => newfd >= MinInternal(s)
    case InternalClose(fd) => fd >= MinInternal(s)
    case AppClose(_, fd) => fd >= MinInternal(s)
    case AppDup2(_, newfd) => newfd >= MinInternal(s)
    case Protect(_) => false
    case Unprotect => false
    case _ => true
  }

  lemma {:induction false} NothingMarked(states: seq<State>, events: seq<Event>, limit: nat)
    requires Run(states, events, limit) && states[0].protectedFds == {}
    requires forall k :: 0 <= k < |events| ==> !events[k].Protect?
    ensures states[|events|].protectedFds == {}
    decreases |events|
  {
    hide WellSized, Careful, InOrder;
    if events != [] {
      var n := |events| - 1;
      RunInit(states, events, limit);
      NothingMarked(states[..|events|], events[..n], limit);
    }
  }

  /** While the application's range is full, such an event leaves it and the marks alone. */
  lemma SparesStep(s: State, limit: nat, e: Event)
    requires WellSized(s) && InOrder(s, limit) && SparesUser(s, e) && !s.relocate
    requires forall k :: 0 <= k < MinInternal(s) ==> k in s.table
    ensures var s' := Effect(s, limit, e);
            && s'.maxOpen == s.maxOpen && !s'.relocate && s'.protectedFds == s.protectedFds
            && UserRange(s'.table, MinInternal(s)) == UserRange(s.table, MinInternal(s))
            && forall k :: 0 <= k < MinInternal(s) ==> k in s'.table
  {
  }

  /** The i-th event protects the application's range, and until the end nothing interferes with it. */
  ghost predicate StaysProtected(states: seq<State>, events: seq<Event>, limit: nat, i: nat) {
    && Run(states, events, limit) && i < |events| && events[i].Protect?
    && forall k :: i < k < |events| ==> SparesUser(states[k], events[k])
  }

  lemma {:induction false} ProtectionKeeps(states: seq<State>, events: seq<Event>, limit: nat, i: nat)
    requires StaysProtected(states, events, limit, i)
    ensures var s, t := states[i], states[|events|];
            var p := Protected(s, limit, events[i].nullDevice);
            && t.maxOpen == s.maxOpen && !t.relocate && t.protectedFds == p.protectedFds
            && UserRange(t.table, MinInternal(s)) == UserRange(p.table, MinInternal(s))
            && forall k :: 0 <= k < MinInternal(s) ==> k in t.table
    decreases |events|
  {
    hide Careful, UserRange, UserFree, Occupied, Registered, Agree, SparesUser;
    var n := |events| - 1;
    RunInit(states, events, limit);
    AlwaysAgree(states[..|events|], events[..n], limit);
    if i == n {
      ProtectedIsFull(states[n], limit, events[n].nullDevice);
    } else {
      ProtectionKeeps(states[..|events|], events[..n], limit, i);
      SparesStep(states[n], limit, events[n]);
    }
  }

  /** While the application's range stays protected, the kernel hands out no descriptor in it, as
      registering without relocation requires. What it hands out can only be registered while the
      internal range has room: past its end the bitmap has no bit, and registering throws. */
  lemma ProtectedServesInternal(states: seq<State>, events: seq<Event>, limit: nat, i: nat, d: Description)
    requires StaysProtected(states, events, limit, i)
    ensures var s := states[|events|];
            var low := LowestFree(s.table, 0, limit);
            && WellSized(s) && low >= MinInternal(s)
            && (low < limit ==>
                  (Registered(Opened(s, limit, d), low).1 == Raised <==> forall k :: 0 <= k < s.maxOpen ==> k in s.table))
  {
    hide Careful, SparesUser, Protected, UserRange, Effect, Agree;
    ProtectionKeeps(states, events, limit, i);
    AlwaysAgree(states, events, limit);
    AgreeAt(states[|events|]);
  }

  /** In every run that protects once, and where nothing interferes before the protection ends, the
      application's range is afterwards what it was, with the descriptor of the null device that is
      never closed. */
  lemma StartUpRestores(states: seq<State>, events: seq<Event>, limit: nat, i: nat)
    requires Run(states, events, limit) && states[0].protectedFds == {}
    requires i < |events| - 1 && events[i].Protect? && events[|events| - 1] == Unprotect
    requires forall k :: 0 <= k < i ==> !events[k].Protect?
    requires forall k :: i < k < |events| - 1 ==> SparesUser(states[k], events[k])
    ensures var s, t := states[i], states[|events|];
            var before, low := UserRange(s.table, MinInternal(s)), LowestFree(s.table, 0, limit);
            UserRange(t.table, MinInternal(s)) ==
            if low < limit && low < MinInternal(s) then before[low := events[i].nullDevice] else before
  {
    hide Careful, UserRange, UserFree, Occupied, Registered, Opened, Agree, Protected, SparesUser;
    var n := |events| - 1;
    RunInit(states, events, limit);
    ProtectionKeeps(states[..|events|], events[..n], limit, i);
    RunPrefix(states, events, limit, i);
    NothingMarked(states[..i + 1], events[..i], limit);
    AlwaysAgree(states[..i + 1], events[..i], limit);
    ProtectionRestores(states[i], limit, events[i].nullDevice, states[n]);
    OpenedRange(states[i], limit, events[i].nullDevice);
  }

  lemma OpenedRange(s: State, limit: nat, d: Description)
    ensures var before, low := UserRange(s.table, MinInternal(s)), LowestFree(s.table, 0, limit);
            UserRange(Opened(s, limit, d).table, MinInternal(s)) ==
            if low < limit && low < MinInternal(s) then before[low := d] else before
  {
  }

  /** Once the protection has ended, what the library opens is moved out of the application's range. */
  lemma RelocatesAfterwards(states: seq<State>, events: seq<Event>, limit: nat, d: Description)
    requires Run(states, events, limit) && events != [] && events[|events| - 1] == Unprotect
    ensures var s := states[|events|];
            var low := LowestFree(s.table, 0, limit);
            && WellSized(s)
            && (low < limit && low < MinInternal(s) && FirstSet(s.free, 0) < MAX_INTERNAL_FDS ==>
                  var (s', a) := Registered(Opened(s, limit, d), low);
                  && s' == Effect(s, limit, InternalOpen(d)) && a == Returned(Target(s))
                  && Target(s) in s'.table && s'.table[Target(s)] == d
                  && UserRange(s'.table, MinInternal(s)) == UserRange(s.table, MinInternal(s)))
  {
    hide Careful, UserRange, Agree;
    var s := states[|events|];
    RunInit(states, events, limit);
    AlwaysAgree(states, events, limit);
    AgreeAt(s);
    var low := LowestFree(s.table, 0, limit);
    if low < limit && low < MinInternal(s) && FirstSet(s.free, 0) < MAX_INTERNAL_FDS {
      SameUserRange(s.table, low, Target(s), d, MinInternal(s));
    }
  }

  lemma SameUserRange(table: map<int, Description>, low: int, to: int, d: Description, n: int)
    requires low !in table && to >= n && low != to
    ensures UserRange(table[low := d][to := d] - {low}, n) == UserRange(table, n)
  {
  }

  lemma RunPrefix(states: seq<State>, events: seq<Event>, limit: nat, i: nat)
    requires Run(states, events, limit) && i <= |events|
    ensures Run(states[..i + 1], events[..i], limit)
  {
  }

  // ---------------------------------------------------------------- the library's state, as the client has it

  class PreloadFds {
    const maxOpen: nat
    const kernel: Kernel
    const fileMap: OpenFileMap
    var internalFds: seq<bool>
    var mustRelocate: bool
    var protectedFds: seq<bool>
    ghost var owned: map<int, Description>

    ghost predicate Valid()
      reads this, kernel
    {
      && MAX_INTERNAL_FDS <= maxOpen <= kernel.limit
      && |internalFds| == MAX_INTERNAL_FDS && |protectedFds| == maxOpen - MAX_INTERNAL_FDS
    }

    ghost function StateOf(): State
      reads this, kernel
    {
      State(maxOpen, kernel.table, internalFds, mustRelocate, MarkedFds(protectedFds), owned)
    }

    constructor (maxOpen: nat, kernel: Kernel, fileMap: OpenFileMap)
      requires MAX_INTERNAL_FDS <= maxOpen <= kernel.limit
      ensures Valid() && this.maxOpen == maxOpen && this.kernel == kernel && this.fileMap == fileMap
      ensures mustRelocate && owned == map[] && forall i :: 0 <= i < MAX_INTERNAL_FDS ==> internalFds[i]
      ensures MarkedFds(protectedFds) == {}
    {
      this.maxOpen, this.kernel, this.fileMap := maxOpen, kernel, fileMap;
      internalFds := seq(MAX_INTERNAL_FDS, _ => true);
      protectedFds := seq(maxOpen - MAX_INTERNAL_FDS, _ => false);
      mustRelocate, owned := true, map[];
    }

    method FindFirst() returns (pos: nat)
      ensures pos == FirstSet(internalFds, 0)
    {
      pos := 0;
      while pos < |internalFds| && !internalFds[pos]
        invariant pos <= |internalFds| && FirstSet(internalFds, 0) == FirstSet(internalFds, pos)
      {
        pos := pos + 1;
      }
    }

    method RegisterInternalFd(fd: int) returns (a: Answer)
      requires Valid() && fd in kernel.table
      modifies this`internalFds, this`owned, kernel`table
      ensures Valid() && (StateOf(), a) == Registered(old(StateOf()), fd)
    {
      var min := maxOpen - MAX_INTERNAL_FDS;
      if !mustRelocate {
        if fd < min || fd - min >= MAX_INTERNAL_FDS {
          return Raised;
        }
        internalFds := internalFds[fd - min := false];
        owned := owned[fd := kernel.table[fd]];
        return Returned(fd);
      }
      var pos := FindFirst();
      if pos == |internalFds| {
        return Raised;
      }
      internalFds := internalFds[pos := false];
      ghost var d := kernel.table[fd];
      var ifd := kernel.Dup3(fd, pos + min);
      var _ := kernel.Close(fd);
      if ifd >= 0 {
        owned := owned[ifd := d];
      }
      a := Returned(ifd);
    }

    method UnregisterInternalFd(fd: int) returns (a: Answer)
      requires Valid()
      modifies this`internalFds, this`owned
      ensures Valid() && (StateOf(), a) == Unregistered(old(StateOf()), fd)
    {
      var pos := fd - (maxOpen - MAX_INTERNAL_FDS);
      if pos < 0 || pos >= MAX_INTERNAL_FDS {
        return Raised;
      }
      internalFds := internalFds[pos := true];
      owned := owned - {fd};
      a := Returned(0);
    }

    /** A system call of the library itself that opens a descriptor: the kernel's, then registered. */
    method InternalOpenCall(d: Description) returns (a: Answer)
      requires Valid()
      modifies this`internalFds, this`owned, kernel`table
      ensures Valid() && StateOf() == Effect(old(StateOf()), kernel.limit, InternalOpen(d))
      ensures a.Returned? && a.value >= 0 ==> a.value in owned && a.value in kernel.table && kernel.table[a.value] == d
      ensures a == var low := LowestFree(old(kernel.table), 0, kernel.limit);
                   if low < kernel.limit then Registered(Opened(old(StateOf()), kernel.limit, d), low).1 else Returned(-EMFILE)
    {
      var fd := kernel.Open(d);
      if fd < 0 {
        return Returned(fd);
      }
      a := RegisterInternalFd(fd);
    }

    /** Its `dup2`, and strictly its `dup3`. */
    method InternalDup2Call(oldfd: int, newfd: int, strict: bool) returns (a: Answer)
      requires Valid()
      modifies this`internalFds, this`owned, kernel`table
      ensures Valid() && StateOf() == Effect(old(StateOf()), kernel.limit, InternalDup2(oldfd, newfd, strict))
      ensures a.Returned? && a.value >= 0 ==>
                && a.value in owned && oldfd in old(kernel.table)
                && a.value in kernel.table && kernel.table[a.value] == old(kernel.table)[oldfd]
      ensures a == if !CanDup2(old(kernel.table), kernel.limit, oldfd, newfd, strict)
                   then Returned(if strict && oldfd == newfd then -EINVAL else -EBADF)
                   else Registered(Placed(old(StateOf()), newfd, old(kernel.table)[oldfd]), newfd).1
      ensures strict && oldfd == newfd ==> a == Returned(-EINVAL) && kernel.table == old(kernel.table)
      ensures !(strict && oldfd == newfd) && (oldfd !in old(kernel.table) || newfd < 0 || newfd >= kernel.limit) ==>
                a == Returned(-EBADF) && kernel.table == old(kernel.table)
    {
      hide Registered;
      ghost var s, before := StateOf(), kernel.table;
      var fd;
      if strict {
        fd := kernel.Dup3(oldfd, newfd);
      } else {
        fd := kernel.Dup2(oldfd, newfd);
      }
      if fd < 0 {
        assert kernel.table == before;
        return Returned(fd);
      }
      RegisterAnswers(Placed(s, newfd, before[oldfd]), newfd);
      a := RegisterInternalFd(fd);
    }

    /** Its `dup`, and its `fcntl` with `F_DUPFD`. */
    method InternalDupCall(oldfd: int, from: nat) returns (a: Answer)
      requires Valid()
      modifies this`internalFds, this`owned, kernel`table
      ensures Valid() && StateOf() == Effect(old(StateOf()), kernel.limit, InternalDup(oldfd, from))
      ensures a.Returned? && a.value >= 0 ==>
                && a.value in owned && oldfd in old(kernel.table)
                && a.value in kernel.table && kernel.table[a.value] == old(kernel.table)[oldfd]
      ensures a == var table, limit := old(kernel.table), kernel.limit;
                   if oldfd !in table then Returned(-EBADF)
                   else if from >= limit then Returned(-EINVAL)
                   else
                     var low := LowestFree(table, from, limit);
                     if low < limit then Registered(Placed(old(StateOf()), low, table[oldfd]), low).1 else Returned(-EMFILE)
    {
      hide Registered;
      ghost var s, before := StateOf(), kernel.table;
      var fd := kernel.DupFrom(oldfd, from);
      if fd < 0 {
        return Returned(fd);
      }
      RegisterAnswers(Placed(s, fd, before[oldfd]), fd);
      a := RegisterInternalFd(fd);
    }

    /** The library closes a descriptor: the kernel's, then unregistered, which throws for one that is
        not internal after the kernel has closed it. */
    method InternalCloseCall(fd: int) returns (a: Answer)
      requires Valid()
      modifies this`internalFds, this`owned, kernel`table
      ensures Valid() && StateOf() == Effect(old(StateOf()), kernel.limit, InternalClose(fd))
      ensures a == if fd !in old(kernel.table) then Returned(-EBADF)
                   else if maxOpen - MAX_INTERNAL_FDS <= fd < maxOpen then Returned(0) else Raised
    {
      ghost var before := kernel.table;
      var error := kernel.Close(fd);
      if error != 0 {
        assert kernel.table == before;
        return Returned(0 - error);
      }
      a := UnregisterInternalFd(fd);
    }

    method IsInternalFd(fd: int) returns (a: Answer)
      requires Valid()
      ensures a == IsInternal(StateOf(), fd)
    {
      if fd < maxOpen - MAX_INTERNAL_FDS {
        return Returned(0);
      }
      var pos := fd - (maxOpen - MAX_INTERNAL_FDS);
      if pos >= MAX_INTERNAL_FDS {
        return Raised;
      }
      a := Returned(if internalFds[pos] then 0 else 1);
    }

    /** `close` by the application: the file map's, or ignored, or the kernel's. */
    method HookClose(fd: int) returns (a: Answer)
      requires Valid()
      modifies kernel`table, fileMap`files, fileMap`fdValidationNeeded
      ensures Valid() && (StateOf(), a) == HookClosed(old(StateOf()), old(fileMap.files).Keys, fd)
      ensures fd in old(fileMap.files) ==> a == Returned(0) && kernel.table == old(kernel.table)
      ensures old(Agree(StateOf())) && fd !in old(fileMap.files) && fd < maxOpen ==>
                if fd in owned then a == Returned(0) && kernel.table == old(kernel.table)
                else a == Returned(if fd in old(kernel.table) then 0 else -EBADF) && kernel.table == old(kernel.table) - {fd}
      ensures fileMap.State() == Removed(old(fileMap.State()), fd)
    {
      var live := fileMap.Exist(fd);
      if live {
        var _ := fileMap.Remove(fd);
        return Returned(0);
      }
      var internal := IsInternalFd(fd);
      if internal == Raised {
        return Raised;
      }
      if internal == Returned(1) {
        return Returned(0);
      }
      var error: int := kernel.Close(fd);
      assert fd !in old(kernel.table) ==> kernel.table == old(kernel.table);
      a := Returned(0 - error);
    }

    method ProtectUserFds(nullDevice: Description)
      requires Valid()
      modifies this`protectedFds, this`mustRelocate, kernel`table
      ensures Valid() && StateOf() == Protected(old(StateOf()), kernel.limit, nullDevice)
      ensures !mustRelocate && forall k :: 0 <= k < maxOpen - MAX_INTERNAL_FDS ==> k in kernel.table
    {
      hide Occupied, UserFree, MarkedFds;
      ghost var s := StateOf();
      var n := maxOpen - MAX_INTERNAL_FDS;
      var nullfd := kernel.Open(nullDevice);
      ghost var withNull := kernel.table;
      ghost var taken: set<int> := {};
      OccupyOne(withNull, taken, nullDevice, 0);
      NothingFree(withNull);
      for fd := 0 to n
        invariant Valid() && n == |protectedFds|
        invariant taken == UserFree(withNull, fd)
        invariant kernel.table == Occupied(withNull, taken, nullDevice)
        invariant MarkedFds(protectedFds) == MarkedFds(old(protectedFds)) + taken
        invariant internalFds == old(internalFds) && owned == old(owned) && mustRelocate == old(mustRelocate)
      {
        NextFree(withNull, fd);
        OccupyOne(withNull, taken, nullDevice, fd);
        if fd !in kernel.table {
          assert nullfd in withNull && withNull[nullfd] == nullDevice;
          var dup := kernel.Dup3(nullfd, fd);
          assert dup == fd;
          MarkOne(protectedFds, fd);
          protectedFds := protectedFds[fd := true];
          taken := taken + {fd};
        }
      }
      mustRelocate := false;
      ProtectedIsFull(s, kernel.limit, nullDevice);
    }

    method UnprotectUserFds()
      requires Valid()
      modifies this`mustRelocate, kernel`table
      ensures Valid() && StateOf() == Unprotected(old(StateOf()))
      ensures mustRelocate && kernel.table == old(kernel.table) - MarkedFds(protectedFds)
    {
      for fd := 0 to |protectedFds|
        invariant kernel.table == old(kernel.table) - set k | k in MarkedFds(protectedFds) && k < fd
      {
        if protectedFds[fd] {
          var _ := kernel.Close(fd);
        }
      }
      mustRelocate := true;
    }
  }

  /** The descriptors whose bit is set. */
  function MarkedFds(marks: seq<bool>): (m: set<int>)
    ensures forall k :: k in m <==> 0 <= k < |marks| && marks[k]
  {
    set k | k in Interval(0, |marks|) && marks[k]
  }

  lemma MarkOne(marks: seq<bool>, fd: nat)
    requires fd < |marks|
    ensures MarkedFds(marks[fd := true]) == MarkedFds(marks) + {fd}
  {
  }

  lemma NothingFree(table: map<int, Description>)
    ensures UserFree(table, 0) == {}
  {
  }

  lemma NextFree(table: map<int, Description>, fd: nat)
    ensures UserFree(table, fd + 1) == UserFree(table, fd) + if fd in table then {} else {fd}
    ensures fd !in UserFree(table, fd) && forall k :: k in UserFree(table, fd) ==> k !in table
  {
  }
}
