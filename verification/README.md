# Verification of the GaoFS client

GaoFS is a distributed file system in user space. Its client library intercepts system calls, decides
which paths and descriptors belong to the mounted file system, and forwards work to the daemons. This
project models the parts of the client that hold state, loops or arithmetic, and proves what they
promise. `dafny verify dfyconfig.toml` checks all of it.

- `PathText.dfy`, `PathWalk.dfy`: the text of paths, and what resolving one means: a walk over its
  components with a stack, asking the operating system (two functions, `lstat` and `realpath`, of
  which only that `realpath` answers canonical paths is assumed).
- `PathResolver.dfy`: the resolver as it is, one pass that edits a string and keeps counters, proved to
  be that walk. Its branches for `..`, for named components and for links are methods of their own.
- `PathTheorems.dfy`, `PathContext.dfy`: what the walk guarantees, and the working directory.
- `OpenFiles.dfy`, `ConcurrentFiles.dfy`: the descriptor table, alone and under threads.
- `DirentLayout.dfy`, `Dirents.dfy`: directory records in a caller's buffer.
- `VectoredIo.dfy`, `ChunkSplitting.dfy`, `BlockArithmetic.dfy`: reads and writes, their split over the
  daemons, and the arithmetic of blocks.
- `InternalFds.dfy`: the descriptors the library keeps for itself.
- `Decimal.dfy`, `Codecs.dfy`, `HostsFile.dfy`: stored metadata, first chunks and the hosts file.
- `Common.dfy`, `DivMod.dfy`, `Intervals.dfy`: small shared vocabulary.

Where the code does not keep a promise, the model follows the code, a lemma shows the failing case, and
another gives the exact condition:

- A path through a link to below the mount throws instead of meaning its target (`LinkIntoMountThrows`,
  `ThrownExactly`).
- A link to `/` leaves a second separator at the front of internal paths (`LinkToRoot`, `RootLinkDoubles`).
- Changing to `/`, or to an excluded directory named with a final separator, breaks what relative names
  assume of the working directory (`ChdirSlashes`, `ChdirSlash`, `RelativeToRootDiffers`).
- `dup2` onto the allocator's counter lets the next `add` lose its file (`Dup2AtCounter`, `Dup2Safe`).
- Under threads, `dup2` and a wrap-around can give a descriptor away twice (`ReplaceRace`, `LateFlag`,
  `WrapRace`, `CloseRace`, `StepSound`).
- A short `write` still moves the offset by the whole count, unlike `writev`; at the end of a file
  `readv` fails where `read` answers 0 (`OneBuffer`, `VectorReadIsFlat`).
- Truncation misses the daemons of chunks past the number of bytes removed: from ten whole chunks to five
  it contacts nobody (`HalfContactsNobody`, `TruncationReaches`).
- Relocating a descriptor onto its own slot closes it (`RegisterAgrees`, `FullRangeClashes`).
- The library's own `dup2` onto a descriptor it owns closes that descriptor and leaves its bit clear
  (`RegisteredTwice`, `RegisterAgrees`).
- While protected, a full internal range lets the kernel hand out a number past it, and registering that
  throws (`ProtectedServesInternal`).
- Relocation replaces a descriptor the application has put in an internal slot (`ApplicationLosesSlot`,
  `RelocateMoves`).
- The application's `dup2` can replace an internal descriptor, although its `close` cannot (`EffectAgrees`).
- Closing a large unknown descriptor throws, because the bitmap is indexed past its end (`CloseThrows`).
- One daemon with an unknown protocol keeps clients from starting or not by the order of the lines
  (`FirstLineDecides`, `ClientsAgreeOnProtocol`).
- Several daemons on one machine leave the local host to the shuffle (`LocalHostDetermined`).
- Sizes above the largest signed number do not survive serialisation (`MetadataRoundTrip`, `ChunkRoundTrip`).

## Model

| member | source | states |
|---|---|---|
| PathResolver.Resolve | src/client/path.cpp:59-199 | For every absolute path, mount point and operating system, with or without following a last link: the answer (internal, external or the exception of `vector::at`) and the text are those of the walk that keeps a stack of components and tests whether the mount is a prefix of it, although only a string and counters are kept. |
| PathResolver.RollBack | src/client/path.cpp:113-131 | A `..` keeps string, last-slash index and both counters in step with the stack, including when it crosses the mount boundary or meets an empty stack. |
| PathResolver.AddComponent | src/client/path.cpp:133-185 | A named component keeps them in step, or ends the walk with the text that goes out; only a last link that is not followed is left uncounted, and then the mount test still comes out right. |
| PathResolver.SubstituteLink | src/client/path.cpp:154-175 | After a link, string, index and counters are those of the real path: the matched counter is the common prefix with the mount, and the exception comes exactly for targets strictly below the mount. |
| PathResolver.MatchComponents | src/client/path.cpp:29-55 | For any text: the number of pieces, the longest common prefix with the mount (all pieces when the mount is a prefix), and the exception exactly when the mount is a proper prefix of the pieces. |
| PathResolver.SplitPath | src/common/path_util.cpp:43-58 | The components of the mount directory contain no separator and join back to it. |
| PathTheorems.ResolvePlain | src/client/path.cpp:59-199 | Where every lookup finds a directory (or, last, a file), the path is internal exactly when the mount is a prefix of the normalised components, and the text is the rest, or the whole, of them, and `/` when that is nothing. |
| PathTheorems.InsideShape | src/client/path.cpp:188-191 | For every host: a path is internal exactly when its walk reaches the end with the mount as prefix; the internal path then has only proper names, so it cannot climb out, and it is canonical exactly when the walk is not one restarted at a root link and still below the mount. |
| PathTheorems.InsideIsCanonical | src/client/path.cpp:188-191 | Where no link leads to the root directory, internal paths are canonical. |
| PathTheorems.WalkIsAbsolute | src/client/path.cpp:144-198 | Whatever goes out, internal or external, is an absolute path. |
| PathTheorems.LinkMeansTarget | src/client/path.cpp:154-175 | A path through a link resolves to what the real path of the link followed by the rest of the path resolves to, except when that real path lies strictly below the mount: then the exception leaves. |
| PathTheorems.LinkBelowMountThrows | src/client/path.cpp:47-48 | In the failing case, whatever the directories before the link and the path after it. |
| PathTheorems.LinkIntoMountThrows | src/client/path.cpp:47-48 | A family of concrete inputs: with the mount on `/m` and `/l` a link to `/m/x`, every path through `/l` throws. |
| PathTheorems.AbandonedGoesOut | src/client/path.cpp:147-185 | Where plain directories lead to a missing name, to a file that something follows or to a link that leads nowhere, the path goes out as it is. |
| PathTheorems.LinkToRoot | src/client/path.cpp:169-175 | After a link to the root directory the internal path is canonical exactly when the rest of the path is the mount point itself or climbs above the root. |
| PathTheorems.RootLinkDoubles | src/client/path.cpp:188-190 | A family of concrete inputs, `/l/m/x` with `/l` a link to the root and the mount on `/m`, whose internal path is not canonical. |
| PathTheorems.ThrownExactly | src/client/path.cpp:154-175 | The exception leaves if and only if the walk comes to a link that has to be followed and whose real path lies strictly below the mount. |
| PathTheorems.ExternalSlash | src/client/path.cpp:66-198 | An external path ends in a separator exactly when its walk ends at the root, or the path handed in does and is excluded or not walked to its end. |
| PathTheorems.ReResolve | src/client/path.cpp:188-190 | The mount directory followed by an internal path resolves to that internal path again exactly when it has no doubled separator and the mount is not below `/sys` or `/proc`. |
| PathTheorems.ResolveBelow | src/client/preload_context.cpp:207-219 | A text made of mount directory, directory below it and a relative part is the walk of the relative part from the mount's components followed by the directory's. |
| PathContext.PreloadContext.RelativizePath | src/client/preload_context.cpp:224-242 | A relative name is resolved after the working directory, an absolute one as it is. |
| PathContext.PreloadContext.RelativizeFdPath | src/client/preload_context.cpp:175-221 | The same from a directory descriptor, with the answers for unknown descriptors, regular files and the empty-path flag. |
| PathContext.PreloadContext.SetCwd | src/client/path.cpp:268-278 | Kernel directory, environment and context after each way the two system calls can fail. |
| PathContext.PreloadContext.HookChdir | src/client/hooks.cpp:627-659 | The answer for every outcome of resolving and of the file system; on success the context, environment and kernel directory, on any failure the working directory as it was; for a directory below a plain mount the working directory stands for it: its text is mount and components, every relative name walks on from there, and resolving it gives the directory; it is known when it ends in a separator. |
| PathContext.ChdirStandsFor | src/client/hooks.cpp:647-654 | The same of the text that is set, for every internal outcome. |
| PathContext.ChdirSlash | src/client/hooks.cpp:647-654 | The working directory ends in a separator, which the next relative name does not stand, if and only if the walk of the path ends at the root, or the path ends in one and is excluded or not walked to its end. |
| PathContext.ChdirSlashes | src/common/path_util.cpp:31-32 | Two families of failing inputs: the root, and directories under `/sys` named with a final separator. |
| PathContext.RelativeToRoot | src/common/path_util.cpp:31-40 | Without assertions a name relative to the root is always walked, so that it means what its absolute form does if and only if that is not excluded or the walk leaves its text as it is. |
| PathContext.RelativeToRootDiffers | src/client/path.cpp:66-70 | A family of names, `sys/x/`, that mean something else relative to the root. |
| PathContext.PreloadContext.HookFchdir | src/client/hooks.cpp:662-696 | The same from a descriptor, internal or not, with what is left behind when the kernel has changed directory and a later step throws; the working directory ends in a separator only for the external root. |
| PathContext.PreloadContext.HookGetcwd | src/client/hooks.cpp:699-712 | The text with its terminator when it fits, an error and nothing when it does not. |
| PathContext.RelativeNames | src/client/preload_context.cpp:185-219 | For every directory below the mount and every relative name, a descriptor of the directory and a working directory set to it mean the same walk. |
| PathContext.ChdirAgreesWithFd | src/client/hooks.cpp:647-654 | After an internal `chdir` the two entry points of the context give a relative name the same answer. |
| PathContext.ChdirToCwd | src/client/hooks.cpp:704-711 | Resolving what `getcwd` answers for an internal directory gives that directory again. |
| OpenFiles.OpenFileMap.GenerateFdIdx | src/client/open_file_map.cpp:105-113 | The counter hands out its value, or 100000 after the largest int, and turns validation on then. |
| OpenFiles.OpenFileMap.SafeGenerateFdIdx | src/client/open_file_map.cpp:116-126 | Terminates whenever a free descriptor is in reach; with validation on, the result is the first of the descriptors to come that is not live. |
| OpenFiles.SearchTerminates | src/client/open_file_map.cpp:120-124 | Some descriptor the search will try is free if and only if one is free between the smaller of the counter and 100000 and the largest int: otherwise the loop never ends. |
| OpenFiles.NthAtDistance | src/client/open_file_map.cpp:105-113 | Every descriptor in reach is reached after a number of calls that counts round past the wrap-around. |
| OpenFiles.FewFilesLeaveRoom | src/client/open_file_map.cpp:116-126 | A table with fewer live descriptors than the wrapped range has numbers always leaves one in reach. |
| OpenFiles.GeneratesFresh | src/client/open_file_map.cpp:116-126 | A safe allocator yields a descriptor from 10000 to below the largest int that is not live, and is safe once it is taken. |
| OpenFiles.OpenFileMap.GetDir | src/client/open_file_map.cpp:90-97 | The open file of a descriptor if it is a directory, and nothing otherwise. |
| OpenFiles.OpenFileMap.Add | src/client/open_file_map.cpp:128-133 | From any state the allocator's step; from a safe one a fresh descriptor, exactly that binding added, and a safe state. |
| OpenFiles.OpenFileMap.Remove | src/client/open_file_map.cpp:135-148 | The binding is gone, validation is turned off only when the table has become empty, and safety is kept. |
| OpenFiles.OpenFileMap.Dup | src/client/open_file_map.cpp:150-160 | As adding, with the file of the old descriptor; an error and no change for an unknown one. |
| OpenFiles.OpenFileMap.Dup2 | src/client/open_file_map.cpp:167-188 | The new table and flag, and that safety is kept exactly when the descriptor is not placed at the counter of an allocator that does not validate. |
| OpenFiles.Dup2Safe | src/client/open_file_map.cpp:183-185 | The same on values, as an if and only if; an allocator about to wrap around counts as validating. |
| OpenFiles.Dup2AtCounter | src/client/open_file_map.cpp:183-186 | In the failing case the next file added gets a live descriptor and is lost. |
| OpenFiles.RunSafe | src/client/open_file_map.cpp:105-188 | In every run, however often the counter wraps, every descriptor handed out is fresh and the table is the plain history of its bindings. |
| ConcurrentFiles.StepSound | src/client/open_file_map.cpp:105-188 | Each step of any thread, wrapping around and validating included, keeps the invariant (no two threads hold one descriptor, and none that is ready is live) if and only if it is not one of three: drawing a number another thread holds, closing the last file while such a thread is ahead of the counter, and placing the descriptor of a `dup2` where a thread holds it or, unvalidated, where the counter has yet to come. |
| ConcurrentFiles.EveryInterleaving | src/client/open_file_map.cpp:105-188 | In every interleaving of such steps a descriptor inserted by `add`, `dup` or `dup2` was not live, and stands for the file handed to `add`, or that of the descriptor named when the call began, until someone closes or replaces it; `dup2` inserts the descriptor it was asked to. |
| ConcurrentFiles.FilesHeld | src/client/open_file_map.cpp:150-188 | From the start of a `dup` or `dup2` until it inserts nobody else changes the files. |
| ConcurrentFiles.SoloAdd | src/client/open_file_map.cpp:116-133 | A thread that is not disturbed does in its steps what one call of the table alone does, with as many retries as validation needs. |
| ConcurrentFiles.SoloDup | src/client/open_file_map.cpp:150-160 | The same for `dup`. |
| ConcurrentFiles.SoloDup2 | src/client/open_file_map.cpp:167-188 | The same for `dup2`. |
| ConcurrentFiles.SoloClose | src/client/open_file_map.cpp:135-148 | The same for closing. |
| ConcurrentFiles.DistinctCallers | src/client/open_file_map.cpp:128-160 | Two callers never have the same descriptor at the same time. |
| ConcurrentFiles.WithoutWrap | src/client/open_file_map.cpp:105-133 | While the counter has not wrapped around, every step but the last of a `dup2` is harmless. |
| ConcurrentFiles.ReplaceRace | src/client/open_file_map.cpp:128-133 | A `dup2` onto the number a thread holds between its two steps: the thread loses its file. |
| ConcurrentFiles.ReplaceRaceReached | src/client/open_file_map.cpp:105-188 | Nine steps from the start that lead there. |
| ConcurrentFiles.LateFlag | src/client/open_file_map.cpp:183-185 | Between the test of the counter in `dup2` and its turning validation on, a thread can draw that very number and find validation off. |
| ConcurrentFiles.LateFlagReached | src/client/open_file_map.cpp:105-188 | Eight steps from the start that lead there. |
| ConcurrentFiles.WrapRace | src/client/open_file_map.cpp:105-126 | After a wrap-around two threads get one number, since validation looks only at inserted files. |
| ConcurrentFiles.CloseRace | src/client/open_file_map.cpp:135-148 | Closing the last file turns validation off while a thread still holds the number the counter has come back to: the next thread loses its file. |
| DirentLayout.RecordRoundTrip | src/client/gaofs_functions.cpp:545-560 | A stored record reads back as inode, offset, type and name exactly when the name has no NUL and the record length fits 16 bits. |
| Dirents.StoreRecord64 | src/client/gaofs_functions.cpp:600-611 | The fields of a record, each in its place, and no other byte of the buffer changed. |
| Dirents.StoreRecordOld | src/client/gaofs_functions.cpp:549-559 | The same for the older layout, where the type byte in the last place survives the later copy of the name. |
| Dirents.Getdents64 | src/client/gaofs_functions.cpp:572-621 | The answer, the new position and the whole buffer: records of as many next entries as fit, the rest untouched; position and buffer unchanged when the first does not fit or nothing is left. |
| Dirents.Getdents | src/client/gaofs_functions.cpp:520-570 | The same for the older layout. |
| Dirents.FitIsGreedy | src/client/gaofs_functions.cpp:536-547 | What is packed never exceeds the buffer, so the room left never wraps, and the next record would not have fitted. |
| Dirents.ListingAt | src/client/gaofs_functions.cpp:545-559 | Each record of a listing has the name of its entry, the kind 4 or 8, a hash of path, separator and name, and as its offset the position after the entry. |
| Dirents.ResumesAfter | src/client/gaofs_functions.cpp:558-559 | Reading on at the offset of a record leaves exactly what comes after it. |
| Dirents.ReadBack | src/client/gaofs_functions.cpp:589-613 | Walking a buffer by record lengths recovers exactly the names, types and next positions packed into it. |
| Dirents.CallDelivers | src/client/gaofs_functions.cpp:587-620 | A call's return value is a multiple of 8 within the buffer, and that much of the buffer reads back as the entries the position moved past; the rest of the buffer is as it was. |
| Dirents.Delivery | src/client/gaofs_functions.cpp:572-621 | For every series of calls and buffers, what the caller reads from the bytes the calls answer is the listing up to the position reached, each entry once and in order; a call answers 0 exactly at the end and an error exactly when the next record does not fit; what has been read up to a record is the listing up to its offset. |
| Dirents.WholeDirectory | src/client/gaofs_functions.cpp:572-621 | When every buffer has room for the next record, as many calls as there are entries deliver the whole directory. |
| VectoredIo.FileSystem.Pwrite | src/client/gaofs_functions.cpp:624-655 | One write on the daemons' answers; other files are kept. |
| VectoredIo.FileSystem.WriteFd | src/client/gaofs_functions.cpp:665-680 | One write at the shared offset, which moves by the whole count after any progress. |
| VectoredIo.FileSystem.Pwritev | src/client/gaofs_functions.cpp:683-711 | The loop is the recursive meaning of writing buffers in turn: same disk, same total, failure exactly when nothing was written. |
| VectoredIo.FileSystem.Writev | src/client/gaofs_functions.cpp:713-723 | The same at the shared offset, which moves by exactly the total; the asserted non-zero result holds. |
| VectoredIo.WriteAllLands | src/client/gaofs_functions.cpp:689-706 | With transfers that move a prefix of their buffer or nothing, what has landed is the prefix of the concatenation whose length is the total. |
| VectoredIo.OverwrittenAt | src/client/gaofs_functions.cpp:638-654 | Byte by byte, what a write leaves: its bytes, the old ones around them, and zeros in a gap. |
| VectoredIo.OverwrittenTwice | src/client/gaofs_functions.cpp:699-700 | Two adjacent writes, also past the end of the file, are one write of both pieces. |
| VectoredIo.EmptyBuffers | src/client/gaofs_functions.cpp:690-693 | Dropping the buffers of length zero changes nothing. |
| VectoredIo.VectorIsFlat | src/client/gaofs_functions.cpp:683-723 | With daemons that write whole buffers, `writev` leaves the bytes, the shared offset and the answer of one `write` of the concatenation. |
| VectoredIo.OneBuffer | src/client/gaofs_functions.cpp:676-678 | A vector of one buffer leaves the bytes a plain write does; the offsets differ exactly when the daemons move some bytes but not all, the answers exactly when they move none. |
| VectoredIo.OneBufferRead | src/client/gaofs_functions.cpp:754-809 | A vector of one buffer reads and leaves the offset as a plain read does; the answers differ exactly when the daemons answer and there is nothing to read. |
| VectoredIo.FilledMeans | src/client/gaofs_functions.cpp:725-746 | Byte by byte, what a read leaves in its buffer. |
| VectoredIo.VectorReadIsFlat | src/client/gaofs_functions.cpp:768-809 | With daemons that answer in full, `readv` reads as much as one `read` of the total length and leaves the same offset; the answers differ exactly at the end of the file. |
| VectoredIo.FileSystem.Pread | src/client/gaofs_functions.cpp:725-746 | The buffer's front holds the file's bytes, and its rest is untouched. |
| VectoredIo.FileSystem.ReadFd | src/client/gaofs_functions.cpp:754-764 | The same at the offset, which moves by what was read. |
| VectoredIo.FileSystem.Preadv | src/client/gaofs_functions.cpp:768-795 | Laid end to end, distinct buffers hold the file's bytes from the offset up to the total and are untouched after it; failure exactly when nothing was read; with daemons that answer in full the total is the smaller of the room in the buffers and what is left. |
| VectoredIo.FileSystem.Readv | src/client/gaofs_functions.cpp:798-809 | The same at the shared offset, which moves by the total for every descriptor of that open file and for no other. |
| VectoredIo.ReadTotalBounds | src/client/gaofs_functions.cpp:773-789 | The total is at most what was asked for and what is left, and the smaller of the two when the daemons answer in full. |
| InternalFds.PreloadFds.RegisterInternalFd | src/client/preload_context.cpp:246-311 | The new bitmap, kernel table and answer, with and without relocation, when slots are exhausted and when the kernel refuses. |
| InternalFds.RegisterAnswers | src/client/preload_context.cpp:246-311 | When registering throws, what it answers and that the answer refers to what was registered; a descriptor that is its own slot is closed. |
| InternalFds.PreloadFds.UnregisterInternalFd | src/client/preload_context.cpp:313-321 | The slot is free again, and numbers outside the internal range are refused. |
| InternalFds.PreloadFds.InternalOpenCall | src/client/intercept.cpp:67-79 | Opening by the library is the opening event of the runs, whatever the kernel and the bitmap answer. |
| InternalFds.PreloadFds.InternalDup2Call | src/client/intercept.cpp:146-171 | The library's `dup2` and `dup3` are the duplicating event of the runs: the kernel's, then registered, also onto a descriptor it owns. |
| InternalFds.PreloadFds.InternalDupCall | src/client/intercept.cpp:135-144 | The same for its `dup`, and for `fcntl` with `F_DUPFD`. |
| InternalFds.PreloadFds.InternalCloseCall | src/client/intercept.cpp:377-385 | Closing by the library is the closing event of the runs; for a descriptor that is not internal it throws after the kernel has closed it. |
| InternalFds.PreloadFds.IsInternalFd | src/client/preload_context.cpp:324-334 | The bit of the slot, and the exception past the end of the bitmap. |
| InternalFds.PreloadFds.HookClose | src/client/hooks.cpp:77-93 | Emulated files leave the file map, internal descriptors are left alone, and the rest is closed by the kernel. |
| InternalFds.CloseThrows | src/client/hooks.cpp:87-90 | Closing throws exactly for numbers past the table's size that the file map does not know. |
| InternalFds.CloseMeans | src/client/hooks.cpp:77-93 | A descriptor of the library is left as it is, and any other is gone from the kernel's table, with an error exactly when it was not in use. |
| InternalFds.RegisterAgrees | src/client/preload_context.cpp:246-310 | Registering any descriptor keeps bitmap and kernel in agreement exactly when it does not relocate, has no slot left, or the descriptor is neither the slot it would go to nor one the library owns. |
| InternalFds.RegisteredTwice | src/client/intercept.cpp:146-171 | An owned descriptor registered again while relocating: the kernel has it no longer, the bit says it is internal, and the application cannot close what it later has there. |
| InternalFds.RelocateMoves | src/client/preload_context.cpp:259-300 | Relocation moves the description to the lowest slot free in the bitmap, frees the old number and touches no third descriptor; it conserves the collection of descriptions if and only if the kernel has nothing in that slot. |
| InternalFds.ApplicationLosesSlot | src/client/preload_context.cpp:259-278 | The failing case, from every state with room: a descriptor of the application in the slot that is next is replaced by the library's next descriptor, with the agreement kept. |
| InternalFds.FullRangeClashes | src/client/preload_context.cpp:259-284 | With a full application range the kernel's next number is that very slot. |
| InternalFds.EffectAgrees | src/client/intercept.cpp:67-385 | Each call of library or application (opening, `dup`, `dup2`, `dup3`, descriptors made otherwise, closing, protecting) keeps the agreement if and only if it is none of three: relocating a descriptor onto itself, relocating one the library owns, and a `dup2` of something else onto an owned descriptor that is not registered. |
| InternalFds.AlwaysAgree | src/client/preload_context.cpp:246-378 | So in every state reached by such calls a bit is clear exactly for the descriptors the library owns, and each refers to what it was registered with. |
| InternalFds.LibraryKeeps | src/client/preload_context.cpp:246-334 | In every such run the kernel's table keeps the same description at a descriptor of the library from when it is registered until the library closes or replaces it. |
| InternalFds.PreloadFds.ProtectUserFds | src/client/preload_context.cpp:337-360 | The kernel table, the marks and the mode after occupying every unused descriptor of the application's range. |
| InternalFds.PreloadFds.UnprotectUserFds | src/client/preload_context.cpp:362-378 | Exactly the marked descriptors are closed, and the marks stay. |
| InternalFds.ProtectedServesInternal | src/client/preload_context.cpp:249-252 | In every run, as long as the application's range stays protected, the lowest free descriptor is not in it, as the assertion demands; registering it throws exactly when every number up to the end of the internal range is in use. |
| InternalFds.ProtectionRestores | src/client/preload_context.cpp:337-378 | Afterwards the application's range is as before with the null device's descriptor, less what earlier marks close. |
| InternalFds.StartUpRestores | src/client/preload.cpp:209-234 | In every run that protects once, if nothing closes or replaces a descriptor of the application's range meanwhile, that range is afterwards what it was with the null device's descriptor. |
| InternalFds.RelocatesAfterwards | src/client/preload_context.cpp:362-378 | In every run, once the protection has ended, what the library opens is moved out of the application's range to the lowest free slot. |
| InternalFds.NothingLost | src/client/preload_context.cpp:356-370 | Were the range protected again, the application would keep all its descriptors if and only if none of them carried an earlier mark. |
| BlockArithmetic.IsPowerOf2Iff | include/common/arithmetic/arithmetic.hpp:20-31 | The bit trick recognises exactly the 64-bit powers of two, and the logarithm is theirs. |
| BlockArithmetic.MasksAreDivision | include/common/arithmetic/arithmetic.hpp:41-117 | Aligning, overrun, underrun, index and alignment test agree with quotient and remainder for every power of two, the underrun even where aligning to the right wraps around. |
| BlockArithmetic.BlockCountCounts | include/common/arithmetic/arithmetic.hpp:129-149 | The count is the number of distinct block indices of the bytes of the range, for block sizes below 2 to the 32 and no overflow. |
| BlockArithmetic.BlocksConserveSize | include/common/arithmetic/arithmetic.hpp:83-149 | Whole blocks, less the overrun of the first and the underrun of the last, are the size of the range, also of an empty one unless it lies inside a block. |
| ChunkSplitting.GatherChunks | src/client/rpc/forward_data.cpp:161-181 | Each daemon is listed once, with all of its chunks of the range in order. |
| ChunkSplitting.ShareFormula | src/client/rpc/forward_data.cpp:201-213 | The share computed from the chunk count is the number of bytes of the range that the daemon stores. |
| ChunkSplitting.BytesInCounts | src/client/rpc/forward_data.cpp:201-213 | The bytes of a chunk in the range are those whose block index it is. |
| ChunkSplitting.ChunksOfAre | src/client/rpc/forward_data.cpp:161-181 | The chunks of a daemon are all that it stores, in order. |
| ChunkSplitting.ShareSizes | src/client/rpc/forward_data.cpp:146-213 | However chunks are distributed, each daemon is told its bytes and the shares add up to the request. |
| ChunkSplitting.EmptyTransfer | src/client/rpc/forward_data.cpp:300-314 | An empty transfer asks one daemon for nothing, or nobody, and at the start of the file goes through 2 to the 45 chunks. |
| ChunkSplitting.TruncateTargets | src/client/rpc/forward_data.cpp:79-96 | The daemons contacted are those that store the chunks from the new size's to that of the number of removed bytes. |
| ChunkSplitting.TruncationReaches | src/client/rpc/forward_data.cpp:85-93 | Every daemon that stores a removed byte is contacted, however chunks are distributed, if and only if the number of removed bytes and the old size end in the same chunk; nobody is when the former ends before the first removed chunk. |
| ChunkSplitting.HalfContactsNobody | src/client/rpc/forward_data.cpp:85-93 | A family of failing inputs: truncating to half of the whole chunks. |
| Decimal.ScanPrinted | src/common/metadata.cpp:42-44 | Reading stops at the separator after a printed number and yields it, for every integer. |
| Decimal.ScansNumerals | src/common/metadata.cpp:42-44 | Reading takes spaces, a sign and digits from the front, stops where the digits end, and fails exactly when there are none. |
| Codecs.Serialize | src/common/metadata.cpp:98-133 | The text of metadata under every setting of the optional fields. |
| Codecs.Deserialize | src/common/metadata.cpp:37-95 | The metadata of a text, or failure where an assertion or a conversion fails. |
| Codecs.ParsedSerialized | src/common/metadata.cpp:37-133 | What comes back from storing any metadata, also the ones that do not survive. |
| Codecs.ParsedShape | src/common/metadata.cpp:37-95 | A text that is read at all is a numeral for each field kept, separators between them, and the target; mode and size are those of their numerals. |
| Codecs.LinkBits | src/common/metadata.cpp:90 | The file type of a link is that of `S_ISLNK`, whatever the other bits. |
| Codecs.MetadataRoundTrip | src/common/metadata.cpp:37-133 | Metadata survive if and only if the size fits a signed number, fields not kept have their defaults, and the target has no NUL and belongs to a link. |
| Codecs.SerializeChunk | src/common/first_chunk.cpp:39-47 | The text of a first chunk. |
| Codecs.DeserializeChunk | src/common/first_chunk.cpp:20-36 | The first chunk of a text, or failure. |
| Codecs.ChunkRoundTrip | src/common/first_chunk.cpp:20-47 | A first chunk survives if and only if its size fits a signed number and its content has no NUL, whatever separators and digits it has. |
| Codecs.ChunkShape | src/common/first_chunk.cpp:20-36 | A text that is read at all is a numeral, a separator and the content. |
| HostsFile.PopulateHostsFile | src/daemon/util.cpp:25-29 | A daemon appends one line. |
| HostsFile.LineMatches | src/client/preload_util.cpp:108-124 | A daemon's line matches the client's pattern and gives back its two fields. |
| HostsFile.MatchesExactly | src/client/preload_util.cpp:108-124 | A line matches if and only if it is two words with spaces between them and nothing else. |
| HostsFile.LoadHostfile | src/client/preload_util.cpp:99-143 | Hosts, protocol or error of any file, with the first bad line. |
| HostsFile.StripsSuffix | src/client/preload_util.cpp:137-141 | Cutting at the last `#` recovers the host name. |
| HostsFile.BeforeIs | src/client/preload_util.cpp:135 | Hosts are ordered as in a dictionary, by name and then by address. |
| HostsFile.SortedUnique | src/client/preload_util.cpp:135 | There is only one sorted arrangement of given hosts, so any sort gives it. |
| HostsFile.LoadingLines | src/client/preload_util.cpp:99-143 | From the lines of any daemons a client gets all of them, or stops at the protocol of the first. |
| HostsFile.ProtocolIs | src/client/preload_util.cpp:63-96 | The protocol of an address is the first of four that it contains, and there is none without `://`. |
| HostsFile.ClientsAgree | src/client/preload_util.cpp:133-142 | Whatever the order of the lines, the hosts are the same, as many as daemons, each with its suffix removed. |
| HostsFile.ClientsAgreeOnProtocol | src/client/preload_util.cpp:131-132 | For every order of the lines clients start alike, with the same hosts and protocol or not at all, if and only if the protocol read from the address is the same for all daemons. |
| HostsFile.FirstLineDecides | src/client/preload_util.cpp:131-132 | With one daemon whose protocol is not known, the order of the lines decides whether a client starts. |
| HostsFile.LookupEndpoint | src/client/preload_util.cpp:32-60 | The first answer of three attempts, and failure exactly when all three fail. |
| HostsFile.ConnectToHosts | src/client/preload_util.cpp:242-283 | Whatever the shuffle, the address at each index is the lookup of the host at that index. |
| HostsFile.LocalHostDetermined | src/client/preload_util.cpp:268-280 | Every shuffle finds the same local host if and only if at most one host bears the local name. |

## Left out

- Mercury, Margo and Hermes, the RPC types and the daemons' side: a transfer is answered by an error, or by a number of bytes moved, chosen by an arbitrary function of the number of the call.
- VectoredIo.FileSystem.Pwrite: an error is taken to leave no bytes behind, and a short answer to have moved a prefix of the buffer. In the source the answer is the sum of what several daemons say (src/client/rpc/forward_data.cpp:258-289): some may have written when another fails, and then 0 is reported, and the bytes of a short answer need not be the first ones. `WriteAllLands` inherits this.
- VectoredIo.FileSystem.WriteFd: files opened for appending are excluded, since `gaofs_open` refuses them (src/client/gaofs_functions.cpp:97-101), and so is writing nothing at the start of a file, where the loop over chunks runs away (`EmptyTransfer`). Elsewhere the assertion that something is written (src/client/rpc/forward_data.cpp:144) is taken to be compiled out.
- VectoredIo.FileSystem.ReadFd: reading nothing at the start of a file is excluded for the same reason.
- VectoredIo.FileSystem.Preadv: for a vector that names a buffer twice only the total, the offset and the answer are stated, not what the buffer holds. The transfer functions give back -1 without the value of `errno`.
- VectoredIo.FileSystem: the forwarded size change is only its error code; what the daemons record as a file's size is not part of this model.
- ConcurrentFiles.StepSound: a step is what one lock protects, or one reading or writing of the unprotected validation flag; the memory model is sequential. `remove` and the freeing of the new descriptor in `dup2` reset the flag within their step.
- PathResolver.Resolve: paths and component counts are unbounded, where the source counts components in 32 bits, and the path length limit of `realpath` is not modelled.
- PathContext.PreloadContext.HookChdir: chasing of links inside the file system is not modelled; the file system answers for a path with an error or with its kind. Where the assertion of `prepend_path` fails, the model goes on as a build without assertions does.
- Dirents.Getdents64: the inode hash is an arbitrary function, and directories have fewer than 2 to the 32 entries, since `getdent` takes a 32-bit position.
- InternalFds.PreloadFds.RegisterInternalFd: a failing assertion is an exception without relocation; with relocation the model goes on as a build without assertions does. The kernel is a table of descriptors with lowest-free allocation, and close-on-exec flags are ignored.
- ChunkSplitting.TruncateTargets: sizes whose chunk numbers do not fit 32 bits, some two pebibytes, are excluded.
- BlockArithmetic.IsAligned: block sizes from 2 to the 32 on are excluded, since the source shifts a 32-bit one; `block_count` inherits this.
- HostsFile.LoadHostfile: the file is the sequence of its lines, and the switch for automatic shared memory is left out.
- `gaofs_getsingleserverdir`: a third record layout packed by the same loop.
- The re-entrance guard of src/client/intercept.cpp and the dispatch of system calls: one-branch code.
- `absolute_to_relative`, `dirname`, locks other than those of ConcurrentFiles, logging, statistics, start-up and signals.
