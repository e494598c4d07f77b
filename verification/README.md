# Verified models of two PHP opcode caches, a coverage recorder and a test diff

The repository bundles PHP packages. This project models the parts of them whose correctness rests on
state spread over many calls, and proves what those parts are meant to guarantee:

- **XCache allocator** (`Blocks`, `MemSpec`, `Mem`): the words of an arena, with block headers and the free list in
  the memory they describe, refine an abstract row of blocks. Best fit, splitting and coalescing keep the
  arena tiled and coalesced over every run, so the free list is a function of what is allocated.
- **XCache shared cache** (`Chains`, `CacheSpec`, `XCache`): hash chains, deferred deletes, reference
  counts. Removal unlinks the first *equal* entry and frees its *argument*; both are the same entry
  because keys are unique, which no single operation checks.
- **Compile protocol** (`CompileProtocol`): any number of requests interleaved at lock granularity; the
  `compiling` flag is what makes file keys unique, and hold stacks are what keeps entries alive.
- **Variable cache** (`VarSpec`, `VarCache`): get, set, isset, unset, inc, dec and expiry collection refine
  a map from names to values that expire.
- **Hit counters, hash folding, arena carving** (`Counters`, `HashFold`, `Arenas`).
- **APC slot table** (`ApcSpec`, `ApcCache`, `ApcRuns`): chains with eviction on the way, the list of slots
  awaiting destruction, accounting, and references over every run.
- **APC binary dumps** (`ApcImage`, `ApcBin`, `ApcDump`, `ApcWalk`, `ApcEntries`): pointers in a byte image
  become offsets, the image moves, offsets become pointers; and the traversal that finds the pointers.
- **Test diff** (`ArrayDiff`): the bounded look-ahead diff, for an arbitrary matching relation.
- **Coverage** (`Coverage`): hit maps merged through files.

Where the code changes things in place the model does too (classes and arrays with loops), and each method
is proved against a specification function; lemmas about those functions carry the main results.
`dafny verify dfyconfig.toml` checks everything.

Where the code does not do what its comments or its purpose suggest, the code is kept, the exact condition
is proved for all inputs, and an input that fails is given:

- requests too small or too large for the allocator: `Blocks.RealSizeHoldsFreeHeader`, at
  `Blocks.TooSmallRequests`;
- two kinds of file keys in one cache: `CacheSpec.EqualIsSymmetricIff` and
  `CacheSpec.RemoveStopsElsewhereIff`, at `CacheSpec.RemoveUnlinksNamesake`;
- held entries freed after an hour: `CacheSpec.CollectorFreesHeldIff` and
  `CompileProtocol.CollectKeepsHoldInvIff`, at the run `CompileProtocol.HeldFileCanBeFreed`;
- collections that show: `VarSpec.GcInvisibleIff`, at `VarSpec.EarlierRequestSeesGc`, and
  `VarSpec.UnsetSeesGc`, at `VarSpec.UnsetBeforeAndAfterGc`;
- counters that are stale or lossy: `Counters.KeepsNothingStaleIff`, at `Counters.HourRing`, and
  `Counters.LosesNothingIff`, at `Counters.SecondRing`;
- counters after the clock went back: `Counters.ClockBackIff`, at `Counters.ClockBackLoses`;
- hash bits that never reach the index: `HashFold.BitReachesIndexIff`, at `HashFold.DefaultSlots`; sizes the
  configuration loop never reaches: `HashFold.ConfigHashStopsIff`, at `HashFold.LoopsForever`;
- region sizes: `Arenas.CarvedIsLargestIff`. Sizes are ints (xcache.c:2772; zend_atoi is not part of this
  model), and by `Arenas.WideShareIff` a share of 2^32 bytes or more comes only of a negative one. The check
  meant to refuse those does not (`Arenas.InitAcceptsIff`, `Arenas.NegativeSettingPassesIff`), but the segment
  is then nearly the whole address space; as no such mapping exists, no wide share is ever carved
  (`Arenas.XcInit`);
- a slot that cannot be allocated, so that others are lost: `ApcSpec.FailedInsertLoses` and
  `ApcRuns.NothingLostIff`, at the run `ApcRuns.SecondSlotCanBeLost`; what is lost stays so (`ApcRuns.LostForever`);
- borrowed slots destroyed after gc_ttl: `ApcRuns.NextKeepsHoldInvIff`, at the run
  `ApcRuns.BorrowedSlotCanBeDestroyed`;
- the last two bytes of an image: `ApcBin.LastTwoBytesKeptIff`, at `ApcDump.LosesLastBytes`.

Two conditions of this kind never fail where the program relies on them. `CacheSpec.AddedKeepsInvIff`: that it
always holds where files are stored is what `CompileProtocol.CompilersExcludeEachOther` proves.
`Blocks.RefusedDespiteRoomIff`, about free blocks that the allocator's search would pass over: with int settings
no arena is large enough to have one (`Arenas.CarvedArenaRefusesExactly`; `Arenas.XcInit` says that the arenas are
carved from such settings).

## Model

Methods marked "specification" are proved equal, on the whole new state, to the named function; what that
function promises is the business of the lemmas listed with it.

| member | source | states |
|---|---|---|
| Blocks.RealSizeHoldsRequest | xcache-1.3.0/mem.c:89-91 | the 32-bit size computation leaves room for header and payload exactly when it does not wrap, and wastes less than one word |
| Blocks.RealSizeHoldsFreeHeader | xcache-1.3.0/mem.c:89-91 | a block can hold its own free-list header after being freed exactly when the request was at least one byte and did not wrap |
| Blocks.TooSmallRequests | xcache-1.3.0/mem.c:89-91 | a request of no bytes gets a block of header size only, one 8 bytes below 2^32 a block of size zero |
| Blocks.BestFitUnique | xcache-1.3.0/mem.c:105-132 | at most one block is the first exact fit or, failing that, the first smallest splittable one |
| Blocks.RefusedDespiteRoomIff | xcache-1.3.0/mem.c:105-132 | a larger free block would be passed over and the request refused exactly when no block fits exactly and every larger one reaches INT_MAX |
| Blocks.NoFitInSmallArena | xcache-1.3.0/mem.c:105-132 | in an arena below INT_MAX bytes a request is refused exactly when no free block fits exactly or is larger by more than a header |
| Blocks.AllocKeepsInv | xcache-1.3.0/mem.c:134-174 | taking or splitting any fitting block keeps the arena exactly tiled with no two free blocks adjacent |
| Blocks.FreeKeepsInv | xcache-1.3.0/mem.c:189-217 | returning any live block keeps the arena tiled and coalesced |
| Blocks.StartsIncrease | xcache-1.3.0/mem.c:189-193 | block starts strictly increase by at least two words: the free list is in address order |
| Blocks.PayloadsDisjoint | xcache-1.3.0/mem.c:134-174 | a byte of a live payload lies inside the arena and in no other live block |
| Blocks.DeterminedByUsed | xcache-1.3.0/mem.c:134-217 | two reachable states of an arena with the same live blocks are the same state, free list included |
| Blocks.FreeUndoesAlloc | xcache-1.3.0/mem.c:134-217 | freeing what was just allocated restores the exact blocks and hence the exact free list |
| Blocks.NothingUsedIsInitial | xcache-1.3.0/mem.c:189-217 | with nothing allocated the arena is again the single initial block |
| Blocks.EarlyExitIsSound | xcache-1.3.0/mem.c:100-103 | the early exit on `avail` turns down no request that some block could serve |
| Blocks.RunKeepsInv | xcache-1.3.0/mem.c:81-220 | every run of mallocs and frees from the initial block keeps the arena tiled and coalesced |
| Blocks.RunsAreCanonical | xcache-1.3.0/mem.c:81-220 | whenever two moments of a run have the same live blocks they have the same free list, whatever happened between |
| Mem.Arena.constructor | xcache-1.3.0/mem.c:299-312 | arbitrary memory becomes an arena whose words describe one free block of size - MINSIZE bytes |
| Mem.Arena.Init | xcache-1.3.0/mem.c:290-314 | NULL exactly when size is below header plus one block, and then nothing is written; otherwise the initial arena |
| Mem.Arena.Search | xcache-1.3.0/mem.c:105-132 | NULL exactly when no block fits; otherwise the list node before the best fit (first exact, else first smallest that leaves a header) |
| Mem.Arena.Take | xcache-1.3.0/mem.c:134-174 | the words written represent the blocks after allocation; no word of a live payload changes |
| Mem.Arena.Malloc | xcache-1.3.0/mem.c:81-177 | NULL exactly when nothing fits, with nothing changed; otherwise the payload of the best fit, which holds the request; live payloads keep every word |
| Mem.Arena.FindPrev | xcache-1.3.0/mem.c:189-193 | the loop ends on the list node right before the freed block |
| Mem.Arena.Relink | xcache-1.3.0/mem.c:195-201 | the freed block is back in address order, `avail` grows by its size, other payloads keep every word |
| Mem.Arena.JoinPrev | xcache-1.3.0/mem.c:203-209 | merges with the node before exactly when that is the adjacent free block |
| Mem.Arena.JoinNext | xcache-1.3.0/mem.c:211-217 | merges with the successor exactly when that is the adjacent free block |
| Mem.Arena.SwallowNext | xcache-1.3.0/mem.c:203-217 | two adjacent free blocks become one, in memory and abstractly |
| Mem.Arena.Free | xcache-1.3.0/mem.c:179-220 | for any live block: the arena afterwards is the coalesced one, the size is returned, and every other live payload keeps every word |
| Mem.Arena.StorePayload | xcache-1.3.0/mem.c:36-37 | an owner may overwrite any word of its payload, the `next` word included, without disturbing the allocator |
| MemSpec.PayloadIsPrivate | xcache-1.3.0/mem.c:36-37 | no word of a live payload is a size or link word of the allocator |
| MemSpec.TakeKeepsPayloads | xcache-1.3.0/mem.c:134-174 | the writes of an allocation miss every live payload |
| MemSpec.RelinkKeepsPayloads | xcache-1.3.0/mem.c:195-201 | the writes of a release miss every live payload that remains |
| MemSpec.SwallowKeepsPayloads | xcache-1.3.0/mem.c:203-217 | the writes of a merge miss every live payload |
| Chains.NamesMatchOnlyThemselves | xcache-1.3.0/xcache.c:118-160 | comparing with the terminating NUL matches a stored name with itself, and with nothing else exactly when the stored name has no NUL |
| CacheSpec.EqualMeansSameIdent | xcache-1.3.0/xcache.c:118-160 | with one `stat` setting and NUL-free names, entry equality is equality of device and inode, or, with `stat` off and for variables, of the name |
| CacheSpec.EqualIsSymmetricIff | xcache-1.3.0/xcache.c:118-160 | for all file entries, equality is symmetric except exactly between a stat-off and a stat-on entry of one name |
| CacheSpec.RemoveStopsElsewhereIff | xcache-1.3.0/xcache.c:208-221 | in a chain mixing both kinds of file keys, removal stops at another entry than its argument exactly if the argument is stat-off and a stat-on namesake comes first |
| CacheSpec.RemoveUnlinksNamesake | xcache-1.3.0/xcache.c:208-221 | a chain of two entries in which removing one unlinks the other, which stays allocated in no place, and frees the first, which stays linked |
| CacheSpec.AddedKeepsInvIff | xcache-1.3.0/xcache.c:167-173 | adding, which never looks for duplicates, keeps the invariant exactly when the key is not linked yet |
| CacheSpec.RemovedKeepsInv | xcache-1.3.0/xcache.c:193-221 | removing a linked entry keeps every invariant, leaves all others where they were, and the entry survives (on `deletes`) exactly if it is referenced |
| CacheSpec.SweptAllOutcome | xcache-1.3.0/xcache.c:310-328 | a sweep removes exactly the selected linked entries and touches no other |
| CacheSpec.CollectedOutcome | xcache-1.3.0/xcache.c:393-413 | a collection frees exactly the entries that are unreferenced or over an hour on the list, nothing else |
| CacheSpec.CollectedFreesIff | xcache-1.3.0/xcache.c:393-413 | a collection frees an entry on the list exactly if its count is zero or it was deleted more than 3600 s ago; no other entry is touched |
| CacheSpec.CollectorFreesHeldIff | xcache-1.3.0/xcache.c:393-413 | the collector frees an entry somebody holds exactly when a held entry has been deleted for more than 3600 s |
| CacheSpec.LinkedKeysAreUnique | xcache-1.3.0/xcache.c:167-221 | two linked entries with the same key are the same entry |
| CacheSpec.MatchIs | xcache-1.3.0/xcache.c:223-240 | a lookup finds the one linked entry with the key, and none exactly when the key is absent |
| CacheSpec.LookupOutcome | xcache-1.3.0/xcache.c:223-240 | after a lookup the key is either present, for a file with its mtime and size, or absent, so that a store may follow |
| CacheSpec.FileLookupIff | xcache-1.3.0/xcache.c:223-240 | the linked entry of a file is returned exactly if its mtime and its size are those of the key, and is linked no longer exactly if one of them differs |
| CacheSpec.LookupFindsIff | xcache-1.3.0/xcache.c:223-240 | what is returned is linked under the key; a linked variable always is |
| CacheSpec.LookupTouchesOnly | xcache-1.3.0/xcache.c:223-240 | a lookup touches no entry but that of the key; there it counts the hit and notes the time |
| CacheSpec.CompiledIsFound | xcache-1.3.0/xcache.c:974-1246 | a file that a call compiled and stored is what the next call restores; after a failure to store, it is compiled again |
| CacheSpec.UnheldTop | xcache-1.3.0/xcache.c:695-718 | popping the top of a stack the counts cover finds a positive count and leaves the rest covered |
| XCache.SharedCache.constructor | xcache-1.3.0/xcache.c:1489-1503 | an empty cache satisfies the invariant |
| XCache.SharedCache.Add | xcache-1.3.0/xcache.c:167-173 | the entry heads its chain; the invariant survives exactly if the key was not linked |
| XCache.SharedCache.Store | xcache-1.3.0/xcache.c:175-191 | the stored entry is that given, unreferenced, without hits and with current times, or, when memory is out, nothing but the failure count changes; a key that is already linked is not noticed, and breaks the invariant |
| XCache.SharedCache.Free | xcache-1.3.0/xcache.c:193-206 | an unlinked entry is freed if unreferenced, else put on `deletes` with its time of deletion |
| XCache.SharedCache.Remove | xcache-1.3.0/xcache.c:208-221 | the walk always finds its argument first (the assertion behind the loop is unreachable) and the entry unlinked is the entry freed |
| CacheSpec.FirstIsArgument | xcache-1.3.0/xcache.c:208-221 | the first entry equal to a linked entry is that entry |
| XCache.SharedCache.First | xcache-1.3.0/xcache.c:223-228 | the walk stops at the one linked entry of the key, and runs off the chain exactly if there is none |
| XCache.SharedCache.Find | xcache-1.3.0/xcache.c:223-240 | a file entry is returned exactly if mtime and size are those of the key, and removed otherwise; a variable is returned if it is linked |
| XCache.SharedCache.ApplyChain | xcache-1.3.0/xcache.c:315-326 | one chain of a sweep, with `pp` surgery; specification SweptChain |
| XCache.SharedCache.Apply | xcache-1.3.0/xcache.c:310-328 | specification SweptAll (see CacheSpec.SweptAllOutcome) |
| XCache.SharedCache.Clear | xcache-1.3.0/xcache.c:1885-1893 | clearing removes every linked entry, in the order of a sweep that selects all |
| XCache.SharedCache.GcExpires | xcache-1.3.0/xcache.c:353-364 | sweeps exactly when the interval has passed, compared as unsigned, and then notes the time |
| XCache.DueIff | xcache-1.3.0/xcache.c:353-364 | as the comparison is unsigned, a collection is due after the interval and, when the clock went back, unless the interval is nearly 2^64 |
| XCache.IdleFilesSweptIff | xcache-1.3.0/xcache.c:336-343 | the sweep removes a linked file exactly if it was last found more than ttl seconds ago |
| XCache.SharedCache.GcExpiresFiles | xcache-1.3.0/xcache.c:366-377 | nothing without a ttl or an interval; otherwise the sweep of idle files when it is due |
| XCache.SharedCache.CollectDeletes | xcache-1.3.0/xcache.c:393-413 | specification Collected (see CacheSpec.CollectedOutcome) |
| XCache.SharedCache.CollectOne | xcache-1.3.0/xcache.c:393-413 | each turn either frees a doomed entry or passes over one that waits |
| XCache.SharedCache.GcDeletes | xcache-1.3.0/xcache.c:415-425 | collects exactly when something is on the list and more than 120 s have passed since it last did |
| XCache.SharedCache.Hold | xcache-1.3.0/xcache.c:242-247 | the entry's count and the stack grow together |
| XCache.SharedCache.UnholdTop | xcache-1.3.0/xcache.c:695-718 | the decrement never goes below zero and the rest of the stack stays covered |
| XCache.SharedCache.Unholds | xcache-1.3.0/xcache.c:695-718 | the whole stack is given back, each reference once |
| XCache.SharedCache.OpenFile | xcache-1.3.0/xcache.c:974-1002 | clogged exactly while somebody compiles; otherwise restored with a reference exactly if an entry with the mtime and the size of the file is linked, an outdated one being removed; otherwise committed to compile, with the key absent and the flag set |
| XCache.SharedCache.StoreFile | xcache-1.3.0/xcache.c:1204-1206 | stores without looking for the key again; the invariant survives exactly if nothing was stored or the key was absent |
| XCache.SharedCache.CompileFile | xcache-1.3.0/xcache.c:974-1246 | a whole call with nobody in between: the flag is as before, the new state is that of the sections one after the other, and what was stored is what the next call restores |
| CompileProtocol.FinishKeepsInv | xcache-1.3.0/xcache.c:1244-1246 | clearing the flag ends the one compilation that was under way: afterwards none is, and the invariant of the protocol holds |
| CompileProtocol.OpenOutcome | xcache-1.3.0/xcache.c:974-1002 | opening keeps the invariant; what it restores has the mtime and size of the file; if it decides to compile, the key is absent |
| CompileProtocol.NextKeepsCompileInv | xcache-1.3.0/xcache.c:974-1018 | in every step of every request: at most one compiles, the flag is set exactly while one does, and the key it compiles is linked nowhere |
| CompileProtocol.CompilersExcludeEachOther | xcache-1.3.0/xcache.c:974-1246 | over every interleaving of any number of requests at most one compiles and no two equal file entries are ever linked |
| CompileProtocol.HoldsAreCovered | xcache-1.3.0/xcache.c:242-247 | whatever a request holds is allocated, with a count of at least its occurrences on the stack |
| CompileProtocol.CollectKeepsHoldInvIff | xcache-1.3.0/xcache.c:393-413 | a collection keeps counts equal to stack occurrences exactly when no held entry has overstayed |
| CompileProtocol.NextKeepsHoldInv | xcache-1.3.0/xcache.c:193-247 | every other step keeps each count equal to the occurrences on all stacks |
| CompileProtocol.HeldEntriesSurvive | xcache-1.3.0/xcache.c:695-718 | in every run, as long as holders have been timely, counts equal occurrences, held entries are allocated and no unhold underflows |
| CompileProtocol.NextKeepsFiles | xcache-1.3.0/xcache.c:167-247 | no step of any request puts another file under an address that stays allocated |
| CompileProtocol.HeldStaysItself | xcache-1.3.0/xcache.c:695-718 | over every run with timely holders, what somebody holds throughout is the same file, of the same time, at both ends |
| CompileProtocol.HeldFileCanBeFreed | xcache-1.3.0/xcache.c:393-413 | a run of six steps at whose end an entry is on a hold stack and freed |
| VarSpec.WrapSum | xcache-1.3.0/xcache.c:2166-2177 | wrapping at every step is wrapping once, which gives a long congruent to the sum and equal to it if that is a long |
| VarSpec.WrapIs | xcache-1.3.0/xcache.c:2171-2176 | the result of 64-bit arithmetic is a long, congruent to the exact one, and equal to it if that is a long |
| VarSpec.ClampTtlIs | xcache-1.3.0/xcache.c:2145-2148 | under a maximum a ttl of zero, a longer or a negative one becomes the maximum, any other stays |
| VarSpec.LookupAnswers | xcache-1.3.0/xcache.c:1990-2124 | get and isset answer exactly until the ttl is over (never, if it is 0), and remove the value after that, as a collection does; unset answers whether it is stored, and removes it |
| VarSpec.SetThenGet | xcache-1.3.0/xcache.c:2016-2049 | a value stored at time t with a ttl is found at u exactly if u <= t + ttl, or always if the ttl is 0; after a failed store nothing is found |
| VarSpec.IncIs | xcache-1.3.0/xcache.c:2154-2202 | an increment counts from the number that is there, from the conversion of any other value, and from 0 if nothing is; it answers and stores the 64-bit sum under a new ttl, unless a new entry is needed and memory is out |
| VarSpec.LargestWraps | xcache-1.3.0/xcache.c:2171-2176 | incrementing 2^63 - 1 gives -2^63 |
| VarSpec.OthersStay | xcache-1.3.0/xcache.c:1972-2205 | no call but a collection touches the value of another name |
| VarSpec.CounterFollows | xcache-1.3.0/xcache.c:2126-2205 | a live counter that nobody sets, unsets or lets expire is at every moment the wrapped sum of the increments so far |
| VarSpec.NoIncrementIsLost | xcache-1.3.0/xcache.c:2126-2205 | however calls on other names interleave, whatever their times, and whether or not memory runs out, a live counter is its start plus every increment: exactly if that sum is a 64-bit long, else modulo 2^64 |
| VarSpec.GcInvisibleIff | xcache-1.3.0/xcache.c:345-351 | a collection at time t changes no lookup at time u exactly when nothing that expired by t is live at u |
| VarSpec.EarlierRequestSeesGc | xcache-1.3.0/xcache.c:345-351 | a value stored at time 1000 for 10 s is gone for a request of time 1005 after a collection at time 1011 |
| VarSpec.AgreementLasts | xcache-1.3.0/xcache.c:1972-2205 | maps that agree on what is live answer every later call alike, unset excepted, and go on agreeing |
| VarSpec.GcIsTransparent | xcache-1.3.0/xcache.c:353-364 | a collection changes no later answer of any run, unset excepted |
| VarSpec.UnsetSeesGc | xcache-1.3.0/xcache.c:2114-2123 | unset does tell a collected entry from an expired one |
| VarSpec.UnsetBeforeAndAfterGc | xcache-1.3.0/xcache.c:2114-2123 | unsetting an expired value answers true before a collection and false after it |
| VarCache.LookupShows | xcache-1.3.0/xcache.c:223-240 | a lookup finds the entry of the map's cell, and none exactly when the map has none |
| VarCache.VariableCache.constructor | xcache-1.3.0/xcache.c:1489-1503 | an empty cache shows the empty map |
| VarCache.VariableCache.Lookup | xcache-1.3.0/xcache.c:223-240 | finds the entry of the name exactly when the map has a cell for it; the map is unchanged |
| VarCache.VariableCache.Drop | xcache-1.3.0/xcache.c:208-221 | removing the entry of a name removes the map's cell and no other |
| VarCache.VariableCache.StoreVar | xcache-1.3.0/xcache.c:175-191 | storing under an absent name adds the cell, or leaves the name absent when memory is out |
| VarCache.VariableCache.FindLive | xcache-1.3.0/xcache.c:1990-2002 | the entry of the name if it is live; an expired one is removed |
| VarCache.VariableCache.Rewrite | xcache-1.3.0/xcache.c:2164-2177 | the in-place update gives the cell its new number, time and ttl, and touches no other |
| VarCache.VariableCache.Recount | xcache-1.3.0/xcache.c:2192-2202 | the new value of a counter is stored, in place or through a new entry |
| VarCache.VariableCache.CurrentCount | xcache-1.3.0/xcache.c:2154-2192 | the number an increment starts from: the live value, converted if it is no integer, else zero |
| VarCache.VariableCache.Get | xcache-1.3.0/xcache.c:1972-2012 | answer and new contents are those of the map; an expired entry is removed |
| VarCache.VariableCache.Set | xcache-1.3.0/xcache.c:2016-2049 | refines the map: the old entry goes even when the store fails, which leaves the key absent |
| VarCache.VariableCache.Isset | xcache-1.3.0/xcache.c:2053-2093 | refines the map; an expired entry is removed |
| VarCache.VariableCache.Unset | xcache-1.3.0/xcache.c:2097-2124 | refines the map; true exactly if the name was stored, expired or not |
| VarCache.VariableCache.IncDec | xcache-1.3.0/xcache.c:2126-2205 | refines the map (see VarSpec.IncIs): in place over a live integer, which cannot run out of memory, else through a new entry |
| VarCache.VariableCache.GcExpires | xcache-1.3.0/xcache.c:379-390 | refines the map's collection when the interval has passed, else changes nothing |
| Counters.HitCounters.constructor | xcache-1.3.0/xcache.c:1489-1503 | zeroed counters are the run with no hits |
| Counters.HitCounters.AdvanceWrapped | xcache-1.3.0/xcache.c:257-263 | the next slot, going round |
| Counters.HitCounters.Inc | xcache-1.3.0/xcache.c:265-286 | specification Hit, for a clock that moves either way; the current slot is always the time modulo the size |
| Counters.HitCounters.Advance | xcache-1.3.0/xcache.c:268-284 | clears exactly the slots of the specification Advanced, whichever way the clock moves |
| Counters.HitCounters.ClearPassed | xcache-1.3.0/xcache.c:272-279 | the loop terminates and clears exactly the slots after the current one, going round, up to the target |
| Counters.LastMoves | xcache-1.3.0/xcache.c:265-286 | as time goes on a slot keeps standing for the same time until the window passes over it |
| Counters.ClockBackIff | xcache-1.3.0/xcache.c:265-286 | when the clock goes back, exactly the counters of the times it has yet to pass again stay, modulo the ring; those of the past are cleared |
| Counters.ClockBackLoses | xcache-1.3.0/xcache.c:265-286 | in the ring of 24 hours, after the clock went back five hours, a hit of ten hours before is lost |
| Counters.KeepsNothingStaleIff | xcache-1.3.0/xcache.c:265-286 | for all contents no counter keeps more than the window's hits exactly if the gap is at most the ring size, beyond the period, or a multiple of the ring size |
| Counters.HourRing | xcache-1.3.0/xcache.c:292-296 | in the program's ring of 24 hours, after two hits 25 hours apart, the first is shown as a hit of the hour before the second |
| Counters.LosesNothingIff | xcache-1.3.0/xcache.c:265-286 | for all contents no counter loses hits of the window exactly if the gap is zero, at most the period, or at least the ring size |
| Counters.SecondRing | xcache-1.3.0/xcache.c:298-302 | in the program's ring of 5 seconds, after two hits 2 s apart, the first is lost although its slot still stands for its second |
| Counters.CountersNeverStale | xcache-1.3.0/xcache.c:265-286 | over every run without stale gaps each counter is at most the hits of its time in the window |
| Counters.CountersAreExact | xcache-1.3.0/xcache.c:265-286 | over every run in which no gap is stale or lossy each counter is exactly the hits of its time in the window |
| HashFold.ConfigHash | xcache-1.3.0/xcache.c:2744-2763 | the size is the least power of two not below the wish; bits is one more than its logarithm |
| HashFold.ConfigHashStopsIff | xcache-1.3.0/xcache.c:2754-2756 | the doubling ever reaches the size wanted exactly if that is at most 2^30; beyond, it overflows and stays at zero |
| HashFold.LoopsForever | xcache-1.3.0/xcache.c:2754-2756 | a wish of 2^30 + 1 slots is never reached |
| HashFold.Fold | xcache-1.3.0/xcache.c:763-772 | the index is always below the size, for every hash value |
| HashFold.MaskIsRemainder | xcache-1.3.0/xcache.c:763-772 | masking takes the remainder modulo the size |
| HashFold.BitReachesIndexIff | xcache-1.3.0/xcache.c:763-772 | for every hash value, flipping a bit changes the index exactly if its position modulo bits is below bits - 1 |
| HashFold.FlippedBit | xcache-1.3.0/xcache.c:763-772 | a flipped bit flips the one bit of the index at its position in its group, or nothing |
| HashFold.UnseenBitsDoNotMatter | xcache-1.3.0/xcache.c:763-772 | values that differ in any number of dropped bits get the same index |
| HashFold.DefaultSlots | xcache-1.3.0/xcache.c:2813 | with the default of 8K slots, values that differ in bit 13 share a chain |
| Arenas.CarvedIsLargestIff | xcache-1.3.0/xcache.c:1474-1485 | the region size is the largest aligned value not above size / count exactly when that share fits 32 bits; it never exceeds the share, and is aligned exactly if the share fits or was aligned |
| Arenas.CarvedArenaRefusesExactly | xcache-1.3.0/xcache.c:1474-1501 | in every arena carved from an int setting, a request is refused exactly when no free block fits exactly or is larger by more than a header |
| Arenas.WideShareIff | xcache-1.3.0/xcache.c:2764-2774 | an int setting yields a share of 32 bits or more exactly if it is negative |
| Arenas.MemSize | xcache-1.3.0/xcache.c:1474-1485 | the loop ends; it gives up exactly for a share of 1 to 7 bytes, and else leaves the carved size |
| Arenas.Segment.constructor | xcache-1.3.0/mmap.c:153-154 | nothing is handed out at first |
| Arenas.Segment.MemInit | xcache-1.3.0/mmap.c:281-293 | hands out the next bytes, or fails exactly when they would reach beyond the segment |
| Arenas.Segment.CacheInit | xcache-1.3.0/xcache.c:1466-1511 | count consecutive regions of the carved size; "too small" exactly for a share of 1 to 7 bytes, the internal error only if the regions do not fit |
| Arenas.Segment.MakeCaches | xcache-1.3.0/xcache.c:1486-1503 | one region per cache, in order, as long as there is room and every cache works |
| Arenas.InitAcceptsIff | xcache-1.3.0/xcache.c:1547-1555 | the check rejects exactly the sizes whose aligned sum does not fit an address |
| Arenas.NegativeSettingPassesIff | xcache-1.3.0/xcache.c:1547-1555 | a negative setting passes the check exactly if it is -8 or less, and then wants nearly the whole address space |
| Arenas.SegmentSize | xcache-1.3.0/xcache.c:1547-1555 | the accepted segment holds both aligned sizes |
| Arenas.InitKind | xcache-1.3.0/xcache.c:1563-1571 | inside the room left for it no internal error happens, and the caches are made exactly if there are none or each share is zero or at least 8 bytes and every cache works; regions in order and inside, aligned while the share fits 32 bits |
| Arenas.XcInit | xcache-1.3.0/xcache.c:1544-1590 | it starts exactly if the aligned sizes fit an address and the largest mapping, each share is zero or at least 8 bytes, and every cache works; the internal error is never reached; all regions lie in the segment, are pairwise disjoint and have the carved size, and are aligned while every share fits 32 bits, which is so for all settings when no segment within 2^31 bytes of the address space can be mapped |
| ApcSpec.SameKeyMeansSameIdent | php-apc-3.1.9/APC-3.1.9/apc_cache.c:466-490 | key comparison is equality of device and inode for files, whatever the modification time, and of type and string for the others |
| ApcSpec.RemovedKeepsInv | php-apc-3.1.9/APC-3.1.9/apc_cache.c:179-195 | removal keeps placement, unique keys and both counters; others are untouched; the slot survives exactly if referenced, with its time of removal |
| ApcSpec.WalkFromOutcome | php-apc-3.1.9/APC-3.1.9/apc_cache.c:579-611 | the inserting walk dismisses only slots it evicts or replaces and keeps the invariant at every step |
| ApcSpec.WalkClears | php-apc-3.1.9/APC-3.1.9/apc_cache.c:579-611 | when the walk is not refused, no slot of the key is left in its chain |
| ApcSpec.WalkDropsIff | php-apc-3.1.9/APC-3.1.9/apc_cache.c:579-611 | a walk that is not refused drops the slot of the key, of the slots before it in the chain exactly those to be evicted, and no other |
| ApcSpec.InsertedKeepsInv | php-apc-3.1.9/APC-3.1.9/apc_cache.c:613-620 | linking a new slot anywhere in its chain keeps the invariant when the key is absent |
| ApcSpec.JudgesAreFaithful | php-apc-3.1.9/APC-3.1.9/apc_cache.c:466-493 | both inserting walks replace or refuse slots of their own key only |
| ApcSpec.InsertIs | php-apc-3.1.9/APC-3.1.9/apc_cache.c:539-631 | an insert keeps the invariant, and unless refused, lookups of the key find the new slot |
| ApcSpec.InsertDismissesOnly | php-apc-3.1.9/APC-3.1.9/apc_cache.c:539-631 | an insert leaves every other linked slot alone unless it is idle, over its age or of the same key |
| ApcSpec.InsertDropsIff | php-apc-3.1.9/APC-3.1.9/apc_cache.c:539-631 | the same for a whole insert, for slots linked before it |
| ApcSpec.UserInsertDropsIff | php-apc-3.1.9/APC-3.1.9/apc_cache.c:579-611 | a user insert drops the slot of its key and, of those before it in the chain, exactly those not accessed for longer than the cache ttl or over their own ttl |
| ApcSpec.FileInsertDropsIff | php-apc-3.1.9/APC-3.1.9/apc_cache.c:464-493 | a file insert drops the slot of its key and, of those before it in the chain, exactly those of its type not accessed for longer than the cache ttl |
| ApcSpec.InsertRefusedIff | php-apc-3.1.9/APC-3.1.9/apc_cache.c:579-611 | an insert is refused exactly if a linked slot of its key asks for it |
| ApcSpec.UserInsertRefusedIff | php-apc-3.1.9/APC-3.1.9/apc_cache.c:582-596 | an exclusive insert is refused exactly while the key is stored without a ttl or with one not over; others never |
| ApcSpec.FileInsertRefusedIff | php-apc-3.1.9/APC-3.1.9/apc_cache.c:466-475 | a file insert is refused exactly if the same version is stored and no update is forced |
| ApcSpec.MatchIs | php-apc-3.1.9/APC-3.1.9/apc_cache.c:635-689 | a lookup finds the one linked slot with the typed key, and none exactly when there is none |
| ApcSpec.FoundIff | php-apc-3.1.9/APC-3.1.9/apc_cache.c:702-752 | a lookup hands out a slot exactly if it is linked under the typed key and, for a file, the modification times agree, for a user value, there is no ttl or it is not over |
| ApcSpec.HitTakesReference | php-apc-3.1.9/APC-3.1.9/apc_cache.c:655-676 | a hit adds one reference and notes the time, and changes nothing else |
| ApcSpec.MissDismissesIff | php-apc-3.1.9/APC-3.1.9/apc_cache.c:634-752 | a miss removes the outdated slot of the key exactly in the build whose lookups hold the write lock, and touches no other slot |
| ApcSpec.InsertThenFind | php-apc-3.1.9/APC-3.1.9/apc_cache.c:539-752 | a value inserted at time t with a ttl is found at u exactly if u <= t + ttl, or always if the ttl is 0 |
| ApcSpec.ExpungeIs | php-apc-3.1.9/APC-3.1.9/apc_cache.c:354-443 | a slot stays linked exactly if there was room already, or a ttl is set, dropping stale slots made enough room, and the slot is a file accessed within the ttl, or a user value within its own ttl since its creation, or the cache's if it has none |
| ApcSpec.TouchedKeepsInv | php-apc-3.1.9/APC-3.1.9/apc_cache.c:660-675 | changing counts and times of a slot disturbs nothing |
| ApcSpec.SweptOutcome | php-apc-3.1.9/APC-3.1.9/apc_cache.c:354-443 | a sweep dismisses exactly the linked slots it selects |
| ApcSpec.SweptEmpties | php-apc-3.1.9/APC-3.1.9/apc_cache.c:325-350 | clearing leaves every chain empty, and counters that count just what was lost before |
| ApcSpec.PendingIs | php-apc-3.1.9/APC-3.1.9/apc_cache.c:198-239 | a pending pass destroys exactly the unreferenced slots and those over gc_ttl, keeps the order of the rest, touches nothing else |
| ApcSpec.PendingDestroysIff | php-apc-3.1.9/APC-3.1.9/apc_cache.c:198-239 | a pass destroys a slot on the list exactly if nobody refers to it or, with a gc_ttl, it has waited for longer; no other slot is touched |
| ApcSpec.DeleteClears | php-apc-3.1.9/APC-3.1.9/apc_cache.c:846-869 | a delete dismisses the slot of the key, so that no slot has it, and touches no other |
| ApcSpec.WalkLeaves | php-apc-3.1.9/APC-3.1.9/apc_cache.c:579-611 | a walk that is not refused stops at the end of its chain, unless it replaces the slot of the key: then at what was behind that slot |
| ApcSpec.BehindIs | php-apc-3.1.9/APC-3.1.9/apc_cache.c:579-611 | what is behind the key in a chain is what follows the slot that a lookup of the key stops at |
| ApcSpec.CutOffKeepsInv | php-apc-3.1.9/APC-3.1.9/apc_cache.c:613-615 | cutting a chain anywhere keeps placement and unique keys; the counters go on counting the slots cut off |
| ApcSpec.FailedInsertLoses | php-apc-3.1.9/APC-3.1.9/apc_cache.c:613-615 | an insert whose make_slot fails loses exactly the slots that were, before the call, behind the slot of the key in its chain, and none if it is refused; the rest keeps the invariant |
| ApcCache.SlotTable.constructor | php-apc-3.1.9/APC-3.1.9/apc_cache.c:271-302 | an empty table satisfies the invariant |
| ApcCache.SlotTable.RemoveSlot | php-apc-3.1.9/APC-3.1.9/apc_cache.c:179-195 | specification Removed; the chain loses exactly that link |
| ApcCache.SlotTable.CutLink | php-apc-3.1.9/APC-3.1.9/apc_cache.c:179-185 | the chain loses exactly that link, and the counters its entry and its memory |
| ApcCache.SlotTable.Retire | php-apc-3.1.9/APC-3.1.9/apc_cache.c:186-194 | an unreferenced slot is destroyed, a referenced one put on the list with its time of removal |
| ApcCache.SlotTable.ProcessPending | php-apc-3.1.9/APC-3.1.9/apc_cache.c:198-239 | specification Pending (see ApcSpec.PendingIs) |
| ApcCache.SlotTable.PendingOne | php-apc-3.1.9/APC-3.1.9/apc_cache.c:218-238 | each turn destroys an eligible slot or passes over one that waits |
| ApcCache.SlotTable.Walk | php-apc-3.1.9/APC-3.1.9/apc_cache.c:579-611 | specification WalkFrom, for either insert |
| ApcCache.SlotTable.Insert | php-apc-3.1.9/APC-3.1.9/apc_cache.c:447-631 | refused exactly if a linked slot of the key asks for it; whole new state and result, the failure of make_slot included; the invariant is kept; a successful insert is found by lookups; slots are lost exactly if make_slot fails while others are behind the key |
| ApcCache.SlotTable.Link | php-apc-3.1.9/APC-3.1.9/apc_cache.c:613-620 | the new slot goes where the walk stopped, and both counters grow |
| ApcCache.SlotTable.Cut | php-apc-3.1.9/APC-3.1.9/apc_cache.c:613-615 | what follows the point where the walk stopped leaves its chain, and the counters stay |
| ApcCache.SlotTable.First | php-apc-3.1.9/APC-3.1.9/apc_cache.c:846-869 | the first slot in the chain whose key matches |
| ApcCache.SlotTable.Find | php-apc-3.1.9/APC-3.1.9/apc_cache.c:634-752 | a hit, exactly for a file of the same modification time or a value not over its ttl, takes a reference; the outdated slot is removed in the build whose lookups hold the write lock |
| ApcCache.SlotTable.Delete | php-apc-3.1.9/APC-3.1.9/apc_cache.c:846-869 | true exactly if the key was stored; afterwards it is not |
| ApcCache.SlotTable.Release | php-apc-3.1.9/APC-3.1.9/apc_cache.c:921-924 | gives one reference back |
| ApcCache.SlotTable.Sweep | php-apc-3.1.9/APC-3.1.9/apc_cache.c:408-433 | specification Swept (see ApcSpec.SweptOutcome) |
| ApcCache.SlotTable.Clear | php-apc-3.1.9/APC-3.1.9/apc_cache.c:325-350 | every chain is empty, and the counters count just what was lost before |
| ApcCache.SlotTable.Expunge | php-apc-3.1.9/APC-3.1.9/apc_cache.c:354-443 | pending pass, then nothing, the stale slots or everything, as ttl and the allocator say |
| ApcRuns.ExpungeSpares | php-apc-3.1.9/APC-3.1.9/apc_cache.c:354-443 | everything an expunge destroys was unreferenced or overdue |
| ApcRuns.InsertSpares | php-apc-3.1.9/APC-3.1.9/apc_cache.c:447-631 | everything an insert destroys was unreferenced or overdue |
| ApcRuns.FailedInsertSpares | php-apc-3.1.9/APC-3.1.9/apc_cache.c:495-497 | an insert that fails destroys only what was unreferenced or overdue |
| ApcRuns.NextKeepsInv | php-apc-3.1.9/APC-3.1.9/apc_cache.c:179-924 | every step keeps placement, unique keys and counters, and loses exactly the slots behind the key when an insert fails in make_slot and was not refused |
| ApcRuns.NextKeepsHoldInvIff | php-apc-3.1.9/APC-3.1.9/apc_cache.c:198-239 | counts stay equal to references held in every step, except that a pending pass breaks them exactly when it meets a borrowed slot over gc_ttl |
| ApcRuns.BorrowedIsDestroyedIff | php-apc-3.1.9/APC-3.1.9/apc_cache.c:198-239 | a step destroys a borrowed slot exactly if it is a pending pass that finds it overdue |
| ApcRuns.RunKeepsInv | php-apc-3.1.9/APC-3.1.9/apc_cache.c:179-924 | in every run, whatever fails: each allocated slot in one chain, on the list or lost, unique typed keys, exact entry and memory counters |
| ApcRuns.NothingLostIff | php-apc-3.1.9/APC-3.1.9/apc_cache.c:613-615 | a run has lost nothing exactly as long as no insert failed in make_slot, unrefused, with others behind its key |
| ApcRuns.LostForever | php-apc-3.1.9/APC-3.1.9/apc_cache.c:613-615 | a lost slot stays allocated and counted through every later step of any run, and no lookup finds it |
| ApcRuns.CountsAreExact | php-apc-3.1.9/APC-3.1.9/apc_cache.c:634-924 | in every run without an overdue borrowed slot (in every run, if gc_ttl is 0) each count is the number of references held, lost slots included |
| ApcRuns.BorrowedSurvives | php-apc-3.1.9/APC-3.1.9/apc_cache.c:634-924 | over every such run a slot borrowed throughout is the same undestroyed slot at both ends |
| ApcRuns.BorrowedSlotCanBeDestroyed | php-apc-3.1.9/APC-3.1.9/apc_cache.c:198-239 | a run of four steps at whose end a borrowed slot is destroyed |
| ApcRuns.SecondSlotCanBeLost | php-apc-3.1.9/APC-3.1.9/apc_cache.c:613-615 | a run of three steps at whose end a slot is lost |
| ApcImage.WroteApart | php-apc-3.1.9/APC-3.1.9/apc_bin.c:475-534 | storing a number changes no number that does not overlap it |
| ApcBin.CellStep | php-apc-3.1.9/APC-3.1.9/apc_bin.c:578-585 | rewriting a cell a second time makes no difference, so a location may be recorded twice |
| ApcBin.RoundTrip | php-apc-3.1.9/APC-3.1.9/apc_bin.c:475-590 | swizzled, moved and unswizzled: each recorded pointer and the entry pointer have their old targets relative to the image, all other payload bytes are kept |
| ApcBin.LastTwoBytesKeptIff | php-apc-3.1.9/APC-3.1.9/apc_bin.c:504-515 | the whole payload survives a dump exactly if its last two bytes are the low bytes of the first table entry, or, when nothing is recorded, if its last byte is zero |
| ApcBin.AlteredPassesIff | php-apc-3.1.9/APC-3.1.9/apc_bin.c:548-574 | a dump altered outside its checksums is accepted exactly if the checksums asked for collide with those of the dump as it was |
| ApcDump.Dump.Record | php-apc-3.1.9/APC-3.1.9/apc_bin.c:162-175 | records a cell exactly if its pointer lies strictly inside the image; keeps the recorded set sound |
| ApcDump.Dump.Swizzle | php-apc-3.1.9/APC-3.1.9/apc_bin.c:68-76 | one pointer inside the image becomes its offset, any other value stays |
| ApcDump.Dump.SwizzleCells | php-apc-3.1.9/APC-3.1.9/apc_bin.c:485-501 | all recorded cells become offsets, duplicates included, and nothing else changes; fails exactly if some pointer is astray |
| ApcDump.Dump.WriteTable | php-apc-3.1.9/APC-3.1.9/apc_bin.c:509 | the table lists the offsets; bytes around it are kept |
| ApcDump.Dump.Append | php-apc-3.1.9/APC-3.1.9/apc_bin.c:504-514 | the image grows, possibly moving, and its header describes the table |
| ApcDump.Dump.Grow | php-apc-3.1.9/APC-3.1.9/apc_bin.c:505 | the old bytes are kept wherever the image lands; the new ones are arbitrary |
| ApcDump.Dump.ClearChecksums | php-apc-3.1.9/APC-3.1.9/apc_bin.c:520-521 | only the twenty checksum bytes change |
| ApcDump.Dump.Seal | php-apc-3.1.9/APC-3.1.9/apc_bin.c:515-531 | the checksums stored are those of the image with blank checksums |
| ApcDump.Dump.SwizzleImage | php-apc-3.1.9/APC-3.1.9/apc_bin.c:475-534 | the whole dump: succeeds exactly if no pointer is astray, and is then a sealed dump of the image |
| ApcDump.PlacedIff | php-apc-3.1.9/APC-3.1.9/apc_bin.c:68-76 | a dump is refused exactly if a recorded pointer or the entry pointer lies outside the image and is larger than the image; of recorded ones none does |
| ApcDump.Dump.Verify | php-apc-3.1.9/APC-3.1.9/apc_bin.c:548-574 | accepts exactly if the checksums asked for agree; then the image is unchanged, else only its checksums are blank |
| ApcDump.Dump.MoveHeader | php-apc-3.1.9/APC-3.1.9/apc_bin.c:576-577 | both header pointers move and nothing else changes |
| ApcDump.Dump.Unswizzle | php-apc-3.1.9/APC-3.1.9/apc_bin.c:581-583 | one offset becomes a pointer, unless it is null or a pointer already |
| ApcDump.Dump.UnswizzleCell | php-apc-3.1.9/APC-3.1.9/apc_bin.c:579-584 | one table entry and its cell are moved, unless the cell already was |
| ApcDump.Dump.UnswizzleCells | php-apc-3.1.9/APC-3.1.9/apc_bin.c:577-585 | every listed cell and table entry is moved once, duplicates included |
| ApcDump.Dump.UnswizzleImage | php-apc-3.1.9/APC-3.1.9/apc_bin.c:538-590 | loads exactly the images that pass; the result is the loaded image |
| ApcDump.DumpThenLoad | php-apc-3.1.9/APC-3.1.9/apc_bin.c:475-590 | end to end: an unaltered dump passes any checks, keeps its checksums, and every pointer and payload byte is right at the new address |
| ApcDump.LosesLastBytes | php-apc-3.1.9/APC-3.1.9/apc_bin.c:504-515 | an image filled to its last bytes whose dump has lost them |
| ApcWalk.Walker.SwizzleZval | php-apc-3.1.9/APC-3.1.9/apc_bin.c:440-471 | terminates on every finite graph, cycles included; everything new is reachable, and its children are visited |
| ApcWalk.Walker.SwizzleHashtable | php-apc-3.1.9/APC-3.1.9/apc_bin.c:399-436 | the same for the buckets of one array, each bucket's cells recorded once |
| ApcWalk.Walker.SwizzleBucket | php-apc-3.1.9/APC-3.1.9/apc_bin.c:404-427 | one bucket: its zval is visited, then its own cells are recorded |
| ApcWalk.Walker.Enter | php-apc-3.1.9/APC-3.1.9/apc_bin.c:443-447 | a zval enters the visited set once |
| ApcWalk.Walker.SwizzleEntry | php-apc-3.1.9/APC-3.1.9/apc_bin.c:731-732 | visits exactly the reachable zvals, expands each once, and records exactly the cells of the zvals visited, so every string pointer, bucket cell and table cell that can be reached |
| ApcWalk.VisitedIsReachable | php-apc-3.1.9/APC-3.1.9/apc_bin.c:440-471 | a visit that starts with nothing visited covers exactly what can be reached |
| ApcWalk.OwnCellsPoint | php-apc-3.1.9/APC-3.1.9/apc_bin.c:399-471 | what a zval accounts for are the pointer of a string, and the cells of every bucket and of the table of an array |
| ApcWalk.Walker.SwizzleTree | php-apc-3.1.9/APC-3.1.9/apc_bin.c:440-471 | without a set of visited zvals, as for file entries: terminates when arrays nest without cycles, and records the cells met on every path, in the order met |
| ApcWalk.Walker.SwizzleElements | php-apc-3.1.9/APC-3.1.9/apc_bin.c:399-427 | the loop over the buckets in that case |
| ApcWalk.TreeCellsAreReached | php-apc-3.1.9/APC-3.1.9/apc_bin.c:440-471 | those are exactly the string pointers, bucket cells and table cells of the zvals that can be reached |
| ApcEntries.WalkedIsRecorded | php-apc-3.1.9/APC-3.1.9/apc_bin.c:162-175 | the cells a traversal records meet every condition of dumping and loading, given that the zvals' pointers lie apart in the payload and point into the image |
| ApcEntries.TreeIsRecorded | php-apc-3.1.9/APC-3.1.9/apc_bin.c:162-175 | the same for a traversal that follows every path |
| ApcEntries.RecordEntry | php-apc-3.1.9/APC-3.1.9/apc_bin.c:714-735 | one user entry end to end, the first or a later one: what is recorded besides the earlier cells are those of the reachable zvals, each once, and the image with all of them can be dumped and loaded |
| ArrayDiff.CountArrayDiff | php5-5.2.17/run-tests.php:2003-2043 | terminates for every real budget; specification CountFrom |
| ArrayDiff.BestLeft | php5-5.2.17/run-tests.php:2017-2025 | the best count after skipping lines on the left, while the halved budget lasts |
| ArrayDiff.BestRight | php5-5.2.17/run-tests.php:2027-2034 | the best count after skipping lines on the right, while the budget lasts |
| ArrayDiff.CountIsAttained | php5-5.2.17/run-tests.php:2003-2043 | for every relation and budget the count is the size of a strictly increasing matching of what is left |
| ArrayDiff.LcsIsAttained | php5-5.2.17/run-tests.php:2003-2043 | the reference length is the size of some matching |
| ArrayDiff.NoMatchingIsLonger | php5-5.2.17/run-tests.php:2003-2043 | no matching is longer than the reference length |
| ArrayDiff.CountIsAtMostLcs | php5-5.2.17/run-tests.php:2003-2043 | the count never exceeds the longest common subsequence |
| ArrayDiff.LeftReach | php5-5.2.17/run-tests.php:2003-2043 | a line of the output is found among the expected ones less than half the budget, plus a half, ahead |
| ArrayDiff.RightReach | php5-5.2.17/run-tests.php:2003-2043 | an expected line is found in the output less than the budget ahead |
| ArrayDiff.LookAheadReach | php5-5.2.17/run-tests.php:2003-2062 | with the budget of 10 the last line of a text is found at most 5 lines ahead on the left and 9 on the right |
| ArrayDiff.MarkFromIsSound | php5-5.2.17/run-tests.php:2053-2075 | at every moment each line passed is either marked once, in order, or matched, in order |
| ArrayDiff.DiffIsSound | php5-5.2.17/run-tests.php:2045-2110 | for every relation: unmarked lines are equal in number on both sides and match pairwise in order; every other line is marked |
| ArrayDiff.NothingMarkedIff | php5-5.2.17/run-tests.php:2053-2075 | nothing is marked exactly when the texts match line by line |
| ArrayDiff.DiffListsTheMarks | php5-5.2.17/run-tests.php:2077-2107 | the output lists each marked line exactly once, both kinds of numbers in increasing order |
| ArrayDiff.DiffKeepsTexts | php5-5.2.17/run-tests.php:2077-2107 | each line printed has the text of the line it numbers |
| ArrayDiff.EmptyDiffIff | php5-5.2.17/run-tests.php:2045-2110 | the output is empty exactly when the texts match line by line |
| ArrayDiff.OneRemovedDiff | php5-5.2.17/run-tests.php:2045-2110 | if the output lacks one line, which matches no other, the diff is that line alone |
| ArrayDiff.OneAddedDiff | php5-5.2.17/run-tests.php:2045-2110 | if the output has one line more, which nothing matches, the diff is that line alone |
| ArrayDiff.RemovedLineIsListed | php5-5.2.17/run-tests.php:2045-2110 | the same for any text, with a line put in anywhere on the left |
| ArrayDiff.AddedLineIsListed | php5-5.2.17/run-tests.php:2045-2110 | the same for any text, with a line put in anywhere on the right |
| ArrayDiff.MergeIsInOrder | php5-5.2.17/run-tests.php:2077-2099 | runs of consecutive line numbers are printed whole, in the order of their first numbers, an added one before a removed one with the same first number |
| ArrayDiff.MarkLines | php5-5.2.17/run-tests.php:2053-2075 | terminates; specification MarkFrom |
| ArrayDiff.MarkTurn | php5-5.2.17/run-tests.php:2055-2074 | one turn matches, or marks by the look-ahead counts, and always advances |
| ArrayDiff.MergeMarks | php5-5.2.17/run-tests.php:2077-2099 | terminates; specification MergeFrom |
| ArrayDiff.GenerateArrayDiff | php5-5.2.17/run-tests.php:2045-2110 | specification DiffOf, of which the lemmas above speak |
| Coverage.Coverager.AddHits | xcache-1.3.0/coverager.c:359-376 | specification Added: -1 and absent are identities, line 0 is ignored |
| Coverage.Coverager.constructor | xcache-1.3.0/coverager.c:342-357 | a new map is empty |
| Coverage.Coverager.Update | xcache-1.3.0/coverager.c:375 | a known line keeps its place in the order, a new one comes last |
| Coverage.Coverager.MergeOne | xcache-1.3.0/coverager.c:137-146 | one stored line: -1 adds nothing to a known line, counts add up |
| Coverage.Coverager.Merge | xcache-1.3.0/coverager.c:119-148 | specification Merged: a stored line counts like an event |
| Coverage.Coverager.SaveCov | xcache-1.3.0/coverager.c:65-183 | what is written is the merged map, with the number of lines hit in the header |
| Coverage.Decode | xcache-1.3.0/coverager.c:509-534 | specification Decoded (see Coverage.DecodedIs) |
| Coverage.JoinLaws | xcache-1.3.0/coverager.c:359-376 | combining counts is associative and commutative; absent is an identity, and -1 is one for known lines |
| Coverage.TallyIsSum | xcache-1.3.0/coverager.c:359-376 | line 0 and lines no event names are unknown, a line named with -1 only has -1, any other the sum of its hits |
| Coverage.AddedAllTallies | xcache-1.3.0/coverager.c:359-376 | a request's count for a line is what its events say about it |
| Coverage.MergedFromTallies | xcache-1.3.0/coverager.c:136-147 | merging a file joins what the file says about each line |
| Coverage.RoundTrip | xcache-1.3.0/coverager.c:154-172 | reading back what was written gives every line its count |
| Coverage.FileTallies | xcache-1.3.0/coverager.c:65-183 | after any number of requests each line of the file has what all events so far say about it |
| Coverage.DecodedIs | xcache-1.3.0/coverager.c:509-534 | decoding a dump gives max(hits, 0) for every known line and the number of lines hit for index 0 |
| Coverage.SplitDoesNotMatter | xcache-1.3.0/coverager.c:65-183 | however the same events are spread over requests, in whatever order, the files have the same counts and decode alike |

## Left out

Simplifications of the models:

- In `XCache`, `VarCache` and `ApcCache` a chain is a sequence of addresses held by the table and the heap is a map from addresses to entries; `pp` and `slot_t **` surgery is surgery at a position. The `next` words themselves are modelled in `MemSpec` and `Mem` only.
- One XCache cache is modelled; several caches share nothing but the segment, whose carving is in `Arenas`.
- The layout constants are those of a 64-bit little-endian platform (8-byte alignment, 32-bit `xc_memsize_t`, 64-bit `long`); `Mem` works on 8-byte words.
- Allocator answers inside the caches are parameters of the calls (an address not in use, or failure); a returned address is fresh, or in the variable cache that of an entry about to be removed.
- Locked sections are single steps, for the compile protocol and for the APC table alike. The unlocked precheck of `compiling` is subsumed by the clogged answer of the locked section. A bailout inside the first locked section, which clears the flag outside the lock, and a request time of zero are assumed away.
- Keys of one cache are all made with one `stat` setting and names contain no NUL; `CacheSpec.EqualIsSymmetricIff`, `CacheSpec.RemoveStopsElsewhereIff` and `Chains.NamesMatchOnlyThemselves` say what happens otherwise.
- Storing and restoring an entry is a faithful copy; a value is an integer, or an opaque tag with its integer conversion.
- The slots an APC table has lost are listed in a ghost field, since nothing in the cache points to them.
- A slot of the APC table carries its type in its key; `time(0)` and the request's time are two parameters.
- The condition `size <= base address` for images is a precondition of dumping and loading, as is that recorded cells lie behind the header, before the last two bytes, and coincide or do not overlap.
- A pointer cell whose address is recorded although it lies outside the image (its table entry would be uninitialised memory) is excluded by the same precondition.
- The two checksums are arbitrary functions of the image; that APC's CRC table equals a standard one is not claimed.
- A coverage file is a sequence of whole 8-byte words; hit counts are unbounded and at least -1, the only values the recorder passes.
- Hit counters and reference counts are unbounded integers.
- In `ArrayDiff` the line relation is an arbitrary function and the patterns and the expected lines have the same length. In PHP the assignments to `$old1[$idx1]` and `$old2[$idx2]` use the index after the increment, so both arrays are keyed by line number; the model uses these keys.
- The step budget of the diff is a real number; the original's floating-point halves are exact at these sizes.

Members stated weaker than the original:

- CompileProtocol.HeldEntriesSurvive: needs every holder to give back within 3600 s of an entry's deletion before a collection; `CompileProtocol.CollectKeepsHoldInvIff` shows that this cannot be dropped.
- CompileProtocol.HeldStaysItself: needs timely holders, as HeldEntriesSurvive.
- ApcRuns.CountsAreExact: needs no borrowed slot to be overdue, as BorrowedSurvives.
- ApcRuns.BorrowedSurvives: needs no borrowed slot to be over gc_ttl at a pending pass, for the reason `ApcRuns.NextKeepsHoldInvIff` gives.
- Mem.Arena.Malloc: requests of zero bytes, and those for which the 32-bit size wraps, are excluded; `Blocks.RealSizeHoldsFreeHeader` shows that exactly these get a block too small for its own header.
- HashFold.ConfigHash: sizes beyond 2^30 are excluded; `HashFold.ConfigHashStopsIff` shows that the loop stops for exactly the others.
- ApcCache.SlotTable.Insert: keys with a NUL are excluded.
- ApcCache.SlotTable.Find: keys with a NUL are excluded.
- ApcCache.SlotTable.Delete: keys with a NUL are excluded.
- VarCache.VariableCache.Get: names with a NUL are excluded, because such a name is also matched by its part before the NUL (`Chains.NamesMatchOnlyThemselves`); so for Set, Isset, Unset and IncDec.
- VarCache.VariableCache.Set: names with a NUL are excluded, as for Get.
- VarCache.VariableCache.Isset: names with a NUL are excluded, as for Get.
- VarCache.VariableCache.Unset: names with a NUL are excluded, as for Get.
- VarCache.VariableCache.IncDec: names with a NUL are excluded, as for Get.
- ApcDump.Dump.Record: cells outside the payload are excluded, because their table entries would be uninitialised memory.
- ApcDump.Dump.UnswizzleImage: an altered dump that passes, or is loaded without checks, must still have a well-formed table; the original follows any table.

Not modelled:

- Hit, miss, clog and insert statistics of both caches, other than XCache's hit rings.
- The `xc_test` path that restores right after storing, and the sandbox around compilation.
- xc_mem_calloc, realloc, strdup and the debug magic words: easy consequences of malloc and free.
- xc_mmap_meminit ignores that initialising a region smaller than 56 bytes fails (`Mem.Arena.Init` says when); what later allocations do with such a region is not described.
- Read-only mappings and the translations between the two mappings; lock, mmap and file implementations.
- APC's unlocked busy flag, the last-key slam heuristic and an expunge started by an allocation inside another operation.
- apc_cache_user_update, apc_cache_user_exists and apc_cache_insert_mult: lookups and repeated inserts with nothing new to prove.
- The lists of pointer fields in op_arrays and class entries, and the copying and installing of both.
- Choosing the coverage file (time stamps, locking, directories); `newfile` is a parameter.
- comp_line itself, sprintf formatting of line numbers, and the rest of the test runner.
- The remaining packages: decompiler, ffmpeg bindings, user interfaces and packaging.
