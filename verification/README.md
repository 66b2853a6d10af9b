# xv6 buffer cache, per-CPU page allocator, find and xargs — a Dafny model

This project models four pieces of sequential logic from an xv6 (RISC-V) lab
repository, with every lock removed so that each operation is one atomic step
on an immutable value:

- **Buffer cache** (`kernel/bio.c`) — module `BufferCache`, file `bio.dfy`.
  NBUF slots (`Buf`: device, block number, `valid`, `refcnt`), a per-slot
  release `timestamp`, and a two-way hash index: `key2bidx` (65537 entries,
  hash key to slot) and `bidx2key` (slot to key), both using `-1` for "none".
  `bget` looks a block up through the index. On a hit it takes one more
  reference. On a miss it asks `findevictee` for the free slot with the oldest
  release time and refiles that slot under the new key. `bread` fills an
  invalid slot from disk. `brelse` drops a reference and stamps the slot with
  `ticks` when the count reaches zero. `bpin` and `bunpin` adjust the count.
  The index invariant `Valid` says the two arrays are inverse partial maps and
  that each filed slot sits under the hash of the block it holds. `Binit`
  establishes it and every operation keeps it.
- **Per-CPU page allocator** (`kernel/kalloc.c`) — module `PageAllocator`,
  file `kalloc.dfy`. Each CPU has a `Pool`: a free list as `seq<nat>`, head
  first, and a `size`. `kfree` pushes onto the calling CPU's list.
  `kalloc` pops from it. When the caller's list is empty, `kalloc` first calls
  `steal`: `richest` picks the CPU with the most pages, and `stealfrom` moves
  the first half (rounded up) of that CPU's list to the caller. `Inv` says
  `size == |freelist|` for every pool. `FreePages` is the multiset of all free
  pages. Every operation keeps `Inv`, and conserves `FreePages` except for the
  page `kfree` adds or `kalloc` hands out.
- **find** (`user/find.c`) — module `Find`, file `find.dfy`. The suffix
  matcher `match`, the defaulting of `main`'s arguments, and the child paths
  a directory yields.
- **xargs** (`user/xargs.c`) — module `Xargs`, file `xargs.dfy`. `read_line`
  over an input character sequence, `create_argv`'s split at every space, and
  the argument vectors the main loop executes.

Shared pieces: `wrappers.dfy` (`Option`, `Result`; a `Failure` is a `panic`
or an `exit`) and `cstrings.dfy` (`CStr`, the C string held in a character
buffer).

Parameters stand in for the environment:
- `cpuid()` is a `cpu` argument.
- `ticks` is an argument of `Brelse`.
- The disk driver is the `diskRead` flag of `Bread`.
- Holding the sleeplock is the `holding` argument of `Brelse`.
- NBUF is `|c.buf|` and NCPU is `|pools|`.
- `end` and PHYSTOP come in as a `Layout`. Every member that reaches `kfree` requires `end > 0`, because `end` lies above the kernel image.
- MAXARG and DIRSIZ are `maxarg` and `dirsiz`.
- PGSIZE is 4096, as in kernel/kalloc.c.

The headers that define these constants are not part of this model. Neither
are `buf.h` and `riscv.h`. `refcnt`, `dev`, `blockno`, `ticks` and the
timestamps are taken to be 32-bit `uint`s, as `bcache.timestamp` is, so
`refcnt++` and `refcnt--` wrap (`Inc32`, `Dec32`). PGROUNDUP is taken to
round up to the next multiple of PGSIZE.

Three behaviours of the code that are easy to misread:
- Eviction ties go to the highest slot index, because the scan replaces its
  candidate on `<=` (kernel/bio.c:69).
- `richest` scans the caller's own pool as well, and `cpuid()` only chooses
  which locks it takes. The caller's pool is empty whenever `kalloc` steals,
  so the caller is never chosen (`Richest` only returns a CPU with a positive size).
- `stealfrom` splits the victim's list before it checks that the thief's pool
  is empty. The check panics, so the order makes no observable difference.

## Model

| member | source | states |
|---|---|---|
| `BufferCache.Hash` | kernel/bio.c:35-36 | HASH_FUNC, with `uint` wrap-around before the final modulus, always lands in `[0, 65537)`, so it always indexes `key2bidx` |
| `BufferCache.Binit` | kernel/bio.c:103-109 | after initialisation no key and no slot is filed, every timestamp and reference count is 0, and the index invariant holds |
| `BufferCache.AddKey` | kernel/bio.c:44-47 | `addkey` files the slot under the key in both arrays and leaves every other entry of both arrays, and the slots, unchanged |
| `BufferCache.DelKey` | kernel/bio.c:49-55 | `delkey` on a filed slot clears both its entries. On an unfiled slot (`-1`) it changes nothing. No other entry changes |
| `BufferCache.InverseIff` | kernel/bio.c:37-38 | the invariant's two one-way conditions are equivalent to `key2bidx[k] == i` iff `bidx2key[i] == k` |
| `BufferCache.MissPathKeepsInverse` | kernel/bio.c:160-163 | `delkey(victim); addkey(key, victim)` keeps the two arrays inverse, given that the key was unfiled, which is the only way the miss path is reached |
| `BufferCache.EvictScan` | kernel/bio.c:62-80 | the loop of `findevictee` from slot `i` on, with its running candidate, ends with `-1` exactly when no slot is free. Otherwise it ends with the free slot of least timestamp, ties to the highest index |
| `BufferCache.FindEvictee` | kernel/bio.c:57-83 | `findevictee` returns `-1` iff every slot has `refcnt != 0`. Otherwise it returns a slot with `refcnt == 0` whose timestamp is `<=` every free slot's and `<` every free higher slot's |
| `BufferCache.Bget` | kernel/bio.c:115-176 | a hit on the same block adds exactly one reference (mod 2^32) and changes nothing else. A hit whose slot holds another block panics "hash conflict". A miss takes the evictee, refiles it and leaves it `Buf(dev, blockno, valid 0, refcnt 1)`. With no free slot a miss panics "no buffers". Every success keeps the invariant, and the returned slot holds the block and is filed under its key. On a miss the other slots, the timestamps, every other slot's key, and every key other than the block's and the slot's old one are unchanged |
| `BufferCache.Refile` | kernel/bio.c:160-168 | the miss path's `delkey`, `addkey` and field stores keep the invariant. They file the victim under the new key, unfile its old key, leave it `Buf(dev, blockno, valid 0, refcnt 1)`, and change no other slot, timestamp, slot key or hash key |
| `BufferCache.FiledBlocksUnique` | kernel/bio.c:134-138 | under the invariant two filed slots never hold the same block, so every live handle on a block resolves to the same slot |
| `BufferCache.BgetFindsFiledBlock` | kernel/bio.c:133-143 | a block filed in slot `i` is always a hit on `i` and never panics |
| `BufferCache.EvictsEarlierRelease` | kernel/bio.c:69-75 | of two free slots the one released later is never evicted |
| `BufferCache.Bread` | kernel/bio.c:179-190 | `bread` panics exactly when `bget` does. Afterwards the slot holds the block and is valid. The disk is read exactly when the block was not already filed with valid contents. Apart from that slot's `valid` flag, the cache is the one `bget` left: the other slots, both index arrays and the timestamps |
| `BufferCache.Brelse` | kernel/bio.c:203-233 | `brelse` panics exactly when the caller does not hold the sleeplock. Otherwise it removes one reference (mod 2^32) and stamps the buffer's own slot with `ticks` iff the count became 0. The slot is found again through the hash of its block. Nothing else changes and the invariant holds |
| `BufferCache.Bpin` | kernel/bio.c:235-240 | adds exactly one reference (mod 2^32) to that slot and changes nothing else, the invariant included |
| `BufferCache.Bunpin` | kernel/bio.c:242-247 | removes exactly one reference (mod 2^32) and never stamps the slot |
| `BufferCache.PinUnpinRoundTrip` | kernel/bio.c:235-247 | `bunpin` undoes `bpin` and `bpin` undoes `bunpin`, across the wrap too |
| `BufferCache.AcquireReleaseHit` | kernel/bio.c:134-143 | a hit on a filed block followed by `brelse` gives the slot back exactly as it was, reference count included. The index is untouched, and the slot is stamped with the release time iff its count is 0 |
| `BufferCache.AcquireReleaseMiss` | kernel/bio.c:145-229 | when some slot is free, a miss followed by `brelse` leaves the recycled slot filed under the block's key with no references, and stamped with the release time |
| `BufferCache.HashConflictReachable` | kernel/bio.c:134-138 | blocks (0, 0) and (0, 65537) share a hash key. After the first is cached, asking for the second panics "hash conflict" |
| `PageAllocator.Kfree` | kernel/kalloc.c:57-81 | `kfree` panics iff `pa` is not PGSIZE-aligned, below `end` or at least PHYSTOP. Otherwise `pa` goes on the head of the calling CPU's list and that `size` grows by one. Other pools are unchanged and `size == |freelist|` is kept. A freed page is never address 0, C's NULL |
| `PageAllocator.KfreeConserves` | kernel/kalloc.c:72-77 | a successful `kfree` adds exactly `pa` to the multiset of free pages |
| `PageAllocator.RichestScan` | kernel/kalloc.c:122-127 | the loop of `richest` from CPU `i` on returns `-1` iff every size is `<= 0`. Otherwise it returns a CPU of largest, positive size with every lower index strictly smaller |
| `PageAllocator.Richest` | kernel/kalloc.c:112-134 | `richest` is the argmax of sizes, lowest index on ties, and `-1` when every pool is empty. It never returns a CPU with no pages |
| `PageAllocator.StealConserves` | kernel/kalloc.c:166-172 | splitting the victim's list between the victim and an empty thief keeps the multiset of free pages |
| `PageAllocator.Splice` | kernel/kalloc.c:155-172 | the thief's new list followed by the victim's remaining list is the victim's old list. The thief gets exactly `k` pages, other pools are unchanged, sizes match lists, and no page is lost |
| `PageAllocator.Stealfrom` | kernel/kalloc.c:136-177 | stealing from oneself panics. An empty victim yields 0 and no change. A non-empty thief panics. Otherwise the thief gets the first `(n+1)/2` pages and the victim keeps the other `n-(n+1)/2`. Concatenated, they are the victim's old list, the return value is the thief's new size, and free pages are conserved |
| `PageAllocator.Steal` | kernel/kalloc.c:179-185 | `steal` succeeds iff the caller's pool is empty, and then leaves the caller with pages iff some pool had any. It robs `richest`'s CPU `v`, which is never the caller: the caller gets the first `(n+1)/2` of `v`'s `n` pages, and those followed by `v`'s remaining list are `v`'s old list. The return value is `(n+1)/2`, every other pool is unchanged, and free pages are conserved |
| `PageAllocator.Kalloc` | kernel/kalloc.c:86-110 | with a non-empty local list `kalloc` returns its head and pops it. It returns NULL iff every pool was empty. The returned page leaves the free multiset and nothing else does. `size == |freelist|` is kept. Only the caller's pool and, when it steals, the richest pool change |
| `PageAllocator.KallocStealsHalf` | kernel/kalloc.c:95-101 | on an empty CPU, `kalloc` hands out the head of the richest pool's list. The caller keeps the rest of the first `(n+1)/2` pages and the victim keeps the second half. Every other pool is unchanged |
| `PageAllocator.PgRoundUp` | kernel/kalloc.c:48 | PGROUNDUP gives the least multiple of PGSIZE at or above its argument |
| `PageAllocator.PageRangeSpec` | kernel/kalloc.c:48-50 | the pages `freerange` visits ascend strictly. They are exactly the addresses `p + k*PGSIZE` whose page ends at or below `pa_end` |
| `PageAllocator.FreeFrom` | kernel/kalloc.c:49-50 | the `freerange` loop panics iff some visited page fails `kfree`'s check. Otherwise the calling CPU's list gains the visited pages in reverse order, and only that pool changes |
| `PageAllocator.PushedOntoTrans` | kernel/kalloc.c:49-50 | pushing one page and then a sequence of pages onto a CPU's list is the same as pushing the page followed by the sequence |
| `PageAllocator.PushedOntoConserves` | kernel/kalloc.c:72-77 | pushing a sequence of pages onto one CPU's list adds exactly those pages to the multiset of free pages |
| `PageAllocator.FreeFromConserves` | kernel/kalloc.c:49-50 | a `freerange` loop that does not panic adds exactly the visited pages to the multiset of free pages |
| `PageAllocator.FreeFromKeepsInv` | kernel/kalloc.c:49-50 | after the `freerange` loop every pool's `size` is still the length of its list |
| `PageAllocator.Freerange` | kernel/kalloc.c:44-51 | `freerange` frees every page from `PGROUNDUP(pa_start)` that fits below `pa_end`, in ascending order, so the highest page heads the list |
| `PageAllocator.KinitRangeIsValid` | kernel/kalloc.c:41-67 | every page of `freerange(end, PHYSTOP)` passes `kfree`'s alignment and range check |
| `PageAllocator.Kinit` | kernel/kalloc.c:34-42 | `kinit` never panics. The calling CPU's list holds every page of the range, highest first, every other pool is empty, and sizes match lists. Page 0 is never on the list |
| `CStrings.CStr` | user/find.c:83-84 | the C string in a buffer has no NUL, is a prefix of the buffer, and ends at a NUL or at the buffer's end |
| `Find.Match` | user/find.c:6-33 | `match` is 0 when the path is shorter than the name. `"*"` matches exactly the non-empty paths. Any other name matches iff it is a character suffix of the whole path (so `xabc` matches `abc`). Every path matches itself |
| `Find.Arguments` | user/find.c:102-119 | more than two arguments is the usage error. The root defaults to `"."` and the pattern to `"*"`, and a defaulted pattern matches every non-empty path |
| `Find.ChildPath` | user/find.c:76-84 | entries with `inum == 0`, `"."` or `".."` yield nothing. Any other entry yields `path + "/" + name`, with the name cut at DIRSIZ characters or its NUL |
| `Find.KeptMembers` | user/find.c:74-81 | the entries the read loop keeps are exactly those that are not free, `"."` or `".."` |
| `Find.ChildrenInOrder` | user/find.c:74-92 | the read loop yields one path per kept entry, in directory order: the `j`-th is `path + "/"` and the `j`-th kept entry's name. Each starts with `path + "/"` and is at most `|path| + 1 + DIRSIZ` long |
| `Find.Children` | user/find.c:74-92 | one child path per kept entry, in directory order. The set of child paths is exactly that of the non-skipped entries. Each starts with `path + "/"` and is at most `|path| + 1 + DIRSIZ` long |
| `Find.DirChildren` | user/find.c:64-93 | a directory is rejected iff `strlen(path)+1+DIRSIZ+1 > 512`. Otherwise it yields one child path per non-skipped entry, in directory order, and each fits in the 512-byte buffer with its NUL |
| `Xargs.ReadLine` | user/xargs.c:5-26 | `read_line` exits 1 iff the input has no newline. Otherwise it returns the number of bytes before the first newline, the buffer holds those bytes and a NUL in the newline's place, and the input after the newline is left |
| `Xargs.ReadLineFirst` | user/xargs.c:18-21 | the line ends at the first newline and at no other |
| `Xargs.Strchr` | user/xargs.c:45 | `strchr` gives the first occurrence of the character, and nothing iff it does not occur |
| `Xargs.SplitSpaces` | user/xargs.c:41-54 | the split loop yields one more token than the line has spaces, empty tokens included, and no token contains a space |
| `Xargs.JoinSplit` | user/xargs.c:41-54 | joining the split tokens with single spaces gives the line back |
| `Xargs.SplitFirst` | user/xargs.c:44-49 | a space-free first token is split off at the space after it, and splitting goes on from the rest |
| `Xargs.SplitJoin` | user/xargs.c:41-54 | splitting space-free tokens joined with spaces gives the tokens back |
| `Xargs.SplitStores` | user/xargs.c:41-54 | the split loop, as written, stores the line's space-separated tokens, in order, into consecutive slots from `i` on |
| `Xargs.CreateArgvAsWritten` | user/xargs.c:28-65 | as written, `create_argv` stores into consecutive slots from 0, one store per argument, before it decides. It exits 1 iff `argc + spaces + 1 >= MAXARG`. Otherwise it stores the NULL after the last argument |
| `Xargs.CreateArgvOverrun` | user/xargs.c:44-60 | as written, a store falls outside `buf[MAXARG]` exactly when `argc + spaces + 1 > MAXARG`. Then the store to slot MAXARG comes before the exit 1 |
| `Xargs.CreateArgvAgrees` | user/xargs.c:35-62 | every argument stored as written is the fixed arguments followed by the line's tokens at that slot. When the corrected version returns a vector, the code as written stores exactly that vector and its NULL. When the corrected version exits, the code as written exits with the same status |
| `Xargs.CreateArgvOverrunExample` | user/xargs.c:44-60 | with MAXARG 2, one fixed argument and the line `" "`, the code as written stores to slots 0, 1 and 2, and only then exits 1. The corrected version exits 1 |
| `Xargs.CreateArgv` | user/xargs.c:28-65 | `create_argv` exits 1 iff `argc + tokens >= MAXARG`. Otherwise the first `argc` entries are the given `argv`. The rest are space-free tokens, one more than the spaces, that join back to the line. The NULL after the last token lies inside the MAXARG slots |
| `Xargs.XargsLoop` | user/xargs.c:81-99 | every executed vector starts with the fixed arguments. Input without a newline ends with status 1, and a leading empty line ends the loop with status 0 before anything runs |
| `Xargs.Xargs` | user/xargs.c:67-102 | with no program named nothing runs and the status is 0. Otherwise every executed vector starts with the program name (`argv[1]`) and the fixed arguments, because `argv+1` is passed |
| `Xargs.XargsLoopStep` | user/xargs.c:81-84 | a non-empty line whose arguments fit runs the fixed arguments followed by that line's tokens, and the loop continues after the newline |
| `Xargs.XargsLoopTooMany` | user/xargs.c:81-84 | a non-empty line whose arguments do not fit (`argc + spaces + 1 >= MAXARG`) ends the run with status 1 before anything executes, because `create_argv` exits 1 (user/xargs.c:56-59) |
| `Xargs.XargsRunsEachLine` | user/xargs.c:81-99 | for input of non-empty lines, the loop runs one vector per line, in order: the fixed arguments followed by that line's space-separated tokens |

## Left out

- Spinlocks, sleeplocks, `push_off`/`pop_off`, the candidate lock `findevictee` carries forward, and the unlocked read of `key2bidx` in `bget`. These are about concurrency. The model is a sequential state machine, so two `bget`s blocking on one buffer are not modelled.
- `richest` takes the other pools' locks while `kalloc` holds its own. The lock order this creates between CPUs is a concurrency question and is not modelled.
- `virtio_disk_rw` is the disk driver. `Bread` reports whether a read happened but models no block contents. `bwrite` is left out because it only checks the sleeplock and calls the driver. It changes no cache state.
- `Find.Arguments`: requires `argv` to hold at least the program name. With `argc == 0` the source reads `argv[1]` past the terminating NULL, which is undefined behaviour.
- `Brelse`: requires the slot to be filed in the index. A held buffer came from `bget` and cannot be evicted while referenced. For an unfiled slot the source would index `buflocks[-1]`, which has no defined meaning.
- The linked-list setup in `binit` and all commented-out LRU code are unused and not modelled.
- Page address 0 is C's NULL pointer. `kfree` and `kinit` never put it on a list, because `end > 0`. `Kalloc` is not given a list whose head is page 0, where the source's `if (r)` (kernel/kalloc.c:98-102) would return NULL without popping. `Kfree` and `Kinit` never add page 0, and stealing and `Kalloc` only move or remove pages, as their conservation contracts state.
- The `memset` junk fills in `kfree` and `kalloc` are a debugging aid with no stated behaviour.
- Addresses are unbounded naturals. The 64-bit wrap of `p + PGSIZE` near 2^64, and C `int` overflow of a pool's `size`, are not modelled.
- `find`'s `open`/`fstat`/`read`/`stat` traversal, its printing and its skipping of entries whose `stat` fails are I/O. The model stops at the candidate child paths and at `Match`.
- `xargs`'s `fork`/`exec`/`wait` loop is process control. Forking is taken to succeed: the `pid < 0` break and a failing `exec` are not modelled.
- `Xargs.ReadLine`: does not bound the line by `main`'s 512-byte buffer. The source does not bound it either, so a longer line is written past that buffer.
- `user/primes.c`, `user/pingpong.c` and `user/sleep.c` are fork, pipe and sleep plumbing, and are not part of this model.

## Findings

| source | as written | input that shows it | evidently intended | confidence | as-written member | corrected member |
|---|---|---|---|---|---|---|
| user/xargs.c:44-60 | `buf[i++] = p` stores every argument first. Only then does it check `i >= MAXARG` | MAXARG 32, `xargs echo` and a line with 31 spaces: 33 arguments are stored into the 32-slot static `buf`, and only then comes the "too many arguments" exit | refuse an over-long argument list before storing into `buf` | not executed; high | `Xargs.CreateArgvOverrun` | `Xargs.CreateArgv` |
