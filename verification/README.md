# libphoenix: eight cores and what they keep

This project models the most intricate parts of libphoenix, the C library of Phoenix-RTOS, and proves what they are for. It
needs Dafny 4.11; `dafny verify dfyconfig.toml` checks all of it.

**Regular expressions** (`regex/`). `Ere` gives the grammar and the language of extended regular expressions, `EreUnique`
shows that a pattern has one reading, `EreReads` how far the parser gets with it. `Regcomp` is the compiler with its strip
of relative offsets (`Strip`, `Core`, `CoreMoves`), `Must` and `BoyerMoore` the mandatory string and the search for it,
`Step`, `States` and `Engine` the two representations of the state set and the two loops over the text, `Regex` the whole.
`Patterns` says of the typed characters and of numbers what patterns mean, whatever the grammar's own terms are.
The result is `Regex.Regexec`: without sub-matches, a match is reported exactly when some substring is in the pattern's
language.

**Allocator** (`stdlib/malloc_dl.c`). Memory is a sequence of words in which chunks are spelled by their headers, flags and
footers (`Chunks`, `Store`). `Rings`, `SizeClass`, `Bins` and `MallocFind` are the index of free chunks; each large bin has
a red-black tree of class `RbTree`, whose nodes are the heads of the rings of its sizes. Class `Malloc` has the operations:
malloc, free, realloc and aligned allocation, with heaps that come from the kernel, are kept for reuse, and go back. `Valid`
is the invariant of all of them: each heap is tiled by chunks of at least the smallest size, no two free neighbours, flags
and footers right, each heap's count the sum of its free chunks, the index exactly the free chunks, the kept heaps entirely
free. The ghost map `live` is the blocks in use; every operation states exactly how it changes and that the contents of the
other blocks stay. What is free is what lies between the blocks (`Malloc.Malloc.FreeIsGap`).

**Red-black trees and ids** (`sys/rb.c`, `posix/idtree.c`). `RbShape`, `RbColor`, `RbLinks`, `RbSteps` are trees as values;
class `RbTree` has the pointers, and its methods are proved against them, with the cached gaps exact throughout (`Gaps`).
`IdTree` is the allocator of ids on top.

**Synchronisation** (`pthread/`). Each protocol is a state machine over its atomic steps, for any number of threads: the
unnamed semaphore (`SemUnnamed`), the owned mutex (`OwnedMutex`), the condition variable (`CondVar`) and the read-write lock
(`RwLock`). Statements are about every state of every run; beside them it is said what each call comes to that nobody
interrupts.

**Decimal conversion** (`stdio/format.c`, `stdio/bignum.c`). `Bignum` is the arithmetic on limbs, `Decimal` says what
decimal text and rounding mean, `Format` has the conversions; the text of `%f` and `%e`, read character by character, is
that of the exact binary value, rounded.

**Buffered streams** (`stdio/file.c`). `FileStream`: whatever is in the buffer and however short the transfers, a stream is
used like a file without a buffer.

**Exit handlers** (`stdlib/atexit.c`). `Atexit`: what a handler does is an arbitrary list of registrations and nested
finalizations. One trace records what happens; by it each call goes to the latest function registered for the handle and not
yet called, and nothing is lost or called twice.

**IPv6 text** (`net/`). `InetText`: the texts of an address, the parser that accepts just these, and the printer, whose text
is one of them.

## What is assumed, and where the code says something else

- The kernel's side is given by small contracts: a mapped region is fresh, apart from all others and page-aligned (the
  parameter `at`; null if there is none), unmapping does not fail; a futex wait compares the word first, and a delivered
  wake is reported as such; atomics are sequentially consistent. By `CondVar.SignalReleases` a signal reaches an older
  waiter if wakes go to the longest asleep; `CondVar.OrderMatters` shows that this is needed. Fewer than 2^16 wakes
  happen between a waiter's sample and its next look, and fewer than 2^14 threads wait.
- A comment in the semaphore says that a waiter giving up takes "the token a post sent already".
  `SemUnnamed.CommittedCanStarve` is a run in which a later taker reads that token first. By
  `SemUnnamed.OvertakenStarves` a run is safe from it until a thread starts to wait while such a waiter has yet to read, and
  not after that; by `SemUnnamed.StarvesExactly` it can happen whenever two threads use the semaphore.
- A branch that consists only of operands repeated no times, as in `a{0}`, is refused as empty; all else in the grammar
  compiles (`Regcomp.Compile`).
- `inet_pton` accepts a colon behind the last group, as in `1:2:3:4:5:6:7:8:` (`InetText.ColonBehindEight`); the texts it
  accepts are proper except exactly those that end in a single colon (`InetText.ColonExactly`). For a dotted quad after
  seven groups it writes behind its array and reports success; the model's result then is `OutOfBounds` (`InetText.Pton6`).
- Growing a block by one word takes all of the free chunk behind it, because a request for less than two words is never split
  (`Malloc.Malloc.Realloc`).
- `%e` rounds ties up and `%f` to even, as the comments in `stdio/format.c` say.
- The leftmost match is not stated: the place from which the longest match is sought is inexact for patterns like
  `(a*|b)c`. What is stated of the match reported is that it is a match and that none from the same place is longer.
- In `stdlib/malloc_dl.c` the branches that reject a header, abandon or drop a bin, leave a stale tree node alone, or
  find a heap free but not one chunk are modelled, and proved never to be taken from states the operations reach.

## Model

| member | source | states |
|---|---|---|
| CoreMoves.CodeExact | regex/engine.c:913-1021 | the words that lead from the first to the last state of an expression's code, along the edges the engine follows, are exactly the expression's language, wherever in a strip the code stands |
| Ere.CompiledExact | regex/regcomp.c:305-492 | what every anchor-free extended regular expression is compiled to (groups, `|`, `*`, `+`, `?`, bounds) has the language that XBD section 9.4 gives the expression |
| EreUnique.OneReading | regex/regcomp.c:305-492 | the grammar is unambiguous: two expressions with the same pattern text are the same but for group numbers, so a pattern denotes one language |
| Regcomp.Compile | regex/regcomp.c:191-299 | there is no error exactly if the pattern is the text of an expression of the grammar none of whose branches consists of operands repeated no times only; then the strip is that expression's code between two end markers, set numbers included |
| EreReads.ReadsWhole | regex/regcomp.c:305-492 | how far the parser gets: to the end of the text of an expression exactly if no branch of it, in parentheses or not, is without code |
| Regcomp.NoTimesRefused | regex/regcomp.c:318-321 | `a{0}` is in the grammar and is refused |
| Regcomp.Parse.PEre | regex/regcomp.c:305-344 | alternation: the offsets of OCH, OOR1, OOR2 and O_CH are patched so that the appended strip is the code of the alternatives parsed; parsing stops only at the end or the stop character |
| Regcomp.Parse.PEreExp | regex/regcomp.c:350-492 | one atom and its repetition symbol: the text consumed is that of an expression and the strip has grown by its code |
| Regcomp.Parse.PBounds | regex/regcomp.c:465-482 | `{m}`, `{m,}` and `{m,n}`: what is read is the bound that stands there, and the code is that of the repetition; `Patterns.BoundMeans` says it in numbers |
| Patterns.CountIsNumber | regex/regcomp.c:664-680 | the digits of a count make the number that they are in decimal notation, zeros in front or not |
| Patterns.BoundMeans | regex/regcomp.c:465-482 | said of the typed characters: an operand with `{m}`, `{m,}` or `{m,n}` behind it, the numbers in decimal notation, denotes m, at least m, or m to n words of the operand |
| Patterns.BoundAccepted | regex/regcomp.c:465-482 | such a pattern is accepted exactly if its operand is, no number is over 255, the two are in order, and the bound is not 0 |
| Patterns.Twice | regex/regcomp.c:465-482 | `a{2}` is accepted and denotes just `aa` |
| Patterns.SymbolMeans | regex/regcomp.c:445-463 | an operand with `*`, `+` or `?` behind it denotes any number of its words, at least one, at most one |
| Patterns.CharacterMeans | regex/regcomp.c:393-438 | a character other than ()^$|*+?.[\\ and an escaped one denote themselves, a point any character |
| Patterns.ChoiceMeans | regex/regcomp.c:305-344 | a bar between two parts denotes the words of either |
| Patterns.GroupMeans | regex/regcomp.c:365-380 | parentheses change nothing in what a part denotes |
| Patterns.PartsMean | regex/regcomp.c:305-344 | parts one after another denote the words of the one followed by those of the other |
| Regcomp.Parse.Repeat | regex/regcomp.c:1078-1143 | the recursive rewriting of a bounded repetition yields the code of the repetition of its operand, for all bounds; a bound that is no number makes no code |
| Regcomp.Parse.Dupl | regex/regcomp.c:1473-1490 | a copy of a part of the strip at its end, and where it begins |
| Regcomp.Parse.Insert | regex/regcomp.c:1523-1553 | an operator inserted before a part of the strip moves that part by one and leaves what is before it |
| Regcomp.Parse.Freezeset | regex/regcomp.c:1240-1266 | an equal set found among earlier ones is used again, else the set becomes the last one; earlier numbers keep their meaning |
| Must.FindMust | regex/regcomp.c:1616-1774 | every word of the language contains the mandatory string, at an offset no greater than `moffset` unless that is -1; the string is the best row of the pattern's pieces and the offset the one that goes with it; the scan never meets the inconsistency that would drop the string |
| Must.BestLongest | regex/regcomp.c:1639-1716 | no row of characters outside options and choices that comes to an end is longer than the best, or as long and before it |
| Must.BestStands | regex/regcomp.c:1678-1691 | the best row stands in the pattern, and its offset is the most characters that can come before it, to which the code adds those of an option that ends it |
| Must.AltOffset | regex/regcomp.c:1783-1849 | the largest offset among the ways through an option or a choice: the length of the longest word inside, or -1 if there is none |
| BoyerMoore.ComputeJumps | regex/regcomp.c:1862-1891 | for each character, how far it stands from the end of the string at its last place |
| BoyerMoore.ComputeMatchJumps | regex/regcomp.c:1906-1974 | each entry belongs to a shift that keeps what has matched matching and changes the character that did not, and to no larger one than the least of these; the chain of borders fills the table exactly |
| BoyerMoore.SearchFast | regex/engine.c:173-203 | the scan driven by the larger of the two jumps gives the first place where the string stands, or that there is none, for every text and every string longer than one |
| BoyerMoore.SearchSlow | regex/engine.c:204-211 | the scan without tables gives the same value |
| Step.StepSmall | regex/regexec.c:65-86 | one pass over the strip with sets of states in a machine word, rewinding at O_PLUS, gives the least set closed under the empty moves that contains the old set and what the input leads to |
| Step.StepLarge | regex/regexec.c:113-135 | the same with arrays of bytes, also where the two sets are one array |
| Step.StepsAlike | regex/regexec.c:65-135 | from the same states a step comes to the same states in both representations |
| Engine.Slow | regex/engine.c:822-896 | the end of the longest match that begins at a given place, or none if none begins there, in both representations |
| Engine.Fast | regex/engine.c:736-815 | the first place where a match ends that begins anywhere, and none if there is none; a match ending there begins at `coldp` or later |
| Regex.Prescreen | regex/engine.c:171-213 | the first occurrence of the mandatory string, or none |
| Regex.AcceptedContains | regex/engine.c:230-233 | every accepted word contains the mandatory string no later than `moffset`, so neither the prescreen nor starting at its place less `moffset` loses a match |
| Regex.Matcher | regex/engine.c:137-337 | for a caller that wants no sub-matches: a match is reported exactly when some substring of the text is in the language; if the whole match is asked for, it is in the language and the longest from where it begins |
| Regex.Compile | regex/regcomp.c:191-299 | succeeds exactly for the accepted patterns, and what it sets up is that of the one expression with this text |
| Regex.Regexec | regex/regexec.c:157-178 | the same for regexec() with either representation |
| SemUnnamed.RunKeeps | pthread/sem_unnamed.c:74-226 | in every interleaving of post, take, cancel and trywait the waiters less the tokens on their way are the count below zero, and the initial units and the posts counted are those taken, those in the value and those on their way |
| SemUnnamed.PostSteps | pthread/sem_unnamed.c:74-101 | a look at the value refuses a post exactly if the value is SEM_VALUE_MAX; an exchange counts it exactly if the value is the one last seen, and adds one to it; otherwise it is another look and nothing else changes |
| SemUnnamed.PostAlone | pthread/sem_unnamed.c:74-101 | a post that nobody interrupts changes nothing exactly if the value is at its limit; else it is one post more, one more in the value, and if someone was waiting one token more in the pipe |
| SemUnnamed.TrySteps | pthread/sem_unnamed.c:214-226 | sem_trywait() fails exactly if there is no unit when it looks, and takes one exactly if the value is still the one last seen |
| SemUnnamed.TryAlone | pthread/sem_unnamed.c:214-226 | uninterrupted, it takes a unit if the value is above zero and else leaves everything as it is |
| SemUnnamed.TakeSteps | pthread/sem_unnamed.c:180-184 | sem_wait() takes a unit at once if there is one, and else is one waiter more |
| SemUnnamed.CancelAlone | pthread/sem_unnamed.c:143-158 | a waiter that gives up goes off the count if it is still on it, and else waits for a token that is there |
| SemUnnamed.PostReleases | pthread/sem_unnamed.c:74-101 | after an uninterrupted post every waiter finds a token in the pipe, or one is being written |
| SemUnnamed.NoUnitMade | pthread/sem_unnamed.c:74-226 | acquisitions never exceed the initial count and the posts, and with nothing on its way they balance exactly |
| SemUnnamed.CommitFindsToken | pthread/sem_unnamed.c:143-158 | when a timed-out waiter finds that it has been provided for, there is a token for it at that moment |
| SemUnnamed.TokensForCommitted | pthread/sem_unnamed.c:143-211 | in a run in which no thread starts to wait while a committed waiter has yet to read, there is a token for every committed waiter in every state |
| SemUnnamed.BreakingStep | pthread/sem_unnamed.c:104-139 | the one step after which the tokens are too few for the committed waiters: another waiter reads one when there are just enough |
| SemUnnamed.OvertakenStarves | pthread/sem_unnamed.c:143-211 | of every run: without a thread starting to wait while a committed waiter has yet to read, no state leaves one without a token; once one does, or the counter is below zero while one has, some continuation of the run leaves one without |
| SemUnnamed.StarvesExactly | pthread/sem_unnamed.c:143-211 | some run leaves a committed waiter without a token if and only if two or more threads use the semaphore |
| SemUnnamed.CommittedCanStarve | pthread/sem_unnamed.c:143-211 | such a run: a later taker reads the token first and a committed waiter is left without one |
| OwnedMutex.MutualExclusion | pthread/pthread.c:1534-1620 | at most one owner at any time, the depth is its locks less its unlocks less one, and only a recursive mutex is held more than once |
| OwnedMutex.NoLostWakeup | pthread/pthread.c:1534-1620 | while a thread sleeps on the word, the waiters bit is set, or a wake is pending, or an awake slow-path thread will set the bit or acquire with it |
| OwnedMutex.FreeMeansAwake | pthread/pthread.c:1534-1620 | when the mutex is free and nobody is in a call, nobody is asleep |
| OwnedMutex.LockAlone | pthread/pthread.c:1534-1567 | what an uninterrupted lock or trylock returns: EOK if nobody holds the mutex, EBUSY, EDEADLK, EAGAIN at depth 2^24 - 1, or one level deeper; the thread holds it once more exactly if that is EOK |
| OwnedMutex.UnlockAlone | pthread/pthread.c:1601-1620 | an uninterrupted unlock: EPERM for a thread that does not hold the mutex; else once less, and after the last one the mutex is free and someone looks after the sleepers |
| OwnedMutex.AwakeTakes | pthread/pthread.c:1569-1582 | a thread awake on the slow path takes a free mutex and marks it |
| OwnedMutex.AwakeSleeps | pthread/pthread.c:1569-1598 | one that finds it held falls asleep, with the waiters bit set |
| OwnedMutex.SpinEnds | pthread/pthread.c:1560-1567 | at a mutex that stays held spinning ends after at most 100 looks |
| CondVar.CountsWaiters | pthread/pthread.c:2210-2230 | the low field of the word is the number of threads inside a wait, the sequence counts the wakes modulo its width |
| CondVar.BroadcastWakes | pthread/pthread.c:2277-2301 | no thread registered before a broadcast is asleep once the broadcast has woken |
| CondVar.SeenMovedLeaves | pthread/pthread.c:2358-2440 | a thread whose sample is older than some wake does not fall asleep and leaves its loop as soon as it looks |
| CondVar.SignalReleasesOlder | pthread/pthread.c:2277-2296 | whichever sleeper a signal wakes, counted from the longest asleep, it is one that registered before the signal exactly if its number is below that of such sleepers |
| CondVar.SignalReleases | pthread/pthread.c:2277-2296 | a signal to waiters that registered before it, asleep or awake, leaves one of them awake with a sequence older than the one it reads next |
| CondVar.ReleasedStays | pthread/pthread.c:2358-2440 | such a waiter stays so, or leaves, at every step of any thread, and its next look at the sequence takes it out of the loop |
| CondVar.OrderMatters | pthread/pthread.c:2277-2296 | a run in which waking in another order loses the signal |
| CondVar.AdvanceSteps | pthread/pthread.c:2277-2290 | a signal or broadcast moves the sequence in any case, and goes on to wake exactly if some thread is inside a wait |
| CondVar.WaitAlone | pthread/pthread.c:2395-2424 | an uninterrupted wait falls asleep with the sequence of the moment, counted, behind those who sleep |
| CondVar.SignalAlone | pthread/pthread.c:2293-2296 | an uninterrupted signal wakes the longest asleep, if there is one, and no other |
| CondVar.BroadcastAlone | pthread/pthread.c:2299-2302 | an uninterrupted broadcast wakes all that are asleep and no other |
| CondVar.WokenAlone | pthread/pthread.c:2412-2434 | a woken thread leaves, counted out, exactly if the sequence has moved since it registered; after a stale wake it sleeps again |
| RwLock.Exclusion | pthread/pthread.c:3038-3185 | a thread that holds the lock for writing is the only holder, timeouts and try-locks included |
| RwLock.ReadersWaitForWriters | pthread/pthread.c:3038-3074 | a reader sleeps only while some thread writes or waits to |
| RwLock.FreeWakesWriter | pthread/pthread.c:3149-3185 | if nobody holds the lock while a writer sleeps, some writer has been woken |
| RwLock.ReadGranted | pthread/pthread.c:3038-3074 | a request to read is granted exactly if no thread writes or waits to; else it fails if it may not wait, or sleeps; no other thread notices |
| RwLock.WriteGranted | pthread/pthread.c:3077-3122 | a request to write is granted exactly if nobody holds the lock |
| RwLock.UnlockReleases | pthread/pthread.c:3149-3185 | an unlock gives up what the thread held; if nobody holds the lock then, a sleeping writer is woken if any thread waits to write, else all readers; nobody else notices |
| RwLock.WriteGivenUp | pthread/pthread.c:3108-3122 | a writer that gives up is out, and all sleeping readers are woken exactly if none is left that writes or waits to |
| RbColor.RedBlackHeight | sys/rb.c:86-131 | a red-black tree of n nodes is at most 2 log2(n + 1) high |
| RbTree.RbTree.RotateLeft | sys/rb.c:38-59 | the pointers become those of the rotated tree, parents included, order and gaps stay exact |
| RbTree.RbTree.RotateRight | sys/rb.c:62-83 | likewise to the right |
| RbTree.RbTree.InsertBalance | sys/rb.c:86-131 | from a tree whose only fault is a red node below a red one, a sound red-black search tree of the same nodes |
| RbTree.RbTree.Insert | sys/rb.c:232-263 | the tree stays sound and gains exactly the node, unless one with an equal key is there: then that one is returned and nothing changes |
| RbTree.RbTree.RemoveBalance | sys/rb.c:134-209 | from a tree that lacks one black node at one place, a sound one of the same nodes |
| RbTree.RbTree.Transplant | sys/rb.c:212-229 | one subtree takes the place of another in the pointers, and the gaps above are recomputed |
| RbTree.RbTree.Remove | sys/rb.c:266-311 | the tree stays sound and loses exactly the node, with two children or fewer |
| RbTree.RbTree.HandOver | stdlib/malloc_dl.c:784-795 | another node of the same key takes over a node's links and colour: the same tree with the one for the other, sound and in order |
| RbTree.RbTree.Find | sys/rb.c:370-390 | the node with the key, and null exactly if there is none |
| Gaps.MaxGapIsBound | posix/idtree.c:64-107 | no run of unused ids between two bounds is longer than the largest gap |
| Gaps.MaxGapIsReached | posix/idtree.c:64-107 | some run is as long |
| RbTree.RbTree.Augment | posix/idtree.c:64-107 | the gaps of a node and of its ancestors become those of the tree, so that they stay exact through rotations and transplants |
| IdTree.FindGap | posix/idtree.c:31-61 | the search guided by the cached gaps ends at a node beside an unused id |
| IdTree.Alloc | posix/idtree.c:136-157 | the id is not negative and unused; either a larger one is in use or it is the number of nodes, so all ids stay below the peak number of nodes |
| IdTree.Release | posix/idtree.c:124-127 | giving an id back keeps all that |
| Rings.Links.ListAdd | sys/list.c:20-35 | a node joins the circular list before its head, and no other list changes |
| Rings.Links.ListRemove | sys/list.c:38-78 | a node leaves its circular list, the head moves on if it was the head, no other list changes |
| SizeClass.LookupExact | stdlib/malloc_dl.c:173-187 | a size is in a bin up to i exactly if it is not larger than entry i of the table of last sizes |
| SizeClass.IndexMono | stdlib/malloc_dl.c:173-187 | larger sizes are in later bins |
| SizeClass.TruncatedAgrees | stdlib/malloc_dl.c:173-187 | with the quotient cut to 32 bits the bin is the right one exactly for sizes below 2^40 and for those whose low 32 bits of the quotient are large as well |
| MallocFind.FindFit | stdlib/malloc_dl.c:142-164 | the search in a bin's tree with its own comparison finds a large enough chunk exactly if there is one, and stops only where the left child is too small or the size is just right |
| Bins.Bins.Add | stdlib/malloc_dl.c:493-516 | a free chunk joins the end of the ring of its size in the bin of its class, and the bin's red-black tree if it is the first of that size; bits set accordingly, the index holds exactly the free chunks |
| Bins.Bins.Remove | stdlib/malloc_dl.c:663-811 | the chunk leaves its ring, whose order stays; its node leaves the bin's tree with the last of its size and is handed over with the first; no node is stale |
| Bins.Bins.Succeed | stdlib/malloc_dl.c:751-806 | the node's parent, or the root pointer, leads to it, so the branch that leaves a stale node alone is not taken; the tree loses the one node and gains the other |
| Bins.Bins.Unhang | stdlib/malloc_dl.c:744-808 | after it the nodes of each bin's tree are the heads of the rings of its sizes again |
| Bins.Bins.FindSmall | stdlib/malloc_dl.c:1310-1345 | the first chunk of the smallest size that fits, none exactly if none does |
| Bins.Bins.FindLarge | stdlib/malloc_dl.c:1223-1248 | walking the trees of the bins from that of the size on gives the first of its size in the first bin that has a chunk that fits, none exactly if none does |
| Store.LiveApart | stdlib/malloc_dl.c:1894-2007 | no two blocks in use overlap |
| Malloc.Malloc.constructor | stdlib/malloc_dl.c:1864-1881 | the empty allocator has all the invariants |
| Malloc.Malloc.Merge | stdlib/malloc_dl.c:899-953 | two neighbouring free chunks become one in the bin of its size; tiling, counts and index are kept |
| Malloc.Malloc.Join | stdlib/malloc_dl.c:899-953 | a free chunk is joined with the free ones before and after it, by footers and headers, so that the heap has no two free neighbours; header rejections do not occur |
| Malloc.Malloc.Split | stdlib/malloc_dl.c:820-831 | a free chunk keeps some words, and what is behind becomes a free chunk of its own |
| Malloc.Malloc.AllocFrom | stdlib/malloc_dl.c:1106-1177 | the chunk leaves the bins; if a chunk can be made of the words that are not wanted, the block has just the words wanted and the others are free behind it; headers, PUSED and the heap's count follow; a kept heap, and no other, leaves the list |
| Malloc.Malloc.Hand | stdlib/malloc_dl.c:1106-1177 | the block has the words wanted and fewer more than would make a chunk: just those if 5 or more would be left over, which then are free behind it |
| Malloc.Malloc.HeapAlloc | stdlib/malloc_dl.c:1045-1103 | a mapped region becomes a heap of one free chunk; nothing changes if there is none |
| Malloc.Malloc.HeapRelease | stdlib/malloc_dl.c:965-993 | an entirely free heap goes back with its chunk out of the bins, and is the next in the list of the last eight handed back |
| Malloc.Malloc.HeapRetain | stdlib/malloc_dl.c:1010-1027 | a heap over 16 MiB goes back at once; any other is kept as the latest, and just as many of the oldest go back as it takes to stay within 64 heaps and 16 MiB; the kept heaps stay entirely free and distinct |
| Malloc.Malloc.AllocLarge | stdlib/malloc_dl.c:1223-1307 | a block from a large chunk that fits, from a new heap only if none does |
| Malloc.Malloc.AllocSmall | stdlib/malloc_dl.c:1310-1370 | a block from the smallest bin that has one, from the large bins, or from the front of a new heap only if no free chunk fits |
| Malloc.Malloc.Alloc | stdlib/malloc_dl.c:1439-1473 | malloc(): all invariants kept; the new block has the words for the request and fewer more than would make a chunk, apart from all others, whose contents stay; it is cut from a free chunk of the first bin that has one that fits, and what is left is free; a heap is mapped, or the call fails, exactly if no free chunk fits |
| Malloc.Malloc.HeapBytesExact | stdlib/malloc_dl.c:1296-1303 | a heap is mapped for just the chunk if that is small, else for the largest size of its bin |
| Malloc.Malloc.FreeIsGap | stdlib/malloc_dl.c:1894-2007 | every free chunk reaches from a block or the front of its heap to the next block or the heap's end, so what is free is determined by the blocks in use |
| Malloc.Malloc.WordOwned | stdlib/malloc_dl.c:1894-2007 | every word of a heap behind its header is in a block or in a free chunk |
| Malloc.Malloc.Free | stdlib/malloc_dl.c:1495-1674 | free(): all invariants kept, exactly the block goes, the contents of the others stay, neither rejection branch is taken; the heap is kept or goes back exactly if no block is left in it, and else the heaps and the list of kept ones stay |
| Malloc.Malloc.Shrink | stdlib/malloc_dl.c:1724-1739 | what a block does not need becomes a free chunk joined with those that follow; the block keeps what it holds |
| Malloc.Malloc.Grow | stdlib/malloc_dl.c:1740-1749 | a block grows over the free chunk behind it, by as much as it wants or all of it, and keeps what it holds |
| Malloc.Malloc.Move | stdlib/malloc_dl.c:1750-1760 | otherwise it moves, to another address: the new block holds what the old one held and has the words that malloc() gives for the chunk size asked for; if that fails nothing changes |
| Malloc.Malloc.Realloc | stdlib/malloc_dl.c:1677-1766 | realloc(): the block has the size asked for and holds what it held up to the smaller size, others stay; it moves only if it must; fewer words more than would make a chunk stay with it, except that growing by one word takes all of the free chunk behind |
| Malloc.Malloc.Lead | stdlib/malloc_dl.c:1829-1857 | the front of a block becomes a free chunk, joined with what is before it; the rest stays a block |
| Malloc.Malloc.Aligned | stdlib/malloc_dl.c:1798-1861 | _malloc_aligned(): a block as malloc() gives one, at a multiple of the alignment, for every power of two |
| Bignum.Bignum.Mul | stdio/bignum.c:243-261 | the number times a limb, through all carries and a limb more if needed |
| Bignum.Bignum.Div | stdio/bignum.c:264-275 | quotient and remainder by a limb |
| Bignum.Bignum.ShiftLeft | stdio/bignum.c:104-126 | the number times a power of two |
| Bignum.Bignum.ShiftRight | stdio/bignum.c:20-36 | the number divided by a power of two, rounded down |
| Bignum.CompareLimbs | stdio/bignum.c:129-155 | the order of the two values, whatever zero limbs are on top |
| Bignum.Bignum.Push | stdio/bignum.c:278-289 | a limb more on top, with more room if there is none |
| Format.BigDouble.Load | stdio/format.c:345-390 | number and binary point represent the exact absolute value of every finite double |
| Format.BigDouble.CutIntegerPart | stdio/format.c:334-342 | what is behind the binary point |
| Format.Buffer.Carry | stdio/format.c:483-500 | one added to the last digit with all its carries, past the point, into the room before the first digit |
| Format.DecimalForm | stdio/format.c:405-511 | the text is that of the exact value rounded to the precision, ties to even, for all values and precisions, without trailing zeros if so asked |
| Format.SignificantDigits | stdio/format.c:619-656 | the first p + 2 significant digits of the exact value, and the power of ten of the first |
| Format.ScientificForm | stdio/format.c:606-741 | the text is that of the exact value rounded to p + 1 significant digits, ties up, with the exponent corrected when a carry adds a digit |
| Format.SprintfDouble | stdio/format.c:744-919 | %f, %e and %g of every double: infinities, NaNs and zeros, the two forms, and the choice between them |
| Format.FixedMeans | stdio/format.c:405-511 | said of the characters of %f: a decimal notation with the point before the last p digits, for a number than which none is nearer to the double, ties to even |
| Format.ScientificMeans | stdio/format.c:606-741 | said of the characters of %e: one digit, the point, the others, the letter, + exactly if the exponent is not negative, and at least two digits of it; together they are nearest to the double, ties up; trimmed, no needless zero |
| Format.DoubleExact | stdio/format.c:345-390 | the fraction is the value that IEEE 754 gives the bits |
| Decimal.NearestEven | stdio/format.c:444-481 | the rounding of %f is to the nearest, of two equally near ones to the even, and nothing else is |
| Decimal.NearestUp | stdio/format.c:658-676 | the rounding of %e is to the nearest, of two equally near ones to the larger, and nothing else is |
| Decimal.FixedReads | stdio/format.c:405-511 | the digits of the fixed form denote the rounded number |
| Decimal.FixedNotation | stdio/format.c:405-511 | read with its point the fixed form is the number, with no needless zero in front |
| Decimal.ScientificReads | stdio/format.c:713-735 | a mantissa with an exponent reads as the mantissa's number and the exponent, sign included |
| Decimal.TrimmedNotation | stdio/format.c:502-510 | without the zeros at the end the text reads as the same number, and no needless place or point is left |
| Decimal.SignificantNearest | stdio/format.c:658-690 | the significant digits, with the power of ten of the first, are nearest to the number, also when a carry adds a digit |
| Decimal.LeadsUnique | stdio/format.c:624-647 | a number has one first significant digit, so the exponent is determined |
| FileStream.Stream.FullWrite | stdio/file.c:491-514 | all is written, however short the transfers, unless one can move nothing for now; then exactly a prefix is |
| FileStream.Stream.FlushOne | stdio/file.c:517-572 | the file with the buffer over it is the same, also if only part could be written; after success the buffer is empty |
| FileStream.Stream.Fread | stdio/file.c:647-716 | the bytes and the position are those of a file without a buffer, whatever the buffer holds and however short the transfers; a buffered stream open for writing only gives nothing, sets the error flag and stays as it is; end-of-file and error are set exactly when they should be; what is in the buffer is given without a transfer |
| FileStream.Stream.Fwrite | stdio/file.c:778-890 | likewise for writing; if a transfer can move nothing for now, the bytes delivered and the buffer together are those pending before and the prefix accepted; a buffered stream open for reading only takes nothing, sets the error flag and stays as it is; what fits into the buffer of a fully buffered stream is not transferred; a line-buffered one is left with no newline in the buffer when nothing was refused |
| FileStream.Stream.Fseek | stdio/file.c:1049-1074 | the position becomes the place asked for, from the beginning, the position or the end, and the contents seen stay; fails exactly for places before the beginning when nothing is refused; end-of-file is cleared by success |
| FileStream.Stream.Ftell | stdio/file.c:1092-1114 | the position a file without a buffer would have |
| FileStream.OverlayAt | stdio/file.c:491-514 | byte by byte what a write makes of a file: the new bytes where they were written, zeros in a gap, the others as before |
| FileStream.WrittenReads | stdio/file.c:491-514 | what was written is read back from the same place |
| FileStream.NextAt | stdio/file.c:647-716 | a read of so many bytes gives those at the position, up to the end |
| Atexit.ExitList.Register | stdlib/atexit.c:142-182 | the registration becomes the last event, with its function, argument and handle, and is pending above all others; it fails exactly if the top node is full and there is no memory for another of 32 slots, and then nothing changes |
| Atexit.ExitList.MarkCalled | stdlib/atexit.c:222-243 | the call is of the most recently registered pending function that the innermost finalization is for, which is pending no more |
| Atexit.ExitList.Walk | stdlib/atexit.c:215-260 | a walk that is not restarted leaves no matching function pending, though handlers register and finalize themselves; one that is has made progress |
| Atexit.ExitList.Finalize | stdlib/atexit.c:188-310 | its events are enclosed in the trace, which stays lawful, and end with no function of the handle pending; each call is followed at once by all that the function does, for all handlers that register and finalize as they like |
| Atexit.ExitList.Run | stdlib/atexit.c:229-238 | what a handler does is in the trace in its order: registrations with their functions and handles, and whole finalizations |
| Atexit.OwnCalls | stdlib/atexit.c:188-260 | in a trace each call that a finalization makes itself goes to a function of its handle, the last registered of those that no earlier event has called |
| Atexit.ExitList.Release | stdlib/atexit.c:262-307 | empty nodes at the top go, until one is in use or only the static one is left; usedCnt is one past the highest slot in use; nothing pending is lost |
| Atexit.AllCalled | stdlib/atexit.c:188-310 | when a finalization of everything is over every function registered has been called; none is ever called twice |
| InetText.Ntop6 | net/inet_ntop.c:38-108 | the text has a dotted quad for mapped and compatible addresses, else leaves out the leftmost longest run of at least two zero groups (RFC 5952, section 4.2) |
| InetText.LongestRun | net/inet_ntop.c:62-83 | the leftmost of the longest runs of zero groups, none if there is no run of two |
| InetText.PrintedTight | net/inet_ntop.c:38-108 | the text is in small letters without zeros in front of a number, and has a dotted quad exactly if the first five groups are 0 and the sixth is 0xffff, or 0 with more than 0 or 1 behind it |
| InetText.HexDigitIs | net/inet_ntop.c:98 | the hexadecimal digits are 0123456789abcdef in this order, read in capitals as well |
| InetText.Pton4 | net/inet_pton.c:23-47 | accepts exactly the texts of four numbers of one to three digits below 256 with dots between them, and gives the number that these bytes make |
| InetText.Pton6 | net/inet_pton.c:53-132 | accepts exactly the texts of eight groups of one to four hexadecimal digits, or of fewer with one `::`, the last two perhaps a dotted quad, and gives their address; writes behind its array exactly for a quad after seven groups |
| InetText.SevenGroupsAndQuad | net/inet_pton.c:100-107 | `1:2:3:4:5:6:7:1.2.3.4` is such a text |
| InetText.ColonExactly | net/inet_pton.c:85-98 | a text taken for an address is a proper one if and only if it does not end in a single colon; one that does is proper for no address |
| InetText.ColonBehindEight | net/inet_pton.c:85-98 | 1:2:3:4:5:6:7:8: is taken for an address and is a proper text of none |
| InetText.ColonTaken | net/inet_pton.c:85-98 | besides the proper texts the parser accepts exactly those that end in a group with a colon behind it |
| InetText.DenotesOne | net/inet_pton.c:53-132 | a text is that of one address at most |
| InetText.RoundTrip | net/inet_ntop.c:38-108 | what is printed for any address is a text of that address, so it reads back as it |

## Left out

- Regular expressions: basic ones, back references, word boundaries, REG_ICASE, REG_NEWLINE, REG_STARTEND, sub-matches (dissect, backref); REG_LARGE counts only in debugging builds.
- Bracket expressions: their inner syntax; a bracket expression arrives as one symbol with its set, so multi-character collating elements do not occur.
- The strip's packing of operator and operand into one word, its enlargement and running out of memory; operators are values of a datatype and the strip a sequence.
- Regex.Matcher: states nothing about anchored patterns, whose two representations differ in what they pass to a step, nor which of several matches is leftmost.
- Regcomp: which error is reported; the recorded places of sub-expressions, which only back references use.
- Characters are unsigned, and a machine word has 64 bits, the lowest byte first.
- Synchronisation: mutexes of the normal and the kernel kind, barriers, destruction, fork; the mutex inside a condition wait is one step; 2^16 wakes wrapping the sequence during one wait.
- Red-black trees: nodes are numbers instead of addresses (0 is null), a comparison function is an order of integer keys; lib_rbPrev, lib_rbNext and the dump. The temporary nil node of a removal is number 0 together with its parent as an argument.
- IdTree.Alloc: gaps are unsigned and there are fewer than 2^31 - 1 nodes, so the return of -1 cannot occur.
- Malloc: addresses and sizes are in 8-byte words, so a misaligned pointer cannot be written down; ring links and tree nodes of free chunks are in tables beside memory and not in the chunks' payload, one table of nodes for each bin's tree; the size of a chunk is kept with its node too, for the tree's comparison; that a chunk is no node is a table of marks instead of a parent pointer to the node itself; bitmaps are sequences of truth values.
- Malloc: requests are small enough that rounding up does not wrap; sizes from 2^40 on, where malloc_getlidx truncates to 32 bits (SizeClass.TruncatedAgrees says which bins are then right); locks, fork, calloc, reallocf, malloc_trim, statistics and diagnostics.
- Malloc.Malloc.Alloc: maxalloc, a statistic, is kept as the code keeps it but nothing is stated of it.
- Bignum: an or of bits that do not overlap is a sum, a mask is a remainder; the buffer inside the structure and running out of memory.
- Format: the sign, padding and field width; `%a`; long doubles; conversions of integers and strings; scanning.
- FileStream: errors other than that nothing can be moved for now, streams that cannot seek, append mode, ungetc, changing the buffer, opening and closing; a transfer's size is given by a list of limits.
- Atexit: the nodes of a list are one sequence of slots, 32 to a node, instead of nodes with pointers; the lock and other threads; fewer than 2^32 changes happen while one handler runs, so the counter of changes does not come round.
- InetText.Pton6: what the code does after it has written behind its array; the size check of the printer's buffer is not part of this model, nor is the dotted quad's conversion by the library's own strtoul.
- Not modelled at all: thread-specific data, cancellation, signals, the dynamic loader, named semaphores, sorting, string and locale functions; their models would add easy members or rest on the kernel.
