# Thread pool, dynamic strings and intrusive lists: a verified model

This Dafny project models the three libraries that the proxy is built on and proves what
they are relied on for.

* **The thread pool** (`thpool.c`). `JobQueue.dfy` is the linked job queue on the heap.
  `PoolModel.dfy` is the pool as a state machine: one label per atomic step of a worker, of a
  thread that adds work, of the caller of `thpool_wait` and of the caller of
  `thpool_destroy`. A queue operation and the post of the binary semaphore inside it are two
  steps, and so are the two counter reads of `thpool_wait`, and the test and the broadcast of
  the polling loop in `thpool_destroy`, because other threads can act in between. Sleepers of
  the semaphore and of the idle condition are modelled one by one, spurious wake-ups included.
  `PoolInvariant.dfy` proves what every step keeps; `PoolTheorems.dfy` proves statements about
  whole runs, for any number of workers and any interleaving.
* **The dynamic strings** (`sds.c`, `sds.h`). `SdsHeader.dfy` holds the header types, the growth
  policy and its amortised cost. The class in `Sds.dfy` has the flags byte, the length and
  capacity fields with the width of the current header type, and the block; each operation
  is proved to implement an operation on byte sequences. `Decimal.dfy` and `SdsFormat.dfy`
  are the number conversion and `sdscatfmt`. `SdsQuoting.dfy` and `SdsArgs.dfy` are the
  quoting printer and the argument-line parser; `SdsReading.dfy` says in plain bytes what each
  byte is printed as and what the parser reads in each of its three styles. `SdsSplit.dfy` has splitting and joining,
  `SdsCut.dfy` trimming and ranges.
* **The intrusive lists** (`list.h`). `CircularList.dfy` and `HashList.dfy` change shared nodes
  in place. Ghost sequences name the nodes of a list; `modifies` clauses name the few nodes
  an operation writes, so every other list stays as it is.

Assumptions: allocations succeed; the sizes of the strings do not overflow (predicates `Fits`
and `NewFits`); source and destination buffers do not overlap; the locale is "C"; locks give
sequentially consistent critical sections; jobs terminate; the number of queued jobs fits its
`int` counter.

An `sds` value is a pointer that an operation may replace. The model keeps the variable: an
object of class `Sds` whose `buf` field is replaced when the block moves. C strings are byte
sequences that end with their first NUL, so an index that Dafny accepts is a read that does
not pass the terminator.

Results that differ from what one might expect of the code:

* The assertion against overflow in `sdsMakeRoomFor` catches every overflow except that of
  `len + addlen` itself: what it accepts is safe exactly if that sum does not wrap
  (`AssertedIsSafeIff`). If it wraps, the string gets no room, and possibly a block too small
  for what it holds (`AssertionMissesWrap`).
* The assertion in `sdsIncrLen` compares decrements after a cast to `unsigned int` in types 5
  to 32, and increments in type 32. A decrement of 2 to the 32 or more can pass it in types 5
  to 32, such an increment only in type 32 (`IncrWideIncrementIff`); neither is then applied as given
  (`IncrExactIffNarrow`, `IncrWideDecrementIsLost`, `IncrWideIncrementIsLost`).
* In type 5 that assertion looks at the width of the length and not at the block. What it
  accepts stays in the capacity exactly for decrements below 2 to the 32 (`IncrStaysInsideIff`),
  and in the block exactly if an increment also has room there (`IncrTypeFiveInBlockIff`). A
  wider decrement puts the terminator far outside the block (`IncrTypeFiveEscapes`).
* Splitting undoes joining exactly for separable tokens (`SplitUndoesJoinIff`). Tokens that do
  not contain the separator always are, exactly if the separator does not overlap itself
  (`FreeTokensSplitIff`, `OverlapSplitsEarly`). Tokens that join to the empty string are never given back, because
  `sdssplitlen` returns NULL for it (`SplitLenUndoesJoinIff`).
* Between single quotes `sdssplitargs` can read every text but those that end in a backslash
  (`SingleHoldsIff`).
* `sdsrange` takes an end bound that lies before the string as its first byte. The result is
  that byte if the start bound falls on it too, and empty otherwise (`RangeEndBeforeString`).
* The copying done by appends stays within twice the final length for every run exactly if that
  length is below B = 2 * `SDS_MAX_PREALLOC` + 48, or is B + 1 or B + 3 (`TwiceTheLengthIff`);
  beyond, the worst case (`WorstIsExact`) grows with the square of the length, by an upper
  bound (`AppendsAreAmortised`) and a lower one (`SomeRunIsQuadratic`).
* `thpool_destroy` can send its last broadcast after the last worker has left: it tests the
  count of workers without a lock (`LastBroadcastCanBeLate`). A broadcast makes a worker leave
  exactly if it finds one alive (`BroadcastRetiresIff`), and each round of the polling loop
  makes progress in any case (`EveryRoundRetiresAWorker`).
* A pool of no workers accepts jobs and never runs them; with a worker every job is run
  (`EveryJobRunsOnce`).

## Model

| member | source | states |
|---|---|---|
| JobQueue.Queue.HopsEnumerate | thpool.c:68-74 | following `prev` from `front` visits exactly the queued nodes, reaches `rear` after len - 1 hops and then NULL |
| JobQueue.Queue.Push | thpool.c:440-461 | the node goes behind all others, the linked-list invariant is kept and the semaphore is raised |
| JobQueue.Queue.AddWork | thpool.c:182-199 | a new node carrying the task joins the queue at the end |
| JobQueue.Queue.Pull | thpool.c:467-493 | hands out the oldest node or NULL, leaves the others in order, and raises the semaphore exactly when a job is left |
| JobQueue.Queue.Clear | thpool.c:424-435 | frees each queued node exactly once, in queue order, and leaves an empty queue with the semaphore at 0 |
| PoolInvariant.InitEstablishes | thpool.c:127-178 | the initialised pool with any number of workers satisfies the whole invariant |
| PoolInvariant.CountersKept | thpool.c:355-388 | every step keeps the working count equal to the workers between counting in and counting out, and the alive count equal to those not gone |
| PoolInvariant.FifoKept | thpool.c:440-493 | over every step, pulled jobs, then discarded, then queued ones are the pushed jobs in order |
| PoolInvariant.ExclusiveKept | thpool.c:365-374 | no job is run twice, held by two workers, or held after it has finished |
| PoolInvariant.AccountedKept | thpool.c:365-374 | every pulled job is finished or held by some worker |
| PoolInvariant.NotStrandedKept | thpool.c:479-487 | while the pool is kept alive, queued jobs always have a raised semaphore, a worker on its way to pull, or a post about to happen |
| PoolInvariant.NoLostWakeupKept | thpool.c:528-553 | a raised semaphore with a sleeping worker always has a woken worker about to test it again |
| PoolInvariant.WaitingKept | thpool.c:203-209 | the caller of thpool_wait sleeps only while the queue is nonempty or a worker is counted in |
| PoolInvariant.RepostsIffJobsAreLeft | thpool.c:475-487 | a pull is followed by a post exactly if it leaves jobs in the queue, which are still there at the post; the cleanup raises the semaphore exactly then |
| PoolInvariant.WaiterWokenIffIdle | thpool.c:376-381 | a worker that counts itself out wakes the sleeping caller of thpool_wait exactly if no other worker is counted in |
| PoolInvariant.CountsFrozenUnderLock | thpool.c:203-209 | nobody changes the counters while the caller of thpool_wait holds their lock |
| PoolInvariant.WorkersFollowTheLoop | thpool.c:355-388 | each worker goes round its loop in order, obeys the keepalive flag where it tests it, and leaves only at the head of the loop |
| PoolInvariant.WorkerMovesIff | thpool.c:355-388 | a worker is held up exactly while it sleeps, or needs a lock that another thread holds |
| PoolInvariant.AdderMovesIff | thpool.c:440-461 | an add goes on exactly when the queue mutex is free and no cleanup has begun |
| PoolInvariant.WaiterMovesIff | thpool.c:203-209 | the caller of thpool_wait is held up only asleep |
| PoolInvariant.DestroyerMovesIff | thpool.c:226-242 | the caller of thpool_destroy is held up only by a holder of the queue mutex |
| PoolInvariant.IdleBeforeFirstJob | thpool.c:355-368 | before the first add no worker gets past its wait and the semaphore stays down |
| PoolInvariant.StepKeeps | thpool.c:323-390 | every enabled step of every thread preserves the conjunction of all invariants |
| PoolTheorems.ReachableKeepsInvariant | thpool.c:323-390 | every state of every run from thpool_init satisfies the invariant |
| PoolTheorems.WaitIsSafe | thpool.c:203-209 | when a call of thpool_wait returns, every job added before the call has run to its end |
| PoolTheorems.MeasureDecreases | thpool.c:355-384 | every step the pool takes on its own strictly decreases a numeric measure |
| PoolTheorems.RunsAreBounded | thpool.c:355-384 | without further calls, every schedule stops within the measure of the state it starts in, and five steps more for each spurious wake-up |
| PoolTheorems.AtRest | thpool.c:355-388 | when no internal step is possible, no lock is held and every worker sleeps in the semaphore or has exited |
| PoolTheorems.RestMeansDone | thpool.c:203-209 | a pool at rest has an empty queue, has run each pushed job exactly once, and has released the waiting caller |
| PoolTheorems.EveryJobRunsOnce | thpool.c:355-384 | after any interleaving of calls the pool stops within a bound that grows by five for each spurious wake-up; then every job ever added has run exactly once if and only if there is a worker or no job |
| PoolTheorems.DestroyConserves | thpool.c:213-248 | cleanup starts with no worker alive and no pulled job unfinished; afterwards pushed jobs are the disjoint union of jobs run and jobs discarded |
| PoolTheorems.EveryRoundRetiresAWorker | thpool.c:226-239 | from a test that finds workers alive to any later state of rest in which the loop is about to test again, at least one worker exits, before or after the broadcast, whatever else happens |
| PoolTheorems.BroadcastRetiresIff | thpool.c:226-239 | from a broadcast to any later state of rest in which the loop is about to test again, a worker exits if and only if one was alive |
| PoolTheorems.LastBroadcastCanBeLate | thpool.c:234-235 | a run in which the last worker leaves between the test and the broadcast |
| PoolTheorems.PollingRoundsAreBounded | thpool.c:226-239 | in every run the polling loop of thpool_destroy finds a pool at rest with workers alive at most as often as there are workers |
| PoolTheorems.DestroyCompletes | thpool.c:213-248 | after the call and with no further calls, a run is bounded by a measure and a charge for each spurious wake-up and each test made before the pool is at rest; it can only stop with the pool destroyed and every job run or discarded exactly once |
| SdsHeader.ReqTypeIsLeast | sds.c:60-74 | the chosen header is the smallest whose length field holds the size |
| SdsHeader.HeaderLayout | sds.h:47-74 | the size of each header and the bound of its length field follow from the width of the fields |
| SdsHeader.GrowTypeIsLeast | sds.c:221-226 | a grown string gets the smallest header other than type 5 that holds its capacity |
| SdsHeader.NewTypeIsLeast | sds.c:92-95 | a new string gets the smallest header that holds its length, and type 8 if it is empty |
| SdsHeader.TruncatedDropsMultiples | sds.h:130-152 | a field that is too narrow for a value loses a multiple of its bound |
| SdsHeader.AssertedIffFits | sds.c:214-230 | when the sum of the lengths does not wrap, the overflow assertion holds if and only if no other size computation wraps |
| SdsHeader.AssertedIsSafeIff | sds.c:214-230 | a request that the overflow assertion accepts is free of overflow, and gets its room, if and only if the sum of the lengths does not wrap |
| SdsHeader.AssertionMissesWrap | sds.c:214-230 | two requests that it accepts although the sum wraps |
| SdsHeader.AppendsAreAmortised | sds.c:204-248 | a run of appends copies at most twice the final length L up to 2 * SDS_MAX_PREALLOC, and at most 2L + L*L/(2 * SDS_MAX_PREALLOC) always; capacity stays within the preallocation policy |
| SdsHeader.WorstIsExact | sds.c:204-248 | the most bytes any run of appends to a given length can copy: no run exceeds it and one reaches it |
| SdsHeader.SomeRunIsQuadratic | sds.c:204-248 | for every length some run copies at least (n*n - 4 * SDS_MAX_PREALLOC^2) / (2 * (SDS_MAX_PREALLOC + 1)) bytes |
| SdsHeader.TwiceTheLengthIff | sds.c:204-248 | exactly for which final lengths every run of appends copies at most twice the length |
| SdsHeader.IncrExactIffNarrow | sds.c:334-373 | an accepted increment is applied exactly if and only if the header is type 64 or the increment survives the cast |
| SdsHeader.IncrAcceptedIff | sds.c:334-373 | which increments below 2 to the 32 are accepted: those that keep the length between 0 and the capacity, in type 5 those other than 0 that keep it below 32 |
| SdsHeader.IncrWideDecrementIff | sds.c:334-373 | which decrements of 2 to the 32 or more are accepted |
| SdsHeader.IncrStaysInside | sds.c:334-373 | beyond type 5 an accepted increment never leaves the capacity |
| SdsHeader.IncrStaysInsideIff | sds.c:334-373 | an accepted increment stays in the capacity if and only if the type is not 5 or it is a decrement below 2 to the 32 |
| SdsHeader.IncrTypeFiveInBlockIff | sds.c:338-342 | what the type-5 assertion accepts puts the terminator in the block if and only if it is above -2 to the 32 and has room |
| SdsHeader.IncrTypeFiveEscapes | sds.c:338-342 | an accepted decrement and an accepted increment whose terminator leaves the block |
| SdsHeader.IncrWideDecrementIsLost | sds.c:345-350 | a concrete decrement passes the assertion and changes nothing |
| SdsHeader.IncrWideIncrementIff | sds.c:334-373 | which increments of 2 to the 32 or more are accepted, and what type 32 makes of them |
| SdsHeader.IncrWideIncrementIsLost | sds.c:358-363 | a concrete increment passes the assertion and changes nothing |
| Sds.Sds.ValidMeans | sds.h:47-74 | a valid string has its terminator behind its length, and in types 8 to 64 a block of exactly capacity and terminator |
| Sds.Sds.SetLen | sds.h:130-152 | the length field takes the low bits of the value, in type 5 inside the flags byte |
| Sds.Sds.IncLen | sds.h:154-177 | the sum wraps at the width of the current header's length |
| Sds.Sds.NewLen | sds.c:89-145 | a valid string of the given length in the smallest header, type 8 if empty, with the given bytes or zeros |
| Sds.Sds.MakeRoomFor | sds.c:204-248 | contents, length and terminator survive every change of block and header; there is room for addlen; capacity and type follow the growth policy |
| Sds.Sds.RemoveFreeSpace | sds.c:256-291 | contents survive, capacity becomes the length, the block becomes exact, and small strings get the smallest header |
| Sds.Sds.CatLen | sds.c:398-407 | the bytes are appended, whatever header changes that takes; its effect on length, capacity and copying is one step of the growth model |
| Sds.Sds.CpyLen | sds.c:427-436 | the contents become exactly the given bytes, in the same block if they fit |
| Sds.Sds.GrowZero | sds.c:380-391 | the string is extended with zero bytes to the length, or left alone if it is longer |
| Sds.Sds.IncrLen | sds.c:334-373 | for every accepted increment whose terminator lies in the block, the length follows the casts and the string is valid; outside type 5 that is every accepted increment |
| Decimal.NumeralIsExact | sds.c:451-520 | the numeral reads back to the value, has only digits after the sign and no superfluous leading zero |
| Decimal.NumeralIsCanonical | sds.c:451-520 | the numeral is the only string in the usual form that reads as the value |
| Decimal.NumeralFits | sds.c:450-451 | 64-bit numerals have at most 20 characters, and LLONG_MIN and ULLONG_MAX need all 20 |
| Decimal.DigitCount | sds.c:470-473 | a number has at most n digits exactly when it is below 10 to the n |
| Decimal.ReverseInPlace | sds.c:482-489 | swapping from both ends reverses the prefix and touches nothing behind it |
| Decimal.Ll2Str | sds.c:451-491 | writes exactly the numeral of every signed 64-bit value, LLONG_MIN included, then the terminator, then nothing |
| Decimal.Ull2Str | sds.c:494-520 | the same for every unsigned 64-bit value |
| SdsFormat.EscapedPrintsVerbatim | sds.c:687-690 | a text with doubled percent signs is a format that prints the text |
| SdsFormat.RenderComposes | sds.c:616-709 | printing a concatenated format is printing one part after the other, unless the first breaks off inside a directive |
| SdsFormat.NumbersPrint | sds.c:657-690 | %i, %I, %u and %U print every value of their type in its usual form |
| SdsFormat.StringsPrint | sds.c:646-656 | %s prints a C string without its terminator, %S all bytes of a dynamic string |
| SdsFormat.OthersPrint | sds.c:691-700 | an unknown directive prints its character, a percent sign at the end nothing, any other character itself |
| SdsFormat.LettersAreTyped | sds.c:645-690 | each of the six letters takes one argument, of its own type |
| SdsFormat.CatFmt | sds.c:616-709 | for every format and matching arguments the result is the old contents followed by the rendering; every write lands in available space |
| SdsQuoting.SplitUndoesRepr | sds.c:965-966 | quoting any list of byte strings and laying it out with any white space parses back to exactly that list |
| SdsQuoting.EscapeIsRead | sds.c:898-921 | the parser reads each printed byte, however escaped and whatever follows, as that byte |
| SdsQuoting.ReprLineIsCString | sds.c:898-921 | such a line contains no NUL, so it is a valid input of the parser |
| SdsQuoting.QuotedIsInjective | sds.c:898-921 | different byte strings have different quoted forms |
| SdsReading.EscapedForm | sds.c:901-917 | exactly how each of the 256 bytes is printed |
| SdsReading.OnlyPrintable | sds.c:890-894 | a quoted form consists of printable characters between double quotes, whatever it quotes |
| SdsReading.DoubleReadsSpellings | sds.c:990-1024 | between double quotes every way of spelling a text, byte by byte, is read as the text |
| SdsReading.LoneXIsRead | sds.c:991-1013 | an x behind a backslash without two hexadecimal digits stands for itself |
| SdsReading.QuoteEnds | sds.c:1014-1040 | a quote ends a text exactly if white space or nothing follows; a text without one is unterminated |
| SdsReading.DoubleCases | sds.c:990-1024 | between double quotes there are no other cases |
| SdsReading.SingleFormIsReadIff | sds.c:1025-1039 | between single quotes, with each single quote in it behind a backslash, a text is read if and only if it does not end in a backslash |
| SdsReading.SingleHoldsIff | sds.c:1025-1039 | exactly those texts can be read between single quotes at all |
| SdsReading.BareIsRead | sds.c:1041-1060 | what ends, continues or belongs to an argument outside quotes |
| SdsReading.EveryStyleIsRead | sds.c:954-964 | a line laid out from arguments in any mixture of the styles parses to exactly the arguments |
| SdsQuoting.DoubleEndsAtClose | sds.c:992-1028 | a double-quoted text ends at the first double quote behind an even run of backslashes, and nowhere else |
| SdsQuoting.SingleEndsAtClose | sds.c:1029-1043 | a single-quoted text ends at the first single quote not behind a backslash |
| SdsQuoting.FailsIffMalformed | sds.c:968-972 | parsing fails exactly when some quote is never closed or its closing quote is followed by something other than white space |
| SdsArgs.CatRepr | sds.c:898-921 | appends exactly the quoted form |
| SdsArgs.TurnDouble | sds.c:994-1028 | one turn inside double quotes advances the scan as the grammar says; its look-ahead of up to three bytes stays at or before the NUL |
| SdsArgs.GetToken | sds.c:979-1068 | a new string collects exactly the token the grammar reads, or the line is rejected |
| SdsArgs.SplitArgs | sds.c:973-1081 | terminates on every NUL-terminated line without reading past the NUL and returns new strings, no two sharing a block, that hold what the grammar says |
| SdsSplit.JoinUndoesSplit | sds.c:835-872 | joining the pieces of a split with the separator restores the string |
| SdsSplit.PiecesAreFree | sds.c:835-872 | no piece of a split contains the separator |
| SdsSplit.SplitUndoesJoinIff | sds.c:1120-1129 | splitting a join gives the tokens back if and only if each separator is first found where it was put |
| SdsSplit.FreeTokensAreSeparable | sds.c:858-860 | for a separator that does not overlap itself, such as one byte, tokens that do not contain it are separable |
| SdsSplit.FreeTokensSplitIff | sds.c:858-864 | splitting gives joined tokens that do not contain the separator back, whatever they are, if and only if the separator does not overlap itself |
| SdsSplit.OverlapSplitsEarly | sds.c:858-864 | two separator-free tokens whose join splits differently |
| SdsSplit.SplitLenUndoesJoinIff | sds.c:840-843 | sdssplitlen gives joined tokens back if and only if they are separable and do not join to the empty string |
| SdsSplit.ScanAll | sds.c:846-868 | the scan finds exactly the separators of the split, and the token array always has a free slot for the next write |
| SdsSplit.SplitLen | sds.c:835-872 | returns NULL for an empty or negative length or separator length, else new strings, no two sharing a block, that hold exactly the split |
| SdsSplit.JoinSds | sds.c:1120-1129 | the result holds the join, built with amortised copying |
| SdsCut.Trim | sds.c:725-738 | keeps the window outside which everything belongs to the set (NUL included) and whose ends do not |
| SdsCut.TrimIsDetermined | sds.c:725-738 | that description fixes the result |
| SdsCut.Range | sds.c:756-780 | keeps the bytes between the two bounds, counted from either end |
| SdsCut.RangeKeeps | sds.c:756-780 | for every combination of bounds, exactly which positions are kept |
| SdsCut.RangeEndBeforeString | sds.c:764-767 | an end bound before the string leaves the first byte exactly if the start bound includes it, else nothing |
| SdsCut.RangeKeepsAllIff | sds.c:756-780 | exactly which bounds leave the string as it is |
| CircularList.NextAndPrevAreInverse | list.h:62-64 | in a list, next and prev are mutually inverse and do not leave it |
| CircularList.Link | list.h:81-89 | the node goes between the two neighbours, in sequence terms |
| CircularList.Add | list.h:99-102 | the node becomes the first entry |
| CircularList.AddTail | list.h:112-115 | the node becomes the last entry |
| CircularList.Del | list.h:137-142 | the entry leaves the list and both its links become the poison values |
| CircularList.DelInit | list.h:150-154 | the entry leaves the list and becomes an empty list |
| CircularList.MoveWithin | list.h:161-165 | an entry of the list becomes its first |
| CircularList.MoveTo | list.h:161-165 | an entry of one list becomes the first of another, disjoint one; both stay lists |
| CircularList.MoveTailWithin | list.h:172-177 | an entry of the list becomes its last |
| CircularList.MoveTailTo | list.h:172-177 | an entry of one list becomes the last of another, disjoint one |
| CircularList.IsEmpty | list.h:183-186 | true exactly for a list without entries |
| CircularList.Splice | list.h:207-211 | the entries go in right behind the other head, in order |
| CircularList.SpliceInit | list.h:220-227 | likewise, and the spliced list ends up empty |
| CircularList.DeleteAll | list.h:331-335 | the safe loop that deletes every entry visits each exactly once, in order, and leaves an empty list |
| HashList.PprevIsTheUniqueSlot | list.h:379-381 | a node's pprev is the one slot of its bucket that points to it |
| HashList.AddHead | list.h:423-431 | the node becomes the first of the bucket |
| HashList.AddBefore | list.h:436-443 | the node goes in front of another, without knowledge of the head |
| HashList.AddAfter | list.h:445-454 | the second argument goes behind the first |
| HashList.Del | list.h:407-412 | the node leaves the bucket with poisoned links |
| HashList.DelInit | list.h:415-421 | the node leaves the bucket and counts as unhashed; an unhashed node is left alone |
| HashList.IsUnhashed | list.h:388-391 | a node of a bucket is never taken for an unhashed one |

## Left out

- The event loop, sockets, pipes, processes, signals and configuration of the proxy (`main.c`, `tgx_*.c`): input and output around libraries that are not part of this model.
- The start of the workers inside `thpool_init`: the model begins when all of them are alive. Failed thread creation, `thpool_pause` and `thpool_resume`, time-outs and sleeps are not modelled.
- Several callers of `thpool_wait` at once: only one of them is signalled, so there is one.
- An add that overlaps the queue cleanup of `thpool_destroy`, and destroying a pool that is being waited for: both would use freed memory.
- The copy of `num_threads_alive` that `thpool_destroy` takes to free the thread records.
- MakeRoomFor: it excludes the requests that the assertion accepts although the sum of the lengths wraps (AssertedIsSafeIff); what follows them is memory that is not part of this model.
- IncrLen: in type 5 the assertion also accepts increments that put the terminator outside the block; the method excludes exactly those (IncrTypeFiveInBlockIff), because the write then hits memory that is not part of this model.
- CatFmt: variable arguments are a sequence of values that match the format.
- CatRepr: the two uses of `sdscatprintf` are modelled by the bytes they print; `sdscatvprintf` in general is not modelled.
- MoveWithin: `list_move` and `list_move_tail` are each stated by two methods with the same body, one for a move inside a list and one between lists.
- Allocation failures and the cleanup paths behind them, overlapping buffers, locales other than "C", `container_of`.
- Members that would add nothing hard: `sdstolower`, `sdstoupper`, `sdsmapchars`, `sdsdup`, `sdscmp`, `sdsclear`, `sdsupdatelen`, the forward and reverse iteration macros.
