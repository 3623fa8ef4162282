# A model of a Pintos kernel

The repository is a student fork of the Pintos teaching kernel, one copy per course project.  This project
models its algorithmic core, taken from projects 1 and 2, and proves what that code is for.

| module | models |
|---|---|
| `Division` | 64-bit division out of 32-bit divide instructions |
| `InodeIO`, `Directory`, `DirectoryBytes`, `FileSystem`, `FileContents`, `NamedFiles`, `Bitmap` | the file system: chunked sector transfers against a flat array of bytes, directory slots as bytes and against a map, the ownership of sectors over runs of create, open, reopen, remove and close, what a write does to all files of a running system, and create, remove and write as operations on a map from names to bytes, read from the device |
| `Malloc`, `Palloc` | the kernel allocator: arenas, free lists and counts over two pools of pages |
| `Mlfqs`, `Reals`, `ReadyQueues`, `Scheduler` | the multi-level feedback queue scheduler and its fixed-point arithmetic |
| `Semaphores`, `Monitors`, `Donation` | synchronisation as atomic steps, Mesa monitors, and priority donation |
| `PageDir`, `Loader`, `Arguments` | the two-level page table against a map, the ELF segment loader, and the first stack of a process |
| `Ustar`, `Printf`, `Sorting` | ustar headers, integer output and input, heap sort and binary search |
| `Machine`, `Bytes`, `Arith`, `Vaddr`, `Lists`, `Options` | machine words and their bytes, arithmetic, addresses, lists and optional values, shared by the others |

## How to read it

- Code that changes state is a method, on a class with the source's fields where the source has an object.
  Its contract states the whole new state, mostly through a function whose properties are lemmas, and it keeps
  the invariant of its class; what holds between any two calls then holds over every run.
- Integers are unbounded.  Where the source's width matters, wrap-around is written out (`Machine.Wrap32`,
  `Machine.Signed32` and their 64-bit forms), and C division is `Machine.TruncDiv`.  Bit masks are quotients
  and remainders of natural numbers.
- A stretch of code that runs with interrupts off is one atomic step.  `Semaphores` and `Monitors` are
  transition systems over such steps, for any number of threads and every interleaving.
- Lists are sequences and bit maps are sequences of bits.  The page allocator, the disk and the program file are
  objects; the results of a device never fail.
- Ghost state records what the C code does not: who owns a sector or a block, which references are out, which
  threads were woken and have not yet run.

## Where the code and its comments differ

The model follows the code.

- `mlfqs_calc_priority` subtracts one more than its formula: a fresh thread gets 62, not 63
  (`Mlfqs.FreshThreadPriority`).  It meets the formula if and only if that gives at most 0 or more than 63
  (`Mlfqs.MeetsFormulaExactly`).
- `umod64` and `smod64` return 32 bits, so they are exact if and only if the remainder fits (`Division.Umod64`,
  `Division.Smod64`, with an example of each).  `sdiv64` is exact if and only if the operands are not INT64_MIN and -1.
- A big request to `malloc` is computed in 32 bits.  The block is large enough if and only if the request does not
  exceed 2^32 - 12 (`Malloc.BigPagesSuffice`); one for 2^32 - 1 bytes gets a page (`Malloc.WrappedRequest`).
- `filesys_create` does not give the data sectors back when only the directory refuses the new file.  The sectors
  that are in use but belong to no file come from exactly this case (`FileSystem.FileSystem.Create`,
  `FileSystem.FileSystem.EverySectorHasOneOwner`), which does occur (`FileSystem.LeakExample`).
- The loop of `lock_propagate_donation` makes no progress at a holder whose priority is not lower, and follows a
  null holder.  It ends if and only if the chain is acyclic, ends with a thread that is not blocked, and has lower
  priorities throughout (`Donation.DoneExactlyOnGoodChains`).  Both failures are reached by runs of `lock_acquire`
  and `lock_release` (`Donation.SpinExample`, `Donation.NullHolderExample`).
- `lock_release` looks only at the first waiter of each lock.  The released priority is that of the highest of all
  waiters if and only if no other waiter outranks the first ones and the thread itself
  (`Donation.FrontsSufficeExactly`).  Sorted waiters always meet this condition (`Donation.SortedIsCovered`,
  `Donation.SortedRelease`), but a donation can unsort them (`Donation.DonateThenRelease`,
  `Donation.UnsortedExample`).
- `ustar_make_header` accepts a negative size, and `ustar_parse_header` then refuses the header of a regular file
  (`Ustar.MakeThenParse`).
- The branch of `inode_write_at` that clears the bounce buffer cannot be reached: without the full sector, some of
  it is always kept (`InodeIO.Inode.WritePartial`).

## Model

| member | source | states |
|---|---|---|
| Division.Nlz | project1/src/lib/arithmetic.c:42-73 | the returned shift brings the top set bit of a nonzero word to bit 31 |
| Division.EstimateIsFloorOrOneMore | project1/src/lib/arithmetic.c:121-124 | with a divisor of more than 32 bits, the normalised estimate is the exact quotient or one more, and the divide instruction it uses cannot trap |
| Division.ShortDivisor | project1/src/lib/arithmetic.c:106-111 | dividing the upper word first leaves a dividend whose quotient fits in 32 bits, and the two parts add up to the quotient |
| Division.DivideByWord | project1/src/lib/arithmetic.c:80-112 | the branch for a 32-bit divisor returns the exact quotient without wrapping |
| Division.CorrectionStep | project1/src/lib/arithmetic.c:124 | an estimate of floor or floor + 1 is lowered exactly when the remainder left by one less is below the divisor |
| Division.CorrectEstimate | project1/src/lib/arithmetic.c:124 | the last line gives the exact quotient in 64-bit words, with no wrap-around |
| Division.Udiv64 | project1/src/lib/arithmetic.c:78-127 | for every 64-bit dividend and nonzero divisor the result is floor(n / d), and no divide error is raised on the way |
| Division.Umod64 | project1/src/lib/arithmetic.c:132-135 | the result is the remainder modulo 2^32, so the remainder itself exactly when that fits in 32 bits |
| Division.Umod64Example | project1/src/lib/arithmetic.c:132-135 | a remainder of 2^32 comes back as 0 |
| Division.Sdiv64 | project1/src/lib/arithmetic.c:140-146 | the result is the C quotient exactly when the operands are not INT64_MIN and -1; for those it is the dividend |
| Division.TruncDivIsTheCQuotient | project1/src/lib/arithmetic.c:140-146 | the truncating quotient is the only one whose remainder is smaller than the divisor and has the sign of the dividend |
| Division.Smod64 | project1/src/lib/arithmetic.c:151-154 | the result is the truncating remainder cut to 32 bits, exact precisely when it fits |
| Division.Smod64Example | project1/src/lib/arithmetic.c:151-154 | a remainder of 2^31 comes back negative |
| Mlfqs.PriorityFormula | project1/src/threads/thread.c:169-186 | the priority is one less than the formula of the comment, rounded down and clamped to 0..63, with no overflow for any recent_cpu |
| Mlfqs.MeetsFormulaExactly | project1/src/threads/thread.c:169-186 | the priority is that of the comment exactly where the formula gives 0 or less, or more than 63 |
| Mlfqs.PriorityIsAntitone | project1/src/threads/thread.c:169-186 | neither more recent CPU use nor a higher nice value ever raises a priority |
| Mlfqs.FreshThreadPriority | project1/src/threads/thread.c:169-186 | a fresh thread gets 62, where the formula of the comment gives 63 |
| Mlfqs.LoadAverageBound | project1/src/threads/thread.c:242-257 | with at most n <= 545 ready threads the load average stays between 0 and n, and nothing overflows |
| Mlfqs.DecayBound | project1/src/lib/reals.c:74-77 | the decay factor of recent_cpu is at least 0 and at most 2n / (2n + 1) |
| Mlfqs.RecentCpuBound | project1/src/threads/thread.c:154-164 | the update of recent_cpu takes the range reached at the end of a second back to the range of its start, with no overflow |
| ReadyQueues.ReorderedIsAPermutationInPlace | project1/src/threads/thread.c:214-237 | reordering keeps every queued thread as often as it was queued and leaves each in the queue of its priority |
| ReadyQueues.ReorderedHoldsWaiters | project1/src/threads/thread.c:214-237 | after any change of priorities, reordering makes the queues hold exactly the waiting threads, each once and in place |
| ReadyQueues.ScanStep | project1/src/threads/thread.c:223-234 | one step of the inner loop keeps the description of a partly scanned queue |
| ReadyQueues.OneMoreQueueScanned | project1/src/threads/thread.c:219-236 | scanning queue i takes the state with i queues reordered to the state with i + 1 |
| ReadyQueues.EnqueueHoldsWaiters | project1/src/threads/thread.c:411-435 | queueing a thread by its priority adds exactly that thread to those waiting |
| ReadyQueues.PickIsMaximal | project1/src/threads/thread.c:737-768 | the picked thread is idle exactly when nothing waits, otherwise a waiting thread of the highest priority, and the others stay queued |
| ReadyQueues.ThreadsRunInOrder | project1/src/threads/thread.c:494-518 | round robin: while a queue is the highest in use, its k-th thread runs at the (k+1)-st pick, whatever becomes ready meanwhile at that priority or below |
| ReadyQueues.YieldsToEquals | project1/src/threads/thread.c:494-518 | a thread that gives way is picked again at once exactly if all that wait have lower priorities |
| ReadyQueues.ReadiedRunsFirst | project1/src/threads/thread.c:411-435 | a thread made ready runs before the one that gives way for it exactly if all that wait have lower priorities and that one has no higher one |
| ReadyQueues.ReorderedKeepsOrder | project1/src/threads/thread.c:214-237 | of two threads that reordering leaves in one queue, the one that was there already comes first, and otherwise the one in front or from the lower queue |
| ReadyQueues.SizeIsTheWaiting | project1/src/threads/thread.c:200-209 | the sizes of the queues add up to the number of waiting threads |
| Scheduler.TickChargesOne | project1/src/threads/thread.c:279-290 | a tick adds one unit to the running thread and nothing to another; at the end of a second the decayed value is that of the closed formula |
| Scheduler.Thread.constructor | project1/src/threads/thread.c:675-702 | a new thread is blocked, with no CPU use and the priority computed from that |
| Scheduler.Scheduler.constructor | project1/src/threads/thread.c:107-148 | once threads run the invariant holds: the initial thread runs, idle has blocked, nothing is queued |
| Scheduler.Scheduler.ScanQueue | project1/src/threads/thread.c:221-235 | the loop over one queue moves exactly the threads of another priority, each to the back of its own queue, and ends |
| Scheduler.Scheduler.ReorderList | project1/src/threads/thread.c:214-237 | the queues become the reordered ones and again hold the waiting threads in place |
| Scheduler.Scheduler.ListSize | project1/src/threads/thread.c:200-209 | the number of queued threads |
| Scheduler.Scheduler.ReadyThreadsAreCounted | project1/src/threads/thread.c:239-257 | what the load average counts is the waiting threads and the running one unless idle |
| Scheduler.Scheduler.NextThreadToRun | project1/src/threads/thread.c:737-768 | takes the front of the highest nonempty queue, or idle, and leaves the other queues alone |
| Scheduler.Scheduler.Schedule | project1/src/threads/thread.c:787-837 | the picked thread is the only one that runs, with a new time slice, and none that waits has a higher priority |
| Scheduler.Scheduler.MakeReady | project1/src/threads/thread.c:411-435 | a thread that becomes ready is queued by its priority, and the invariant is kept |
| Scheduler.Scheduler.Yield | project1/src/threads/thread.c:494-518 | the running thread goes on exactly if all that wait have lower priorities; otherwise the best of them runs, equals in their turn |
| Scheduler.Scheduler.Block | project1/src/threads/thread.c:393-400 | the running thread leaves the processor unqueued, and the best waiting thread runs |
| Scheduler.Scheduler.Unblock | project1/src/threads/thread.c:411-435 | the thread is queued; outside an interrupt, unless idle runs, the processor passes to the best thread: to this one exactly if none that waits is as high and the running one no higher |
| Scheduler.Scheduler.Exit | project1/src/threads/thread.c:473-489 | exactly the running thread leaves the list of all threads, and the best waiting thread runs |
| Scheduler.Scheduler.Create | project1/src/threads/thread.c:329-384 | a new thread inherits nice value and recent CPU use but is queued with the priority of a fresh thread, and the best thread runs |
| Scheduler.Scheduler.SetNice | project1/src/threads/thread.c:567-578 | the priority of the running thread follows its nice value at once, and it runs on only if it is still best |
| Scheduler.Scheduler.DecayAll | project1/src/threads/thread.c:287-288 | every thread is updated once, from its own old value, and all are back in range |
| Scheduler.Scheduler.UpdateCpuUse | project1/src/threads/thread.c:279-290 | the tick is charged to the running thread unless idle; once a second the load average and then every recent_cpu is updated, all within their ranges |
| Scheduler.Scheduler.UpdatePriorities | project1/src/threads/thread.c:191-195 | every thread has the priority computed from its recent CPU use and nice value |
| Scheduler.Scheduler.TimerInterrupt | project1/src/threads/thread.c:262-303 | any tick with at most N ready threads keeps the invariant, states the new value of every field, and asks to yield when the time slice is over |
| Sorting.Swap | project1/src/lib/stdlib.c:67-79 | exchanges exactly the two elements |
| Sorting.Largest | project1/src/lib/stdlib.c:103-112 | the index of the largest of a node and its children |
| Sorting.SiftStep | project1/src/lib/stdlib.c:97-123 | exchanging a node with its larger child moves the only violation of the heap order one level down |
| Sorting.Heapify | project1/src/lib/stdlib.c:97-123 | a heap below a node becomes a heap from that node on, the elements are rearranged, and those behind the heap stay |
| Sorting.RootIsLargest | project1/src/lib/stdlib.c:132-152 | no element of a heap is larger than its root |
| Sorting.BuildHeap | project1/src/lib/stdlib.c:132-144 | the whole array becomes a heap of the same elements |
| Sorting.ExtractMax | project1/src/lib/stdlib.c:146-151 | exchanging the root with the last element extends the sorted end by one and leaves a heap below the root |
| Sorting.Sort | project1/src/lib/stdlib.c:132-152 | for every total preorder the array ends in order and is a permutation of what it was |
| Sorting.BinarySearch | project1/src/lib/stdlib.c:185-207 | on an ordered array an index is returned exactly if some element matches, and it matches |
| Printf.DigitsOf64Bits | project1/src/lib/stdio.c:475-513 | the digits of a 64-bit value with their separators take at most 44 characters in every base |
| Printf.AccumulateDigits | project1/src/lib/stdio.c:501-513 | the buffer receives the digits of the value, last digit first, within its 64 characters |
| Printf.AppendZeros | project1/src/lib/stdio.c:515-524 | zeros follow up to the precision or the end of the buffer, then the zero of the # flag with octal |
| Printf.OutputReversed | project1/src/lib/stdio.c:543-544 | the buffer is written out backwards |
| Printf.FormatInteger | project1/src/lib/stdio.c:470-547 | the output is sign, prefix, padding and digits as the flags ask, and every write is inside the digit buffer |
| Printf.Atoi | project1/src/lib/stdlib.c:10-41 | the leading integer of the string, cut to 32 bits, also for INT_MIN |
| Printf.DigitsDenoteValue | project1/src/lib/stdio.c:501-513 | the printed digits of a value denote that value |
| Printf.BufferDenotesValue | project1/src/lib/stdio.c:515-524 | so does the buffer after the zeros of the precision and the # flag |
| Printf.ReadBack | project1/src/lib/stdlib.c:10-41 | spaces, a sign, digits and spaces are read back as the signed number |
| Printf.FormatThenAtoi | project1/src/lib/stdio.c:470-547 | atoi reads back every 32-bit integer printed in decimal, for all flags but grouping, all widths and all precisions |
| Printf.PrintThenRead | project1/src/lib/stdlib.c:10-41 | the round trip of the two functions themselves |
| Printf.ZeroPaddedOctal | project1/src/lib/stdio.c:470-547 | zero-padded octal of a value that fits gives exactly that many digits, which denote the value |
| Printf.DigitsDenoteInEveryBase | project1/src/lib/stdio.c:501-513 | in every base, hexadecimal in both cases too, the digits without separators denote the value, and the first is not 0 |
| Printf.BufferDenotesInEveryBase | project1/src/lib/stdio.c:501-524 | so does what is printed, for every conversion |
| Printf.CommasBetweenGroups | project1/src/lib/stdio.c:506-512 | with the flag there is a comma between groups of 3 or 4 digits, counted from the last, and nowhere else |
| Printf.SignsArePrinted | project1/src/lib/stdio.c:482-499 | a minus, a plus, a space, x or X is in the output exactly when value and flags ask for it |
| Printf.PaddedToWidth | project1/src/lib/stdio.c:526-546 | padding is added to what is printed without a width: on the right, behind sign and prefix as zeros, or on the left |
| Printf.DigitsByPrecision | project1/src/lib/stdio.c:515-524 | as many digits as the precision asks for, up to 63, and a leading zero in octal with the # flag |
| Printf.ReadsAnyNumber | project1/src/lib/stdlib.c:10-41 | of any string atoi skips white space, obeys a sign and reads the digits up to the first other character |
| Ustar.StripAntisocialPrefixes | project1/src/lib/ustar.c:66-73 | ends on every name and returns the stripped name |
| Ustar.StripIsSafeAndIdempotent | project1/src/lib/ustar.c:66-73 | what is left is a nonempty relative name that does not begin with ./ or ../ and is not .., a suffix of the name or the dot; stripping it again changes nothing |
| Ustar.StripIsRelative | project1/src/lib/ustar.c:66-73 | what is left begins with none of /, ./ and ../ |
| Ustar.StripsOnlyPrefixes | project1/src/lib/ustar.c:66-73 | nothing but /, ./ and ../ is stripped, and only until the rest is safe |
| Ustar.Strlcpy | project1/src/lib/string.c:326-343 | stores as much of the string as fits with its null, and nothing else, and returns the whole length |
| Ustar.Snprintf | project1/src/lib/stdio.c:26-52 | stores as much of the output as fits with its null and returns the whole length |
| Ustar.CalculateChksum | project1/src/lib/ustar.c:37-54 | the sum of the bytes with the checksum field as spaces; it needs at most seven octal digits |
| Ustar.ChecksumIgnoresItself | project1/src/lib/ustar.c:37-54 | what the checksum field holds does not matter |
| Ustar.ParseOctalField | project1/src/lib/ustar.c:130-162 | the value of leading octal digits ended by a space or null within the field, or failure, also for more than 32 bits |
| Ustar.OctalFieldExactly | project1/src/lib/ustar.c:130-162 | a field is accepted exactly if octal digits that a word can hold are followed by a space or a null |
| Ustar.MakeHeader | project1/src/lib/ustar.c:83-118 | fails exactly if the stripped name is longer than 99 characters, and then leaves the buffer alone; otherwise the buffer holds the header |
| Ustar.ParseHeader | project1/src/lib/ustar.c:182-227 | the answer is that of the checks in their order: end of archive, an error or a file |
| Ustar.AcceptedExactly | project1/src/lib/ustar.c:182-227 | a header is taken for a file exactly with this magic, version, checksum and name field, as a directory or as a regular file with a size up to INT_MAX |
| Ustar.RefusedForAReason | project1/src/lib/ustar.c:182-227 | all zeros and nothing else is the end of the archive, and each message names a check that fails |
| Ustar.MadeOtherFields | project1/src/lib/ustar.c:97-111 | permissions, ids, time and user names of a made header, and nulls where there is no field |
| Ustar.MakeThenParse | project1/src/lib/ustar.c:83-227 | a made header is parsed as the same name, type and size (0 for a directory); only a regular file of negative size is refused |
| Ustar.MakeAndParse | project1/src/lib/ustar.c:83-227 | the round trip on one buffer, for every name and every nonnegative size |
| Ustar.OneChangedCharacterIsDetected | project1/src/lib/ustar.c:204-207 | a valid header with one character changed outside the checksum field is not accepted as a file |
| Semaphores.StepKeepsInv | project2/src/threads/synch.c:61-121 | each atomic step keeps value = initial + ups - downs and leaves no waiter stuck |
| Semaphores.RunKeepsInv | project2/src/threads/synch.c:61-121 | so does every interleaving; if no woken thread is still to run, then the value is 0 or nobody waits |
| Semaphores.EveryGrantTakesOne | project2/src/threads/synch.c:61-121 | over every run, value = first value + ups - passes that found the value positive |
| Semaphores.WaitersAreServedInOrder | project2/src/threads/synch.c:61-121 | whatever else happens, the k-th waiter is woken by the (k+1)-st up, and nobody overtakes it |
| Semaphores.Semaphore.constructor | project2/src/threads/synch.c:45-51 | no waiters and the given value, which satisfies the invariant |
| Semaphores.Semaphore.DownPass | project2/src/threads/synch.c:61-76 | one pass of the loop is the Down or Recheck step, and blocks exactly at value 0 |
| Semaphores.Semaphore.TryDown | project2/src/threads/synch.c:84-102 | is the TryDown step, and succeeds exactly at a positive value |
| Semaphores.Semaphore.Up | project2/src/threads/synch.c:109-121 | is the Up step, and unblocks the longest waiter if there is one |
| Monitors.StepsAreEnabled | project2/src/threads/synch.c:193-346 | under the invariant no step finds a thread or semaphore in a state it does not expect |
| Monitors.AwakeThreadsHaveSteps | project2/src/threads/synch.c:193-346 | exactly the threads that are asleep have no next step |
| Monitors.StepKeepsLockInv | project2/src/threads/synch.c:193-244 | each step keeps at most one owner, value 0 exactly while there is one, and the holder field right |
| Monitors.StepKeepsQueueInv | project2/src/threads/synch.c:61-121 | each step keeps the sleepers of the lock on its list, none asleep on a free lock unless a woken thread is on its way |
| Monitors.StepKeepsOthersReachable | project2/src/threads/synch.c:296-346 | no step loses the wakeup of another waiting thread |
| Monitors.StepKeepsSelfReachable | project2/src/threads/synch.c:296-310 | a thread that waits is on the list, being signalled or posted, and exactly one of these, after its own steps |
| Monitors.StepKeepsWaitInv | project2/src/threads/synch.c:296-346 | each step keeps this for all waiting threads |
| Monitors.RunKeepsInv | project2/src/threads/synch.c:193-346 | every interleaving of any number of threads keeps the invariant |
| Monitors.EveryRunIsSafe | project2/src/threads/synch.c:193-346 | in every state that a run can reach: one owner, holder implies value 0, no stuck thread, no lost wakeup |
| Monitors.EndsWithTheLock | project2/src/threads/synch.c:193-310 | whoever is in lock_acquire or cond_wait stays in it, over every interleaving, until it holds the lock |
| Monitors.WaitReturnsWithTheLock | project2/src/threads/synch.c:296-310 | cond_wait comes back only after its thread has held the lock again, as its only owner |
| Monitors.AcquireReturnsWithTheLock | project2/src/threads/synch.c:193-205 | so does lock_acquire |
| Monitors.SignalledInOrder | project2/src/threads/synch.c:296-346 | whatever else happens, the k-th thread on the list of the condition is the one for the (k+1)-st signal |
| Monitors.LockIsASemaphore | project2/src/threads/synch.c:193-244 | every step is one of the semaphore of the lock as modelled in Semaphores, or none of its steps |
| Monitors.SignalMovesOne | project2/src/threads/synch.c:320-330 | a signal with waiters takes exactly the longest waiting one off the list and posts its semaphore |
| Monitors.BroadcastStep | project2/src/threads/synch.c:339-346 | steps of others leave a broadcast where it is, and each of its own brings its end closer |
| Monitors.BroadcastMovesAll | project2/src/threads/synch.c:339-346 | however interleaved, the broadcast ends after a number of its own steps fixed at its start, with the list empty and every waiting thread posted |
| InodeIO.FlatOfUpdate | project1/src/filesys/inode.c:284-288 | writing a whole sector replaces those bytes of the disk and no others |
| InodeIO.PieceOfSector | project1/src/filesys/inode.c:228-239 | a piece of a sector read through a buffer is a slice of the disk |
| InodeIO.FlatOfPatch | project1/src/filesys/inode.c:289-308 | reading a sector, changing a piece of it and writing it back changes that piece of the disk |
| InodeIO.WriteIsLocal | project1/src/filesys/inode.c:258-318 | a read after a write gives what was written, the other bytes of the file are unchanged, and so is every file on other sectors |
| InodeIO.WriteStaysInside | project1/src/filesys/inode.c:258-318 | a write within a file changes only the sectors of this file |
| InodeIO.ClearSectors | project1/src/filesys/inode.c:93-100 | clears exactly the sectors of the new file |
| InodeIO.NewFileIsZero | project1/src/filesys/inode.c:93-100 | a new file reads as zeros, and files on other sectors are unchanged |
| InodeIO.BlockDevice.Read | project1/src/devices/block.c:121-126 | a sector is copied to its place in the buffer |
| InodeIO.BlockDevice.Write | project1/src/devices/block.c:134-140 | a sector is replaced by the bytes of the buffer |
| InodeIO.BytesToSectors | project1/src/filesys/inode.c:26-29 | the least number of sectors that hold the bytes |
| InodeIO.Inode.constructor | project1/src/filesys/inode.c:134-141 | one opener, not removed, nothing denied |
| InodeIO.Inode.ChunkInSector | project1/src/filesys/inode.c:47-54 | a chunk of the content lies in one sector of the device, at the place that byte_to_sector gives |
| InodeIO.Inode.ChunkSize | project1/src/filesys/inode.c:213-221 | a chunk stays within the request, the file and the sector, and is empty only at the end of the file |
| InodeIO.Inode.ReadAt | project1/src/filesys/inode.c:201-250 | copies the bytes from the offset on to the front of the buffer, as many as were asked for or as there are, returns how many, and leaves the rest of the buffer alone |
| InodeIO.Inode.WritePartial | project1/src/filesys/inode.c:289-308 | overwrites a piece of one sector |
| InodeIO.Inode.PatchGrows | project1/src/filesys/inode.c:268-315 | one more chunk extends the written piece of the flat disk by that chunk |
| InodeIO.Inode.WriteAt | project1/src/filesys/inode.c:258-318 | unless writes are denied, overwrites exactly the bytes that fit in the file and no other byte of the device, and returns how many |
| Directory.UseSlot | project1/src/filesys/directory.c:171-175 | using a free slot adds exactly one binding |
| Directory.ClearSlot | project1/src/filesys/directory.c:204-207 | clearing a slot deletes exactly one binding |
| Directory.ListingIsTheBindings | project1/src/filesys/directory.c:222-236 | reading a directory from its start gives every bound name, each once |
| Directory.DirectoryFile.constructor | project1/src/filesys/directory.c:27-30 | a new directory binds nothing |
| Directory.DirectoryFile.Lookup | project1/src/filesys/directory.c:92-112 | finds a slot exactly if the name is bound, and it holds the bound sector |
| Directory.DirectoryFile.Add | project1/src/filesys/directory.c:142-179 | inserts exactly one binding, in the first unused slot, or changes nothing; fails exactly for a bad name, a name in use or a full directory |
| Directory.DirectoryFile.Erase | project1/src/filesys/directory.c:204-207 | deletes exactly the binding of the slot |
| Directory.DirectoryFile.ReadDir | project1/src/filesys/directory.c:222-236 | returns the next name of the listing and the place after it |
| FileSystem.AllocateKeepsDisk | project1/src/filesys/free-map.c:28-41 | marking free sectors keeps the bit map in step with the owners |
| FileSystem.AdoptKeepsDisk | project1/src/filesys/inode.c:73-106 | a file that comes to life owns exactly the sectors allocated for it |
| FileSystem.DisownKeepsDisk | project1/src/filesys/inode.c:175-182 | the sectors of a file that ceases to exist belong to no file |
| FileSystem.SectorsAreDisjoint | project1/src/filesys/free-map.c:28-50 | live files share no sector, and the used sectors are theirs and the orphaned ones |
| FileSystem.CreatedSectors | project1/src/filesys/filesys.c:46-59 | what the two allocations of a new file take was free and is disjoint |
| FileSystem.File.Read | project1/src/filesys/file.c:69-74 | the bytes from the position on, which moves behind them |
| FileSystem.File.Write | project1/src/filesys/file.c:95-100 | the bytes are written at the position, which moves behind them |
| FileSystem.Format | project1/src/filesys/filesys.c:95-103 | after formatting, the two system files own exactly the used sectors |
| FileSystem.FileSystem.constructor | project1/src/filesys/filesys.c:18-31 | a freshly formatted file system satisfies the invariant, with an empty root directory |
| FileSystem.FileSystem.FreeMapAllocate | project1/src/filesys/free-map.c:28-41 | takes the lowest run of free sectors, or nothing exactly if there is none |
| FileSystem.FileSystem.FreeMapRelease | project1/src/filesys/free-map.c:45-50 | the assertion that all released sectors are in use holds, and exactly they become free |
| FileSystem.FileSystem.InodeCreate | project1/src/filesys/inode.c:73-106 | allocates the data and stores the inode, or fails exactly if there is no room and changes nothing |
| FileSystem.FileSystem.InodeOpen | project1/src/filesys/inode.c:112-142 | there is one inode in memory per sector, and it gains one reference |
| FileSystem.FileSystem.InodeReopen | project1/src/filesys/inode.c:146-151 | one more reference to the same inode |
| FileSystem.FileSystem.InodeClose | project1/src/filesys/inode.c:164-186 | one reference less; with the last one the inode leaves memory, and exactly if it was removed its sectors are released, which were in use |
| FileSystem.FileSystem.ReleaseFile | project1/src/filesys/inode.c:175-182 | both releases meet the assertion of free_map_release, and exactly the sectors of the file become free |
| FileSystem.FileSystem.FileOpen | project1/src/filesys/file.c:18-34 | a new file, at its beginning, takes over the reference to the inode and denies nothing |
| FileSystem.FileSystem.FileReopen | project1/src/filesys/file.c:39-42 | a second file on the same inode, at its beginning, counted as one more opener |
| FileSystem.FileSystem.FileDenyWrite | project1/src/filesys/file.c:119-127 | counts the file among the deniers once, and the assertion of inode_deny_write holds |
| FileSystem.FileSystem.FileAllowWrite | project1/src/filesys/file.c:133-141 | takes the file off the deniers if it was one, and the assertions of inode_allow_write hold |
| FileSystem.FileSystem.DeniersAreOpeners | project1/src/filesys/inode.c:323-338 | open_cnt counts the outstanding references, deny_write_cnt those that deny, so it never exceeds open_cnt |
| FileSystem.FileSystem.FileClose | project1/src/filesys/file.c:46-54 | a file that denied writes no longer does, and its reference is given back |
| FileSystem.FileSystem.DirLookup | project1/src/filesys/directory.c:119-133 | opens the inode that the name is bound to, or none exactly if it is not bound |
| FileSystem.FileSystem.Open | project1/src/filesys/filesys.c:67-77 | a file at its beginning on the inode that the name is bound to, none exactly for an unbound name; sectors and names do not change |
| FileSystem.FileSystem.DirAdd | project1/src/filesys/directory.c:142-179 | the new file gets the name and owns its sectors, or nothing changes |
| FileSystem.FileSystem.AllocateFile | project1/src/filesys/filesys.c:50-52 | finds sectors for inode and data exactly if there is room for both; they were free and are apart from each other, and without room for the data only the inode sector is taken |
| FileSystem.FileSystem.Create | project1/src/filesys/filesys.c:46-59 | succeeds exactly if there is room and the directory takes the name; the data sectors, which were free, stay marked and count as lost exactly if only the directory refused |
| FileSystem.FileSystem.EraseAndMark | project1/src/filesys/directory.c:204-211 | the name is gone and the inode marked, and the invariant is kept while it is open |
| FileSystem.FileSystem.DirRemove | project1/src/filesys/directory.c:185-216 | succeeds exactly for a bound name, whose binding goes; sectors are released at once exactly if nothing has the file open |
| FileSystem.FileSystem.Remove | project1/src/filesys/filesys.c:84-91 | the same through filesys_remove, with the root directory opened and closed |
| FileSystem.FileSystem.EverySectorHasOneOwner | project1/src/filesys/filesys.c:46-91 | in every state of every run: named and open files are live, live files are disjoint, and the used sectors are theirs and those that refused creations left behind, and no others |
| FileSystem.CreatedLosesNone | project1/src/filesys/filesys.c:46-59 | a creation leaves no sector without a file but those that it counts as lost |
| FileSystem.RemovedLosesNone | project1/src/filesys/filesys.c:84-91 | a removal leaves none |
| FileSystem.RefusedCreation | project1/src/filesys/filesys.c:46-59 | a creation under a name in use, with room and a positive size, loses exactly its data sectors, all of them new |
| FileSystem.LeakExample | project1/src/filesys/filesys.c:46-59 | a run on a formatted device of 16 sectors that loses one |
| FileContents.WriteSparesOthers | project1/src/filesys/inode.c:258-318 | a write to one file leaves the bytes of a file with other sectors alone |
| FileContents.WriteFile | project1/src/filesys/file.c:95-100 | in a running file system a write changes exactly the written bytes of its file, and no byte of any other live file |
| DirectoryBytes.UsedDecodes | project1/src/filesys/directory.c:171-175 | the bytes that dir_add writes stand for the entry with this name and sector |
| DirectoryBytes.ErasedDecodes | project1/src/filesys/directory.c:204-206 | clearing the flag byte erases the entry |
| DirectoryBytes.SlotsOfWrite | project1/src/filesys/directory.c:171-206 | writing the bytes of one entry replaces that slot and no other |
| DirectoryBytes.ClearedIsEmpty | project1/src/filesys/directory.c:27-30 | a cleared file has no entry in use |
| DirectoryBytes.ReadEntry | project1/src/filesys/directory.c:102-103 | reading at a multiple of the entry size gives that slot, or nothing exactly at the end |
| DirectoryBytes.WriteEntry | project1/src/filesys/directory.c:171-175 | replaces exactly one slot of the directory in the file, unless writes are denied |
| DirectoryBytes.LookupEntry | project1/src/filesys/directory.c:92-112 | the scan over the bytes finds a slot exactly if the name is bound |
| DirectoryBytes.AddEntry | project1/src/filesys/directory.c:142-179 | dir_add over the bytes inserts exactly one binding or changes nothing, with the exact failure cases |
| DirectoryBytes.EraseEntry | project1/src/filesys/directory.c:195-206 | the lookup and the write of dir_remove over the bytes delete exactly the binding of the name, or change nothing exactly if it is not bound or writes are denied |
| NamedFiles.SettledIsSound | project1/src/filesys/filesys.c:46-91 | in every state of every run, live files have data sectors of their own, all in use, and names lead to live files other than the root directory |
| NamedFiles.NamedIsSpared | project1/src/filesys/filesys.c:46-59 | clearing free sectors and writing the root directory changes the bytes of no named file |
| NamedFiles.OneName | project1/src/filesys/directory.c:142-179 | no two names lead to the same file |
| NamedFiles.CreatedContents | project1/src/filesys/filesys.c:46-59 | after a creation the names and bytes read from the device are those before and the new name with zeros |
| NamedFiles.RemainingContents | project1/src/filesys/filesys.c:84-91 | when names only go, the bytes under those left are as before |
| NamedFiles.WrittenContents | project1/src/filesys/file.c:95-100 | when one file changes, its name has the new bytes and every other name the old ones |
| NamedFiles.OpenedByName | project1/src/filesys/filesys.c:67-77 | an open file reads the bytes that its name stands for |
| NamedFiles.OpenNamed | project1/src/filesys/filesys.c:67-77 | opening succeeds exactly for a name that is there, and changes nothing on the device |
| NamedFiles.ReadNamed | project1/src/filesys/file.c:69-74 | a read gives the bytes that the name stands for, from the position on, as many as asked for or left |
| NamedFiles.ReadTwice | project1/src/filesys/file.c:69-74 | of a file just opened the first read gives the first bytes of the name, and the second those behind |
| NamedFiles.ReopenNamed | project1/src/filesys/file.c:39-42 | a reopened file reads the same bytes from the beginning, wherever the first one is |
| NamedFiles.WriteCreated | project1/src/filesys/inode.c:89-101 | what a creation writes: the data sectors read as zeros, the entry is added in the bytes of the directory, and no other sector changes |
| NamedFiles.Create | project1/src/filesys/filesys.c:46-59 | read from the device, exactly one name is added, which stands for that many zeros, or nothing changes; the directory in memory stays that of the bytes on the device |
| NamedFiles.Remove | project1/src/filesys/filesys.c:84-91 | read from the device, exactly this name goes, and it succeeds exactly if it was there |
| NamedFiles.WriteNamed | project1/src/filesys/file.c:95-100 | read from the device, the bytes under this name are overwritten from the position on, and nothing under any other name changes |
| NamedFiles.Format | project1/src/filesys/filesys.c:94-103 | after formatting, the bytes of the root directory decode to the entries in memory, and nothing has a name |
| Bitmap.Scan | project1/src/lib/kernel/bitmap.c:297-311 | the lowest place where so many clear bits fit, or none exactly if they fit nowhere |
| Lists.RemoveFromDistinct | project1/src/lib/kernel/list.c:249-255 | removing from a list without repetitions takes out exactly that element |
| Palloc.Pool.constructor | project1/src/threads/palloc.c:154-170 | the bit map takes the first pages of the pool, and the others are free |
| Palloc.Pool.OwnsItsPages | project1/src/threads/palloc.c:175-182 | a page is from the pool exactly if its address lies in it |
| Palloc.PageAllocator.constructor | project1/src/threads/palloc.c:46-62 | the free memory is divided between the two pools, which are page-aligned, in kernel memory and apart |
| Palloc.PageAllocator.GetMultiple | project1/src/threads/palloc.c:71-101 | the lowest run of free pages is now used, or none is returned exactly if there is none |
| Palloc.PageAllocator.FreeMultiple | project1/src/threads/palloc.c:118-142 | nothing for no pages; otherwise finds the pool of the pages, and exactly they become free |
| Palloc.TookIsApart | project1/src/threads/palloc.c:71-142 | pages handed out are apart from all that are held, and freeing them undoes the allocation |
| Palloc.FreeLeavesOthers | project1/src/threads/palloc.c:118-142 | freeing pages leaves all other held pages held |
| Palloc.OneFits | project1/src/threads/palloc.c:71-101 | a page can be had exactly if one is free |
| Malloc.BlocksFit | project1/src/threads/malloc.c:76-82 | every size has at least one block per arena, and all blocks end within the page |
| Malloc.BlockOfArena | project1/src/threads/malloc.c:268-294 | arena_to_block gives places that block_to_arena maps back to the arena and number |
| Malloc.CountBlocks | project1/src/threads/malloc.c:286-294 | an arena has as many different blocks as its descriptor says |
| Malloc.BlocksAreApart | project1/src/threads/malloc.c:286-294 | different blocks of an arena do not overlap |
| Malloc.TakeKeepsHeap | project1/src/threads/malloc.c:149-151 | taking a free block keeps the invariant of free lists, counts and live blocks |
| Malloc.PutKeepsHeap | project1/src/threads/malloc.c:239-242 | so does putting a live block back |
| Malloc.DivideKeepsBlocks | project1/src/threads/malloc.c:138-145 | so does dividing a new arena |
| Malloc.AllAreFree | project1/src/threads/malloc.c:242-246 | an arena whose count says so has all its blocks on the free list, and none is live |
| Malloc.DropKeepsBlocks | project1/src/threads/malloc.c:247-252 | dropping such an arena keeps the invariant |
| Malloc.LiveBlocksAreApart | project1/src/threads/malloc.c:90-264 | live blocks never overlap |
| Malloc.ArenaIsFreePlusLive | project1/src/threads/malloc.c:90-264 | in each arena the count of free blocks and the live blocks make up blocks_per_arena |
| Malloc.FreePlusLiveIsAll | project1/src/threads/malloc.c:90-264 | for each descriptor, free blocks and live blocks are its arenas times blocks_per_arena |
| Malloc.UsedPages | project1/src/threads/malloc.c:90-264 | the used pages of the pool are those of the arenas and those of others |
| Malloc.PagesFollowArenas | project1/src/threads/malloc.c:90-264 | while the pages of others stay the same, a page comes into use exactly if a new arena covers it and becomes free exactly if one that is gone did |
| Malloc.SamePool | project1/src/threads/malloc.c:90-264 | with the same arenas the pool is the same |
| Malloc.ArenasHaveLiveBlocks | project1/src/threads/malloc.c:219-264 | between any two calls an address belongs to an arena exactly if a block of it is live |
| Malloc.RoundedUpToLessThanDouble | project1/src/threads/malloc.c:102-105 | a request of up to a quarter page gets a block of less than twice its size, or of 16 bytes; a larger one no descriptor |
| Malloc.BigPagesSuffice | project1/src/threads/malloc.c:109 | the pages for a big block are enough exactly for requests up to 2^32 - 12, and then as few as possible |
| Malloc.WrappedRequest | project1/src/threads/malloc.c:109 | a request for 2^32 - 1 bytes is computed as one page |
| Malloc.InitDescs | project1/src/threads/malloc.c:72-85 | the sizes are 16, 32 and so on to a quarter of a page, within the array |
| Malloc.AddBlocks | project1/src/threads/malloc.c:141-145 | the loop appends exactly the blocks of the arena |
| Malloc.RemoveBlocks | project1/src/threads/malloc.c:247-251 | the loop removes exactly the blocks of the arena |
| Malloc.Allocator.constructor | project1/src/threads/malloc.c:72-85 | an allocator without arenas satisfies the invariant |
| Malloc.Allocator.MakeArena | project1/src/threads/malloc.c:125-146 | one page becomes an arena with all its blocks free, or nothing changes exactly if no page is free |
| Malloc.Allocator.TakeBlock | project1/src/threads/malloc.c:149-153 | the first free block becomes live |
| Malloc.Allocator.MallocBig | project1/src/threads/malloc.c:105-120 | a live block behind its header, or nothing changes exactly if the pages cannot be had |
| Malloc.Allocator.Malloc | project1/src/threads/malloc.c:90-154 | a new live block, of the least fitting size, large enough exactly for requests up to 2^32 - 12; refused exactly for size 0 or missing pages, and then nothing changes; other blocks keep their sizes, and no page is taken but for arenas |
| Malloc.Allocator.BlockToArena | project1/src/threads/malloc.c:268-282 | all its assertions hold for every live block |
| Malloc.Allocator.PutBlock | project1/src/threads/malloc.c:231-242 | the block is free, and the bytes of all live blocks are as they were |
| Malloc.Allocator.DropArena | project1/src/threads/malloc.c:242-253 | exactly this arena goes, its page goes back to the pool and no other page does, and no arena is entirely free |
| Malloc.Allocator.FreeBig | project1/src/threads/malloc.c:257-262 | exactly the pages of this arena go back, and all other blocks are as they were |
| Malloc.Allocator.Free | project1/src/threads/malloc.c:219-264 | exactly that block is no longer live, all others keep their bytes, its arena goes exactly if none of its blocks is live, and then its pages are free again |
| Malloc.Allocator.Realloc | project1/src/threads/malloc.c:195-214 | on success the new block begins with the bytes of the old one, which is gone; otherwise nothing changes; all other blocks keep their bytes, and the pages of others theirs |
| Malloc.Allocator.MallocThenFree | project1/src/threads/malloc.c:90-264 | malloc followed by free leaves the arenas and the pool as they were |
| PageDir.SetBitSetsOne | project2/src/threads/pte.h:61-68 | setting or clearing a flag keeps the other flags and the address |
| PageDir.EntryHoldsPage | project2/src/threads/pte.h:71-104 | an entry made for a page gives the page and its permissions back |
| PageDir.IndicesIdentify | project2/src/threads/pte.h:32-39 | a page is determined by its two indices |
| PageDir.SamePageSameIndices | project2/src/threads/pte.h:32-39 | two addresses have the same indices exactly if they are in the same page |
| PageDir.WithEntryChangesOne | project2/src/userprog/pagedir.c:99-119 | writing one entry changes what one page means and no other |
| PageDir.WithTableChangesNone | project2/src/userprog/pagedir.c:57-86 | adding an empty page table changes what no address means |
| PageDir.FramesBelowAre | project2/src/userprog/pagedir.c:28-48 | the frames that the two loops visit are those of the mapped user pages |
| PageDir.Paging.Create | project2/src/userprog/pagedir.c:17-23 | a new page directory maps no user page |
| PageDir.Paging.LookupPage | project2/src/userprog/pagedir.c:57-86 | finds the page table, or creates it if asked to, without changing what any address means |
| PageDir.Paging.WriteEntry | project2/src/userprog/pagedir.c:109-116 | the entry of one page, and of no other, is the new one |
| PageDir.Paging.SetPage | project2/src/userprog/pagedir.c:99-119 | maps exactly this page to the frame with exactly these flags; fails exactly without room for a page table, and then changes nothing |
| PageDir.Paging.GetPageOf | project2/src/userprog/pagedir.c:126-137 | frame plus offset exactly if the page is mapped, otherwise none |
| PageDir.Paging.ClearPage | project2/src/userprog/pagedir.c:144-157 | exactly this page is unmapped, and its other flags stay |
| PageDir.Paging.IsFlagSet | project2/src/userprog/pagedir.c:164-197 | the dirty or accessed bit of the page |
| PageDir.Paging.SetFlag | project2/src/userprog/pagedir.c:173-215 | sets or clears one flag of one page that has a page table, and nothing else |
| PageDir.Paging.FreeFrames | project2/src/userprog/pagedir.c:39-44 | frees the frames of one page table, each of which was in use |
| PageDir.Paging.Destroy | project2/src/userprog/pagedir.c:28-48 | frees the frame of every mapped page, every page table and the directory, each exactly once, and nothing else |
| PageDir.Paging.FreeTable | project2/src/userprog/pagedir.c:37-46 | frees the frames that one page table maps and then its page, and nothing else |
| Loader.ValidSegments | project2/src/userprog/process.c:490-530 | in 32-bit arithmetic the checks accept exactly the regions inside user memory above page 0 that do not wrap around |
| Loader.WritableIsItsBit | project2/src/userprog/process.c:432 | a segment is writable exactly if its flags have the bit for writing, whatever the others |
| Loader.SegmentArithmetic | project2/src/userprog/process.c:430-453 | for every valid header the 32-bit arithmetic satisfies the assertions of load_segment, stays below PHYS_BASE and covers the segment |
| Loader.MapOneMore | project2/src/userprog/process.c:576-581 | mapping a page to a frame just taken keeps frames apart |
| Loader.MappedFramesAreApart | project2/src/userprog/pagedir.c:28-48 | what the loader keeps is what pagedir_destroy relies on |
| Loader.CanMapInTurn | project2/src/userprog/process.c:547-589 | there is room for two lists of pages exactly if there is for the first, and then for the second in what it leaves |
| Loader.SegmentIsItsPages | project2/src/userprog/process.c:430-453 | the pages that load_segment is given are those from the first to the last byte of the segment |
| Loader.NoRoomForHeader | project2/src/userprog/process.c:406-460 | where one header finds no room there was none for all of them |
| Loader.ProgramFile.Read | project1/src/filesys/file.c:69-74 | as many bytes as asked for or as are left, and the position moves behind them |
| Loader.AddressSpace.InstallPage | project2/src/userprog/process.c:621-629 | maps a page exactly if it is not mapped and there is room for its page table, and changes no other |
| Loader.AddressSpace.LoadPage | project2/src/userprog/process.c:557-586 | succeeds exactly if the file has the bytes, the page is not mapped, and both pools have what is missing; then one page holds the bytes and zeros, and otherwise the pools and the address space are as before |
| Loader.AddressSpace.LoadSegment | project2/src/userprog/process.c:547-589 | succeeds exactly if the file has the bytes and there is room for the pages of the region; then it is the bytes of the file followed by zeros; no other address changes, nothing that was mapped changes even on failure, and no frame is lost |
| Loader.AddressSpace.LoadHeader | project2/src/userprog/process.c:429-458 | succeeds exactly for a valid header whose segment is in the file and has room; then the segment is in memory where its header says, with its permission; other addresses are unchanged |
| Loader.AddressSpace.LoadHeaders | project2/src/userprog/process.c:406-460 | succeeds exactly if no header is of an unsupported kind, every PT_LOAD header is valid and in the file, and there is room for all their pages together; then all their segments are in memory; no frame is lost |
| Loader.AddedKeepsMapped | project2/src/userprog/process.c:621-629 | mapping one more page changes nothing that was mapped |
| Loader.SegmentStays | project2/src/userprog/process.c:406-460 | a segment that is in place stays in place when others are loaded |
| Loader.StillAccounted | project2/src/userprog/process.c:406-460 | frames taken for earlier headers are still mapped |
| Loader.SegmentImage | project2/src/userprog/process.c:430-455 | what load_segment loads is filesz bytes at the offset, then zeros up to memsz |
| Arguments.WordsAreTheSolidParts | project1/src/lib/string.c:235-275 | tokens are nonempty, have no delimiters, and together are the string without its delimiters |
| Arguments.SplitHasWords | project1/src/lib/string.c:235-275 | a string of these words with delimiters between any two has exactly these words |
| Arguments.WordsAreTheSplit | project1/src/lib/string.c:235-275 | the words of a string are the only nonempty delimiter-free words that it consists of with delimiters around them and at least one between any two |
| Arguments.StrtokR | project1/src/lib/string.c:235-275 | returns the next token, ended by a null in the buffer, and leaves the tokens of the rest to the next calls; none exactly at the end |
| Arguments.WordIsRead | project2/src/userprog/process.c:155-164 | each pointer on the stack leads to the text of its word |
| Arguments.LayoutRecovers | project2/src/userprog/process.c:104-180 | a program that reads the stack from its pointer up finds exactly the words, in order |
| Arguments.UserStack.constructor | project2/src/userprog/process.c:594-609 | an empty stack at PHYS_BASE |
| Arguments.UserStack.Push | project2/src/userprog/process.c:126-129 | the bytes are in front of the content, which is unchanged |
| Arguments.UserStack.PushStrings | project2/src/userprog/process.c:113-130 | the strings are on the stack, and their addresses and size recorded; stops only if the words do not fit |
| Arguments.UserStack.PushPadding | project2/src/userprog/process.c:143-149 | so many zeros are pushed |
| Arguments.UserStack.PushPointers | project2/src/userprog/process.c:155-164 | the addresses end up in order |
| Arguments.UserStack.PushArguments | project2/src/userprog/process.c:104-180 | succeeds exactly if all fits in one page; then the stack is aligned, as long as counted, and gives the words back |
| Donation.DoneExactlyOnGoodChains | project1/src/threads/synch.c:217-225 | the loop ends exactly if the chain of holders is acyclic, reaches an unblocked thread and consists of lower priorities |
| Donation.Donate | project1/src/threads/synch.c:215-225 | follows the chain, raises exactly its threads to the donated priority, and tells why it stopped |
| Donation.PropagateDonation | project1/src/threads/synch.c:206-227 | every holder on the chain gets the priority of the donor or the first holder, all other threads keep theirs, and it ends exactly on a good chain |
| Donation.InsertOrdered | project1/src/lib/kernel/list.c:446-459 | inserts behind all of at least the same priority, and keeps a sorted list sorted |
| Donation.SortByPriority | project1/src/threads/synch.c:131 | a sorted permutation |
| Donation.SemaUp | project1/src/threads/synch.c:117-137 | wakes a waiter of the highest priority, leaves the others sorted, and increments the value |
| Donation.FrontsSufficeExactly | project1/src/threads/synch.c:301-318 | the highest first waiter is the highest of all exactly if no waiter outranks both the first waiters and the thread itself |
| Donation.SortedIsCovered | project1/src/threads/synch.c:301-318 | sorted waiters are enough for that |
| Donation.GiveUpDonations | project1/src/threads/synch.c:294-318 | the priority becomes the highest of the own one and the first waiters of locks still held; of all their waiters exactly if the first ones are not outranked |
| Donation.DownPass | project1/src/threads/synch.c:68-84 | sleeps exactly at value 0, and then joins the waiters in order of priority; otherwise takes the value |
| Donation.TakeLock | project1/src/threads/synch.c:248-254 | the thread holds the lock and no longer waits for one; lists of held locks and holder fields still agree |
| Donation.DropLock | project1/src/threads/synch.c:292-299 | exactly this lock leaves the list of the thread, and lists and holder fields still agree |
| Donation.LockRelease | project1/src/threads/synch.c:287-321 | the lock is free, the highest waiter leaves its list and the others stay, sorted; the priority is the highest of the first waiters of locks still held, and of all their waiters exactly if the first ones are not outranked before the call |
| Donation.SortedRelease | project1/src/threads/synch.c:287-321 | when the waiters of the locks held are sorted, the priority becomes the one maximum of the own priority and those of all who wait for locks still held |
| Donation.LockAcquire | project1/src/threads/synch.c:238-255 | donates along the chain; a free lock is then held, and for a lock that is held the thread waits in order of priority, with the holder at the higher priority |
| Donation.SpinExample | project1/src/threads/synch.c:217-225 | a run of four lock_acquire calls whose last one goes round for ever |
| Donation.NullHolderExample | project1/src/threads/synch.c:217-225 | a run of lock_acquire and lock_release calls that ends at the null holder of a lock |
| Donation.DonateThenRelease | project1/src/threads/synch.c:206-321 | from sorted waiters, a lock_acquire that donates to the second one and a release of another lock leave the owner below a thread that waits for it |
| Donation.UnsortedExample | project1/src/threads/synch.c:206-321 | a run of lock_acquire calls and one lock_release, with priorities 31, 30 and 40, that ends so |

## Left out

Contracts that state less than the source, or require more:

- Malloc.Allocator.Realloc: requires a request of at most 2^32 - 12; beyond that the copy would leave the new block.
- Malloc.Allocator.Malloc: one caller at a time; the lock of each descriptor and calloc are not modelled, and the headers of arenas and the links of free blocks are kept beside the memory, not as bytes in it.
- InodeIO.Inode.ReadAt: offsets are not negative, and the bounce buffer can always be allocated.
- InodeIO.Inode.WriteAt: the same.
- InodeIO.BytesToSectors: the rounding does not overflow, as it does for a size within 511 of INT_MAX.
- FileSystem.FileSystem.InodeCreate: the disk inode is stored as a record; that the data is cleared is stated by NamedFiles.WriteCreated.
- FileSystem.FileSystem.Create: allocation of handles and buffers never fails, and the free map is kept in memory only, not written back to its file.
- FileSystem.FileSystem.FileDenyWrite: not for a file on the root directory, which no name leads to.
- FileSystem.Format: requires a device that can hold the two system files, where the source panics; the map is not written to its file.
- FileSystem.FileSystem.constructor: the reference to the file of the free map that the source holds until shutdown is absent.
- FileSystem.FileSystem.FreeMapAllocate: the map is not written back, so this cannot fail.
- FileSystem.FileSystem.FreeMapRelease: the map is not written back.
- FileContents.WriteFile: requires 32-bit lengths and positions, and a device of the size of the free map.
- Directory.DirectoryFile.ReadDir: the position is an argument; there are no directory handles, and the root directory does not grow.
- Directory.DirectoryFile.constructor: entries are records here; NamedFiles.InStep ties them to the bytes of the root directory.
- DirectoryBytes.AddEntry: names are of 8-bit characters without a null, and sector numbers of 32 bits; the write that the source attempts behind the last entry of a full directory, which is always short, is left out.
- NamedFiles.Create: the same, and inodes are records beside the bytes of the device; the writes of the call come after its steps in memory, which do not depend on them.
- NamedFiles.WriteNamed: not for a file that has lost its name, for which FileContents.WriteFile speaks.
- NamedFiles.Format: the bytes of the free map's own file are not written.
- Palloc.PageAllocator.constructor: requires pools that can hold their bit maps, where the source panics; the lock of a pool is not modelled.
- Palloc.PageAllocator.GetMultiple: the bytes of pages are not modelled, hence not PAL_ZERO; nor is the panic of PAL_ASSERT.
- Palloc.PageAllocator.FreeMultiple: the bytes of freed pages are set in Malloc.Allocator only.
- PageDir.Paging.LookupPage: the translation cache is not modelled, hence neither its invalidation nor pagedir_activate.
- Loader.AddressSpace.LoadHeaders: the program headers are given, so the reading of headers from the file and the checks of its offsets are not modelled.
- Arguments.UserStack.constructor: the stack page is there already, without the mapping and zero fill of setup_stack.
- Arguments.UserStack.PushArguments: the list of argument records is a sequence, and the records that a refused command line leaks are not modelled.
- Printf.FormatThenAtoi: not with grouping, where the commas end what atoi reads.
- Printf.FormatInteger: a single conversion; parse_conversion, the dispatch of __vprintf and strings are not modelled.
- Sorting.Swap: exchanges whole elements, not bytes.
- Sorting.Sort: arrays of elements; the byte-wise copying of do_swap for an element size is not modelled.
- Scheduler.Scheduler.TimerInterrupt: only with the feedback queues; the sleeping threads of the timer and the statistics are not modelled.
- Scheduler.Scheduler.constructor: the first scheduling of the idle thread, which blocks itself at once, is taken as done.
- Scheduler.Scheduler.MakeReady: not for the idle thread, which the source unblocks once, when it is created.
- Scheduler.Scheduler.Unblock: the same.
- Scheduler.Scheduler.Schedule: the page of a dying thread is not freed.
- Scheduler.Scheduler.SetNice: requires a nice value from -20 to 20, the documented range; beyond it the priority may overflow.
- Monitors.EveryRunIsSafe: one lock and one condition; their state is a value, and the update in place of a semaphore is that of Semaphores.Semaphore.
- Donation.LockRelease: the waiters of the lock are not held by the releasing thread, as in the source no thread waits for its own lock; the semaphore that lock_acquire holds around its donation, and cond_wait and cond_signal of project 1, are not modelled.
- Donation.LockAcquire: until it returns or first sleeps; the semaphore held around the donation and the passes of sema_down after a sleep are not part of it.
- Donation.PropagateDonation: taken as one step, although interrupts are on while the source runs it.
- Donation.TakeLock: that the holder has gone by the time that sema_down lets a thread in is required here; Monitors.EveryRunIsSafe proves it for the locks of project 2.
- Donation.SortByPriority: list_sort merges runs, here it inserts one waiter after the other; the contract is that of a sorted permutation, without stability.

Parts of the repository that are not modelled:

- Device drivers, interrupt entry, context switching, assembly, booting, console output: hardware effects.
- partition.c and rtc.c.
- The exit status and wait protocol of project 2, and its system calls.
- intq.c, random.c and the sleep list of timer.c: easier than what is here.
- The implementation of list.c, and of bitmap.c beyond its search.
- The user programs, the shell utilities, and projects 3 and 4.
- Disk failures, crashes, real time and fairness.
