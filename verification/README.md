# baremetal_crt in Dafny

A model of the hard parts of baremetal_crt, a small SMP runtime with Linux-like system calls for
bare-metal RISC-V, with proofs about them. `dafny verify dfyconfig.toml` checks the whole project.

| files | what they model |
|---|---|
| `Futex`, `FutexSafety`, `FutexRuns`, `FutexAlone`, `FutexWakeAlone` | the futex, spinlock and IPI protocol as a step system for any number of CPUs; its invariants; what holds of whole runs; what a wait and a wake do, and in how many steps, when nobody interferes |
| `Threads`, `ThreadRuns`, `ThreadStart` | thread slots and CPUs: create, run, stop, destroy, clone, exit, context switch; what holds of every run; from clone to the child's first instruction |
| `IdleLoop` | the idle loop of one CPU against the clone that gives it a task |
| `Probe`, `ProbeLoop`, `ProbeErrors` | deferred device probing over a device and bus tree, its retry loop, and drivers that fail |
| `MergeSort`, `MergeSortCode` | the bottom-up in-place list sort of the CoreMark test |
| `Md5`, `Md5Reference` | streaming MD5 against the padded message of RFC 1321, and that message byte by byte |
| `Sgemm` | blocked against naive matrix product |
| `Format`, `FormatCode`, `FormatNumber`, `FormatText`, `FormatLaw`, `FormatAlternate` | formatted output: the text of a format, the code that sends it, reading numbers back, composing formats, what each directive prints from its characters and arguments alone |
| `Pll` | the PLL divider search and its register word |
| `PageAlloc`, `PageAllocRuns` | the heap page allocator as written, and its safety over call sequences |
| `MemOps` | word-wise `memset` and `memcpy` |
| `Common` | optional values, error numbers and word sizes that several modules share |
| `Clock`, `Timer` | clock conversion, split 32-bit timer registers, the real-time offset |

How the model is built:

- Code that changes objects is a class or a method over arrays and heap nodes, proved equal to a
  function of the old state; the properties are then proved about that function. The concurrent
  protocol is a step system in which one step is one access to shared memory, under sequentially
  consistent memory. `wfi` may resume on a pending interrupt while interrupts are disabled, as
  section 3.2.3 of the RISC-V Privileged Architecture, version 1.10, allows.
- Machine arithmetic is written out where it matters: the 32-bit thread counter, 64-bit lengths and
  times, the 64-bit distance of the PLL search, the bit count of MD5, the `int` result of printing.
- Driver `add` operations, MD5's block transform, the comparison of the sort, the number type of
  the matrix product, IPI results and the timer counter are parameters.

Where the code does not do what its comments or callers expect, the code is modelled as it is and
the exact condition is proved:

- The page allocator counts a free run from one, so it accepts a run one page too short and then
  marks a page of another block or the byte behind the flags. And it rounds the length up in 64 bits,
  so a length within a page of 2^64 asks for no page and is granted. `PageAllocRuns.AllocKeepsIff` shows
  that an allocation goes wrong exactly in these two cases, told by the state before it, and that
  counting from zero leaves only the second; `PageAllocRuns.ShortRunTaken` and
  `PageAllocRuns.WrappedLengthGranted` are cases that start from the heap as it is set up.
- The PLL search takes distances in signed 64 bits. Below a target of 2^63 they are exact; at 2^63 the
  search finds nothing, and above it can settle on a far output. `Pll.Search` gives the exact condition,
  `Pll.NoSettingAtTwo63` and `Pll.LocksOntoExcess` the failures.
- The idle loop looks for its task with interrupts enabled, so an interrupt that is taken between the
  look and the wait instruction leaves a cloned thread behind on a sleeping CPU; exactly when is
  `IdleLoop.LeftBehindIff`.
- Allocation rounds a length up and release rounds it down, so releasing the same length gives the
  pages back exactly for whole pages (`PageAllocRuns.AllocFreeRestoresIff`).
- The integer printer keeps 32 characters: binary numbers wider than 32 bits lose high digits, and a
  zero-padded width above 32 loses the sign (`FormatNumber.PrintsBackIff`, `FormatNumber.SignLost`).
- With '#' the prefix of a hexadecimal or octal number takes the place of digits when the digits fill the
  field exactly, or in hexadecimal with '0' leave one place: `%#2x` of 0xab prints `0x`. These are all the
  cases (`FormatAlternate.AlternateLaw`, `FormatAlternate.DigitsLost`).
- The timer compare register is written high half first, which can pass through a value that neither
  the old nor the new time asks for, exactly under the condition of `Timer.SpuriousIff`
  (`Timer.SpuriousExample`).
- With a frequency of 1 the seconds of a clock count can pass the signed range
  (`Clock.LaterIff`, `Clock.EarlierAtOneHertz`).
- With a 32-bit `size_t` an MD5 update of 2^29 bytes or more loses part of the bit count
  (`Md5.CountExact`, `Md5.CountLost`).
- A comment in the list sort allows for the empty list, but the code writes to the last node before
  it looks at the merge count; the model requires a node.
- The retry loop of device probing never ends when some device has no driver or the dependencies have
  no order (`ProbeLoop.LoopEndsIff`, `ProbeLoop.NoDriver`, `ProbeLoop.MutualWait`).
- A task thread that asks for a context switch goes on from the frame saved in its slot, not its own
  (`ThreadRuns.SwitchInTask`).
- Thread identifiers repeat exactly after 2^32 creations (`ThreadRuns.TidRepeats`).

## Model

| member | source | states |
|---|---|---|
| FutexSafety.LockPreserved | sys/lock.c:35-62 | every step of any CPU keeps at most one holder per spinlock, the lock word equal to "held", and the holder's id in the lock while it is inside |
| FutexSafety.SlotWrittenByHolder | driver/cpu/cpu.c:522-531 | a futex slot changes only by the CPU that alone holds that slot's lock and is named in it |
| FutexSafety.MarkFindsListener | driver/cpu/cpu.c:578-589 | a wake that is about to mark a slot finds the target registered for the same address and outside its own sections |
| FutexSafety.SlotPreserved | driver/cpu/cpu.c:512-600 | every step keeps each slot equal to what its owner's program point says, and each wake's checks still true of the slot it looks at |
| FutexSafety.IpiPreserved | driver/intc/sifive/clint.c:102-117 | every step keeps: a marked sleeper has its pending bit set, or some wake is on the way to set it |
| FutexSafety.StepInv | driver/cpu/cpu.c:512-600 | the whole protocol invariant is kept by every step |
| FutexRuns.Reachable | driver/cpu/cpu.c:512-600 | every state of every run, for any number of CPUs, satisfies the invariant |
| FutexRuns.SpinlockMutualExclusion | sys/lock.c:35-62 | in every reachable state no lock has two holders, and its word is 1 if and only if it has one |
| FutexRuns.MarkedSleeperPending | driver/cpu/cpu.c:586-591 | in every reachable state a marked sleeper has its pending bit, unless a wake is still between mark and IPI |
| FutexRuns.VisitSignals | driver/cpu/cpu.c:578-596 | from the moment a matching wake looks at a CPU asleep throughout, that CPU goes to marked and then to pending and never back; once the wake has moved on both are set |
| FutexRuns.NoLostWakeup | driver/cpu/cpu.c:512-600 | if the word differs from the awaited value from before a matching wake's visit on, then after the visit a CPU parked in wfi has both its wake-up flag and its pending bit |
| FutexRuns.WakeReachesAllWaiters | driver/cpu/cpu.c:571-599 | a wake that returns less than its limit has visited every other CPU, so no matching waiter stays parked without both flags |
| FutexRuns.WakeResult | driver/cpu/cpu.c:571-599 | wake returns exactly the number of slots it marked in this call, in ascending order, not its own, at most the limit, less than the number of CPUs; below the limit it went through all CPUs |
| FutexRuns.WaitResult | driver/cpu/cpu.c:522-558 | in every run, wait returns 0 only if another CPU's wake with the same address and a common bit marked this slot during this registration, and otherwise -EWOULDBLOCK after reading a word different from the value; that it does return, and when, is WaitParksIff and FutexAlone.WokenAlone |
| FutexRuns.WordIsLastStored | driver/cpu/cpu.c:528-534 | in every run a word that a wait reads is the value last stored at its address |
| FutexRuns.WaitParksIff | driver/cpu/cpu.c:517-558 | a wait called in any reachable state with its lock free and left alone is parked and registered after 10 own steps if and only if the value last stored at its address is the awaited one; otherwise it returns -EWOULDBLOCK after 18 with an empty slot |
| FutexAlone.StoreWord | driver/cpu/cpu.c:528-534 | a store changes exactly its own word |
| FutexAlone.WordsKept | driver/cpu/cpu.c:512-600 | no other step changes a word |
| FutexAlone.CallsEnter | driver/cpu/cpu.c:512-600 | a wait or wake with bits, called from user code, begins, and changes nothing else |
| FutexAlone.NoBits | driver/cpu/cpu.c:517-520 | a wait or wake without bits does not begin |
| FutexAlone.Interrupts | driver/intc/sifive/clint.c:102-117 | an interrupt is set and cleared for exactly the CPU it is for, and any interrupt ends the sleep |
| FutexAlone.WaitAlone | driver/cpu/cpu.c:522-558 | the state after a wait that nobody disturbs: parked for as long as nothing is pending, or returned, with everything outside its own CPU untouched |
| FutexAlone.ParksIff | driver/cpu/cpu.c:533-537 | such a wait parks if and only if the word is the awaited one |
| FutexAlone.WokenAlone | driver/cpu/cpu.c:533-558 | a parked CPU with both its wake-up flag and its pending bit and its lock free returns 0 with an empty slot after 11 own steps |
| FutexWakeAlone.Visit | driver/cpu/cpu.c:571-597 | an undisturbed wake's turn at one CPU: marked and interrupted, and counted, exactly if it is another one that waits for the address with a common bit |
| FutexWakeAlone.WakeAlone | driver/cpu/cpu.c:571-599 | an undisturbed wake returns the smaller of its limit and the number of other CPUs that wait for the address with a common bit, and has marked and interrupted exactly the first of them, in at most 9 own steps a CPU and one more |
| Threads.FreeSlot | sys/thread.c:119-132 | the first slot not in use, or none only when all are in use |
| Threads.IdleCpu | sys/smp.c:33-44 | the first present CPU without a task, or none only when there is none |
| Threads.Kernel.constructor | sys/thread.c:15-18 | two unused slots per CPU, counter 1 |
| Threads.Kernel.Create | sys/thread.c:112-154 | takes the first free slot and fills it with the next identifier, or changes nothing |
| Threads.Kernel.DestroyThread | sys/thread.c:156-169 | refuses a running thread with -EBUSY, otherwise frees the slot |
| Threads.Kernel.RunThread | sys/thread.c:171-178 | the thread runs and is that CPU's task thread |
| Threads.Kernel.StopThread | sys/thread.c:180-187 | the CPU loses its task and the thread its CPU |
| Threads.Kernel.FindIdleCpu | sys/smp.c:28-51 | the search loop finds the first idle CPU |
| Threads.Kernel.CloneThread | sys/thread.c:223-333 | the whole effect and result of clone, with every error path, as a function of the tables before; what that function answers and records is stated by ThreadStart.CloneAnswers, ThreadStart.CloneRecords and ThreadStart.CloneStarts |
| Threads.Kernel.ContextSwitch | sys/thread.c:346-377 | the whole effect of a switch on slots and CPUs |
| Threads.Kernel.ExitThread | sys/syscall.c:679-741 | the whole effect and result of exit; what that is, by ThreadStart.ExitEnds and ThreadStart.ExitRefused |
| ThreadRuns.FreeSlotExists | sys/thread.c:15-18 | by counting over two slots per CPU: a CPU without a task or an idle thread implies a free slot |
| ThreadRuns.CloneConsistent | sys/thread.c:223-333 | clone keeps the tables consistent, and answers -EFAULT for bad arguments (which are bad is ThreadStart.CloneAnswers), else -ENOMEM exactly without an idle CPU, else the IPI's error or the new identifier |
| ThreadRuns.SwitchConsistent | sys/thread.c:346-377 | a switch on consistent tables finds valid slots and keeps them consistent |
| ThreadRuns.ExitConsistent | sys/syscall.c:679-741 | exit on consistent tables is safe and keeps them consistent |
| ThreadRuns.DoConsistent | sys/init.c:148-197 | every operation, boot included, keeps: a thread runs iff it is the task thread of exactly the CPU it points to, and every used slot is an idle thread or a task |
| ThreadRuns.RunConsistent | sys/thread.c:112-187 | the same for every run, with identifiers distinct until the counter wraps and a free slot whenever a CPU is idle |
| ThreadRuns.BootConsistent | sys/thread.c:15-18 | the tables at power-on are consistent |
| ThreadRuns.BootedRun | sys/init.c:148-197 | consistency, distinct identifiers and the free slot in every run from power-on |
| ThreadRuns.TidRepeats | sys/thread.c:20-23 | two creations share an identifier if and only if a multiple of 2^32 lies between them |
| ThreadRuns.FreshTid | sys/thread.c:134-135 | within 2^32 creations the next identifier differs from every one issued |
| ThreadRuns.IdleUntouched | sys/thread.c:346-377 | while a CPU runs its task no operation but its own exit touches its idle thread's saved frame |
| ThreadRuns.IdleUntouchedRun | sys/thread.c:346-377 | the same over any sequence of operations of all CPUs |
| ThreadRuns.IdleRoundTrip | sys/syscall.c:722-740 | after idle, task and exit, whatever happened between, the CPU is back on the frame it left, and storing the system call's result leaves that frame unchanged |
| ThreadRuns.SwitchWithoutTask | sys/syscall.c:767-783 | a switch from idle without a task is the identity on the CPUs and the frame |
| ThreadRuns.SwitchInTask | sys/thread.c:362-369 | a switch asked for by the task thread keeps it current and loads the frame saved in its slot |
| ThreadStart.CloneStarts | sys/thread.c:264-321 | a clone that succeeds gives the first idle CPU a new thread whose frame is the caller's with result 0 and the child's stacks and thread area, and changes no other CPU |
| ThreadStart.CloneAnswers | sys/thread.c:232-252 | -EFAULT, with nothing changed, for each flag whose own address is zero, whatever the others are; with every address given or no flag set only -ENOMEM, the IPI's error or the new identifier |
| ThreadStart.CloneRecords | sys/thread.c:273-285 | the new slot holds the flags, and each of ctid, ptid and tls exactly if a flag asks for it and 0 otherwise |
| ThreadStart.CloneUndone | sys/thread.c:312-332 | a clone whose interrupt fails leaves every CPU and every used slot as it was and uses no slot |
| ThreadStart.StopUndoesRun | sys/thread.c:171-187 | running a thread on a CPU and stopping it again changes nothing |
| ThreadStart.DestroyAnswers | sys/thread.c:156-169 | a running thread is refused with -EBUSY and nothing changed; any other gives up its slot, and nothing else changes |
| ThreadStart.ExitEnds | sys/syscall.c:679-741 | exit frees exactly its own slot, takes it off exactly its CPU and goes back to the idle thread's frame |
| ThreadStart.ExitRefused | sys/syscall.c:679-741 | exit on a CPU without a task changes nothing and answers -EINVAL |
| ThreadStart.TaskUntouched | sys/thread.c:346-377 | until a CPU switches, no operation takes its task away or touches that task's frame |
| ThreadStart.ChildRuns | sys/thread.c:295-321 | when the CPU that got the child next switches, whatever all CPUs did since, it continues in the child with that frame |
| IdleLoop.WakeOrLost | sys/thread.c:81-94 | a CPU on its way to sleep with a task assigned has an interrupt due or pending, or has lost it in the window |
| IdleLoop.TaskRuns | sys/thread.c:81-94 | an undisturbed running CPU with a task is in it after four steps |
| IdleLoop.NoTaskWaits | sys/thread.c:81-90 | without a task it sleeps after four steps, unless an interrupt is pending, and then looks again |
| IdleLoop.SleepsUntilPending | sys/thread.c:83-93 | asleep it stays for any number of steps until an interrupt is pending, and is then in its task after four |
| IdleLoop.TaskEnds | sys/syscall.c:679-741 | an ended task leaves its CPU at the top of the loop without a task, once its clone has let go of the lock |
| IdleLoop.StopsSoon | sys/thread.c:81-94 | a CPU told to stop outside a task is done within five steps, unless it sleeps with nothing pending |
| IdleLoop.LeftBehindIff | sys/thread.c:79-94 | in every run a cloned thread is left behind on a sleeping CPU if and only if its interrupt was taken between the CPU's last look at its task and its falling asleep, and none was sent since |
| IdleLoop.NoneLeftBehind | sys/thread.c:79-94 | with interrupts disabled in that window no cloned thread is ever left behind |
| IdleLoop.NextInterruptRuns | sys/thread.c:83-93 | any further interrupt gets the thread going |
| IdleLoop.LeftBehindExample | sys/thread.c:82-90 | a run of seven steps that leaves a thread behind |
| Probe.DeviceTable.DeviceProbe | driver/device.c:85-133 | the recursive probe of a device has the effect and result of the walk |
| Probe.DeviceTable.AttachBus | driver/device.c:143-167 | attaches and adds the bus's own driver |
| Probe.DeviceTable.BusProbe | driver/device.c:135-193 | the probe of a bus and its device list has the effect and result of the walk |
| ProbeLoop.WalkAdvances | driver/device.c:85-193 | for any drivers: a walk forgets no probed device and no add succeeds twice |
| ProbeLoop.WalkResult | driver/device.c:85-193 | with drivers that only wait, a walk returns 0 or -EAGAIN, 0 implies every device is probed, and a walk over probed devices returns 0 |
| ProbeLoop.WalkProbes | driver/device.c:85-193 | one walk probes every device whose ancestors and dependencies are probed |
| ProbeLoop.PassProgress | driver/device.c:85-193 | with an orderable dependency relation, a pass that starts with an unprobed device probes at least one more |
| ProbeLoop.OnePass | sys/init.c:215-221 | a pass either returns 0 with everything probed or strictly shrinks what is left |
| ProbeLoop.ProbeAll | sys/init.c:214-223 | the retry loop terminates within n+1 passes with result 0, every device probed, and each add successful exactly once |
| ProbeLoop.WalkOrdered | driver/device.c:85-193 | devices are probed after everything they need |
| ProbeLoop.LogRanks | sys/init.c:215-221 | when a pass returns 0, the order of the adds orders the dependencies |
| ProbeLoop.EndsWithin | sys/init.c:215-221 | with an order, some pass among the first n+1 returns 0 |
| ProbeLoop.WalkDriven | driver/device.c:93-98 | a walk returns 0 only if every device has a driver, and never an error when drivers only wait |
| ProbeLoop.LoopEndsIff | sys/init.c:215-221 | the loop ends if and only if every device has a driver and the dependencies can be ordered |
| ProbeLoop.MutualWait | sys/init.c:215-221 | two devices that wait for each other: every pass returns -EAGAIN |
| ProbeLoop.NoDriver | driver/device.c:96-98 | a device without a driver: every pass returns -EAGAIN |
| ProbeErrors.ErrorStops | driver/device.c:173-183 | a list with a device whose walk fails with an error other than -EAGAIN has the effect and result of the walk up to the first such device: nothing behind it is tried |
| ProbeErrors.ErrorHasPlace | driver/device.c:173-183 | every error of a list comes from such a first device |
| ProbeErrors.DeviceFails | driver/device.c:100-119 | a driver's error is returned as it is, its device marked failed, and its child bus not touched |
| ProbeErrors.BusAnswers | driver/device.c:143-193 | a bus whose own driver answers an error or -EAGAIN returns it and tries none of its devices, marked failed only for an error; otherwise all of its list is walked |
| ProbeErrors.ErrorIsBlamed | driver/device.c:85-133 | every error of a device's walk was answered by a driver of its tree, whose device or bus is marked failed |
| ProbeErrors.ListErrorIsBlamed | driver/device.c:135-193 | the same for a list of devices |
| ProbeErrors.NoErrorResult | driver/device.c:173-193 | without an error the whole list is walked, and the result is -EAGAIN if and only if some device of it answered so |
| MergeSort.MergeElements | test/coremark/core_list_join.c:533-577 | a merge is a permutation of its two runs |
| MergeSort.MergeInOrder | test/coremark/core_list_join.c:536-565 | merging two ordered runs, the earlier first, gives an ordered and stable run |
| MergeSort.PassRuns | test/coremark/core_list_join.c:515-581 | a pass over ordered runs of w nodes gives ordered runs of 2w nodes |
| MergeSort.PassesInOrder | test/coremark/core_list_join.c:507-591 | the doubling passes give an ordered, stable permutation |
| MergeSortCode.MergePair | test/coremark/core_list_join.c:533-577 | the inner loop relinks exactly the merge of the two runs onto the end of the list |
| MergeSortCode.StepAlong | test/coremark/core_list_join.c:519-527 | steps over min(insize, rest) nodes and counts them |
| MergeSortCode.PassOnce | test/coremark/core_list_join.c:509-581 | one pass relinks the list to the pass of its nodes; at most one merge iff two runs cover the list |
| MergeSortCode.Sort | test/coremark/core_list_join.c:499-595 | for any total preorder and non-empty list, terminates with the same nodes linked in order, stable, ending in null |
| Md5.FoldAppend | test/md5.c:150-152 | folding the transform over two stretches of blocks is folding over one and then the other |
| Md5.Encode | test/md5.c:280-290 | words to bytes, low byte first |
| Md5.Decode | test/md5.c:295-305 | bytes to words, low byte first |
| Md5.DecodeEncode | test/md5.c:280-305 | decoding undoes encoding |
| Md5.EncodeDecode | test/md5.c:280-305 | encoding undoes decoding |
| Md5.Context.constructor | test/md5.c:119-128 | an empty context stands for the empty message |
| Md5.Context.Update | test/md5.c:134-161 | a context standing for a message stands for message plus input afterwards: full blocks folded, tail buffered |
| Md5.Final | test/md5.c:166-187 | the digest is that of the message and its padding, and the context is wiped; the padding's bytes are stated by Md5Reference.PaddingShape and the digest's by Md5Reference.DigestWords |
| Md5.PaddedMessage | test/md5.c:174-180 | the two final updates append exactly the padding of the reference |
| Md5.CountStep | test/md5.c:138-142 | the buffer position follows the message length modulo 64, even when the bit count loses high bits |
| Md5.CountExact | test/md5.c:142-142 | the bit count stays exact over an update if and only if `size_t` has 64 bits or the input is below 2^29 bytes |
| Md5.CountLost | test/md5.c:142-142 | a 32-bit update of 2^29 bytes leaves the bit count of an empty message at 0 |
| Md5.Hash | test/md5.c:134-187 | any sequence of updates gives the digest of the concatenation, however it is cut |
| Md5Reference.EncodedWord | test/md5.c:280-290 | word i of an encoding is the sum of its four bytes times powers of 256, low byte first |
| Md5Reference.LengthValue | test/md5.c:171-172 | the eight length bytes are the bit count as a sum of byte k times 256^k |
| Md5Reference.PaddingShape | test/md5.c:174-180 | for every message: whole blocks with as few bytes as possible, 0x80 behind the message, zeros, and 8 times the length modulo 2^64 in the last eight bytes, low byte first, as in sections 3.1 and 3.2 of RFC 1321 |
| Md5Reference.InitialBytes | test/md5.c:119-128 | the initial state is the byte table of section 3.3 of RFC 1321 |
| Md5Reference.FoldBlocks | test/md5.c:147-152 | blocks are transformed one after the other in order |
| Md5Reference.DigestWords | test/md5.c:182-183 | the digest is the four state words in order, each low byte first |
| Sgemm.Clear | test/sgemm.c:81-85 | every cell becomes zero and nothing else changes |
| Sgemm.Accumulate | test/sgemm.c:96-96 | one cell gains the next term of its sum |
| Sgemm.RowLoop | test/sgemm.c:93-99 | the inner nest raises a block from its first to its last term |
| Sgemm.TermBlocks | test/sgemm.c:89-101 | the blocks of one row band give each of its cells all terms in ascending order |
| Sgemm.Blocked | test/sgemm.c:75-103 | every cell is the ascending sum of its terms, for any addition and multiplication and any sizes |
| Sgemm.Naive | test/sgemm.c:105-115 | the same for the naive loops |
| Sgemm.ProductUnique | test/sgemm.c:75-115 | the product determines every cell |
| Sgemm.BlockedEqualsNaive | test/sgemm.c:75-115 | both leave exactly the same array |
| Sgemm.UnitLeft | test/sgemm.c:105-115 | over the integers a unit at row p, column q of the left matrix moves row q of the right one to row p |
| Sgemm.UnitRight | test/sgemm.c:105-115 | a unit at row q, column r of the right matrix moves column q of the left one to column r |
| Sgemm.IdentityProduct | test/sgemm.c:75-115 | the product of the identity and a matrix is that matrix |
| FormatCode.Output.Put | sys/vsprintf.c:133-155 | a buffer keeps a character only below its size, the console shows it unless it is NUL, and the null output keeps nothing |
| FormatCode.OutRev | sys/vsprintf.c:199-223 | sends the digit buffer in reverse with the padding of the flags |
| FormatCode.NtoaFormat | sys/vsprintf.c:227-277 | pads, prefixes and signs the digits inside the 32-byte buffer and sends them |
| FormatCode.NtoaLong | sys/vsprintf.c:281-301 | sends the text of a number, never indexing past the 32-byte buffer |
| FormatCode.ReadDirective | sys/vsprintf.c:601-680 | reads flags, width, precision and length as the grammar function says |
| FormatCode.PrintString | sys/vsprintf.c:796-820 | sends a string, cut by its precision, in its field |
| FormatCode.PrintChar | sys/vsprintf.c:776-794 | sends a character in its field |
| FormatCode.SendAll | sys/vsprintf.c:587-850 | the loop over the format sends exactly its text |
| FormatCode.Terminate | sys/vsprintf.c:853-853 | the terminator goes behind the text or into the last byte, and is dropped when there is no room |
| FormatCode.VsnprintfInner | sys/vsprintf.c:577-857 | the result is the length of a text that does not depend on buffer or size (as a 32-bit int, equal iff below 2^31); the buffer holds the first min(length, size-1) characters, then NUL, and the rest as it was |
| FormatCode.ShorterIsPrefix | sys/vsprintf.c:868-871 | what a shorter buffer holds is a prefix of what a longer one holds, and a long enough one holds all of it |
| FormatNumber.DigitsValue | sys/vsprintf.c:293-297 | with room for them, the stored digits have the value that was printed |
| FormatNumber.DigitCount | sys/vsprintf.c:293-297 | at most n digits if and only if the value is below base^n |
| FormatNumber.PrintsBackIff | sys/vsprintf.c:227-301 | without precision and '#', an independent reader gets sign and magnitude back if and only if digits and sign fit in 32 characters |
| FormatNumber.SignLost | sys/vsprintf.c:231-274 | a negative number zero-padded to 33 characters reads back without its sign |
| FormatNumber.PrintedLength | sys/vsprintf.c:199-301 | the length is max(width, digits plus sign) |
| FormatNumber.IntegerPrintsBack | sys/vsprintf.c:684-756 | every 64-bit value printed by x or X in base 16, by o in base 8 and by d, i or u in base 10 reads back in that base, at the length of its field or of its digits and sign, for a zero-padded width of at most 32 |
| FormatNumber.BinaryPrintsBackIff | sys/vsprintf.c:690-756 | a value printed in base 2 reads back if and only if it has at most 32 bits |
| FormatNumber.FieldIsDecimal | sys/vsprintf.c:188-195 | a width or precision is the decimal number in the format, modulo 2^32 |
| FormatText.StringText | sys/vsprintf.c:796-820 | a string prints its first characters, as many as the precision allows, on its side of the field, and spaces elsewhere |
| FormatText.TextAppend | sys/vsprintf.c:587-850 | a format put behind another prints the one text and then the other, with the arguments the first left |
| FormatText.PlainText | sys/vsprintf.c:590-595 | a format without a percent sign prints itself |
| FormatLaw.DigitsAreNumeral | sys/vsprintf.c:293-297 | the stored digits are the numeral of the value in its base, written highest digit first, reversed |
| FormatLaw.NumberLaw | sys/vsprintf.c:199-301 | every 64-bit number prints as sign and numeral, to the left, or behind zeros after the sign, or to the right |
| FormatLaw.PrecisionNumber | sys/vsprintf.c:227-301 | with a precision a number has at least that many digits, a zero none of its own; to the left the precision is not heeded |
| FormatLaw.FlagsLaw | sys/vsprintf.c:601-612 | flags in any order and number set exactly their own flag each |
| FormatLaw.WidthLaw | sys/vsprintf.c:614-629 | a width is its decimal digits, or a star's argument, whose sign turns the field to the left |
| FormatLaw.PrecisionLaw | sys/vsprintf.c:631-644 | a precision is its decimal digits, or a star's argument if positive |
| FormatLaw.LengthLaw | sys/vsprintf.c:646-680 | each length modifier sets exactly its own type |
| FormatLaw.ParseLaw | sys/vsprintf.c:601-680 | every directive written as flags, width, precision, modifier and conversion is read as that |
| FormatLaw.ValueIsRead | sys/vsprintf.c:720-755 | the value printed is the one in the range of the modifier's type that is equal to the argument modulo its size |
| FormatLaw.IntegerLaw | sys/vsprintf.c:684-756 | what any d, i, u, x, X or o directive prints, from its characters and arguments: base 10, 8 or 16, capitals for X alone, a sign for d and i alone, zeros, side, precision, stars and modifiers |
| FormatLaw.CharLaw | sys/vsprintf.c:776-794 | %c prints the low byte of its argument on its side of the field |
| FormatLaw.StringLaw | sys/vsprintf.c:796-820 | %s prints the first characters of its argument, as many as the precision allows, on its side of the field |
| FormatLaw.PointerLaw | sys/vsprintf.c:822-838 | %p prints all 8 or 16 digits in capital hexadecimal |
| FormatLaw.PercentLaw | sys/vsprintf.c:840-843 | %% prints a percent sign |
| FormatAlternate.AlternateNumber | sys/vsprintf.c:242-262 | a number with '#': the prefix, then its digits less those that give way to it |
| FormatAlternate.AlternateIff | sys/vsprintf.c:242-262 | every digit is printed if and only if the digits neither fill the field nor, in hexadecimal among zeros, leave one place |
| FormatAlternate.AlternateLaw | sys/vsprintf.c:684-756 | what any x, X or o directive with '#' prints, from its characters and arguments, whole under exactly that condition; a zero has no prefix |
| FormatAlternate.AlternatePrecisionLaw | sys/vsprintf.c:684-756 | with '#' and a precision: the prefix, then at least that many digits; nothing gives way |
| FormatAlternate.DigitsLost | sys/vsprintf.c:244-249 | %#2x of 0xab prints 0x |
| Pll.DistExact | driver/clk/sifive/prci.c:156-158 | the signed 64-bit distance is the true one if and only if the true one is below 2^63 |
| Pll.FilterRange | driver/clk/sifive/prci.c:110-147 | for an admissible reference the filter range is one more than the number of limits among 11, 18, 30, 50, 80 and 130 MHz that it reaches, and there is none otherwise |
| Pll.Conf.FindDivq | driver/clk/sifive/prci.c:149-174 | the best output divider for one oscillator frequency, never worse than before |
| Pll.Conf.FindDivf | driver/clk/sifive/prci.c:176-195 | the best feedback and output divider for one reference |
| Pll.Conf.FindDivr | driver/clk/sifive/prci.c:197-226 | the best setting for an input frequency; the range filter never fails on it |
| Pll.Search | driver/clk/sifive/prci.c:149-226 | by the code's distance: succeeds iff some admissible setting is closer to the target than 0, and the result is admissible, reproduced by the stored dividers and at least as close as every admissible setting. By the true distance the same for targets below 2^63, and above exactly under a stated condition on the outputs. Within 2p/2^q + 1 for every reachable p and q |
| Pll.SearchRight | driver/clk/sifive/prci.c:156-160 | a result that is best by the code's distance is truly best for targets below 2^63; for 2^63 + t if and only if there is no output, or t > 0 and the largest output is t, or is above 2t with t no output |
| Pll.NoSettingAtTwo63 | driver/clk/sifive/prci.c:156-160 | at a target of 2^63 no setting seems closer than 0, although one exists |
| Pll.LocksOntoExcess | driver/clk/sifive/prci.c:156-160 | at 2^63 + t an output t beats every larger output |
| Pll.NearSetting | driver/clk/sifive/prci.c:176-195 | for every admissible reference p and q with the scaled target in the oscillator range, some setting errs by at most 2p/2^q + 1 |
| Pll.ErrorBound | driver/clk/sifive/prci.c:149-226 | an optimal result is at least that close |
| Pll.PackFields | driver/clk/sifive/prci.c:244-248 | every field of the packed word reads back unchanged |
| Pll.UpdateConfig | driver/clk/sifive/prci.c:228-256 | the word written holds the dividers of a setting at least as close as every admissible one, by the true distance as for the search, and in its range field one more than the number of limits that setting's reference reaches |
| Pll.KnownSetting | driver/clk/sifive/prci.c:244-248 | dividers, frequencies, range and register word of one setting, 1999.99998 MHz from 33.333333 MHz, in numbers |
| PageAlloc.MemNode.constructor | sys/memory.c:264-277 | an empty heap: all flags 0, counter 1 |
| PageAlloc.MemNode.CountContiguous | sys/memory.c:36-47 | returns one more than the free run, at least 1 and otherwise at most the limit |
| PageAlloc.MemNode.SetPageFlag | sys/memory.c:83-90 | exactly the given flags change |
| PageAlloc.MemNode.AllocPages | sys/memory.c:109-151 | the whole effect and result of an allocation, with 64-bit rounding and every error path |
| PageAlloc.MemNode.FreePages | sys/memory.c:190-229 | the whole effect and result of a release |
| PageAllocRuns.FitIsFirst | sys/memory.c:125-150 | the scan takes the first run accepted, from its start, and answers -1 only when there is none |
| PageAllocRuns.Answer | sys/memory.c:109-151 | what an allocation answers and leaves, by the state before it: -22 for no bytes, -12 for more pages than are free, -1 if no run is accepted, else the first accepted run |
| PageAllocRuns.Requested | sys/memory.c:116-116 | the pages asked for are the fewest of 4096 bytes that hold the length, or none when rounding up overflows 64 bits |
| PageAllocRuns.FreeAnswer | sys/memory.c:190-229 | a release clears one flag for each whole page of its length and one more for an address inside a page, and takes as many off the count; for no bytes or an address outside the heap it changes nothing and answers -22 |
| PageAllocRuns.AllocKeepsIff | sys/memory.c:109-151 | blocks for all bytes asked for stay apart and in the heap, marks and use count exact, if and only if not: the length overflows while a page is free, or enough pages are free and the first accepted run is one page short; counting from zero only the overflow remains |
| PageAllocRuns.RunLongEnough | sys/memory.c:109-151 | an allocation that is not harmful takes free pages for all bytes asked for |
| PageAllocRuns.FreeKeeps | sys/memory.c:190-229 | releasing a whole live block succeeds and leaves the other blocks as they were |
| PageAllocRuns.AllocFreeRestoresIff | sys/memory.c:116-205 | allocating and releasing the same length restores flags and use count if and only if it is a multiple of the page size |
| PageAllocRuns.StepStaysInside | sys/memory.c:83-90 | such a call never writes behind the flags |
| PageAllocRuns.RunKeeps | sys/memory.c:109-229 | over every sequence of such calls: blocks apart and in range, a page marked iff live, use count equal to the marked pages, no mark stored as 0 |
| PageAllocRuns.BootedRun | sys/memory.c:264-277 | the same from the heap as it is set up |
| PageAllocRuns.ShortRunTaken | sys/memory.c:38-47 | two allocations and a release from the heap as set up, then two pages are taken from a free run of one and a live page is overwritten |
| PageAllocRuns.WrappedLengthGranted | sys/memory.c:116-119 | on the heap as set up a length of 2^64 - 1 is granted at page 0 with nothing marked |
| MemOps.ReplicateBytes | sys/sys/string.c:25-32 | the shifts put the fill byte into every byte of the word |
| MemOps.WordBytes | sys/sys/string.c:69-71 | a word holds the bytes it was read from |
| MemOps.Memset | sys/sys/string.c:16-51 | for any alignment, length and word size exactly the range holds the byte; every word store is aligned |
| MemOps.Memcpy | sys/sys/string.c:53-79 | for ranges that do not overlap, or overlap with the destination below, the range holds the old source and all else is unchanged; every word access is aligned |
| Clock.RawFields | sys/clock.c:12-23 | up to 10^9 Hz the fields are those of exact arithmetic and the nanoseconds are in range |
| Clock.LaterIff | sys/clock.c:12-23 | a larger count gives a later time if and only if the seconds do not cross the signed range between; always above 1 Hz |
| Clock.EarlierAtOneHertz | sys/clock.c:18-18 | at 1 Hz the time goes back when the count reaches 2^63 |
| Clock.RoundTripIff | sys/clock.c:12-41 | count to time to count is exact if and only if the remainder is a whole number of nanoseconds, and otherwise loses 1; always exact if the frequency divides 10^9 |
| Timer.ReadCounter | driver/timer/sifive/clint_timer.c:57-66 | the split read terminates and returns a value a non-decreasing counter held at one of its reads |
| Timer.Compare.Set | driver/timer/sifive/clint_timer.c:104-107 | the two writes set the value, passing through new high and old low |
| Timer.SpuriousIff | driver/timer/sifive/clint_timer.c:104-107 | the value between can raise an interrupt that neither old nor new asks for if and only if the high half falls and the low half rises |
| Timer.SpuriousExample | driver/timer/sifive/clint_timer.c:104-107 | from 2 * 2^32 to 2^32 + 5 the register passes through 2^32 |
| Timer.TimespecAdd | include/bmetal/sys/time.h:47-58 | adds times exactly and keeps nanoseconds in range |
| Timer.TimespecSub | include/bmetal/sys/time.h:60-71 | subtracts times exactly and keeps nanoseconds in range |
| Timer.Realtime.Set | sys/clock.c:60-79 | stores the difference to the monotonic time, or fails with the stated error and changes nothing |
| Timer.Realtime.Get | sys/clock.c:43-58 | adds the offset to the monotonic time, or passes its error on |
| Timer.SetThenGet | sys/clock.c:43-79 | after a set, what is read is the set time plus the monotonic time passed since |

## Left out

- FutexAlone.NoBits: the -EINVAL itself is not recorded, because the result of a call is only kept while the call is under way.
- FutexRuns.WakeResult: does not say that each wake reaches a distinct waiter, because a slot that is already marked or about to leave with -EWOULDBLOCK is counted again; does not model a failing IPI, because the CLINT driver refuses only a sender that is not the current CPU and a wake always sends from it.
- The futex system call's dispatch, and absent CPUs in the CPU table of the futex protocol.
- Weak memory and the barrier macros; progress of the spinlock and fairness of CPUs.
- Threads.Kernel.CloneThread: one step, because the lock of the CPU search is released before the CPU's own lock is taken; the words clone and exit write to user space are not modelled.
- Threads.Kernel.ExitThread: one step, because the code reads the slot after it has freed it; the host notification is not modelled.
- Sibling buses of a device, which the code never probes, and the lookup of devices on nested buses, which is part of the drivers' `add`.
- MergeSortCode.Sort: run lengths are unbounded, so lists of more than 2^30 nodes, where the 32-bit run length overflows, are not modelled.
- Md5.Context.Update: with a 32-bit `size_t` the loop's `i + 63` overflows for an input within 63 bytes of 2^32, which is not modelled.
- The 64 rounds of MD5's block transform: any function from state and block to state takes its place.
- Sgemm.Blocked: `int` index overflow and the vector versions are not modelled.
- FormatCode.SendAll: formats with a floating-point conversion and formats that end inside a directive are excluded, as for FormatCode.VsnprintfInner.
- FormatCode.VsnprintfInner: formats that end inside a directive are excluded, because the code then reads past the format; floating-point conversions are excluded; the count of sent characters is unbounded. An integer argument's magnitude is taken in two's complement where the negation of the smallest value would overflow.
- FormatLaw.IntegerLaw: excludes base 2, and fields that the 32-character buffer cuts, which are the subject of FormatNumber.PrintsBackIff.
- FormatLaw.PointerLaw: excludes a precision and '#', which section 7.21.6.1 of ISO/IEC 9899:2011 leaves undefined for pointers.
- PageAlloc.MemNode.AllocPages: the mark counter is unbounded, its 32-bit overflow is not modelled; locking is left out.
- PageAlloc.MemNode.FreePages: a release whose pages reach past the flags by more than the byte behind them is excluded, because it writes unrelated memory; the warning for pages that are not marked has no effect and is left out.
- Timer.Realtime.Set: seconds are unbounded.
- What a CPU does after its idle loop has ended.
- UART, GPIO, reset and interrupt-controller registers, assembly entry code, memory mapping system calls, string comparison, board tables, the host tool and the other benchmarks: configuration and device access with little logic of their own.
