# Verification of OP-TEE core algorithms and protocols

This project models parts of OP-TEE in Dafny and proves properties of them that span
functions, calls and threads. To verify it, use `dafny verify dfyconfig.toml`.

- **AES-GCM.** `Gf128` and `Ghash` show that the table-driven and the bit-by-bit GHASH
  multiplier compute the same field product. `GcmSpec` holds the functions of NIST SP 800-38D
  over an arbitrary block cipher, multiplication and counter increment; `Gcm` is the streaming
  core with its partial blocks, aligned fast path and key stream buffer, `GcmCalls` the
  context and all sequences of calls on it, and `GcmStandard` says when the result is that of
  the standard. `Counter` and `BigEndian` treat the counter and length blocks. A pointer's
  alignment is its address modulo 16.
- **Locks.** `LockGraph` and `Lockdep` are the lock order checker. `MutexLockdep` is a
  transition system of threads that take mutexes under it, and `MutexProgress` says when a
  waiting thread can get its mutex. `WaitQueue` has the critical sections of mutexes and wait
  queues as functions and as the loops that compute them, and `MutexSystem` is the transition
  system of threads over these functions. Every section under a spinlock is one step, a failed
  check or panic is no step, and a sleeping thread may look at its queue element at any time.
- **Resources.** `PgtCache` and `PgtSystem` are the page table cache for paged user TAs and
  its threads, `TaSession` the reference counts, exclusive lock and removal of TA sessions,
  as sections under the mutex and as runs, and `TaClosing` says when a close comes to its end.
- **Layout.** `Tzc380` covers address ranges with TZC-380 regions, `Reloc` relocates pages of
  the pager one at a time, and `Elf` merges and aligns ELF segments.
- **Other cryptography.** `AesCts`, `Sm3`, `Fortuna` and `Sm4`, each for an arbitrary
  primitive. `Bytes`, `Slices`, `Arithmetic`, `Totals` and `Options` are shared.

Main results are stated over every input, every split of the input into calls, or every run.
Some properties turned out to hold only under a condition:

- The 128-bit GCM counter is inc32 iff the low 32 bits do not wrap, and the length block is
  right iff both lengths are below 2^29 bytes, because the multiplication by 8 is done in 32
  bits.
- Read locks are not checked by lockdep. A thread in `mutex_lock` or `mutex_read_lock` can get
  its mutex iff it is in no set of threads that all wait for each other
  (`MutexProgress.GetsUnlessStuck`). `DeadlockFree` says that there is no such set as long as no
  thread is blocked with a read lock held, and none is blocked in `mutex_read_lock` with any
  mutex held; `ReaderDeadlock` and `ReadLockDeadlock` are runs with only successful checks,
  each against one of the conditions, that leave two threads stuck.
  The release check passes iff the caller is the writer, so `condvar_wait` by a reader never
  passes it when lockdep is configured.
- A signal sent without holding the mutex can lose a wakeup; `MutexSystem.PromotionAnywhere`
  says exactly when, `HolderPromotes` and `RestPromotes` what this means for a caller.
- `pgt_alloc` does not broadcast when it succeeds at once with fewer tables than the thread
  gave back; `PgtSystem.ShrinkForgets` says exactly when this leaves a thread asleep that
  could be served.
- A thread can get past `tee_ta_unlink_session` iff it is in no set of threads that all wait
  for each other (`TaClosing.ClosesUnlessStuck`); as long as the other users of the session use
  no second one, iff it has only one reference itself. `tee_ta_open_session` closes a
  session with a panicked context before it has put its own reference, and so never returns.
- A naturally aligned window takes one TZC-380 region iff it ends below 2^64 or is as large
  as the address width (`Tzc380.AutoConfigure`, with the bounds on its size).
- The final assert of `init_rels` holds iff no relocation is exactly at the end address,
  since `get_num_rels` counts one there.
- The asserts of `adjust_segments` make merged segments agree only modulo the alignment. Their
  bytes are mapped from their own place in the file iff they are as far apart there as in
  memory (`Elf.FilePlaces`); `Elf.MergedElsewhere` is an input that passes every assert and is not.
- The byte counter of SM3 stays right iff its lower word overflows at most once in a call.

## Model

| member | source | states |
|---|---|---|
| `Counter.IncCtrValue` | core/crypto/aes-gcm.c:346-356 | the counter block is incremented as one big-endian number modulo 2^128 |
| `Counter.IncCtrIsInc32` | core/crypto/aes-gcm.c:346-356 | this increment is inc32 of section 6.2 of NIST SP 800-38D iff the low 32 bits do not wrap |
| `Counter.IterIsIter32` | core/crypto/aes-gcm.c:346-356 | all counters up to block k are those of inc32 iff the low 32 bits leave room for k increments |
| `Counter.NonceCounter` | core/crypto/aes-gcm.c:88-91 | a 96-bit nonce gives the pre-counter block nonce, 0, 0, 0, 1 of section 7.1 |
| `Counter.NonceCounters` | core/crypto/aes-gcm.c:346-356 | for a 96-bit nonce the counter blocks are those of inc32 iff the message has at most 2^32 - 2 blocks |
| `Counter.LenBlockExact` | core/crypto/aes-gcm.c:58-68 | with the 32-bit multiplication by 8 the length block is that of section 7.1 iff both lengths are below 2^29 bytes |
| `Gf128.ProductCommutes` | core/crypto/aes-gcm-ghash-tbl.c:106-141 | the field product commutes, so the two multipliers may run over opposite operands |
| `Gf128.DotLinear` | core/crypto/aes-gcm-ghash.c:39-52 | the product is linear in the operand that is shifted |
| `Ghash.WordMulX` | core/crypto/aes-gcm-ghash-tbl.c:66-75 | the shift-and-reduce step on two 64-bit words is multiplication by x in GF(2^128) |
| `Ghash.Last4Correct` | core/crypto/aes-gcm-ghash-tbl.c:95-100 | every entry of last4 holds the wrapped-around terms of its nibble |
| `Ghash.Step4Correct` | core/crypto/aes-gcm-ghash-tbl.c:123-128 | the four-bit step of the table multiplier is multiplication by x^4 |
| `Ghash.HornerStep` | core/crypto/aes-gcm-ghash-tbl.c:106-141 | one nibble extends the product by Horner's rule |
| `Ghash.MultiplesLaws` | core/crypto/aes-gcm-ghash-tbl.c:47-88 | the nibble multiples of h satisfy the halving and addition laws by which the tables are filled |
| `Ghash.Table.constructor` | core/crypto/aes-gcm-ghash-tbl.c:47-88 | after gen_tbl entry i of the tables is nibble i times the subkey |
| `Ghash.Table.Powers` | core/crypto/aes-gcm-ghash-tbl.c:66-75 | the entries of single bits are h, hx, hx^2 and hx^3 |
| `Ghash.Table.Sums` | core/crypto/aes-gcm-ghash-tbl.c:77-87 | the remaining entries are the sums of those |
| `Ghash.Table.SumsFor` | core/crypto/aes-gcm-ghash-tbl.c:77-87 | one pass fills the entries between i and 2i and changes no later one |
| `Ghash.Table.Mult` | core/crypto/aes-gcm-ghash-tbl.c:106-141 | gcm_mult gives the field product of its argument and the subkey |
| `Ghash.Table.Accumulate` | core/crypto/aes-gcm-ghash-tbl.c:117-137 | one nibble of the loop |
| `Ghash.Gfmul` | core/crypto/aes-gcm-ghash.c:31-55 | the bit-by-bit loop gives the same field product |
| `Ghash.ElemXor` | core/crypto/aes-gcm-ghash-tbl.c:143-150 | exclusive or of bytes is addition of field elements |
| `Ghash.ToBlockInverse` | core/crypto/aes-gcm-ghash-tbl.c:138-140 | blocks and bit strings correspond |
| `Ghash.UpdateBlockTable` | core/crypto/aes-gcm-ghash-tbl.c:143-150 | one GHASH step of the table build: the sum with the data times the subkey, with the product on bytes that ProductDetermined fixes |
| `Ghash.UpdateBlockBitwise` | core/crypto/aes-gcm-ghash.c:57-64 | one GHASH step of the build without tables, with the same product |
| `Ghash.UpdateBlock` | core/crypto/aes-gcm-ghash-tbl.c:143-150 | both builds update the hash state alike, as section 6.4 asks; with the subkey 80 00 .. 00 the state becomes the sum, and with 40 00 .. 00 the sum halved as a big-endian number and exclusive-ored with e1 in the first byte if it was odd |
| `Ghash.MulByUnits` | core/crypto/aes-gcm-ghash.c:31-55 | on bytes: 80 00 .. 00 is the unit, and 40 00 .. 00 times y is y / 2 as a big-endian number, exclusive-ored with e1 in the first byte if y is odd |
| `Ghash.ProductDetermined` | core/crypto/aes-gcm-ghash.c:31-64 | on bytes: the product is the one and only function that is linear, has the unit 80 00 .. 00 and commutes with this shift |
| `Ghash.MulLaws` | core/crypto/aes-gcm-ghash-tbl.c:106-141 | on bytes: the product is linear, commutes, and multiplication by 40 00 .. 00 can be done before or after |
| `GcmSpec.GctrAtConcat` | core/crypto/aes-gcm.c:186-255 | GCTR of a message is GCTR of its parts at their offsets |
| `GcmSpec.GctrInvolution` | core/crypto/aes-gcm.c:186-255 | GCTR with the same counters is its own inverse (section 6.5) |
| `GcmSpec.AppendFull` | core/crypto/aes-gcm.c:209-228 | completing a partial block adds exactly one block to the hashed string |
| `Gcm.GhashBlocks` | core/crypto/aes-gcm-sw.c:25-37 | hashing n blocks extends the hashed string by them |
| `Gcm.GhashPadZero` | core/crypto/aes-gcm.c:28-56 | GHASH of the zero-padded string, whatever the alignment of the buffer |
| `Gcm.LoadNonce` | core/crypto/aes-gcm.c:88-98 | the pre-counter block, for every nonce length |
| `Gcm.GcmInit` | core/crypto/aes-gcm.c:70-121 | the state represents an empty message; the encrypting side has the first key stream block ready |
| `Gcm.FillShort` | core/crypto/aes-gcm.c:150-158 | an incomplete buffer stands for the rest of the hashed string |
| `Gcm.FillFull` | core/crypto/aes-gcm.c:150-165 | a complete buffer is the next block of the hashed string |
| `Gcm.AadBulk` | core/crypto/aes-gcm.c:167-174 | the bulk call hashes the head block once and the aligned blocks behind it |
| `Gcm.AadStep` | core/crypto/aes-gcm.c:149-175 | one iteration consumes input, keeps the hashed string right and never meets a head block twice |
| `Gcm.UpdateAad` | core/crypto/aes-gcm.c:137-178 | AAD is appended to the hashed string for every length and alignment |
| `Gcm.KeyPiece` | core/crypto/aes-gcm.c:213-216 | within a block the buffered key stream gives GCTR at the offset of the piece |
| `Gcm.PayloadFill` | core/crypto/aes-gcm.c:208-222 | output and buffers after a partial block, for both modes |
| `Gcm.PayloadPartial` | core/crypto/aes-gcm.c:204-239 | one unaligned iteration: output, hashed string and key stream position; it goes on exactly when the block is complete |
| `Gcm.FinishBlock` | core/crypto/aes-gcm.c:226-239 | at the end of a block each mode prepares its own next key stream block |
| `Gcm.PayloadBlock` | core/crypto/aes-gcm-sw.c:56-75 | one block of the aligned path agrees with the stream |
| `Gcm.PayloadAligned` | core/crypto/aes-gcm-sw.c:40-76 | the aligned path agrees with the stream for any number of blocks |
| `Gcm.PayloadStep` | core/crypto/aes-gcm.c:203-251 | each iteration takes one of the two paths with the same result |
| `Gcm.PayloadLoop` | core/crypto/aes-gcm.c:203-251 | the output is GCTR at the offset of the call, for every length and pair of addresses |
| `Gcm.Flush` | core/crypto/aes-gcm.c:192-199 | the bytes that are left are hashed padded with zeros |
| `Gcm.UpdatePayload` | core/crypto/aes-gcm.c:186-255 | a payload call appends to the ciphertext and the hashed string and keeps the state valid |
| `GcmCalls.OperationFinal` | core/crypto/aes-gcm.c:266-288 | the tag buffer holds the tag of everything processed |
| `GcmCalls.Lengths` | core/crypto/aes-gcm.c:58-68 | the length block ends the hashed string |
| `GcmCalls.Context.Init` | core/crypto/aes-gcm.c:70-121 | bad parameters iff the tag length exceeds 16, and then nothing changes |
| `GcmCalls.Context.UpdateAad` | core/crypto/aes-gcm.c:137-178 | refused iff the 32-bit payload counter is not zero; otherwise the history grows by the data |
| `GcmCalls.Context.UpdatePayload` | core/crypto/aes-gcm.c:186-264 | output, new history, and validity of the state |
| `GcmCalls.Context.EncFinal` | core/crypto/aes-gcm.c:290-308 | short buffer iff the tag does not fit, otherwise the rest of the ciphertext and the tag |
| `GcmCalls.Context.DecFinal` | core/crypto/aes-gcm.c:318-336 | success iff the supplied tag has the agreed length and equals the recomputed one |
| `GcmCalls.PadAppend` | core/crypto/aes-gcm.c:192-199 | padding after the payload leaves the padding of the AAD in place |
| `GcmCalls.FedMore` | core/crypto/aes-gcm.c:186-255 | however calls are split, the hashed string is that of section 7.1 |
| `GcmCalls.Feed` | core/crypto/aes-gcm.c:137-255 | init, any AAD pieces and any payload pieces at any addresses give GCTR of the whole payload |
| `GcmCalls.EncryptPieces` | core/crypto/aes-gcm.c:137-308 | for every split and alignment: ciphertext and tag of section 7.1 |
| `GcmCalls.DecryptPieces` | core/crypto/aes-gcm.c:137-336 | for every split and alignment: GCTR of the input, and success iff the tag is that of section 7.1 |
| `GcmCalls.RoundTrip` | core/crypto/aes-gcm.c:137-336 | what one side encrypts in its calls the other side decrypts in its own, and the tag is accepted (section 7.2) |
| `GcmCalls.EncOnce` | core/crypto/aes-gcm.c:358-379 | the one-shot encryption gives the same ciphertext and tag |
| `GcmCalls.DecOnce` | core/crypto/aes-gcm.c:381-402 | the one-shot decryption accepts exactly the right tag |
| `GcmStandard.SameKeyStream` | core/crypto/aes-gcm.c:186-255 | the key stream is that of inc32 if the low 32 bits do not wrap |
| `GcmStandard.SameKeyStreamExact` | core/crypto/aes-gcm.c:186-255 | for whole blocks and a block cipher that can be inverted, the key stream is that of inc32 iff the low 32 bits do not wrap |
| `GcmStandard.Standard` | core/crypto/aes-gcm.c:70-288 | ciphertext and tag are those of NIST SP 800-38D for lengths below 2^29 bytes if the counter does not wrap |
| `GcmStandard.StandardNonce96` | core/crypto/aes-gcm.c:70-288 | for 96-bit nonces no condition on the counter remains |
| `GcmStandard.EncryptStandard` | core/crypto/aes-gcm.c:70-308 | within these bounds every split and alignment gives the ciphertext and tag of the standard, also byte by byte: nonce or hashed nonce, counter j0 + 1 + i / 16 for byte i, and the chained hash of padded AAD, padded ciphertext and both lengths in bits |
| `GcmStandard.DecryptStandard` | core/crypto/aes-gcm.c:70-336 | and decryption gives its plaintext and accepts exactly its tag; an accepted message is one that seals to this ciphertext and tag byte by byte |
| `GcmStandard.StandardSealed` | core/crypto/aes-gcm.c:70-308 | the functions of the standard on bytes: counter blocks, zero padding, length fields, hash chain and tag |
| `LockGraph.OrderedAcyclic` | core/kernel/lockdep.c:207-248 | a graph whose nodes are in topological order has no cycle |
| `LockGraph.BackEdge` | core/kernel/lockdep.c:212-213 | an edge back to a node being visited closes a cycle |
| `LockGraph.NewCycle` | core/kernel/lockdep.c:315-344 | if new edges to one lock close a cycle then one of the same length starts at that lock |
| `LockGraph.Shortest` | core/kernel/lockdep.c:124-205 | a breadth-first search that has not come back yet has missed no shorter cycle |
| `LockGraph.FrontCycle` | core/kernel/lockdep.c:146-170 | an edge from the first queue entry back to the start closes a shortest cycle |
| `LockGraph.NothingLeft` | core/kernel/lockdep.c:143-199 | when the queue is empty no cycle goes through the start |
| `LockGraph.Enqueue` | core/kernel/lockdep.c:172-193 | a queued path is real and one longer than that of the first entry |
| `LockGraph.ShortestOverall` | core/kernel/lockdep.c:333-344 | a shortest cycle through the new lock is a shortest cycle of the graph |
| `LockGraph.SubgraphAcyclic` | core/kernel/lockdep.c:442-482 | removing nodes and edges closes no cycle |
| `Lockdep.Graph.AddToGraph` | core/kernel/lockdep.c:22-42 | a node for the lock exists afterwards, once, and no edge changes |
| `Lockdep.Graph.AddEdge` | core/kernel/lockdep.c:73-95 | exactly one edge more, or none if it was there |
| `Lockdep.Graph.Visit` | core/kernel/lockdep.c:207-228 | success leaves a topological order of everything reached, failure a cycle |
| `Lockdep.Graph.Sort` | core/kernel/lockdep.c:230-248 | from cleared flags it terminates and succeeds iff the graph is acyclic; flags are cleared on success only |
| `Lockdep.Graph.ShortestCycle` | core/kernel/lockdep.c:124-205 | a cycle through the node that no other one undercuts, or none iff there is none |
| `Lockdep.Graph.Expand` | core/kernel/lockdep.c:152-193 | the loop over the edges of one entry |
| `Lockdep.Graph.Acquire` | core/kernel/lockdep.c:315-355 | success iff the edges from all owned locks leave the graph acyclic; the first failure reports a shortest cycle through the requested lock |
| `Lockdep.Graph.TryAcquire` | core/kernel/lockdep.c:362-383 | the lock is owned and no edge is added |
| `Lockdep.Graph.FindEdge` | core/kernel/lockdep.c:250-262 | found iff the edge exists |
| `Lockdep.Graph.ReportCycle` | core/kernel/lockdep.c:281-313 | every consecutive pair that is printed is a real edge, the closing one included |
| `Lockdep.Release` | core/kernel/lockdep.c:385-400 | the last entry for the lock goes, or the error is that there is none |
| `Lockdep.RemoveEdgesTo` | core/kernel/lockdep.c:452-474 | all edges to the node go, in a list where they may stand anywhere |
| `Lockdep.Graph.Destroy` | core/kernel/lockdep.c:442-495 | the node and exactly its edges go, the order of the others stays |
| `MutexLockdep.LockCheckThread` | core/kernel/mutex_lockdep.c:37-45 | a successful check puts the lock on the thread's list with edges from all others |
| `MutexLockdep.TakeThread` | core/kernel/mutex.c:19-61 | taking a mutex keeps list and holders in agreement |
| `MutexLockdep.TryCheckThread` | core/kernel/mutex_lockdep.c:47-55 | so does the check after a trylock |
| `MutexLockdep.UnlockCheckThread` | core/kernel/mutex_lockdep.c:57-65 | and the check before an unlock |
| `MutexLockdep.DestroyKeeps` | core/kernel/mutex_lockdep.c:67-73 | destroying a free mutex that nobody works on keeps the invariant |
| `MutexLockdep.StepKeepsInv` | core/kernel/mutex_lockdep.c:37-73 | every step keeps: acyclic graph, one list entry per held mutex, edges from all held mutexes to the requested one |
| `MutexLockdep.RunKeepsInv` | core/kernel/mutex_lockdep.c:37-73 | so does every run |
| `MutexLockdep.NoCircularWait` | core/kernel/mutex_lockdep.c:37-65 | in every run whose checks succeed the graph is acyclic and no set of threads in mutex_lock waits in a circle, trylock-held mutexes included |
| `MutexLockdep.ReaderLess` | core/kernel/mutex.c:107-127 | the recorded readers of a mutex stay as many as its state field counts |
| `MutexLockdep.ReleaseOnlyByWriter` | core/kernel/mutex.c:318-325 | the release check of mutex_unlock and condvar_wait passes iff the thread holds the mutex for writing, so a reader never passes it |
| `MutexProgress.StuckForever` | core/kernel/mutex.c:19-169 | a set of threads in mutex_lock and mutex_read_lock that all need each other, as writers or readers of what the others wait for, never gets its mutexes |
| `MutexProgress.NoNewNeeds` | core/kernel/mutex.c:19-127 | a step that completes an operation or gives up a lock makes nobody need a thread other than the one that took it |
| `MutexProgress.Settles` | core/kernel/mutex.c:19-127 | each such step leaves less to complete and to give up, so they come to an end |
| `MutexProgress.CanGoOn` | core/kernel/mutex.c:19-127 | a thread that waits or holds a mutex and is not blocked can take such a step itself |
| `MutexProgress.GetsUnlessStuck` | core/kernel/mutex.c:19-169 | in every reachable state some continuation gives a thread in mutex_lock or mutex_read_lock its mutex iff the thread is in no set of threads that all need each other |
| `MutexProgress.SomeHolderGoesOn` | core/kernel/mutex.c:19-169 | from a blocked thread that is not stuck, whom it needs, whom that one needs and so on leads to a holder that is not blocked |
| `MutexProgress.DeadlockFree` | core/kernel/mutex.c:19-169 | if no blocked thread holds a read lock and no thread blocked in mutex_read_lock holds any mutex, then nobody is stuck and every thread that waits can get its mutex |
| `MutexProgress.CarefulDeadlockFree` | core/kernel/mutex.c:19-169 | so it is in every run whose callers ask for no lock while they hold a read lock and for no read lock while they hold any |
| `MutexProgress.ReaderDeadlock` | core/kernel/mutex.c:129-169 | the first condition is needed: a run with all checks successful, and nobody in mutex_read_lock, after which a blocked reader and a writer are stuck and no step is left |
| `MutexProgress.ReadLockDeadlock` | core/kernel/mutex.c:129-169 | the second condition is needed: a run without read-held mutexes after which two writers in mutex_read_lock are stuck and no step is left |
| `WaitQueue.Lock.AddTail` | core/kernel/wait_queue.c:47-59 | the element becomes the last one |
| `WaitQueue.Lock.LockSection` | core/kernel/mutex.c:41-50 | the section of the lock calls takes the mutex iff it is free for them, and queues the thread otherwise |
| `WaitQueue.Lock.TrySection` | core/kernel/mutex.c:93-99 | the trylock section queues nothing |
| `WaitQueue.Lock.UnlockSection` | core/kernel/mutex.c:72-79 | panics iff the mutex is free |
| `WaitQueue.Lock.ReadUnlockSection` | core/kernel/mutex.c:115-122 | panics iff no reader holds it, otherwise one reader less |
| `WaitQueue.Lock.WaitSection` | core/kernel/mutex.c:334-352 | queueing for the variable and giving up the mutex are one step |
| `WaitQueue.Lock.ScanSection` | core/kernel/wait_queue.c:98-146 | wakes the first eligible waiter: any on the first pass, readers only on later ones |
| `WaitQueue.Lock.PromoteSection` | core/kernel/wait_queue.c:148-182 | the first waiter for the variable, or all, become active, the others are untouched |
| `WaitQueue.Lock.FinalSection` | core/kernel/wait_queue.c:78-96 | a thread leaves the queue iff it has been woken |
| `WaitQueue.Lock.HaveCondvar` | core/kernel/wait_queue.c:184-202 | found iff somebody waits for the variable |
| `WaitQueue.FirstEligible` | core/kernel/wait_queue.c:112-131 | no earlier element is eligible |
| `WaitQueue.WithoutMembers` | core/kernel/wait_queue.c:90-91 | exactly the thread's element goes |
| `MutexSystem.CountedTaken` | core/kernel/mutex.c:19-61 | taking the mutex keeps the state field in step with the holders |
| `MutexSystem.CountedDropped` | core/kernel/mutex.c:318-365 | so does giving it up |
| `MutexSystem.QueueMore` | core/kernel/mutex.c:47-48 | a sleeping thread has exactly one queue element |
| `MutexSystem.ScanKeeps` | core/kernel/wait_queue.c:98-146 | a scan either wakes somebody or proves nobody was waiting |
| `MutexSystem.StepKeepsInv` | core/kernel/mutex.c:19-365 | every step keeps holder counts, queue and wakeup invariant |
| `MutexSystem.RunKeepsInv` | core/kernel/mutex.c:19-365 | so does every run |
| `MutexSystem.Exclusion` | core/kernel/mutex.c:19-365 | in every run the state is -1 iff exactly one writer and no reader holds the mutex, and k > 0 iff k readers and no writer do |
| `MutexSystem.NoWakeupLost` | core/kernel/mutex.c:19-365 | in every run: a free mutex with an active waiter not woken has a thread about to make its first scan or a woken waiter about to retry |
| `MutexSystem.Quiescent` | core/kernel/mutex.c:19-365 | when all threads are idle or asleep unwoken, only unsignalled condition variables are waited for |
| `MutexSystem.WaitReturnsSignalled` | core/kernel/mutex.c:318-365 | condvar_wait has the mutex again only after a signal on that variable by another holder promoted the thread's own queue element |
| `MutexSystem.OnlySignalEnds` | core/kernel/wait_queue.c:148-182 | nothing but a matching signal ends the wait for a variable |
| `MutexSystem.SignalFinds` | core/kernel/mutex.c:280-293 | a signal by a holder finds the waiters, none of which still holds the mutex; its first section notes the variable and whether all are meant |
| `MutexSystem.PromoteWakes` | core/kernel/wait_queue.c:148-182 | in every run: after the promoting step of a broadcast nobody waits for the variable; of a signal, exactly the first waiter in the queue has stopped waiting; nobody who waits for another variable is touched |
| `MutexSystem.SignalCalled` | core/kernel/mutex.c:280-293 | a promoting step belongs to one earlier signal or broadcast by the same holder, for this variable |
| `MutexSystem.UnlinkedSignal` | core/kernel/mutex.c:280-293 | a signal that finds no linked mutex changes nothing, and then nobody waits for the variable |
| `MutexSystem.LockOutcome` | core/kernel/mutex.c:19-169 | in every run a lock or trylock succeeds iff no writer and, for writing, no reader holds the mutex; otherwise a lock call queues its thread last and a trylock changes nothing |
| `MutexSystem.WaitOutcome` | core/kernel/mutex.c:334-352 | condvar_wait queues its thread last, as the reader or writer it was, and goes on to wake others iff nobody holds the mutex any more |
| `MutexSystem.ScanOutcome` | core/kernel/wait_queue.c:98-146 | in every run the first pass wakes the first active waiter and a later pass the first active reader, and another pass follows iff a reader was woken |
| `MutexSystem.ScansEnd` | core/kernel/wait_queue.c:98-146 | the passes end with no active reader in the queue, unless the first has woken a writer |
| `MutexSystem.LaterPass` | core/kernel/wait_queue.c:98-146 | a later pass follows only on one that has woken a reader |
| `MutexSystem.FinalOutcome` | core/kernel/wait_queue.c:78-96 | a sleeping thread goes on iff its own element is marked, which then leaves the queue; nothing else changes |
| `MutexSystem.PromotionAnywhere` | core/kernel/mutex.c:280-293 | a promotion loses a wakeup iff the mutex is free, somebody waits for the variable and no thread is about to help |
| `MutexSystem.HolderPromotes` | core/kernel/mutex.c:280-293 | a promotion by a thread that holds the mutex never loses a wakeup |
| `MutexSystem.RestPromotes` | core/kernel/mutex.c:280-293 | with all threads at rest, a promotion without the mutex loses a wakeup iff somebody waits for the variable |
| `MutexSystem.SignalWithoutMutexLoses` | core/kernel/mutex.c:280-293 | a run after which a signal sent without the mutex leaves its waiter asleep for good |
| `TaSession.Manager.DecRefCount` | core/kernel/tee_ta_manager.c:170-176 | one reference less, and the closer is woken when one is left |
| `TaSession.Manager.GetSection` | core/kernel/tee_ta_manager.c:221-257 | a reference unless unlink is set; an exclusive get waits while somebody has the lock |
| `TaSession.Manager.GetResumeSection` | core/kernel/tee_ta_manager.c:242-253 | after a wake-up: no session if unlinked, wait again if locked, otherwise the lock |
| `TaSession.Manager.PutSection` | core/kernel/tee_ta_manager.c:178-189 | the owner of the lock gives it up with a signal, then the reference goes |
| `TaSession.Manager.UnlinkSection` | core/kernel/tee_ta_manager.c:259-277 | unlink is set, waiters are woken, and the session leaves the list iff one reference is left |
| `TaSession.Manager.UnlinkResumeSection` | core/kernel/tee_ta_manager.c:271-274 | the closer waits again or takes the session off the list |
| `TaSession.OpenKeeps` | core/kernel/tee_ta_manager.c:608-668 | opening keeps ids distinct and counts the opener's reference |
| `TaSession.GetKeeps` | core/kernel/tee_ta_manager.c:221-257 | so do the three outcomes of a get |
| `TaSession.UnrefCell` | core/kernel/tee_ta_manager.c:170-176 | giving up a reference keeps the count and wakes the closer when it is the last other one |
| `TaSession.PutKeeps` | core/kernel/tee_ta_manager.c:178-189 | put keeps the invariant; with the lock it also wakes a waiter |
| `TaSession.UnlinkKeeps` | core/kernel/tee_ta_manager.c:259-277 | the closer waits or takes the session off the list |
| `TaSession.StepKeepsInv` | core/kernel/tee_ta_manager.c:170-277 | every step keeps: count equals references, the lock owner has one, closers and waiters agree with the session |
| `TaSession.RunKeepsInv` | core/kernel/tee_ta_manager.c:170-277 | so does every run |
| `TaSession.NoGain` | core/kernel/tee_ta_manager.c:231-253 | with unlink set no step gives anybody a reference and a get ends without one |
| `TaSession.UnlinkIsFinal` | core/kernel/tee_ta_manager.c:259-277 | from unlink to free, over all interleavings, references only go away |
| `TaSession.RemovalSafe` | core/kernel/tee_ta_manager.c:259-277 | when the session leaves the list the closer owns the lock and the only reference, and no thread waits on the session |
| `TaSession.FreeSafe` | core/kernel/tee_ta_manager.c:279-296 | when it is freed no other thread refers to it |
| `TaSession.SleepersNeeded` | core/kernel/tee_ta_manager.c:242-274 | no sleeper in get or unlink is forgotten by the signals |
| `TaSession.LockKept` | core/kernel/tee_ta_manager.c:178-277 | in every run the owner of the session lock keeps it until its own put or free |
| `TaSession.ExclusiveLocks` | core/kernel/tee_ta_manager.c:221-257 | in every run an exclusive get that comes back, at once or after waiting, has found the lock free and has taken it with a reference |
| `TaSession.PutLeaves` | core/kernel/tee_ta_manager.c:178-189 | in every run a put takes one reference of its thread and its lock, and no reference or lock of another |
| `TaClosing.StuckForever` | core/kernel/tee_ta_manager.c:242-274 | a set of threads that all need each other, for a lock or for references, never gets out of its calls |
| `TaClosing.NoNewNeeds` | core/kernel/tee_ta_manager.c:170-277 | a put, a wake-up or the end of a call makes nobody need a thread that is itself waiting |
| `TaClosing.Settles` | core/kernel/tee_ta_manager.c:170-277 | each such step leaves less to settle, so they come to an end |
| `TaClosing.CanSettle` | core/kernel/tee_ta_manager.c:170-277 | whoever is needed and needs nobody can take such a step |
| `TaClosing.ClosesUnlessStuck` | core/kernel/tee_ta_manager.c:259-277 | in every reachable state some continuation takes a closer past tee_ta_unlink_session iff the closer is in no set of threads that all need each other |
| `TaClosing.ClosesWithOneReference` | core/kernel/tee_ta_manager.c:259-277 | if the other users of the session have no second session, that is iff the closer has one reference only |
| `TaClosing.UnlinkCanEnd` | core/kernel/tee_ta_manager.c:259-277 | the same before the call: it can end iff the caller has one reference only |
| `TaClosing.WaitsForever` | core/kernel/tee_ta_manager.c:271-274 | a closer that has another reference itself never gets past unlink, and keeps it |
| `TaClosing.CloseWhileOpening` | core/kernel/tee_ta_manager.c:695-700 | closing a session whose context has panicked, as open does before its own put, is such a case |
| `TaClosing.CloseEachOther` | core/kernel/tee_ta_manager.c:271-274 | a run in which two closers with one reference each wait for each other, so the condition on the other users is needed |
| `TaSession.NewSessionId` | core/kernel/tee_ta_manager.c:582-606 | an unused non-zero id, or 0 iff all 2^32 - 1 ids are in use |
| `PgtCache.FreeAllConserves` | core/mm/pgt_cache.c:241-258 | freeing a list moves each entry to the pool once |
| `PgtCache.FreeAllSaves` | core/mm/pgt_cache.c:241-258 | exactly the entries in use are cached, and only if the context is saved |
| `PgtCache.TablesCover` | core/mm/pgt_cache.c:423-448 | the tables of an attempt are those of the directories that the range touches |
| `PgtCache.TablesTagged` | core/mm/pgt_cache.c:423-448 | on the fields: one table for each directory from that of begin to that of last, in order, each with the context and the address of its directory |
| `PgtCache.FreeAllFrees` | core/mm/pgt_cache.c:241-258 | on the fields: the free list gains exactly the entries that are not cached, without context, address and pages in use |
| `PgtCache.Targets` | core/mm/pgt_cache.c:322-344 | on the fields: a flush of a context hits exactly its tables, a flush of a range those of the context whose first small page is inside |
| `PgtCache.HitsTaken` | core/mm/pgt_cache.c:346-388 | exactly the entries that are hit are taken |
| `PgtCache.Cache.constructor` | core/mm/pgt_cache.c:65-75 | all entries are in the free list |
| `PgtCache.Cache.PopFromCache` | core/mm/pgt_cache.c:181-205 | an entry with exactly this context and base, which leaves the list, or none iff no cached entry has both |
| `PgtCache.Cache.PopLeastUsed` | core/mm/pgt_cache.c:207-239 | an entry of least use: the last such one, except that an unused first one is taken |
| `PgtCache.Cache.PopFromSome` | core/mm/pgt_cache.c:260-278 | a table with exactly this context and base unless both lists are empty; a cached one with both is returned unchanged if there is one, else the first free one, else the least used one, cleaned |
| `PgtCache.Cache.FreeUnlocked` | core/mm/pgt_cache.c:241-258 | on the fields: the entries in use are cached iff the context is saved, all others are cleaned and freed |
| `PgtCache.Cache.AllocUnlocked` | core/mm/pgt_cache.c:423-448 | k tables iff k <= free + cached, where k counts the directories of the range: one for each, in order, with context ctx and the address of the directory; otherwise none and nothing is lost |
| `PgtCache.Cache.FlushList` | core/mm/pgt_cache.c:346-388 | exactly the matching entries go to the free list, the others stay in order |
| `PgtCache.Cache.FlushCtx` | core/mm/pgt_cache.c:280-320 | the cache keeps exactly the entries of other contexts |
| `PgtCache.Cache.FlushRange` | core/mm/pgt_cache.c:390-401 | a thread list and the cache lose exactly the tables of the context whose first small page is in the range |
| `PgtCache.MissesKept` | core/mm/pgt_cache.c:346-388 | what is not hit is still on the list |
| `PgtCache.FlushedCache` | core/mm/pgt_cache.c:280-320 | flushing cached tables keeps every entry in the pool |
| `PgtSystem.StepKeepsInv` | core/mm/pgt_cache.c:241-479 | every step keeps each entry in one place and waiting threads without tables |
| `PgtSystem.Conservation` | core/mm/pgt_cache.c:241-479 | in every run each entry is in exactly one of the pool and the threads' lists, once, and a thread waiting on pgt_cv holds none |
| `PgtSystem.AttemptTags` | core/mm/pgt_cache.c:423-466 | in every run a successful attempt, at once or after waiting, leaves the thread with one table for each directory of its range, each with its context |
| `PgtSystem.OwnTables` | core/mm/pgt_cache.c:241-466 | in every run all tables that a thread has carry the context of one successful attempt of its own and belong to its range, whatever others allocate, cache or flush |
| `PgtSystem.PoolComplete` | core/mm/pgt_cache.c:450-466 | when no thread has tables all are available |
| `PgtSystem.WaiterSucceeds` | core/mm/pgt_cache.c:450-466 | once the others have freed theirs the next attempt of a waiter succeeds, for any request the pool can hold |
| `PgtSystem.NobodyForgotten` | core/mm/pgt_cache.c:390-479 | nobody sleeps who could be served, unless an allocation gave back more tables than it took |
| `PgtSystem.ShrinkForgets` | core/mm/pgt_cache.c:450-466 | such an allocation, which does not broadcast, forgets a sleeper iff its need is within what is then available |
| `PgtSystem.ShrinkForgetsBefore` | core/mm/pgt_cache.c:450-466 | before the call: a sleeper can be served afterwards iff the least need of a sleeper and the new tables together fit into the pool and the list of the thread; newly so only if the allocation shrinks |
| `PgtSystem.SleeperForgotten` | core/mm/pgt_cache.c:450-466 | a run in which that happens |
| `Tzc380.Place` | core/drivers/tzc380.c:256-260 | an address aligned to a sub-region has one of eight places in its region |
| `Tzc380.RangeCovered` | core/drivers/tzc380.c:264-276 | enabled sub-regions [from, upto) cover one address range |
| `Tzc380.ConsecutiveCovers` | core/drivers/tzc380.c:219-289 | regions over consecutive ranges are disjoint and cover their union |
| `Tzc380.StuckStays` | core/drivers/tzc380.c:242-253 | once a whole region leaves a rest, whole regions never use it up |
| `Tzc380.WholeKeeps` | core/drivers/tzc380.c:242-253 | a whole region extends the covered range by its size |
| `Tzc380.SubRegions` | core/drivers/tzc380.c:264-276 | the enabled sub-regions start at the address and go as far as range and region do; an end that wraps disables all |
| `Tzc380.SubStep` | core/drivers/tzc380.c:256-285 | the sub-region case extends the covered range |
| `Tzc380.WindowStep` | core/drivers/tzc380.c:238-286 | an aligned window of 2^k bytes is left alone until the region size is 2^(k+1), and is a whole region iff it is 2^k |
| `Tzc380.AutoConfigure` | core/drivers/tzc380.c:219-289 | if the asserts hold the range does not wrap, the enabled sub-regions are pairwise disjoint and their union is exactly the range; for every aligned window of 2^k bytes: the asserts hold with one region iff a region is left and the window either has 15 <= k below the address width and ends below 2^64, or is as large as the address width above 15; one that ends at 2^64 with 15 < k below the address width takes two |
| `Tzc380.TopWindow` | core/drivers/tzc380.c:238-289 | four gigabytes that end at 2^64 take two regions |
| `AesCts.CbcEncConcat` | core/crypto/aes-cts.c:104-106 | CBC does not depend on the split into whole-block updates |
| `AesCts.CbcDecConcat` | core/crypto/aes-cts.c:104-106 | nor does decryption |
| `AesCts.StealRestored` | core/crypto/aes-cts.c:143-156 | the bytes cut from the last block come back from decrypting the block before it |
| `AesCts.Cs3Inverse` | core/crypto/aes-cts.c:93-187 | decryption undoes encryption for every permutation, IV and message longer than one block |
| `AesCts.CbcBlocks` | core/crypto/aes-cts.c:104-106 | every ciphertext block is the encryption of the plaintext block exclusive-ored with the block before |
| `AesCts.Cs3OnBytes` | core/crypto/aes-cts.c:117-141 | the ciphertext byte by byte, from CBC of the zero-filled message |
| `AesCts.Cs3Concat` | core/crypto/aes-cts.c:104-106 | whole blocks in front are plain CBC |
| `AesCts.Cs3DecConcat` | core/crypto/aes-cts.c:104-106 | also in decryption |
| `AesCts.Context.Update` | core/crypto/aes-cts.c:93-187 | bad state iff the last part is at most one block; otherwise CBC-CS3 of the NIST SP 800-38A Addendum, output as long as input |
| `AesCts.Context.EncryptLast` | core/crypto/aes-cts.c:117-141 | the three writes give the stolen ciphertext |
| `AesCts.Context.DecryptLast` | core/crypto/aes-cts.c:142-184 | the three CBC calls in swapped order give the decryption |
| `AesCts.Process` | core/crypto/aes-cts.c:93-187 | for every split into whole-block updates and a last one; encryption also block by block: zero fill, CBC, the last two blocks swapped and cut |
| `AesCts.RoundTrip` | core/crypto/aes-cts.c:93-187 | the round trip for any split on either side |
| `Reloc.GetNumRels` | core/mm/fobj.c:317-341 | fails iff the list is not increasing, aligned and non-zero; the count includes a relocation exactly at the end |
| `Reloc.InitRels` | core/mm/fobj.c:343-373 | the final assert holds iff no relocation is at the end address, and then the tables index every page |
| `Reloc.EntryStep` | core/mm/fobj.c:366-369 | each relocation starts its page iff it is the first one there |
| `Reloc.NextStart` | core/mm/fobj.c:438-443 | the next page with relocations starts where those of this page end |
| `Reloc.DoneStep` | core/mm/fobj.c:445-448 | each relocation changes exactly one word of its page, not changed before |
| `Reloc.Fobj.EndOf` | core/mm/fobj.c:438-443 | the search finds the end of the page's relocations |
| `Reloc.Fobj.Apply` | core/mm/fobj.c:445-448 | load_offset is added modulo 2^64 to exactly the words whose addresses the list names, once each, also on pages without any |
| `Reloc.Fobj.LoadPage` | core/mm/fobj.c:425-452 | the verified page, where the words that the list names have grown by load modulo 2^64 and the others are as stored, or the hash error and the stored page |
| `Reloc.RelocatedConcat` | core/mm/fobj.c:425-452 | relocating pages is relocating the image |
| `Reloc.RelocatedImage` | core/mm/fobj.c:425-452 | a relocated image word by word: load is added modulo 2^64 exactly where the list says |
| `Reloc.LoadImage` | core/mm/fobj.c:375-452 | all asserts hold iff the list is well formed and names nothing at the end, and then word j of page p is the stored one, plus load modulo 2^64 iff the list names its address |
| `Reloc.LoadPlain` | core/mm/fobj.c:375-396 | without relocations in range the pages are the image unchanged |
| `Reloc.LoadRelocated` | core/mm/fobj.c:425-452 | loading page by page: word j of page p is the stored one, plus load modulo 2^64 iff the list names its address |
| `Sm3.CounterStep` | core/crypto/sm3.c:165-168 | the 64-bit byte count stays right iff the lower word overflows at most once |
| `Sm3.LengthFieldExact` | core/crypto/sm3.c:204-208 | the length field is the 64-bit number of bits for messages below 2^61 bytes |
| `Sm3.PadLength` | core/crypto/sm3.c:210-211 | the padding is the shortest that fits, as section 5.2 of GM/T 0004-2012 defines it |
| `Sm3.SumHashed` | core/crypto/sm3.c:198-224 | the digest is the last of a chain from the initial state with one compression for each block of the padded message |
| `Sm3.HmacAuthenticates` | core/crypto/sm3.c:237-278 | HMAC byte by byte: key bytes first, zeros behind, both pads and both hashes |
| `Sm3.Context.Update` | core/crypto/sm3.c:157-189 | the context stands for the message extended by the input, for every length and buffer position |
| `Sm3.Absorb` | core/crypto/sm3.c:170-188 | state and buffer after an update |
| `Sm3.Context.Final` | core/crypto/sm3.c:198-224 | the fold of the compression function over the message, 0x80, the fewest zeros and the length in bits, also as the chain of digests |
| `Sm3.Context.Digest` | core/crypto/sm3.c:34-224 | for every split into updates |
| `Sm3.Context.HmacInit` | core/crypto/sm3.c:237-260 | inner and outer key blocks for every key length, byte by byte: the key or its digest first, zeros behind, combined with 0x36 and 0x5c |
| `Sm3.Context.HmacFinal` | core/crypto/sm3.c:267-278 | the outer hash over the inner digest |
| `Sm3.Context.HmacOf` | core/crypto/sm3.c:237-290 | the nested construction of section 2 of RFC 2104 for every key length and split, also byte by byte |
| `Fortuna.IncCounter` | core/crypto/rng_fortuna.c:74-79 | the two words count modulo 2^128 |
| `Fortuna.NoReuse` | core/crypto/rng_fortuna.c:315-338 | below 2^128 increments no counter value, hence no pair of key and counter, is encrypted twice |
| `Fortuna.ReseedTest` | core/crypto/rng_fortuna.c:420-430 | after the smaller powers have passed, the bit test is divisibility by 2^n |
| `Fortuna.DrainsWhere` | core/crypto/rng_fortuna.c:432-460 | stopping at the first failing test drains exactly the pools n < 32 with 2^n dividing the count |
| `Fortuna.AddedOnFields` | core/crypto/rng_fortuna.c:222-246 | an event on the fields of the state: header, clipped data, other pools, length of pool 0 |
| `Fortuna.StreamAt` | core/crypto/rng_fortuna.c:315-338 | byte i of the key stream is byte i % 16 of E at counter + i / 16 modulo 2^128 |
| `Fortuna.SeedDigests` | core/crypto/rng_fortuna.c:432-460 | the seed is the digests of the pools whose power of two divides the reseed number, in order |
| `Fortuna.UsesCounts` | core/crypto/rng_fortuna.c:315-338 | the bound per key is on the number of log entries with that key |
| `Fortuna.Rng.Init` | core/crypto/rng_fortuna.c:130-173 | a first key from the data, and the counter at 1 |
| `Fortuna.Rng.AddEvent` | core/crypto/rng_fortuna.c:222-246 | the pool gets the source, the length and the first 32 bytes of the data, no other pool changes, and pool 0 counts its bytes unless that overflows; a failing hash update leaves the pool as it was or with the header only |
| `Fortuna.Rng.DrainRingBuffer` | core/crypto/rng_fortuna.c:248-263 | the popped events go to their pools one after the other, up to one without data or the first error |
| `Fortuna.Rng.GenerateBlocks` | core/crypto/rng_fortuna.c:315-338 | n blocks of key stream; the counter moves on even when an encryption fails |
| `Fortuna.Rng.GenerateRandomData` | core/crypto/rng_fortuna.c:341-359 | the stream cut to the length |
| `Fortuna.Rng.DrainPools` | core/crypto/rng_fortuna.c:448-460 | digests of exactly the due pools, which restart from them |
| `Fortuna.Rng.MaybeReseed` | core/crypto/rng_fortuna.c:432-474 | reseed number, seed and new key, and exactly the pools whose power of two divides the number restart from their digests; or nothing when there is too little data or the rate is limited |
| `Fortuna.Rng.Read` | core/crypto/rng_fortuna.c:476-512 | byte i is that of E under the key at counter + i / 16, where the key is the digest of the seed if a reseed was due, the new key is the two blocks after the data, and the ring buffer is drained, with the exact new state; earlier encryptions stay in the log; an error, also of the drain, ends the generator |
| `Fortuna.Rng.CryptoRead` | core/crypto/rng_fortuna.c:514-531 | for every length, the bytes, next key and state of consecutive reads of at most 1 MiB, as few as possible; no key is used for more than 2^16 + 2 blocks, and earlier encryptions stay in the log |
| `Fortuna.Rng.Session` | core/crypto/rng_fortuna.c:130-531 | over any calls from the start of the generator to its end: the log has the encryptions of all calls, no key is used for more than 2^16 + 2 blocks, and below 2^128 increments no pair of key and counter is encrypted twice |
| `Elf.MergeKeeps` | ldelf/ta_elf.c:432-452 | merging keeps order, homes, flags and touched pages |
| `Elf.AlignKeeps` | ldelf/ta_elf.c:461-470 | so does aligning |
| `Elf.PageOnce` | ldelf/ta_elf.c:379-473 | no page is in two result segments |
| `Elf.HomeUnique` | ldelf/ta_elf.c:379-473 | a segment that is not empty lies in exactly one result segment |
| `Elf.MergePlaces` | ldelf/ta_elf.c:432-452 | a merged segment keeps the start of its first and gets the end of its last original, in memory and in the file |
| `Elf.AlignPlaces` | ldelf/ta_elf.c:455-470 | an aligned segment starts at the pages of its address and offset, keeps its ends, and is marked iff its offset is not aligned and its first file page is mapped by the one before as well |
| `Elf.FilePlaces` | ldelf/ta_elf.c:432-470 | all bytes of all segments are mapped from their own place in the file iff every segment that starts in the last page of the one before is as far from it in the file as in memory |
| `Elf.MergedElsewhere` | ldelf/ta_elf.c:432-452 | two segments that pass every assert and are merged although they are one page further apart in the file |
| `Elf.AdjustSegments` | ldelf/ta_elf.c:379-473 | if the asserts hold the result is in order and page-disjoint, every original segment lies in its home with its flags, no page or flag comes from nowhere, and address, offset, both sizes and the remapped mark of each result segment are those of its first and last original |
| `Sm4.RoundBack` | core/crypto/sm4.c:118-122 | a round undoes itself on reversed words, whatever the nonlinear function |
| `Sm4.RoundsBack` | core/crypto/sm4.c:163-184 | so do all rounds under the reversed schedule |
| `Sm4.CryptInverse` | core/crypto/sm4.c:163-201 | decryption with the reversed schedule inverts encryption, for any schedule |
| `Sm4.KeyMatters` | core/crypto/sm4.c:163-184 | for an injective t, schedules that differ in exactly one round key encrypt every block differently |
| `Sm4.OneRound` | core/crypto/sm4.c:163-184 | there are 36 words: the first four are the input, word i + 4 is word i exclusive-ored with t of the exclusive or of the three words between and round key i, and the output is the last four in reverse |
| `Sm4.ReverseSchedule` | core/crypto/sm4.c:192-201 | sixteen swaps reverse the schedule |
| `Sm4.CbcEncrypt` | core/crypto/sm4.c:216-231 | CBC of the input, in place or between separate buffers, and nothing else is written |
| `Sm4.CbcDecrypt` | core/crypto/sm4.c:232-246 | CBC decryption, likewise, and the last ciphertext block as new IV |
| `Sm4.CbcStep` | core/crypto/sm4.c:216-247 | one more block of CBC in either direction |
| `Sm4.EncryptPieces` | core/crypto/sm4.c:216-231 | encryption in place in any number of calls is encryption at once |
| `Sm4.DecryptPieces` | core/crypto/sm4.c:232-246 | so is decryption |
| `Sm4.RoundTrip` | core/crypto/sm4.c:216-247 | decrypting in place gives back what was encrypted in place, however both are split into calls |
| `Sm4.CtrValue` | core/crypto/sm4.c:249-270 | the big-endian counter after n blocks is the initial one plus n modulo 2^128 |
| `Sm4.CtrInvolution` | core/crypto/sm4.c:249-270 | CTR is its own inverse |
| `Sm4.CtrCrypt` | core/crypto/sm4.c:249-270 | CTR of the input, in place or between separate buffers, and the counter for the next call |
| `Sm4.Increment` | core/crypto/sm4.c:263-265 | the carry loop is the big-endian increment |

## Left out

- The block cipher AES, the SM3 compression function, the SM4 S-box, linear map, constants and key expansion, and the Fortuna hash and cipher are arbitrary functions.
- AES-GCM with source and destination that overlap; `EncOnce` and `DecOnce` treat absent AAD as empty.
- GcmCalls.OperationFinal: does not fix the other fields of the state after the tag has been computed, because the context is not used again before a new init.
- Gcm.GcmInit: the expansion of the key and its errors are not part of this model.
- MutexProgress.DeadlockFree: mutex_read_unlock is called only by threads that hold the mutex for reading, which the source leaves to its callers; the two conditions on readers are not checked by the source.
- Fairness between waiters, and the RPC that puts a thread to sleep: a sleep may end at any time.
- One mutex with its condition variables is modelled; linking a condition variable to a second mutex, which panics, and condvar_destroy are not.
- Call stacks, debug output and failures of memory allocation, except that an allocation may fail inside Fortuna's primitives.
- Lockdep.Graph.Sort: says nothing for flags that an earlier failure has left set, because the callers panic after a failure.
- TaSession.NewSessionId: takes the ids of the open sessions in list order; the order of the list plays no part in the rest of the session model, where a session is listed or not.
- TA contexts, busy waiting, single-instance locking, invoke timeouts, cancellation and tee_ta_find_session.
- The page table cache without paged user TAs and the variant with several tables per page; the pager appears only as setting the number of used entries, at any time.
- PgtCache.Cache.AllocUnlocked: addresses are unbounded, so a range at the top of the address space that wraps is not modelled.
- Tzc380.AutoConfigure: address widths are at most 63, since the source shifts a 64-bit one by the width; register access, security inversion and lockdown are not modelled.
- AesCts.Context.CbcUpdate: stands for the CBC mode of the cryptographic library, for whole blocks.
- Reloc.LoadImage: at most 65535 relocations in range, as the index has 16 bits, a base aligned to 8 bytes, and an image that ends below 2^32.
- Sm3.Context.Digest: updates below 2^32 bytes and messages below 2^61 bytes.
- The ring buffer of quick Fortuna events itself and the choice of the pool number: what a drain pops is arbitrary.
- Elf.AdjustSegments: the alignment is taken to be a power of two, so that masking is a remainder; population and mapping are left out.
- Drivers with polling loops, dispatch tables, RSA and other primitives, abort handling, unwinding and build scripts: register access or forwarding with little logic.
