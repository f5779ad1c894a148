# Verified models of the course code

These Dafny modules model the parts of the CS:APP labs and textbook programs whose correctness is an
invariant over whole runs, and prove it for every input, every run and every interleaving.

- **Cache simulator** (`CacheModel`, `LruTheory`, `LruRuns`). The flat array of time-stamped lines is
  a class changed in place. Each set is shown to be a list of tags in order of last use, cut at the
  associativity; from this come the counters' balance, the hits as a matter of reuse alone, and LRU
  inclusion. The scan for the oldest line starts from the constant 999999: a run is LRU throughout if
  and only if every eviction finds a timer below it or has the oldest line last. Every run of a
  direct-mapped cache and every run of up to 500000 records is such a run; a family of traces shows
  what happens in others.
- **Semaphore protocols** (`BoundedBuffer`, `CountedReadersWriters`, `FairReadersWriters`, with `Sums`
  for counting threads). Any number of threads, one atomic step per P, V and shared load or store;
  inductive invariants over all runs give FIFO order, conservation, exclusion and freedom from deadlock.
- **The shell** (`JobTable`, `ShellRuns`, `CommandLine`). The job table as a class; the main loop
  interleaved with the SIGCHLD handler and with children that stop, continue and end at any time;
  the in-place tokenizer against a printer. Two assumptions are made for job control: a job is started
  only while the table has a free slot, and the handler does not reap the very job that `fg` has
  looked up and not yet marked. They are exact: a run that has come back to the prompt was sound
  throughout if and only if it met both (`ShellRuns.JobControlIff`), and for each there is a run from
  the initial state that breaks it.
- **Robust I/O** (`BufferedReader`, `IntegerPrinting`, with `CStrings`). The buffered reader over a
  kernel that splits and interrupts reads as it likes; `sio_ltoa` against a parser.
- **Select-based echo server** (`ConnectionPool`). Slots, descriptor sets, high-water marks and the
  ready counter.
- **Dictionary** (`WordTable`, `Dictionary`, `NgramWindow`, `WordFrequency`). The hash table of linked
  nodes rewired in place by three find functions, with its statistics, and the ring buffer that makes
  n-grams.
- **Loop transformations, sorting, overflow tests** (`Folds`, `Combine`, `CombineLong`, `BubbleSort`,
  `WordArithmetic`, `OverflowTests`).

Assumptions about the outside world are parameters or preconditions: `read` delivers any non-empty
piece of the input, or is interrupted a finite number of times; `select` reports a subset of the
descriptors asked for; `accept` returns a descriptor that is not in use and is below FD_SETSIZE, where
`FD_SET` is defined (the server does not test for that); `fork` returns a pid that no
unreaped child has.

Where the code and its own comments disagree, the model follows the code:

- `sio_ltoa` does not print the least long: its negation is itself (`IntegerPrinting.RoundTrip`).
- `cmult_ok3` compares the wrong way round for positive `y` (`OverflowTests.CmultOk3IsRight`), and
  `tmult_ok` traps on -1 times the least int (`OverflowTests.TmultOkIsExact`).
- `check_clients` passes over a ready descriptor 0, and `nready` then ends at 1
  (`ConnectionPool.Pool.CheckClients`).
- `combine1` into an element of its own vector does not compute the fold
  (`CombineLong.SumIntoItself` says when it does for sums).

## Model

| member | source | states |
|---|---|---|
| `CacheModel.Simulator.constructor` | cachelab/helper.c:69-75 | the zeroed array is the cache with all lines of all sets invalid and all counters and the clock at zero |
| `CacheModel.CutUpdate` | cachelab/helper.c:123 | one store at set * E + line changes that line of that set and no other line of any set |
| `CacheModel.ScanMeaning` | cachelab/helper.c:162-173 | the scan from the end ends at a line with the least timer below 999999, or at the last line if no timer is below it |
| `CacheModel.Simulator.WriteCache` | cachelab/helper.c:153-178 | the whole new state: only the victim's tag and timer change, one eviction is counted and the clock advances once |
| `CacheModel.Simulator.LoadCache` | cachelab/helper.c:111-151 | the whole new state of a hit, a fill or an eviction, the clock advancing twice on an eviction |
| `CacheModel.Simulator.Simulate` | cachelab/helper.c:88-105 | after the loop over the trace the flat array, the counters and the clock are those of the run the theorems below speak of |
| `LruTheory.StackByLastUse` | cachelab/helper.c:119-177 | the reference recency stack lists tags by decreasing position of their last use |
| `LruTheory.LruIsStackPrefix` | cachelab/helper.c:119-177 | the list of an E-way LRU set is the first E tags of one stack that does not depend on E |
| `LruTheory.VictimIsOldest` | cachelab/helper.c:162-173 | in a full set the scan picks the line used longest ago if and only if some timer is below the sentinel or that line is the last one |
| `LruTheory.LoadSetOrder` | cachelab/helper.c:111-178 | for every set in order, sentinel or not, a load keeps valid lines a prefix with distinct tags and timers, hits exactly the tags present, evicts exactly when the set is full of others, and moves the loaded tag to the front |
| `LruTheory.LoadSetRefinesTouch` | cachelab/helper.c:111-178 | a load that, if it evicts, finds a timer below the sentinel or has the oldest line last is one use of an E-way LRU list, with the outcome that list predicts |
| `LruTheory.EvictionIsLruIff` | cachelab/helper.c:162-176 | an eviction leaves the LRU order if and only if some timer is below the sentinel or the last line's timer is the least |
| `LruTheory.LoadIsLruIff` | cachelab/helper.c:111-178 | a load of any kind keeps the LRU order if and only if it meets that condition |
| `LruRuns.RunGood` | cachelab/helper.c:111-178 | in every run, sentinel or not, the valid lines of a set are a prefix with distinct tags and distinct timers, all stamped in the past |
| `LruRuns.CountersBalance` | cachelab/helper.c:94-100 | in every run hits + misses = loads + stores + 2 modifies, and misses - evictions = valid lines |
| `LruRuns.ClockCounts` | cachelab/helper.c:149-177 | in every run the clock is the number of loading records plus the number of evictions |
| `LruRuns.ShortRunsAreSafe` | cachelab/helper.c:162 | no trace of up to 500000 records reaches the sentinel |
| `LruRuns.DirectMappedIsSafe` | cachelab/helper.c:162-173 | no trace of any length spoils a cache with one line per set |
| `LruRuns.RunIsLruIff` | cachelab/helper.c:111-178 | every set holds its LRU list after every prefix of a trace if and only if every eviction of the run finds a timer below the sentinel or has the oldest line last |
| `LruRuns.RunRefinesLru` | cachelab/helper.c:111-178 | after every such trace each set holds its most recently used tags, in order of use |
| `LruRuns.HitsAreReuse` | cachelab/helper.c:94-137 | the number of hits is the number of loads whose tag is among the E most recently used of its set, plus one for each modify |
| `LruRuns.Inclusion` | cachelab/helper.c:111-178 | with the same sets, more lines per set hold a superset of the tags after every trace, never hit less and never miss more |
| `LruRuns.ModifyIsTwoLoads` | cachelab/helper.c:94-98 | a modify as one load and a free hit gives the hits, misses, evictions and recency order of two loads |
| `LruRuns.PastTheSentinel` | cachelab/helper.c:162 | for every m above the sentinel, a trace of m + 2 records after which a two-line set has kept the tag used longest ago and dropped the one LRU keeps |
| `BoundedBuffer.Sbuf.constructor` | proxylab/sbuf.c:7-15 | the buffer of n slots with no items and nobody inside |
| `BoundedBuffer.Sbuf.Insert` | proxylab/sbuf.c:28-35 | the whole effect of an insert nobody interrupts |
| `BoundedBuffer.Sbuf.Remove` | proxylab/sbuf.c:40-49 | the whole effect of a remove nobody interrupts, and which slot the item comes from |
| `BoundedBuffer.InsertRunsAlone` | proxylab/sbuf.c:28-35 | from every state that lets it through, a thread inserting x needs exactly seven steps of its own, and the state then differs by the class's Insert of x |
| `BoundedBuffer.RemoveRunsAlone` | proxylab/sbuf.c:40-49 | likewise for a remove, whose caller receives the item read from the slot in front |
| `BoundedBuffer.ConservedDo` | proxylab/sbuf.c:28-49 | every step keeps slots + items + inserts and removes in flight = n, the mutex at one minus the threads inside, and the histories in step with front and rear |
| `BoundedBuffer.InvNext` | proxylab/sbuf.c:28-49 | the invariant is kept by every step of every thread and by every new call |
| `BoundedBuffer.Fifo` | proxylab/sbuf.c:28-49 | in every reachable state what was removed is a prefix of what was inserted, at most n items are unread and each is intact in its slot |
| `BoundedBuffer.Delivery` | proxylab/sbuf.c:40-49 | in every reachable state each item has been read as often as it was returned to a caller or is in a remover's hands, is returned no more often than it was inserted, and the remover leaving the mutex holds the item read last |
| `BoundedBuffer.Progress` | proxylab/sbuf.c:28-49 | all calls in flight are blocked if and only if all are inserts and the buffer is full, or all are removes and it is empty, or it has no slot at all |
| `BoundedBuffer.MutualExclusion` | proxylab/sbuf.c:30-47 | at most one thread is between P(mutex) and V(mutex) |
| `CountedReadersWriters.InvNext` | code_example_textbook/conc/rw1.c:12-48 | every step of every reader and writer keeps the count and the three semaphores determined by where the threads stand, with or without the gate |
| `CountedReadersWriters.WriterExcludes` | code_example_textbook/conc/rw1.c:12-48 | a writer in its critical section excludes every reader and every other writer |
| `CountedReadersWriters.CountAndOwner` | code_example_textbook/conc/rw1.c:12-30 | the count is the readers between increment and decrement; when the mutex is free it is the readers inside, and w is taken exactly when somebody is inside |
| `CountedReadersWriters.OneCompetitor` | code_example_textbook/conc/rw2.c:31-43 | with the gate at most one writer is between P(wg) and V(wg), so at most one competes for w |
| `CountedReadersWriters.NoDeadlock` | code_example_textbook/conc/rw2.c:11-43 | in every reachable state of either solution some thread can step |
| `CountedReadersWriters.FirstReaderEnters` | code_example_textbook/conc/rw1.c:15-21 | a first reader that finds the mutex and w free enters in six steps of its own and takes w |
| `CountedReadersWriters.AnotherReaderEnters` | code_example_textbook/conc/rw1.c:15-21 | a later reader enters in five steps without touching w, so readers share |
| `CountedReadersWriters.LastReaderLeaves` | code_example_textbook/conc/rw1.c:24-28 | the last reader leaves in six steps and frees w |
| `CountedReadersWriters.AnotherReaderLeaves` | code_example_textbook/conc/rw1.c:24-28 | any other leaves in five and keeps w taken |
| `CountedReadersWriters.WriterEntersAndLeaves` | code_example_textbook/conc/rw2.c:33-42 | a writer that finds w, and the gate where there is one, free reaches its critical section and leaves everything free again |
| `FairReadersWriters.InvDo` | code_example_textbook/conc/rw3.c:17-45 | every step keeps the permits accounted for and at most one writer acquiring |
| `FairReadersWriters.Permits` | code_example_textbook/conc/rw3.c:17-45 | free permits + readers inside + permits writers hold = N in every reachable state |
| `FairReadersWriters.WriterExcludes` | code_example_textbook/conc/rw3.c:29-44 | a writer in its critical section excludes all readers and other writers, and nobody else holds a permit |
| `FairReadersWriters.OneAcquirer` | code_example_textbook/conc/rw3.c:34-37 | at most one writer is acquiring permits |
| `FairReadersWriters.NoDeadlock` | code_example_textbook/conc/rw3.c:17-45 | some thread can step in every reachable state, although permits are taken one at a time |
| `FairReadersWriters.WriterEnters` | code_example_textbook/conc/rw3.c:34-40 | a writer that finds all N permits free reaches its critical section in N + 2 steps of its own, holding them all, with wmutex free again |
| `FairReadersWriters.WriterLeaves` | code_example_textbook/conc/rw3.c:42-43 | N + 2 further steps give all permits back |
| `FairReadersWriters.ReaderEntersAndLeaves` | code_example_textbook/conc/rw3.c:20-25 | a reader enters with one free permit and gives it back |
| `FairReadersWriters.AtMostNReaders` | code_example_textbook/conc/rw3.c:17-27 | never more than N readers are inside; when N are, no permit is free and no writer holds one; while any reads, none writes |
| `JobTable.Jobs.constructor` | shlab/tsh.c:479-484 | the table with all slots cleared, the next job id at 1 |
| `JobTable.Jobs.MaxJobId` | shlab/tsh.c:487-495 | the greatest job id on the table, 0 on an empty one |
| `JobTable.Jobs.AddJob` | shlab/tsh.c:498-521 | the whole new table: the first free slot takes the job; it fails exactly when the pid is below 1 or no slot is free, and then changes nothing |
| `JobTable.Jobs.DeleteJob` | shlab/tsh.c:524-539 | the whole new table: the pid's first slot is cleared and the next id is one above the greatest left; it fails exactly when the pid is not listed |
| `JobTable.Jobs.ForegroundPid` | shlab/tsh.c:542-549 | the pid in the first foreground slot, 0 if there is none |
| `JobTable.Jobs.GetJobPid` | shlab/tsh.c:552-561 | the first slot with the pid, or none |
| `JobTable.Jobs.GetJobJid` | shlab/tsh.c:564-574 | the first slot with the job id, or none |
| `JobTable.AddedKeeps` | shlab/tsh.c:498-521 | adding a new pid to a well-kept table with room keeps it well kept, lists exactly one pid more and moves no job |
| `JobTable.AddedMarks` | shlab/tsh.c:506-511 | the new job is in the state it was started in and has the next job id, no other job changes state, and the id counts up or starts again at 1 |
| `JobTable.DeletedKeeps` | shlab/tsh.c:524-539 | deleting a listed pid keeps the table well kept, lists exactly one pid less and touches no other job |
| `JobTable.DeletedMarks` | shlab/tsh.c:531-535 | a deleted job has no state, no other job changes state, and the next id is one above the greatest id left |
| `JobTable.WithStateKeeps` | shlab/tsh.c:325-342 | marking a listed job, or a free slot as background, keeps the table well kept and lists the same pids |
| `JobTable.WithStateMarks` | shlab/tsh.c:325-342 | marking a job gives it that state and leaves every other job in its own |
| `ShellRuns.InvNext` | shlab/tsh.c:178-219 | under the two assumptions every step of the main loop, the handler and the children keeps the signal mask, the pids listed and the foreground job consistent |
| `ShellRuns.JobControl` | shlab/tsh.c:381-416 | in every run that meets the two assumptions at most one job is in the foreground, none at the prompt, the listed pids are the unreaped children whenever SIGCHLD can be delivered, and the handler's lookups never fail |
| `ShellRuns.Doomed` | shlab/tsh.c:196-216 | from a state in which a job was forked on a full table, or `fg` works on a slot whose job is being reaped, every run that comes back to the prompt passes through a state that is not sound |
| `ShellRuns.JobControlIff` | shlab/tsh.c:178-219 | a run that is at the prompt was sound throughout (one foreground job at most, none at the prompt, the right pids listed, no lookup failed) if and only if it met the two assumptions |
| `ShellRuns.JobStates` | shlab/tsh.c:196-216 | in every step of a calm run each job's state is what the step says: as started, as `fg` or `bg` asks, stopped or gone as the handler reports, else unchanged |
| `ShellRuns.LookupAccepts` | shlab/tsh.c:325-342 | `fg` accepts exactly the background and stopped jobs, `bg` the foreground and stopped ones |
| `ShellRuns.ForegroundIsWaitedFor` | shlab/tsh.c:352-368 | in every calm run, after a job is started in the foreground or brought there, the shell goes on only once the handler has got a report about this very job |
| `ShellRuns.ForegroundFinishes` | shlab/tsh.c:205-215 | a foreground job that ends brings the shell back to the prompt, SIGCHLD unblocked and the job off the table |
| `ShellRuns.FullTableCrashes` | shlab/tsh.c:398-406 | from every consistent state in which a job has been forked and the table is full, its stopping can lead to a lookup that fails |
| `ShellRuns.FullTableIsReal` | shlab/tsh.c:519-520 | a run from the initial state, with seventeen jobs, crashes that way |
| `ShellRuns.RaceLeavesForeground` | shlab/tsh.c:325-336 | from every consistent state in which fg has tested a job, the handler is about to delete it and no other child has anything to report, the shell can return to the prompt with a foreground slot that has no process |
| `ShellRuns.RaceIsReal` | shlab/tsh.c:325-336 | a run from the initial state ends that way |
| `CommandLine.CutWords` | shlab/tsh.c:238-266 | the loop cuts the buffer, in place, into exactly the words of the line, each ended by a NUL and none overwritten later |
| `CommandLine.ParseLine` | shlab/tsh.c:228-276 | argv points at C strings in the buffer that are exactly the parsed arguments, and the result says background or not |
| `CommandLine.ParseUndoesRender` | shlab/tsh.c:228-276 | any line typed from bare and quoted arguments with any blanks between parses to those arguments, less a last one that starts with & |
| `CommandLine.ParseBlankLine` | shlab/tsh.c:268-269 | a line of blanks has no arguments and counts as background |
| `CommandLine.OpenQuoteDrops` | shlab/tsh.c:258-266 | a quote that is not closed drops the rest of the line |
| `CommandLine.LastCharacterIsBlank` | shlab/tsh.c:237 | the last character counts as a blank whatever it is |
| `BufferedReader.Rio.constructor` | proxylab/csapp.c:837-842 | nothing is buffered: what is unread is the descriptor's input |
| `BufferedReader.Rio.Refill` | proxylab/csapp.c:809-820 | refilling neither loses nor adds a byte, ends despite interrupts, and leaves the buffer empty only at the end of the input |
| `BufferedReader.Rio.Read` | proxylab/csapp.c:805-830 | the caller's buffer gets the next bytes of the stream at the place asked for and nothing else in it changes; 0 means the end of the input, an error loses nothing |
| `BufferedReader.Rio.ReadN` | proxylab/csapp.c:849-864 | exactly the next n bytes, or all that is left, and nothing else in the buffer changes; an error only if the kernel gives one |
| `BufferedReader.Rio.ReadLine` | proxylab/csapp.c:871-893 | the next bytes of the stream, fewer than maxlen, with a newline nowhere but at the end, and ended by one unless maxlen - 1 bytes were reached or the input ran out; then a NUL unless there was nothing to read |
| `BufferedReader.LineIsMaximal` | proxylab/csapp.c:876-890 | a line holds no newline but as its last byte, and ends short of its limit only after a newline or at the end |
| `BufferedReader.LineIsUnique` | proxylab/csapp.c:876-890 | only one length has that property |
| `BufferedReader.PerformAll` | proxylab/csapp.c:849-893 | any mix of block and line calls returns the same pieces however the kernel chunks and interrupts the reads, and each is what its call may return of what the ones before left |
| `BufferedReader.PieceIsUnique` | proxylab/csapp.c:849-893 | for each call and each rest of the input only one piece meets that description |
| `BufferedReader.PiecesAreExplained` | proxylab/csapp.c:849-893 | a list of pieces meets the description, call by call, if and only if it is the one computed |
| `BufferedReader.PiecesAreConsecutive` | proxylab/csapp.c:849-893 | those pieces, joined, are a prefix of the input |
| `BufferedReader.PiecesDrain` | proxylab/csapp.c:849-893 | as many calls as there are bytes, each asking for at least one, return the whole input |
| `IntegerPrinting.SioReverse` | proxylab/csapp.c:226-235 | the string in the buffer is reversed in place |
| `IntegerPrinting.SioLtoa` | proxylab/csapp.c:238-255 | the loops end and leave the printed number as a C string in a buffer with room for it |
| `IntegerPrinting.LtoaIs` | proxylab/csapp.c:238-255 | for every long but the least, the text is the sign and the base-b digits, highest first |
| `IntegerPrinting.DigitCharIs` | proxylab/csapp.c:247 | the digits are 0 to 9 and then the small letters in order |
| `IntegerPrinting.DigitsMinimal` | proxylab/csapp.c:246-248 | k digits mean b^(k-1) <= n < b^k, and the first is 0 only for n = 0 |
| `IntegerPrinting.RoundTrip` | proxylab/csapp.c:238-255 | in every base from 2 to 36 the text parses back to the number if and only if it is not the least long |
| `IntegerPrinting.LtoaOfMin` | proxylab/csapp.c:243-248 | the least long prints as a sign and one character, in every base |
| `ConnectionPool.Pool.constructor` | code_example_textbook/conc/echoservers.c:57-69 | an empty pool that watches the listening descriptor alone |
| `ConnectionPool.FreeSlot` | code_example_textbook/conc/echoservers.c:77-78 | distinct descriptors below FD_SETSIZE, one of them not a client, leave a slot free |
| `ConnectionPool.Pool.AddClient` | code_example_textbook/conc/echoservers.c:73-95 | the new client goes to the first free slot and nothing else moves, both high-water marks rise just enough, and the pool stays consistent: it never runs out of slots |
| `ConnectionPool.Pool.Remove` | code_example_textbook/conc/echoservers.c:118-122 | the client leaves its slot and the read set, and the pool stays consistent |
| `ConnectionPool.Pool.CheckClients` | code_example_textbook/conc/echoservers.c:99-127 | every ready client but a descriptor 0 is served exactly once, the early exit skips none, nready ends at 0 unless descriptor 0 is ready, and exactly those at the end of their input leave |
| `ConnectionPool.Pool.Round` | code_example_textbook/conc/echoservers.c:38-52 | a turn of the main loop keeps the pool consistent, serves each ready client once and watches exactly the clients that stay and the one accepted |
| `WordTable.BumpKeeps` | code_example_textbook/opt/dictionary.c:282-290 | inserting a word, in front or at the end, keeps its bucket the words of the text that hash to it, once each, with their frequencies |
| `WordTable.NotedIsNext` | code_example_textbook/opt/dictionary.c:92-111 | what is counted by looking at one bucket is what the statistics of the text ask for, and ucnt grows with the number of entries |
| `WordTable.StatsMeaning` | code_example_textbook/opt/dictionary.c:92-111 | ucnt is the number of distinct words, llen the greatest length, lcnt the distinct words that long, mcnt the highest frequency if some word repeats and 0 if none does; mstring and lstring are such words |
| `WordTable.StatsKeepFirst` | code_example_textbook/opt/dictionary.c:95-101 | on a tie lstring is the first of the longest words and mstring the first word to have occurred mcnt times |
| `WordTable.TableCounts` | code_example_textbook/opt/dictionary.c:282-290 | a right table answers every word with its number of occurrences and has one entry for it, in the bucket its hash names |
| `WordTable.SameAnswers` | code_example_textbook/opt/dictionary.c:149-150 | two tables for one text agree whatever the hash functions, sizes and find functions |
| `WordTable.ModHashIsRemainder` | code_example_textbook/opt/dictionary.c:119-126 | on ASCII text and tables below 2^25 buckets division hashing is the text, read in base 128, modulo the size |
| `WordTable.AddHashIsSum` | code_example_textbook/opt/dictionary.c:129-136 | additive hashing is the sum of the characters in 32 bits, modulo the size |
| `WordTable.AddHashForgetsOrder` | code_example_textbook/opt/dictionary.c:129-136 | so it does not tell two arrangements of a text apart |
| `WordTable.MixBits` | code_example_textbook/opt/dictionary.c:144 | a step of the rotating hash moves the low 28 bits of value and character combined up by four and brings the four highest bits of the value round |
| `WordTable.CharValueIs` | code_example_textbook/opt/dictionary.c:122-123 | a character counts as the signed byte congruent to its code |
| `WordTable.LowerIs` | code_example_textbook/opt/dictionary.c:33-35 | lowering gives the one string without capitals that equals the text up to case |
| `WordTable.LowerTwice` | code_example_textbook/opt/dictionary.c:33-35 | lowering again changes nothing |
| `WordTable.SameLower` | code_example_textbook/opt/dictionary.c:282-290 | two words have the same lowered form, and so the same bucket and entry, if and only if they are equal up to case |
| `Dictionary.Counters.CountNew` | code_example_textbook/opt/dictionary.c:92-103 | the new statistics after a word's first occurrence |
| `Dictionary.FindRec` | code_example_textbook/opt/dictionary.c:164-181 | the chain, relinked in place, is an acyclic list with the word's frequency raised or the word added at its end; the statistics follow |
| `Dictionary.FindFront` | code_example_textbook/opt/dictionary.c:184-202 | the same, with a new word at the front |
| `Dictionary.FindRear` | code_example_textbook/opt/dictionary.c:205-231 | the same as the recursive one, by a trailing pointer |
| `Dictionary.Lower1` | code_example_textbook/opt/dictionary.c:29-36 | the buffer's string is lowered in place although its length is measured again at each step |
| `Dictionary.Lower2` | code_example_textbook/opt/dictionary.c:39-47 | leaves the same buffer as the slow one |
| `Dictionary.LoweredText` | code_example_textbook/opt/dictionary.c:29-47 | the string left in the buffer is the lowered string, bytes after its end untouched |
| `Dictionary.NewWordGoes` | code_example_textbook/opt/dictionary.c:197-202 | a word not found goes to the front with `find_ele_iter_f` and to the end with the other two |
| `Dictionary.HashMod` | code_example_textbook/opt/dictionary.c:119-126 | the loop over the C string computes the division hash of its text |
| `Dictionary.HashAdd` | code_example_textbook/opt/dictionary.c:129-136 | the loop over the C string computes the additive hash of its text |
| `Dictionary.HashXor` | code_example_textbook/opt/dictionary.c:139-146 | the loop over the C string computes the rotating hash of its text |
| `Dictionary.Table.constructor` | code_example_textbook/opt/dictionary.c:82-90 | an empty table of the given size is right for the empty text |
| `Dictionary.Table.InsertString` | code_example_textbook/opt/dictionary.c:282-290 | with any of the hash, lower and find functions the table stays right, now for the text with the lowered word added: linked lists, buckets, frequencies, statistics and node count; the word's own chain changes as the find function says and no other does |
| `Dictionary.Table.Answers` | code_example_textbook/opt/dictionary.c:282-290 | the linked table answers every word with its number of occurrences, and its counters are the statistics of the text |
| `NgramWindow.Tokenizer.Prime` | code_example_textbook/opt/dictionary.c:342-351 | the first ngram - 1 words fill the buffer, or the text has fewer |
| `NgramWindow.Tokenizer.Collect` | code_example_textbook/opt/dictionary.c:361-374 | walking round the ring joins exactly the last ngram words read |
| `NgramWindow.Tokenizer.GetToken` | code_example_textbook/opt/dictionary.c:330-379 | call number k returns words k to k + ngram - 1 joined by spaces, across every wrap, and NULL exactly when that many words are not left |
| `NgramWindow.CutUndoesJoin` | code_example_textbook/opt/dictionary.c:364-374 | cutting a token at its blanks gives back its words |
| `WordFrequency.WordFreq` | code_example_textbook/opt/dictionary.c:391-396 | the finished table is right for all n-grams of the text in lower case: frequencies, statistics, buckets; asked for any phrase it answers with the number of n-grams equal to it up to case |
| `BubbleSort.SwapRemovesOne` | code_example_textbook/opt/bubble.c:38-43 | swapping two neighbours that are out of order removes exactly one inversion |
| `BubbleSort.SortedHasNone` | code_example_textbook/opt/bubble.c:35-44 | a sequence is sorted if and only if it has no inversions |
| `BubbleSort.SortedIsUnique` | code_example_textbook/opt/bubble.c:20-29 | two sorted arrangements of the same elements are equal, so bubble2 leaves the array bubble1 leaves |
| `BubbleSort.Bubble1` | code_example_textbook/opt/bubble.c:8-18 | the first n elements become sorted, a permutation of what they were, and the rest is untouched |
| `BubbleSort.Bubble2` | code_example_textbook/opt/bubble.c:20-29 | the same for the version that always stores |
| `BubbleSort.BubbleCount` | code_example_textbook/opt/bubble.c:31-48 | sorts, with exactly as many swaps as the array had inversions and 0 + 1 + ... + (n-1) comparisons |
| `BubbleSort.TriangleIs` | code_example_textbook/opt/bubble.c:35-37 | that number of comparisons is n(n-1)/2 |
| `Folds.FoldUpdate` | code_example_textbook/opt/combine.c:878-899 | for an associative and commutative operator, folding a value into any accumulator folds it into all of them together |
| `Folds.CombineAll` | code_example_textbook/opt/combine.c:905-911 | for a commutative monoid any parentheses over all accumulators, in any order, give their fold |
| `Folds.EvalOnto` | code_example_textbook/opt/combine.c:1301-1317 | with an associative operator, adding a parenthesised expression to an accumulator is adding its elements one by one |
| `Folds.FoldPermuted` | code_example_textbook/opt/combine.c:736-747 | for a commutative monoid the order in which elements are folded does not matter |
| `Combine.Combine1` | code_example_textbook/opt/combine.c:9-21 | the result for every destination, also one inside the vector, and nothing else in memory changes |
| `Combine.Combine4` | code_example_textbook/opt/combine.c:80-91 | the fold of the vector as it was, for every operator and every destination |
| `Combine.Combine5` | code_example_textbook/opt/combine.c:133-153 | the same fold by two elements a turn, for every length and every operator |
| `Combine.Combine7` | code_example_textbook/opt/combine.c:1275-1295 | the same fold for every associative operator |
| `Combine.Halves` | code_example_textbook/opt/combine.c:1102-1122 | the same fold for every associative operator with a unit, each half in its own accumulator |
| `Combine.Combine6` | code_example_textbook/opt/combine.c:568-588 | the same fold for every commutative monoid, with two interleaved accumulators |
| `Combine.Unrolled` | code_example_textbook/opt/combine.c:592-1097 | the same fold for every commutative monoid and every unrolled loop: any number of elements a turn, into any number of accumulators, by statements in any order and any parentheses, leftovers into any one, the accumulators combined in any order |
| `Combine.OneAccumulator` | code_example_textbook/opt/combine.c:1299-1541 | the same fold for every associative operator, with any number of elements a turn and any parentheses over them |
| `Combine.Unroll8x4` | code_example_textbook/opt/combine.c:1209-1236 | the same fold for every commutative monoid, by pointer, leftovers in the accumulator that is combined first |
| `CombineLong.AddLaws` | code_example_textbook/opt/combine.h:47-48 | wrapping 64-bit addition with 0 is a commutative monoid |
| `CombineLong.MulLaws` | code_example_textbook/opt/combine.h:36-37 | wrapping 64-bit multiplication with 1 is a commutative monoid |
| `CombineLong.OperatorsAre` | code_example_textbook/opt/combine.h:36-48 | the operators give the true sum and product if and only if these are longs, and differ from them by a multiple of 2^64 otherwise |
| `CombineLong.SumIntoItself` | code_example_textbook/opt/combine.c:9-21 | a sum by combine1 into an element of its own vector is the sum if and only if that element equals the sum of those before it |
| `CombineLong.SumIntoItselfFails` | code_example_textbook/opt/combine.c:9-21 | the sum of [1] into its own element is 0 |
| `CombineLong.SumUnroll20x20` | code_example_textbook/opt/combine.c:853-913 | with the source's own order of statements and grouping of twenty accumulators, the sum of the vector |
| `CombineLong.ProductUnroll12x6` | code_example_textbook/opt/combine.c:719-754 | with the source's own twelve statements a turn into six accumulators, the product of the vector |
| `OverflowTests.CmultOkIsExact` | code_example_textbook/data/tmultcheck.c:7-11 | at every width, dividing the wrapped product back accepts exactly the pairs whose product fits |
| `OverflowTests.TmultOkIsExact` | code_example_textbook/data/tmultcheck.c:62-67 | the word-sized test accepts exactly those pairs and traps exactly on -1 times the least word |
| `OverflowTests.CmultOk2IsExact` | code_example_textbook/data/tmultcheck.c:15-26 | comparing with the quotient of the limit, sign by sign, accepts exactly the same pairs |
| `OverflowTests.CmultOk3IsRight` | code_example_textbook/data/tmultcheck.c:30-40 | the third test is right if and only if x is 0, y is not positive, or y is the quotient itself |
| `OverflowTests.CmultOk3Mistakes` | code_example_textbook/data/tmultcheck.c:30-40 | it rejects 1 * 1 and accepts 127 * 127 for chars |

## Left out

- Counters, clocks, frequencies, job ids, `front` and `rear` are mathematical integers: their wrap-around is not modelled.
- The semaphore protocols of `rw1.c`, `rw2.c` and `rw3.c` are steps on immutable states, as any number of threads share the variables: no class stands for the globals, and a semaphore is its value (who is woken first is left open).
- Liveness: starvation of writers or readers is neither excluded nor shown.
- Address decoding in the simulator (`GetDecimalBit` shifts an `int` by up to 64 bits): set and tag are given.
- Cache runs with an eviction that finds no timer below 999999 and does not have the oldest line last keep only the theorems about the counters and the shape of the sets: they are not LRU (`LruRuns.RunIsLruIff`).
- Shell runs that fork with a full table, or reap a job inside `fg`, have no job-control theorem: it fails in each of them that comes back to the prompt (`ShellRuns.JobControlIff`).
- In the shell: job command lines, `quit`, `jobs`, argument checks of `fg` and `bg`, the SIGINT and SIGTSTP handlers, printing; `fgpid`, `addjob`, `deletejob` and the lookup with its state test are single steps of the interleaving; job ids are not unique and nothing is claimed of them.
- CommandLine.ParseLine: does not model the capacities of `argv` and of the static buffer; the buffer is as long as the line needs.
- BufferedReader.Rio.ReadN: does not say how many bytes an error loses, only that the rest of the stream is still a suffix.
- IntegerPrinting.SioLtoa: does not model that negating the least long is undefined in C; it wraps.
- ConnectionPool.Pool.AddClient: does not say what happens when `accept` returns FD_SETSIZE or more, because `FD_SET` is undefined there and the server does not test; `ConnectionPool.Pool.Round` inherits this.
- ConnectionPool.Pool.CheckClients: does not model the bytes echoed; the server reads through a copy of the rio buffer that it does not write back.
- `get_word` and its `strtok` cutting of the file, `sort_words` and the printed report, the fixed sizes of the dictionary's character buffers, and n-gram sizes outside 1 to 10.
- The printed ratio of `bubcnt`; `bad_cmult_ok` and `bad_tmult_ok`, which are wrong on purpose.
- Floating-point and division configurations of the combining functions, where the operator is not associative, and the vector-instruction variants.
- The unrolled loops not listed are `Combine.Unrolled` or `Combine.OneAccumulator` at other parameters, and are not instantiated one by one; `unroll4x2as` has the code of `unrollx2as`.
