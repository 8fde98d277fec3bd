# libfutils in Dafny

A model of the six stateful or arithmetical cores of libfutils, with proofs of what they promise.

- **Dynamic mailbox** (`Framing`, `Mailbox`, `Protocol`). The 65536-byte ring buffer is an array with
  cursors that refines a queue of messages. The producer and the consumer are a step system: a test
  under the lock, a read or write of the notification pipe, a wait and a wake-up are single steps.
- **Safe file replacement** (`Crc`, `Safew`, `SafewCrash`). The directory is four optional byte
  strings. Commit and check are methods that log every file operation; the logged sequences are
  replayed by a machine of boots, checks, sessions and commits with a crash between any two operations.
- **List and hash table** (`List`, `Hash`). Heap models: a ring of nodes with inverse pointers, and a
  table whose entries are in a bucket chain and in the insertion list at the same time.
- **Calendar, printer, parser, context** (`Calendar`, `Epoch`, `Decimal`, `TimeText`, `TimeCtx`). The
  reference is the civil calendar counted day by day; `gmtime_r`, `snprintf` and `strtol` are functions.
  `TimeRoundTrip` sets the printer against the parser, `TimeKnown` holds known texts and days.
- **Random** (`Shuffle`, `Sampling`, `Chacha`, `ChachaVector`, `Pool`, `Positional`, `RandomText`, `RandomReach`,
  `RandomHex`, `RandomVectors`). Entropy and raw draws are parameters, so every statement holds for all of them.
- **Varint** (`Varint`). The do-while reader and writer, and ZigZag at the three widths.

`Common` holds the byte type, word sizes and error numbers, `Bytes` the little-endian words and the block
copy.

## What the code does where it is not what one expects

Each point is proved; where a promise fails, the exact condition under which it holds is stated.

- The check departs from its table in include/futils/safew.h:60-85 in two cases, and only there
  (`CheckFollowsTable`): with all four files, a crc.tmp of fewer than four bytes ends it before the
  valid older pair is tried (src/safew.c:528-530); without payload.tmp, a crc of fewer than four bytes
  ends it before the valid crc.tmp is tried (src/safew.c:471-473). Both times it erases everything.
- A check that installs crc.tmp before payload.tmp (src/safew.c:517-520, src/safew.c:535-538) is not
  restartable between the two renames, and an incomplete crc.tmp beside a committed pair loses it. These
  are the two vulnerable moments, runs reach both (`TornOccurs`, `HalfOccurs`), and there are no others
  (`CrashAtomicity`). What a crash there can cost is bounded (`LossIsBounded`).
- A commit with checksum that fails after the checksum names are built also removes the old checksum
  (src/safew.c:286), so the next check erases the old version (`FailedCommitKeepsOld`). A crash during
  that clean-up can still bring back the old or the new version, and nothing else (`LossIsBounded`).
- Opening removes a stale payload.tmp but not a stale crc.tmp (src/safew.c:192-197), which matters only
  without a check in between (`OpenWithoutCheck`).
- The mailbox never loses a wake-up exactly when the pipe holds at least 16384 bytes
  (`PipeCapacityIsExact`). With a smaller pipe, a blocked producer and a consumer that waits for the pipe
  can wait for each other for ever, exactly when one message more than the pipe falls short of 16384, at
  the largest size, would overflow the buffer (`StarvationExactly`).
- An offset with odd seconds is printed without them, an offset of a hundred hours or more and a year
  the format has no room for are printed but not parsed, and January and February of year 0 are parsed
  to another instant; everything else survives (`RoundTripExactly`).
- The day arithmetic of `tm_mkepoch_local` is exact from March of year 0 until 365 times the year passes
  2^32, and wrong everywhere else (`MkEpochExactly`).
- A text with a month above 14, such as 2021-15-01T00:00:00Z, is accepted and makes the conversion read
  outside its table of thirteen entries (src/systimetools.c:567); no other text does
  (`OutOfTableExactly`, `ContextOutOfTable`).
- A date of eight digits, a space, and an hour that starts with T and a space are accepted one by one by
  the context but refused as one text, because ten characters are taken for the date (`HalvesMean`).
- The varint reader looks at the byte behind a maximum-length value (src/varint.c:69-71), so whether
  such a value reads back depends on that byte (`ReadInvertsWrite`, `StreamRoundTrip`). It also looks at
  the byte behind a source that ends inside a value; `LooksBehindExactly` says when it looks. Ten bytes
  that all say another follows, with a zero low nibble behind them, make the 64-bit reader shift by 70
  places at src/varint.c:64 before it fails (`ShiftsPastExactly`).
- Moving a list node onto itself cuts its neighbours apart (`ListMoveOntoItself`).
- The base64 tail moves the draw by 3 bits instead of 6 between its digits (src/random.c:1356). The text
  keeps its canonical form, but of the last pairs of bytes only those can come out whose digits agree
  where they overlap, which ties four of their sixteen bits (`ProducedExactly`, `EveryEncodingExactly`).

## Model

| member | source | states |
|---|---|---|
| Mailbox.DynMbox.constructor | src/dynmbox.c:291-332 | a new box is empty and consistent, for every accepted maximum size |
| Mailbox.DynMbox.Increment | src/dynmbox.c:376-386 | an index moved on wraps once at the end of the buffer |
| Mailbox.SliceExtend | src/dynmbox.c:412-432 | overwriting free bytes behind the used ones, up to the end of the buffer, appends exactly those bytes to the cyclic contents |
| Mailbox.SliceSplit | src/dynmbox.c:438-458 | the cyclic contents are their first chunk, as it lies in the buffer, followed by the contents from the moved cursor |
| Mailbox.DynMbox.RbufWrite | src/dynmbox.c:412-432 | the at most two copies append all the bytes to the cyclic contents, write_idx = (read_idx + used) mod capacity, and nothing already queued changes |
| Mailbox.DynMbox.RbufRead | src/dynmbox.c:438-458 | the copies take exactly the oldest bytes off the contents, in order, and leave the rest of the destination alone |
| Mailbox.DynMbox.DoPush | src/dynmbox.c:460-475 | appends one whole message to the queue if header and payload fit, else -EAGAIN with buffer and queue unchanged |
| Mailbox.DynMbox.DoPeek | src/dynmbox.c:477-494 | returns the oldest message whole and removes it, or -EAGAIN on an empty box; the size assertions of the source hold |
| Mailbox.DynMbox.Push | src/dynmbox.c:496-522 | -EINVAL exactly for a bad size or missing data, -EAGAIN exactly when the frame does not fit, otherwise the message is last in the queue |
| Mailbox.DynMbox.Peek | src/dynmbox.c:592-630 | -EINVAL for no destination, -EAGAIN exactly for an empty queue, otherwise the first message pushed and not yet read |
| Framing.HeaderRoundTrip | src/dynmbox.c:460-475 | the header bytes of a size read back as that size |
| Framing.FramesAppend | src/dynmbox.c:460-475 | the frames of a longer queue are the old frames, then the new header and payload |
| Framing.FirstFrame | src/dynmbox.c:477-494 | reading a header and then that many bytes yields the oldest message and leaves the frames of the rest |
| Framing.FramesInjective | src/dynmbox.c:388-406 | the bytes used determine the queue: equal contents mean equal message sequences, none torn or merged |
| Framing.QueueLengthBound | src/dynmbox.c:460-475 | every queued message takes at least its four header bytes, so the bytes used bound their number |
| Protocol.SoundStep | src/dynmbox.c:496-630 | every step of producer or consumer keeps order, framing, mutual exclusion, and that a sleeping unsignalled producer has no room |
| Protocol.CoveredStep | src/dynmbox.c:272-288 | every step keeps messages <= tokens + pending notification, even when a write to a full pipe is dropped |
| Protocol.ExactStep | src/dynmbox.c:272-288 | with a consumer that waits for the pipe, every step keeps that an equality |
| Protocol.Invariants | src/dynmbox.c:496-630 | the three invariants hold in every state reachable by any interleaving |
| Protocol.FifoDelivery | src/dynmbox.c:460-494 | in every interleaving the messages delivered, then those queued, are the messages accepted, in order |
| Protocol.NoLostWakeup | src/dynmbox.c:506-516 | queued messages never outnumber the tokens in the pipe plus the notification under way |
| Protocol.PollingNeverEmpty | src/dynmbox.c:600-623 | a peek made only when the pipe is readable finds a message, and its notification is never dropped |
| Protocol.NoStuckProducer | src/dynmbox.c:563-579 | a producer asleep and unsignalled while the lock is free lacks room; the box is then not empty and the pipe readable |
| Protocol.CriticalSectionsSucceed | src/dynmbox.c:565-617 | a producer that leaves the waiting loop always finds room in do_push, a consumer past the emptiness test always finds a message, and they never hold the lock together |
| Protocol.BoundedStep | src/dynmbox.c:272-288 | for a pipe of any capacity, every step keeps that messages exceed tokens and pending notifications by at most what the pipe falls short of 16384 |
| Protocol.PeekRound | src/dynmbox.c:592-630 | one whole peek takes the oldest message and lets the sleeping producer look at the space again |
| Protocol.SleeperHasToken | src/dynmbox.c:563-579 | while a producer sleeps and the mutex is free the pipe is readable, if the pipe is large enough or the messages it can leave without a token never fill the buffer |
| Protocol.SleeperFinishes | src/dynmbox.c:541-590 | from every reachable state with a sleeping producer and an idle consumer, peeks alone lead to the message being accepted; a consumer that waits for the pipe needs the condition above |
| Protocol.TimedOutLeaves | src/dynmbox.c:563-590 | from every reachable state with a sleeping producer and an idle consumer, a timeout and the return of the mutex end the push and change nothing else |
| Protocol.PushReturns | src/dynmbox.c:496-522 | a push that does not block returns by itself, and queues its message exactly when it fits |
| Protocol.EmptyPeekReturns | src/dynmbox.c:600-630 | a peek at an empty box returns by itself and changes nothing, the tokens included |
| Protocol.StarvationExactly | src/dynmbox.c:541-630 | producer and polling consumer can end up waiting for each other if and only if that condition fails |
| Protocol.PushEmpty | src/dynmbox.c:496-522 | pushing n empty messages is a possible run, and leaves min(n, pipe capacity) tokens |
| Protocol.PipeCapacityIsExact | src/dynmbox.c:272-279 | no wake-up can be lost if and only if the pipe holds one byte per minimal frame (16384) |
| Crc.CrcFromFile | src/safew.c:50-64 | the reading loop computes the recursively defined checksum, mod 2^32 |
| Crc.KnownChecksums | src/safew.c:50-64 | two published values of this hash |
| Crc.MixIsInjective | src/safew.c:55-59 | the step for one byte loses neither the sum so far nor the byte |
| Crc.FinishIsInjective | src/safew.c:61-63 | nor do the last three steps |
| Crc.OneByteIsDetected | src/safew.c:50-112 | a payload with one byte changed never has the same checksum |
| Bytes.LeRoundTrip | src/safew.c:86-94 | a checksum written as four bytes reads back |
| Safew.ReadCrc | src/safew.c:86-94 | fails exactly when fewer than four bytes are present |
| Safew.CheckPair | src/safew.c:96-112 | succeeds exactly when the checksum file matches the payload |
| Safew.CheckAndRename | src/safew.c:379-554 | the sixteen-case switch performs exactly the renames of the recovery script and returns 0 exactly when a pair survives |
| Safew.InstallCrcFirst | src/safew.c:533-538 | renames the checksum, then the payload |
| Safew.FileCheck | src/safew.c:356-582 | ends in the recovered state and performs exactly the recovery script, operation by operation |
| Safew.RenamesKeepSurvivor | src/safew.c:418-579 | the renames followed by the clean-up leave exactly the surviving pair, or nothing |
| Safew.CheckScriptRecovers | src/safew.c:418-579 | replaying the script operation by operation from any four files gives the recovered state |
| Safew.RecoveryIsSound | src/safew.c:418-579 | recovery ends with a matching pair whose payload is an unchanged candidate, or with nothing; a second check changes nothing; a good pair is kept |
| Safew.CheckFollowsTable | include/futils/safew.h:60-85 | the check keeps the pair its table promises if and only if it does not meet one of the two short checksum files, crc.tmp before a valid older pair or crc before a valid crc.tmp; there it erases all although the table promises a pair |
| Safew.TableIsBroken | include/futils/safew.h:60-85 | both cases at a concrete payload: the table keeps the pair, the check leaves nothing |
| Safew.SafewFile.Fopen | src/safew.c:171-208 | an empty payload.tmp replaces any stale one and nothing else changes |
| Safew.SafewFile.Fwrite | src/safew.c:344-354 | the accepted bytes are appended and a short write sets the failure flag |
| Safew.SafewFile.Rollback | src/safew.c:210-227 | payload.tmp goes, unless the unlink fails, and nothing else changes; -1 exactly when the close or the unlink fails |
| Safew.SafewFile.TmpCrcCreate | src/safew.c:136-169 | on success crc.tmp holds the checksum of payload.tmp; on failure only crc.tmp is touched; the operations performed are the first ones of the commit script |
| Safew.SafewFile.Commit | src/safew.c:229-294 | the whole outcome for every point of failure, 0 exactly when all went well, and exactly which operations were performed; without checksum, payload is what payload.tmp held if it returns 0 and unchanged otherwise, payload.tmp is gone and the checksum files are untouched |
| Safew.PlainCommitIsAtomic | src/safew.c:270-289 | after any number of operations of a commit without checksum, payload is the whole old or the whole new version, the new one at the end exactly on success |
| SafewCrash.MidCommitNext | src/safew.c:262-279 | each operation of a commit leads from one listed intermediate directory to the next |
| SafewCrash.SettledRecovers | src/safew.c:418-579 | each directory that a run can leave behind recovers to the committed version |
| SafewCrash.CheckStaysSettled | src/safew.c:445-538 | a check interrupted anywhere, save between checksum and payload renames, can be started again with the same result; there it leaves a directory of the damaged kind |
| SafewCrash.CommitLeft | src/safew.c:229-294 | a commit interrupted anywhere leaves a directory that recovers, or, while crc.tmp is incomplete, one of the damaged kind |
| SafewCrash.CheckStaysHurt | src/safew.c:418-579 | a check of a damaged directory, interrupted anywhere, leaves a damaged or a recoverable one |
| SafewCrash.HurtRecovers | src/safew.c:418-579 | a damaged directory recovers to the committed version, to nothing, or to the former payload if the checksums coincide |
| SafewCrash.CleanUpLeft | src/safew.c:281-289 | a failed commit interrupted anywhere in its clean-up leaves a damaged directory or one that lost a checksum |
| SafewCrash.CheckStaysDropped | src/safew.c:418-579 | a check of such a directory, interrupted anywhere, leaves one that is damaged, dropped or recoverable |
| SafewCrash.DroppedRecovers | src/safew.c:418-579 | it recovers to the committed version, to nothing, or to the former one |
| SafewCrash.CrashLeft | src/safew.c:171-294 | what a crash leaves at any moment of any state that keeps the invariant |
| SafewCrash.CheckFinishes | src/safew.c:570-579 | a check that ends leaves exactly one of these outcomes, and the committed pair if there was no damage |
| SafewCrash.InvStep | src/safew.c:171-294 | every step of boot, check, open, write, roll-back, commit, failure of a commit at any operation, clean-up and crash keeps the invariant |
| SafewCrash.RunKeepsInv | src/safew.c:171-294 | the invariant holds after every run of sessions and crashes |
| SafewCrash.CrashAtomicity | src/safew.c:356-582 | at every moment of every run without damage a check gives back the committed version with its checksum if and only if the moment is not one of the two vulnerable ones; the version switches when crc.tmp is complete; every finished check, commit or roll-back leaves exactly the committed pair, or what a failed commit left without a checksum |
| SafewCrash.LossIsBounded | src/safew.c:356-582 | in every run, with crashes at vulnerable moments, failed commits, and crashes during clean-up and later checks, a check ends with the committed version, nothing, or the former one, the last only after a failed commit or on equal checksums; later sessions are consistent with what it left |
| SafewCrash.TornOccurs | src/safew.c:136-169 | a run that reaches an incomplete crc.tmp beside any committed version, where a check would erase everything |
| SafewCrash.HalfOccurs | src/safew.c:523-539 | a run that reaches a check between its two renames, for any two different versions, and what a new check would do there |
| SafewCrash.VulnerableLoses | src/safew.c:515-538 | at a vulnerable moment a new check never gives back the committed pair |
| SafewCrash.FailureOccurs | src/safew.c:229-294 | for every operation at which a commit can fail, a run that ends in the directory Commit leaves for that fault, with nothing left to recover |
| SafewCrash.FailedCommitKeepsOld | src/safew.c:281-289 | a failed commit leaves the old version recoverable if and only if it failed before the checksum names were built |
| SafewCrash.OpenWithoutCheck | src/safew.c:192-197 | opening without a check after a crash between the renames of a commit loses the version, save for the stated coincidences of checksums |
| List.ListInit | include/futils/list.h:90-95 | the head alone is a ring |
| List.ListAdd | include/futils/list.h:126-134 | linking between two neighbours gives the ring with the node inserted there, next and prev inverse all around |
| List.ListAddAfter | include/futils/list.h:136-140 | inserts after the node |
| List.ListAddBefore | include/futils/list.h:142-146 | inserts before the node, which for the head is the end of the list |
| List.ListDetach | include/futils/list.h:148-153 | closes the ring without the node between two neighbours |
| List.ListDel | include/futils/list.h:155-160 | removes the node and poisons its pointers |
| List.ListDelInit | include/futils/list.h:162-167 | removes the node and leaves it a ring of its own |
| List.ListReplace | include/futils/list.h:169-176 | the new node takes the place of the old one |
| List.ListMoveAfter | include/futils/list.h:185-190 | removes one node and inserts it after another; with both the same, the outcome of ListMoveOntoItself |
| List.ListMoveBefore | include/futils/list.h:192-197 | removes one node and inserts it before another; with both the same, the outcome of ListMoveOntoItself |
| List.ListMoveOntoItself | include/futils/list.h:185-197 | moving a node after or before itself is harmless only when it is alone; otherwise a neighbour ends up in no ring |
| List.NotInRing | include/futils/list.h:66-68 | a node with a neighbour that does not point back belongs to no ring |
| List.WalkForward | include/futils/list.h:213-214 | terminates and visits every node but the head once, in order |
| List.WalkBackward | include/futils/list.h:216-217 | terminates and visits them in reverse order |
| List.DeleteEach | include/futils/list.h:219-222 | walking safely while deleting the current node visits every original node once and empties the list |
| List.ListLength | include/futils/list.h:253-264 | the number of nodes beside the head |
| List.ListPop | include/futils/list.h:271-280 | takes the first node, or null from an empty list; push is ListAddBefore at the head, so the list is a FIFO |
| List.Spliced | include/futils/list.h:126-134 | the four pointer writes of an insertion make the longer ring |
| Hash.TableSize | src/hash.c:83-92 | the first table entry above the requested size, or the largest |
| Hash.SizesIncrease | src/hash.c:38-44 | the table of sizes is strictly increasing, from 1 to 2147483647 |
| Hash.SizesHaveNoSmallFactor | src/hash.c:38-44 | no size in the table has a prime factor up to 13 other than itself |
| Hash.Hash32IsPolynomial | src/hash.c:51-71 | the hash is the polynomial 5381, b0, b1, b2, b3 at 33, modulo 2^32 |
| Hash.Hash.constructor | src/hash.c:73-108 | an empty, consistent table; its number of buckets is the least of the table of sizes above the one requested, or the largest |
| Hash.Hash.LookupEntry | src/hash.c:227-251 | the chain walk terminates and finds the entry exactly when the map has the key |
| Hash.Hash.Lookup | src/hash.c:253-269 | map lookup, with -EPERM exactly for constant data |
| Hash.Hash.LookupConst | src/hash.c:271-285 | map lookup for data of either kind |
| Hash.Hash.InsertEntry | src/hash.c:145-176 | -EEXIST and no change for a key present, otherwise one entry more, at the end of the insertion order |
| Hash.Hash.Insert | src/hash.c:178-200 | map update for a new key, older entries and their order kept |
| Hash.Hash.InsertConst | src/hash.c:202-225 | the same for constant data |
| Hash.Hash.Remove | src/hash.c:287-322 | -ENOENT and no change, or the one entry with the key leaves map, chain and order and its datum is freed once |
| Hash.Hash.RemoveAll | src/hash.c:110-132 | an empty map, and as a multiset exactly the data of all entries passed to the free callback, each once |
| Hash.Hash.ClearBucket | src/hash.c:110-132 | empties one chain; data freed plus data still stored is conserved |
| Hash.Hash.FreeFirst | src/hash.c:110-132 | takes the first entry of a chain off both structures; data freed plus data stored is conserved |
| Hash.Hash.UnlinkFromBucket | src/hash.c:287-322 | takes one entry out of its chain and leaves every other chain alone |
| Hash.Hash.UnlinkFromList | src/hash.c:287-322 | takes one entry out of the insertion list and frees its datum |
| Hash.Hash.LinkNew | src/hash.c:145-176 | puts one entry at the front of its chain, other chains unchanged, and at the end of the list |
| Hash.PartitionInsert | src/hash.c:145-176 | with unique keys, adding an entry to the chain of its hash keeps every entry in exactly one chain, the right one |
| Hash.PartitionRemove | src/hash.c:287-322 | taking an entry out of order and chain keeps that too |
| Hash.AsMapHas | src/hash.c:227-251 | an entry in the list is what the map holds for its key |
| Hash.AsMapKeys | src/hash.c:227-251 | the map has a key if and only if some entry does |
| Hash.AsMapRemove | src/hash.c:287-322 | with unique keys, dropping an entry drops exactly its key from the map |
| Calendar.PreviousDay | src/systimetools.c:532-582 | every date has a predecessor: the day-by-day walk is invertible |
| Calendar.YearLength | src/systimetools.c:532-582 | the closed form gives a year 366 days exactly in leap years |
| Calendar.DayCountNext | src/systimetools.c:532-582 | the closed-form day count grows by one on the next civil day, leap rules included |
| Calendar.DayCountOfCivil | src/systimetools.c:532-582 | it equals the day-by-day count of the calendar, both ways from 1970-01-01 |
| Calendar.CivilOfDayCount | src/systimetools.c:532-582 | and conversely the date of a day count is the date it was computed from |
| Calendar.DayCountMonotone | src/systimetools.c:532-582 | earlier dates have smaller counts |
| TimeKnown.KnownDays | src/systimetools.c:532-582 | known day numbers around leap days, in leap years, common years and centuries |
| TimeKnown.KnownMonths | src/systimetools.c:534-567 | the day numbers of the first of every month of 2021, which give the month lengths |
| Epoch.ShiftIsExact | src/systimetools.c:540-560 | the unsigned month arithmetic makes March the first month and counts January and February to the year before |
| Epoch.EpochDaysMiss | src/systimetools.c:540-572 | the 32-bit and 64-bit day arithmetic is the closed-form count plus a gap that depends on the shifted year alone |
| Epoch.GapExactly | src/systimetools.c:543-566 | the gap is zero if and only if the shifted year is not negative and 365 times it is below 2^32 |
| Epoch.MonthInTable | src/systimetools.c:535-567 | the month stays inside the table of thirteen entries if and only if it is between -10 and 14 |
| Epoch.MkEpochExactly | src/systimetools.c:532-582 | for every real date and time the epoch is the day-by-day count of seconds less the offset, mod 2^64, if and only if the shifted year is in that span |
| Epoch.MkEpochIsExact | src/systimetools.c:532-582 | the epoch is that count for every date in the span |
| Epoch.EpochIsMonotone | src/systimetools.c:532-582 | later local times have larger epochs for a fixed offset |
| Epoch.NextDayIsADayLater | src/systimetools.c:532-582 | the same time on the next civil day is 86400 seconds later |
| Decimal.NumberOfPadDec | src/systimetools.c:745-790 | a zero-padded decimal reads as its number |
| Decimal.ParseNumOfDigits | src/systimetools.c:86-92 | a string of digits parses whole to its number |
| Decimal.ParseNumForms | src/systimetools.c:86-92 | leading spaces, a sign, then digits to the end parse to the signed number |
| TimeText.LocalFormat | src/systimetools.c:735-794 | the buffer receives the text, cut to its length, and a NUL; -EINVAL and -EOVERFLOW leave it alone |
| TimeKnown.MonthTable | src/systimetools.c:70-83 | the names of the twelve months, as printed |
| TimeKnown.MonthNumbers | src/systimetools.c:108-120 | the same names with their numbers, as parsed |
| TimeKnown.WeekdayTable | src/systimetools.c:59-67 | the names of the seven days |
| TimeKnown.WeekdayMovesOn | src/systimetools.c:776-787 | the weekday moves on by one a day, whatever the time of day, from a Thursday on 1970-01-01 |
| TimeKnown.TextsOfFriday | src/systimetools.c:754-791 | the three whole texts of 2021-03-05 06:07:08, nine and a half hours behind UTC |
| TimeKnown.FridayBothWays | src/systimetools.c:735-818 | they are what is printed for epoch 1614958628, and parse to it |
| TimeKnown.TextsOfEpoch | src/systimetools.c:754-791 | the three whole texts of the beginning of the epoch in Greenwich |
| TimeText.MonthBound | src/systimetools.c:392-434 | an accepted text has a month field between -9 and 99 |
| TimeText.OutOfTableExactly | src/systimetools.c:796-818 | an accepted text makes the conversion read outside its table of days if and only if its month is above 14 |
| TimeRoundTrip.FifteenthMonth | src/systimetools.c:796-818 | the accepted text 2021-15-01T00:00:00Z does so |
| TimeRoundTrip.GmTimeIsExact | src/systimetools.c:691-708 | the broken-down time of a second count converts back to it |
| TimeRoundTrip.ParseDateOfText | src/systimetools.c:126-170 | both ISO date forms read back year, month and day |
| TimeRoundTrip.ParseRfcDateOfText | src/systimetools.c:176-255 | the RFC 1123 date form reads back, and the parser stops right behind it |
| TimeRoundTrip.InvertedReadsBack | src/systimetools.c:392-434 | a time with the month before the day, the day padded or not, reads back every field, under each of the four names of a zero offset |
| TimeRoundTrip.ZeroZoneIsZero | src/systimetools.c:345-377 | Z, UT, GMT and UTC are offset zero |
| TimeRoundTrip.ParseTimeOfText | src/systimetools.c:267-390 | both clock forms read back, with or without a leading T |
| TimeRoundTrip.ParseZoneOfText | src/systimetools.c:330-390 | a printed offset under a hundred hours reads back as its whole minutes |
| TimeRoundTrip.ParseOfText | src/systimetools.c:392-434 | each of the three texts reads back every field |
| TimeRoundTrip.RoundTripAt | src/systimetools.c:735-818 | for years the format can hold, parsing what was printed gives the instant with the seconds of the offset cut off, if and only if the year is in the span of the arithmetic |
| TimeRoundTrip.TextFails | src/systimetools.c:735-818 | outside those years, or from a hundred hours of offset on, no printed text parses |
| TimeRoundTrip.RoundTripExactly | src/systimetools.c:735-818 | for every instant and offset that can be printed, printing then parsing returns both if and only if the offset is whole minutes below a hundred hours and the year is 1 to 9999, or 0 from March on, in the ISO forms, 1000 to 9999 in RFC 1123 |
| TimeRoundTrip.ParseInvertsFormat | src/systimetools.c:735-818 | with a four-digit year and an offset below a hundred hours every printed text parses, and returns epoch and offset if and only if the offset is a whole number of minutes |
| TimeCtx.TimeContext.SetDate | src/systimetools.c:447-475 | return value and new state, including the fields a failing parse leaves overwritten; the state is that of the run of all calls so far |
| TimeCtx.TimeContext.SetHour | src/systimetools.c:477-502 | return value and new state, including the fields a failing parse leaves overwritten; the state is that of the run of all calls so far |
| TimeCtx.TimeContext.SetTime | src/systimetools.c:504-527 | return value and new state, including the fields a failing parse leaves overwritten; the state is that of the run of all calls so far |
| TimeCtx.TimeContext.GetLocal | src/systimetools.c:592-605 | for the calls made on the object so far: the time its accepted texts stand for, or -EINPROGRESS until they are complete |
| TimeCtx.ParseDateTimeIgnoresFields | src/systimetools.c:392-434 | whether a text is accepted never depends on leftovers, and an accepted one overwrites them all |
| TimeCtx.TracksCall | src/systimetools.c:447-527 | every call keeps the fields that count equal to those of the accepted texts alone |
| TimeCtx.RunTracks | src/systimetools.c:447-527 | so does every sequence of calls |
| TimeCtx.Convergence | src/systimetools.c:437-605 | after any calls, the result is a function of the accepted texts alone |
| TimeCtx.ReturnCodes | src/systimetools.c:447-527 | 0 exactly when the call is accepted and completes the context, -EINPROGRESS exactly when it is accepted and does not, -EEXIST exactly when its part was accepted before |
| TimeCtx.FullTimeMeans | src/systimetools.c:504-605 | an accepted full time means what time_local_parse makes of it |
| TimeCtx.HalvesMean | src/systimetools.c:447-605 | an accepted date and hour mean what time_local_parse makes of both with a space between, if and only if it is not eight characters of date before an hour that starts with T and a space |
| TimeCtx.ContextOutOfTable | src/systimetools.c:584-605 | the conversion reads outside its table of days if and only if the accepted month is above 14 |
| TimeCtx.AcceptsFirstGood | src/systimetools.c:447-502 | without full times, the accepted texts are the first good date and the first good hour |
| TimeCtx.OrderDoesNotMatter | src/systimetools.c:447-605 | two interleavings of the same dates and the same hours give the same result |
| Shuffle.SwapElements | src/random.c:1415-1428 | three byte copies exchange two elements of any size and touch no other |
| Shuffle.ShuffleInPlace | src/random.c:1386-1433 | the byte-level loop is the element-level shuffle for the same draws |
| Shuffle.ShuffledIsDraw | src/random.c:1386-1433 | the loop of swaps is repeated drawing from the elements left over |
| Shuffle.ShufflePermutes | src/random.c:1386-1433 | the result is a permutation |
| Shuffle.DrawsAreUnique | src/random.c:1386-1433 | distinct elements: different draws give different orders |
| Shuffle.KnownShuffle | src/random.c:1412-1427 | four elements and the order the draws 1, 2, 0 put them in |
| Shuffle.EveryOrderIsDrawn | src/random.c:1386-1433 | every order is reached, and these draws reach it |
| Shuffle.ShuffleIsABijection | src/random.c:1386-1433 | distinct elements: a sequence is an outcome if and only if it is a permutation, and of exactly one vector of draws |
| Sampling.P2Minus1IsLeastMask | src/random.c:119-129 | the least 2^k - 1 that is at least the argument |
| Sampling.ILog2Plus1IsBitLength | src/random.c:147-187 | the position of the highest bit set |
| Sampling.ByteCountIsExact | src/random.c:782-869 | the bytes drawn cover the mask, and one fewer would not |
| Sampling.DispatchIsTotal | src/random.c:782-869 | the byte count is never above the width of the type, so no switch reaches its abort |
| Sampling.RejectAbove | src/random.c:702-780 | the loop returns the first masked draw within the bound |
| Sampling.RandMaximum | src/random.c:782-869 | the value returned is within the bound, and is the first acceptable draw |
| Sampling.Unbiased | src/random.c:695-869 | for any two results, an involution maps the raw draws that give one onto those that give the other: each result has equally many |
| Sampling.MostDrawsAccepted | src/random.c:702-780 | an injection maps rejected raw draws to accepted ones and misses one, so more than half are accepted |
| Chacha.QuarterRoundInverts | src/random.c:218-228 | the quarter round is undone by its mirror image |
| Chacha.QuarterRoundExample | src/random.c:218-228 | the test vector of RFC 8439, section 2.1.1 |
| ChachaVector.DoubleRoundIsBoth | src/random.c:230-245 | two rounds are a column round and a diagonal round on the square of words, as in RFC 8439, section 2.3 |
| ChachaVector.BlockVector | src/random.c:218-290 | the block of RFC 8439, section 2.3.2, all 64 bytes, from the bytes of key and nonce |
| Chacha.RoundsInvert | src/random.c:230-245 | the twenty rounds are invertible on every state |
| Chacha.QuarterRoundInPlace | src/random.c:218-228 | the in-place form is the quarter round on the four words and leaves the others |
| Chacha.ChachaBlock | src/random.c:230-255 | writes the 64 bytes of the RFC 8439 block of the state, at the place given, and nothing else |
| Chacha.Generator.Init | src/random.c:262-290 | constants, key, zero counter and nonce in their places |
| Chacha.Generator.Get | src/random.c:293-300 | one block, and the 32-bit counter moves on |
| Chacha.Generator.Fill | src/random.c:302-326 | the bytes asked for are the keystream from the current counter, the rest of the buffer is kept, and the counter moves by the blocks used |
| Chacha.BlocksSplit | src/random.c:302-326 | k + n blocks are k blocks, then n blocks from the moved counter |
| Chacha.KeystreamComposes | src/random.c:302-326 | a call for whole blocks followed by another is one combined call, in output and in final state |
| Chacha.KeystreamStarts | src/random.c:302-326 | a keystream starts with the block of the state itself |
| Chacha.CounterMoves | src/random.c:293-300 | each block moves the counter, word 12, by one and no other word |
| Pool.SeedEra.New | src/random.c:451-463 | the global era stays odd through the 32-bit wrap |
| Pool.PieceAt | src/random.c:430-449 | each piece taken out is the part of the stream between the pieces before and after it |
| Pool.PieceIsKeystream | src/random.c:429-588 | each piece is its own part of the keystreams of the seed and of the keys taken out before |
| Pool.KeyedReload | src/random.c:507-532 | a reload loads the keystream of the key in use, and the piece it takes out is the next key |
| Pool.PiecesAreDisjoint | src/random.c:429-588 | any two pieces, of whichever calls since the last seed, are different parts of the stream, the later one behind the earlier |
| Pool.OddIsNotZero | src/random.c:340 | so it is never the era 0 of a fresh pool, which therefore seeds first |
| Pool.RandomPool.Take | src/random.c:430-449 | the bytes at the cursor, in order; they are zeroed and recorded as one more piece |
| Pool.RandomPool.Seed | src/random.c:465-485 | the pool is emptied and takes the new era, seed and key |
| Pool.RandomPool.SeedIfNeeded | src/random.c:487-499 | seeds exactly when the era is not the current one, and otherwise changes nothing |
| Pool.RandomPool.Refill | src/random.c:507-522 | unused bytes move to the front and exactly the missing keystream bytes follow |
| Pool.RandomPool.Reload | src/random.c:507-532 | the whole new state: keystream of the key in use fills the buffer up, one piece of 44 bytes becomes the next key, 468 bytes remain |
| Pool.RandomPool.ReloadIfNeeded | src/random.c:534-543 | the assertion of the source holds; the whole new state, a reload exactly when the bytes available were too few, and otherwise no change |
| Pool.RandomPool.Stir | src/random.c:545-563 | the whole new state: a reload if fewer than 44 bytes are available, then one piece taken out, whose keystream the output is |
| Pool.RandomPool.Rand | src/random.c:565-588 | the whole new state from the old one, or from the seed when the era was outdated: a reload with keystream of the key in use if the bytes are too few, then one piece, which is the output or the key of its own keystream |
| Positional.DigitsOfValue | src/random.c:1200-1292 | digits read as a number are its digits again |
| Positional.ValueOfDigits | src/random.c:1200-1292 | and the number of its digits is the number |
| Positional.Regrouped | src/random.c:1200-1292 | digits whose padding bits are zero are the digits of whole bytes |
| RandomText.PadBitsAreZero | src/random.c:1247-1285 | the padding bits of an incomplete group are cleared |
| RandomText.GroupIsCanonical | src/random.c:1200-1384 | every group written is the RFC 4648 encoding of some bytes, as many as asked for |
| RandomText.TextIsCanonical | src/random.c:1200-1384 | for every count and draws the text is the RFC 4648 encoding of exactly count bytes |
| RandomVectors.Tables | src/random.c:1209-1210 | the alphabets of RFC 4648, tables 1 and 3, digit by digit |
| RandomVectors.Base64F | src/random.c:1294-1384 | the encoding of f by RFC 4648, section 10 |
| RandomVectors.Base64Fo | src/random.c:1294-1384 | the encoding of fo by RFC 4648, section 10 |
| RandomVectors.Base32F | src/random.c:1200-1292 | the encoding of f by RFC 4648, section 10 |
| RandomVectors.Base32Foob | src/random.c:1200-1292 | the encoding of foob by RFC 4648, section 10 |
| RandomVectors.Foobar | src/random.c:1200-1384 | the encodings of foobar by RFC 4648, section 10, in base64 and base32 |
| RandomText.WriteGroup | src/random.c:1226-1286 | the digit loop writes the group |
| RandomText.RandomBase | src/random.c:1200-1384 | a buffer of any length receives the prefix of the same text and a NUL, nothing beyond; the return value does not depend on the length and is at most INT_MAX |
| RandomReach.PairNeedsOverlap | src/random.c:1347-1376 | the digits of a last pair of base64 bytes overlap in the draw, which ties four of the sixteen bits |
| RandomReach.TextReached | src/random.c:1200-1384 | draws that produce the encoding of given bytes, whenever the last pair agrees with the overlap |
| RandomReach.TextFits | src/random.c:1200-1384 | no draws produce any other |
| RandomReach.ProducedExactly | src/random.c:1200-1384 | the encoding of some bytes can come out if and only if their last pair agrees with the overlap |
| RandomReach.EveryEncodingExactly | src/random.c:1200-1384 | every encoding of count bytes can come out if and only if it is base32, or count is not 2 modulo 3 |
| RandomText.HexTextPrefix | src/random.c:1147-1198 | fewer hexadecimal digits are the prefix of more, for the same draws |
| RandomText.RandomBase16 | src/random.c:1147-1198 | the same for base16 |
| RandomHex.HexTextReadsBack | src/random.c:1147-1198 | n digits of base16 text, read as a number, are the low 4n bits of the draws |
| Varint.EncodedFits | src/varint.c:91-113 | a value of 16, 32 or 64 bits takes at most 3, 5 or 10 bytes, and the largest takes that many |
| Varint.KnownEncoding | src/varint.c:101-109 | the codes of 127, 128 and 300 |
| Varint.Ranges | src/varint.c:115-248 | the six ranges of values, in numbers |
| Varint.Write | src/varint.c:91-113 | writes the encoding and nothing behind it, or -EINVAL and nothing; 0 exactly when there is room for 3, 5 or 10 bytes |
| Varint.Read | src/varint.c:51-77 | the length and value of the first code, mod 2^64, or -EINVAL or -EPROTO exactly where the loop fails, for every source and every byte behind it; exactly when it looks at that byte, and exactly when it shifts past 64 bits |
| Varint.ShiftsPastExactly | src/varint.c:63-73 | a byte is shifted by 64 places or more if and only if the width is 64, the source has ten bytes that all say another follows, and the eleventh has a zero low nibble |
| Varint.TenBytesShiftPast | src/varint.c:63-73 | ten bytes 0x80 followed by a zero do so, and are refused |
| Varint.LooksBehindExactly | src/varint.c:63-73 | the loop looks at the byte behind the source if and only if no value ends before the end and before the maximum length and the source is not longer than that |
| Varint.TruncatedLooksBehind | src/varint.c:63-73 | the source of one byte 0x80 makes it look behind |
| Varint.ByteBehindDecides | src/varint.c:67-71 | for the three bytes of 0xffff the byte behind decides between success and -EPROTO |
| Varint.ReadUnsigned | src/varint.c:115-129 | the value cast to the width of the type |
| Varint.ReadSigned | src/varint.c:137-152 | the value cast and unzigzagged |
| Varint.WriteSigned | src/varint.c:154-161 | writes the encoding of the zigzag code |
| Varint.NumberOfEncoded | src/varint.c:51-113 | the encoding stands for its value |
| Varint.ScanEncoded | src/varint.c:63-73 | the length of a code is found wherever it stands; what follows it is not used, but for the low bits of the byte behind one of maximum length |
| Varint.ReadInvertsWrite | src/varint.c:51-113 | reading returns the value written if and only if it is shorter than the maximum or the next byte has a zero low nibble, and fails otherwise |
| Varint.StreamRoundTrip | src/varint.c:51-113 | a concatenation of encodings is read back whole if and only if every maximum-length one is so guarded, and then exactly |
| Varint.ZigZagMagnitude | src/varint.c:154-161 | the code of n is 2n, or -2n - 1 for a negative n |
| Varint.ZigZagIsABijection | src/varint.c:137-161 | at each width ZigZag and its inverse are mutually inverse |
| Varint.SignedRoundTrip | src/varint.c:137-161 | signed values survive under the same condition |

## Left out

- EpochIsMonotone: assumes that neither epoch wraps below zero or at 2^64, where order is lost.
- RoundTripExactly: instants whose local year, or that year plus 1900, does not fit an int; the source then returns -EOVERFLOW or overflows.
- Read: the value is not stated on failure, where the caller may not use it; the source is the whole array.
- RejectAbove: the unbounded rejection loop reads from a finite supply of draws and answers None when it runs out.
- RandomPool: the cipher state of a pool not yet seeded is arbitrary.
- Fwrite: element size one; a write may accept any prefix of the data.
- HeaderBytes: the header is modelled little-endian, as on the supported hosts; nothing but its round trip is used.
- Disk: file operations are atomic and, but for the faults listed in `Fault`, do not fail; renames and unlinks made by a check succeed when their source exists.
- Commits without checksum are described by `Commit` and are not events of the crash machine.
- stdio buffering, fsync, path names, logging and allocation failure.
- Null-argument checks, where they only return -EINVAL, outside the mailbox.
- Deadlines in the blocking push: a timeout may come at any moment.
- Windows, Mach, ThreadX and hexagon branches; sockets, and everything about the pipe but a token count and a capacity.
- Thread-local pools, the entropy system calls, and floating-point random numbers.
- List poison pointers are null; the walk macros over entries are the walks over nodes.
- futils_hash_destroy, and the memory of freed hash entries.
- Clock access in src/systimetools.c, and src/timetools.c, src/mbox.c, src/inotify.c, src/fs.c, src/fdutils.c, src/synctools.c and src/string.c: short arithmetic or thin wrappers over system calls.
