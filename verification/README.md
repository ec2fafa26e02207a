# SocketPro client and server core: a verified model

This project models the parts of the repository whose behaviour is decided by its own code rather
than by the closed network library, and proves what they promise. Every file is one module, and
the modules build on each other the way the original's layers do.

* `SafeDeque`, `DequeRuns`, `SpinDeque`, `SpinProgress`: the array deque of `include/safequeue.h`, as
  a class over an array, then over whole runs (how much memory it takes and how many elements it
  copies), then under any interleaving of threads at the atomic operations of its spin lock, with when
  a call gets through and when it gives up.
* `ByteQueue`, `QueueGrowth`, `QueuePool`: the byte queue `CUQueue`, its 32-bit growth arithmetic
  over whole runs, and the pool that hands queues out.
* `Variants`, `VariantEquality`, `VariantCodec`, `WireForm`, `VariantQueue`: variants and what their
  equality compares, their encoding as functions, byte by byte and as the methods that write and read
  it on the byte queue, and what malformed input does.
* `RowStream`, `RowLayout`, `RowInterruptions`, `RowPeers`: the protocol that streams rows and large
  fields from server to client, as messages and a receiving state machine, as how fields share or fill
  messages, as what a vector leaves behind when its sending stops part-way, then as the two objects that
  send and receive.
* `Callbacks`, `CallbackEvents`, `CallbackOrder`, `CallbackFifo`, `CallbackAccepted`, `AsyncHandler`: how
  replies find the callbacks of their requests, as a state machine over every handler and thread; which
  callbacks a step fires, read off the records; then for one handler against a core that keeps requests
  on the wire, exactly when every reply is right, and in which order each id's records are used up; then
  as the handler object with its methods.
* `CallbackBatches`, `CallbackFlushes`, `CallbackCrossings`: the same question in finer steps, in which
  one thread opens and ends batches while another is sending.
* `JsonValues`, `JsonParse`, `JsonCursor`, `JsonGrammar`, `JsonLanguage`, `JsonBlanks`, `JsonPrint`,
  `JsonPrinter`, `JsonEscape`, `JsonNormalForm`: the JSON parser and printer of
  `include/jsonvalue.h`; the accepted language is stated with the derivation trees of RFC 8259,
  sections 2 to 7, over code points and without the parser's own functions.
* `NumberText`, `DecimalText`, `DateTimes`, `DateFractions`: integers, decimals and packed date-times as
  text.
* `Bytes`, `Wrappers`: machine integers, their little-endian bytes, and optional results.

Where the original changes state step by step, a class or a method does the same and is proved to
compute a function; the laws are then proved about that function. The core network library is an
environment that accepts or refuses a send. Character-set conversions are parameters. Both ends
are taken to be little-endian, and the branches modelled are those for neither Windows, Node.js nor
PHP. The source's assertions on its callers are preconditions; its exceptions are results.

## Findings

* For every constant there is a run from a fresh deque that copies more elements than that per
  element pushed (`DequeRuns.MixedPushesNotAmortised`): pushes that alternate between the two ends,
  with pops between them. From an empty deque with pushes at one end only it is at most two or three.
* A receiver that gets no new rowset header after an interrupted vector delivers the next vector alone
  exactly if the interrupted one had sent neither packed fields nor the end of a large field
  (`RowInterruptions.NextVectorAloneExactly`; `RowInterruptions.OneFieldIsLeft` is an example).
* A reply to a request without callbacks can take another request's record away
  (`CallbackOrder.RecordIsStolen`). In order, when no refused request's record still waits to be taken
  out, all replies are right if and only if at each such reply the first outstanding request with
  callbacks had another id (`CallbackOrder.WrongExactlyByBareIds`). With waiting ones, and in random
  order, the exact condition is `CallbackOrder.RightIfAndOnlyIfUnobstructed`.
* A send that finds a batch open while another thread's commit is half done can leave its record in the
  queue of the batch, so that its reply finds nothing (`CallbackCrossings.RecordIsStranded`); an abort upon
  a refused send can cost the next send its record (`CallbackCrossings.RecordIsTakenBack`). In random
  order, with distinct ids and no such abort, replies are right exactly if each request was sent outside a
  batch or saw a flush, and no abort first, before its reply (`CallbackFlushes.RightIfAndOnlyIfArrived`).
* `Unescape` undoes `Escape` on exactly the strings in which no backslash stands directly before a
  character that `Unescape` looks for (`JsonEscape.UndoneExactly`).
* The decimal parser leaves its cursor on the minus sign, so every text with one, such as "-1"
  (`DecimalText.MinusOneIsLost`), reads as minus zero (`DecimalText.MinusReadsAsZero`); printing and
  parsing restore a decimal exactly if its sign field, its upper 32 bits and its reserved field are zero
  (`DecimalText.RestoredExactly`).
* The date-time parser reads on behind the terminator of texts such as "12:30", exactly of those in which
  a time or a date ends with its first or second number (`DateTimes.ReadPastExactly`).
* `ToDBString` asserts a buffer of at least 28 characters. Over all 64-bit values that is enough exactly
  if there is no fraction, no date, or neither a year of more than four characters nor a fraction of more
  than seven digits (`DateTimes.FitsAsAsked`; `DateTimes.AskedIsTooShort` has two values for which it is
  not); the 32 that the string overload provides are always enough (`DateTimes.TextFits`).

## Model

| member | source | states |
|---|---|---|
| SafeDeque.SafeDeque.PushBack | include/safequeue.h:273-297 | appends the elements to the deque's contents whichever branch is taken (in place, slide to the front, reallocate), with sizes and copied elements as `PushBackGrowth` says, inside the buffer |
| SafeDeque.SafeDeque.PushFront | include/safequeue.h:299-327 | prepends the elements in their order whichever branch is taken (in place, slide to the back, reallocate), with sizes and copied elements as `PushFrontGrowth` says |
| SafeDeque.SafeDeque.PopFront | include/safequeue.h:231-251 | hands back and removes a prefix of the contents, clamped to what is there; 0 and no change when empty |
| SafeDeque.SafeDeque.PopBack | include/safequeue.h:253-271 | hands back and removes a suffix of the contents in order, clamped to what is there |
| SafeDeque.SafeDeque.ShrinkToFit | include/safequeue.h:106-114 | keeps the contents in a buffer of exactly their size |
| SafeDeque.SafeDeque.Clear | include/safequeue.h:160-165 | empties the deque and keeps its buffer |
| SafeDeque.SafeDeque.Swap | include/safequeue.h:167-187 | exchanges the contents, sizes and buffers of two deques |
| DequeRuns.MemoryBound | include/safequeue.h:231-327 | over every run of all four operations the capacity is at most the larger of the initial one and four times the peak number of elements, and header plus count never exceeds it |
| DequeRuns.GrowsExactly | include/safequeue.h:273-327 | a push takes a new buffer, and how large a one, exactly when its end has no room and the content is too large to slide; what it copies otherwise |
| DequeRuns.BackPushesAmortised | include/safequeue.h:231-297 | from an empty deque, every run of back pushes with either pop copies at most two elements inside the deque per element pushed |
| DequeRuns.FrontPushesAmortised | include/safequeue.h:231-327 | from an empty deque, every run of front pushes with either pop copies at most three elements per element pushed |
| DequeRuns.AlternationCopiesAll | include/safequeue.h:231-327 | in a buffer less than half full, pushes that alternate between the ends, with pops between them, copy the whole content at every push |
| DequeRuns.MixedPushesNotAmortised | include/safequeue.h:231-327 | for every constant there is a run of pushes at both ends and pops, from a fresh empty deque of any capacity, that copies more than that many elements per element pushed |
| SpinDeque.Linearizable | include/commutil.h:69-107 | in every run of any number of threads, interleaved at the compare-exchange and at the groups of stores, the calls that got the lock answer as in one sequential run, each at a place between its call and its return, and the memory holds that run's sequence whenever the lock is free; a call whose spin budget ran out returned 0 and has no place |
| SpinDeque.RespectsRealTime | include/commutil.h:69-107 | a call that returned before another was made comes before it in that sequential run |
| SpinDeque.OnlyOwnerStores | include/safequeue.h:231-327 | only the thread that holds the lock stores to the header, the count or the buffer |
| SpinDeque.InvKeepsStoresInBounds | include/safequeue.h:231-327 | no store of any body falls outside the buffer |
| SpinDeque.RunKeepsInv | include/commutil.h:69-107 | every state of a run has one owner at most, who is half-way through its body in a memory that fits the history |
| SpinDeque.BodiesAgreeOnSizes | include/safequeue.h:231-327 | run undisturbed, the three groups of stores leave the sizes that the sequential deque is proved to have |
| SpinDeque.PopsExactly | include/safequeue.h:231-327 | of the sequential run that the calls are compared with: a pop divides the sequence at its end as far as there is something, and undoes a push at the same end |
| SpinProgress.GaveUpAgainstOthers | include/commutil.h:69-90 | over every run, a finished call of positive size without a place in the history made exactly as many tries as its spin budget, at least one, and at each of them another thread held the lock |
| SpinProgress.GetsThroughAlone | include/safequeue.h:231-327 | in every reachable state with the lock free, the next five actions of a spinning thread alone finish its call: the answer is the one the sequence of the history calls for, its place the end of the history, and the lock is free again |
| SpinProgress.NeverBlocked | include/safequeue.h:231-327 | in every reachable state the remaining actions of the thread that holds the lock finish its call in the same way |
| ByteQueue.UQueue.Insert | include/membuffer.h:630-676 | splices bytes into the content at a position, or at its end, in each of the four branches (prepend in place, append in place, compact and shift, reallocate) |
| ByteQueue.UQueue.InsertGrowing | include/membuffer.h:652-675 | reallocates to the computed capacity and splices |
| ByteQueue.UQueue.Push | include/membuffer.h:549-551 | appends to the content |
| ByteQueue.UQueue.Discard | include/membuffer.h:861-880 | removes a clamped slice of the content and tells its length |
| ByteQueue.UQueue.Pop | include/membuffer.h:889-907 | hands back and removes exactly the slice asked for, or fails and changes nothing |
| ByteQueue.UQueue.Replace | include/membuffer.h:234-255 | replaces a slice of the content by bytes of any other length |
| ByteQueue.UQueue.SetNull | include/membuffer.h:265-274 | leaves the content as it was with four zero bytes behind it |
| ByteQueue.UQueue.SetSize | include/membuffer.h:500-514 | the content becomes the next bytes of the buffer, moved to its front if asked |
| ByteQueue.UQueue.SetHeadPosition | include/membuffer.h:565-570 | takes bytes before the head back into the content |
| ByteQueue.UQueue.ResetHeadPosition | include/membuffer.h:577-587 | moves the content to the front of the buffer unchanged |
| ByteQueue.UQueue.ReallocBuffer | include/membuffer.h:607-623 | a new buffer with the longest prefix of the content that fits |
| ByteQueue.UQueue.CleanTrack | include/membuffer.h:589-602 | zeroes everything outside the content |
| QueueGrowth.GrowthArithmetic | include/membuffer.h:652-668 | up to 2^30 bytes of content and block size, a growth wraps no 32-bit expression, more than doubles the capacity and overshoots the need by no more than the bound |
| QueueGrowth.CapacityHoldsExactly | include/membuffer.h:652-668 | for block sizes up to 2^28 the computed capacity holds the result exactly if the unbounded one fits 32 bits or the need reaches the size from which the need itself is taken |
| QueueGrowth.CapacityWraps | include/membuffer.h:652-668 | with two gigabytes of content and one byte more the computed capacity is one block |
| QueueGrowth.RunsNeverWrap | include/membuffer.h:630-676 | over every run of insertions and removals within those limits, all growths fit and the capacity stays at most the larger of the initial one and twice the peak content plus the block size |
| QueuePool.CQPool.Lock | include/membuffer.h:1528-1546 | the queue handed out is in nobody else's hands, shares storage with no other, is empty, has default conversion flags and at least the capacity asked for; its endian and operating-system settings are left out |
| QueuePool.CQPool.Unlock | include/membuffer.h:1548-1555 | takes a held queue back, emptied, for the next user |
| QueuePool.CQPool.ResetSize | include/membuffer.h:1518-1526 | shrinks the idle queues that are too large and touches no held one |
| QueuePool.CQPool.DestroyUQueuePool | include/membuffer.h:1490-1498 | deletes the idle queues only |
| Variants.EqualToItself | include/spvariant.h:22-180 | a variant equals a separate copy of itself exactly if it holds no floating-point NaN as a scalar |
| Variants.EqualBothWays | include/spvariant.h:22-180 | equality is symmetric |
| VariantEquality.EqualExactly | include/spvariant.h:22-180 | two variants compare equal if and only if the first holds no NaN as a scalar, by the fields of IEEE 754, and both stand for the same value: the number of an integer or a currency, the bits of a date, the truth of a Boolean, a float with one zero, the fourteen compared bytes of a decimal, the text, and arrays element by element |
| Variants.CompareVariants | include/spvariant.h:22-180 | the loops with their `equal` and `fixed` flags compute `IsEqual` |
| Variants.CompareCells | include/spvariant.h:66-117 | the loop over fixed-size elements |
| VariantCodec.RoundTrip | include/membuffer.cpp:75-653 | for every variant nested to any depth, in front of any bytes and under any conversions, decoding its encoding gives the converted variant and leaves exactly those bytes |
| VariantCodec.AllRoundTrip | include/membuffer.cpp:228-245 | the same for a sequence of variants, as inside an array of variants |
| VariantCodec.NothingConverted | include/membuffer.cpp:293-653 | with the conversion flags off the converted variant is the variant itself |
| VariantCodec.ReadsBackEqual | include/spvariant.h:22-180 | with the flags off, what is popped equals what was appended, NaN aside |
| VariantCodec.PrefixFree | include/membuffer.cpp:75-291 | no variant's encoding is the beginning of another's |
| Variants.CodesAndWidths | include/linux_win.h:38-85 | the type codes and widths as numbers |
| WireForm.Written | include/membuffer.cpp:75-291 | the encoding byte by byte: the type code, then the memory of a scalar, or the byte length and the units of a text, or the number of elements and the elements of an array |
| WireForm.ReadingExtends | include/membuffer.cpp:293-653 | what is read does not depend on the bytes behind it, which are left over, and the only error is that of a bad serialization |
| WireForm.TruncatedFails | include/membuffer.cpp:293-653 | a variant whose encoding is cut short anywhere is an error, under any conversions |
| WireForm.UnknownCodeFails | include/membuffer.cpp:293-653 | a type code that no variant is written with is an error, whatever follows it |
| WireForm.ConvertedExactly | include/membuffer.cpp:293-653 | which arrays become text and which texts become arrays under the conversion flags, and what becomes of a missing text |
| VariantQueue.PushVariant | include/membuffer.cpp:75-291 | appends exactly the encoding to the queue |
| VariantQueue.PopVariant | include/membuffer.cpp:293-653 | pops what the decoding says, leaves the rest of the queue and returns the number of bytes taken; fails where the decoding fails |
| VariantQueue.PopVariants | include/membuffer.cpp:563-573 | the element loop of an array of variants |
| VariantQueue.PopTexts | include/membuffer.cpp:574-599 | the element loop of an array of strings |
| VariantQueue.Load | include/membuffer.h:986-990 | the reading operator with the queue's own conversion flags |
| RowStream.SessionRoundTrip | include/gencachepeer.h:20-112 | after a header, from any receiver state and for every positive chunk size, the header callback is called with the columns sent and the rows callback with exactly the vectors that are not empty, in order and value for value |
| RowStream.VectorsRoundTrip | include/generalcache.h:90-191 | the same for the vectors after the header, leaving the receiver ready for more |
| RowStream.RowRoundTrip | include/gencachepeer.h:26-70 | wherever the sender splits a row, the receiver gathers the row |
| RowStream.BlobRoundTrip | include/gencachepeer.h:75-96 | a large field cut into chunks of any size arrives as the value the inline path would have given |
| RowStream.UnknownLengthRoundTrip | include/generalcache.h:172-186 | every large field, a text or an array of signed or unsigned bytes under any conversion, may be announced with an unknown length and gets its length from what arrived |
| RowStream.ChunksGather | include/gencachepeer.h:82-91 | the chunks join to the payload |
| RowStream.FieldRoundTrip | include/udatabase.h:808-850 | a field, GUIDs included, is read back from its encoding |
| RowStream.InterruptedVectorIsSilent | include/generalcache.h:90-191 | a vector of which not every message was sent calls nothing |
| RowStream.HeaderRecovers | include/generalcache.h:92-110 | after an interruption the next header forgets what was gathered, and the stream law holds again |
| RowStream.LeftoversWithoutHeader | include/generalcache.h:128-155 | without a header, whatever was left gathered is delivered in front of the next vector |
| RowLayout.BigExactly | include/gencachepeer.h:26-66 | a field is streamed exactly if it is a text or an array of bytes with more than twice as many bytes as the threshold says |
| RowLayout.OpeningMessage | include/gencachepeer.h:75-79 | the first message of a large field: the memory to reserve, the type and the number of bytes, with the least significant byte first |
| RowLayout.PiecesExactly | include/gencachepeer.h:80-96 | every piece of a large field but the last is as long as the threshold, the last is not longer, and joined they are the field |
| RowLayout.RowCut | include/gencachepeer.h:26-70 | the fields before a large one share one message, sent before it if there is any; the fields behind the last large one share the message that ends the vector |
| RowLayout.LengthReplacedExactly | include/generalcache.h:172-180 | a length from 0xffffffe0 on, and no other, is replaced by what arrived |
| RowLayout.MalformedFails | include/generalcache.h:112-186 | a message of fields of which the last is cut short anywhere is refused, and so is an opening message without its first four bytes and a large field without type and length |
| RowLayout.BeginRowsRecovers | include/generalcache.h:107-110 | after a message that begins rows, what an interrupted vector left is forgotten and the next vectors are delivered alone |
| RowInterruptions.LeavesNothingExactly | include/gencachepeer.h:26-96 | a vector interrupted at any point leaves nothing gathered exactly if neither packed fields nor the end of a large field were among the messages sent |
| RowInterruptions.NextVectorAloneExactly | include/generalcache.h:128-155 | the next vector without a header is delivered alone exactly then |
| RowInterruptions.OneFieldIsLeft | include/gencachepeer.h:98-112 | a small field in front of a large one, stopped after the first message, is left behind |
| RowStream.UnregisteredFiresNothing | include/generalcache.h:90-191 | with no callback registered no stream calls one |
| RowPeers.VectorArrivesExactlyIfSent | include/gencachepeer.h:26-112 | the client's rows callback gets the vector if and only if every message of it was accepted |
| RowPeers.CacheBasePeer.SendRows | include/gencachepeer.h:26-70 | the loop that fills and flushes the buffer emits the messages of the row up to the first refused one, whatever the thresholds, and says whether all were accepted |
| RowPeers.CacheBasePeer.SendBlob | include/gencachepeer.h:75-96 | emits the messages of a large field up to the first refused one |
| RowPeers.CacheBasePeer.SendPacked | include/gencachepeer.h:98-112 | flushes the buffer, committing and reopening the batch when it is full |
| RowPeers.CacheBasePeer.SendMeta | include/gencachepeer.h:20-24 | emits the header with the columns and the index, if the core takes it |
| RowPeers.CachedBaseHandler.OnResultReturned | include/generalcache.h:90-191 | each message changes the receiver as `RowStream.Step` says; a failed read calls nothing, and what it had gathered is not stated |
| RowPeers.CachedBaseHandler.GetCachedTables | include/generalcache.h:46-74 | registers the callbacks, and unregisters them if the request, which is a parameter here, is refused |
| RowPeers.CachedBaseHandler.TablesReturned | include/generalcache.h:54-64 | the reply ends the registration, stores the database system and goes to the request's handler if there is one |
| RowPeers.CachedBaseHandler.CleanCallbacks | include/generalcache.h:33-39 | after cleaning no stream of messages calls anything; the base class's cleaning is left out |
| RowPeers.CachedBaseHandler.OnMergeTo | include/generalcache.h:78-88 | all registrations move to the other handler |
| Callbacks.ReachableKeepsInv | include/aclientw.cpp:228-436 | in every state reached by any interleaving of any number of handlers, each live record is in exactly one of callback queue, batch queue, pool and running step; each request fired at most one of result, exception and discarded, and only one it has; a waiting record holds exactly its own request's callbacks |
| Callbacks.StepKeepsInv | include/aclientw.cpp:228-436 | each step keeps that |
| Callbacks.StepConserves | include/aclientw.h:774-807 | each step keeps every live record in exactly one place, reuse, recycling and deletion included |
| Callbacks.NeverStuck | include/aclientw.cpp:414-436 | no reachable queue holds a record that was deleted |
| Callbacks.CleaningReturnsAll | include/aclientw.cpp:377-407 | after cleaning, the records taken are in the pool once each and in no other place |
| CallbackEvents.SweepFires | include/aclientw.cpp:377-407 | in every state with the invariant, cleaning a handler fires the discarded callback of a request if and only if a record of the batch or of the queue holds the request with one; each once, nothing else, those of the batch before those of the queue |
| CallbackEvents.AnsweredExactly | include/aclientw.cpp:323-436 | a reply takes the first record of its id in random order and otherwise the front record if it has the id, and fires the callback the request has for a result or an exception; with no such record it changes nothing |
| CallbackEvents.SentExactly | include/aclientw.cpp:228-263 | a send fills one record, from the front of the pool or new, with the whole request, puts it behind the batch or the queue and changes nothing else |
| CallbackEvents.OthersAreSilent | include/aclientw.cpp:196-300 | no other step fires a callback, records a request or changes what a record holds; only trimming deletes records, and only pooled ones |
| CallbackEvents.MovesExactly | include/aclientw.cpp:91-300 | where a commit, an abort, a merge, recycling, putting back and trimming leave the records, and in which order |
| Callbacks.RefusePlaces | include/aclientw.cpp:265-277 | a refused send loses and duplicates no record, whether its own is still queued or not |
| Callbacks.RefusedExactly | include/aclientw.cpp:265-277 | a refused send recycles its record exactly if it is still where it was queued; then its last place in that queue is closed and nothing else moves, otherwise nothing does |
| CallbackOrder.RightIfAndOnlyIfUnobstructed | include/aclientw.cpp:228-436 | over every run of sends, acceptances, refusals whose records are taken out later, batches and replies, in order or in random order: all replies reached their own requests' records, or none where there was none, if and only if no other request was in the way, as read off the requests alone; then the queues are the records of the requests in line |
| CallbackOrder.DeliversInTurn | include/aclientw.cpp:228-436 | with ids of requests without callbacks kept apart, all replies that come in turn (in order; in random order in wire order per id) reach their own request's record and fire its callback |
| CallbackOrder.WrongExactlyByBareIds | include/aclientw.cpp:428-433 | in order, when no refused request's record still waits at any reply, all replies are right if and only if at each reply to a request without callbacks the first outstanding request with callbacks had another id |
| CallbackOrder.RecordIsStolen | include/aclientw.cpp:428-433 | a run in which the reply to a request without callbacks takes another's record, and that one's own reply finds nothing |
| CallbackOrder.RightExactly | include/aclientw.cpp:414-436 | with the queues in step with the requests, a reply pops its own request's record if and only if it is unobstructed, and then they stay in step |
| CallbackOrder.UnqueueInStep | include/aclientw.cpp:215-226 | a refused send removes its own record and no other, however many requests were sent or answered since |
| CallbackOrder.BatchInStep | include/aclientw.cpp:196-210 | committing and aborting a batch move its records as the core moves its requests |
| CallbackBatches.RightIfAndOnlyIfUnobstructed | include/aclientw.cpp:196-280 | with commits and aborts in two halves each and sends under way across them, over every run in either order: all replies were right if and only if each was due to find its own request's record in the queue, as the acts have filled it; then both queues hold what is due |
| CallbackBatches.RightExactly | include/aclientw.cpp:414-436 | the same of one reply, with the queues in step with what is due |
| CallbackFlushes.RightIfAndOnlyIfArrived | include/aclientw.cpp:196-280 | in random order, with an id of its own for each request with callbacks and no abort upon an undecided or refused send of the batch: all replies were right if and only if each request answered had been sent outside a batch, or had seen a commit's flush, before any abort's cleaning, between its sending and its reply |
| CallbackCrossings.RecordIsStranded | include/aclientw.cpp:196-202 | a send between the halves of a commit, whose record stays in the queue of the batch and whose reply finds nothing |
| CallbackCrossings.RecordIsTakenBack | include/aclientw.cpp:204-226 | an abort upon a refused send lets that send's removal take away the record of the next one, whose reply finds nothing |
| CallbackFifo.FirstInFirstOut | include/aclientw.cpp:414-436 | over every run in either order, with replies of any kind, for each id: what entered the callback queue and was not taken out by a refusal is what replies popped, in order, followed by what still waits |
| CallbackFifo.TakesFirst | include/aclientw.cpp:419-433 | a reply takes the first record of its id and keeps the order of all others |
| CallbackFifo.RandomMissesNone | include/aclientw.cpp:419-427 | in random order a reply that takes none finds that none of its id was there |
| CallbackAccepted.AcceptedFirstInFirstOut | include/aclientw.cpp:228-436 | over every run in either order in which no reply took the record of an undecided or refused send, once none is left: for each id the requests with callbacks that were accepted and committed are those whose records were popped, in order, followed by those that wait |
| AsyncHandler.AsyncServiceHandler.SendRequest | include/aclientw.cpp:228-280 | sending is the beginning step, and the refusing step if the core refuses, which leaves both queues as they were; a reserved id is an error that changes nothing |
| AsyncHandler.AsyncServiceHandler.GetAsyncResultHandler | include/aclientw.cpp:414-436 | the search finds and removes the matching record |
| AsyncHandler.AsyncServiceHandler.OnRR | include/aclientw.cpp:336-355 | a result is the answering step followed by recycling, and goes to the request's own callback, or else to the listeners, or else to the virtual method; an interrupt notice answers nothing |
| AsyncHandler.AsyncServiceHandler.OnSE | include/aclientw.cpp:323-333 | an exception is the answering step followed by recycling, and goes to the virtual method, the request's own callback if it has one, and the listeners |
| AsyncHandler.AsyncServiceHandler.Remove | include/aclientw.cpp:215-226 | the search from the back removes the last occurrence |
| AsyncHandler.AsyncServiceHandler.CommitBatching | include/aclientw.cpp:196-202 | is the committing step: the records of the batch go behind the queue |
| AsyncHandler.AsyncServiceHandler.AbortBatching | include/aclientw.cpp:204-209 | is the aborting step: the records of the batch go behind the pool |
| AsyncHandler.AsyncServiceHandler.CleanQueue | include/aclientw.cpp:91-99 | all records go to the end of the pool in order |
| AsyncHandler.AsyncServiceHandler.CleanCallbacks | include/aclientw.cpp:377-407 | empties both queues, puts all records behind the pool, and fires the discarded callbacks of exactly the records that have one, each at its turn, the batch before the queue |
| AsyncHandler.AsyncServiceHandler.AppendTo | include/aclientw.cpp:292-300 | is the merging step |
| AsyncHandler.RecordPool.Reuse | include/aclientw.h:777-783 | takes the front record, if there is one |
| AsyncHandler.RecordPool.Recycle | include/aclientw.h:785-789 | puts a record to the front |
| AsyncHandler.RecordPool.ClearResultCallbackPool | include/aclientw.h:791-806 | deletes exactly the records behind the remaining ones |
| JsonLanguage.AcceptsExactly | include/jsonvalue.h:529-711 | a text is accepted if and only if it can be derived by the grammar, whose blanks, digits, hexadecimal digits, escapes and plain characters are code points of their own, and the result is the value of every derivation |
| JsonBlanks.BlanksChangeNothing | include/jsonvalue.h:529-548 | spaces, tabs, line feeds and carriage returns in front of any text and behind it change neither its value nor that it has none |
| JsonGrammar.ClassesAgree | include/jsonvalue.h:543-598 | the parser's comparisons pick out exactly the grammar's characters |
| JsonLanguage.Unambiguous | include/jsonvalue.h:529-711 | a text has one meaning, however it is derived |
| JsonLanguage.TreeOf | include/jsonvalue.h:602-711 | every value read has a derivation of the text it took |
| JsonGrammar.ParsesTree | include/jsonvalue.h:602-711 | the text of every derivation, in front of anything that may follow a value, is read to the derivation's value |
| JsonGrammar.ExtractsUnits | include/jsonvalue.h:560-600 | a string's text ends at its own closing quote |
| JsonGrammar.ParsesNumeral | include/jsonvalue.h:616-658 | every number of the grammar is read whole; integers wrap at 64 bits |
| JsonPrint.PrintsAndParses | include/jsonvalue.h:713-804 | what is printed, compact or pretty, with any indentation, is parsed back to the same value, for every tree without doubles, with acceptable strings and integers above -2^63 |
| JsonPrint.PrintedTree | include/jsonvalue.h:713-804 | printed text is a derivation of the value |
| JsonPrint.LaysOutArrays | include/jsonvalue.h:713-789 | compact printing puts nothing between the tokens of an array, pretty printing a line break before every element and before the bracket, indented by the width for each level |
| JsonPrint.LaysOutObjects | include/jsonvalue.h:713-789 | the same for objects, each key in quotation marks before its colon and value |
| JsonNormalForm.Normalises | include/jsonvalue.h:529-804 | printing what was parsed from any accepted text, doubles and the smallest integer aside, parses to the same value |
| JsonNormalForm.MeaningIsPrintable | include/jsonvalue.h:602-711 | every value the parser gives, doubles and the smallest integer aside, can be printed and parsed |
| JsonCursor.Parse | include/jsonvalue.h:529-539 | the cursor's loops compute the parsing function |
| JsonCursor.Cursor.ParseStr | include/jsonvalue.h:602-711 | reads one value, moves forward whenever it succeeds, and never passes the terminator |
| JsonCursor.Cursor.ParseArray | include/jsonvalue.h:687-709 | the array loop |
| JsonCursor.Cursor.ParseObject | include/jsonvalue.h:659-686 | the object loop |
| JsonCursor.Cursor.ParseNumber | include/jsonvalue.h:616-658 | the number branch |
| JsonCursor.Cursor.ExtractString | include/jsonvalue.h:560-600 | the string loop with its escapes |
| JsonCursor.Cursor.SkipWhitespace | include/jsonvalue.h:543-548 | passes spaces, tabs, line feeds and carriage returns, stops at the first other character and tells whether text is left |
| JsonPrinter.Printer.Stringify | include/jsonvalue.h:713-804 | the growing string and the indentation counter produce the printed text and restore the indentation |
| JsonPrinter.Printer.StringifyArray | include/jsonvalue.h:753-774 | the element loop |
| JsonPrinter.Printer.StringifyObject | include/jsonvalue.h:775-798 | the member loop |
| JsonPrinter.Stringify | include/jsonvalue.h:324-329 | prints a whole value |
| JsonValues.PutIsMapUpdate | include/jsonvalue.h:676-676 | assigning a member keeps the keys in order and changes what is found under its key only |
| JsonValues.BeforeExactly | include/jsonvalue.h:75-75 | the order of the keys: a proper beginning first, otherwise the smaller code point at the first difference |
| JsonEscape.UndoneExactly | include/jsonvalue.h:12-59 | `Unescape` undoes `Escape` on exactly the strings without an escapable character right behind a backslash |
| JsonEscape.UnescapesAsBefore | include/jsonvalue.h:12-59 | unescaping does to an escaped string what it does to the string itself |
| JsonEscape.EscapesEach | include/jsonvalue.h:12-36 | escaping puts a backslash before a backslash, a backspace, a form feed, a quotation mark, a tab, either line end and, if asked, a slash, and leaves every other character alone |
| JsonEscape.EscapedIsAcceptable | include/jsonvalue.h:560-600 | an escaped string is accepted whole by the string parser exactly if the string has no control character |
| JsonEscape.StringSurvives | include/jsonvalue.h:97-99 | a string value built from text without control characters survives printing and parsing |
| JsonEscape.Buffer.Escape | include/jsonvalue.h:12-34 | the editing loop escapes |
| JsonEscape.Buffer.Unescape | include/jsonvalue.h:42-59 | the editing loop unescapes |
| NumberText.DigitsRoundTrip | include/definebase.h:434-480 | every unsigned number is read back from its digits, and reading stops right behind them |
| NumberText.SignedRoundTrip | include/definebase.h:411-467 | every signed number but the smallest is read back |
| NumberText.ReadsDigits | include/definebase.h:434-480 | any digits are read to their value reduced to the word |
| NumberText.PrefixesStayBelow | include/definebase.h:434-480 | no intermediate value exceeds the number read, so none overflows |
| NumberText.PlaceValue | include/definebase.h:594-612 | the digit that stands k places before the last is the one worth 10^k |
| NumberText.DigitsExactly | include/definebase.h:594-612 | there are at most k digits exactly if the number is below 10^k |
| NumberText.UnsignedToString | include/definebase.h:545-612 | the digits and the terminator are written inside the buffer even when the 8-bit index wraps after 10 or 20 digits, and start and length select them |
| NumberText.SignedToString | include/definebase.h:515-592 | the same with the sign |
| NumberText.WriteDigits | include/definebase.h:554-560 | the digit loop fills the cells down from its first index and leaves the index before the first digit, 255 if that was cell 0 |
| NumberText.ReadUnsigned | include/definebase.h:434-480 | the shifting loop |
| NumberText.ReadInteger | include/definebase.h:411-467 | the signed loops |
| DecimalText.RestoredExactly | include/commutil.h:150-248 | printing and parsing restore a decimal exactly if sign, upper 32 bits and reserved field are zero, at every scale from 0 to 255 |
| DecimalText.UnsignedRoundTrip | include/commutil.h:150-248 | unsigned decimals keep magnitude and scale |
| DecimalText.ScalesExactly | include/commutil.h:167-170 | the scaling loop does not overflow at any step when the result fits |
| DecimalText.TextExactly | include/commutil.h:234-249 | the printed form of every decimal: a minus sign exactly for a negative number other than zero, digits without needless zeros before the point, as many behind it as the scale says, together the magnitude |
| DecimalText.NegativeTexts | include/commutil.h:234-249 | -123.45 and -0.05 |
| DecimalText.ParsesExactly | include/commutil.h:150-178 | every text without a minus sign: digits, a point, digits and anything that is no digit give the scale and, in 64-bit arithmetic, the magnitude |
| DecimalText.MinusReadsAsZero | include/commutil.h:154-163 | any text with a minus sign reads as minus zero |
| DecimalText.MinusOneIsLost | include/commutil.h:150-248 | -1 is printed as "-1" and read as minus zero |
| DecimalText.ToString | include/commutil.h:234-248 | the insertions into the string produce the printed form |
| DecimalText.ParseDec | include/commutil.h:150-177 | the loops compute the parsing function |
| DateTimes.RestoredExactly | include/definebase.h:816-925 | over all 64-bit values, `ParseFromDBString` restores what `ToDBString` printed exactly for the values `Set` can produce |
| DateTimes.ParsesPrinted | include/definebase.h:816-925 | what parsing the printed form gives, for every 64-bit value |
| DateTimes.SetsOnlySettable | include/definebase.h:781-814 | `Set` produces only such values from times in its asserted ranges |
| DateTimes.UnpackedExactly | include/definebase.h:760-814 | `Set` undoes `GetCTime` on exactly those values |
| DateTimes.PackedExactly | include/definebase.h:760-814 | `GetCTime` undoes `Set` on exactly the times in the fields' ranges, to full hundreds of nanoseconds |
| DateTimes.TextFits | include/definebase.h:816-860 | the printed form and its terminator fit 32 characters |
| DateTimes.FitsAsAsked | include/definebase.h:816-854 | over all 64-bit values, it fits the 28 characters the operation itself asks for exactly if there is no fraction, no date, or neither a year of more than four characters nor a fraction of more than seven digits |
| DateTimes.AskedIsTooShort | include/definebase.h:816-854 | two values whose texts have 28 characters before the terminator: an eight-digit fraction, and the year 10000 |
| DateTimes.UDateTime.Set | include/definebase.h:781-814 | packs the fields |
| DateTimes.UDateTime.GetCTime | include/definebase.h:760-779 | unpacks the fields |
| DateTimes.UDateTime.ToDBString | include/definebase.h:816-854 | prints the form the fields call for |
| DateTimes.ReadPastExactly | include/definebase.h:659-684 | the parser leaves the text exactly if nothing stands behind the first or the second number of a time or of a date, or of the time that a blank behind the date announces |
| DateTimes.MinutesAreReadPast | include/definebase.h:659-668 | hours and minutes alone are such a text |
| DateTimes.UDateTime.ParseFromDBString | include/definebase.h:910-925 | parses the form the separators show, and stores nothing when the cursor would leave the text |
| DateTimes.ReadNanoseconds | include/definebase.h:483-512 | the fraction over exact rationals |
| DateFractions.FractionExactly | include/definebase.h:483-512 | for every one to nineteen digits the fraction is the nearest number of nanoseconds, the upper of two; for at most nine it is exactly the digits' value times the missing power of ten |
| DateFractions.FractionIsStored | include/definebase.h:659-684 | for every time with or without a date and every fraction of one to nineteen digits the nanoseconds are stored in full hundreds, at most those of the last before a second; up to seven digits that is exactly the digits' value times the missing power of ten, and an eighth and a ninth are cut off |
| DateFractions.ParsedForm | include/definebase.h:908-925 | the two forms of the source's comment, with .234 behind the seconds |
| DateFractions.PrintedForm | include/definebase.h:816-850 | one value of each printed form |
| DateFractions.FixedPlaces | include/definebase.h:816-850 | a number that fits its width is printed in that many decimal places |

## Left out

- Doubles: JSON numbers with a fraction or an exponent are kept as their text, and their printed text comes from a parameter; `ToString(double)`, `ToDouble` and rounding are not modelled.
- JsonCursor.Cursor.ParseNumber: keeps a double as its text.
- JsonCursor.Parse: eight-bit text only, because the string loop narrows each wide character to one byte.
- JsonPrint.PrintsAndParses: leaves out the integer -2^63, whose negation overflows when it is printed, and nesting so deep that the 32-bit indentation counter would wrap.
- NumberText.ReadInteger: a signed overflow, undefined in the original, is taken to wrap.
- NumberText.SignedToString: leaves out the smallest integer, whose negation overflows.
- DateTimes.ReadNanoseconds: reads `atof` over exact rationals; a conversion out of range, undefined in the original, is taken to wrap.
- DateFractions.FractionExactly: up to nineteen digits, which is as far as the 64-bit power of ten does not wrap.
- DateFractions.FractionIsStored: hours, minutes and seconds of two digits, dates of years within 10000 of 1900, and up to nineteen digits of a fraction.
- DateTimes.UDateTime.ParseFromDBString: a text that ends early stores nothing, where the original reads on behind the terminator; `DateTimes.ReadPastExactly` says which texts do.
- ByteQueue.UQueue.Insert: asks that the 32-bit capacity it computes holds the result; where that wraps, as at `QueueGrowth.CapacityWraps`, the original overruns its new buffer. `QueueGrowth.CapacityHoldsExactly` says when it does not.
- ByteQueue.UQueue.InsertGrowing: asks the same.
- ByteQueue.UQueue.Push: asks the same.
- ByteQueue.UQueue.Replace: asks the same of the bytes it adds.
- ByteQueue.UQueue.SetNull: asks the same of its terminator.
- ByteQueue.UQueue.Pop: asks that length and position add up within 32 bits; the original adds them with wrap-around.
- QueueGrowth.RunsNeverWrap: limits content and block size to 2^30 bytes; beyond that `QueueGrowth.CapacityHoldsExactly` says when the capacity is right.
- QueuePool.CQPool.Lock: endian and operating-system fields, which the codec does not read.
- VariantQueue.PushVariant: models appending; inserting a variant in mid-buffer ignores the position for strings in the original. It asks for contents of at most 2^30 bytes, where the queue's growth arithmetic is proved not to wrap.
- VariantQueue.PopVariant: pops at position 0; a byte array whose announced size times its width wraps 32 bits, or that exceeds the content while a conversion is on, is an error in the model and unchecked in the original.
- Character-set conversions: functions given as parameters.
- RowStream.SessionRoundTrip: the columns travel as bytes; how column descriptions are serialised is not modelled.
- RowPeers.CacheBasePeer.SendMeta: the same.
- RowPeers.CachedBaseHandler.OnResultReturned: after a failed read only the calls made are stated, not what was gathered before the failure.
- RowPeers.CachedBaseHandler.GetCachedTables: whether the request is accepted is a parameter; sending it is `AsyncHandler.AsyncServiceHandler.SendRequest`.
- RowPeers.CachedBaseHandler.CleanCallbacks: the base class's cleaning is `AsyncHandler.AsyncServiceHandler.CleanCallbacks`.
- SpinDeque.Linearizable: single-deque pushes and pops, single or bulk; operations that lock two deques, copy and move construction and a failed allocation are not modelled, and a group of stores under the lock is one step.
- DequeRuns.MemoryBound: sizes are unbounded; overflow of `size_t` is not modelled.
- CallbackOrder.RightIfAndOnlyIfUnobstructed: one handler; its send lock leaves at most one tracked send undecided, while any number of refused ones may still wait to be taken out; one reply per request. Batches are opened and closed when no send is undecided and no refused one of the batch waits; `CallbackBatches.RightIfAndOnlyIfUnobstructed` has no such limit. Interleavings of several handlers are those of `Callbacks.ReachableKeepsInv`.
- CallbackOrder.DeliversInTurn: the same runs.
- CallbackOrder.WrongExactlyByBareIds: the same runs, without refused records waiting at a reply; with them the condition is that of `CallbackOrder.RightIfAndOnlyIfUnobstructed`.
- CallbackOrder.BatchInStep: the two halves of a commit or an abort are one step; they are two in `CallbackBatches`.
- CallbackFifo.FirstInFirstOut: the same runs, without sweeps and merges.
- CallbackAccepted.AcceptedFirstInFirstOut: the same runs, in which no reply took the record of an undecided or refused send.
- CallbackBatches.RightIfAndOnlyIfUnobstructed: one handler, one reply per request; whether a batch is open is read once per send, at any moment before its record is queued.
- CallbackFlushes.RightIfAndOnlyIfArrived: random order; in order the condition is that of `CallbackBatches.RightIfAndOnlyIfUnobstructed`.
- Callbacks.ReachableKeepsInv: the discarded callbacks of a swept queue are logged when the queue is taken out, and `EraseBack` with `AbortJob` is not modelled, whose loop stops at the count and not at the total.
- AsyncHandler.AsyncServiceHandler.AppendTo: the handlers' own merge hook is `RowPeers.CachedBaseHandler.OnMergeTo`.
- The comparison of JSON values: on trees without doubles it is structural equality, which the laws use directly.
- UQueue string and vector operators other than those of the variant codec, `Swap`, `Empty`.
- The tables and caches of `include/tablecache.h`, configuration, HTTP, TLS, chat, and everything that only forwards to the native library.
