# A verified model of the Let-us-Connect web server

The server is a C program: one reactor thread accepts connections and hands ready ones to a
pool of workers, which read, frame, parse and answer HTTP requests and keep their data in a
dictionary over a heap search tree. This project models that program in Dafny and proves
what it keeps, over every interleaving, every input and every run.

| files | what they model |
|---|---|
| `Server.dfy` | the reactor, the workers, the queue, semaphore, lock, state cells, 256 connection slots and the kernel's descriptors as one transition system |
| `ServerPool`, `ServerTasks`, `ServerSlots`, `ServerConnections`, `ServerReadiness`, `ServerBuffers`, `ServerFraming` | the invariants, each kept by every step |
| `ServerSafety.dfy`, `ServerShutdown.dfy`, `ServerOutcomes.dfy`, `ServerLeftovers.dfy`, `ServerRequests.dfy` | the theorems over reachable states and runs |
| `ServerHistory.dfy`, `ServerPasses.dfy`, `ServerLaws.dfy` | the record of a run's outcomes, and what the server owes to its clients by it |
| `InitHandshake.dfy` | the start of the threads by `thread_pool_init` |
| `Framing.dfy`, `CStrings.dfy`, `LetterCase.dfy` | the read buffer, the completion test, the C string functions they use, and what these make of characters |
| `Pool.dfy`, `ThreadPool.dfy`, `FifoQueue.dfy` | the pool's critical sections, as functions and in place over the linked queue |
| `HttpParser.dfy`, `HttpRequest.dfy` | the in-place request parser, and the function from texts to insertions that it computes |
| `HttpGrammar.dfy`, `HttpFraming.dfy`, `HttpForm.dfy` | that function against the grammar of RFC 9112 and the read buffer, and against the pieces of a form |
| `Dictionary.dfy`, `BinarySearchTree.dfy`, `LinkedList.dfy` | the containers, in the heap |
| `CMockArena.dfy`, `CMockQueues.dfy`, `UnityPrint.dfy`, `Numerals.dfy` | the vendored test support: arena, call chains, decimal printing |

Assumptions. Every store and load of a shared field is one atomic step and memory is
sequentially consistent; a critical section under the pool's lock is one step between taking
and releasing the lock. Both named semaphores start at 0 and waits on them are not
interrupted. The thread that adds work is the one that later destroys the pool. The pool's
size is static. `recv` asked for no byte at all returns 0. The results of system calls, of
the clock and of `malloc` for a task are choices left open at each step; a request handler is
a step that changes nothing of the state modelled. A pointer into a request is an index into
an array of characters; bytes are characters.

Some properties one might expect do not hold of the code, and are replaced by exact ones.

- A claimed slot keeps the bytes its last connection left, so framing is right for every way
  of cutting a request if and only if none are left (`Framing.FramedIffNothingLeftOver`). Such
  slots are reachable (`ServerLeftovers.UnfinishedRequestsAreInherited`), and one that is full is
  never heard through again: every later connection in it is closed unread
  (`ServerLeftovers.FullSlotStaysDeaf`, `ServerLeftovers.FullSlotClosesUnread`).
- A request whose head ends within the buffer is found complete there if and only if the end it
  declares does, the declared number being narrowed to an `int` as `atoi` does
  (`Framing.CompletesInBufferIff`). So a request that declares between 8192 and 2147483647 bytes
  is never parsed (`HttpFraming.DeclaredBeyondBuffer`), but one that declares 4294967296 bytes is
  parsed with its head alone (`HttpFraming.DeclaredNarrowsToNothing`). Where the sum of
  `webserver_project/src/network/thread_pool.c:170` is not an `int`
  (`Framing.SumIsAnInt` says for which numbers), C leaves the outcome undefined, and the model
  compares with the sum itself. A head that does not end within 8191 bytes is never parsed
  (`Framing.LongHeadNeverCompletes`).
- The arena's size computation wraps for the 15 largest sizes and holds the block for all others
  (`CMockArena.RoundedIsEnough`).

Where the repository's own documentation differs, the code is followed: the tree sends
greater nodes to `next` and smaller ones to `previous` of the sought data, the mirror image
of what `DataStructures/Trees/BinarySearchTree.h:17` says, and `direction` is 1 for data
smaller than the returned node, not greater as the comment at
`DataStructures/Trees/BinarySearchTree.c:90` says; `webserver_project/main.c:178` destroys
the pool with SOFT, not HARD as the table in the repository's README says.

## Model

| member | source | states |
|---|---|---|
| ServerSafety.ReachableStatesSatisfyInv | webserver_project/src/network/thread_pool.c:109-253 | the joint invariant (lock, cells, counters, tasks, slots, descriptors, buffers, histories) holds in every state reached by any run of any number of workers |
| ServerSafety.SlotsAreExclusive | webserver_project/src/network/network.c:109-181 | a slot is active and busy exactly if one party holds it (the reactor, a queued task or a worker), never two; workers with unreleased tasks have different slots; `is_active` is set at the keep-alive test; the time-out never hits a held slot |
| ServerSafety.OnlyTheWorkerTouchesItsSlot | webserver_project/src/network/thread_pool.c:149-231 | while a worker has not released its slot, no step of any other thread changes any field of it |
| ServerSafety.ConnectionsAreConserved | webserver_project/src/network/network.c:102-151 | each accepted connection is closed at most once, no close names a descriptor that is not open, and a connection not closed is in the reactor's hand or belongs to exactly one active slot |
| ServerSafety.DescriptorsAreNeverMistaken | webserver_project/src/network/network.c:81-181 | although descriptor numbers are reused, the reactor watches, dispatches and closes, and a worker serves and closes, only the connection the slot was claimed for, and a slot is dispatched only on readiness reported for that connection |
| ServerReadiness.ReactorNeverMistakesConnections | webserver_project/src/network/network.c:159-181 | the reactor's part of it, from the invariants of slots, connections and the select set |
| ServerSafety.NoWakeUpIsLost | webserver_project/src/network/thread_pool.c:112-145 | before shutdown and with the lock free, the semaphore and the woken workers account for `available_work`, which is the queue's length; the branches without work or task are never reached |
| ServerSafety.StatesAreAccounted | webserver_project/src/network/thread_pool.c:115-139 | before shutdown a cell is BUSY exactly from its worker's pop to its finish, and `busy_threads_num` counts these workers |
| ServerSafety.TerminatedIsForever | webserver_project/src/network/thread_pool.c:238-252 | no step overwrites TERMINATED, and from the first one on `busy_threads_num` never changes |
| ServerSafety.DestroyIsComplete | webserver_project/src/network/thread_pool.c:282-326 | when the destroy returns every worker has exited, the executed tasks are a prefix of the added ones, each executed once, the others are in the queue in order, and after SOFT there are none |
| ServerSafety.BuffersAreSound | webserver_project/src/network/thread_pool.c:153-160 | outside a read every slot's buffer has a length below 8192, a NUL at that length, and exactly the bytes heard through the slot since its last completed request; `recv` is never asked for a negative size; the completion test and the parser see those bytes |
| ServerSafety.RequestsAreReplayed | webserver_project/src/network/thread_pool.c:153-221 | in every run the parser has been called through each slot exactly as if the slot's chunks had been read one after the other |
| ServerSafety.FragmentationIndependentInEveryRun | webserver_project/src/network/thread_pool.c:154-221 | in every run of the server, a well-framed request cut in any way and received through a slot with nothing left over is parsed exactly once, as the C string of the whole request, and leaves nothing over |
| ServerSafety.KeptExactlyIfAsked | webserver_project/src/network/thread_pool.c:181-216 | after a request its worker frees the slot for the next one exactly if the request does not ask to close, and closes otherwise |
| ServerHistory.ReachableIffRecorded | webserver_project/src/network/network.c:74-183 | the states that have a record of outcomes (of system calls, the clock, malloc, the parser's input and the reactor's looks at slots) are exactly the reachable ones |
| ServerLaws.ClosedOnlyForAReason | webserver_project/src/network/thread_pool.c:210-230 | in every run a connection is closed only if its stream ended, its last request asked to, its task could not be allocated, it was idle for ten seconds, or every slot was active when it came, as the record shows |
| ServerOutcomes.AgainKeepsTheConnection | webserver_project/src/network/thread_pool.c:224-226 | if `recv` finds no bytes yet, then whatever the others do, the worker's next step leaves the slot idle, otherwise as it was, and its descriptor open |
| ServerOutcomes.GoneClosesTheConnection | webserver_project/src/network/thread_pool.c:227-230 | if it finds the end of the stream or an error, the worker's next step is possible and closes the connection |
| ServerOutcomes.ClosedSlotIsFreed | webserver_project/src/network/thread_pool.c:228-229 | and the one after that frees its slot |
| ServerOutcomes.ClaimTakesAFreeSlot | webserver_project/src/network/network.c:109-127 | a new connection is not refused on any run while some slot is free, and gets one that is not behind it |
| ServerLaws.RefusedOnlyWhenFull | webserver_project/src/network/network.c:111-127 | a connection is refused only when each of the 256 slots was looked at and active |
| ServerLaws.WatchPassIsComplete | webserver_project/src/network/network.c:81-86 | every slot that was idle when looked at is in the select set, and all 256 are looked at |
| ServerLaws.ScanPassIsComplete | webserver_project/src/network/network.c:160-180 | when a scan begins every connection reported ready is still in its slot and idle; when it ends, for each of them a task was added since `select` returned or could not be allocated |
| ServerLaws.TimedOutOnlyWhenIdle | webserver_project/src/network/network.c:322-327 | a time-out closes only a connection that was last claimed, or last left kept by a read, at a clock reading ten seconds or more before the pass |
| ServerLaws.TimeoutPassIsComplete | webserver_project/src/network/network.c:320-329 | a pass closes every connection that was idle when looked at and ten seconds old, and looks at all 256 slots |
| ServerLaws.IdleSlotsWereLeftAlone | webserver_project/src/network/thread_pool.c:210-226 | `last_activity` of an active slot is the clock read at its claim or when it was last kept; an idle slot's connection was last kept after a read, or had no bytes yet; a task is added only if it was allocated |
| ServerLaws.PassesFollowSelect | webserver_project/src/network/network.c:89-103 | announced connections are accepted until there are none before the scan begins; the loop ends exactly when `select` fails; only a SOFT destroy spins |
| ServerRequests.MessageIsServedOnce | webserver_project/src/network/thread_pool.c:153-221 | grammar, framing and interleaving together: in every run, once a message whose first content-length field gives the length of its body has come in through a slot with nothing left over, in any chunks, the parser has been called for it exactly once and stores exactly its method, target, version, fields and its body up to the first NUL |
| ServerLeftovers.UnfinishedRequestsAreInherited | webserver_project/src/network/network.c:109-121 | for every chunk that completes no request there is a run after which a second connection has claimed a slot that still holds the chunk of the first, closed one |
| ServerLeftovers.SlotsCanGoDeaf | webserver_project/src/network/network.c:109-121 | there is a run after which a new connection has claimed a slot whose buffer is full |
| ServerLeftovers.FullSlotStaysDeaf | webserver_project/src/network/thread_pool.c:153-221 | on every run from a state in which a slot's buffer is full and not being read, nothing more is ever received or parsed through it |
| ServerLeftovers.FullSlotClosesUnread | webserver_project/src/network/thread_pool.c:153-156 | a worker that receives through such a slot asks for no byte and goes on to close the slot's connection |
| ServerPool.WorkerKeepsPool | webserver_project/src/network/thread_pool.c:109-253 | every worker step keeps the accounting of lock, cells, exits and wake-ups |
| ServerPool.ReactorKeepsPool | webserver_project/src/network/thread_pool.c:258-326 | every reactor step, adding work and destroying the pool included, keeps it too |
| ServerTasks.WorkerKeepsTasks | webserver_project/src/network/thread_pool.c:131-232 | worker steps pop tasks in the order they were added, execute each in one worker, and lose none |
| ServerSlots.WorkerKeepsSlots | webserver_project/src/network/thread_pool.c:149-231 | worker steps move ownership of slots from the queue to a worker and release it, and keep it exclusive |
| ServerSlots.ReactorKeepsSlots | webserver_project/src/network/network.c:102-181 | claiming, dispatching, dropping and timing out slots keeps ownership exclusive |
| ServerConnections.WorkerKeepsConn | webserver_project/src/network/thread_pool.c:210-230 | between a worker's `close` and its `is_active = 0` the descriptor may be reused without confusion: worker steps keep slots and open descriptors in agreement |
| ServerConnections.ReactorKeepsConn | webserver_project/src/network/network.c:102-151 | so do accepting, rejecting, claiming, dropping and timing out |
| ServerFraming.ReplayRequest | webserver_project/src/network/thread_pool.c:154-221 | reading the chunks of a well-framed request one after the other from an empty buffer parses it exactly once and leaves an empty buffer |
| ServerShutdown.EveryWaiterIsWoken | webserver_project/src/network/thread_pool.c:301-313 | once flags are set, the semaphore plus the posts still to come covers the workers that wait |
| ServerShutdown.ShutdownStepsLowerMeasure | webserver_project/src/network/thread_pool.c:294-326 | during shutdown every step but the SOFT spin lowers a measure, and the spin changes nothing |
| ServerShutdown.ShutdownIsNeverStuck | webserver_project/src/network/thread_pool.c:294-326 | until the destroy returns, some step other than the spin is possible |
| ServerShutdown.ShutdownTerminates | webserver_project/src/network/thread_pool.c:282-326 | from any reachable state in which the destroy was called, every run has a bounded number of steps besides spins, and can go on until the destroy has returned |
| ServerShutdown.DestroyReturns | webserver_project/src/network/thread_pool.c:282-326 | from any such state some run ends with the destroy having returned |
| InitHandshake.EveryThreadTakesItsOwnCell | webserver_project/src/network/thread_pool.c:71-107 | on every run each thread captures its own state cell out of the one rewritten argument block, and none reads the block after it is freed |
| InitHandshake.RewrittenOnlyWhenRead | webserver_project/src/network/thread_pool.c:80-95 | whenever the main thread is about to rewrite or free the block, every thread that exists has read all it needs |
| InitHandshake.NeverStuck | webserver_project/src/network/thread_pool.c:80-92 | the handshake never blocks before the last thread is started |
| InitHandshake.InitReturns | webserver_project/src/network/thread_pool.c:71-98 | no run of the handshake is longer than 8n + 1 steps, and where it ends all n threads work on their own cells and the block is freed |
| Framing.OnlyReceivedBytesMatter | webserver_project/src/network/thread_pool.c:157-176 | the completion test and the parser depend on the received bytes only, not on what an earlier request left behind the NUL |
| Framing.ProperPrefixIsIncomplete | webserver_project/src/network/thread_pool.c:161-176 | no proper prefix of a well-framed request passes the completion test |
| Framing.WholeIsComplete | webserver_project/src/network/thread_pool.c:161-176 | the whole of it does |
| Framing.FragmentationIndependent | webserver_project/src/network/thread_pool.c:154-221 | for every cut of a well-framed request into non-empty chunks the parser is called once, on the last chunk, with the whole request in the buffer (section 6.3 of RFC 9112) |
| Framing.FramedIffNothingLeftOver | webserver_project/src/network/network.c:109-121 | for every slot and every well-framed request: every cut of it is received in full and framed right if and only if the claimed slot has no bytes left over |
| Framing.CompleteFromDeclaredEnd | webserver_project/src/network/thread_pool.c:161-176 | once its head is there, a request is found complete exactly from the end it declares on, for every declared number, narrowed to an int |
| Framing.CompletesInBufferIff | webserver_project/src/network/thread_pool.c:154-176 | for every declared number: the request can be found complete within the buffer if and only if its head fits and the declared end does |
| Framing.OversizeNeverCompletes | webserver_project/src/network/thread_pool.c:154-176 | if the declared end, narrowed to an int, lies beyond the buffer, no part of the request that fits the buffer is found complete |
| Framing.SumIsAnInt | webserver_project/src/network/thread_pool.c:168-170 | for which declared numbers the sum of the two ints is an int |
| Framing.LongHeadNeverCompletes | webserver_project/src/network/thread_pool.c:154-164 | a request without a blank line in its first 8191 bytes is never found complete |
| Framing.ReadState.Receive | webserver_project/src/network/thread_pool.c:154-155 | the received bytes are stored behind those already there, and nothing else changes |
| Framing.ReadState.Clear | webserver_project/src/network/thread_pool.c:207-208 | length and buffer are reset |
| Framing.ReadState.Read | webserver_project/src/network/thread_pool.c:153-221 | one read in place computes one step of the framing function |
| CStrings.StrStr | webserver_project/src/network/thread_pool.c:162 | the first occurrence, or none if there is none |
| CStrings.AToIReadsDigits | webserver_project/src/network/thread_pool.c:168 | on blanks, digits and a non-digit, the number read is the one the digits denote, narrowed to an int |
| CStrings.AToIStopsAtNonDigit | webserver_project/src/network/thread_pool.c:168 | text added behind the digits does not change it |
| LetterCase.AToIReadsSign | webserver_project/src/network/thread_pool.c:168 | a sign in front of the digits counts |
| LetterCase.NarrowMeans | webserver_project/src/network/thread_pool.c:168 | the narrowed number is the int that differs by a multiple of 2^32 |
| ThreadPool.Pool.constructor | webserver_project/src/network/thread_pool.c:33-86 | an empty queue, counters at 0, all cells FREE |
| ThreadPool.Pool.AddWork | webserver_project/src/network/thread_pool.c:258-280 | the section of `add_work` over the linked queue computes the model's step and posts the semaphore |
| ThreadPool.Pool.Enter | webserver_project/src/network/thread_pool.c:114-145 | so does a worker's first section: exit, a popped task, or no work |
| ThreadPool.Pool.Finish | webserver_project/src/network/thread_pool.c:238-252 | and its second one |
| ThreadPool.Pool.TerminateAll | webserver_project/src/network/thread_pool.c:301-307 | the locked loop of the destroy sets every cell and changes nothing else |
| ThreadPool.Pool.PostAll | webserver_project/src/network/thread_pool.c:309-313 | the semaphore is posted once for every worker |
| FifoQueue.Queue.constructor | webserver_project/src/network/fifo_queue.c:6-13 | the queue starts empty and well linked |
| FifoQueue.Queue.PushLast | webserver_project/src/network/fifo_queue.c:16-40 | the contents grow by the task at the end; links stay mirrored, ends right, `size` the chain's length |
| FifoQueue.Queue.PopFirst | webserver_project/src/network/fifo_queue.c:43-68 | the first task is taken off and returned, or EMPTY_QUEUE is returned and nothing changes |
| FifoQueue.Queue.Run | webserver_project/src/network/fifo_queue.c:16-68 | over any sequence of calls, the tasks that the pops returned, followed by the contents, are the contents before followed by the pushed tasks, in order |
| FifoQueue.FirstInFirstOut | webserver_project/src/network/fifo_queue.c:16-68 | the same of the specification, pops of an empty queue included |
| HttpParser.StrTokR | webserver_project/src/parser/http_parser.c:95-97 | one call of `strtok_r` in place yields the token and the rest the specification names, and writes only inside the text |
| HttpParser.TrimWhitespace | webserver_project/src/parser/http_parser.c:77-91 | the string is trimmed in place, and nothing outside it is written |
| HttpParser.LowerKey | webserver_project/src/parser/http_parser.c:117-119 | the key is lower-cased in place |
| LetterCase.LowersTheAlphabet | webserver_project/src/parser/http_parser.c:117-119 | `tolower` maps the upper-case alphabet to the lower-case one, letter by letter, and nothing else |
| LetterCase.SameUpToCaseIsSameLower | webserver_project/src/parser/http_parser.c:117-119 | two texts agree up to letter case exactly if their lower-case forms are the same |
| LetterCase.CaseStrMeans | webserver_project/src/network/thread_pool.c:166-166 | `strcasestr` finds the first occurrence up to letter case, or none if there is none |
| LetterCase.SpacesAre | webserver_project/src/parser/http_parser.c:81-86 | the characters trimmed are the blank and the codes 9 to 13 |
| HttpParser.ReadField | webserver_project/src/parser/http_parser.c:109-121 | a line yields at most one insertion, and nothing outside the line is written |
| HttpParser.ExtractHeaderFields | webserver_project/src/parser/http_parser.c:104-125 | the insertions into the header dictionary are exactly those of the lines, in order |
| HttpParser.ExtractRequestLineFields | webserver_project/src/parser/http_parser.c:93-102 | the first three words are inserted under `method`, `uri` and `http_version`, as far as there are any |
| HttpParser.ReadPair | webserver_project/src/parser/http_parser.c:139-147 | a form piece yields an insertion exactly if it has a `=` |
| HttpParser.ExtractPairs | webserver_project/src/parser/http_parser.c:137-150 | the insertions are those of the pieces, in order |
| HttpParser.ExtractBody | webserver_project/src/parser/http_parser.c:127-154 | the body is inserted under `data` and, under a form content type, its pieces after it |
| HttpParser.CutAt | webserver_project/src/parser/http_parser.c:33-50 | cutting at the first separator leaves the text before it and the text after it |
| HttpParser.Construct | webserver_project/src/parser/http_parser.c:12-67 | the three dictionaries get exactly the insertions of the specification, for every C string and for NULL |
| HttpGrammar.RequestLineParses | webserver_project/src/parser/http_parser.c:93-102 | a request line of three words separated by spaces yields exactly these words |
| HttpGrammar.FieldParses | webserver_project/src/parser/http_parser.c:109-121 | a field line of the grammar yields its lower-cased name and its value without the optional white space |
| HttpGrammar.FieldsParse | webserver_project/src/parser/http_parser.c:104-125 | field lines yield their fields, in order, and nothing else |
| HttpGrammar.SplitsAtBlankLine | webserver_project/src/parser/http_parser.c:33-41 | the head and the body are separated where the grammar separates them |
| HttpGrammar.SplitsAtFirstLine | webserver_project/src/parser/http_parser.c:43-50 | so are the request line and the field lines |
| HttpGrammar.MessageParses | webserver_project/src/parser/http_parser.c:29-66 | for every message of the grammar the parser yields exactly method, target, version, the fields and the body (sections 2.1, 3 and 5 of RFC 9112) |
| HttpGrammar.HeaderOfMessage | webserver_project/src/parser/http_parser.c:104-125 | a field name, compared up to letter case by the two alphabets, maps to the value of its first field line when looked up in lower case; any other key maps to nothing (section 5.1 of RFC 9110) |
| HttpGrammar.CloseIsHeard | webserver_project/src/network/thread_pool.c:181-185 | a message asks to close exactly if its first connection field has the value `close`, both up to letter case |
| HttpGrammar.FormIsDeclared | webserver_project/src/parser/http_parser.c:131-133 | a message's body is taken for a form exactly if its first content-type field, up to letter case, contains `application/x-www-form-urlencoded` |
| HttpForm.BodyOfMessage | webserver_project/src/parser/http_parser.c:127-154 | what a message's body is stored as under each key, from the message alone |
| HttpGrammar.StandardFieldIsValid | webserver_project/src/parser/http_parser.c:104-125 | every field line of section 5 of RFC 9112, spelled out by its characters, is covered by the theorems about fields |
| HttpGrammar.VisibleTextSurvives | webserver_project/src/parser/http_parser.c:77-91 | text that begins and ends visibly survives trimming, whatever white space surrounds it |
| HttpGrammar.MalformedLinesAddNothing | webserver_project/src/parser/http_parser.c:109-115 | a line without a colon, or with only white space before it, adds nothing |
| HttpGrammar.ShortRequestLines | webserver_project/src/parser/http_parser.c:93-102 | of a request line of no, one or two words exactly these are stored |
| HttpGrammar.LongRequestLine | webserver_project/src/parser/http_parser.c:93-102 | of one with more than three words the first three are |
| HttpFraming.LengthFieldIsDeclared | webserver_project/src/network/thread_pool.c:165-168 | if a field is called content-length in any letter case and no earlier line mentions one, its number is the length the completion test finds |
| HttpFraming.NoLengthIsDeclared | webserver_project/src/network/thread_pool.c:165-175 | if no line mentions a content-length, the completion test finds none |
| HttpFraming.MessageIsWellFramed | webserver_project/src/network/thread_pool.c:161-176 | every message of the grammar whose first content-length field gives the length of its body, or that has neither, satisfies the premise of the framing theorems |
| HttpFraming.EveryBodyCanBeSent | webserver_project/src/network/thread_pool.c:161-176 | for every body of up to 8150 bytes there is a message with such a field, so the premise is not empty |
| HttpFraming.DeclaredBeyondBuffer | webserver_project/src/network/thread_pool.c:161-176 | there are requests declaring any number from 8192 to 2147483647, and they are never found complete, whatever follows their heads |
| HttpFraming.DeclaredNarrowsToNothing | webserver_project/src/network/thread_pool.c:168-172 | there is a request declaring 4294967296 bytes, and it is found complete with its head |
| HttpForm.Split | webserver_project/src/parser/http_parser.c:137-150 | the pieces contain no separator and join to the text |
| HttpForm.FormFinds | webserver_project/src/parser/http_parser.c:137-150 | the first insertion under a key is the first piece with that key; empty pieces and pieces without `=` add nothing |
| HttpForm.FirstValueMeans | webserver_project/src/parser/http_parser.c:140-146 | the value of a key is what follows `key=` in the first piece that begins so |
| HttpForm.FormBody | webserver_project/src/parser/http_parser.c:127-154 | `data` maps to the whole body even if the form has a field of that name; every other key to the first piece that has it, or to nothing |
| Dictionary.CompareIsTotalOrder | DataStructures/Dictionary/Dictionary.c:104-118 | the key comparison is a total order whose equality is equality of keys |
| Dictionary.StrCmpIsLexicographic | DataStructures/Dictionary/Dictionary.c:104-118 | the order is that of the first differing characters, and a proper prefix comes first |
| Dictionary.Dict.constructor | DataStructures/Dictionary/Dictionary.c:31-39 | the dictionary starts empty |
| Dictionary.Dict.Search | DataStructures/Dictionary/Dictionary.c:67-90 | the value of the key in the map of first insertions, or nothing |
| Dictionary.Dict.Insert | DataStructures/Dictionary/Dictionary.c:92-99 | the history grows by one, tree and key list follow it |
| Dictionary.FirstInsertCounts | DataStructures/Trees/BinarySearchTree.c:187-197 | a key's value in that map is that of its first insertion; keys never inserted have none |
| Dictionary.KeyListIsDomain | DataStructures/Dictionary/Dictionary.c:98-98 | the key list has exactly the keys of the map |
| HttpForm.LookupIsFirst | DataStructures/Dictionary/Dictionary.c:67-90 | a search after any insertions finds the first one under the key |
| BinarySearchTree.Tree.Iterate | DataStructures/Trees/BinarySearchTree.c:91-134 | the recursion stops at the node and with the direction that descending the shape gives |
| BinarySearchTree.Tree.Search | DataStructures/Trees/BinarySearchTree.c:154-172 | an equal element if there is one, else nothing |
| BinarySearchTree.Tree.Insert | DataStructures/Trees/BinarySearchTree.c:175-199 | the elements grow by the data unless an equal one is there; mirrored order and tree shape are kept in the heap |
| BinarySearchTree.DescendFindsAll | DataStructures/Trees/BinarySearchTree.c:91-134 | on a tree in mirrored order the descent misses no equal element |
| BinarySearchTree.GraftElements | DataStructures/Trees/BinarySearchTree.c:187-197 | hanging a node in where the descent ends keeps the order and adds at most its data |
| BinarySearchTree.GraftLinks | DataStructures/Trees/BinarySearchTree.c:187-197 | it changes one link only, the reported one |
| LinkedList.List.Iterate | DataStructures/Lists/LinkedList.c:85-100 | the node at the index, or none |
| LinkedList.List.Insert | DataStructures/Lists/LinkedList.c:107-131 | the data is inserted at the index, the other elements keep their order |
| LinkedList.List.Retrieve | DataStructures/Lists/LinkedList.c:165-177 | the element at the index, or none |
| LinkedList.List.BinarySearch | DataStructures/Lists/LinkedList.c:199-237 | on a list sorted by a total order, found exactly if an equal element is there; on any list, only valid positions are retrieved, a found element compares equal, and the search ends |
| CMockArena.RoundedIsEnough | webserver_project/tests/cmock/src/cmock.c:49-54 | the rounded size holds the link word and the block exactly for sizes up to 2^64 - 16, and wastes less than 8 bytes |
| CMockArena.Store | webserver_project/tests/cmock/src/cmock.c:73-73 | a stored word reads back, and no other byte changes |
| CMockArena.Arena.MemNew | webserver_project/tests/cmock/src/cmock.c:38-76 | a new aligned block with room for the size behind all others, disjoint from them and unlinked, or NONE exactly if the size is 0 or does not fit, and then nothing changes; for the sizes that wrap, an index that is no address, and no block changes |
| CMockArena.Arena.MemChain | webserver_project/tests/cmock/src/cmock.c:80-124 | an index that is no address is rejected; a block is linked behind the end of the chain, or becomes the chain; links stay forward if and only if that end is older than the block |
| CMockArena.Arena.MemNext | webserver_project/tests/cmock/src/cmock.c:128-151 | the rest of the chain |
| CMockArena.Arena.MemEndOfChain | webserver_project/tests/cmock/src/cmock.c:156-169 | the last block of the chain; the walk ends |
| CMockArena.Arena.MemSet | webserver_project/tests/mocks/MockDictionary.c:168-168 | filling a block changes no link and no other block |
| CMockArena.Arena.MemFreeAll | webserver_project/tests/cmock/src/cmock.c:213-216 | the arena is empty again |
| CMockArena.LinkAppends | webserver_project/tests/cmock/src/cmock.c:103-119 | linking a new block behind an end appends it to the chains with that end and leaves every other chain alone |
| CMockQueues.QueuesAreDisjoint | webserver_project/tests/cmock/src/cmock.c:80-124 | no block is on the queues of two mocked functions |
| CMockQueues.Mocks.Expect | webserver_project/tests/mocks/MockDictionary.c:183-189 | an expected call joins the end of its own function's queue and changes no other queue |
| CMockQueues.Mocks.Call | webserver_project/tests/mocks/MockDictionary.c:123-124 | a call takes the first instance off its own queue, or NONE if there is none |
| Numerals.NumeralReadsBack | webserver_project/tests/unity/unity.c:275-291 | a numeral reads back as its number |
| Numerals.NoLeadingZero | webserver_project/tests/unity/unity.c:275-291 | only zero has a numeral that begins with 0 |
| UnityPrint.PrintedReadsBack | webserver_project/tests/unity/unity.c:260-271 | what is printed for any 64-bit signed number, the minimum included, reads back as that number |
| UnityPrint.Output.PrintNumberUnsigned | webserver_project/tests/unity/unity.c:275-291 | the characters emitted are the numeral of the number, and `divisor` never overflows |
| UnityPrint.Output.PrintNumber | webserver_project/tests/unity/unity.c:260-271 | the characters emitted are the sign and numeral of the number |

## Left out

- Socket set-up, signals, `send_*`, `sendfile`, the file system handler, the routes and the logger: input and output only. A handler is a step without effect on the state modelled.
- `THREAD_POOL_DESTROY_HARD` (cancellation) and the dynamic pool size, whose branch of `add_work` is empty.
- Failed allocations other than that of a task, and the release of memory other than tasks and connections.
- NULL arguments and invalid options of the pool, queue, tree and dictionary functions, which only return an error code.
- Pipelined requests: after a completed request the code drops all bytes, so a second request in the buffer is lost; the framing theorems are about one request at a time.
- The loops of `network_run_server` and `check_keepalive_timeouts` are steps of the transition system, one slot a step, because workers store to the slots between them; the four stores that claim a slot are one step, because no other thread looks at a slot that is not active.
- The pool's critical sections are one step each in the transition system; `ThreadPool.dfy` has their code in place.
- Framing.CompletesInBufferIff: where the sum of the two ints overflows the model compares with the mathematical sum; `Framing.SumIsAnInt` says where.
- 32-bit overflow of `length` and of `position` sums in lists of more than 2^30 elements.
- LinkedList.List.Insert: requires an index in range, because the code follows a null cursor for others.
- BinarySearchTree.Tree.Search: requires a root, because the code does; the dictionary checks for it.
- CMockArena.Arena.MemNew: requires room for a link word where the wrapped size is 0, because the source writes one there without looking.
- CMockArena.Arena.MemChain: not for indices inside a block, where the source takes the bytes in front for a link.
- CMock's dynamic buffer, its byte counters, and the rest of Unity.
- HttpGrammar.MessageParses: covers every message of the grammar but those with obsolete line folding, and more than it (any character but white space, colon and NUL in names; any number of spaces between the words of the request line).
- Characters of the buffer are compared without a locale: `tolower` and `isspace` are those of the C locale.
- `bubble_sort_ll`, which starts at the data pointer of the first element as if it were a node; `linked_list_destructor`, whose loop bound shrinks while it counts up, so that it removes half of the nodes; `remove_node_ll`, which makes the length of an empty list negative.
