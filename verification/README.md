# SEDA-framework: verified model

A Dafny model of the core of SEDA-framework, a staged event-driven server written in C and C++:
the splay tree with sizes that serves as its cache, the bounded task queue with its worker pool, the
receiver and stage handler that feed it, the resumable HTTP request parser, and the framing of the
message queue. `dafny verify dfyconfig.toml` checks the whole project.

| file | models |
|---|---|
| `SplayTree.dfy` | top-down splaying, insertion and deletion as functions on trees; order, map and rank laws |
| `SplayCost.dfy` | the amortised cost of the splay loop |
| `SplayHeap.dfy` | the same operations in place, on nodes with `left`, `right` and `size` fields |
| `SplayWindow.dfy` | for which sets of keys the tree works, exactly |
| `SplayRuns.dfy` | whole runs in place: order, contents, sizes and cost together |
| `HashKeys.dfy` | the string hash that supplies the keys, and what its range means for the comparison |
| `TaskQueue.dfy` | the critical sections of `push` and `pop` |
| `WorkerPool.dfy` | producers, workers, two mutexes and two condition variables, statement by statement |
| `PoolRuns.dfy` | what a push or a turn of a worker adds up to without interruption |
| `LongTasks.dfy` | what `pop` does not guarantee: a queued task beside a sleeping worker |
| `BlockedPush.dfy` | what `push` does not guarantee: a blocked push beside an empty queue |
| `PushingTasks.dfy` | a task that pushes to the pool it runs in |
| `Receiver.dfy` | the element queue whose signal is sent after the unlock |
| `ReceiverRuns.dfy` | what receiving and fetching one element add up to without interruption |
| `StageHandler.dfy` | the stage handler's shared element field |
| `HttpParams.dfy` | the parameters of a request body, cut apart in place |
| `HttpRequest.dfy` | the request state machine and the class around it |
| `RequestText.dfy` | what the machine makes of a printed request in one read |
| `RequestTokens.dfy` | other protocols, carriage returns inside lines, and what leads out of the arrays |
| `RequestChunks.dfy` | and of one that arrives in several reads |
| `RequestCuts.dfy` | exactly which cuts of a printed request are harmless |
| `MessageQueue.dfy` | the frame, its checksum, and the buffer it passes through |
| `Options.dfy` | a value that may be absent |

How the parts fit together:

- **Splay tree.** The class-based methods of `SplayHeap` carry a ghost tree that describes the shape
  below a node and are proved to compute exactly the functions of `SplayTree`; the theorems on order,
  contents, cost and rank are about those functions. The `size` fields are stale along the two spines
  while the main loop runs; `Hangs`, `SidesSized` and `SpineSized` say which of them are exact when.
  `SplayRuns.RunInPlace` puts them together for whole runs on nodes. `int` keys are 32-bit and their subtraction wraps around (two's complement).
- **Threads.** A step is one statement of one thread; any number of threads, any interleaving. A wait
  releases the mutex and sleeps in one step, a signal wakes at least one sleeper if there is one (it
  may wake more), and sleepers may wake without a signal. `PoolRuns.PushRuns` and `PoolRuns.PopRuns` show
  that a run of steps of one thread leads from the start of a `push` or `pop` to the state that the methods
  of `MutexTaskQueue` produce in one go.
- **Requests.** `HttpRequest.Iterate` is one pass through the `switch`; the class method is proved to
  compute its iteration. Where the program would read or write outside an array or follow a null pointer the
  functions answer `Fault`, and the method's precondition excludes it.

Where the code does not do what its comments, its names or its protocol suggest, the model follows the
code, and lemmas state exactly when the expected behaviour does hold:

- `compare` (splaytree.c:53-55) says it is negative exactly when i < j. That fails when the 32-bit
  subtraction overflows (`CompareIsOrderIffFits`); order is kept by every run over a set of keys exactly
  when the keys span less than 2^31 (`OrderKeptIffNarrow`), as the hash guarantees. Around the circle of
  32-bit numbers, every run behaves as a finite map exactly when the keys fit in one half of it
  (`MapKeptIffOneWindow`), and a deletion can lose nodes, and with them exact sizes, exactly when three or
  more keys do not fit (`JoinsKeptIff`).
- Signals are sent only when the queue stops being empty or full (job_queue.cpp:35, 56). No wake-up is
  lost for good, but a second element pushed before the woken worker runs wakes nobody
  (`PushWakesIffQueueWasEmpty`), and with tasks that never end, such as stage.cpp:56-58 queues, it can
  stay queued beside sleeping workers: in a pool of any size but one
  (`StalledWorkersBusyIffOneWorker`, `StallIsPermanent`). Likewise a blocked push waits until the queue has
  been full once more (`BlockedUntilFull`), even when it is empty and nothing else is left to do; that can
  happen, in a pool of any size, if and only if two or more threads push (`EveryPushReturnsIffOneProducer`).
  And a task that pushes to its own pool, as the stage handler's loop does, can bring a pool of any size to
  a stop for good (`PushingTaskCanBlockForGood`, `DeadlockIsPermanent`).
- The stage handler hands elements over in one shared field (stage_handler.cpp:50-53): a task handles
  its own element exactly when nothing was fetched in between (`TaskReadsOwnElementIffNotOvertaken`), and
  nothing is lost exactly when the schedule takes every task in turn (`NothingLostIffEachInTurn`).
- The error state of an unknown method (http_request.cpp:23) is overwritten three lines further on, so that
  no error is ever reported (`ChunksAdvance`). A request without header lines does not reach FINISH in one
  read (`RequestRoundTrip`). The body handed to `get_params` begins with the line feed of the empty line, so
  that the first key does; the parameters come out right exactly when later pairs make up for that, and
  never when keys have no line feeds in them (`BodyRoundTrip`). A body that arrives in the read after the
  head is dropped (`BodyInSecondReadDropped`). The start of a token is forgotten between two calls, so that
  a URL that arrives in two reads loses its first part (`SplitUrlRoundTrip`); `TwoReadsIff` says of every
  position at which a request can be cut whether the two reads give what one read gives.
- `buffer::push_back` never advances the length (buffer.cpp:26-35): all three pushes of an encoding land
  on the first byte, and decoding works because of it (`EncodedKeeps`). A frame whose checksum byte is
  zero loses the last byte of its message (`FrameRoundTrip`, `LostMessage`). The receive buffer is not
  cleared between two reads, so that a frame can be lengthened by what an earlier one left behind it
  (`FrameOverStale`, `SecondFrame`, `LengthenedMessage`).

## Model

| member | source | states |
|---|---|---|
| SplayTree.CompareIsOrderIffFits | splaytree.c:53-55 | The comparison has the sign its comment promises if and only if the 32-bit subtraction does not overflow |
| SplayTree.SplayInOrder | splaytree.c:62-129 | Splaying keeps the in-order sequence of (key, data) pairs, for every tree and key, whatever the comparisons answer |
| SplayTree.SplayKeeps | splaytree.c:62-129 | Hence the key set, the number of nodes, search-tree order (in both directions) and the map represented |
| SplayTree.SplayRootIsLastVisited | splaytree.c:33-36 | The new root is the last node before NULL that an ordinary binary search of the original tree visits |
| SplayTree.SplaySeparates | splaytree.c:71-104 | In an ordered tree without overflow, everything left of the new root is below the key and everything right of it above |
| SplayTree.SplayRootIsNeighbour | splaytree.c:33-36 | The root holds the key if and only if it is present; otherwise it is the key's in-order predecessor or successor |
| SplayTree.InsertRefinesMap | splaytree.c:131-161 | Insertion adds the key only if it is absent and keeps old data otherwise; the tree stays an ordered tree of that map |
| SplayTree.InsertRoot | splaytree.c:131-161 | For every tree and key, whatever the comparisons answer: the node with the key is the root of the result; if a search finds the key that is the node found, and all nodes stay in order; otherwise it is a new one between the nodes before it and those after it |
| SplayTree.DeleteRoot | splaytree.c:163-187 | For every tree and key, whatever the comparisons answer: if a search does not find the key all nodes stay in order; otherwise what came after the node found is left below a root taken from what came before it, and in an ordered tree that is the last of those |
| SplayTree.SplayAboveAll | splaytree.c:176-177 | When every key is below i, splaying by i returns a root without right child |
| SplayTree.DeleteRefinesMap | splaytree.c:163-187 | Deletion removes exactly the given key and nothing else |
| SplayTree.RunRefinesMap | splaytree.c:62-187 | Every run of splays, insertions and deletions over keys spanning less than 2^31 behaves as a finite map; the tree stays ordered with as many nodes as the map has keys |
| SplayTree.OrderKeptIffNarrow | splaytree.c:53 | Every run from the empty tree keeps the order if and only if the keys span less than 2^31 |
| SplayTree.SizeIsCardinality | splaytree.c:5-8 | In an ordered tree the number of nodes, which the root's size field holds, is the number of keys |
| SplayTree.SelectIsInOrder | splaytree.c:5-11 | Walking down by subtree sizes finds the r-th node of the in-order sequence |
| SplayCost.SingleLinkTurns | splaytree.c:71-104 | A link without rotation is followed by a link to the other side or by the end of the loop |
| SplayCost.PartitionCost | splaytree.c:71-104 | Iterations and the potential of both side trees are paid for by the potential of the tree and four times its rank, plus two |
| SplayCost.SplayCost | splaytree.c:62-129 | The same for a whole splay, for six times the logarithm of the size plus two |
| SplayCost.InsertCost | splaytree.c:131-161 | The amortised cost of an insertion |
| SplayCost.DeleteCost | splaytree.c:163-187 | The amortised cost of a deletion, with both its splays |
| SplayCost.AmortisedLogarithmic | splaytree.c:16-19 | Any m operations on trees of at most n nodes take at most (12m + 2n) log2(n+1) + 4m loop iterations, for any starting tree and without any assumption on order |
| SplayCost.LogarithmicFromEmpty | splaytree.c:16-19 | Any m operations from the empty tree take at most m (12 log2(m+1) + 4) loop iterations |
| SplayHeap.RotateRight | splaytree.c:76-80 | The pointers form the rotated tree of the same nodes; only the new root's size is stale |
| SplayHeap.RotateLeft | splaytree.c:90-94 | The mirror image |
| SplayHeap.GoLeft | splaytree.c:74-86 | One iteration to the left is the functional iteration; the right spine grows by the linked node and r_size is its size with its subtrees |
| SplayHeap.GoRight | splaytree.c:88-100 | One iteration to the right, with the left spine and l_size |
| SplayHeap.Dismantle | splaytree.c:67-104 | The loop ends with the two spines, the middle tree and l_size, r_size that the functional loop describes; no node is lost or shared; sizes off the spines stay exact |
| SplayHeap.CorrectSizes | splaytree.c:114-121 | A correction loop gives every spine node the size it will have after the assembly, and visits each once |
| SplayHeap.Assemble | splaytree.c:123-126 | The four assignments form the assembled tree, with exact sizes |
| SplayHeap.SplayInPlace | splaytree.c:62-129 | From exact sizes: the result is the functional splay on the very same nodes, all sizes exact; the three loops make one less than twice the iterations of the main loop |
| SplayHeap.InsertInPlace | splaytree.c:131-161 | The result is the functional insertion with exact sizes and the loops of one splay, using one new node holding key and data exactly when the key was not found |
| SplayHeap.DeleteInPlace | splaytree.c:163-187 | The result is the functional deletion; all sizes are exact if and only if the second splay left nothing to the right of its root; the loops are those of one or two splays |
| SplayHeap.OrderedJoinLosesNothing | splaytree.c:172-182 | In an ordered tree without overflow that is always so |
| SplayHeap.FindRank | splaytree.c:189-209 | This function is compiled out in the source. With exact sizes, returns the node with r nodes to its left, and NULL if and only if there is none |
| SplayWindow.WindowIffNoObstacle | splaytree.c:53 | A set of keys fits in one half of the circle of 32-bit numbers if and only if it has no two opposite keys and no three keys that follow each other all around |
| SplayWindow.MapKeptIffOneWindow | splaytree.c:62-187 | In every run over a set of keys the nodes are the entries of the finite map, each once, if and only if the keys fit in one half of the circle |
| SplayWindow.JoinLosesNothingIff | splaytree.c:172-182 | The join of a deletion loses nothing if and only if the search for the key in the left subtree of its node ends at the right edge |
| SplayWindow.LosingTreeLoses | splaytree.c:172-182 | A tree on which it does not: the deletion loses a node with a different key |
| SplayWindow.JoinsKeptIff | splaytree.c:62-187 | No deletion in any run over a set of keys loses a node if and only if the keys fit in one half of the circle or are at most two |
| SplayRuns.ApplyInPlace | splaytree.c:62-187 | One operation in place is the operation on values, keeps order and exact sizes, and makes at most two loop iterations for each one of the main loop |
| SplayRuns.RunInPlace | splaytree.c:5-19 | Any run from the empty tree over keys that fit in one half of the circle: the nodes form the tree of the run on values, with exact sizes, and are the entries of the finite map, each once; the root's size is the number of its keys; all loops together take at most 2m (12 log2(m+1) + 4) iterations for m operations; with keys spanning less than 2^31 the tree is in integer order |
| HashKeys.PolynomialAppend | utiltools.cpp:19 | Horner's rule for the polynomial named in the comment |
| HashKeys.ShiftAndAdd | utiltools.cpp:19-20 | Modulo 2^32 the two shifts, the addition and the subtraction multiply by 65599 and add the character |
| HashKeys.Hash | utiltools.cpp:14-24 | The loop computes the base-65599 polynomial of the signed characters, modulo 2^32 and masked to 31 bits |
| HashKeys.HashedKeysAreNarrow | utiltools.cpp:23 | Hashed keys span less than 2^31, so that no comparison of two of them overflows |
| HashKeys.HashedRunRefinesMap | utiltools.cpp:14-24 | With hashed keys every run of the tree behaves as a finite map in true integer order |
| TaskQueue.MutexTaskQueue.constructor | job_queue.cpp:4-8 | An empty queue with exact flags and room for 2000 elements |
| TaskQueue.MutexTaskQueue.Push | job_queue.cpp:33-39 | Appends the element, keeps the bound and exact flags, and signals if and only if the queue was empty |
| TaskQueue.MutexTaskQueue.Pop | job_queue.cpp:51-57 | Removes the first element, keeps the bound and exact flags, and signals if and only if the queue was full |
| WorkerPool.ExclusiveKept | job_queue.cpp:28-60 | Every step keeps both mutexes exclusive |
| WorkerPool.ConsistentKeptP | job_queue.cpp:28-42 | Every statement of push keeps the bound, and the flags as exact as its position demands |
| WorkerPool.ConsistentKeptW | job_queue.cpp:44-60 | Every statement of pop does |
| WorkerPool.AlertKeptP | job_queue.cpp:28-42 | Every statement of push keeps the wake-up invariant |
| WorkerPool.AlertKeptW | job_queue.cpp:44-60 | Every statement of pop does |
| WorkerPool.AccountedKeptW | worker_pool.cpp:36-55 | Every statement of a worker keeps each popped task with one worker or finished |
| WorkerPool.TalliedKept | worker_pool.cpp:39-52 | Every step keeps running_num equal to the number of workers between increment and decrement, with load and store as separate steps |
| WorkerPool.InvariantKept | job_queue.cpp:28-60 | Every step of every thread, spurious wake-ups included, keeps the whole invariant |
| WorkerPool.QueueInEveryRun | job_queue.cpp:28-60 | In every reachable state popped followed by queued is pushed, the bound holds, nobody is about to take from an empty queue or append to a full one, and with the mutex free both flags are exact |
| WorkerPool.WhoCanStep | job_queue.cpp:28-60 | In every reachable state a sleeping thread can step by a spurious wake-up and by nothing else, and any other thread unless it waits for a mutex that is held |
| WorkerPool.NoLostWakeUp | job_queue.cpp:28-60 | In every reachable state with the mutex free, a non-empty queue leaves some worker awake and a queue with room some producer; otherwise the thread inside may be about to signal |
| WorkerPool.NeverAllAsleep | job_queue.cpp:28-60 | In no reachable state are all threads asleep in the queue's waiting loops, where producers and workers are different threads and a worker running a task counts as awake |
| WorkerPool.TasksInEveryRun | worker_pool.cpp:29-57 | In every reachable state each submitted task is in exactly one of queued, held by one worker, finished; running_num is exact |
| WorkerPool.NoTaskRunsTwice | worker_pool.cpp:47 | The task a worker runs is the one submitted under its number and has not been run before |
| WorkerPool.StepDescends | worker_pool.cpp:36-55 | Every step of a worker or of a push already begun lowers the work left, whoever its signals wake |
| WorkerPool.RestMeansDrained | worker_pool.cpp:36-55 | When no such step is possible the queue is empty, every task has been run, all workers sleep, and every push has returned or is blocked |
| WorkerPool.QueueDrains | worker_pool.cpp:36-55 | From any reachable state, as long as no new push begins, the threads take a bounded number of steps in every interleaving and come to rest like that |
| PoolRuns.PushRuns | job_queue.cpp:28-42 | From any state with the mutex free and room, a run of steps of that producer alone leads to the state with one element more, exact flags, and workers woken only if the queue was empty |
| PoolRuns.PopRuns | job_queue.cpp:44-60 | From any state with the mutex free and elements queued, a run of steps of that worker alone leads to the state with the first element taken, exact flags, and producers woken only if the queue was full |
| PoolRuns.TurnRuns | worker_pool.cpp:36-55 | A run of steps of one worker alone leads from one entry into pop to the next: one task taken and finished, running_num as before |
| LongTasks.PushWakesIffQueueWasEmpty | job_queue.cpp:35 | In every reachable state in which some worker sleeps, a statement of a push wakes one if and only if it is the signal and the element just appended is the only one |
| LongTasks.PopWakesIffQueueWasFull | job_queue.cpp:56 | In every reachable state in which some push is blocked, a statement of a pop wakes one if and only if it is the signal and the queue was full before |
| LongTasks.StallIsPermanent | job_queue.cpp:35-36 | When elements are queued and every worker sleeps or runs a task, no run of any threads gets them taken before a task ends or a worker wakes spuriously |
| LongTasks.QueuedTaskBesideSleepingWorker | stage.cpp:56-58 | For every number of workers from two on such a state is reachable: one worker runs the first task, the second task is queued, all other workers sleep |
| LongTasks.StalledWorkersBusyIffOneWorker | stage.cpp:56-58 | In every reachable state of that kind all workers are busy, if and only if the pool has at most one |
| BlockedPush.BlockedUntilFull | job_queue.cpp:30-32 | A blocked push stays blocked, whatever is pushed, taken and run, until the queue is full again or the thread wakes spuriously |
| BlockedPush.PushBlockedAtEmptyQueue | job_queue.cpp:56-57 | With two or more producers and any number of workers a state is reachable in which nothing is left to do, the queue is empty, and a push is still blocked |
| BlockedPush.EveryPushReturnsIffOneProducer | job_queue.cpp:28-60 | For every number of workers: in every reachable state of rest all pushes have returned, if and only if at most one thread pushes |
| PushingTasks.DeadlockIsPermanent | stage_handler.cpp:48-54 | Once the queue is full, a worker's task waits in a push and all other workers sleep, the push never returns and nothing is ever taken, as the task cannot end before its push, unless a worker wakes spuriously |
| PushingTasks.PushingTaskCanBlockForGood | stage_handler.cpp:53 | For every number of workers such a state is reached from a reachable one by nothing but the pushes of the running task |
| Receiver.InvariantKept | receiver.cpp:49-77 | Every step of receiver and fetchers keeps exclusion, order and the wake-up invariant although the signal follows the unlock |
| Receiver.NoLostElement | receiver.cpp:49-77 | In every interleaving a non-empty queue leaves a fetcher awake or a thread with a signal still to send; what was fetched is a prefix of what was received, and the queue is the rest; each fetcher returns the element fetched last |
| Receiver.WhoCanStep | receiver.cpp:49-77 | A sleeping fetcher can step by a spurious wake-up and by nothing else, any other thread unless it waits for a lock that is held |
| ReceiverRuns.ReceiveRuns | receiver.cpp:49-61 | From any state with the lock free, a run of steps of one receiving thread alone puts its element into the queue once, frees the lock, and wakes fetchers only if the queue was empty |
| ReceiverRuns.FetchRuns | receiver.cpp:66-77 | From any state with the lock free and elements queued, a run of steps of one fetcher alone returns the first element, leaves the others, and frees the lock |
| ReceiverRuns.WaitRuns | receiver.cpp:66-71 | From an empty queue it goes to sleep and frees the lock |
| StageHandler.FetchedInOrder | stage_handler.cpp:50 | In every run what was fetched is the list of the elements that the fetches delivered, in order |
| StageHandler.RunKeepsInvariant | stage_handler.cpp:48-54 | The shared field holds the last element fetched; tasks queued never exceed fetches and lag by at most one; no task reads an element older than its own |
| StageHandler.TaskReadsOwnElementIffNotOvertaken | stage_handler.cpp:27-35 | The k-th task reads the last element that the fetches delivered before it read; its index is at least k, and k if and only if nothing was fetched after the k-th element until then |
| StageHandler.NothingLostIffNoTaskOvertaken | stage_handler.cpp:48-54 | No fetched element is lost in a run if and only if every task got its own |
| StageHandler.NothingLostIffEachInTurn | stage_handler.cpp:48-54 | No fetched element is lost in a run if and only if in its schedule each task comes after the fetch of its element and before the next fetch |
| StageHandler.OvertakenTask | stage_handler.cpp:50-53 | A run in which both tasks handle the second element |
| HttpParams.Find | http_request.cpp:104-106 | The position of the first separator, or the length |
| HttpParams.CutPiece | http_request.cpp:104-116 | In place: the key and the value of the next piece, and the unchanged rest of the string |
| HttpParams.GetParams | http_request.cpp:99-118 | The loop over the buffer terminates and computes AddParams of the string, from any map |
| HttpParams.AddJoined | http_request.cpp:99-118 | On the joined form of any clean pairs: keys already in the map keep their values, the others get their first one |
| HttpParams.ParamsRoundTrip | http_request.cpp:99-118 | From an empty map, exactly the first binding of each key |
| HttpParams.AcceptsExactlyJoins | http_request.cpp:105-111 | No null pointer is followed if and only if the string is the joined form of some clean pairs |
| HttpRequest.IterateAdvances | http_request.cpp:8-89 | One pass through the switch never moves the phase backwards, never ends in ERROR, and leaves alone what earlier phases stored |
| HttpRequest.ChunksAdvance | http_request.cpp:5-91 | The same over any sequence of chunks, and FINISH freezes the request |
| HttpRequest.FinishIsAbsorbing | http_request.cpp:82-84 | A finished request accepts any input and stays as it is |
| HttpRequest.HttpRequest.constructor | http_request.h:13-15 | A request in the start state with a zeroed URL |
| HttpRequest.HttpRequest.ReadHttpStatusMachine | http_request.cpp:5-91 | The loop, in place, computes the parse of the chunk and returns the state it ends in |
| HttpRequest.HttpRequest.Step | http_request.cpp:9-88 | One pass through the switch with the look-ahead and the fall-through, in place |
| RequestText.ReadRequestLine | http_request.cpp:10-60 | After a printed request line the machine is at the first header line with method, URL and protocol stored |
| RequestText.ReadHeaders | http_request.cpp:61-71 | One or more header lines and the empty line lead to FINISH if nothing follows, else to CONTENT at the empty line's line feed |
| RequestText.RequestRoundTrip | http_request.cpp:5-91 | A printed request in one read is parsed into its method, URL and protocol whatever stale bytes follow, and reaches FINISH if and only if it has a header line; the look-ahead leaves the buffer if and only if there is no header line and too little behind the request |
| RequestText.KnownMethodRoundTrip | http_request.cpp:15-28 | GET and POST requests give back exactly that method, and the URL followed by zeros |
| RequestText.ReadRequestWithBody | http_request.cpp:72-81 | The parameters are read from the body with the empty line's line feed in front of it |
| RequestText.BodyRoundTrip | http_request.cpp:72-81 | A body of joined pairs gives their first bindings, the first key prefixed by a line feed; these are the first bindings of the pairs themselves if and only if later pairs bind both that key and the prefixed one to the first value, which no list of keys without line feeds does |
| RequestText.LineFeedHarmlessIff | http_request.cpp:77 | The prefixed list has the same first bindings as the list itself if and only if that holds |
| RequestTokens.ReadAnyProto | http_request.cpp:41-52 | For any token without slash: HTTP is stored for exactly these four letters, HTTPS for any five letters of which these are the first four, and any other token leaves the field as it was |
| RequestTokens.AnyProtoRoundTrip | http_request.cpp:5-91 | A printed request with any protocol token is parsed to its end, with the protocol recognised as HTTP or HTTPS exactly in those cases |
| RequestTokens.LoneCarriageReturn | http_request.cpp:55-71 | In the version or a header a carriage return swallows the byte behind it unless that is a line feed |
| RequestTokens.VersionWithCarriageReturn | http_request.cpp:53-60 | A version with one in it is read on to the next line end |
| RequestTokens.HeaderWithCarriageReturn | http_request.cpp:61-71 | The look-ahead stops before a header line that begins with one, which then swallows the next byte |
| RequestTokens.UrlFitsIff | http_request.cpp:32 | A printed request is parsed without leaving the arrays if and only if its URL has at most 64 bytes |
| RequestTokens.BodyFitsIff | http_request.cpp:99-111 | A request with body is parsed without leaving the arrays or following a null pointer if and only if the body, with the line feed before it, has at most 128 bytes and every piece of it has a value |
| RequestChunks.ResumeAtBoundary | http_request.cpp:5-8 | A call that starts at byte n does what the previous call would have done with the rest, provided no token is cut |
| RequestChunks.TwoReadsAsOne | http_request.cpp:5-91 | Two reads are parsed as one if the first call returns VERSION or REQUEST_HEAD and none of its last four bytes ends a token or a line |
| RequestCuts.TwoReadsIff | http_request.cpp:5-91 | For a printed request cut at any position, with any stale bytes behind either read: two reads give the result of one if and only if the first call, whose outcome is that of FirstStateIs, stays in its buffer and returns START, or METHORD with the same method found in the second read, or URL or PROTO with the cut at the start of that token, or VERSION with the line end or a second header line to come, or REQUEST_HEAD with the last four bytes to come, or CONTENT with a line feed next, or FINISH |
| RequestCuts.FirstStateIs | http_request.cpp:5-91 | The state that the first call returns, or that it leaves its buffer, is read off the request, the cut and the stale bytes that the look-ahead takes for what comes next |
| RequestCuts.PartOfHeaders | http_request.cpp:61-71 | A read that ends in the header lines changes nothing but the state |
| RequestCuts.ContentToEnd | http_request.cpp:72-81 | From CONTENT on, the rest of a head is taken for parameters unless a line feed comes next |
| RequestChunks.BodyInSecondReadDropped | http_request.cpp:67-69 | A body that arrives in the read after the head changes nothing: the request is finished, without parameters |
| RequestChunks.SplitUrlRoundTrip | http_request.cpp:29-40 | A request cut inside its URL still reaches FINISH, with the second part of the URL; that is the whole URL if and only if the first part is empty |
| MessageQueue.Buffer.constructor | buffer.cpp:7-11 | A zeroed buffer of length 0 |
| MessageQueue.Buffer.Expand | buffer.cpp:37-44 | A new zeroed block of twice the size with the first length bytes of the old one |
| MessageQueue.Buffer.PushBack | buffer.cpp:26-35 | The bytes are copied to the position given by the length, which stays; the block grows once when more than two thirds would be in use |
| MessageQueue.PushedPieces | buffer.cpp:26-35 | After a push the block has twice its size if three times the bytes in use exceed two times the old size, else the same; the bytes are at the position given by the length, those before it as they were, and those behind as they were or, in a doubled block, zero |
| MessageQueue.AddChecksum | message_queue/message_queue_client.cpp:116-118 | The byte behind the first n becomes their sum modulo 256, and these stay as they are |
| MessageQueue.Send | message_queue/message_queue_client.cpp:112-119 | The bytes written are the type byte, the message, and the sum of both modulo 256 |
| MessageQueue.CheckMsgCrc | message_queue/message_queue_server.cpp:235-240 | Accepts if and only if the last byte is the sum of the others modulo 256 |
| MessageQueue.EncodeMqMsg | mq_def.cpp:6-13 | The buffer holds what three pushes to the same place leave in it |
| MessageQueue.EncodedKeeps | mq_def.cpp:6-13 | A string that starts with the type byte comes out of that unchanged, followed by zeros, whether or not the buffer grew; the block has 1024 bytes up to a length of 682 and 2048 from there on |
| MessageQueue.RecvPublish | message_queue/message_queue_server.cpp:153-158 | The publish case yields a message if and only if the check accepts; for a frame of the client that is the message sent, or the message without its last byte if the checksum byte is zero; over stale bytes it is the message sent if and only if the checksum byte is not zero and the byte behind the frame is |
| MessageQueue.FrameRoundTrip | message_queue/message_queue_client.cpp:112-119 | The server accepts every frame the client builds, and decoding gives the message back if and only if the checksum byte is not zero, else without its last byte |
| MessageQueue.LostMessage | mq_def.cpp:15-20 | A sendable message with checksum byte zero, decoded to the empty string |
| MessageQueue.FrameOverStale | message_queue/message_queue_server.cpp:144-158 | With any bytes left behind the frame, the message sent comes out if and only if its checksum byte is not zero and the byte behind the frame is |
| MessageQueue.SecondFrame | message_queue/message_queue_server.cpp:144-158 | Of two frames in a row the second message comes out if and only if its checksum byte is not zero and its frame covers the first one, up to a final zero |
| MessageQueue.LengthenedMessage | message_queue/message_queue_server.cpp:144-158 | Two such frames with the bytes that come out: the second message, its checksum and a stale byte |
| MessageQueue.SingleByteChangeRejected | message_queue/message_queue_server.cpp:235-240 | Changing any single byte of an accepted frame makes the check fail |

## Left out

- SplayHeap.SplayInPlace: the three nested parts of the C function are separate methods here (main loop, correction loop, assembly), and the header node is allocated instead of living on the stack; `size` is unbounded, so that trees of 2^31 nodes and more are not modelled.
- SplayHeap.InsertInPlace: allocation never fails.
- SplayHeap.DeleteInPlace: the removed node is not freed; it is just no longer part of the tree.
- SplayTree.CompareIsOrderIffFits: signed overflow, undefined in C, is taken to wrap around.
- WorkerPool.InvariantKept: thread creation, `stop` and a `running` flag that turns false are not modelled; the branch with a `worker_init_callback` is taken to be a task like any other. Blocking and waking are steps on values, as a Dafny method cannot wait; the critical sections are also given as methods of a class in `TaskQueue.dfy`.
- WorkerPool.NeverAllAsleep: says nothing about a worker whose own task is blocked in a push to the same pool; that is the subject of `PushingTasks.dfy`.
- WorkerPool.QueueDrains: tasks are taken to finish; that a given thread is scheduled at all is not assumed, so that the result bounds the steps and characterises the state of rest. Spurious wake-ups are excluded from the bound only.
- Receiver.NoLostElement: like the pool, the receiver's loop and `fetchOne` are steps on values, as a method cannot wait. Reception errors and the truncation of messages to 255 bytes happen before an element exists and are left out; the log line for a long queue changes nothing.
- StageHandler.RunKeepsInvariant: the loop and the handler, which run in different threads, are steps on values. What the handler function makes of its element, and the message it sends, are left out. Copies of an element are atomic; a copy torn between two elements is outside the model. Tasks can start in any order, which covers the pool's first-in, first-out queue with several workers.
- HttpParams.GetParams: the 128-byte local copy appears as a limit on the length of the body, beyond which the parser answers `Fault`, as it does when the string does not end inside its buffer.
- HttpRequest.HttpRequest.ReadHttpStatusMachine: nothing is said about inputs on which the program leaves its arrays or follows a null pointer. Uninitialised `method` and `proto` fields are `None`.
- RequestText.BodyRoundTrip: the byte after the body is taken to be zero, as after a read into a cleared buffer; otherwise the stale bytes become part of the body.
- RequestChunks.TwoReadsAsOne: holds for any input and any request so far, and gives a sufficient condition; the exact one, for printed requests without body, is `RequestCuts.TwoReadsIff`. Cuts inside a body are not characterised.
- RequestChunks.SplitUrlRoundTrip: the two comparisons with a method name are taken to stay inside the first buffer.
- MessageQueue.Send: messages with `%`, which `sprintf` would interpret, or of more than 126 bytes, which overrun the array, are excluded; a short write is not modelled.
- MessageQueue.Buffer.Expand: allocation never fails.
- Subscriber fan-out, caching and registration in `recv_msg`: they write to the publisher's own descriptor and never clear the cache, so that no delivery property holds.
- Sockets, epoll, ZeroMQ, Redis, the accept and read loops, sendfile and the stage's start-up: operating system and foreign libraries.
- `seda.cpp`, `config.cpp`, `http_response.cpp`, `slab_system.cpp`, `split_string` and logging: empty, unreachable or of no interest.
- `http_server.cpp`: a near copy of the request parser.
