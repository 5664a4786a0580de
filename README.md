# Worker pools of the supervisor, modelled in Dafny

The supervisor runs jobs in pools of worker processes. A `WorkerPool` checks
its constructor arguments and registers itself in the process-wide list of
pools. A management loop keeps the pool at its target number of workers: it
gives each new worker the smallest free slot number, adjusts the target in
autoscale mode from whether the input queue holds data, and forgets workers
whose process has died. Pools can be plugged into other pools, local or on a
remote node; a transfer thread feeds every result to every plugged target.
Feeding a remote pool turns the value into one network packet whose type
depends on the value's shape. A worker process runs its job's `loop` on what
it pulls from the input queue until it is stopped, the job asks to exit, or a
job that needs data gets an empty poll more than 0.5 s after the worker
started. The video
streamer parses a preferred resolution such as `1920x1080`, keeps the
`width` and `height` entries of ffprobe's report and derives its settings from
both.

The project has six files, one module each:

- `wrappers.dfy` (`Wrappers`): `Option` and `Result`.
- `text.dfy` (`Text`): the Python string built-ins the streamer uses
  (`str.split` with one separator character, `str.join`, `str.strip`, `int()`
  and `str()` on integers) and the laws relating them.
- `streamer.dfy` (`Streamer`): `resTextToTuple`, the key filter of
  `Streamer.meta_data` and the settings `Streamer.__init__` derives.
- `remote.dfy` (`Remote`): values, packets and `RemoteWorkerPool.feedData`.
- `worker.dfy` (`WorkerLoop`): the loop of `Worker.doWork`.
- `pool.dfy` (`Pool`): the registry, the `WorkerPool` class and its
  operations, `shutdownAll`, and concrete scenarios for the findings below.

What the environment decides becomes an input. The pids the operating system
hands to new workers are a list (a start failure is the list running out),
which processes are alive is a set, whether the input queue holds data is a
boolean, what a worker observes on each turn is a list of turns, whether
feeding a target raises is a predicate, and JSON encoding and decoding are
functions passed in.

## Model

| member | source | states |
|---|---|---|
| Text.Split | src/supervisor/utils/streamer.py:32 | `s.split(sep)` always has at least one piece |
| Text.SplitWithoutSep | src/supervisor/utils/streamer.py:32 | text without the separator splits into itself alone |
| Text.JoinSplit | src/supervisor/utils/streamer.py:32 | joining the pieces of `s.split(sep)` with `sep` gives `s` back |
| Text.SplitJoin | src/supervisor/utils/streamer.py:32 | splitting the join of separator-free pieces gives the pieces back |
| Text.SplitPartsLackSep | src/supervisor/utils/streamer.py:32 | no piece of `s.split(sep)` contains `sep` |
| Text.SplitAtFirst | src/supervisor/utils/streamer.py:82 | the first piece is exactly the text before the first separator |
| Text.SplitCountsSep | src/supervisor/utils/streamer.py:32-33 | a text splits into two or more pieces if and only if it contains the separator |
| Text.SplitInTwo | src/supervisor/utils/streamer.py:32-33 | a text splits into exactly two pieces if and only if the separator occurs in it once, and the pieces are the text on either side of it |
| Text.StripLeftSuffix | src/supervisor/utils/streamer.py:55 | stripping the left keeps a suffix that does not start with a stripped character, and every character it drops is one |
| Text.StripRightPrefix | src/supervisor/utils/streamer.py:55 | stripping the right keeps a prefix that does not end with a stripped character, and every character it drops is one |
| Text.StripWith | src/supervisor/utils/streamer.py:55 | stripping a set of characters from both ends gives text no longer than the input that neither starts nor ends with one of them |
| Text.Strip | src/supervisor/utils/streamer.py:55 | `url.strip()` is no longer than the url and neither starts nor ends with whitespace |
| Text.IntStrip | src/supervisor/utils/streamer.py:37 | the text `int()` reads is no longer than its argument and neither starts nor ends with the whitespace `int()` skips (space, tab, line breaks, vertical tab, form feed) |
| Text.StripTrims | src/supervisor/utils/streamer.py:55 | what stripping keeps is one contiguous slice of the text with no stripped character at either end, and everything before and after that slice is stripped characters |
| Text.StripUnpadded | src/supervisor/utils/streamer.py:55 | stripping text that neither starts nor ends with a stripped character leaves it unchanged |
| Text.ParseDigitsIff | src/supervisor/utils/streamer.py:37 | the digit reader accepts exactly the non-empty runs of decimal digits, and reads them most significant first |
| Text.ParseInt | src/supervisor/utils/streamer.py:37 | `int()` succeeds only on text that, without the whitespace `int()` skips, is non-empty and holds nothing but digits after its first character; a negative result comes only from a leading minus sign |
| Text.ParseIntIff | src/supervisor/utils/streamer.py:37 | `int()` succeeds exactly on a run of digits with at most one leading sign, once the whitespace `int()` skips is dropped, and gives its signed value |
| Text.IntKeepsSeparatorControl | src/supervisor/utils/streamer.py:37 | `str.strip()` drops a trailing U+001F but `int()` does not skip it: `int("5\x1f")` raises |
| Text.NatStrDigits | src/supervisor/worker.py:342 | `str(n)` of a worker number is a run of digits whose value is `n` |
| Text.ParseNatStr | src/supervisor/utils/streamer.py:37 | `int(str(n)) == n` for every natural number |
| Text.ParseNegStr | src/supervisor/utils/streamer.py:37 | `int(str(i)) == i` for every negative integer, whose `str` is a minus sign before the digits of `-i` |
| Text.ParseIntStr | src/supervisor/utils/streamer.py:37 | `int(str(i)) == i` for every integer |
| Text.IntStrChars | src/supervisor/utils/streamer.py:29-37 | `str(i)` holds only a minus sign and digits, so none of the resolution separators |
| Streamer.TrySeparator | src/supervisor/utils/streamer.py:32-37 | a separator yields a pair exactly when it occurs once in the text and the text on each side of it reads as an integer; the pair is those two integers |
| Streamer.FirstResolution | src/supervisor/utils/streamer.py:28-42 | a pair found is the one the first separator that yields a pair gives: every separator before it yields nothing |
| Streamer.ResTextToTuple | src/supervisor/utils/streamer.py:28-42 | the loop returns the pair of the first separator, in the order x : ; /, that cuts the text into exactly two integers, and None if there is none |
| Streamer.FirstResolutionSkips | src/supervisor/utils/streamer.py:31-34 | separators that yield nothing can be dropped from the front |
| Streamer.FirstSeparatorWins | src/supervisor/utils/streamer.py:31-38 | when separator k yields a pair and no earlier one does, the result is that pair |
| Streamer.NoResolutionIff | src/supervisor/utils/streamer.py:28-42 | the result is None if and only if no separator yields a pair |
| Streamer.ResolutionIff | src/supervisor/utils/streamer.py:28-42 | a pair is found exactly when some separator yields one, and it is the pair some separator yields |
| Streamer.ThreePiecesRejected | src/supervisor/utils/streamer.py:32-34 | a text that 'x' cuts into more than two pieces and that holds no other separator gives None: three pieces do not count |
| Streamer.ThreePiecesExample | src/supervisor/utils/streamer.py:32-34 | "1x2x3" is such a text: three pieces at 'x' and no other separator |
| Streamer.SeparatorControlSpoilsResolution | src/supervisor/utils/streamer.py:28-42 | `resTextToTuple("3x5\x1f")` is None: the piece after the 'x' does not read as an integer and no other separator occurs |
| Streamer.SplitRendered | src/supervisor/utils/streamer.py:32 | `str(w) + "x" + str(h)` splits at 'x' into `str(w)` and `str(h)` |
| Streamer.ResolutionRoundTrip | src/supervisor/utils/streamer.py:28-42 | parsing `str(w) + "x" + str(h)` gives `(w, h)` for all integers |
| Streamer.MetaData | src/supervisor/utils/streamer.py:79-86 | the loop over report lines builds the same dictionary as the filter, or fails on the same line |
| Streamer.FilterMeta | src/supervisor/utils/streamer.py:79-86 | only `width` and `height` are ever kept, and a failure names a line that is the bare word `width` or `height` |
| Streamer.FilterMetaFailureSticks | src/supervisor/utils/streamer.py:81-83 | once a line raises, the whole filter raises with it |
| Streamer.KeyIsTextBeforeFirstEquals | src/supervisor/utils/streamer.py:82 | a line's key is the text before its first '=', and the whole line when it has none |
| Streamer.FilterMetaFailsIff | src/supervisor/utils/streamer.py:81-83 | the filter raises if and only if some line is the bare word `width` or `height` |
| Streamer.FilterMetaKeys | src/supervisor/utils/streamer.py:80-83 | only `width` and `height` are kept, and each is present iff some line has it as its key |
| Streamer.FilterMetaLast | src/supervisor/utils/streamer.py:80-83 | a kept key holds the text between the first and second '=' (`split('=')[1]`) of the last line with that key |
| Streamer.FilterMetaEntry | src/supervisor/utils/streamer.py:80-86 | only `width` and `height` are kept; a key is present iff some line has it; its value is the text between the first and second '=' (`split('=')[1]`) of the last such line |
| Streamer.NewStreamer | src/supervisor/utils/streamer.py:52-63 | creating a streamer fails exactly when reading the shape from the report fails, so a resolution text that does not parse never raises; a new streamer keeps its name and rate, has read no frame, and resizes iff it has a resolution |
| Streamer.NewStreamerResolution | src/supervisor/utils/streamer.py:58-59 | a new streamer's resolution is what `resTextToTuple` gives, and it resizes iff that is not None |
| Streamer.ResizeIffParsed | src/supervisor/utils/streamer.py:57-59 | a new streamer resizes exactly when its resolution text parsed, to the pair a separator yields |
| Streamer.ShapeFromReport | src/supervisor/utils/streamer.py:55-63 | a new streamer has read no frame, holds the stripped url and takes its shape from the report's width and height |
| Streamer.StreamerFailsIff | src/supervisor/utils/streamer.py:61-62 | creation fails exactly when the report has a bare key line or lacks or garbles a dimension |
| Remote.EncodePacket | src/supervisor/worker.py:200-220 | a sent packet is addressed to the remote pool and is an image packet exactly for an array or a tuple whose second item is an array |
| Remote.PayloadShapes | src/supervisor/worker.py:203-217 | the three payload shapes get their one encoding each, and feeding fails exactly on a tuple with fewer than two items, on an array-second tuple whose first item JSON cannot encode, or on another non-array value JSON cannot encode |
| Remote.EncodeDecodeRoundTrip | src/supervisor/worker.py:200-220 | reading a packet back with the inverse of the JSON encoder gives the value that was fed |
| Remote.LongTupleTruncated | src/supervisor/worker.py:208-211 | a tuple with more than two items and an array second arrives without its extra items |
| Remote.Connection.Send | src/supervisor/worker.py:220 | the packet is appended to what the link has sent |
| Remote.RemoteWorkerPool.constructor | src/supervisor/worker.py:186-189 | the proxy holds the remote pool's identifier, the connection and the node id |
| Remote.RemoteWorkerPool.FeedData | src/supervisor/worker.py:200-220 | exactly the encoded packet is sent, or nothing is sent and the error is raised |
| WorkerLoop.WorkerStep | src/supervisor/worker.py:157-172 | the job's loop runs iff the worker is running, the job has not asked to exit and it has data or needs none; it idles out iff it needs data, got none and its grace time passed; a result is pushed iff it is not None and there is an output queue |
| WorkerLoop.RunBounds | src/supervisor/worker.py:157-172 | a run pushes at most one result per turn, and nothing when there is no output queue |
| WorkerLoop.RunHead | src/supervisor/worker.py:157-172 | the run from a turn on starts with that turn's outcome: it stops, idles out, retries, or runs the job and pushes its result |
| WorkerLoop.DoWork | src/supervisor/worker.py:148-175 | the loop pushes exactly the results the turn-by-turn definition gives and ends for the same reason |
| WorkerLoop.EchoPreservesOrder | src/supervisor/worker.py:157-172 | a job returning its input pushes every item it was fed, in arrival order |
| WorkerLoop.IdleExitNeedsTimeout | src/supervisor/worker.py:159-162 | a worker idles out only if its job needs data and some turn found none after the grace period |
| WorkerLoop.PushedComeFromLoop | src/supervisor/worker.py:165-169 | every pushed item is a result of the job's loop on something the worker observed |
| Pool.RemoveFirst | src/supervisor/worker.py:291 | `list.remove(x)` shortens a list holding `x` by one; a list without `x` is left as it is, and the callers raise ValueError for it |
| Pool.FirstIndex | src/supervisor/worker.py:291 | the position of the first occurrence of `x`, which `list.remove` takes out |
| Pool.RemoveFirstSplit | src/supervisor/worker.py:291 | `list.remove(x)` takes out the first occurrence of `x` and keeps the rest in order |
| Pool.RemoveFirstMembers | src/supervisor/worker.py:445 | in a list without duplicates, removing `x` keeps exactly the other elements |
| Pool.RemoveFirstKeeps | src/supervisor/worker.py:445 | every element other than `x` survives `list.remove(x)` |
| Pool.RemoveFirstWithin | src/supervisor/worker.py:445 | `list.remove(x)` adds no element |
| Pool.RemoveFirstDrops | src/supervisor/worker.py:291 | in a list without duplicates, `x` is gone after `list.remove(x)` |
| Pool.RemoveFirstOfDistinct | src/supervisor/worker.py:291 | removing from a list without duplicates leaves no duplicates and no `x` |
| Pool.RemoveFirstAt | src/supervisor/worker.py:279-280 | in a list without duplicates, removing the element at position i removes that position |
| Pool.RemoveFirstAppended | src/supervisor/worker.py:412-445 | removing the element just appended gives the list back |
| Pool.CheckConfig | src/supervisor/worker.py:245-252 | the arguments are accepted iff the name is a string, the amount an int with 0 <= amount <= max and max > 0, and the accepted configuration holds them; each of the four errors is reported exactly when its check is the first to fail |
| Pool.FreeFrom | src/supervisor/worker.py:318-327 | the smallest number from i on that is not taken: it is free and every number between i and it is taken |
| Pool.SmallestFreeSlotBound | src/supervisor/worker.py:318-327 | the slot a new worker gets is at most one past the number of live workers |
| Pool.SlotRange | src/supervisor/worker.py:318-327 | the slots below n are n-1 numbers |
| Pool.BelowTakenGrows | src/supervisor/worker.py:318-327 | slots all taken stay taken when the pid-to-slot map only gains slots |
| Pool.ValuesNoMoreThanKeys | src/supervisor/worker.py:330 | the pid-to-slot map has no more slots than pids |
| Pool.ValuesGrow | src/supervisor/worker.py:351 | recording a new worker keeps every slot already taken and takes the new one |
| Pool.NextTarget | src/supervisor/worker.py:356-366 | the autoscale target moves one up with data queued and one down without, and stays within 0 and the maximum |
| Pool.AutoscaleConverges | src/supervisor/worker.py:356-366 | under a steady backlog the target climbs one per tick to the maximum; with an empty queue it falls one per tick to zero |
| Pool.Accepted | src/supervisor/worker.py:417-422 | the targets a value reaches are plugged targets whose feed did not raise, and no more than were plugged |
| Pool.AcceptedConcat | src/supervisor/worker.py:418-424 | fan-out over two runs of targets is the fan-out over each |
| Pool.AcceptedMembers | src/supervisor/worker.py:418-424 | a target receives the value exactly when it is plugged and feeding it does not raise |
| Pool.FailureIsIsolated | src/supervisor/worker.py:419-424 | a target that raises does not keep the targets after it from receiving the value |
| Pool.EveryOther | src/supervisor/worker.py:279-280 | the elements at odd positions, in order |
| Pool.EveryOtherGrows | src/supervisor/worker.py:279-280 | two more elements add the second; one more after an even prefix adds nothing |
| Pool.SkippingClosed | src/supervisor/worker.py:279-280 | after i turns of the iteration the registry is the odd positions of the first 2i pools followed by the pools not reached |
| Pool.SkippingTurn | src/supervisor/worker.py:279-280 | turn k + 1 removes the pool right after the k survivors, the one originally at position 2k |
| Pool.EveryOtherShift | src/supervisor/worker.py:279-280 | the survivors after turn k + 1 are the odd positions of the pools the turns have passed, followed by the rest |
| Pool.SkippingAt | src/supervisor/worker.py:279-280 | turn i reaches the pool originally at position 2i |
| Pool.SkippingLength | src/supervisor/worker.py:279-280 | the registry shrinks by one per turn |
| Pool.SkippingDone | src/supervisor/worker.py:279-280 | when the iteration runs off the end only the pools at odd positions are left |
| Pool.Registry.constructor | src/supervisor/worker.py:239 | the process starts with no pool registered |
| Pool.WorkerPool.constructor | src/supervisor/worker.py:254-271 | a new pool runs, has no worker, no plugged target and no transfer thread, is in autoscale mode iff its amount is 0, and is appended to the registry |
| Pool.WorkerPool.Create | src/supervisor/worker.py:244-271 | a pool is created and registered iff the checks pass, with the given name, amount and maximum, no worker, no slot, no plugged target and no transfer thread; otherwise the first failed check is raised and the registry is unchanged |
| Pool.WorkerPool.GetWorkerNumber | src/supervisor/worker.py:318-327 | the result is the smallest positive slot no live worker uses (`FreeFrom` of the slots from 1) |
| Pool.WorkerPool.GrownStart | src/supervisor/worker.py:339 | before any start, the workers trivially extend themselves |
| Pool.WorkerPool.GrownStep | src/supervisor/worker.py:340-351 | adding a worker in the smallest free slot keeps old workers and slots and names the new worker after its slot |
| Pool.WorkerPool.SpawnKeys | src/supervisor/worker.py:339-351 | starting the given pids adds exactly them to the workers and to the slots, one worker each |
| Pool.WorkerPool.SpawnGrown | src/supervisor/worker.py:339-351 | starting workers keeps every old worker and its slot; each new worker has a slot no old worker had, with every lower slot taken, and is named `<pool> Worker-<slot>` |
| Pool.WorkerPool.SpawnAscends | src/supervisor/worker.py:339-351 | the started pids get slots that rise in the order they were started |
| Pool.WorkerPool.SpawnTwoOnEmpty | src/supervisor/worker.py:339-351 | two workers started on an empty pool take slots 1 and 2 in start order, and the second is named `<pool> Worker-2` |
| Pool.WorkerPool.SlotsAscendPairs | src/supervisor/worker.py:339-351 | slots that rise from each started pid to the next rise between any two of them |
| Pool.WorkerPool.NewSlotBelow | src/supervisor/worker.py:340 | the next free slot lies above the slot of every worker started so far |
| Pool.WorkerPool.AscendAfterAdd | src/supervisor/worker.py:340-351 | the pid that takes the next free slot continues the rising order |
| Pool.WorkerPool.AscendKeep | src/supervisor/worker.py:351 | giving a slot to a pid that had none leaves the slots of the earlier started pids rising |
| Pool.WorkerPool.AddWorker | src/supervisor/worker.py:342-351 | the worker is recorded under its pid with its slot and named `<pool> Worker-<slot>`; nothing else changes |
| Pool.WorkerPool.SpawnToTarget | src/supervisor/worker.py:339-352 | workers are started until the target is reached; the loop stops fatally exactly when the pids run out first; the workers and slots are those of starting the used pids in order, each taking the smallest free slot at its turn (`Spawn`) |
| Pool.WorkerPool.Autoscale | src/supervisor/worker.py:356-366 | in autoscale mode the target becomes the next target; a fixed target is left alone |
| Pool.WorkerPool.DeadWorkers | src/supervisor/worker.py:382-385 | the pids collected are exactly the recorded workers whose process is gone, each once |
| Pool.WorkerPool.RemoveWorkers | src/supervisor/worker.py:388-391 | exactly the listed workers and their slots are forgotten |
| Pool.WorkerPool.SweepDead | src/supervisor/worker.py:382-391 | the pool keeps exactly its workers whose process is alive, with their handles and slots |
| Pool.WorkerPool.ManageTick | src/supervisor/worker.py:336-391 | one turn of the management loop: spawn, then (unless a start failed) autoscale and sweep; a fatal turn leaves exactly the spawned workers and slots and the target; otherwise exactly the spawned workers that are alive remain, with their handles and slots, and with a fixed target and no death the pool has exactly its target number of workers |
| Pool.WorkerPool.StartTransferThread | src/supervisor/worker.py:427-433 | the transfer thread is started at most once |
| Pool.WorkerPool.Plug | src/supervisor/worker.py:398-413 | None, non-pools and already plugged targets are refused; otherwise the target is appended and the transfer thread runs |
| Pool.WorkerPool.Unplug | src/supervisor/worker.py:436-447 | None clears every edge; a plugged target is removed and reported; anything else is reported absent and nothing changes |
| Pool.WorkerPool.UnplugAsWritten | src/supervisor/worker.py:436-447 | as written, unplugging a plugged remote proxy raises and leaves it plugged |
| Pool.WorkerPool.PlugThenUnplug | src/supervisor/worker.py:398-447 | plugging a new target and unplugging it leaves the edges as they were |
| Pool.WorkerPool.Transfer | src/supervisor/worker.py:418-424 | one value is offered to every plugged target in order; the ones that accept it are those whose feed does not raise |
| Pool.WorkerPool.CheckPoolState | src/supervisor/worker.py:298-300 | raises iff the pool is not running |
| Pool.WorkerPool.FeedData | src/supervisor/worker.py:282-285 | data is refused iff the pool is not running |
| Pool.WorkerPool.PollResult | src/supervisor/worker.py:302-307 | a running pool returns what the result queue yields, or None; a stopped one raises |
| Pool.WorkerPool.StopAll | src/supervisor/worker.py:294-296 | every recorded worker is told to stop and no worker is added or lost |
| Pool.WorkerPool.Shutdown | src/supervisor/worker.py:287-291 | the pool stops, every worker is told to stop and the pool leaves the registry; shutting down an unregistered pool raises |
| Pool.WorkerPool.ShutdownAsWritten | src/supervisor/worker.py:287-296 | as written, with any worker recorded the call raises before the pool leaves the registry |
| Pool.WorkerPool.ShutdownAll | src/supervisor/worker.py:273-280 | every registered pool is shut down and every one of its workers told to stop; the registry ends empty; the pools' slots and plugged targets stay as they were |
| Pool.WorkerPool.ShutdownTurn | src/supervisor/worker.py:279-280 | shutting down the first registered pool removes it and tells its workers to stop; the other pools stay valid and registered |
| Pool.WorkerPool.SkipTurn | src/supervisor/worker.py:279-280 | turn i shuts down the pool originally at position 2i, tells its workers to stop and removes it; every other pool keeps its flag and workers, and pools shut in earlier turns stay shut |
| Pool.WorkerPool.ShutdownAllAsWritten | src/supervisor/worker.py:273-280 | as written, only the pools at even positions are shut down and their workers told to stop; the pools at odd positions stay registered with their flag and workers unchanged; no pool's slots or plugged targets change |
| Pool.ShutdownWithWorkerAsWritten | src/supervisor/worker.py:287-296 | a pool with one worker: the shutdown as written raises and the pool stays registered |
| Pool.ShutdownWithWorker | src/supervisor/worker.py:287-296 | the same pool under the corrected shutdown leaves the registry and its worker is told to stop |
| Pool.ShutdownIsFinalScenario | src/supervisor/worker.py:282-307 | after shutdown, feeding and polling raise, and a second shutdown raises |
| Pool.UnplugRemoteScenario | src/supervisor/worker.py:436-447 | unplugging a plugged remote proxy raises as written and succeeds when corrected |
| Pool.ShutdownAllThreeAsWritten | src/supervisor/worker.py:273-280 | with three pools registered, `shutdownAll` as written leaves the middle one registered and running |

## Left out

- Processes, threads, queues and shared flags are not modelled as such. A worker is a handle with a name and a running flag. The queues are inputs: whether the input queue holds data, what a poll returns, and the values a worker observes.
- Blocking and timeouts (`Queue.get(timeout=...)`, the blocking `put` of results, the daemon threads) are not modelled. Time is an input to the worker loop.
- The outer `while self.running and main_thread().isAlive()` loop of `_manageWorkers` is modelled one turn at a time (`ManageTick`). The main-thread check and the management thread itself (`_startManagementThread`, which cannot raise from the constructor) are not modelled.
- Draining the error queue in `_manageWorkers` only logs, and logging, `debug`, `print`, `traceback.print_exc`, `__str__`, `__repr__` and `toJSON` are not modelled.
- `SupervisedProcess.run`, `handleError` and `SupervisedProcessStream` (redirection of a worker's output) are not modelled: they capture exceptions and tag output.
- Pool.WorkerPool.Transfer: models one pass of `_doTransfer` for one value, not the thread's `while self.running` loop or its blocking `get`.
- WorkerLoop.DoWork: `setup`, `destroy` and the job's construction are not modelled. The job's `loop` is a function of the data, so a job with internal state is not captured. A job whose `loop` raises ends the worker (`doWork` exits and the worker is never stopped); not modelled, since `loop` here is total.
- The transport of packets (`network.createImagePacket`, `Connection.send`) is modelled as a record appended to a list. JSON encoding and decoding are functions passed in (`dumps` returns None where `json.dumps` raises).
- The `runing` property of `RemoteWorkerPool` always answers True. Nothing in the core reads it, so it is not modelled.
- Text.ParseIntIff: models `int()` on ASCII text only. Around the number it skips space, tab, the line breaks, vertical tab and form feed, and not U+001C to U+001F. Underscores between digits and non-ASCII digits and spaces, which Python also accepts, are not modelled.
- Text.Strip: strips the ASCII characters Python counts as whitespace, the separators U+001C to U+001F included. U+0085, U+00A0 and the other Unicode spaces, which Python also strips, are not modelled.
- Text.StripTrims: states the slice for any set of stripped characters; for `url.strip()` that set is the ASCII one of `Text.Strip`, with the same Unicode spaces left out.
- Streamer.MetaData: running ffprobe, decoding its bytes and the `Popen` pipe are not modelled; the decoded report is an input.
- Opening ffmpeg, reading and resizing frames (`open`, `get_image` and the rest of `Streamer`) and the real-time streamer are not modelled.
- `os.cpu_count()` as the default for `maxWorkers` is not modelled. The maximum is an argument. `os.cpu_count()` returning None is not modelled either.
- The worker name uses `str(number)` of a natural number, which is all `_getWorkerNumber` returns.
- An object that is an array or a tuple by subclassing is treated by its shape. Only exact tuples take the tuple path of `RemoteWorkerPool.feedData`.
- WorkerLoop.DoWork: `Worker.doWork` pushes each result with a blocking `put` (no timeout), so no result is ever dropped; the model pushes every result when there is an output queue.
- Pool.CheckConfig: `maxWorkers` is an integer here. The source only compares it with 0 and with the amount, so it also accepts a float, which the model does not.

## Findings

| source | as written | input that shows it | evidently intended | confidence | as-written member | corrected member |
|---|---|---|---|---|---|---|
| src/supervisor/worker.py:287-296 | `shutdown` calls `_stopWorkers`, which calls `Worker.stop()` in the pool's process; `stop` uses `self.job`, which is only set inside the worker's own process by `doWork`, so the call raises AttributeError and `pools.remove(self)` is never reached | a pool with one started worker, then `shutdown()` | every worker's running flag is lowered and the pool leaves the registry | high; not executed | Pool.WorkerPool.ShutdownAsWritten, Pool.ShutdownWithWorkerAsWritten | Pool.WorkerPool.Shutdown, Pool.ShutdownWithWorker |
| src/supervisor/worker.py:436-447 | `unplug(other)` builds a log message from `other.name`; a `RemoteWorkerPool` has no `name`, so unplugging a plugged remote proxy raises AttributeError before `remove` | plug a `RemoteWorkerPool`, then `unplug` it | the proxy is removed and True is returned | high; not executed | Pool.WorkerPool.UnplugAsWritten, Pool.UnplugRemoteScenario | Pool.WorkerPool.Unplug, Pool.UnplugRemoteScenario |
| src/supervisor/worker.py:273-280 | `shutdownAll` iterates over `cls.pools` while each `shutdown` removes its pool from that list, so the iteration skips the pool that moves into the freed position | three registered pools, then `shutdownAll()` | every registered pool is shut down and the registry ends empty | high; not executed | Pool.WorkerPool.ShutdownAllAsWritten, Pool.ShutdownAllThreeAsWritten | Pool.WorkerPool.ShutdownAll |

Both `shutdownAll` members use the corrected `shutdown`. With the shutdown as
written, `shutdownAll` also stops at the first pool that has a worker.
