# A Dafny model of the CLI's RPC layer and its neighbours

This project models the algorithms of the repository that are hard to get right by reading one function
at a time, and proves what they promise. `dafny verify dfyconfig.toml` checks all of it.

| file | models |
|---|---|
| `RpcStreams.dfy`, `RpcStreamSafety.dfy`, `RpcStreamInserts.dfy`, `RpcStreamOpen.dfy`, `RpcStreamDrain.dfy` | the inbound half of the stream multiplexer: `Streams` and the `write_loop` tasks it spawns, one atomic action per lock section, per partial write and per failure |
| `RpcOutbound.dfy` | the outbound half: `register_stream` and its reader tasks, on a channel that may close at any time |
| `RpcDispatch.dfy` | `call` and `dispatch_with_partial`, with the three `register_*` wrappers: replies and callbacks in any interleaving |
| `MessagePack.dfy`, `MsgPackCodec.dfy` | the MessagePack wire format and the incremental codec of the receive loop |
| `Singleton.dfy` | processes that race for a lock file and a socket, crash, and leave stale bytes behind |
| `DownloadCache.dfy` | the LRU cache: its list in memory, the JSON file, and the directories, with every failure the code can meet |
| `Keyring.dfy` | a credential split over size-limited keyring entries with a continuation marker |
| `SafeToString.dfy` | the console serializer's walk, which is a depth-first search of an arbitrary object graph |
| `LineBuffer.dfy` | the bounded line buffer around stdout and stderr |
| `ImportMerge.dfy`, `TextEdits.dfy` | the protocol sync script: import merging, formatter edits, indentation |
| `DomainRecords.dfy`, `DomainVerdict.dfy`, `DomainParsers.dfy`, `DomainLines.dfy`, `DomainVerify.dfy`, `DomainTxt.dfy` | domain association records: the verdict, the two record readers and what they make of any line, the way from lines to verdict, the TXT answer decoder |
| `Common.dfy` | shared types and sequence facts |

Code that updates state in place is a class whose methods are proved against a function of the old state;
concurrent code is a state machine (`State`, `Action`, `Next`) built from the same functions, and the main
results hold for every run (`Run`, `Exec`) of it. Fields marked as history are not in the code; they record
what happened, so that properties can be stated.

Some things the code or its comments suggest are false of it. Each comes with the exact condition under
which it does hold, proved for all inputs or runs, and where a concrete input or run says more, with that:

- The id counter is 32 bits wide and wraps. An insert under the id of a busy stream loses at once what is
  queued for that stream (`InsertLosesBytesIff`, `WrappedIdLosesData`), and even with nothing queued lets the
  old stream's loop deliver the new stream's data (`WrappedIdMisdelivers`). An insert is safe, however the
  system goes on, if and only if its id is free or the stream that has it is idle (`InsertIsSafeIff`), and the
  invariant of the streams holds all through a run if and only if every insert is so
  (`RpcStreamSafety.InvThroughoutIff`). A stream may be announced while another of the same id is open
  (`WrappedIdIsAnnouncedTwice`); what is sent keeps to what was read all through a run if and only if no
  announcement does that or names an id twice (`RpcOutbound.InvThroughoutIff`). A response may run the callback
  of another call (`WrappedIdStealsResponse`). Up to 2^32 allocations none of this happens
  (`RpcStreamSafety.FewAllocsAreFresh`, `RpcOutbound.FewAllocsAreFresh`, `FewAllocsNoReplacing`).
- A response that arrives before `call` has stored its callback is dropped, and the call stays pending
  (`EarlyResponseIsLost`). A message with neither a method nor an id panics under the lock of the pending calls
  and poisons it for good (`PoisonedIff`, `PoisonedResponseIsLost`). `CallbackIff` says for every run which
  callbacks have run.
- The retries of a singleton's clients are meant to cover a lock file that is not written out yet. But until
  the last byte is written, what an earlier singleton left behind can make the file read as a matter that is
  not the holder's, even one that nobody wrote (`HalfWrittenMisleads`), and the client gives up when the process
  it names has exited. A read names the holder whatever the
  file held before if and only if the file is written out (`ReadNamesHolderIff`).
- A credential whose sealed length is a multiple of the part size cannot be read back, nor one whose last
  part ends in the marker (`RoundTripIff`).
- `safeToString` is commented as a guard against circles, but marks every object that is referred to twice
  (`SharedIsMarkedWithoutACycle`): the output has no mark if and only if the objects form a tree
  (`UnmarkedIff`).
- Import merging throws on a text line that looks like the placeholder of a module nobody imports
  (`MergeThrowsIff`), and turns one that names an imported module into a second import. It keeps the shape of a
  file if and only if there is no such line (`SkeletonKeptIff`), and merging twice is merging once if and only
  if, besides, no module has both a type import of `X` and a value import of `type X` (`MergeIdempotentIff`,
  `ImposterIsNotIdempotent`).
- A cache directory whose removal failed half-way is handed out as if it were complete
  (`FailedRemovalIsHandedOut`), and so is another entry's given-up build to a caller who asks for its staging
  name (`AbandonedBuildIsHandedOut`). `CompleteIff` says which directories are complete. A restart forgets the
  directories the saved list does not name (`UnsavedRestartOrphans`): all are listed throughout a run if and
  only if every restart finds a list that names them all (`ListedThroughoutIff`).
- A TXT answer with an escaped quote or backslash, or with several strings that are all empty, is not decoded
  to its strings (`DecodesIff`).

## Model

| member | source | states |
|---|---|---|
| RpcStreams.Streams.Insert | vscode/cli/src/rpc.rs:575-584 | the record map afterwards: a fresh idle record with the write half under the id, everything else as before |
| RpcStreams.Streams.Write | vscode/cli/src/rpc.rs:564-573 | the new record map and whether a loop task was spawned: the buffer is queued only if the stream is mapped, and a loop starts exactly if the record still had its half |
| RpcStreams.Streams.Remove | vscode/cli/src/rpc.rs:543-562 | the new record map and whether the half was taken for shutdown: idle streams lose their record, busy ones are marked as ended, unknown ids change nothing |
| RpcStreams.WriteLoop.LockSection | vscode/cli/src/rpc.rs:603-621 | one pass through the lock: batch taken, half returned, or loop left with the record removed, as the record's queue and `ended` flag say |
| RpcStreams.StepKeepsInv | vscode/cli/src/rpc.rs:542-631 | every lock section, partial write, write failure and shutdown keeps the ownership and conservation invariant, an insert provided that no busy stream has its id |
| RpcStreams.InsertKeepsInvIff | vscode/cli/src/rpc.rs:575-584 | an insert keeps the invariant if and only if its id is free or the stream that has it is idle |
| RpcStreams.InsertLosesBytesIff | vscode/cli/src/rpc.rs:575-584 | what an insert over a mapped id costs at once: the stream that was there is short of accepted bytes if and only if some are still queued for it and its sink has not failed |
| RpcStreamInserts.InsertIsSafeIff | vscode/cli/src/rpc.rs:575-584 | all continuations of an insert, short of further unsafe ones, deliver every mapped stream's accepted bytes to its own sink in order if and only if the id was free or its stream idle |
| RpcStreamSafety.RunKeepsInv | vscode/cli/src/rpc.rs:531-631 | the invariant holds after every run whose inserts find their ids free or their streams idle |
| RpcStreamSafety.InvThroughoutIff | vscode/cli/src/rpc.rs:542-631 | the invariant holds all through a run if and only if every insert finds its id free or its stream idle |
| RpcStreamSafety.FewAllocsAreFresh | vscode/cli/src/rpc.rs:397-400 | as long as at most 2^32 ids were allocated, every insert finds its id free |
| RpcStreamSafety.OneOwner | vscode/cli/src/rpc.rs:531-631 | in every state reached with safe inserts (id free or its stream idle), a mapped stream either has its half in an idle record (empty queue, not ended, no loop task) or has no half there and exactly one loop task |
| RpcStreamSafety.LoopFindsItsRecord | vscode/cli/src/rpc.rs:603-608 | with safe inserts the branch for a missing record is never taken: a loop's record exists, without a half, and belongs to the loop's stream |
| RpcStreamSafety.FifoDelivery | vscode/cli/src/rpc.rs:542-631 | in every run with safe inserts, what the sink got, then the loop's batch, then the queue is exactly what was accepted, in order; after a sink failure what it got is a prefix |
| RpcStreamSafety.ShutdownOnceComplete | vscode/cli/src/rpc.rs:559-630 | with safe inserts, a sink is shut down at most once, and then with everything accepted delivered (unless it failed) and its half in no record and no task |
| RpcStreamOpen.StaysOpen | vscode/cli/src/rpc.rs:542-631 | in every run with safe inserts, an inserted stream whose id nobody has removed or inserted under since is still mapped and current, not shut down and in no closing task, and has accepted exactly the buffers of all writes to its id since its insert |
| RpcStreamOpen.ClosedWasRemoved | vscode/cli/src/rpc.rs:543-562 | in every run with safe inserts, a stream that is shut down or being closed has had a `remove` of its id after its insert |
| RpcStreamInserts.WrappedIdLosesData | vscode/cli/src/rpc.rs:397-400 | a concrete run past the wrap of the counter in which an accepted byte ends up in no queue, task or sink, and a loop puts its half into another stream's record |
| RpcStreamInserts.WrappedIdMisdelivers | vscode/cli/src/rpc.rs:397-400 | a concrete run past the wrap of the counter in which a byte accepted for one stream is delivered to the sink of another, although nothing was queued when the second was inserted |
| RpcStreamDrain.TaskIsNotStuck | vscode/cli/src/rpc.rs:596-631 | a task of any kind always has a step to take |
| RpcStreamDrain.OwnStepEnds | vscode/cli/src/rpc.rs:596-631 | every own step of a task brings it closer to its end; a loop that ends has put its half back into its record, and a closing task that ends has shut it down |
| RpcStreamDrain.OtherStepDrains | vscode/cli/src/rpc.rs:542-631 | no step of any other task or caller, short of a write to the stream, changes what such a task has left to do |
| RpcStreamDrain.DrainRun | vscode/cli/src/rpc.rs:596-631 | over any run without writes to the stream, the steps the task has left plus the steps it took stay within the measure at the start |
| RpcStreamDrain.RemovedStreamDrains | vscode/cli/src/rpc.rs:543-631 | after `remove`, one task finishes the stream: never stuck, and once it has taken the steps it had left the sink is shut down exactly once, all accepted bytes delivered and the record gone |
| RpcOutbound.SeenMeans | vscode/cli/src/rpc.rs:453-524 | what a good view of one id at the far end amounts to: data and ends only between a stream's announcement and its end, no announcement before the previous stream's end, segments of 1 to 4096 bytes that concatenate to the streams' bytes |
| RpcOutbound.ReaderTask | vscode/cli/src/rpc.rs:484-522 | one reader, run to its end against any reads and a channel that refuses after any number of messages: its stream gets all bytes up to the first refused segment, and the end exactly if nothing was refused |
| RpcOutbound.AnnounceKeepsInvIff | vscode/cli/src/rpc.rs:458-474 | an accepted announcement keeps the invariant if and only if its ids are not open at the far end and different from each other |
| RpcOutbound.StepKeepsInv | vscode/cli/src/rpc.rs:453-524 | every step of registrations, readers and other senders keeps the far end's sessions of an id in line with the streams announced under it, an accepted announcement provided its ids are fresh |
| RpcOutbound.InvThroughoutIff | vscode/cli/src/rpc.rs:453-524 | that link holds all through a run if and only if every accepted announcement is fresh |
| RpcOutbound.FewAllocsAreFresh | vscode/cli/src/rpc.rs:397-400 | as long as at most 2^32 ids were allocated, every announcement is fresh |
| RpcOutbound.OutboundProper | vscode/cli/src/rpc.rs:453-524 | in every run with fresh announcements the messages of every id are in order and of proper size, and make as many sessions as streams were announced under it |
| RpcOutbound.OutboundComplete | vscode/cli/src/rpc.rs:488-512 | while the channel accepts, the session of a stream, reused ids included, has the bytes read but for the segment being sent, and has ended exactly if the reader finished |
| RpcOutbound.ClosedLosesOneSegment | vscode/cli/src/rpc.rs:488-522 | a closed channel costs a stream at most the one segment in flight; what its session has is a prefix, and complete if it ended |
| RpcOutbound.RunKeepsAnnouncements | vscode/cli/src/rpc.rs:458-474 | in every run what is announced are the registrations, each with exactly its own ids and its own request |
| RpcOutbound.RunSpawns | vscode/cli/src/rpc.rs:476-484 | in every run a stream whose task has been spawned has a reader |
| RpcOutbound.ReadersHoldReads | vscode/cli/src/rpc.rs:488-502 | in every run with fresh announcements, what a reader has are the bytes of all reads of its stream, in order |
| RpcOutbound.EndedIff | vscode/cli/src/rpc.rs:488-522 | in every run with fresh announcements, exactly the readers whose stream was read to its end are at the end or have sent it |
| RpcOutbound.OthersPass | vscode/cli/src/rpc.rs:453-524 | in every run as many messages of other senders arrive as were sent |
| RpcOutbound.WrappedIdIsAnnouncedTwice | vscode/cli/src/rpc.rs:397-400 | one allocation beyond 2^32 suffices for a run in which an id is announced while its stream is open |
| RpcDispatch.Dispatcher.StoreCallback | vscode/cli/src/rpc.rs:361-378 | the callback is stored under the wrapped id, replacing an older one, unless the lock is poisoned |
| RpcDispatch.Dispatcher.Dispatch | vscode/cli/src/rpc.rs:420-450 | what a message produces, which callback it runs and with which outcome, for known and unknown methods, responses, poisoned locks and messages with neither a method nor an id |
| RpcDispatch.OneReplyPerRequest | vscode/cli/src/rpc.rs:101-272 | in every run a message with a method and an id gets exactly one reply once its future is done and none before, any other message none; the reply carries its id, is a success exactly if a known handler returned, and has code 0 exactly if the parameters the message came with were bad |
| RpcDispatch.OthersWait | vscode/cli/src/rpc.rs:101-272 | a message gets a future exactly if it names a known method that is not synchronous, whatever comes of its parameters |
| RpcDispatch.StreamsFollowRequests | vscode/cli/src/rpc.rs:215-272 | in every run streams are announced exactly for the messages that name a duplex method with good parameters, and for the request the reply to the same message answers; for request 0 if the message has no id |
| RpcDispatch.ReceiveKeepsReplies | vscode/cli/src/rpc.rs:420-450 | dispatching keeps the account of replies sent and futures pending |
| RpcDispatch.CallbackOnce | vscode/cli/src/rpc.rs:342-381 | in every run, wrapped ids included, a callback runs at most once, only for a response with its call's id, and with the error or success that response carries |
| RpcDispatch.CallbackIff | vscode/cli/src/rpc.rs:342-450 | in every run, a call's callback has run if and only if a response with its id came after the callback was stored, with no other callback stored over it in between and no poisoning message before |
| RpcDispatch.StepFires | vscode/cli/src/rpc.rs:439-449 | for every step, poisoned locks and wrapped ids included: when it runs a given callback, and when that callback waits afterwards |
| RpcDispatch.PoisonedIff | vscode/cli/src/rpc.rs:439-449 | the lock on the calls is poisoned exactly if a message with neither a method nor an id has come |
| RpcDispatch.FewAllocsNoReplacing | vscode/cli/src/rpc.rs:397-400 | as long as at most 2^32 ids were allocated, no callback is stored over another |
| Common.NextWireId | vscode/cli/src/rpc.rs:397-400 | ids count up by one and start again at 0 behind the last |
| RpcDispatch.EarlyResponseIsLost | vscode/cli/src/rpc.rs:356-362 | a run in which a response comes before its callback is stored and the call stays pending |
| RpcDispatch.PoisonedResponseIsLost | vscode/cli/src/rpc.rs:439-449 | a run in which a poisoning message makes a pending call's response get lost |
| RpcDispatch.WrappedIdStealsResponse | vscode/cli/src/rpc.rs:397-400 | a run past the wrap of the counter in which a response with a pending call's id runs the callback of another call |
| MessagePack.ParseExtend | vscode/cli/src/msgpack_rpc.rs:143-161 | bytes that arrive later change neither a decoded value nor an error |
| MessagePack.ParsePrefix | vscode/cli/src/msgpack_rpc.rs:143-150 | exactly the proper prefixes of a value's bytes ask for more |
| MessagePack.DecodeEncode | vscode/cli/src/msgpack_rpc.rs:143-159 | an encoded value is read back from exactly its own bytes, whatever follows |
| MessagePack.FirstByteCountsMost | vscode/cli/src/msgpack_rpc.rs:143-150 | numbers are read with the most significant byte first |
| MessagePack.NumbersRead | vscode/cli/src/msgpack_rpc.rs:143-150 | numbers in every width of the format, signed and unsigned, shortest or not, are read as what they are |
| MessagePack.SizesRead | vscode/cli/src/msgpack_rpc.rs:143-150 | texts and blobs with a length of every width are read as what they are |
| MessagePack.FixedExtensionsRead | vscode/cli/src/msgpack_rpc.rs:143-150 | extensions of the fixed sizes are read with their tag and body |
| MessagePack.SizedExtensionsRead | vscode/cli/src/msgpack_rpc.rs:143-150 | extensions with a length of every width are read with their tag and body |
| MessagePack.ReservedByte | vscode/cli/src/msgpack_rpc.rs:143-157 | the one byte that starts no value is an error |
| MsgPackCodec.Codec.Decode | vscode/cli/src/msgpack_rpc.rs:139-162 | a complete value leaves the buffer as a frame with exactly its bytes; an incomplete one, an invalid one and a refused beginning leave the buffer as it was |
| MsgPackCodec.Codec.Receive | vscode/cli/src/msgpack_rpc.rs:66-97 | one turn of the receive loop takes out all complete frames, in order, up to an error |
| MsgPackCodec.DrainExtend | vscode/cli/src/msgpack_rpc.rs:66-97 | bytes that arrive later only continue what a drain has done |
| MsgPackCodec.DrainIsExhaustive | vscode/cli/src/msgpack_rpc.rs:71 | what a drain leaves behind is an incomplete value that is not refused |
| MsgPackCodec.ChunkingIrrelevant | vscode/cli/src/msgpack_rpc.rs:66-97 | however a byte stream is cut into reads, the frames, the leftover and the error are those of the whole stream, for every deserializer that takes no refusal back |
| MsgPackCodec.ChunkingIrrelevantIff | vscode/cli/src/msgpack_rpc.rs:66-97 | that holds for all streams and cuts if and only if the deserializer takes no refusal of a beginning back |
| MsgPackCodec.DrainConserves | vscode/cli/src/msgpack_rpc.rs:155-159 | frames and leftover concatenate to the input, and each frame decodes from its own bytes and no fewer |
| MsgPackCodec.MessagesArrive | vscode/cli/src/msgpack_rpc.rs:112-117 | messages sent one after the other arrive as sent, each with its bytes, for any chunking and even with an incomplete last message |
| Singleton.LockFile.WriteMatter | vscode/cli/src/singleton.rs:86-101 | whatever the file held, it reads back as the new socket and pid, and the rest of it stays |
| Singleton.StaleBytesIgnored | vscode/cli/src/singleton.rs:117-118 | stale bytes behind the current contents do not change what is read |
| Singleton.ReadsWritten | vscode/cli/src/singleton.rs:48-53 | exactly the value written for a socket and a pid is read as them |
| Singleton.RunKeepsInv | vscode/cli/src/singleton.rs:56-108 | over every run of starting, locking, partial writing, listening, dropping and crashing, exactly the locked phases hold the lock, and the file begins with as much of the holder's contents as it has written |
| Singleton.SingletonIsUnique | vscode/cli/src/singleton.rs:27-30 | in every run at most one process listens, it holds the lock, and the file names its socket and pid |
| Singleton.AliveIff | vscode/cli/src/singleton.rs:57-137 | in every run a process is there exactly from its start to the action it ends with; losing the race for the lock is none |
| Singleton.LockDecides | vscode/cli/src/singleton.rs:66-74 | in every run the lock goes to whoever asks while no live process is in a locked phase, and everybody else becomes a client |
| Singleton.ClientsRetryTenTimes | vscode/cli/src/singleton.rs:110-136 | in every run a client has counted its retries since it started, ten at most |
| Singleton.ClientsFindTheSingleton | vscode/cli/src/singleton.rs:112-128 | a client that reads the file while p listens learns p and its socket; after any further run only p ever listens on that socket, so the client connects to p or not at all |
| Singleton.HalfWrittenMisleads | vscode/cli/src/singleton.rs:113-118 | for every matter and every proper part of it written over an earlier singleton's file, a file on which the read succeeds with another pid, and with a mixture nobody wrote once part of the socket is written |
| Singleton.ReadNamesHolderIff | vscode/cli/src/singleton.rs:113-118 | a read names the holder whatever the file held before if and only if the holder has written out the file |
| Singleton.ConnectAsClientWithFile | vscode/cli/src/singleton.rs:112-137 | at most eleven passes; the first connection or exited process decides, else the last error is reported |
| Singleton.RetryGetSocketRwStream | vscode/cli/src/singleton.rs:139-153 | the first successful try is returned, and failure only after all tries failed |
| DownloadCache.PersistedState.LoadOrGet | vscode/cli/src/state.rs:46-59 | the list in memory, or the file's on first use, or an empty one |
| DownloadCache.PersistedState.Save | vscode/cli/src/state.rs:61-86 | the list in memory changes even when writing the file fails; what that leaves for the next process says `SaveAndRestart` |
| DownloadCache.SaveAndRestart | vscode/cli/src/state.rs:46-86 | what the next process finds: the saved list if the save succeeded, nothing if it failed half-way, else what was in the file before |
| DownloadCache.RestartFindsLastSave | vscode/cli/src/state.rs:46-86 | over every run, a restart finds the list that was in memory right after the last step that wrote the file, if that save succeeded, and an empty one if it failed half-way or nothing was ever saved |
| DownloadCache.RestartAfterSave | vscode/cli/src/state.rs:61-70 | right after a save that succeeded a restart changes nothing |
| DownloadCache.Cache.Touch | vscode/cli/src/download_cache.rs:119-139 | directories, list and file after a touch, for every outcome of eviction and save |
| DownloadCache.Cache.Exists | vscode/cli/src/download_cache.rs:52-60 | a directory that is there is found and touched, whatever its state; otherwise nothing changes |
| DownloadCache.Cache.Delete | vscode/cli/src/download_cache.rs:63-72 | directories, list and file after a removal; a failed one keeps the list |
| DownloadCache.Cache.Create | vscode/cli/src/download_cache.rs:78-117 | result, directories, list and file, for every outcome of cleaning, building, touching and the 21 renames |
| DownloadCache.CallsTakeSteps | vscode/cli/src/download_cache.rs:52-117 | what the methods do to directories, list and file is what the steps of a run do |
| DownloadCache.DeleteMeans | vscode/cli/src/download_cache.rs:63-72 | a removal that succeeds takes the directory and the name and leaves everything else as it was; one that fails leaves the list |
| DownloadCache.StepPresence | vscode/cli/src/download_cache.rs:52-139 | which directories come and go in a step, for every outcome of eviction, cleaning, building and renaming |
| DownloadCache.TouchFacts | vscode/cli/src/download_cache.rs:119-139 | a touch puts the name first and keeps its directory; besides it at most the last name goes, and only with its directory |
| DownloadCache.RunKeepsInv | vscode/cli/src/download_cache.rs:52-139 | over every run of whole calls, with restarts between any two, the list has no duplicates and is at most five plus the failed evictions long |
| DownloadCache.StepKeepsListedIff | vscode/cli/src/state.rs:46-70 | only a restart can drop a directory from the list, and it does if and only if the file does not name it |
| DownloadCache.ListedThroughoutIff | vscode/cli/src/download_cache.rs:52-139 | every directory but staging ones is listed all through a run if and only if each restart finds a file that names them all |
| DownloadCache.DamagedIff | vscode/cli/src/download_cache.rs:52-139 | after any number of whole calls and restarts between them, any directory is damaged if and only if a removal of it failed at some point, since when it has been there and has not been built anew |
| DownloadCache.CompleteIff | vscode/cli/src/download_cache.rs:52-139 | over every run, a directory is complete if and only if the last that happened to it was neither a failed removal nor a given-up build, the latter only possible in a staging directory |
| DownloadCache.HandedOutIsBuilt | vscode/cli/src/download_cache.rs:87-116 | `create` succeeds if and only if the directory was there, or was built to the end and renamed; what it hands out is complete or not by the history of that directory alone |
| DownloadCache.FoundIsBuilt | vscode/cli/src/download_cache.rs:52-60 | `exists` finds exactly the directories that are there, which its own touch leaves alone; the same about their completeness |
| DownloadCache.FailedRemovalIsHandedOut | vscode/cli/src/download_cache.rs:52-72 | a run after which a damaged directory is found by `exists` |
| DownloadCache.AbandonedBuildIsHandedOut | vscode/cli/src/download_cache.rs:89-97 | a run after which `create` hands out the unfinished staging directory of another entry |
| DownloadCache.UnsavedRestartOrphans | vscode/cli/src/state.rs:61-70 | a run with a failed save and a restart after which a directory is on no list |
| DownloadCache.RecentByLastUse | vscode/cli/src/download_cache.rs:119-124 | the reference order: exactly the names used, sorted by last use |
| DownloadCache.TouchesKeepTheRecent | vscode/cli/src/download_cache.rs:119-139 | after any touches whose evictions succeed, the list is the five names used last, latest first |
| Keyring.KeyringStorage.Store | vscode/cli/src/auth.rs:330-352 | the keyring and the open handles after a store, for every entry that may refuse and every cut inside a character |
| Keyring.KeyringStorage.Read | vscode/cli/src/auth.rs:308-328 | what the chain of continued entries gives, and which handles it leaves open |
| Keyring.KeyringStorage.Clear | vscode/cli/src/auth.rs:354-365 | exactly the opened entries are deleted, up to the first missing one; after success nothing can be read |
| Keyring.StoreThenRead | vscode/cli/src/auth.rs:308-352 | what a read gives after a store over any earlier keyring contents, in all cases of the last part |
| Keyring.RoundTripIff | vscode/cli/src/auth.rs:308-352 | a stored text comes back from every keyring if and only if its length is no multiple of the part size and its last part does not end in the marker; otherwise a fresh keyring gives nothing |
| Keyring.StorePanicsIff | vscode/cli/src/auth.rs:337-341 | a store panics exactly if a part boundary falls inside a character |
| Keyring.BoundaryIff | vscode/cli/src/auth.rs:337-341 | in a text of characters, the positions where it can be cut are exactly where a character starts, and the end |
| Keyring.StoreStops | vscode/cli/src/auth.rs:330-352 | for entries that refuse: exactly the parts before the first that is refused or cut inside a character are written, nothing else changes, and the result says which it was |
| Keyring.ReadStops | vscode/cli/src/auth.rs:308-328 | for entries that cannot be read: reading goes up to the first entry that fails, is missing or is not continued, and gives a text only in the last case, that of all entries up to it without their markers |
| Keyring.EntriesFit | vscode/cli/src/auth.rs:220-225 | no entry exceeds the limit |
| SafeToString.SlotsMean | vscode/src/bootstrap-fork.ts:53-65 | what the walk visits of an object: exactly its fields that are not absent, in order, each under its own name; of an array, every element |
| SafeToString.GraphMeans | vscode/src/bootstrap-fork.ts:53-65 | the graph the results speak of has an edge exactly where some field or element, read from the node itself, refers to an object |
| SafeToString.ReachesBigIntMeans | vscode/src/bootstrap-fork.ts:53-65 | a value that cannot be serialized is reachable exactly if some reachable node has it as a field or element |
| SafeToString.Stringifier.Serialize | vscode/src/bootstrap-fork.ts:53-65 | the serializer with its shared list computes the specified walk and leaves the list the walk leaves |
| SafeToString.WalkIsSearch | vscode/src/bootstrap-fork.ts:21-65 | on every finite object graph the walk ends, fails exactly if it can reach a value that cannot be serialized, and otherwise expands exactly the reachable objects, each once |
| SafeToString.VisitDenotes | vscode/src/bootstrap-fork.ts:53-65 | the output agrees with the graph wherever it does not say that an object was seen |
| SafeToString.MarksCountExtraReferences | vscode/src/bootstrap-fork.ts:55-61 | the output has one mark for every reference met beyond those expanded |
| SafeToString.UnmarkedIff | vscode/src/bootstrap-fork.ts:18-65 | the output has no mark if and only if no slot of a reachable object refers to the root and no two such slots refer to the same object |
| SafeToString.SharedIsMarkedWithoutACycle | vscode/src/bootstrap-fork.ts:18-20 | an acyclic graph whose output is marked all the same |
| SafeToString.SafeToString | vscode/src/bootstrap-fork.ts:21-75 | the text for any arguments: too large beyond the limit, uninspectable exactly if the graph is, else the rendered walk |
| SafeToString.RenderMeans | vscode/src/bootstrap-fork.ts:53-71 | the text: elements and members in order with commas between them, each member with its name, and the mark for what was seen |
| SafeToString.ArgumentsText | vscode/src/bootstrap-fork.ts:24-65 | the text for an absent argument, an error with a stack, one without, and a primitive: `undefined` as a string, the stack, the error as a string, and the primitive, in order |
| LineBuffer.Wrapper.Write | vscode/src/bootstrap-fork.ts:128-133 | nothing is lost or repeated, the buffer keeps no newline and at most 1 MiB, and everything is flushed, without a newline consumed, exactly on overflow |
| LineBuffer.Wrapper.LoggedCompleteLines | vscode/src/bootstrap-fork.ts:118-137 | exactly the complete lines have been logged, however the output was cut, if and only if nothing has been logged or the last thing logged ended a line |
| ImportMerge.Collect | vscode/scripts/sync-agent-host-protocol.ts:118-149 | the loop records every module's names in order and the lines with one placeholder per module |
| ImportMerge.MergeDuplicateImports | vscode/scripts/sync-agent-host-protocol.ts:111-169 | the code computes the specified merge, a throw included |
| ImportMerge.MergeThrowsIff | vscode/scripts/sync-agent-host-protocol.ts:151-154 | it throws exactly on a text line that looks like the placeholder of a module nobody imports |
| ImportMerge.SkeletonKeptIff | vscode/scripts/sync-agent-host-protocol.ts:151-169 | one import line per module, where its first import was, and every other line in its place, if and only if no text line looks like a placeholder |
| ImportMerge.MergeKeepsBindings | vscode/scripts/sync-agent-host-protocol.ts:106-169 | whenever the merge does not throw, the merged file binds exactly the same names from the same modules, as types or as values |
| ImportMerge.ImportLineBinds | vscode/scripts/sync-agent-host-protocol.ts:155-165 | the merged line of a module binds what all its lines bound together |
| ImportMerge.ImportLineOrder | vscode/scripts/sync-agent-host-protocol.ts:155-165 | in the merged line the values come before the types, and each kind keeps the order of its list |
| ImportMerge.NamesInFileOrder | vscode/scripts/sync-agent-host-protocol.ts:118-149 | the names of an earlier import of a module come before those of a later one |
| ImportMerge.UniqueKeepsOrder | vscode/scripts/sync-agent-host-protocol.ts:155-156 | leaving out repeated names keeps the order of first occurrence |
| ImportMerge.MergeIdempotentIff | vscode/scripts/sync-agent-host-protocol.ts:111-169 | merging again changes nothing if and only if no text line looks like a placeholder and no module imports a name as a type and also spells it `type name` in a value import |
| ImportMerge.ImposterIsNotIdempotent | vscode/scripts/sync-agent-host-protocol.ts:151-154 | a file without such a clash that changes shape when merged and again when merged again |
| TextEdits.ApplyEdits | vscode/scripts/sync-agent-host-protocol.ts:50-55 | applying ordered edits from last to first at their original offsets is applying them all at once, insertions at one offset included |
| TextEdits.NewTextAt | vscode/scripts/sync-agent-host-protocol.ts:50-55 | the new text of every edit stands in the result where the edit was, moved by what the edits before it added or removed |
| TextEdits.GapAt | vscode/scripts/sync-agent-host-protocol.ts:50-55 | every gap between edits, and those at the ends, stands in the result unchanged and moved in the same way |
| TextEdits.SimultaneousLength | vscode/scripts/sync-agent-host-protocol.ts:50-55 | the result is as long as the original and what all edits added or removed |
| TextEdits.ConvertExpandIff | vscode/scripts/sync-agent-host-protocol.ts:92-104 | expanding the tabs gives the line back if and only if no tab already followed an even number of leading spaces |
| DomainVerdict.Evaluate | vscode/cli/src/domain_association.rs:189-277 | matched, denied and reason are functions of the set of records alone, defined without the loop's flags; sources, warning and count as well |
| DomainVerdict.VerdictsCompare | vscode/cli/src/domain_association.rs:206-258 | two verdicts, on some records and on any permutation of those and more: equal without more, a denial stays, a record that denies all decides, and a match is lost exactly if an additional record denies all |
| DomainParsers.ParseRecordStrict | vscode/cli/src/domain_association.rs:287-342 | the token loop computes the fold over tokens that the agreement result is about |
| DomainLines.SameTextIff | vscode/cli/src/domain_association.rs:397 | ignoring case means by a table of the 26 letters, and nothing else |
| DomainLines.WordsMean | vscode/cli/src/domain_association.rs:391-397 | a value means yes, no or nothing exactly by the literal words, ignoring case |
| DomainLines.TrimStrips | vscode/cli/src/domain_association.rs:217 | trimming takes all white space off both ends and nothing else |
| DomainLines.StrictReadsIff | vscode/cli/src/domain_association.rs:287-342 | the strict reader takes exactly the lines all of whose tokens have an `=` and one of which has an address key |
| DomainLines.StrictReadsWhole | vscode/cli/src/domain_association.rs:301-313 | on any line it keeps source and text, and denies all exactly if some `solana-address` token has that value without its quotes and ignoring case |
| DomainLines.StrictReadsAllow | vscode/cli/src/domain_association.rs:315 | on any line `allow` is what the value of the last `allow` token means, and empty without one |
| DomainLines.StrictReadsDeny | vscode/cli/src/domain_association.rs:316 | the same for `deny` |
| DomainLines.StrictReadsNetwork | vscode/cli/src/domain_association.rs:317 | the network is the value of the last `network` token without its quotes, and empty without one |
| DomainLines.StrictReadsAddress | vscode/cli/src/domain_association.rs:302-314 | address and tag are those of the last token with an address key that does not deny all, and empty without one |
| DomainLines.CompatReadsTag | vscode/cli/src/domain_association.rs:344-366 | on any line the compat reader keeps source and text, and takes tag and deny-all from what occurs anywhere in it |
| DomainLines.CompatReadsWords | vscode/cli/src/domain_association.rs:362-363 | `allow` and `deny` are what the values behind the first occurrence of each key mean |
| DomainLines.CompatReadsNetwork | vscode/cli/src/domain_association.rs:364 | the network is the value behind the first occurrence of its key |
| DomainLines.CompatReadsAddress | vscode/cli/src/domain_association.rs:345-347 | the address is the value behind the first of the three keys, in their order, that has one that is not empty |
| DomainLines.ExtractIff | vscode/cli/src/domain_association.rs:369-385 | a value is the first token behind the first occurrence of key and `=`, without quotes, then apostrophes, then trailing commas, if anything is left |
| DomainParsers.ContainsInTokens | vscode/cli/src/domain_association.rs:352-365 | a substring without white space occurs in a line exactly if it occurs in one of its tokens |
| DomainParsers.ExtractInTokens | vscode/cli/src/domain_association.rs:369-385 | on well-formed tokens, searching a line for a key finds the value of the first token with that key |
| DomainParsers.ReadersAgree | vscode/cli/src/domain_association.rs:287-385 | on every well-formed line both readers produce the same record |
| DomainVerify.LineDecides | vscode/cli/src/domain_association.rs:206-258 | whichever reader read it, a well-formed line that gives the address asked for, its tag and its network, compared ignoring case, denies it if its `deny` is a yes word or its `allow` a no word, and allows it otherwise |
| DomainVerify.NetworkMeans | vscode/cli/src/domain_association.rs:279-285 | a record without a network is about the main network, and any other about its own, ignoring case |
| DomainVerify.MinimalMention | vscode/cli/src/domain_association.rs:211-219 | a line without an address counts only in minimal mode, for a valid key, and exactly if the address occurs in it |
| DomainVerify.OneLineCounts | vscode/cli/src/domain_association.rs:167-183 | a line counts as the strict reader has it in every mode; one it refuses counts for nothing in strict mode and as the compat reader has it in the others |
| DomainVerify.Verify | vscode/cli/src/domain_association.rs:166-186 | both lists of lines are read by mode and source, and the verdict is that on all records |
| DomainVerify.VerifyDecides | vscode/cli/src/domain_association.rs:166-277 | on well-formed lines, in every mode, the verdict in terms of the lines alone: denied exactly if some eligible line says no, matched exactly if some eligible line does not |
| DomainTxt.DecodeTxtAnswer | vscode/cli/src/domain_association.rs:423-439 | the loop and its fallback compute the decoding that `DecodesIff` is about |
| DomainTxt.DecodesParts | vscode/cli/src/domain_association.rs:423-439 | any answer, cut at its quotes: every other part if there is anything in them, else the text without the quotes at its ends |
| DomainTxt.DecodesUnquoted | vscode/cli/src/domain_association.rs:434-436 | an answer without quotes is decoded as it stands |
| DomainTxt.DecodesIff | vscode/cli/src/domain_association.rs:423-439 | an answer in the presentation form of RFC 1035, section 5.1, decodes to its strings run together if and only if no string needs an escape and there is some text or at most one string |

## Left out

- Tokio scheduling, sockets, named pipes, file locks, the keyring service, DNS and HTTP: they are steps that may happen in any order, or arguments that say what succeeded and what failed.
- Liveness of the select loop in `start_msgpack_rpc`, and the assurance that every call is eventually resolved: only safety is stated (the code does not promise more, as `CallbackIff` shows).
- Delivery after a sink failed: a failure is permanent here, and only the prefix property is stated for it.
- Registering a method twice (`register_sync` panics, the others replace), and messages that do not deserialize at all.
- The MessagePack decoder's depth limit, and a lock file written as a map of fields. How a type is deserialized, and which beginnings of a value it refuses, is an argument.
- `file_lock.rs` is not part of this model; the number of bytes it keeps locked is a parameter, and acquiring the lock is one step.
- RpcStreamSafety.FifoDelivery: for runs whose inserts find their ids free or their streams idle; any other insert has a continuation that breaks it (`InsertIsSafeIff`).
- RpcOutbound.OutboundProper: for runs whose announcements are fresh; any other breaks the invariant (`AnnounceKeepsInvIff`).
- Cache calls that overlap, and a process killed inside one, which can leave a directory half removed: each call is one step, and restarts come between calls.
- The regular expressions that collapse imports, match them and split their name lists: lines come matched and split.
- Keyring.RoundTripIff: texts that can be cut at part boundaries, because any other makes `store` panic (`StorePanicsIff`). Sealing and unsealing are not modelled.
- SafeToString.SafeToString: getters, `toJSON` and string escaping are not modelled; primitives, dates and regular expressions come with their JSON text.
- LineBuffer.Wrapper.Write: the call through to the original stream and the decoding of chunks are not modelled.
- DomainVerdict.Evaluate: whether an address decodes to 32 bytes is an argument.
- The language service that produces formatter edits: edits come as the ordered list it documents.
- OAuth flows, encryption, base58, prompts, the file storage of credentials, header stripping, launch scripts, lint rules, update tables and the code generator: tables, library calls or input and output.
