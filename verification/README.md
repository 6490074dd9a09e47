# Verified model of the single-worker chunk store

The project models the V1 storage path of a distributed object store: a client that uploads and downloads
whole files, the gRPC frames between client and worker, and `FileChunkStore`, which keeps one file per chunk
in one directory without any lock. Every file is Dafny; `dafny verify dfyconfig.toml` checks all of it.

## What is proved, in short

- **One atomic map.** Put, Delete, Head and Get calls, any number of them, interleaved at every system call,
  behave as one map, one operation for each call and through any restarts of the worker: Put inserts if absent at
  `link`, Delete removes if present at `unlink`, Head looks up at its open, and a Get that answers Ok, NotFound or
  InvalidArgument reads its range at one of its two opens (`Linearizability`). Links minus unlinks of an id account exactly for its presence, so of
  racing Puts at most one commits.
- **Crashes.** The worker may die alone, with all pending directory changes kept, or with its machine. After a crash
  at any step, with any subset of the unsynchronized directory changes surviving and
  any garbage in unsynchronized files, every visible chunk is complete, has the digest its header states, and
  was put under that id. A chunk whose Put answered Ok is still there, byte for byte, unless its id was
  unlinked after its link (`CrashSafety`).
- **The code follows the protocol.** Put, Head, Get and Delete are methods over a thread of system calls, each
  of which may fail, be interrupted, or do part of the work, while the rest of the machine takes any steps
  before it (`Os`). The methods record each directory change and each open for reading as a step of the machine,
  and a step is accepted only where the machine allows it: skipping fdatasync, a check, the close, or the cleanup
  does not verify. Their contracts state every answer with what it means, the directory changes behind it, and
  that no descriptor is leaked.
- **End to end.** If a client Put answers Ok and the id is not unlinked, then a later client Get, whatever ran or
  crashed in between and in the middle of the calls, either leaves a file equal to the uploaded one or fails on
  the way; it never answers NotFound, InvalidArgument or Corruption; and it does answer Ok when no system call
  and no step of the connection fails (`EndToEnd`). The destination is created exactly when the answer is Ok.
- **What the code does not keep.** Some stronger promises are false. Each has its exact condition:
  - A Put that failed has stored its chunk exactly if the directory fsync after its link failed (`Outcomes`).
  - A crash can bring a deleted id back exactly if no directory fsync has succeeded since the unlink (`CrashSafety`).
  - Get answers Corruption on an undamaged store, and is then not one lookup of the map, exactly if its range is not
    empty and fits the chunk of its first open but not that of its second (`FileChunkStore`).
  - A client Get that fails in GetChunk unlinks its temporary name once more. It removes a file of another program
    only if the exclusive create had failed or its own file was gone already (`Client.Trespass`).
  - A client Put whose first Write failed answers by the status of the call alone. Its Ok hides another answer exactly
    if the metadata arrived all the same, against the promise of gRPC (`Client.WhenOkIsWrong`, `Channel.drops`).

  `Scenarios` holds runs that break the first three.

## How the model is built

| module | models |
|---|---|
| `Types`, `Names`, `Codec` | bytes, u64, checks on ids, checksums and ranges; hex text and file names; the header |
| `Posix` | inodes, the directory as processes see it and as it is on disk, and what a crash makes of them |
| `Protocol`, `Invariant`, `Runs` | the machine: program counters of Put and Delete over single system calls, its invariant, its runs |
| `Linearizability`, `CrashSafety`, `Outcomes` | theorems on whole runs |
| `Scenarios` | runs that exist: a Put that nothing disturbs, and those that break promises stronger than the code keeps |
| `Os`, `Descriptors`, `Streams`, `FileChunkStore` | one worker thread: system calls with interference, `UniqueFd`, the RPC streams, the store |
| `StatusCodes`, `Network`, `WorkerService`, `LocalFiles`, `Client`, `EndToEnd` | the wire, handlers, the client and its file system, the round trip |
| `FdOwnership` | arbitrary programs over `UniqueFd` objects |

Assumptions, all of them in the code as plain definitions: POSIX semantics of the calls used; a file holds at
most 2^63 - 1 bytes; fdatasync and fsync of the directory that report success have made their data durable; the
storage root itself is durable; EINTR occurs finitely often. BLAKE3 is an arbitrary function to 32 bytes.
`>>`, `<<` and `|` on unsigned integers are defined by arithmetic, bit by bit for `|`. A system call and the
`Record` after it are one atomic step: no other thread moves between them. Of gRPC: a call that ends with status
OK has delivered all its messages, and the library itself reports only the statuses listed in `Network`; that a
message whose Write failed does not arrive is relied on only where a contract says so (`Channel.drops`).

Failures are counted: `faults` of a thread and of the client's file system, `losses` of a channel; `refused` counts
names found taken or missing on the client. A contract
that speaks of an unchanged count says what happens when nothing fails. A worker that dies in the middle of a
call is a loss; `Os.Thread.Die` lets the call take any of its steps before that.

Larger C++ functions are divided: `Put` is `Prepare`, `Fill` (with `Receive`, `ReceiveSome` and `Absorb`), `Publish` (with
`Seal`, `LinkFinal`, `Commit`, `Settle`) and `Abandon` for the failure exits; `Get` is `Head`, then `SendFrom`
with the loop `SendRange`. `hide` at the start of a body keeps definitions out of a proof that does not need them.

Where code and documentation differ the model follows the code. docs/01 (core types and interface contracts)
describes kCorruption from Get as damage to the stored content, including its checksum. The code never hashes
in Get, and it answers kCorruption on an undamaged store when the id is deleted and put again, smaller, between
its two opens: `Get` states exactly when, and `ChunkMayShrinkBetweenOpens` shows such a run.

## Model

| member | source | states |
|---|---|---|
| Types.ValidateByteRange | src/storage/types/byte_range.cpp:5-54 | Ok exactly when offset + size <= total over the integers, though the code never adds them |
| Names.DigestTextIsFaithful | src/storage/types/checksum.cpp:11-55 | every digest prints as text that ValidateChecksum accepts, and comparing texts decides equality of digests |
| Names.ChecksumsAreDigestTexts | src/storage/types/checksum.cpp:11-55 | ValidateChecksum accepts a text exactly if it is the printed form of some 32-byte digest |
| Names.FinalizeHex | src/storage/worker/file_chunk_store.cpp:114-124 | the nibble-table loop yields the hex text of the digest of all bytes absorbed |
| Names.PathFor | src/storage/worker/file_chunk_store.cpp:140-149 | the push_back loop builds the hex name with its suffix |
| Names.FinalNamesAreInjective | src/storage/worker/file_chunk_store.cpp:140-149 | two ids share a chunk file only if they are equal, for all byte strings |
| Names.FinalNamesStayInRoot | src/storage/worker/file_chunk_store.cpp:140-149 | a chunk file name holds no separator and is neither dot nor dot-dot |
| Names.TempIsNotFinal | src/storage/worker/file_chunk_store.cpp:163-167 | no temporary name is the chunk file name of any id |
| Names.TempNamesAreInjective | src/storage/worker/file_chunk_store.cpp:163-167 | a temporary name determines id, pid and stream address |
| Names.DecimalReadsBack | src/storage/worker/file_chunk_store.cpp:163-167 | a number in a temporary name is printed in base ten without leading zeros |
| Codec.MakeHeader | src/storage/worker/file_chunk_store.cpp:63-72 | the shift-and-mask loop writes magic, little-endian size and checksum |
| Codec.DecodeSize | src/storage/worker/file_chunk_store.cpp:90-93 | shifting and OR-ing the eight bytes yields the number they stand for, within u64 |
| Codec.HeaderFields | src/storage/worker/file_chunk_store.cpp:63-97 | reading a header back gives the size and checksum it was made from, for every u64 |
| Codec.HeaderOfFields | src/storage/worker/file_chunk_store.cpp:63-97 | any 80 bytes that start with the magic are the header of the fields read from them |
| Codec.AcceptedByFields | src/storage/worker/file_chunk_store.cpp:87-111 | what ReadHeader looks at holds exactly for a header followed by as many bytes as it says |
| Codec.AcceptedFieldsAreUnique | src/storage/worker/file_chunk_store.cpp:74-112 | a file has at most one accepted size and checksum |
| Posix.SurvivorsHaveASource | src/storage/worker/file_chunk_store.cpp:229-232 | a directory entry found after a crash was on disk or in a pending update |
| Posix.UntouchedEntriesSurvive | src/storage/worker/file_chunk_store.cpp:229-232 | an entry on disk that no pending update touches survives every crash |
| Posix.CrashesGarble | src/storage/worker/file_chunk_store.cpp:213-217 | a crash can give a file that was not synchronized any content, and cannot touch a synchronized one |
| Invariant.StepKeepsInv | src/storage/worker/file_chunk_store.cpp:151-297 | every system call of every call, every crash and every restart keeps the invariant of the whole store |
| Runs.RunInv | src/storage/worker/file_chunk_store.cpp:151-297 | the invariant holds in every state of every run from an empty store |
| Runs.VisibleChunksAreComplete | src/storage/worker/file_chunk_store.cpp:163-228 | whatever a reader can open is header plus payload of that length and digest, synchronized, with no writer |
| Runs.VisibleIffNamed | src/storage/worker/file_chunk_store.cpp:236-247 | an id is visible exactly while its name is in the directory |
| Runs.FrozenIsImmutable | src/storage/worker/file_chunk_store.cpp:213-228 | a synchronized and closed file keeps its bytes through every later call, unlink and crash |
| Runs.OthersKeep | src/storage/worker/file_chunk_store.cpp:163-232 | over any interference a call's place, its file and its descriptor stay as they were |
| Linearizability.StepRefines | src/storage/worker/file_chunk_store.cpp:219-297 | a system call is invisible or exactly one legal operation of the atomic map |
| Linearizability.RunsAreLinearizable | src/storage/worker/file_chunk_store.cpp:151-297 | any interleaving of Put, Delete, Head and Get is a legal sequential history of the map, one event for each call with its answer, and ends in its final state |
| Linearizability.LinksAreConserved | src/storage/worker/file_chunk_store.cpp:219-297 | links minus unlinks of an id equal the change in its presence |
| Linearizability.AtMostOneCommit | src/storage/worker/file_chunk_store.cpp:219-228 | with no unlink between, at most one Put of an id commits, and none if it was there |
| Linearizability.RebindingNeedsRemoval | src/storage/worker/file_chunk_store.cpp:219-297 | an id shows another chunk only after an unlink of it |
| CrashSafety.DirectoryIsDiskPlusPending | src/storage/worker/file_chunk_store.cpp:151-297 | the directory that processes see is always the synchronized one with every pending change applied |
| CrashSafety.BindingsWereCommitted | src/storage/worker/file_chunk_store.cpp:205-228 | every name bound now or possibly after a crash was linked by a Put that had verified these bytes |
| CrashSafety.SurvivorsAreVerified | src/storage/worker/file_chunk_store.cpp:205-233 | after any crashes a visible chunk has the digest it states and was put under its id |
| CrashSafety.AcknowledgedChunksSurvive | src/storage/worker/file_chunk_store.cpp:213-233 | a chunk whose Put answered Ok survives every crash unless its id was unlinked after the link |
| CrashSafety.CrashOutcomes | src/storage/worker/file_chunk_store.cpp:219-232 | a crash can leave a name bound to an inode exactly if the disk or a pending update binds it so |
| CrashSafety.CrashLosses | src/storage/worker/file_chunk_store.cpp:219-232 | a crash can lose a name exactly if it is not on disk or a pending update removes it |
| CrashSafety.SurvivesExactlyIfUntouched | src/storage/worker/file_chunk_store.cpp:219-232 | an entry survives every crash exactly if it is on disk and no pending update contradicts it |
| CrashSafety.ComesBackFromDiskOrLink | src/storage/worker/file_chunk_store.cpp:287-297 | an id can be there after a crash exactly while the disk or an unsynchronized link has its name |
| CrashSafety.DeletedIdsMayComeBack | src/storage/worker/file_chunk_store.cpp:287-297 | a deleted id can come back exactly if no directory fsync has succeeded since the unlink |
| CrashSafety.FlushedDeletesLast | src/storage/worker/file_chunk_store.cpp:229-297 | a delete followed by a directory fsync lasts through every crash until the id is put again |
| Outcomes.StoryHolds | src/storage/worker/file_chunk_store.cpp:151-297 | in every reachable state the directory changes of a call are those its place in the code tells |
| Outcomes.WhenFailedPutsHaveStored | src/storage/worker/file_chunk_store.cpp:167-233 | in every run, a Put that failed has stored its chunk exactly if the directory fsync after its link failed; else it changed nothing that readers see |
| Scenarios.UndisturbedPut | src/storage/worker/file_chunk_store.cpp:151-234 | from every reachable state, a Put that finds its names free can run to its end and make the chunk visible, whether or not the last fsync succeeds |
| Scenarios.FailedPutMayHaveStored | src/storage/worker/file_chunk_store.cpp:229-232 | a run in which Put answers kIoError and its chunk is visible |
| Scenarios.DeletedChunkReturns | src/storage/worker/file_chunk_store.cpp:287-297 | a run in which Put and Delete answer Ok and a crash may bring the chunk back |
| Scenarios.ChunkMayShrinkBetweenOpens | src/storage/worker/file_chunk_store.cpp:249-285 | a run whose states at the two opens of a Get make it answer kCorruption |
| Os.Thread.Die | src/storage/worker/file_chunk_store.cpp:151-297 | a worker that dies in the middle of a call, alone or with its machine, leaves a state that part of the call and a restart or crash can reach |
| Os.Thread.Write | src/storage/worker/file_chunk_store.cpp:31-44 | one write: any part of the data, EINTR or an error, after any steps of other threads |
| Os.Thread.Pread | src/storage/worker/file_chunk_store.cpp:46-61 | one pread: any non-empty part of what is there, EINTR or an error |
| Os.Thread.Link | src/storage/worker/file_chunk_store.cpp:219-227 | link never replaces a name |
| Os.Thread.Record | src/storage/worker/file_chunk_store.cpp:151-297 | a system call is accepted only as a step the machine allows, with exactly its effect |
| FileChunkStore.WriteAll | src/storage/worker/file_chunk_store.cpp:31-44 | writes all the data under every schedule of short writes and EINTR, or reports a real fault |
| FileChunkStore.PreadSome | src/storage/worker/file_chunk_store.cpp:46-61 | some bytes at the offset, 0 only at the end of the file, InvalidArgument only beyond off_t |
| FileChunkStore.ReadHeader | src/storage/worker/file_chunk_store.cpp:74-112 | for any stable file: Ok exactly if it is accepted, with its unique fields, else kCorruption |
| FileChunkStore.Receive | src/storage/worker/file_chunk_store.cpp:179-208 | absorbs the stream in order within size + 1 reads; kInvalidArgument only for a forbidden frame, kCorruption only for more bytes than announced |
| FileChunkStore.Put | src/storage/worker/file_chunk_store.cpp:151-234 | each answer from the bytes, the frames, the id and the checksum of the request; kIoError exactly if a system call other than the cleanup failed; kUnavailable only if the temporary name is taken; kAlreadyExists only if the id was visible at `link`, and a link inserts exactly this chunk for an absent id; Ok means durable; no descriptor left |
| FileChunkStore.OpenChunk | src/storage/worker/file_chunk_store.cpp:236-262 | the open of a chunk file finds what the map holds at that moment |
| FileChunkStore.Head | src/storage/worker/file_chunk_store.cpp:236-247 | the answer of the map at the open; kInvalidArgument exactly for ids that are empty or longer than 1024 bytes; never kCorruption on a sound disk |
| FileChunkStore.SendRange | src/storage/worker/file_chunk_store.cpp:264-284 | the output gets a prefix of the slice of one immutable file, all of it if Ok; no offset wraps |
| FileChunkStore.Get | src/storage/worker/file_chunk_store.cpp:249-285 | snapshot of one chunk under concurrent deletes and puts: what was sent is the prefix of its range; each status with the states that justify it; kCorruption exactly if the chunk shrank between the opens |
| FileChunkStore.GetTakesEffect | src/storage/worker/file_chunk_store.cpp:249-285 | a Get that answers Ok, NotFound or InvalidArgument is one lookup of the map, with exactly the bytes it sent, at one of its opens |
| FileChunkStore.Delete | src/storage/worker/file_chunk_store.cpp:287-297 | removes the id from the visible map exactly if Ok, found it absent if kNotFound, kInvalidArgument exactly for improper ids, else changed nothing |
| Streams.RpcInputStream.Read | src/rpc/services.cpp:97-120 | delivered bytes plus unread bytes stay the payload; 0 exactly when none is left |
| Streams.FramingIsTransparent | src/storage/client/data_plane_client.cpp:137-156 | however a payload is cut into frames, the reader gets the payload |
| Streams.FlatOfFewer | src/storage/client/data_plane_client.cpp:137-157 | a stream that ends early delivers a prefix and nothing else |
| Streams.PayloadEndsAtFirstBad | src/rpc/services.cpp:97-120 | the payload is all data before the first frame that is no data or empty data, and the stream is cut exactly if there is one |
| Streams.RpcOutputStream.Write | src/rpc/services.cpp:131-136 | a frame is accepted whole or the client is gone |
| WorkerService.PutChunk | src/rpc/services.cpp:156-173 | metadata first, then the answer of Put for the payload in the frames, each code with its cause in the stream and the request |
| WorkerService.GetChunk | src/rpc/services.cpp:175-185 | frames sent are a prefix of the range of one chunk, all of it if Ok; each code with its cause, kInvalidArgument for every improper id |
| WorkerService.HeadChunk | src/rpc/services.cpp:187-202 | size and checksum of the chunk the id had during the call; each code with its cause, kInvalidArgument exactly for improper ids |
| WorkerService.DeleteChunk | src/rpc/services.cpp:204-213 | the answer of Delete, in the response |
| Client.HashFile | src/storage/client/storage_client.cpp:19-50 | size and digest text of exactly the bytes of one pass over the file |
| Client.WriteAll | src/storage/client/data_plane_client.cpp:102-114 | appends all the data or reports a real fault |
| Client.SendFrames | src/storage/client/data_plane_client.cpp:129-156 | metadata, then non-empty frames that join to what was read of the file |
| Client.PutChunk | src/storage/client/data_plane_client.cpp:118-162 | Ok, if the first Write was not refused and sent all the same, means the worker durably holds a verified prefix, of the requested size, of what was read; each code of the worker arrives with its meaning; all was sent if nothing failed |
| Client.GetChunk | src/storage/client/data_plane_client.cpp:164-203 | Ok leaves exactly the range of one chunk, synchronized; a failure leaves no file unless unlink fails; each code of the worker arrives with its meaning, each other one with its cause |
| Client.StorageClient.Put | src/storage/client/storage_client.cpp:59-69 | Ok means the worker durably holds the file, if the file did not change; every code with its cause: a missing file is kIoError, an improper id kInvalidArgument; with no failure Ok or kAlreadyExists unless a temporary name was taken |
| Client.StorageClient.Get | src/storage/client/storage_client.cpp:71-107 | the destination is created exactly if Ok, from a synchronized file with the size and digest of the Head answer; every code with its cause, kInvalidArgument for an empty id; no descriptor left; what happens to the temporary name, shared with other programs or not |
| Client.DownloadNamesAreInjective | src/storage/client/storage_client.cpp:81-85 | downloads to one destination share a temporary name only if pid and counter are equal; Get uses a counter value once |
| EndToEnd.RoundTrip | src/storage/client/storage_client.cpp:59-107 | after an acknowledged Put and no unlink, a Get gives the same bytes or fails on the way, never NotFound, InvalidArgument or Corruption |
| EndToEnd.CorruptionNeedsReplacement | src/storage/client/storage_client.cpp:71-98 | a client finds a download corrupt only if the id was unlinked, or the worker crashed, during the Get |
| EndToEnd.DownloadHasTheDigestOfOneChunk | src/storage/client/storage_client.cpp:86-98 | a download has the digest of a chunk that was put under the id and was visible at Head |
| EndToEnd.PutThenGet | src/storage/client/storage_client.cpp:59-107 | upload, any activity and crashes, download: the new file is the old one, and there is one if nothing fails |
| Descriptors.UniqueFd.Reset | include/storage/common/unique_fd.h:68-73 | closes the held descriptor exactly if there is one and it is not the new one |
| Descriptors.UniqueFd.MoveFrom | include/storage/common/unique_fd.h:30-35 | ownership moves, self-assignment changes nothing |
| FdOwnership.StepIsSound | include/storage/common/unique_fd.h:13-73 | no operation gives a descriptor two owners or an owner a closed descriptor |
| FdOwnership.StepClosesOnlyItsOwn | include/storage/common/unique_fd.h:59-73 | an operation closes at most the open descriptor it owned; released ones are never closed |
| FdOwnership.LooseOnlyByRelease | include/storage/common/unique_fd.h:30-66 | a descriptor loses its owner, but stays open, by release() only |
| FdOwnership.DestructorsClose | include/storage/common/unique_fd.h:24-27 | a destructor closes what its object holds, exactly if it holds something |
| FdOwnership.EachOpenIsClosedOnce | include/storage/common/unique_fd.h:13-73 | over any program, opens and closes of a descriptor balance up to whether it is still open, and what is open has its one owner or was never taken over after its open or release() |
| FdOwnership.NothingLeaks | include/storage/common/unique_fd.h:24-35 | when all objects are destroyed, an open descriptor was never taken over after its open, or given up by release() |
| StatusCodes.CodesSurviveTheWire | src/rpc/services.cpp:27-92 | helper: both channels hand over every status code unchanged and never turn a failure into Ok |
| FileChunkStore.PutReportsWhatItDid | src/storage/worker/file_chunk_store.cpp:167-233 | helper: from the changes of a Put one can tell whether it stored its chunk, failed after that, or lost a race |
| Client.WhenOkIsWrong | src/storage/client/data_plane_client.cpp:118-162 | helper: the Ok of a call hides another answer of the worker exactly if the first Write failed and yet arrived |
| Descriptors.ResetIsAStep | include/storage/common/unique_fd.h:68-73 | helper: what Reset does to object and descriptor table is a step of the ownership model |
| Descriptors.MoveIsAStep | include/storage/common/unique_fd.h:30-35 | helper: so is move assignment, self-assignment included |
| Invariant.OtherProcInv | src/storage/worker/file_chunk_store.cpp:163-232 | helper: no call disturbs the temporary file, its name, or the descriptor of another |
| Names.UnhexOfHex | src/storage/worker/file_chunk_store.cpp:114-124 | helper: the two-characters-per-byte text can be read back: printing loses nothing |
| StatusCodes.WireValues | proto/common.proto:13-24 | helper: the numbers of the enumeration on the wire, and what foreign values are taken for |
| Names.LiteralsAreAscii | src/storage/worker/file_chunk_store.cpp:114-124 | helper: digits, suffix and separators are the literals of the source |
| Codec.MagicIsAscii | src/storage/worker/file_chunk_store.cpp:22-24 | helper: the magic is the literal of the source |
| FileChunkStore.LinkSeesTheMap | src/storage/worker/file_chunk_store.cpp:219-227 | helper: at its link a Put inserts into the visible map, or finds the id there |
| FileChunkStore.UnlinkSeesTheMap | src/storage/worker/file_chunk_store.cpp:287-297 | helper: at its unlink a Delete removes from the visible map, or finds the id absent |
| Descriptors.DestructionIsAStep | include/storage/common/unique_fd.h:24-27 | helper: destruction, too, is a step of the ownership model |

## Left out

- FileChunkStore.Put: the input is the RPC stream, not an arbitrary implementation of the stream interface; the frames are arbitrary.
- Client.GetChunk: frames are received after the worker has sent them; the client's files and the worker's store are separate, so the order between them shows nowhere.
- Client.CallPut: a worker that dies during a call may have taken any steps of the store but a removal; the model does not tie them to the frames it had received.
- Client.HashFile: a file is not rewritten in place during one pass over it; it may change between the passes.
- Client.StorageClient.Get: once this client has created the temporary file, other programs leave it alone; before that, and after it is gone, they may use the name.
- BLAKE3 itself, gRPC transport, deadlines and protobuf encoding (including UTF-8 checks on ids); a call may lose the end of a stream, the whole call, or the answer, and the worker may die during it.
- Status messages, errno text, the single-valued checksum algorithm tag, and the null check for a worker without a data plane.
- File permissions, O_NOFOLLOW, name length limits and create_directories beyond success and failure; they appear as failing system calls.
- `Size` and `Exists`, which forward to Head, and the pass-through `DataPlaneService`, whose checks are in the handlers.
- Control plane, health calls, configuration, logging, command line and benchmarks.
