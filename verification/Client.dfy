/** GrpcDataPlaneClient and StorageClient, talking to the handlers of one worker. */
module Client {
  import opened Types
  import opened Names
  import opened Protocol
  import opened Runs
  import opened Os
  import opened Streams
  import opened StatusCodes
  import opened Network
  import opened LocalFiles
  import opened FileChunkStore
  import opened CrashSafety
  import WorkerService

  const HASH_BUFFER := 1024 * 1024

  // ---- Reading and writing local files ----

  // The do-while around ::read
  method ReadSome(local: LocalFs, fd: nat, count: nat) returns (r: IoReply, data: seq<byte>)
    requires fd in local.handles && local.handles[fd].Reading? && count > 0
    requires local.handles[fd].pos <= |local.handles[fd].bytes|
    modifies local`handles, local`interrupts, local`faults
    ensures var Reading(bytes, pos) := old(local.handles)[fd];
            match r
            case Count(n) =>
              && pos + n <= |bytes| && data == bytes[pos..pos + n] && (n == 0 <==> pos == |bytes|)
              && local.handles == old(local.handles)[fd := Reading(bytes, pos + n)] && local.faults == old(local.faults)
            case _ => r == Error && local.handles == old(local.handles) && local.faults > old(local.faults)
  {
    r, data := local.Read(fd, count);
    while r.Interrupted?
      invariant r.Interrupted? ==> local.handles == old(local.handles) && local.faults == old(local.faults)
      invariant !r.Interrupted? ==>
                  var Reading(bytes, pos) := old(local.handles)[fd];
                  match r
                  case Count(n) =>
                    && pos + n <= |bytes| && data == bytes[pos..pos + n] && (n == 0 <==> pos == |bytes|)
                    && local.handles == old(local.handles)[fd := Reading(bytes, pos + n)] && local.faults == old(local.faults)
                  case _ => local.handles == old(local.handles) && local.faults > old(local.faults)
      decreases if r.Interrupted? then 1 + local.interrupts else 0
    {
      r, data := local.Read(fd, count);
    }
  }

  /** The size and the digest text of one pass over a file; `seen` is what the pass read. */
  method HashFile(local: LocalFs, path: Text) returns (r: Result<(u64, Text)>, ghost seen: seq<byte>)
    requires local.Valid()
    modifies local`files, local`handles, local`interrupts, local`faults, local`refused
    ensures local.Valid() && local.Kept(old(local.files), local.Safe()) && local.handles == old(local.handles)
    ensures match r
            case Success((size, text)) =>
              && size == |seen| && text == Hex(Blake3(seen))
              && local.faults == old(local.faults) && local.refused == old(local.refused)
            case Failure(code) =>
              && code == IoError && (local.faults > old(local.faults) || local.refused > old(local.refused))
              && (path in local.Safe() && path in old(local.files) ==> local.faults > old(local.faults))
    ensures r.Success? && path in local.Safe() ==> path in old(local.files) && seen == old(local.files)[path]
    ensures local.faults >= old(local.faults) && local.refused >= old(local.refused)
  {
    seen := [];
    var reply := local.OpenToRead(path);
    if reply.OpenFailed? {
      return Failure(IoError), seen;
    }
    var fd: nat := reply.fd;
    ghost var bytes, before := local.files[path], old(local.handles);
    var hasher := new Hasher();
    var size: u64 := 0;
    while true
      invariant size == |hasher.absorbed| <= |bytes| && hasher.absorbed == bytes[..size]
      invariant local.handles == before[fd := Reading(bytes, size)]
      invariant local.faults == old(local.faults) && local.refused == old(local.refused)
      invariant local.Valid() && local.Kept(old(local.files), local.Safe())
      decreases |bytes| - size
    {
      var count, data := ReadSome(local, fd, HASH_BUFFER);
      if !count.Count? {
        local.Close(fd);
        HandleClosed(before, fd, Reading(bytes, size));
        return Failure(IoError), seen;
      }
      if count.n == 0 {
        break;
      }
      assert bytes[..size + count.n] == bytes[..size] + data;
      HandleReplaced(before, fd, Reading(bytes, size), Reading(bytes, size + count.n));
      hasher.Update(data);
      size := size + count.n;
    }
    assert bytes[..size] == bytes;
    seen := bytes;
    var text := FinalizeHex(hasher);
    local.Close(fd);
    HandleClosed(before, fd, Reading(bytes, size));
    return Success((size, text)), seen;
  }

  lemma HandleClosed(handles: map<nat, Handle>, fd: nat, h: Handle)
    requires fd !in handles
    ensures handles[fd := h] - {fd} == handles
  {
  }

  lemma HandleReplaced(handles: map<nat, Handle>, fd: nat, h: Handle, next: Handle)
    ensures handles[fd := h][fd := next] == handles[fd := next]
  {
  }

  /** WriteAll of the client */
  method WriteAll(local: LocalFs, fd: nat, data: seq<byte>) returns (code: Code)
    requires fd in local.handles && local.handles[fd].Appending?
    requires local.Valid() && local.handles[fd].path in local.made
    modifies local`files, local`interrupts, local`faults, local`synced
    ensures var path := local.handles[fd].path;
            && local.Valid() && local.Kept(old(local.files), local.Safe() - {path})
            && (code == Ok ==> local.files[path] == old(local.files)[path] + data && local.faults == old(local.faults))
    ensures code == Ok || (code == IoError && local.faults > old(local.faults))
  {
    var path := local.handles[fd].path;
    var written := 0;
    while written < |data|
      invariant written <= |data| && local.Valid() && local.Kept(old(local.files), local.Safe() - {path})
      invariant local.files[path] == old(local.files)[path] + data[..written] && local.faults == old(local.faults)
      decreases |data| - written, local.interrupts
    {
      var result := local.Write(fd, data[written..]);
      if result.Interrupted? {
        continue;
      }
      if result.Error? || result.n == 0 {
        return IoError;
      }
      assert data[..written + result.n] == data[..written] + data[written..][..result.n];
      written := written + result.n;
    }
    assert data[..written] == data;
    return Ok;
  }

  // ---- The calls ----

  // Nothing failed during the call: no system call on either side, and no step of the channel.
  twostate predicate Smooth(local: LocalFs, t: Thread, channel: Channel)
    reads local, t, channel
  {
    local.faults == old(local.faults) && SmoothCall(t, channel)
  }

  twostate predicate SmoothCall(t: Thread, channel: Channel)
    reads t, channel
  {
    t.faults == old(t.faults) && channel.losses == old(channel.losses)
  }

  // Failures are only ever added.
  twostate predicate Counting(local: LocalFs, t: Thread, channel: Channel)
    reads local, t, channel
  {
    local.faults >= old(local.faults) && CountingCall(t, channel)
  }

  twostate predicate CountingCall(t: Thread, channel: Channel)
    reads t, channel
  {
    t.faults >= old(t.faults) && channel.losses >= old(channel.losses)
  }

  const PUT_CODES: set<Code> := {Ok, InvalidArgument, AlreadyExists, Corruption, Unavailable, IoError}

  // The codes of failures have their cause: IoError a failed system call here or there, or a lost call; the others
  // what the gRPC library reports of a lost call.
  twostate predicate Caused(code: Code, local: LocalFs, t: Thread, channel: Channel)
    reads local, t, channel
  {
    match code
    case IoError => !Smooth(local, t, channel)
    case _ => Lost(code) ==> channel.losses > old(channel.losses)
  }

  twostate predicate CausedCall(code: Code, t: Thread, channel: Channel)
    reads t, channel
  {
    match code
    case IoError => !SmoothCall(t, channel)
    case _ => Lost(code) ==> channel.losses > old(channel.losses)
  }

  predicate Lost(code: Code) {
    code in {Unavailable, Timeout, ResourceExhausted, Internal}
  }

  // The worker's reader gets the first `k` of these frames: metadata and the first `delivered` bytes.
  lemma CutShort(frames: seq<Frame>, k: nat) returns (delivered: nat)
    requires 0 < k <= |frames| && !Cut(frames[1..])
    ensures frames[..k][0] == frames[0] && !Cut(frames[..k][1..])
    ensures delivered <= |Flat(frames[1..])| && Flat(frames[..k][1..]) == Flat(frames[1..])[..delivered]
    ensures k == |frames| ==> delivered == |Flat(frames[1..])|
  {
    FlatOfFewer(frames[1..], k - 1);
    assert frames[..k][1..] == frames[1..][..k - 1];
    delivered := |Flat(frames[..k][1..])|;
    assert k == |frames| ==> frames[..k] == frames;
  }

  // PutChunk as the worker serves it for the first `k` of these frames, in terms of what a client can use
  method ServePut(t: Thread, pid: nat, address: nat, frames: seq<Frame>, k: nat)
    returns (grpc: GrpcCode, response: RpcCode, ghost delivered: nat, ghost linked: Run, ghost changes: seq<Action>)
    requires t.Valid() && t.me !in t.procs && k <= |frames|
    requires frames != [] ==> frames[0].Metadata? && !Cut(frames[1..])
    modifies t
    ensures t.Valid() && t.me !in t.procs && t.fds == old(t.fds) && Prefix(old(t.run), t.run)
    ensures t.changes == old(t.changes) + changes && NoRemoval(changes)
    ensures if k == 0 then delivered == 0 else delivered <= |Flat(frames[1..])|
    ensures grpc == if k > 0 then GOk else GInvalidArgument
    ensures k > 0 ==> Answered(t, frames[0].request, Flat(frames[1..])[..delivered], FromRpcStatus(response), linked, changes)
    ensures k > 0 && FromRpcStatus(response) == Ok ==> Prefix(old(t.run), linked)
    ensures t.faults >= old(t.faults) && (k == |frames| && k > 0 ==> delivered == |Flat(frames[1..])|)
    ensures k > 0 && FromRpcStatus(response) == IoError ==> t.faults > old(t.faults)
    ensures k > 0 && FromRpcStatus(response) == Unavailable
            ==> ValidRequest(frames[0].request) && TempName(frames[0].request.id, pid, address) in t.fs.dir
    ensures k > 0 ==> FromRpcStatus(response) in PUT_CODES
    ensures k > 0 && FromRpcStatus(response) == InvalidArgument ==> !ValidRequest(frames[0].request)
  {
    hide Account, Acknowledged;
    delivered := 0;
    var reader := new FrameReader(frames[..k]);
    grpc, response, linked, changes := WorkerService.PutChunk(t, pid, address, reader);
    CrashFreeIsPrefix(old(t.run), t.run);
    if k > 0 {
      delivered := CutShort(frames, k);
      PutReportsWhatItDid(t.me, frames[0].request, Flat(frames[1..])[..delivered], FromRpcStatus(response), changes);
      if FromRpcStatus(response) == Ok {
        CrashFreeIsPrefix(old(t.run), linked);
      }
    }
  }

  /**
   The PutChunk call after these frames were written. The worker may never be reached, may die at any point of
   the call, or may answer for the metadata and the first `delivered` bytes; `heard` tells if it got the metadata.
   */
  method CallPut(t: Thread, channel: Channel, pid: nat, address: nat, frames: seq<Frame>)
    returns (grpc: GrpcCode, response: RpcCode, ghost heard: bool, ghost delivered: nat, ghost linked: Run, ghost changes: seq<Action>)
    requires t.Valid() && t.me !in t.procs && t.fds == map[]
    requires frames != [] ==> frames[0].Metadata? && !Cut(frames[1..])
    modifies t, channel
    ensures t.Valid() && t.me !in t.procs && t.fds == map[] && Prefix(old(t.run), t.run)
    ensures t.changes == old(t.changes) + changes && NoRemoval(changes)
    ensures grpc == GOk ==> frames != []
    ensures if frames == [] then delivered == 0 else delivered <= |Flat(frames[1..])|
    ensures FromGrpcStatus(grpc) != AlreadyExists && FromGrpcStatus(grpc) != NotFound && FromGrpcStatus(grpc) != Corruption
    ensures FromGrpcStatus(grpc) == InvalidArgument ==> !heard
    ensures grpc != GOk ==>
              if channel.losses == old(channel.losses) then frames == [] && FromGrpcStatus(grpc) == InvalidArgument
              else FromGrpcStatus(grpc) == InvalidArgument || FromGrpcStatus(grpc) == IoError || Lost(FromGrpcStatus(grpc))
    ensures grpc == GOk ==> Answered(t, frames[0].request, Flat(frames[1..])[..delivered], FromRpcStatus(response), linked, changes)
    ensures grpc == GOk && FromRpcStatus(response) == Ok ==> Prefix(old(t.run), linked)
    ensures CountingCall(t, channel)
    ensures channel.losses == old(channel.losses) && frames != [] ==> grpc == GOk && heard && delivered == |Flat(frames[1..])|
    ensures grpc == GOk && FromRpcStatus(response) == IoError ==> t.faults > old(t.faults)
    ensures grpc == GOk && FromRpcStatus(response) == Unavailable
            ==> ValidRequest(frames[0].request) && TempName(frames[0].request.id, pid, address) in t.fs.dir
    ensures if grpc == GOk then FromRpcStatus(response) in PUT_CODES else FromGrpcStatus(grpc) != Ok
    ensures grpc == GOk && FromRpcStatus(response) == InvalidArgument ==> !ValidRequest(frames[0].request)
  {
    hide Account, Answered, Flat, Cut, FromRpcStatus, TempName;
    linked, changes, delivered, heard := t.run, [], 0, false;
    grpc, response := GUnavailable, 0;
    var reached := channel.Holds();
    var survives := channel.Holds();
    if reached && !survives {
      changes := t.Die(true);
    } else if reached {
      var k := channel.Deliver(|frames|);
      grpc, response, delivered, linked, changes := ServePut(t, pid, address, frames, k);
      heard := k > 0;
    }
    grpc := channel.Answer(grpc);
  }

  // What the answer of the worker to a Put says about it.
  ghost predicate Answered(t: Thread, request: PutRequest, payload: seq<byte>, code: Code, linked: Run, changes: seq<Action>)
    reads t
  {
    match code
    case Ok =>
      && ValidRequest(request) && Verified(request, payload)
      && Acknowledged(linked, t.run, request.id, Chunk(payload, request.checksum)) && CrashFree(linked, t.run)
    case AlreadyExists => ValidRequest(request) && Verified(request, payload) && Refused(t.me, request.id) in changes
    case Corruption => !Verified(request, payload)
    case InvalidArgument => !ValidRequest(request)
    case _ => code == Unavailable || code == IoError
  }

  // ---- GrpcDataPlaneClient ----

  // The framing loop: metadata, then one non-empty data frame for each read. A write to a broken stream ends it.
  method SendFrames(local: LocalFs, channel: Channel, fd: nat, request: PutRequest)
    returns (frames: seq<Frame>, failed: bool, ghost sent: seq<byte>, ghost h: Handle)
    requires fd in local.handles && local.handles[fd].Reading? && local.handles[fd].pos == 0
    modifies local`handles, local`interrupts, local`faults, channel
    ensures frames != [] && frames[0] == Metadata(request) && !Cut(frames[1..])
    ensures Flat(frames[1..]) == sent <= old(local.handles)[fd].bytes
    ensures local.handles == old(local.handles)[fd := h]
    ensures if failed then local.faults > old(local.faults) else local.faults == old(local.faults)
    ensures channel.losses >= old(channel.losses)
    ensures !failed && channel.losses == old(channel.losses) ==> sent == old(local.handles)[fd].bytes
  {
    ghost var bytes := local.handles[fd].bytes;
    var data: seq<Frame> := [];
    sent, failed, h := [], false, local.handles[fd];
    var alive := true;
    while alive
      invariant !Cut(data) && Flat(data) == sent && |sent| <= |bytes| && sent == bytes[..|sent|]
      invariant h == Reading(bytes, |sent|) && local.handles == old(local.handles)[fd := h]
      invariant local.faults == old(local.faults) && channel.losses == if alive then old(channel.losses) else old(channel.losses) + 1
      decreases |bytes| - |sent|, alive
    {
      var count, part := ReadSome(local, fd, BUFFER_SIZE);
      if !count.Count? {
        failed := true;
        break;
      }
      HandleReplaced(old(local.handles), fd, h, Reading(bytes, |sent| + count.n));
      h := Reading(bytes, |sent| + count.n);
      if count.n == 0 {
        break;
      }
      assert bytes[..|sent| + count.n] == bytes[..|sent|] + part;
      FlatOfMore(data, part);
      data := data + [Data(part)];
      sent := sent + part;
      alive := channel.Holds();
    }
    frames := [Metadata(request)] + data;
    assert frames[1..] == data;
  }

  // The first Write, of the metadata, and the framing loop if it succeeded. `frames` is what may reach the worker.
  method Send(local: LocalFs, channel: Channel, fd: nat, request: PutRequest)
    returns (alive: bool, frames: seq<Frame>, failed: bool, ghost sent: seq<byte>, ghost h: Handle)
    requires fd in local.handles && local.handles[fd].Reading? && local.handles[fd].pos == 0
    modifies local`handles, local`interrupts, local`faults, channel
    ensures alive || !channel.drops <== frames != []
    ensures alive ==> frames != []
    ensures frames != [] ==> frames[0] == Metadata(request) && !Cut(frames[1..]) && Flat(frames[1..]) == sent
    ensures sent <= old(local.handles)[fd].bytes && local.handles == old(local.handles)[fd := h]
    ensures if failed then local.faults > old(local.faults) else local.faults == old(local.faults)
    ensures channel.losses >= old(channel.losses)
    ensures !failed && channel.losses == old(channel.losses) ==> alive && sent == old(local.handles)[fd].bytes
  {
    frames, failed, sent, h := [], false, [], local.handles[fd];
    alive := channel.Holds();
    var sentAnyway: bool := *;
    if alive {
      frames, failed, sent, h := SendFrames(local, channel, fd, request);
    } else if sentAnyway && !channel.drops {
      frames := [Metadata(request)];
    }
  }

  // The code that PutChunk makes of a call: without a first Write it looks at the status only.
  function FinalCode(written: bool, failed: bool, grpc: GrpcCode, response: RpcCode): Code {
    if failed then IoError
    else if !written || grpc != GOk then FromGrpcStatus(grpc)
    else FromRpcStatus(response)
  }

  // Ok hides another answer of the worker exactly if the metadata arrived although their Write failed.
  lemma WhenOkIsWrong(written: bool, failed: bool, grpc: GrpcCode, response: RpcCode)
    ensures FinalCode(written, failed, grpc, response) == Ok && FromRpcStatus(response) != Ok
       <==> !failed && !written && grpc == GOk && FromRpcStatus(response) != Ok
  {
  }

  // The answer Ok can be relied on.
  twostate predicate Sure(channel: Channel)
    reads channel
  {
    channel.drops || channel.losses == old(channel.losses)
  }

  // The call on the open source: all frames, the answer, and what the code makes of both
  method Transfer(local: LocalFs, t: Thread, channel: Channel, pid: nat, address: nat, fd: nat, request: PutRequest)
    returns (code: Code, ghost heard: bool, ghost sent: seq<byte>, ghost delivered: nat, ghost linked: Run,
             ghost changes: seq<Action>, ghost h: Handle)
    requires t.Valid() && t.me !in t.procs && t.fds == map[]
    requires fd in local.handles && local.handles[fd].Reading? && local.handles[fd].pos == 0
    modifies t, local`handles, local`interrupts, local`faults, channel
    ensures t.Valid() && t.me !in t.procs && t.fds == map[] && Prefix(old(t.run), t.run)
    ensures t.changes == old(t.changes) + changes && NoRemoval(changes)
    ensures delivered <= |sent| && sent <= old(local.handles)[fd].bytes && local.handles == old(local.handles)[fd := h]
    ensures code in {AlreadyExists, Corruption} || (code == Ok && Sure(channel))
            ==> Answered(t, request, sent[..delivered], code, linked, changes)
    ensures code == Ok && Sure(channel) ==> Prefix(old(t.run), linked)
    ensures code == InvalidArgument && heard ==> !ValidRequest(request)
    ensures code != NotFound && Counting(local, t, channel)
    ensures code == InvalidArgument && !heard ==> channel.losses > old(channel.losses)
    ensures Caused(code, local, t, channel) || (code == Unavailable && ValidRequest(request) && TempName(request.id, pid, address) in t.fs.dir)
    ensures Smooth(local, t, channel) ==> heard && delivered == |sent| && sent == old(local.handles)[fd].bytes
  {
    hide Account, Answered, Cut, TempName, FromRpcStatus, FromGrpcStatus, Prefix;
    var alive, frames, failed;
    alive, frames, failed, sent, h := Send(local, channel, fd, request);
    var grpc, response;
    grpc, response, heard, delivered, linked, changes := CallPut(t, channel, pid, address, frames);
    code := FinalCode(alive, failed, grpc, response);
  }

  /**
   Sends a file in frames. `sent` is what this pass over the file read; the answer of the worker is about the
   first `delivered` bytes of it.
   */
  method PutChunk(local: LocalFs, t: Thread, channel: Channel, pid: nat, address: nat, request: PutRequest, source: Text)
    returns (code: Code, ghost heard: bool, ghost sent: seq<byte>, ghost delivered: nat, ghost linked: Run, ghost changes: seq<Action>)
    requires local.Valid() && t.Valid() && t.me !in t.procs && t.fds == map[]
    modifies t, local`files, local`handles, local`interrupts, local`faults, local`refused, channel
    ensures t.Valid() && t.me !in t.procs && t.fds == map[] && Prefix(old(t.run), t.run)
    ensures t.changes == old(t.changes) + changes && NoRemoval(changes)
    ensures local.Valid() && local.Kept(old(local.files), local.Safe()) && local.handles == old(local.handles)
    ensures delivered <= |sent|
    ensures source in local.Safe() && source in old(local.files) ==> sent <= old(local.files)[source]
    ensures code in {AlreadyExists, Corruption} || (code == Ok && Sure(channel))
            ==> Answered(t, request, sent[..delivered], code, linked, changes)
    ensures code == Ok && Sure(channel) ==> Prefix(old(t.run), linked)
    ensures code == InvalidArgument && heard ==> !ValidRequest(request)
    ensures code != NotFound && Counting(local, t, channel) && local.refused >= old(local.refused)
    ensures code == InvalidArgument && !heard ==> channel.losses > old(channel.losses)
    ensures Caused(code, local, t, channel)
            || (code == Unavailable && ValidRequest(request) && TempName(request.id, pid, address) in t.fs.dir)
            || (code == IoError && local.refused > old(local.refused))
    ensures source in local.Safe() && source in old(local.files) ==> local.refused == old(local.refused)
    ensures source in local.Safe() && source !in old(local.files) ==> code == IoError
    ensures Smooth(local, t, channel) && source in local.Safe() && source in old(local.files) ==>
              heard && delivered == |sent| && sent == old(local.files)[source]
  {
    hide Account, Answered, TempName, Prefix;
    sent, delivered, linked, changes, heard := [], 0, t.run, [], false;
    Unmoved(t.run);
    var reply := local.OpenToRead(source);
    if reply.OpenFailed? {
      return IoError, heard, sent, delivered, linked, changes;
    }
    var fd: nat := reply.fd;
    ghost var h: Handle;
    code, heard, sent, delivered, linked, changes, h := Transfer(local, t, channel, pid, address, fd, request);
    local.Close(fd);
    HandleClosed(old(local.handles), fd, h);
  }

  // These are the bytes at `offset` of the chunk that `id` had in that state.
  ghost predicate FromOneChunk(bytes: seq<byte>, state: Run, id: Text, offset: nat) {
    && id in Visible(state.w.fs)
    && offset + |bytes| <= |Visible(state.w.fs)[id].payload|
    && bytes == Visible(state.w.fs)[id].payload[offset..offset + |bytes|]
  }

  lemma FailedLocally(id: Text, range: ByteRange, got: seq<byte>, check: Run, data: Run)
    ensures GetAnswer(IoError, id, range, got, check, data)
  {
  }

  lemma AllDelivered(got: seq<byte>, chunk: Chunk, range: ByteRange)
    requires Delivered(got, [], chunk, range, range.size)
    ensures |got| == range.size
    ensures got != [] ==> Fits(range, chunk) && got == chunk.payload[range.offset..range.offset + |got|]
  {
  }

  lemma WholeChunk(got: seq<byte>, state: Run, id: Text)
    requires id in Visible(state.w.fs) && |got| == |Visible(state.w.fs)[id].payload|
    requires got != [] ==> FromOneChunk(got, state, id, 0)
    ensures got == Visible(state.w.fs)[id].payload
  {
  }

  // GetChunk as the worker serves it, in terms of what a client can use
  method ServeGet(t: Thread, channel: Channel, id: Text, range: ByteRange)
    returns (frames: seq<seq<byte>>, grpc: GrpcCode, ghost check: Run, ghost data: Run)
    requires t.Valid() && t.me !in t.procs
    modifies t, channel
    ensures t.Valid() && t.me !in t.procs && t.changes == old(t.changes) && t.fds == old(t.fds)
    ensures Prefix(old(t.run), check) && Prefix(check, data) && Prefix(data, t.run)
    ensures GetAnswer(FromGrpcStatus(grpc), id, range, Concat(frames), check, data)
    ensures CountingCall(t, channel) && CausedCall(FromGrpcStatus(grpc), t, channel)
  {
    hide Account;
    ghost var delivered: nat;
    grpc, frames, check, data, delivered := WorkerService.GetChunk(t, channel, id, range);
    CrashFreeIsPrefix(old(t.run), check);
    CrashFreeIsPrefix(check, data);
    CrashFreeIsPrefix(data, t.run);
    if FromGrpcStatus(grpc) == Ok {
      AllDelivered(Concat(frames), Visible(data.w.fs)[id], range);
    }
  }

  /**
   The GetChunk call: the frames that arrived, and a status. `check` and `data` are the states at the two opens of
   the worker. A call with status OK has lost none of its frames.
   */
  method CallGet(t: Thread, channel: Channel, id: Text, range: ByteRange)
    returns (frames: seq<seq<byte>>, grpc: GrpcCode, ghost check: Run, ghost data: Run)
    requires t.Valid() && t.me !in t.procs && t.fds == map[]
    modifies t, channel
    ensures t.Valid() && t.me !in t.procs && t.changes == old(t.changes) && t.fds == map[]
    ensures Prefix(old(t.run), check) && Prefix(check, data) && Prefix(data, t.run)
    ensures GetAnswer(FromGrpcStatus(grpc), id, range, Concat(frames), check, data) && FromGrpcStatus(grpc) != AlreadyExists
    ensures FromGrpcStatus(grpc) == Ok <==> grpc == GOk
    ensures CountingCall(t, channel) && CausedCall(FromGrpcStatus(grpc), t, channel)
  {
    hide Account, Visible, NeverRemoved, FromOneChunk;
    check, data := t.run, t.run;
    frames, grpc := [], GUnavailable;
    var reached := channel.Holds();
    var survives := channel.Holds();
    if reached && !survives {
      ghost var more := t.Die(false);
    } else if reached {
      frames, grpc, check, data := ServeGet(t, channel, id, range);
    }
    grpc := channel.Answer(grpc);
    if grpc != GOk {
      frames := *;
    }
  }

  // What the answer of the worker to a Get says about it, and about the bytes that came with it.
  ghost predicate GetAnswer(code: Code, id: Text, range: ByteRange, got: seq<byte>, check: Run, data: Run) {
    match code
    case Ok => |got| == range.size && (got != [] ==> FromOneChunk(got, data, id, range.offset))
    case NotFound => 0 < |id| <= 1024 && (id !in Visible(check.w.fs) || id !in Visible(data.w.fs))
    case InvalidArgument => 0 < |id| <= 1024 ==> id in Visible(check.w.fs) && !Fits(range, Visible(check.w.fs)[id])
    case Corruption => 0 < |id| <= 1024 && !NeverRemoved(check, data, id)
    case _ => code != AlreadyExists
  }

  // GetChunk between the creation of the file and its cleanup
  method ReceiveInto(local: LocalFs, t: Thread, channel: Channel, id: Text, range: ByteRange, fd: nat, path: Text)
    returns (code: Code, ghost got: seq<byte>, ghost check: Run, ghost data: Run)
    requires local.Valid() && t.Valid() && t.me !in t.procs && t.fds == map[]
    requires fd in local.handles && local.handles[fd] == Appending(path) && path in local.made && local.files[path] == []
    modifies t, local`files, local`handles, local`interrupts, local`faults, local`synced, channel
    ensures t.Valid() && t.me !in t.procs && t.changes == old(t.changes) && t.fds == map[]
    ensures Prefix(old(t.run), check) && Prefix(check, data) && Prefix(data, t.run)
    ensures local.Valid() && local.Kept(old(local.files), local.Safe() - {path}) && local.handles == old(local.handles) - {fd}
    ensures Counting(local, t, channel) && Caused(code, local, t, channel)
    ensures GetAnswer(code, id, range, got, check, data) && code != AlreadyExists
    ensures code == Ok ==> local.files[path] == got && local.faults == old(local.faults) && path in local.synced
  {
    hide Account, GetAnswer, Prefix, FromGrpcStatus;
    var frames, grpc;
    frames, grpc, check, data := CallGet(t, channel, id, range);
    got := Concat(frames);
    FailedLocally(id, range, got, check, data);
    code := WriteFrames(local, fd, path, frames);
    if code == Ok && grpc != GOk {
      code := FromGrpcStatus(grpc);
    }
    if code == Ok {
      var ok := local.Fdatasync(fd);
      if !ok {
        code := IoError;
      }
    }
    local.Close(fd);
  }

  /**
   Receives a range into a new file. Ok leaves the bytes received in it; a failure leaves no file of this client,
   unless unlink itself fails.
   */
  method GetChunk(local: LocalFs, t: Thread, channel: Channel, id: Text, range: ByteRange, destination: Text)
    returns (code: Code, ghost got: seq<byte>, ghost check: Run, ghost data: Run, ghost added: seq<Effect>)
    requires local.Valid() && t.Valid() && t.me !in t.procs && t.fds == map[]
    modifies t, local, channel
    ensures t.Valid() && t.me !in t.procs && t.changes == old(t.changes) && t.fds == map[]
    ensures Prefix(old(t.run), check) && Prefix(check, data) && Prefix(data, t.run)
    ensures local.Valid() && local.Kept(old(local.files), old(local.Safe()) - {destination}) && local.handles == old(local.handles)
    ensures Counting(local, t, channel) && Caused(code, local, t, channel)
    ensures code != AlreadyExists ==> GetAnswer(code, id, range, got, check, data)
    ensures local.effects == old(local.effects) + added && local.refused >= old(local.refused)
    ensures code == AlreadyExists ==> added == []
    ensures if code == Ok then
              && added == [Made(destination)] && local.made == old(local.made) + {destination}
              && destination !in old(local.made) && local.files[destination] == got && local.faults == old(local.faults)
              && destination in local.synced
            else
              || (added == [] && local.made == old(local.made)
                  && (if code == AlreadyExists then local.refused > old(local.refused) else code == IoError && local.faults > old(local.faults)))
              || (added == [Made(destination)] && local.made == old(local.made) + {destination} && local.faults > old(local.faults))
              || (added == [Made(destination), Erased(destination, true)] && local.made == old(local.made) && code != AlreadyExists)
    ensures destination in old(local.Safe()) ==>
              && (code == AlreadyExists ==> destination in old(local.files))
              && (code == Ok ==> destination !in old(local.files))
              && (code != Ok && destination !in old(local.files) && destination !in local.made ==> destination !in local.files)
  {
    hide Account, GetAnswer, Prefix, FromGrpcStatus;
    got, check, data, added := [], t.run, t.run, [];
    Unmoved(t.run);
    FailedLocally(id, range, got, check, data);
    var reply := local.OpenExclusive(destination);
    if reply.OpenFailed? {
      assert local.effects == old(local.effects) + [];
      return if reply.errno == EEXIST then AlreadyExists else IoError, got, check, data, added;
    }
    code, got, check, data := ReceiveInto(local, t, channel, id, range, reply.fd, destination);
    HandleClosed(old(local.handles), reply.fd, Appending(destination));
    added := [Made(destination)];
    if code != Ok {
      ghost var before := local.effects;
      local.Unlink(destination);
      if local.effects != before {
        added := added + [Erased(destination, true)];
      }
    }
  }

  // The receive loop of GetChunk.
  method WriteFrames(local: LocalFs, fd: nat, path: Text, frames: seq<seq<byte>>) returns (code: Code)
    requires local.Valid() && fd in local.handles && local.handles[fd] == Appending(path) && path in local.made
    requires local.files[path] == []
    modifies local`files, local`interrupts, local`faults, local`synced
    ensures local.Valid() && local.Kept(old(local.files), local.Safe() - {path})
    ensures code == Ok ==> local.files[path] == Concat(frames) && local.faults == old(local.faults)
    ensures code == Ok || (code == IoError && local.faults > old(local.faults))
  {
    for i := 0 to |frames|
      invariant local.Valid() && local.Kept(old(local.files), local.Safe() - {path})
      invariant local.files[path] == Concat(frames[..i]) && local.faults == old(local.faults)
    {
      code := WriteAll(local, fd, frames[i]);
      if code != Ok {
        return;
      }
      assert frames[..i + 1][..i] == frames[..i];
    }
    assert frames[..|frames|] == frames;
    return Ok;
  }

  // ---- StorageClient ----

  // destination ".tmp." pid "." counter, in the directory of the destination
  function DownloadName(destination: Text, pid: nat, counter: u64): Text {
    destination + DOT_TMP + Decimal(pid) + [DOT] + Decimal(counter)
  }

  // What one Get may have done: its own temporary file, and one link of the finished bytes if the answer is Ok.
  ghost predicate GetStory(added: seq<Effect>, temp: Text, destination: Text, got: seq<byte>, code: Code) {
    var stored := [Made(temp), LocalFiles.Linked(destination, got, true)];
    if code == Ok then added == stored || added == stored + [Erased(temp, true)]
    else Tidy(added, temp) || Trespass(added, temp)
  }

  predicate Tidy(added: seq<Effect>, temp: Text) {
    added == [] || added == [Made(temp)] || added == [Made(temp), Erased(temp, true)]
  }

  // After a failed GetChunk the code unlinks the temporary name once more. That removes the file of another
  // program if one has the name by then: it had it first, or took it after this client's own file was gone.
  predicate Trespass(added: seq<Effect>, temp: Text) {
    added == [Erased(temp, false)] || added == [Made(temp), Erased(temp, true), Erased(temp, false)]
  }

  // The temporary name at the end of a download, `fine` if no local system call has failed. If no other program
  // uses the name, none loses a file and none is left behind.
  ghost predicate TempTold(local: LocalFs, before: map<Text, seq<byte>>, temp: Text, code: Code, added: seq<Effect>, fine: bool)
    reads local
  {
    && (temp in local.own ==> !Trespass(added, temp) && (fine && temp !in before ==> temp !in local.files))
    && (added != [] && added[0].Erased? ==> code == AlreadyExists || !fine)
  }

  // The states at the opens of the worker behind one download: HeadChunk, then the two of GetChunk.
  datatype Opens = Opens(head: Run, check: Run, data: Run)

  // What each answer of Get says about the states behind it.
  ghost predicate Explained(code: Code, id: Text, got: seq<byte>, seen: Opens) {
    match code
    case Ok => Verifies(id, got, seen) && (got != [] ==> FromOneChunk(got, seen.data, id, 0))
    case NotFound => id !in Visible(seen.head.w.fs) || id !in Visible(seen.check.w.fs) || id !in Visible(seen.data.w.fs)
    case InvalidArgument =>
      && id in Visible(seen.head.w.fs) && id in Visible(seen.check.w.fs)
      && |Visible(seen.check.w.fs)[id].payload| < |Visible(seen.head.w.fs)[id].payload|
    case Corruption =>
      || !NeverRemoved(seen.check, seen.data, id)
      || (id in Visible(seen.head.w.fs) && |got| == |Visible(seen.head.w.fs)[id].payload|
          && !Verifies(id, got, seen) && (got != [] ==> FromOneChunk(got, seen.data, id, 0)))
    case _ => true
  }

  // The bytes have the size and the digest in the answer to HeadChunk.
  ghost predicate Verifies(id: Text, got: seq<byte>, seen: Opens) {
    && id in Visible(seen.head.w.fs)
    && |got| == |Visible(seen.head.w.fs)[id].payload|
    && Hex(Blake3(got)) == Visible(seen.head.w.fs)[id].checksum
  }

  // The destination is created with these bytes exactly if the answer is Ok, and else is as it was.
  ghost predicate AllOrNothing(local: LocalFs, before: map<Text, seq<byte>>, destination: Text, code: Code, got: seq<byte>)
    reads local
  {
    if code == Ok then destination !in before && destination in local.files && local.files[destination] == got
    else local.Kept(before, {destination})
  }

  // What each answer of Put says about the bytes that were hashed and those that arrived at the worker.
  ghost predicate PutExplained(t: Thread, code: Code, id: Text, hashed: seq<byte>, arrived: seq<byte>, heard: bool, linked: Run, changes: seq<Action>)
    reads t
  {
    match code
    case Ok =>
      && ValidId(id) && SameDigest(arrived, hashed)
      && Acknowledged(linked, t.run, id, Chunk(arrived, Hex(Blake3(hashed)))) && CrashFree(linked, t.run)
    case AlreadyExists => ValidId(id) && SameDigest(arrived, hashed) && Refused(t.me, id) in changes
    case Corruption => arrived != hashed
    case InvalidArgument => heard ==> !(0 < |id| <= 1024)
    case _ => code != NotFound
  }

  ghost predicate SameDigest(a: seq<byte>, b: seq<byte>) {
    |a| == |b| && Blake3(a) == Blake3(b)
  }

  lemma AnswerExplains(t: Thread, code: Code, id: Text, hashed: seq<byte>, arrived: seq<byte>, heard: bool, linked: Run, changes: seq<Action>)
    requires |hashed| <= U64_MAX && code != NotFound
    requires var request := PutRequest(id, |hashed|, Hex(Blake3(hashed)));
             && (code in {Ok, AlreadyExists, Corruption} ==> Answered(t, request, arrived, code, linked, changes))
             && (code == InvalidArgument && heard ==> !ValidRequest(request))
    ensures PutExplained(t, code, id, hashed, arrived, heard, linked, changes)
  {
    DigestTextIsFaithful(Blake3(hashed), Blake3(arrived));
  }

  // The parts of the name, in their order
  lemma DownloadNameSpelledOut(destination: Text, pid: nat, counter: u64)
    ensures DownloadName(destination, pid, counter) == destination + Ascii(".tmp.") + Decimal(pid) + Ascii(".") + Decimal(counter)
  {
    LiteralsAreAscii();
  }

  /** Two downloads to one destination use the same temporary name only with the same pid and counter. */
  lemma DownloadNamesAreInjective(destination: Text, pid: nat, counter: u64, pid': nat, counter': u64)
    requires DownloadName(destination, pid, counter) == DownloadName(destination, pid', counter')
    ensures pid == pid' && counter == counter'
  {
    var tail, tail' := Decimal(pid) + [DOT] + Decimal(counter), Decimal(pid') + [DOT] + Decimal(counter');
    assert DownloadName(destination, pid, counter) == (destination + DOT_TMP) + tail;
    assert DownloadName(destination, pid', counter') == (destination + DOT_TMP) + tail';
    CancelPrefix(destination + DOT_TMP, tail, tail');
    SplitAtDot(Decimal(pid), Decimal(counter), Decimal(pid'), Decimal(counter'));
    DecimalIsInjective(pid, pid');
    DecimalIsInjective(counter, counter');
  }

  lemma NameIsNew(destination: Text, pid: nat, counter: u64)
    ensures DownloadName(destination, pid, counter) != destination
  {
  }

  lemma NothingDone(local: LocalFs, destination: Text, temp: Text, code: Code, got: seq<byte>)
    requires code != Ok
    ensures GetStory([], temp, destination, got, code) && AllOrNothing(local, local.files, destination, code, got)
    ensures TempTold(local, local.files, temp, code, [], true) && TempTold(local, local.files, temp, code, [], false)
  {
  }

  class StorageClient {
    const pid: nat
    var nextTempId: u64  // the process-wide atomic counter

    constructor (pid: nat, nextTempId: u64)
      ensures this.pid == pid && this.nextTempId == nextTempId
    {
      this.pid, this.nextTempId := pid, nextTempId;
    }

    /**
     Stores a file under an id: two passes over it, one to hash (`hashed`) and one to send; `arrived` is what the
     worker got of the second. Ok means that the worker has durably stored the bytes that arrived, and that they
     have the size and digest of those hashed; other answers that come from the worker mean what they meant there.
     */
    method Put(local: LocalFs, t: Thread, channel: Channel, workerPid: nat, address: nat, id: Text, source: Text)
      returns (code: Code, ghost heard: bool, ghost hashed: seq<byte>, ghost arrived: seq<byte>, ghost linked: Run, ghost changes: seq<Action>)
      requires local.Valid() && t.Valid() && t.me !in t.procs && t.fds == map[]
      modifies t, local`files, local`handles, local`interrupts, local`faults, local`refused, channel
      ensures t.Valid() && t.me !in t.procs && t.fds == map[] && Prefix(old(t.run), t.run)
      ensures t.changes == old(t.changes) + changes && NoRemoval(changes)
      ensures local.Valid() && local.Kept(old(local.files), local.Safe()) && local.handles == old(local.handles)
      ensures code == Ok && Sure(channel) ==> PutExplained(t, Ok, id, hashed, arrived, heard, linked, changes) && Prefix(old(t.run), linked)
      ensures code != Ok ==> PutExplained(t, code, id, hashed, arrived, heard, linked, changes)
      ensures Counting(local, t, channel) && local.refused >= old(local.refused)
      ensures Caused(code, local, t, channel)
              || (code == Unavailable && 0 < |id| <= 1024 && TempName(id, workerPid, address) in t.fs.dir)
              || (code == IoError && local.refused > old(local.refused))
      ensures id == [] ==> code == InvalidArgument && changes == []
      ensures code == InvalidArgument ==> !(0 < |id| <= 1024) || channel.losses > old(channel.losses)
      ensures id != [] && source in local.Safe() && source !in old(local.files) ==> code == IoError
      ensures Smooth(local, t, channel) && source in local.Safe() && source in old(local.files) && id != [] ==>
                && arrived == hashed
                && (if |id| > 1024 then code == InvalidArgument
                    else code in {Ok, AlreadyExists} || (code == Unavailable && 0 < |id| <= 1024 && TempName(id, workerPid, address) in t.fs.dir))
      ensures source in local.Safe() && code in {Ok, AlreadyExists, Corruption}
              ==> source in old(local.files) && arrived <= hashed == old(local.files)[source]
    {
      hide Account, Prefix, Acknowledged;
      heard, hashed, arrived, linked, changes := true, [], [], t.run, [];
      Unmoved(t.run);
      if id == [] {
        return InvalidArgument, heard, hashed, arrived, linked, changes;
      }
      var hash;
      hash, hashed := HashFile(local, source);
      if hash.Failure? {
        return hash.code, heard, hashed, arrived, linked, changes;
      }
      code, heard, arrived, linked, changes := Upload(local, t, channel, workerPid, address, id, source, hash.value.0, hash.value.1, hashed);
    }

    // Put after its first pass over the file; the worker may have run and crashed meanwhile.
    method Upload(local: LocalFs, t: Thread, channel: Channel, workerPid: nat, address: nat, id: Text, source: Text,
                  size: u64, checksum: Text, ghost hashed: seq<byte>)
      returns (code: Code, ghost heard: bool, ghost arrived: seq<byte>, ghost linked: Run, ghost changes: seq<Action>)
      requires local.Valid() && t.Valid() && t.me !in t.procs && t.fds == map[]
      requires size == |hashed| && checksum == Hex(Blake3(hashed))
      modifies t, local`files, local`handles, local`interrupts, local`faults, local`refused, channel
      ensures t.Valid() && t.me !in t.procs && t.fds == map[] && Prefix(old(t.run), t.run)
      ensures t.changes == old(t.changes) + changes && NoRemoval(changes)
      ensures local.Valid() && local.Kept(old(local.files), local.Safe()) && local.handles == old(local.handles)
      ensures code == Ok && Sure(channel) ==> PutExplained(t, Ok, id, hashed, arrived, heard, linked, changes) && Prefix(old(t.run), linked)
      ensures code != Ok ==> PutExplained(t, code, id, hashed, arrived, heard, linked, changes)
      ensures Counting(local, t, channel) && local.refused >= old(local.refused)
      ensures Caused(code, local, t, channel)
              || (code == Unavailable && 0 < |id| <= 1024 && TempName(id, workerPid, address) in t.fs.dir)
              || (code == IoError && local.refused > old(local.refused))
      ensures code == InvalidArgument && !heard ==> channel.losses > old(channel.losses)
      ensures source in local.Safe() && source !in old(local.files) ==> code == IoError
      ensures source in local.Safe() && source in old(local.files) ==>
                && local.refused == old(local.refused) && arrived <= old(local.files)[source]
                && (Smooth(local, t, channel) ==> arrived == old(local.files)[source] && heard)
    {
      hide Account, Prefix, Answered, PutExplained;
      t.Wait();
      ghost var waited := t.run;
      var request := PutRequest(id, size, checksum);
      ghost var sent: seq<byte>;
      ghost var delivered: nat;
      code, heard, sent, delivered, linked, changes := PutChunk(local, t, channel, workerPid, address, request, source);
      arrived := sent[..delivered];
      if code != Ok || Sure(channel) {
        AnswerExplains(t, code, id, hashed, arrived, heard, linked, changes);
      }
      PrefixTransitive(old(t.run), waited, t.run);
      if code == Ok && Sure(channel) {
        PrefixTransitive(old(t.run), waited, linked);
      }
    }

    /**
     Downloads an id into a new file. Ok means that the destination was absent and was linked to bytes of the size
     and digest in the Head answer, taken from one chunk of that id; otherwise no destination was created. Nothing
     but the temporary file is ever written, and it is gone unless an unlink failed. The answers of the worker
     keep their meaning, about the states `seen` at its opens, between which it may have crashed.
     */
    method Get(local: LocalFs, t: Thread, channel: Channel, id: Text, destination: Text)
      returns (code: Code, ghost got: seq<byte>, ghost seen: Opens, ghost added: seq<Effect>)
      requires local.Valid() && t.Valid() && t.me !in t.procs && t.fds == map[]
      modifies t, local, channel, this
      ensures t.Valid() && t.me !in t.procs && t.fds == map[] && t.changes == old(t.changes)
      ensures Prefix(old(t.run), seen.head) && Prefix(seen.head, seen.check) && Prefix(seen.check, seen.data) && Prefix(seen.data, t.run)
      ensures var temp := DownloadName(destination, pid, old(nextTempId));
              && local.effects == old(local.effects) + added && GetStory(added, temp, destination, got, code)
              && local.Kept(old(local.files), old(local.Safe()) - {temp, destination})
              && TempTold(local, old(local.files), temp, code, added, local.faults == old(local.faults))
              && (code == AlreadyExists && destination in local.own && temp in local.own
                  ==> destination in old(local.files) || temp in old(local.files))
      ensures local.Valid() && (local.faults == old(local.faults) ==> local.made == old(local.made))
      ensures destination in local.own ==> AllOrNothing(local, old(local.files), destination, code, got)
      ensures id == [] ==> code == InvalidArgument && added == []
      ensures destination in local.own && destination in old(local.files) && id != [] ==> code == AlreadyExists
      ensures !(0 < |id| <= 1024) ==> code !in {Ok, NotFound, Corruption}
      ensures 0 < |id| <= 1024 ==> Explained(code, id, got, seen)
      ensures local.handles == old(local.handles)
      ensures local.refused >= old(local.refused) && (code == AlreadyExists ==> local.refused > old(local.refused))
      ensures var next := if old(nextTempId) == U64_MAX then 0 else old(nextTempId) + 1;
              (nextTempId == old(nextTempId) || nextTempId == next) && (added != [] ==> nextTempId == next)
      ensures Counting(local, t, channel) && Caused(code, local, t, channel)
    {
      hide Account, Prefix;
      got, added := [], [];
      seen := Opens(t.run, t.run, t.run);
      Unmoved(t.run);
      assert local.effects == old(local.effects) + [];
      if id == [] {
        return InvalidArgument, got, seen, added;
      }
      var taken := local.Exists(destination);
      if taken {
        return AlreadyExists, got, seen, added;
      }
      code, got, seen, added := Retrieve(local, t, channel, id, destination);
    }

    // Get after its checks of the arguments
    method Retrieve(local: LocalFs, t: Thread, channel: Channel, id: Text, destination: Text)
      returns (code: Code, ghost got: seq<byte>, ghost seen: Opens, ghost added: seq<Effect>)
      requires local.Valid() && t.Valid() && t.me !in t.procs && t.fds == map[]
      modifies t, local, channel, this
      ensures t.Valid() && t.me !in t.procs && t.fds == map[] && t.changes == old(t.changes)
      ensures Prefix(old(t.run), seen.head) && Prefix(seen.head, seen.check) && Prefix(seen.check, seen.data) && Prefix(seen.data, t.run)
      ensures var temp := DownloadName(destination, pid, old(nextTempId));
              && local.effects == old(local.effects) + added && GetStory(added, temp, destination, got, code)
              && local.Kept(old(local.files), old(local.Safe()) - {temp, destination})
              && TempTold(local, old(local.files), temp, code, added, local.faults == old(local.faults))
              && (code == AlreadyExists && destination in local.own && temp in local.own
                  ==> destination in old(local.files) || temp in old(local.files))
      ensures local.Valid() && (local.faults == old(local.faults) ==> local.made == old(local.made))
      ensures destination in local.own ==> AllOrNothing(local, old(local.files), destination, code, got)
      ensures !(0 < |id| <= 1024) ==> code !in {Ok, NotFound, Corruption}
      ensures 0 < |id| <= 1024 ==> Explained(code, id, got, seen)
      ensures local.handles == old(local.handles)
      ensures local.refused >= old(local.refused) && (code == AlreadyExists ==> local.refused > old(local.refused))
      ensures var next := if old(nextTempId) == U64_MAX then 0 else old(nextTempId) + 1;
              (nextTempId == old(nextTempId) || nextTempId == next) && (added != [] ==> nextTempId == next)
      ensures Counting(local, t, channel) && Caused(code, local, t, channel)
    {
      hide Account, Explained, FetchAnswer, HeadAnswer, GetStory, AllOrNothing, TempTold, DownloadName;
      got, added := [], [];
      assert local.effects == old(local.effects) + [];
      var head;
      ghost var first: Run;
      code, head, first := CallHead(t, channel, id);
      seen := Opens(first, first, first);
      if code != Ok {
        HeadExplains(code, id, head, got, first);
        NothingDone(local, destination, DownloadName(destination, pid, nextTempId), code, got);
        return code, got, seen, added;
      }
      var temp := DownloadName(destination, pid, nextTempId);
      NameIsNew(destination, pid, nextTempId);
      nextTempId := if nextTempId == U64_MAX then 0 else nextTempId + 1;
      ghost var headed := t.run;
      t.Wait();
      ghost var waited := t.run;
      ghost var check, data;
      code, got, check, data, added := Download(local, t, channel, id, head, temp, destination);
      seen := Opens(first, check, data);
      FetchExplains(code, id, head, got, seen);
      PrefixTransitive(headed, waited, check);
      PrefixTransitive(first, headed, check);
    }
  }

  // StorageClient::Get after the Head answer
  method Download(local: LocalFs, t: Thread, channel: Channel, id: Text, head: HeadResponse, temp: Text, destination: Text)
    returns (code: Code, ghost got: seq<byte>, ghost check: Run, ghost data: Run, ghost added: seq<Effect>)
    requires local.Valid() && t.Valid() && t.me !in t.procs && t.fds == map[] && temp != destination
    modifies t, local, channel
    ensures t.Valid() && t.me !in t.procs && t.changes == old(t.changes) && t.fds == map[]
    ensures Prefix(old(t.run), check) && Prefix(check, data) && Prefix(data, t.run)
    ensures local.Valid() && local.Kept(old(local.files), old(local.Safe()) - {temp, destination})
    ensures local.handles == old(local.handles)
    ensures local.refused >= old(local.refused) && (code == AlreadyExists ==> local.refused > old(local.refused))
    ensures local.faults == old(local.faults) ==> local.made == old(local.made)
    ensures local.effects == old(local.effects) + added && GetStory(added, temp, destination, got, code)
    ensures TempTold(local, old(local.files), temp, code, added, local.faults == old(local.faults))
    ensures Counting(local, t, channel) && Caused(code, local, t, channel)
    ensures destination in local.own ==> AllOrNothing(local, old(local.files), destination, code, got)
    ensures code == AlreadyExists && destination in local.own && temp in local.own
            ==> destination in old(local.files) || temp in old(local.files)
    ensures code != AlreadyExists ==> FetchAnswer(code, id, head, got, check, data)
  {
    hide Account, Prefix, FetchAnswer, Tidy, Trespass, DeliverStory, TempTold, GetStory, AllOrNothing;
    Unmoved(t.run);
    got, check, data, added := [], t.run, t.run, [];
    Discarded([], temp, false);
    var taken := local.Exists(temp);
    if taken {
      assert local.effects == old(local.effects) + [];
      KeptToItself(local, old(local.files), temp, AlreadyExists, added, local.faults == old(local.faults));
      FailureStory(local, old(local.files), temp, destination, AlreadyExists, got, added);
      return AlreadyExists, got, check, data, added;
    }
    ghost var looked := local.files;
    code, got, check, data, added := Fetch(local, t, channel, id, head, temp);
    if code != Ok {
      ToldFromStart(local, old(local.files), looked, temp, code, added, local.faults == old(local.faults));
      FailureStory(local, old(local.files), temp, destination, code, got, added);
    }
    FailedDelivery(id, head, got, check, data);
    if code == Ok {
      ghost var finished: seq<Effect>;
      ghost var fetched := local.files;
      code, finished := Deliver(local, temp, destination, got);
      SameFromStart(local, old(local.files), fetched, destination, code, got);
      StoryOf(old(local.effects), finished, local.effects, temp, destination, got, code);
      added := [Made(temp)] + finished;
      KeptToItself(local, old(local.files), temp, code, added, local.faults == old(local.faults));
    }
  }

  lemma FailureStory(local: LocalFs, before: map<Text, seq<byte>>, temp: Text, destination: Text, code: Code, got: seq<byte>, added: seq<Effect>)
    requires code != Ok && (Tidy(added, temp) || Trespass(added, temp))
    ensures GetStory(added, temp, destination, got, code)
    ensures local.Kept(before, {destination}) ==> AllOrNothing(local, before, destination, code, got)
  {
  }

  lemma SameFromStart(local: LocalFs, before: map<Text, seq<byte>>, fetched: map<Text, seq<byte>>, destination: Text,
                      code: Code, got: seq<byte>)
    ensures AllOrNothing(local, fetched, destination, code, got)
            && (destination in fetched <==> destination in before)
            && (destination in before ==> fetched[destination] == before[destination])
            ==> AllOrNothing(local, before, destination, code, got)
  {
  }

  lemma ToldFromStart(local: LocalFs, before: map<Text, seq<byte>>, looked: map<Text, seq<byte>>, temp: Text, code: Code,
                      added: seq<Effect>, fine: bool)
    requires TempTold(local, looked, temp, code, added, fine) && temp !in looked
    ensures TempTold(local, before, temp, code, added, fine)
  {
  }

  lemma KeptToItself(local: LocalFs, before: map<Text, seq<byte>>, temp: Text, code: Code, added: seq<Effect>, fine: bool)
    requires !Trespass(added, temp) && (added == [] || added[0] == Made(temp))
    requires temp in local.own && fine && temp !in before ==> temp !in local.files
    ensures TempTold(local, before, temp, code, added, fine)
  {
  }

  // What the outcome of download and verification says.
  ghost predicate FetchAnswer(code: Code, id: Text, head: HeadResponse, got: seq<byte>, check: Run, data: Run) {
    var whole := |got| == head.size && (got != [] ==> FromOneChunk(got, data, id, 0));
    match code
    case Ok => whole && Hex(Blake3(got)) == head.checksum
    case NotFound => id !in Visible(check.w.fs) || id !in Visible(data.w.fs)
    case InvalidArgument => 0 < |id| <= 1024 ==> id in Visible(check.w.fs) && |Visible(check.w.fs)[id].payload| < head.size
    case Corruption => !NeverRemoved(check, data, id) || (whole && Hex(Blake3(got)) != head.checksum)
    case _ => code != AlreadyExists
  }

  lemma StoryOf(start: seq<Effect>, finished: seq<Effect>, end: seq<Effect>, temp: Text, destination: Text, got: seq<byte>, code: Code)
    requires end == (start + [Made(temp)]) + finished
    requires DeliverStory(finished, temp, destination, got, code)
    ensures end == start + ([Made(temp)] + finished)
    ensures GetStory([Made(temp)] + finished, temp, destination, got, code)
    ensures !Trespass([Made(temp)] + finished, temp)
  {
    var added := [Made(temp)] + finished;
    assert |added| == 1 + |finished| && added[0] == Made(temp) && forall i :: 0 < i < |added| ==> added[i] == finished[i - 1];
    assert if code == Ok then added[1].Linked? else |added| <= 2;
  }

  // What the answer of GetChunk for the whole object becomes by verification.
  lemma FetchMeans(code: Code, id: Text, head: HeadResponse, got: seq<byte>, check: Run, data: Run)
    requires GetAnswer(code, id, ByteRange(0, head.size), got, check, data)
    ensures FetchAnswer(IoError, id, head, got, check, data)
    ensures code != Ok ==> FetchAnswer(code, id, head, got, check, data)
    ensures code == Ok ==>
              |got| == head.size
              && FetchAnswer(if Hex(Blake3(got)) == head.checksum then Ok else Corruption, id, head, got, check, data)
  {
  }

  lemma FailedDelivery(id: Text, head: HeadResponse, got: seq<byte>, check: Run, data: Run)
    ensures FetchAnswer(IoError, id, head, got, check, data)
  {
  }

  // Download and verification: GetChunk, HashFile and the comparison with the Head answer.
  method GetVerified(local: LocalFs, t: Thread, channel: Channel, id: Text, head: HeadResponse, temp: Text)
    returns (code: Code, ghost got: seq<byte>, ghost check: Run, ghost data: Run, ghost added: seq<Effect>)
    requires local.Valid() && t.Valid() && t.me !in t.procs && t.fds == map[] && temp !in local.files
    modifies t, local, channel
    ensures t.Valid() && t.me !in t.procs && t.changes == old(t.changes) && t.fds == map[]
    ensures Prefix(old(t.run), check) && Prefix(check, data) && Prefix(data, t.run)
    ensures local.Valid() && local.Kept(old(local.files), old(local.Safe()) - {temp}) && local.handles == old(local.handles)
    ensures Counting(local, t, channel) && Caused(code, local, t, channel)
    ensures local.effects == old(local.effects) + added
    ensures code == AlreadyExists ==> temp !in local.own
    ensures code != AlreadyExists ==> FetchAnswer(code, id, head, got, check, data)
    ensures code == Ok ==>
              local.faults == old(local.faults) && temp in local.made && temp in local.synced && local.files[temp] == got
    ensures local.refused >= old(local.refused) && (code == AlreadyExists ==> local.refused > old(local.refused))
    ensures local.made == if temp in local.made then old(local.made) + {temp} else old(local.made)
    ensures temp !in old(local.made)
    ensures if temp in local.made then added == [Made(temp)] else added == [] || added == [Made(temp), Erased(temp, true)]
    ensures added == [] ==> code == AlreadyExists || local.faults > old(local.faults)
    ensures temp in local.own && temp !in local.made ==> temp !in local.files
  {
    hide Account, Prefix, GetAnswer, FetchAnswer;
    code, got, check, data, added := GetChunk(local, t, channel, id, ByteRange(0, head.size), temp);
    if code != AlreadyExists {
      FetchMeans(code, id, head, got, check, data);
    }
    if code == Ok {
      code := Verify(local, temp, head, got);
    }
  }

  // The same, and the cleanup after a failure
  method Fetch(local: LocalFs, t: Thread, channel: Channel, id: Text, head: HeadResponse, temp: Text)
    returns (code: Code, ghost got: seq<byte>, ghost check: Run, ghost data: Run, ghost added: seq<Effect>)
    requires local.Valid() && t.Valid() && t.me !in t.procs && t.fds == map[] && temp !in local.files
    modifies t, local, channel
    ensures t.Valid() && t.me !in t.procs && t.changes == old(t.changes) && t.fds == map[]
    ensures Prefix(old(t.run), check) && Prefix(check, data) && Prefix(data, t.run)
    ensures local.Valid() && local.Kept(old(local.files), old(local.Safe()) - {temp}) && local.handles == old(local.handles)
    ensures Counting(local, t, channel) && Caused(code, local, t, channel)
    ensures local.effects == old(local.effects) + added
    ensures code == AlreadyExists ==> temp !in local.own
    ensures local.refused >= old(local.refused) && (code == AlreadyExists ==> local.refused > old(local.refused))
    ensures code != AlreadyExists ==> FetchAnswer(code, id, head, got, check, data)
    ensures if code == Ok then
              && added == [Made(temp)] && local.faults == old(local.faults)
              && local.made == old(local.made) + {temp} && temp !in old(local.made) && local.files[temp] == got
              && temp in local.synced
            else
              && (Tidy(added, temp) || Trespass(added, temp))
              && TempTold(local, old(local.files), temp, code, added, local.faults == old(local.faults))
              && (local.faults == old(local.faults) ==> local.made == old(local.made))
  {
    hide Account, Prefix, GetAnswer, FetchAnswer, Tidy, Trespass;
    code, got, check, data, added := GetVerified(local, t, channel, id, head, temp);
    if code != Ok {
      ghost var before, mine := local.effects, temp in local.made;
      local.Unlink(temp);
      Discarded(added, temp, mine);
      if local.effects != before {
        added := added + [Erased(temp, mine)];
      }
    }
  }

  // HashFile on the download, and the comparison of size and digest
  method Verify(local: LocalFs, temp: Text, head: HeadResponse, ghost got: seq<byte>) returns (code: Code)
    requires local.Valid() && temp in local.made && local.files[temp] == got
    modifies local`files, local`handles, local`interrupts, local`faults, local`refused
    ensures local.Valid() && local.Kept(old(local.files), local.Safe()) && local.handles == old(local.handles)
    ensures if |got| == head.size && Hex(Blake3(got)) == head.checksum then code == Ok || code == IoError
            else code == Corruption || code == IoError
    ensures local.faults >= old(local.faults) && local.refused >= old(local.refused)
    ensures code == IoError ==> local.faults > old(local.faults)
    ensures code == Ok ==> local.faults == old(local.faults)
  {
    var hash, seen := HashFile(local, temp);
    if hash.Failure? {
      return hash.code;
    }
    return if hash.value.0 != head.size || hash.value.1 != head.checksum then Corruption else Ok;
  }

  // The story before the last unlink, with whether the name is this client's, and after it.
  lemma Discarded(added: seq<Effect>, temp: Text, mine: bool)
    requires if mine then added == [Made(temp)] else added == [] || added == [Made(temp), Erased(temp, true)]
    ensures Tidy(added, temp) && !Trespass(added, temp)
    ensures mine ==> Tidy(added + [Erased(temp, mine)], temp) && !Trespass(added + [Erased(temp, mine)], temp)
    ensures !mine ==> Trespass(added + [Erased(temp, mine)], temp)
  {
    assert |added + [Erased(temp, mine)]| == |added| + 1;
    if added != [] {
      assert added[0] == Made(temp);
    }
  }

  // What happens to both names in the end.
  predicate DeliverStory(finished: seq<Effect>, temp: Text, destination: Text, got: seq<byte>, code: Code) {
    var linked := if code == Ok then [LocalFiles.Linked(destination, got, true)] else [];
    finished == linked || finished == linked + [Erased(temp, true)]
  }

  // link to the destination, then unlink of the temporary file
  method Deliver(local: LocalFs, temp: Text, destination: Text, ghost got: seq<byte>)
    returns (code: Code, ghost added: seq<Effect>)
    requires local.Valid() && temp in local.made && temp in local.synced && local.files[temp] == got && temp != destination
    modifies local
    ensures local.refused >= old(local.refused) && (code == AlreadyExists ==> local.refused > old(local.refused))
    ensures local.Valid() && local.Kept(old(local.files), old(local.Safe()) - {temp, destination}) && local.handles == old(local.handles)
    ensures local.faults >= old(local.faults)
    ensures local.faults == old(local.faults) ==> temp !in local.files && local.made == old(local.made) - {temp}
    ensures local.effects == old(local.effects) + added && DeliverStory(added, temp, destination, got, code)
    ensures code == Ok || code == AlreadyExists || (code == IoError && local.faults > old(local.faults))
    ensures destination in local.own ==>
              && AllOrNothing(local, old(local.files), destination, code, got)
              && (code == AlreadyExists ==> destination in old(local.files))
  {
    var r := local.Link(temp, destination);
    code := if r.Done? then Ok else if r.errno == EEXIST then AlreadyExists else IoError;
    added := if r.Done? then [LocalFiles.Linked(destination, got, true)] else [];
    ghost var before := local.effects;
    local.Unlink(temp);
    if local.effects != before {
      added := added + [Erased(temp, true)];
    }
  }

  // What the answer of the worker to a Head says.
  ghost predicate HeadAnswer(code: Code, id: Text, head: HeadResponse, seen: Run) {
    match code
    case Ok =>
      && ValidId(id) && id in Visible(seen.w.fs) && head.id == id
      && head.size == |Visible(seen.w.fs)[id].payload| && head.checksum == Visible(seen.w.fs)[id].checksum
    case NotFound => 0 < |id| <= 1024 && id !in Visible(seen.w.fs)
    case InvalidArgument => !(0 < |id| <= 1024)
    case _ => code != Corruption
  }

  lemma HeadExplains(code: Code, id: Text, head: HeadResponse, got: seq<byte>, first: Run)
    requires HeadAnswer(code, id, head, first) && code != Ok
    ensures code != Corruption && (!(0 < |id| <= 1024) ==> code != NotFound)
    ensures 0 < |id| <= 1024 ==> Explained(code, id, got, Opens(first, first, first))
  {
  }

  lemma FetchExplains(code: Code, id: Text, head: HeadResponse, got: seq<byte>, seen: Opens)
    requires HeadAnswer(Ok, id, head, seen.head) && (code != AlreadyExists ==> FetchAnswer(code, id, head, got, seen.check, seen.data))
    ensures ValidId(id) && Explained(code, id, got, seen)
  {
  }

  lemma Unmoved(run: Run)
    ensures Prefix(run, run)
  {
  }

  // The HeadChunk call.
  method CallHead(t: Thread, channel: Channel, id: Text) returns (code: Code, head: HeadResponse, ghost seen: Run)
    requires t.Valid() && t.me !in t.procs && t.fds == map[]
    modifies t, channel
    ensures t.Valid() && t.me !in t.procs && t.changes == old(t.changes) && t.fds == map[]
    ensures Prefix(old(t.run), seen) && Prefix(seen, t.run)
    ensures HeadAnswer(code, id, head, seen) && code != AlreadyExists
    ensures CountingCall(t, channel) && CausedCall(code, t, channel)
  {
    hide Account, CrashFree, Visible;
    seen := t.run;
    head := HeadResponse([], 0, []);
    var grpc, response := GUnavailable, 0;
    var reached := channel.Holds();
    var survives := channel.Holds();
    if reached && !survives {
      ghost var more := t.Die(false);
    } else if reached {
      response, head, seen := WorkerService.HeadChunk(t, id);
      CrashFreeIsPrefix(old(t.run), seen);
      CrashFreeIsPrefix(seen, t.run);
      grpc := GOk;
    }
    grpc := channel.Answer(grpc);
    code := if grpc == GOk then FromRpcStatus(response) else FromGrpcStatus(grpc);
  }
}
