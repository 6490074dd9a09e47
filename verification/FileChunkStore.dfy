/** FileChunkStore: Put, Head, Get and Delete over the system calls of one thread. */
module FileChunkStore {
  import opened Types
  import opened Names
  import opened Codec
  import opened Posix
  import opened Protocol
  import opened Runs
  import opened Os
  import opened Descriptors
  import opened Streams
  import opened Linearizability
  import opened Outcomes
  import opened CrashSafety

  // ---- Writing and reading through short counts and EINTR ----

  // One write call and the action it stands for.
  method WriteSome(t: Thread, fd: nat, data: seq<byte>) returns (result: IoReply)
    requires t.Valid() && t.me in t.procs && t.procs[t.me].Writing?
    requires t.procs[t.me].todo == data && t.Refers(fd, Writer(t.procs[t.me].ino))
    modifies t
    ensures t.base == old(t.base) && t.Valid() && t.changes == old(t.changes) && t.fds == old(t.fds) && t.me in t.procs
    ensures match result
            case Count(n) =>
              && n <= |data| && t.procs[t.me] == old(t.procs[t.me]).(todo := data[n..])
              && (data != [] ==> t.faults == if n > 0 then old(t.faults) else old(t.faults) + 1)
              && t.interrupts == old(t.interrupts)
            case Interrupted => t.procs[t.me] == old(t.procs[t.me]) && t.interrupts < old(t.interrupts) && t.faults == old(t.faults)
            case Error => t.procs[t.me] == old(t.procs[t.me]) && t.faults > old(t.faults)
  {
    hide Account;
    result := t.Write(fd, data);
    if result.Count? {
        t.Record(Wrote(t.me, result.n));
    }
  }

  /** Writes all of `data`, or reports an error that the operating system made. */
  method WriteAll(t: Thread, fd: nat, data: seq<byte>) returns (code: Code)
    requires t.Valid() && t.me in t.procs && t.procs[t.me].Writing?
    requires t.procs[t.me].todo == data && t.Refers(fd, Writer(t.procs[t.me].ino))
    modifies t
    ensures t.base == old(t.base) && t.Valid() && t.changes == old(t.changes) && t.fds == old(t.fds) && t.me in t.procs
    ensures code == Ok || code == IoError
    ensures t.procs[t.me].Writing? && t.procs[t.me] == old(t.procs[t.me]).(todo := t.procs[t.me].todo)
    ensures code == Ok ==> t.procs[t.me].todo == [] && t.faults == old(t.faults)
    ensures code != Ok ==> t.faults > old(t.faults)
  {
    hide Account;
    var written := 0;
    while written < |data|
      invariant written <= |data|
      invariant t.base == old(t.base) && t.Valid() && t.changes == old(t.changes)
      invariant t.fds == old(t.fds) && t.faults == old(t.faults)
      invariant t.me in t.procs && t.procs[t.me] == old(t.procs[t.me]).(todo := data[written..])
      decreases |data| - written, t.interrupts
    {
      var result := WriteSome(t, fd, data[written..]);
      if result.Interrupted? {
        continue;
      }
      if result.Error? || result.n == 0 {
        return IoError;
      }
      assert data[written..][result.n..] == data[written + result.n..];
      written := written + result.n;
    }
    return Ok;
  }

  // ---- The first and the last action of a call ----

  method Begin(t: Thread, proc: Proc)
    requires t.Valid() && t.me !in t.procs
    requires (proc.Fresh? && ValidRequest(proc.req) && IsTemp(proc.temp)) || (proc.Deleting? && ValidId(proc.id))
    modifies t
    ensures t.base == old(t.base) && t.Valid() && t.changes == old(t.changes) && t.fds == old(t.fds)
    ensures t.faults == old(t.faults) && CrashFree(old(t.run), t.run)
    ensures t.me in t.procs && t.procs[t.me] == proc
  {
    t.Record(Began(t.me, proc));
  }

  method Finish(t: Thread)
    requires t.Valid() && t.me in t.procs
    requires var at := t.procs[t.me];
             at.Rejected? || at.DeleteDone? || (at.PutDone? && at.ino !in t.fs.writers)
    modifies t
    ensures t.base == old(t.base) && t.Valid() && t.changes == old(t.changes) && t.fds == old(t.fds)
    ensures t.faults == old(t.faults) && t.fs == old(t.fs) && CrashFree(old(t.run), t.run)
    ensures t.me !in t.procs
  {
    t.Record(Returned(t.me));
  }

  // ---- Put: one system call and the action it stands for ----

  method CreateTemp(t: Thread, temp: Text) returns (reply: OpenReply)
    requires t.Valid() && t.me in t.procs && t.procs[t.me].Fresh? && t.procs[t.me].temp == temp
    modifies t
    ensures t.base == old(t.base) && t.Valid() && t.me in t.procs
    ensures match reply
            case Opened(fd) =>
              && t.faults == old(t.faults)
              && t.procs[t.me].Writing?
              && var req, ino := old(t.procs[t.me]).req, t.procs[t.me].ino;
                 && ValidChecksum(req.checksum)
                 && t.procs[t.me] == Writing(req, temp, ino, Header(req.size, req.checksum), [])
                 && fd !in old(t.fds) && t.fds == old(t.fds)[fd := Writer(ino)]
                 && t.changes == old(t.changes) + [Created(t.me, ino)]
            case OpenFailed(errno) =>
              && t.procs[t.me] == Rejected(old(t.procs[t.me]).req, if errno == EEXIST then Unavailable else IoError)
              && t.fds == old(t.fds) && t.changes == old(t.changes)
              && t.faults == (if errno == EEXIST then old(t.faults) else old(t.faults) + 1)
              && (errno == EEXIST ==> temp in t.fs.dir)
  {
    hide Account;
    var ino: Ino;
    reply, ino := t.OpenExclusive(temp);
    if reply.Opened? {
      t.Record(Created(t.me, ino));
    } else {
      t.Record(Failed(t.me, if reply.errno == EEXIST then Unavailable else IoError));
    }
  }

  method SyncData(t: Thread, fd: nat) returns (ok: bool)
    requires t.Valid() && t.me in t.procs && t.procs[t.me].Writing? && t.procs[t.me].todo == []
    requires Verified(t.procs[t.me].req, t.procs[t.me].body) && t.Refers(fd, Writer(t.procs[t.me].ino))
    modifies t
    ensures t.base == old(t.base) && t.Valid() && t.changes == old(t.changes) && t.fds == old(t.fds) && t.me in t.procs
    ensures t.faults == if ok then old(t.faults) else old(t.faults) + 1
    ensures var at := old(t.procs[t.me]);
            && t.procs[t.me] == (if ok then Durable(at.req, at.temp, at.ino, at.body) else Failing(at.req, at.temp, at.ino, IoError))
            && at.ino in t.fs.writers
  {
    hide Account;
    ok := t.Fdatasync(fd);
    if ok {
      t.Record(Synced(t.me));
    } else {
      t.Record(Failed(t.me, IoError));
    }
  }

  // fd.reset(), or the destructor of fd, for the descriptor of the temporary file
  method CloseTemp(t: Thread, fd: UniqueFd)
    requires t.Valid() && t.me in t.procs && (t.procs[t.me].Durable? || t.procs[t.me].PutDone?)
    requires fd.Owns() ==> t.Refers(fd.fd, Writer(t.procs[t.me].ino)) && t.procs[t.me].ino in t.fs.writers
    requires t.procs[t.me].Durable? ==> fd.Owns()
    modifies t, fd
    ensures t.base == old(t.base) && t.Valid() && t.changes == old(t.changes) && t.me in t.procs && t.faults == old(t.faults)
    ensures fd.fd == -1
    ensures t.fds == if old(fd.Owns()) then old(t.fds) - {old(fd.fd)} else old(t.fds)
    ensures var at := old(t.procs[t.me]);
            t.procs[t.me] == if at.Durable? then Sealed(at.req, at.temp, at.ino, at.body) else at
    ensures old(fd.Owns()) ==> old(t.procs[t.me]).ino !in t.fs.writers
    ensures !old(fd.Owns()) ==> t.fs == old(t.fs)
    ensures CrashFree(old(t.run), t.run)
  {
    var owned := fd.Owns();
    fd.Reset(t, -1);
    if owned {
      t.Record(Closed(t.me));
    }
  }

  method Commit(t: Thread, temp: Text, final: Text) returns (r: Reply)
    requires t.Valid() && t.me in t.procs && t.procs[t.me].Sealed? && t.procs[t.me].temp == temp
    requires final == FinalName(t.procs[t.me].req.id)
    modifies t
    ensures t.base == old(t.base) && t.Valid() && t.fds == old(t.fds) && t.me in t.procs
    ensures old(t.procs[t.me]).ino !in t.fs.writers
    ensures var at := old(t.procs[t.me]);
            var chunk := Chunk(at.body, at.req.checksum);
            match r
            case Done =>
              && t.procs[t.me] == Linked(at.req, temp, at.ino, at.body)
              && t.run.Then? && t.run.a == Committed(t.me, at.req.id, chunk)
              && t.changes == old(t.changes) + [Committed(t.me, at.req.id, chunk)] && t.faults == old(t.faults)
            case Refuse(EEXIST) =>
              && t.procs[t.me] == Failing(at.req, temp, at.ino, AlreadyExists)
              && t.run.Then? && t.run.a == Refused(t.me, at.req.id) && final in t.run.w.fs.dir
              && t.changes == old(t.changes) + [Refused(t.me, at.req.id)] && t.faults == old(t.faults)
            case Refuse(_) =>
              && t.procs[t.me] == Failing(at.req, temp, at.ino, IoError)
              && t.changes == old(t.changes) && t.faults > old(t.faults)
  {
    hide Account, Complete, Frozen, CrashFree;
    r := t.Link(temp, final);
    var at := t.procs[t.me];
    t.Record(if r.Done? then Committed(t.me, at.req.id, Chunk(at.body, at.req.checksum))
             else if r.errno == EEXIST then Refused(t.me, at.req.id)
             else Failed(t.me, IoError));
  }

  // The cleanup lambda of Put.
  method CleanUp(t: Thread, temp: Text) returns (gone: bool)
    requires t.Valid() && t.me in t.procs && (t.procs[t.me].Linked? || t.procs[t.me].Failing?)
    requires t.procs[t.me].temp == temp
    modifies t
    ensures t.base == old(t.base) && t.Valid() && t.fds == old(t.fds) && t.me in t.procs
    ensures t.changes == old(t.changes) + [Cleaned(t.me, gone)]
    ensures t.faults == if gone then old(t.faults) else old(t.faults) + 1
    ensures CrashFree(old(t.run), t.run) && (gone <==> temp !in t.fs.dir)
    ensures var at := old(t.procs[t.me]);
            t.procs[t.me] == if at.Linked? then Settling(at.req, at.ino) else PutDone(at.req, at.ino, at.code)
    ensures var ino := old(t.procs[t.me]).ino; ino in old(t.fs.writers) <==> ino in t.fs.writers
  {
    var r := t.Unlink(temp);
    gone := r.Done?;
    t.Record(Cleaned(t.me, gone));
  }

  method FsyncRoot(t: Thread, fd: nat) returns (ok: bool)
    requires t.Valid() && t.me in t.procs && t.procs[t.me].Settling? && t.Refers(fd, Directory)
    modifies t
    ensures t.base == old(t.base) && t.Valid() && t.fds == old(t.fds) && t.me in t.procs
    ensures t.changes == old(t.changes) + [Flushed(t.me, ok)]
    ensures t.faults == if ok then old(t.faults) else old(t.faults) + 1
    ensures t.procs[t.me] == PutDone(old(t.procs[t.me]).req, old(t.procs[t.me]).ino, if ok then Ok else IoError)
    ensures ok ==> FlushedAfter(old(t.run), t.run)
    ensures CrashFree(old(t.run), t.run)
    ensures old(t.procs[t.me]).ino !in t.fs.writers
  {
    ok := t.FsyncDirectory(fd);
    t.Record(Flushed(t.me, ok));
    FlushIsAfter(old(t.run), t.run);
  }

  // open and fsync of the storage root, after the link
  method FlushRoot(t: Thread) returns (ok: bool)
    requires t.Valid() && t.me in t.procs && t.procs[t.me].Settling?
    modifies t
    ensures t.base == old(t.base) && t.Valid() && t.fds == old(t.fds) && t.me in t.procs
    ensures t.changes == old(t.changes) + [Flushed(t.me, ok)]
    ensures t.faults == if ok then old(t.faults) else old(t.faults) + 1
    ensures t.procs[t.me] == PutDone(old(t.procs[t.me]).req, old(t.procs[t.me]).ino, if ok then Ok else IoError)
    ensures ok ==> exists flushed :: FlushedAfter(old(t.run), flushed) && Prefix(flushed, t.run)
    ensures CrashFree(old(t.run), t.run)
    ensures old(t.procs[t.me]).ino !in t.fs.writers
  {
    hide Account;
    var directory := t.OpenDirectory();
    if directory.OpenFailed? {
      t.Record(Flushed(t.me, false));
      return false;
    }
    var directoryFd := new UniqueFd(directory.fd);
    ghost var ready := t.run;
    ok := FsyncRoot(t, directoryFd.fd);
    ghost var flushed := t.run;
    directoryFd.Reset(t, -1);
    OpenedAndClosed(old(t.fds), directory.fd, Directory);
    CrashFreeTransitive(old(t.run), ready, flushed);
    CrashFreeTransitive(old(t.run), flushed, t.run);
    if ok {
      FlushIsLater(old(t.run), ready, flushed);
      CrashFreeIsPrefix(flushed, t.run);
    }
  }

  // cleanup(), the return that follows it, and the destructor of fd
  method Abandon(t: Thread, fd: UniqueFd, temp: Text) returns (code: Code, gone: bool)
    requires t.Valid() && t.me in t.procs && t.procs[t.me].Failing? && t.procs[t.me].temp == temp
    requires fd.Owns() ==> t.Refers(fd.fd, Writer(t.procs[t.me].ino)) && t.procs[t.me].ino in t.fs.writers
    requires !fd.Owns() ==> t.procs[t.me].ino !in t.fs.writers
    modifies t, fd
    ensures t.base == old(t.base) && t.Valid() && t.me !in t.procs && t.fds == if old(fd.Owns()) then old(t.fds) - {old(fd.fd)} else old(t.fds)
    ensures t.changes == old(t.changes) + [Cleaned(t.me, gone)]
    ensures t.faults == if gone then old(t.faults) else old(t.faults) + 1
    ensures code == old(t.procs[t.me]).code && CrashFree(old(t.run), t.run)
  {
    hide Account;
    code := t.procs[t.me].code;
    gone := CleanUp(t, temp);
    ghost var cleaned := t.run;
    CloseTemp(t, fd);
    ghost var closed := t.run;
    Finish(t);
    CrashFreeTransitive(old(t.run), cleaned, closed);
    CrashFreeTransitive(old(t.run), closed, t.run);
  }

  // ---- Put ----

  lemma OwnProc(t: Thread)
    requires t.Valid() && t.me in t.procs
    ensures ProcInv(t.fs, t.procs[t.me])
  {
    t.Audit();
  }

  // What a Put must answer to this stream when nothing fails and the name is free: it depends on the
  // bytes alone, not on how frames, reads or writes divide them.
  function Verdict(request: PutRequest, payload: seq<byte>, cut: bool): Code {
    if !ValidRequest(request) then InvalidArgument
    else if |payload| > request.size then Corruption
    else if cut then InvalidArgument
    else if Verified(request, payload) then Ok
    else Corruption
  }

  // The directory changes behind each answer of Put.
  ghost predicate PutStory(me: Pid, request: PutRequest, payload: seq<byte>, code: Code, changes: seq<Action>) {
    if changes == [] then code == InvalidArgument || code == IoError || code == Unavailable
    else changes[0].Created? && StoreStory(me, request, payload, code, changes[1..])
  }

  /**
   The changes that Put reports tell how it ended: it stored its chunk and yet failed exactly if the directory
   fsync after its link failed. A Put that lost the race for a temporary name never unlinks it.
   */
  lemma PutReportsWhatItDid(me: Pid, request: PutRequest, payload: seq<byte>, code: Code, changes: seq<Action>)
    requires PutStory(me, request, payload, code, changes)
    ensures HasStored(me, request, changes) || Harmless(changes)
    ensures HasStored(me, request, changes) && code != Ok <==> Flushed(me, false) in changes
    ensures Refused(me, request.id) in changes <==> code == AlreadyExists
    ensures forall i :: 0 <= i < |changes| && changes[i].Cleaned? ==> changes[0].Created?
    ensures NoRemoval(changes)
  {
    if changes != [] {
      var later := changes[1..];
      assert forall i :: 0 < i < |changes| ==> changes[i] == later[i - 1];
      assert |changes| > 1 ==> changes[1] in changes;
      assert |changes| == 4 ==> changes[3] in changes;
    }
  }

  // One round of the receive loop: hash the bytes, then write them.
  method Absorb(t: Thread, fd: nat, hasher: Hasher, bytes: seq<byte>) returns (code: Code)
    requires t.Valid() && t.me in t.procs && t.procs[t.me].Writing? && t.procs[t.me].todo == []
    requires |t.procs[t.me].body| + |bytes| <= t.procs[t.me].req.size && t.Refers(fd, Writer(t.procs[t.me].ino))
    modifies t, hasher
    ensures t.base == old(t.base) && t.Valid() && t.changes == old(t.changes) && t.fds == old(t.fds) && t.me in t.procs
    ensures hasher.absorbed == old(hasher.absorbed) + bytes
    ensures code == Ok || code == IoError
    ensures t.procs[t.me].Writing?
    ensures var at := old(t.procs[t.me]);
            t.procs[t.me] == Writing(at.req, at.temp, at.ino, t.procs[t.me].todo, at.body + bytes)
    ensures code == Ok ==> t.procs[t.me].todo == [] && t.faults == old(t.faults)
    ensures code != Ok ==> t.faults > old(t.faults)
  {
    hasher.Update(bytes);
    t.Record(Received(t.me, bytes));
    code := WriteAll(t, fd, bytes);
  }

  // One turn of the receive loop: a read, the check of its size, and Absorb. A count of 0 is the end of the stream.
  method ReceiveSome(t: Thread, fd: nat, request: PutRequest, input: RpcInputStream, hasher: Hasher, buffer: array<byte>, received: u64)
    returns (code: Code, count: u64)
    requires t.Valid() && t.me in t.procs && t.procs[t.me].Writing?
    requires t.procs[t.me].req == request && t.procs[t.me].todo == [] && t.procs[t.me].body == hasher.absorbed
    requires t.Refers(fd, Writer(t.procs[t.me].ino)) && input.Valid() && buffer.Length == BUFFER_SIZE
    requires received == |hasher.absorbed| <= request.size
    modifies t, input, input.reader, hasher, buffer
    ensures t.base == old(t.base) && t.Valid() && t.changes == old(t.changes) && t.fds == old(t.fds) && t.me in t.procs
    ensures t.procs[t.me].Writing? && input.Valid() && input.calls == old(input.calls) + 1
    ensures var at := old(t.procs[t.me]);
            t.procs[t.me] == Writing(request, at.temp, at.ino, t.procs[t.me].todo, t.procs[t.me].body)
    ensures if code == IoError then t.faults > old(t.faults) else t.faults == old(t.faults)
    ensures code == Ok ==>
              && t.procs[t.me].todo == [] && t.procs[t.me].body == hasher.absorbed
              && received + count == |hasher.absorbed| <= request.size
              && old(hasher.absorbed) + old(input.Unread()) == hasher.absorbed + input.Unread()
              && Cut(input.reader.frames) == old(Cut(input.reader.frames))
              && (count == 0 ==> input.Unread() == [] && !Cut(input.reader.frames))
    ensures code == InvalidArgument ==> old(input.Unread()) == [] && old(Cut(input.reader.frames))
    ensures code == Corruption ==> received + |old(input.Unread())| > request.size
    ensures code == Ok || code == IoError || code == InvalidArgument || code == Corruption
  {
    hide Account, Verified, Cut;
    count := 0;
    var read := input.Read(buffer);
    if read.Failure? {
      return read.code, count;
    }
    if read.value == 0 {
      return Ok, count;
    }
    if read.value > buffer.Length || received > request.size || read.value > request.size - received {
      return Corruption, count;
    }
    count := read.value;
    var bytes := buffer[..count];
    assert old(hasher.absorbed) + (bytes + input.Unread()) == (old(hasher.absorbed) + bytes) + input.Unread();
    code := Absorb(t, fd, hasher, bytes);
  }

  // The receive loop of Put.
  method Receive(t: Thread, fd: nat, request: PutRequest, input: RpcInputStream, hasher: Hasher)
    returns (code: Code, received: u64)
    requires t.Valid() && t.me in t.procs && t.procs[t.me].Writing? && ValidRequest(request)
    requires t.procs[t.me].req == request && t.procs[t.me].todo == [] && t.procs[t.me].body == []
    requires t.Refers(fd, Writer(t.procs[t.me].ino)) && input.Valid() && hasher.absorbed == []
    modifies t, input, input.reader, hasher
    ensures t.base == old(t.base) && t.Valid() && t.changes == old(t.changes) && t.fds == old(t.fds) && t.me in t.procs
    ensures t.procs[t.me].Writing? && t.procs[t.me].req == request
    ensures t.procs[t.me].temp == old(t.procs[t.me]).temp && t.procs[t.me].ino == old(t.procs[t.me]).ino
    ensures code == Ok ==>
              && t.procs[t.me].todo == []
              && t.procs[t.me].body == hasher.absorbed == old(input.Unread())
              && received == |hasher.absorbed| <= request.size
              && !old(Cut(input.reader.frames))
    ensures code == IoError ==> t.faults > old(t.faults)
    ensures code != IoError ==> t.faults == old(t.faults)
    ensures code == InvalidArgument ==> old(Cut(input.reader.frames)) && |old(input.Unread())| <= request.size
    ensures code == Corruption ==> |old(input.Unread())| > request.size
    ensures code == Ok || code == IoError || code == InvalidArgument || code == Corruption
    ensures IsFailure(code) || code == Ok
    ensures input.calls <= old(input.calls) + request.size + 1
  {
    hide Account, Verified, Cut;
    var buffer := new byte[BUFFER_SIZE];
    received := 0;
    ghost var payload, cut := input.Unread(), Cut(input.reader.frames);
    ghost var at := t.procs[t.me];
    while true
      invariant t.base == old(t.base) && t.Valid() && t.changes == old(t.changes)
      invariant t.fds == old(t.fds) && t.faults == old(t.faults)
      invariant t.me in t.procs && t.procs[t.me] == Writing(request, at.temp, at.ino, [], hasher.absorbed)
      invariant received == |hasher.absorbed| <= request.size
      invariant input.Valid() && payload == hasher.absorbed + input.Unread() && Cut(input.reader.frames) == cut
      invariant input.calls <= old(input.calls) + received
      decreases request.size - received
    {
      var count: u64;
      code, count := ReceiveSome(t, fd, request, input, hasher, buffer, received);
      if code != Ok {
        return code, received;
      }
      if count == 0 {
        break;
      }
      received := received + count;
    }
    return Ok, received;
  }

  // The write of the header, the receive loop, and the checks after it.
  method Fill(t: Thread, fd: nat, request: PutRequest, input: RpcInputStream) returns (code: Code)
    requires t.Valid() && t.me in t.procs && t.procs[t.me].Writing? && ValidRequest(request)
    requires t.procs[t.me].req == request && t.procs[t.me].todo == Header(request.size, request.checksum)
    requires t.procs[t.me].body == [] && t.Refers(fd, Writer(t.procs[t.me].ino)) && input.Valid()
    modifies t, input, input.reader
    ensures t.base == old(t.base) && t.Valid() && t.changes == old(t.changes) && t.fds == old(t.fds) && t.me in t.procs
    ensures t.procs[t.me].Writing? && t.procs[t.me].req == request
    ensures t.procs[t.me].temp == old(t.procs[t.me]).temp && t.procs[t.me].ino == old(t.procs[t.me]).ino
    ensures code == Ok ==> t.procs[t.me].todo == [] && t.procs[t.me].body == old(input.Unread())
    ensures code == IoError ==> t.faults > old(t.faults)
    ensures code != IoError ==> t.faults == old(t.faults)
    ensures code != IoError ==> code == Verdict(request, old(input.Unread()), old(Cut(input.reader.frames)))
    ensures IsFailure(code) || code == Ok
    ensures input.calls <= old(input.calls) + request.size + 1
  {
    var header := MakeHeader(request.size, request.checksum);
    code := WriteAll(t, fd, header[..]);
    if code == Ok {
      var hasher := new Hasher();
      var received: u64;
      code, received := Receive(t, fd, request, input, hasher);
      if code == Ok {
        if received != request.size {
          return Corruption;
        }
        var text := FinalizeHex(hasher);
        if text != request.checksum {
          return Corruption;
        }
      }
    }
  }

  // fdatasync and fd.reset()
  method Seal(t: Thread, fd: UniqueFd) returns (ok: bool)
    requires t.Valid() && t.me in t.procs && t.procs[t.me].Writing? && t.procs[t.me].todo == []
    requires Verified(t.procs[t.me].req, t.procs[t.me].body)
    requires fd.Owns() && t.Refers(fd.fd, Writer(t.procs[t.me].ino))
    modifies t, fd
    ensures t.base == old(t.base) && t.Valid() && t.me in t.procs && t.changes == old(t.changes)
    ensures t.faults == if ok then old(t.faults) else old(t.faults) + 1
    ensures var at := old(t.procs[t.me]);
            if ok then
              && t.procs[t.me] == Sealed(at.req, at.temp, at.ino, at.body)
              && !fd.Owns() && t.fds == old(t.fds) - {old(fd.fd)} && at.ino !in t.fs.writers
            else
              && t.procs[t.me] == Failing(at.req, at.temp, at.ino, IoError)
              && fd.fd == old(fd.fd) && t.fds == old(t.fds) && at.ino in t.fs.writers
  {
    ok := SyncData(t, fd.fd);
    if ok {
      CloseTemp(t, fd);
    }
  }

  // After the link: cleanup(), fsync of the root, return.
  method Settle(t: Thread, temp: Text) returns (code: Code, gone: bool)
    requires t.Valid() && t.me in t.procs && t.procs[t.me].Linked? && t.procs[t.me].temp == temp
    requires t.procs[t.me].ino !in t.fs.writers
    modifies t
    ensures t.base == old(t.base) && t.Valid() && t.me !in t.procs && t.fds == old(t.fds)
    ensures t.changes == old(t.changes) + [Cleaned(t.me, gone), Flushed(t.me, code == Ok)]
    ensures code == Ok || code == IoError
    ensures t.faults == old(t.faults) + (if gone then 0 else 1) + (if code == Ok then 0 else 1)
    ensures CrashFree(old(t.run), t.run)
    ensures code == Ok ==> exists flushed :: FlushedAfter(old(t.run), flushed) && Prefix(flushed, t.run)
  {
    hide Account;
    gone := CleanUp(t, temp);
    ghost var cleaned := t.run;
    var ok := FlushRoot(t);
    code := t.procs[t.me].code;
    CrashFreeTransitive(old(t.run), cleaned, t.run);
    ghost var settled := t.run;
    Finish(t);
    CrashFreeTransitive(old(t.run), settled, t.run);
    if ok {
      ghost var flushed :| FlushedAfter(cleaned, flushed) && Prefix(flushed, settled);
      FlushIsLater(old(t.run), cleaned, flushed);
      CrashFreeIsPrefix(settled, t.run);
      PrefixTransitive(flushed, settled, t.run);
    }
  }

  // What can follow the creation of the temporary file.
  ghost predicate StoreStory(me: Pid, request: PutRequest, payload: seq<byte>, code: Code, changes: seq<Action>) {
    match |changes|
    case 1 => changes[0].Cleaned? && (code == InvalidArgument || code == IoError || code == Corruption)
    case 2 => changes[0] == Refused(me, request.id) && changes[1].Cleaned? && code == AlreadyExists
    case 3 =>
      && changes[0] == Committed(me, request.id, Chunk(payload, request.checksum))
      && changes[1].Cleaned? && changes[2] == Flushed(me, code == Ok)
      && (code == Ok || code == IoError)
    case _ => false
  }

  // A failed unlink of the temporary file is ignored; every other failed system call makes the answer IoError, and
  // nothing else does.
  ghost predicate FaultsTell(me: Pid, code: Code, before: nat, after: nat, changes: seq<Action>) {
    var ignored := if Cleaned(me, false) in changes then 1 else 0;
    after >= before + ignored && (code == IoError <==> after > before + ignored)
  }

  // `linked` lies between `start` and `run`, with no crash on the way.
  predicate Between(start: Run, linked: Run, run: Run) {
    CrashFree(start, linked) && CrashFree(linked, run) && linked.Then?
  }

  // link, and what follows it
  method LinkFinal(t: Thread, fd: UniqueFd, temp: Text, final: Text)
    returns (code: Code, ghost linked: Run, ghost changes: seq<Action>)
    requires t.Valid() && t.me in t.procs && t.procs[t.me].Sealed? && t.procs[t.me].temp == temp
    requires final == FinalName(t.procs[t.me].req.id) && !fd.Owns() && t.procs[t.me].ino !in t.fs.writers
    modifies t, fd
    ensures t.base == old(t.base) && t.Valid() && t.me !in t.procs && t.fds == old(t.fds)
    ensures t.changes == old(t.changes) + changes
    ensures StoreStory(t.me, old(t.procs[t.me]).req, old(t.procs[t.me]).body, code, changes)
    ensures |changes| == 1 ==> code == IoError
    ensures FaultsTell(t.me, code, old(t.faults), t.faults, changes)
    ensures |changes| == 3 ==> Between(t.base, linked, t.run) && linked.a == changes[0]
    ensures |changes| == 2 ==> Between(t.base, linked, t.run) && linked.a == changes[0] && final in linked.w.fs.dir
    ensures code == Ok ==> var at := old(t.procs[t.me]);
              Acknowledged(linked, t.run, at.req.id, Chunk(at.body, at.req.checksum))
  {
    hide Account;
    var gone: bool;
    var reply := Commit(t, temp, final);
    linked := t.run;
    t.NoCrashSinceBase();
    if reply.Done? {
      code, gone := Settle(t, temp);
      changes := [linked.a, Cleaned(t.me, gone), Flushed(t.me, code == Ok)];
    } else {
      changes := if reply.errno == EEXIST then [Refused(t.me, t.procs[t.me].req.id)] else [];
      code, gone := Abandon(t, fd, temp);
      changes := changes + [Cleaned(t.me, gone)];
    }
  }

  // The part of Put after the checks.
  method Publish(t: Thread, fd: UniqueFd, temp: Text, final: Text)
    returns (code: Code, ghost linked: Run, ghost changes: seq<Action>)
    requires t.Valid() && t.me in t.procs && t.procs[t.me].Writing? && t.procs[t.me].todo == []
    requires Verified(t.procs[t.me].req, t.procs[t.me].body)
    requires t.procs[t.me].temp == temp && final == FinalName(t.procs[t.me].req.id)
    requires fd.Owns() && t.Refers(fd.fd, Writer(t.procs[t.me].ino))
    modifies t, fd
    ensures t.base == old(t.base) && t.Valid() && t.me !in t.procs && t.fds == old(t.fds) - {old(fd.fd)}
    ensures t.changes == old(t.changes) + changes
    ensures StoreStory(t.me, old(t.procs[t.me]).req, old(t.procs[t.me]).body, code, changes)
    ensures |changes| == 1 ==> code == IoError
    ensures FaultsTell(t.me, code, old(t.faults), t.faults, changes)
    ensures |changes| == 3 ==> Between(t.base, linked, t.run) && linked.a == changes[0]
    ensures |changes| == 2 ==> Between(t.base, linked, t.run) && linked.a == changes[0] && final in linked.w.fs.dir
    ensures code == Ok ==> var at := old(t.procs[t.me]);
              Acknowledged(linked, t.run, at.req.id, Chunk(at.body, at.req.checksum))
  {
    hide Account;
    linked := t.run;
    var sealed := Seal(t, fd);
    if !sealed {
      var gone: bool;
      code, gone := Abandon(t, fd, temp);
      return code, linked, [Cleaned(t.me, gone)];
    }
    code, linked, changes := LinkFinal(t, fd, temp, final);
  }

  // The part of Put after the temporary file is open.
  method Store(t: Thread, tempFd: nat, temp: Text, final: Text, request: PutRequest, input: RpcInputStream)
    returns (code: Code, ghost linked: Run, ghost changes: seq<Action>)
    requires t.Valid() && t.me in t.procs && t.procs[t.me].Writing? && ValidRequest(request)
    requires t.procs[t.me].req == request && t.procs[t.me].todo == Header(request.size, request.checksum)
    requires t.procs[t.me].body == [] && t.procs[t.me].temp == temp && final == FinalName(request.id)
    requires t.Refers(tempFd, Writer(t.procs[t.me].ino)) && input.Valid()
    modifies t, input, input.reader
    ensures t.base == old(t.base) && t.Valid() && t.me !in t.procs && t.fds == old(t.fds) - {tempFd}
    ensures t.changes == old(t.changes) + changes
    ensures StoreStory(t.me, request, old(input.Unread()), code, changes)
    ensures FaultsTell(t.me, code, old(t.faults), t.faults, changes)
    ensures code == Ok || code == AlreadyExists ==> Verdict(request, old(input.Unread()), old(Cut(input.reader.frames))) == Ok
    ensures code != IoError && code != AlreadyExists ==> code == Verdict(request, old(input.Unread()), old(Cut(input.reader.frames)))
    ensures |changes| == 2 ==> Between(t.base, linked, t.run) && linked.a == changes[0] && final in linked.w.fs.dir
    ensures |changes| == 3 ==> Between(t.base, linked, t.run) && linked.a == changes[0]
    ensures code == Ok ==> Acknowledged(linked, t.run, request.id, Chunk(old(input.Unread()), request.checksum))
    ensures input.calls <= old(input.calls) + request.size + 1
  {
    hide Account, Acknowledged, Header, CrashFree;
    linked := t.run;
    var fd := new UniqueFd(tempFd);
    code := Fill(t, fd.fd, request, input);
    if code != Ok {
      OwnProc(t);
      t.Record(Failed(t.me, code));
      var gone: bool;
      code, gone := Abandon(t, fd, temp);
      return code, linked, [Cleaned(t.me, gone)];
    }
    code, linked, changes := Publish(t, fd, temp, final);
  }

  method TempPath(id: Text, final: Text, pid: nat, address: nat) returns (temp: Text)
    requires final == FinalName(id)
    ensures temp == TempName(id, pid, address) && IsTemp(temp)
  {
    temp := final + DOT_TMP + Decimal(pid) + [DOT] + Decimal(address);
    TempNamesAreTemporary(id, pid, address);
  }

  lemma Joined(before: seq<Action>, created: Action, later: seq<Action>)
    ensures (before + [created]) + later == before + ([created] + later)
    ensures ([created] + later)[1..] == later
    ensures forall a :: a in [created] + later ==> a == created || a in later
  {
  }

  // Put up to the creation of the temporary file.
  method Prepare(t: Thread, temp: Text, request: PutRequest) returns (code: Code, fd: nat)
    requires t.Valid() && t.me !in t.procs && IsTemp(temp)
    modifies t
    ensures t.base == old(t.base) && t.Valid()
    ensures code == Ok || code == InvalidArgument || code == Unavailable || code == IoError
    ensures code == InvalidArgument <==> !ValidRequest(request)
    ensures code == Unavailable ==> temp in t.fs.dir
    ensures t.faults == if code == IoError then old(t.faults) + 1 else old(t.faults)
    ensures code != Ok ==> t.me !in t.procs && t.fds == old(t.fds) && t.changes == old(t.changes)
    ensures code == Ok ==>
              && t.me in t.procs && t.procs[t.me].Writing?
              && t.procs[t.me] == Writing(request, temp, t.procs[t.me].ino, Header(request.size, request.checksum), [])
              && fd !in old(t.fds) && t.fds == old(t.fds)[fd := Writer(t.procs[t.me].ino)]
              && t.changes == old(t.changes) + [Created(t.me, t.procs[t.me].ino)]
  {
    fd := 0;
    if !ValidId(request.id) {
      return InvalidArgument, fd;
    }
    if !ValidChecksum(request.checksum) {
      return InvalidArgument, fd;
    }
    var made := t.CreateRoot();
    if !made {
      return IoError, fd;
    }
    Begin(t, Fresh(request, temp));
    var reply := CreateTemp(t, temp);
    if reply.OpenFailed? {
      Finish(t);
      return if reply.errno == EEXIST then Unavailable else IoError, fd;
    }
    return Ok, reply.fd;
  }

  /**
   Stores the bytes of `input` under request.id, unless the id is taken. Returns with every descriptor it
   opened closed; `linked` is the run up to its link, `changes` what it did to the directory.
   */
  method Put(t: Thread, pid: nat, address: nat, request: PutRequest, input: RpcInputStream)
    returns (code: Code, ghost linked: Run, ghost changes: seq<Action>)
    requires t.Valid() && t.me !in t.procs && input.Valid()
    modifies t, input, input.reader
    ensures t.Valid() && t.me !in t.procs && t.fds == old(t.fds) && CrashFree(old(t.run), t.run)
    ensures t.changes == old(t.changes) + changes
    ensures PutStory(t.me, request, old(input.Unread()), code, changes)
    ensures code in {Ok, InvalidArgument, AlreadyExists, Corruption, Unavailable, IoError}
    ensures var payload, cut := old(input.Unread()), old(Cut(input.reader.frames));
            var proper := 0 < |request.id| <= 1024 && ValidChecksum(request.checksum);
            var matches := |payload| == request.size && Hex(Blake3(payload)) == request.checksum;
            && (!proper ==> code == InvalidArgument)
            && (code == InvalidArgument ==> !proper || (cut && |payload| <= request.size))
            && (code == Corruption ==> |payload| > request.size || (!cut && !matches))
            && (code == Ok || code == AlreadyExists ==> !cut && matches)
    ensures code == Unavailable ==> changes == [] && TempName(request.id, pid, address) in t.fs.dir
    ensures var ignored := if Cleaned(t.me, false) in changes then 1 else 0;
            t.faults >= old(t.faults) + ignored && (code == IoError <==> t.faults > old(t.faults) + ignored)
    ensures |changes| == 4 ==>
              && Between(old(t.run), linked, t.run) && linked.a == changes[1] && request.id !in Visible(linked.before.w.fs)
              && Visible(linked.w.fs)
              == Visible(linked.before.w.fs)[request.id := Chunk(old(input.Unread()), request.checksum)]
    ensures code == AlreadyExists ==>
              Between(old(t.run), linked, t.run) && linked.a == Refused(t.me, request.id) && request.id in Visible(linked.w.fs)
    ensures code == Ok ==> Acknowledged(linked, t.run, request.id, Chunk(old(input.Unread()), request.checksum))
    ensures input.calls <= old(input.calls) + request.size + 1
  {
    hide Account, Acknowledged, Visible, Verdict;
    ghost var before, fds := t.changes, t.fds;
    ghost var payload, cut := input.Unread(), Cut(input.reader.frames);
    t.Enter();
    linked, changes := t.run, [];
    var finalPath := PathFor(request.id);
    var tempPath := TempPath(request.id, finalPath, pid, address);
    var fd: nat;
    code, fd := Prepare(t, tempPath, request);
    if code == Ok {
      ghost var created := Created(t.me, t.procs[t.me].ino);
      ghost var later: seq<Action>;
      code, linked, later := Store(t, fd, tempPath, finalPath, request, input);
      changes := [created] + later;
      Joined(before, created, later);
      OpenedAndClosed(fds, fd, Writer(created.ino));
      if |later| > 1 {
        t.Audit();
        LinkSeesTheMap(linked, t.run, request.id);
      }
    }
    VerdictSays(request, payload, cut);
    t.NoCrashSinceBase();
  }

  lemma VerdictSays(request: PutRequest, payload: seq<byte>, cut: bool)
    ensures var code := Verdict(request, payload, cut);
            var proper := 0 < |request.id| <= 1024 && ValidChecksum(request.checksum);
            var matches := |payload| == request.size && Hex(Blake3(payload)) == request.checksum;
            if !proper then code == InvalidArgument
            else if |payload| > request.size then code == Corruption
            else if cut then code == InvalidArgument
            else code == if matches then Ok else Corruption
  {
  }

  // At its link a Put inserts into the map that readers see, or finds the id there.
  lemma LinkSeesTheMap(linked: Run, run: Run, id: Text)
    requires ValidRun(run) && CrashFree(linked, run) && linked.Then?
    requires linked.a.Committed? || (linked.a.Refused? && FinalName(id) in linked.w.fs.dir)
    ensures linked.a.Committed? ==>
              && linked.a.id !in Visible(linked.before.w.fs)
              && Visible(linked.w.fs) == Visible(linked.before.w.fs)[linked.a.id := linked.a.chunk]
    ensures linked.a.Refused? ==> id in Visible(linked.w.fs)
  {
    CrashFreeIsPrefix(linked, run);
    ValidPrefix(linked, run);
    if linked.a.Committed? {
      RunInv(linked.before);
      CommitRefines(linked.before.w, linked.a);
    } else {
      VisibleChunksAreComplete(linked, id);
    }
  }

  // ---- Reading ----

  method PreadSome(t: Thread, fd: nat, buffer: array<byte>, from: nat, count: nat, offset: u64) returns (r: Result<nat>)
    requires t.Valid() && fd in t.fds && t.fds[fd].Reader? && from + count <= buffer.Length
    requires Frozen(t.fs, t.fds[fd].ino)
    modifies t, buffer
    ensures t.Valid() && t.Onward(old(t.run)) && t.changes == old(t.changes) && t.fds == old(t.fds)
    ensures var bytes := old(t.fs).inodes[t.fds[fd].ino].bytes;
            match r
            case Success(n) =>
              && n <= count && t.faults == old(t.faults)
              && (n == 0 ==> count == 0 || offset >= |bytes|)
              && (n > 0 ==> offset + n <= |bytes| && buffer[from..from + n] == bytes[offset..offset + n])
              && buffer[..from] == old(buffer[..from])
            case Failure(code) =>
              if offset > OFF_MAX then code == InvalidArgument && t.faults == old(t.faults)
              else code == IoError && t.faults == old(t.faults) + 1
  {
    if offset > OFF_MAX {
      t.StaysOnward();
      return Failure(InvalidArgument);
    }
    t.StaysOnward();
    while true
      invariant t.Valid() && t.Onward(old(t.run)) && t.changes == old(t.changes) && t.fds == old(t.fds)
      invariant t.faults == old(t.faults) && buffer[..] == old(buffer[..])
      decreases t.interrupts
    {
      ghost var before := t.run;
      var result := t.Pread(fd, buffer, from, count, offset);
      t.GoesOnward(old(t.run), before);
      match result {
        case Interrupted =>
        case Error => return Failure(IoError);
        case Count(n) =>
          assert buffer[..from] == old(buffer[..])[..from];
          return Success(n);
      }
    }
  }

  // The read loop of ReadHeader.
  method FillHeader(t: Thread, fd: nat, header: array<byte>) returns (code: Code)
    requires t.Valid() && fd in t.fds && t.fds[fd].Reader? && Frozen(t.fs, t.fds[fd].ino)
    requires header.Length == HEADER_SIZE
    modifies t, header
    ensures t.Valid() && t.Onward(old(t.run)) && t.changes == old(t.changes) && t.fds == old(t.fds)
    ensures var file := old(t.fs).inodes[t.fds[fd].ino].bytes;
            match code
            case Ok => HEADER_SIZE <= |file| && header[..] == file[..HEADER_SIZE]
            case Corruption => |file| < HEADER_SIZE
            case _ => code == IoError
    ensures t.faults == if code == IoError then old(t.faults) + 1 else old(t.faults)
  {
    hide Account;
    ghost var file := t.fs.inodes[t.fds[fd].ino].bytes;
    var done := 0;
    t.StaysOnward();
    while done < header.Length
      invariant done <= header.Length && done <= |file| && header[..done] == file[..done]
      invariant t.Valid() && t.Onward(old(t.run)) && t.changes == old(t.changes) && t.fds == old(t.fds)
      invariant t.faults == old(t.faults)
    {
      ghost var before := t.run;
      var count := PreadSome(t, fd, header, done, header.Length - done, done);
      t.GoesOnward(old(t.run), before);
      if count.Failure? {
        return count.code;
      }
      if count.value == 0 {
        return Corruption;
      }
      assert header[..done + count.value] == header[..done] + header[done..done + count.value];
      assert file[..done + count.value] == file[..done] + file[done..done + count.value];
      done := done + count.value;
    }
    return Ok;
  }

  /** Accepts a file exactly when it is a header followed by as many bytes as the header says. */
  method ReadHeader(t: Thread, fd: nat, id: Text) returns (r: Result<HeadResponse>)
    requires t.Valid() && fd in t.fds && t.fds[fd].Reader? && Frozen(t.fs, t.fds[fd].ino)
    modifies t
    ensures t.Valid() && t.Onward(old(t.run)) && t.changes == old(t.changes) && t.fds == old(t.fds)
    ensures var file := old(t.fs).inodes[t.fds[fd].ino].bytes;
            match r
            case Success(head) => head.id == id && Accepts(file, head.size, head.checksum) && t.faults == old(t.faults)
            case Failure(Corruption) => t.faults == old(t.faults) && forall n: u64, c: Text :: !Accepts(file, n, c)
            case Failure(code) => code == IoError && t.faults > old(t.faults)
  {
    hide Account;
    ghost var file := t.fs.inodes[t.fds[fd].ino].bytes;
    var header := new byte[HEADER_SIZE](_ => 0);
    var code := FillHeader(t, fd, header);
    if code != Ok {
      return Failure(code);
    }
    ghost var read := header[..];
    assert read == file[..HEADER_SIZE];
    assert header[..8] == read[..8] == file[..8];
    assert header[8..16] == read[8..16] == file[8..16];
    assert header[16..] == read[16..] == file[16..80];
    forall n: u64, c: Text
      ensures Accepts(file, n, c) <==>
                && file[..8] == MAGIC && LeValue(file[8..16]) == n && file[16..80] == c
                && ValidChecksum(c) && n <= U64_MAX - HEADER_SIZE && |file| == n + HEADER_SIZE
    {
      AcceptedByFields(file, n, c);
    }
    if header[..8] != MAGIC {
      return Failure(Corruption);
    }
    var size := DecodeSize(header);
    var checksum := header[16..];
    if !ValidChecksum(checksum) {
      return Failure(Corruption);
    }
    ghost var before := t.run;
    var stat := t.Fstat(fd);
    t.GoesOnward(old(t.run), before);
    if !stat.Count? {
      return Failure(IoError);
    }
    if size > U64_MAX - HEADER_SIZE || stat.n != size + HEADER_SIZE {
      return Failure(Corruption);
    }
    return Success(HeadResponse(id, size, checksum));
  }

  // The run ends with this thread's look at the id.
  ghost predicate LooksUp(run: Run, me: Pid, id: Text) {
    run.Then? && run.a == Looked(me, id, Found(run.w.fs, id))
  }

  // At this look of the thread the read takes effect: the map gives its answer.
  ghost predicate TakesEffect(run: Run, me: Pid, read: Event) {
    LooksUp(run, me, read.id) && RightAt(run, Some(read))
  }

  lemma LookTakesEffect(run: Run, me: Pid, id: Text)
    requires LooksUp(run, me, id)
    ensures TakesEffect(run, me, Observed(id, Found(run.w.fs, id)))
  {
  }

  // open of the chunk file, the point at which Head and Get take effect
  method OpenChunk(t: Thread, id: Text, path: Text) returns (reply: OpenReply, ghost seen: Run)
    requires t.Valid() && path == FinalName(id)
    modifies t
    ensures t.Valid() && t.Onward(old(t.run)) && t.changes == old(t.changes) && seen == t.run
    ensures match reply
            case Opened(fd) =>
              && LooksUp(seen, t.me, id) && path in t.fs.dir
              && fd !in old(t.fds) && t.fds == old(t.fds)[fd := Reader(t.fs.dir[path])] && t.faults == old(t.faults)
            case OpenFailed(errno) =>
              && t.fds == old(t.fds)
              && t.faults == (if errno == ENOENT then old(t.faults) else old(t.faults) + 1)
              && (errno == ENOENT ==> LooksUp(seen, t.me, id) && path !in t.fs.dir)
  {
    reply := t.OpenToRead(path);
    if reply.Opened? || reply.errno == ENOENT {
      t.Record(Looked(t.me, id, Found(t.fs, id)));
    }
    seen := t.run;
  }

  /**
   Looks an id up. The answer is the one the abstract map gives in `seen`, the state at its open; with no fault
   of the disk it is never Corruption.
   */
  method Head(t: Thread, id: Text) returns (r: Result<HeadResponse>, ghost seen: Run)
    requires t.Valid() && t.me !in t.procs
    modifies t
    ensures t.Valid() && t.me !in t.procs && t.changes == old(t.changes) && t.fds == old(t.fds)
    ensures CrashFree(old(t.run), seen) && CrashFree(seen, t.run)
    ensures ValidId(id) && r != Failure(IoError) ==> LooksUp(seen, t.me, id)
    ensures ValidId(id) && r != Failure(IoError) ==> TakesEffect(seen, t.me, Observed(id, Found(seen.w.fs, id)))
    ensures match r
            case Success(head) =>
              && ValidId(id) && head.id == id && id in Visible(seen.w.fs)
              && head.size == |Visible(seen.w.fs)[id].payload| <= OFF_MAX - HEADER_SIZE
              && head.checksum == Visible(seen.w.fs)[id].checksum
              && t.faults == old(t.faults)
            case Failure(code) =>
              && (code == InvalidArgument || code == NotFound || code == IoError)
              && (code == InvalidArgument <==> !(0 < |id| <= 1024))
              && (code == NotFound ==> id !in Visible(seen.w.fs))
              && (if code == IoError then t.faults > old(t.faults) else t.faults == old(t.faults))
  {
    hide Account, TakesEffect, LooksUp;
    seen := t.run;
    if !ValidId(id) {
      return Failure(InvalidArgument), seen;
    }
    var path := PathFor(id);
    var reply: OpenReply;
    reply, seen := OpenChunk(t, id, path);
    if reply.Opened? || reply.errno == ENOENT {
      LookTakesEffect(seen, t.me, id);
    }
    if reply.OpenFailed? {
      return Failure(if reply.errno == ENOENT then NotFound else IoError), seen;
    }
    t.Audit();
    VisibleChunksAreComplete(seen, id);
    ghost var chunk := Visible(seen.w.fs)[id];
    var fd := new UniqueFd(reply.fd);
    r := ReadHeader(t, fd.fd, id);
    ghost var done := t.run;
    fd.Reset(t, -1);
    OpenedAndClosed(old(t.fds), reply.fd, Reader(seen.w.fs.dir[path]));
    CrashFreeTransitive(seen, done, t.run);
    ImageIsAccepted(chunk);
    if r.Success? {
      AcceptedFieldsAreUnique(Image(|chunk.payload|, chunk.checksum, chunk.payload), r.value.size, r.value.checksum,
                              |chunk.payload|, chunk.checksum);
    }
  }

  lemma ImageIsAccepted(chunk: Chunk)
    requires |chunk.payload| + HEADER_SIZE <= OFF_MAX && ValidChecksum(chunk.checksum)
    ensures Accepts(Image(|chunk.payload|, chunk.checksum, chunk.payload), |chunk.payload|, chunk.checksum)
  {
    var file := Image(|chunk.payload|, chunk.checksum, chunk.payload);
    assert file[..80] == Header(|chunk.payload|, chunk.checksum);
  }

  // What Get has delivered: the first `delivered` bytes of the slice.
  ghost predicate Delivered(accepted: seq<byte>, before: seq<byte>, chunk: Chunk, range: ByteRange, delivered: nat) {
    if delivered == 0 then accepted == before
    else
      && delivered <= range.size && range.offset + delivered <= |chunk.payload|
      && accepted == before + chunk.payload[range.offset..range.offset + delivered]
  }

  // The payload of an image, seen from the file
  lemma SliceOfImage(header: seq<byte>, payload: seq<byte>, from: nat, count: nat)
    requires from + count <= |payload|
    ensures (header + payload)[|header| + from..|header| + from + count] == payload[from..from + count]
  {
  }

  lemma SlicesJoin(payload: seq<byte>, from: nat, middle: nat, to: nat)
    requires from <= middle <= to <= |payload|
    ensures payload[from..middle] + payload[middle..to] == payload[from..to]
  {
  }

  lemma DeliverMore(accepted: seq<byte>, before: seq<byte>, chunk: Chunk, range: ByteRange, delivered: nat, file: seq<byte>, more: seq<byte>)
    requires Delivered(accepted, before, chunk, range, delivered) && |chunk.checksum| == CHECKSUM_LENGTH
    requires |chunk.payload| <= U64_MAX && file == Image(|chunk.payload|, chunk.checksum, chunk.payload)
    requires 0 < |more| && delivered + |more| <= range.size
    requires var at := HEADER_SIZE + range.offset + delivered; at + |more| <= |file| && more == file[at..at + |more|]
    ensures Delivered(accepted + more, before, chunk, range, delivered + |more|)
  {
    hide Header;
    var header, payload := Header(|chunk.payload|, chunk.checksum), chunk.payload;
    var start, from := range.offset, range.offset + delivered;
    SliceOfImage(header, payload, from, |more|);
    SlicesJoin(payload, start, from, from + |more|);
    if delivered > 0 {
      Associative(before, payload[start..from], more);
    }
  }

  lemma Associative(a: seq<byte>, b: seq<byte>, c: seq<byte>)
    ensures (a + b) + c == a + (b + c)
  {
  }

  // One round of the read loop of Get.
  method SendSome(t: Thread, fd: nat, buffer: array<byte>, wanted: nat, offset: u64, output: RpcOutputStream)
    returns (code: Code, count: nat)
    requires t.Valid() && fd in t.fds && t.fds[fd].Reader? && Frozen(t.fs, t.fds[fd].ino)
    requires 0 < wanted <= buffer.Length && offset <= OFF_MAX
    modifies t, buffer, output, output.channel
    ensures t.Valid() && t.Onward(old(t.run)) && t.changes == old(t.changes) && t.fds == old(t.fds)
    ensures var file := old(t.fs).inodes[t.fds[fd].ino].bytes;
            match code
            case Ok =>
              && 0 < count <= wanted && offset + count <= |file|
              && output.Accepted() == old(output.Accepted()) + file[offset..offset + count]
            case Corruption => offset >= |file|
            case _ => code == IoError || code == Unavailable
    ensures code != Ok ==> output.Accepted() == old(output.Accepted())
    ensures output.channel.losses == if code == Unavailable then old(output.channel.losses) + 1 else old(output.channel.losses)
    ensures t.faults == if code == IoError then old(t.faults) + 1 else old(t.faults)
  {
    count := 0;
    var result := PreadSome(t, fd, buffer, 0, wanted, offset);
    if result.Failure? {
      return result.code, count;
    }
    count := result.value;
    if count == 0 {
      return Corruption, count;
    }
    code := output.Write(buffer[..count]);
  }

  // The read loop of Get, on the file that its second open found.
  method SendRange(t: Thread, fd: nat, range: ByteRange, output: RpcOutputStream, ghost chunk: Chunk)
    returns (code: Code, ghost delivered: nat)
    requires t.Valid() && fd in t.fds && t.fds[fd].Reader? && Frozen(t.fs, t.fds[fd].ino)
    requires ValidChecksum(chunk.checksum) && |chunk.payload| + HEADER_SIZE <= OFF_MAX
    requires t.fs.inodes[t.fds[fd].ino].bytes == Image(|chunk.payload|, chunk.checksum, chunk.payload)
    requires range.offset + range.size + HEADER_SIZE <= OFF_MAX
    modifies t, output, output.channel
    ensures t.Valid() && t.Onward(old(t.run)) && t.changes == old(t.changes) && t.fds == old(t.fds)
    ensures Delivered(output.Accepted(), old(output.Accepted()), chunk, range, delivered)
    ensures code == Ok <==> delivered == range.size && code != Unavailable && code != IoError
    ensures code == Ok || code == Corruption || code == Unavailable || code == IoError
    ensures code == Corruption ==> !Fits(range, chunk) && range.size > 0
    ensures output.channel.losses == if code == Unavailable then old(output.channel.losses) + 1 else old(output.channel.losses)
    ensures if code == IoError then t.faults > old(t.faults) else t.faults == old(t.faults)
  {
    hide Account;
    ghost var file := t.fs.inodes[t.fds[fd].ino].bytes;
    var buffer := new byte[BUFFER_SIZE];
    var remaining: u64 := range.size;
    var offset: u64 := range.offset + HEADER_SIZE;
    delivered := 0;
    t.StaysOnward();
    while remaining > 0
      invariant delivered + remaining == range.size
      invariant offset + remaining == range.offset + HEADER_SIZE + range.size
      invariant Delivered(output.Accepted(), old(output.Accepted()), chunk, range, delivered)
      invariant t.Valid() && t.Onward(old(t.run)) && t.changes == old(t.changes) && t.fds == old(t.fds)
      invariant t.faults == old(t.faults) && output.channel.losses == old(output.channel.losses)
    {
      ghost var before, accepted := t.run, output.Accepted();
      var count: nat;
      code, count := SendSome(t, fd, buffer, Min(remaining, buffer.Length), offset, output);
      t.GoesOnward(old(t.run), before);
      if code != Ok {
        return code, delivered;
      }
      DeliverMore(accepted, old(output.Accepted()), chunk, range, delivered, file, file[offset..offset + count]);
      delivered := delivered + count;
      remaining := remaining - count;
      offset := offset + count;
    }
    return Ok, delivered;
  }

  // Get from its second open on.
  method SendFrom(t: Thread, id: Text, range: ByteRange, output: RpcOutputStream)
    returns (code: Code, ghost second: Run, ghost delivered: nat)
    requires t.Valid() && range.offset + range.size + HEADER_SIZE <= OFF_MAX
    modifies t, output, output.channel
    ensures t.Valid() && t.changes == old(t.changes) && t.fds == old(t.fds)
    ensures t.me in t.procs <==> t.me in old(t.procs)
    ensures CrashFree(old(t.run), second) && CrashFree(second, t.run)
    ensures code != IoError || delivered > 0 ==> LooksUp(second, t.me, id)
    ensures code == Ok || code == NotFound || code == Corruption || code == Unavailable || code == IoError
    ensures if id in Visible(second.w.fs)
            then Delivered(output.Accepted(), old(output.Accepted()), Visible(second.w.fs)[id], range, delivered)
            else delivered == 0 && output.Accepted() == old(output.Accepted())
    ensures code == Ok ==> delivered == range.size
    ensures code == NotFound <==> id !in Visible(second.w.fs) && code != IoError
    ensures code == Corruption ==> !Fits(range, Visible(second.w.fs)[id]) && range.size > 0
    ensures output.channel.losses == if code == Unavailable then old(output.channel.losses) + 1 else old(output.channel.losses)
    ensures if code == IoError then t.faults > old(t.faults) else t.faults == old(t.faults)
  {
    hide Account, LooksUp, Frozen;
    delivered := 0;
    var path := PathFor(id);
    var reply: OpenReply;
    reply, second := OpenChunk(t, id, path);
    if reply.OpenFailed? {
      return if reply.errno == ENOENT then NotFound else IoError, second, delivered;
    }
    t.Audit();
    VisibleChunksAreComplete(second, id);
    var fd := new UniqueFd(reply.fd);
    code, delivered := SendRange(t, fd.fd, range, output, Visible(second.w.fs)[id]);
    ghost var sent := t.run;
    fd.Reset(t, -1);
    OpenedAndClosed(old(t.fds), reply.fd, Reader(second.w.fs.dir[path]));
    CrashFreeTransitive(second, sent, t.run);
  }

  lemma NothingSent(accepted: seq<byte>, state: Run, id: Text, range: ByteRange)
    ensures id in Visible(state.w.fs) ==> Delivered(accepted, accepted, Visible(state.w.fs)[id], range, 0)
  {
  }

  // The open at which a Get with this answer takes effect.
  ghost function PointOf(first: Run, second: Run, id: Text, range: ByteRange, code: Code): Run {
    if (code == Ok && range.size > 0) || (code == NotFound && id in Visible(first.w.fs)) then second else first
  }

  // A Get that answers Ok, NotFound or InvalidArgument is one lookup of the map.
  lemma GetTakesEffect(first: Run, second: Run, me: Pid, id: Text, range: ByteRange, code: Code,
                       accepted: seq<byte>, before: seq<byte>, delivered: nat)
    returns (sent: seq<byte>)
    requires if id in Visible(second.w.fs) then Delivered(accepted, before, Visible(second.w.fs)[id], range, delivered)
             else delivered == 0 && accepted == before
    requires code in {Ok, NotFound, InvalidArgument} ==> LooksUp(first, me, id) && LooksUp(second, me, id)
    requires match code
             case Ok =>
               && id in Visible(first.w.fs) && Fits(range, Visible(first.w.fs)[id])
               && id in Visible(second.w.fs) && delivered == range.size
             case NotFound => delivered == 0 && (id !in Visible(first.w.fs) || id !in Visible(second.w.fs))
             case InvalidArgument => delivered == 0 && id in Visible(first.w.fs) && !Fits(range, Visible(first.w.fs)[id])
             case _ => true
    ensures accepted == before + sent && |sent| == delivered
    ensures sent != [] ==>
              && id in Visible(second.w.fs) && range.offset + |sent| <= |Visible(second.w.fs)[id].payload|
              && sent == Visible(second.w.fs)[id].payload[range.offset..range.offset + |sent|]
    ensures code in {Ok, NotFound, InvalidArgument}
            ==> TakesEffect(PointOf(first, second, id, range, code), me, Got(id, range, code, sent))
  {
    hide Visible;
    sent := if delivered == 0 then [] else Visible(second.w.fs)[id].payload[range.offset..range.offset + delivered];
  }

  /**
   Sends a range of an id. `first` and `second` are the states at its two opens. Once the second open has
   succeeded, whatever happens to the id, the output gets a prefix of the range of that one chunk, and all of
   it when the answer is Ok. On a sound disk the answer is Corruption exactly if the id was deleted and put
   again between the opens, and the range fits the old chunk but not the new one.
   */
  method Get(t: Thread, id: Text, range: ByteRange, output: RpcOutputStream)
    returns (code: Code, ghost first: Run, ghost second: Run, ghost delivered: nat, ghost sent: seq<byte>)
    requires t.Valid() && t.me !in t.procs
    modifies t, output, output.channel
    ensures t.Valid() && t.me !in t.procs && t.changes == old(t.changes) && t.fds == old(t.fds)
    ensures CrashFree(old(t.run), first) && CrashFree(first, second) && CrashFree(second, t.run)
    ensures if id in Visible(second.w.fs)
            then Delivered(output.Accepted(), old(output.Accepted()), Visible(second.w.fs)[id], range, delivered)
            else delivered == 0 && output.Accepted() == old(output.Accepted())
    ensures output.Accepted() == old(output.Accepted()) + sent && |sent| == delivered
    ensures sent != [] ==>
              && id in Visible(second.w.fs) && range.offset + |sent| <= |Visible(second.w.fs)[id].payload|
              && sent == Visible(second.w.fs)[id].payload[range.offset..range.offset + |sent|]
    ensures ValidId(id) && code in {Ok, NotFound, InvalidArgument}
            ==> TakesEffect(PointOf(first, second, id, range, code), t.me, Got(id, range, code, sent))
    ensures !(0 < |id| <= 1024) ==> code == InvalidArgument
    ensures ValidId(id) && code != IoError ==> LooksUp(first, t.me, id) && LooksUp(second, t.me, id)
    ensures delivered > 0 ==> LooksUp(second, t.me, id)
    ensures ValidId(id) && code != IoError && code != Unavailable ==>
              (code == Corruption <==>
                && id in Visible(first.w.fs) && Fits(range, Visible(first.w.fs)[id])
                && id in Visible(second.w.fs) && !Fits(range, Visible(second.w.fs)[id])
                && range.size > 0)
    ensures match code
            case Ok =>
              && id in Visible(first.w.fs) && Fits(range, Visible(first.w.fs)[id])
              && id in Visible(second.w.fs) && delivered == range.size
            case InvalidArgument => ValidId(id) ==> id in Visible(first.w.fs) && !Fits(range, Visible(first.w.fs)[id])
            case NotFound => id !in Visible(first.w.fs) || id !in Visible(second.w.fs)
            case Corruption => ValidId(id) && !NeverRemoved(first, second, id)
            case _ => code == IoError || code == Unavailable
    ensures output.channel.losses == if code == Unavailable then old(output.channel.losses) + 1 else old(output.channel.losses)
    ensures if code == IoError then t.faults > old(t.faults) else t.faults == old(t.faults)
  {
    hide Account, LooksUp, Visible, Prefix, TakesEffect, PointOf, Delivered;
    delivered, sent := 0, [];
    var head: Result<HeadResponse>;
    head, first := Head(t, id);
    NothingSent(output.Accepted(), first, id, range);
    if head.Failure? {
      CrashFreeTransitive(old(t.run), first, t.run);
      if head.code == NotFound {
        sent := GetTakesEffect(first, first, t.me, id, range, NotFound, output.Accepted(), output.Accepted(), 0);
      }
      return head.code, first, first, delivered, sent;
    }
    code := ValidateByteRange(range, head.value.size);
    if code != Ok {
      sent := GetTakesEffect(first, first, t.me, id, range, code, output.Accepted(), output.Accepted(), 0);
      return code, first, first, delivered, sent;
    }
    ghost var headed := t.run;
    code, second, delivered := SendFrom(t, id, range, output);
    CrashFreeTransitive(first, headed, second);
    sent := GetTakesEffect(first, second, t.me, id, range, code, output.Accepted(), old(output.Accepted()), delivered);
    t.Audit();
    if code == Corruption && NeverRemoved(first, second, id) {
      CrashFreeIsPrefix(second, t.run);
      ValidPrefix(second, t.run);
      RebindingNeedsRemoval(first, second, id);
    }
  }

  // At its unlink a Delete removes from the map that readers see, or finds the id absent.
  lemma UnlinkSeesTheMap(at: Run, run: Run)
    requires ValidRun(run) && CrashFree(at, run) && at.Then? && (at.a.Removed? || at.a.Missed?)
    ensures at.a.Removed? ==>
              at.a.id in Visible(at.before.w.fs) && Visible(at.w.fs) == imap i | i in Visible(at.before.w.fs) && i != at.a.id :: Visible(at.before.w.fs)[i]
    ensures at.a.id !in Visible(at.w.fs)
  {
    CrashFreeIsPrefix(at, run);
    ValidPrefix(at, run);
    RunInv(at.before);
    StepRefines(at.before.w, at.a);
  }

  /** Removes an id: the store answers as the map that readers see does `at` the unlink. */
  method Delete(t: Thread, id: Text) returns (code: Code, ghost at: Run)
    requires t.Valid() && t.me !in t.procs
    modifies t
    ensures t.Valid() && t.me !in t.procs && t.fds == old(t.fds) && CrashFree(old(t.run), t.run)
    ensures code == InvalidArgument <==> !(0 < |id| <= 1024)
    ensures code == Ok || code == NotFound || code == InvalidArgument || code == IoError
    ensures t.changes == old(t.changes) + if code == Ok then [Removed(t.me, id)] else if code == NotFound then [Missed(t.me, id)] else []
    ensures t.faults == if code == IoError then old(t.faults) + 1 else old(t.faults)
    ensures code == Ok || code == NotFound ==>
              && CrashFree(old(t.run), at) && CrashFree(at, t.run) && at.Then?
              && at.a == (if code == Ok then Removed(t.me, id) else Missed(t.me, id)) && id !in Visible(at.w.fs)
    ensures code == Ok ==>
              && id in Visible(at.before.w.fs)
              && Visible(at.w.fs) == imap i | i in Visible(at.before.w.fs) && i != id :: Visible(at.before.w.fs)[i]
  {
    hide Account, Visible;
    at := t.run;
    t.Enter();
    if !ValidId(id) {
      return InvalidArgument, at;
    }
    Begin(t, Deleting(id));
    var path := PathFor(id);
    code := UnlinkChunk(t, id, path);
    at := t.run;
    t.NoCrashSinceBase();
    Finish(t);
    t.Audit();
    if code == Ok || code == NotFound {
      UnlinkSeesTheMap(at, t.run);
    }
  }

  method UnlinkChunk(t: Thread, id: Text, path: Text) returns (code: Code)
    requires t.Valid() && t.me in t.procs && t.procs[t.me] == Deleting(id) && path == FinalName(id)
    modifies t
    ensures t.base == old(t.base) && t.Valid() && t.fds == old(t.fds)
    ensures t.me in t.procs && t.procs[t.me] == DeleteDone(id, code)
    ensures code == Ok || code == NotFound ==>
              t.run.Then? && t.run.a == if code == Ok then Removed(t.me, id) else Missed(t.me, id)
    ensures code == Ok || code == NotFound || code == IoError
    ensures t.changes == old(t.changes) + if code == Ok then [Removed(t.me, id)] else if code == NotFound then [Missed(t.me, id)] else []
    ensures t.faults == if code == IoError then old(t.faults) + 1 else old(t.faults)
  {
    hide Account, ProcInv, Frozen, CrashFree;
    var r := t.Unlink(path);
    code := if r.Done? then Ok else if r.errno == ENOENT then NotFound else IoError;
    t.Record(if code == Ok then Removed(t.me, id) else if code == NotFound then Missed(t.me, id) else DeleteFailed(t.me));
  }
}
