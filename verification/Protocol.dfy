/**
 The chunk store as a state machine: any number of Put and Delete calls, each a program counter over
 single system calls, interleaved with each other, with crashes and with restarts of the worker. Head and Get change nothing and
 so need no program counter: each of their opens is one action, which reports what it found.
 */
module Protocol {
  import opened Types
  import opened Names
  import opened Codec
  import opened Posix

  type Pid = nat

  // Where a call stands. `todo` is what WriteAll still has to write, `body` the payload received so far.
  datatype Proc =
    | Fresh(req: PutRequest, temp: Text)
    | Writing(req: PutRequest, temp: Text, ino: Ino, todo: seq<byte>, body: seq<byte>)
    | Durable(req: PutRequest, temp: Text, ino: Ino, body: seq<byte>)   // verified, fdatasync done
    | Sealed(req: PutRequest, temp: Text, ino: Ino, body: seq<byte>)    // and descriptor closed
    | Linked(req: PutRequest, temp: Text, ino: Ino, body: seq<byte>)
    | Settling(req: PutRequest, ino: Ino)                               // temporary unlinked
    | Failing(req: PutRequest, temp: Text, ino: Ino, code: Code)        // before cleanup()
    | PutDone(req: PutRequest, ino: Ino, code: Code)
    | Rejected(req: PutRequest, code: Code)                             // no temporary was created
    | Deleting(id: Text)
    | DeleteDone(id: Text, code: Code)

  datatype World = World(fs: Fs, procs: map<Pid, Proc>)

  datatype Action =
    | Began(p: Pid, proc: Proc)
    | Created(p: Pid, ino: Ino)
    | Wrote(p: Pid, n: nat)
    | Received(p: Pid, data: seq<byte>)
    | Synced(p: Pid)
    | Closed(p: Pid)
    | Failed(p: Pid, code: Code)
    | Committed(p: Pid, id: Text, chunk: Chunk)   // link succeeds
    | Refused(p: Pid, id: Text)                   // link finds the name taken
    | Cleaned(p: Pid, gone: bool)                 // unlink of the temporary, its result ignored
    | Flushed(p: Pid, ok: bool)                   // fsync of the directory
    | Removed(p: Pid, id: Text)                   // unlink of the chunk file
    | Missed(p: Pid, id: Text)
    | DeleteFailed(p: Pid)
    | Looked(p: Pid, id: Text, found: Option<Chunk>)  // open of the chunk file for reading
    | Returned(p: Pid)
    | Crashed(keep: seq<bool>, junk: map<Ino, seq<byte>>)  // the machine goes down
    | Restarted                                            // only the worker process dies

  // Every call ends.
  predicate Stops(a: Action) {
    a.Crashed? || a.Restarted?
  }

  predicate ActedBy(a: Action, me: Pid) {
    !Stops(a) && a.p == me
  }

  predicate ActedByOther(a: Action, me: Pid) {
    !Stops(a) && a.p != me
  }

  // A step of a call that has a program counter.
  predicate OfCall(a: Action) {
    !Stops(a) && !a.Began? && !a.Looked?
  }

  function ChunkOf(bytes: seq<byte>): Chunk
    requires HEADER_SIZE <= |bytes|
  {
    Chunk(bytes[HEADER_SIZE..], bytes[16..HEADER_SIZE])
  }

  predicate Holds(fs: Fs, id: Text) {
    var name := FinalName(id);
    name in fs.dir && fs.dir[name] in fs.inodes && HEADER_SIZE <= |fs.inodes[fs.dir[name]].bytes|
  }

  // What an open of the chunk file finds.
  function Found(fs: Fs, id: Text): Option<Chunk> {
    if Holds(fs, id) then Some(ChunkOf(fs.inodes[fs.dir[FinalName(id)]].bytes)) else None
  }

  predicate ValidRequest(req: PutRequest) {
    ValidId(req.id) && ValidChecksum(req.checksum)
  }

  // The checks of Put between the last read and fdatasync.
  predicate Verified(req: PutRequest, body: seq<byte>) {
    |body| == req.size && Hex(Blake3(body)) == req.checksum
  }

  predicate IsFailure(code: Code) {
    code != Ok && code != AlreadyExists && code != NotFound
  }

  predicate HoldsTemp(proc: Proc) {
    proc.Writing? || proc.Durable? || proc.Sealed? || proc.Linked? || proc.Failing?
  }

  predicate HasIno(proc: Proc) {
    HoldsTemp(proc) || proc.Settling? || proc.PutDone?
  }

  // The system call may have this outcome now.
  predicate Enabled(w: World, a: Action) {
    match a
    case Crashed(keep, junk) =>
      && |keep| == |w.fs.pending|
      && forall ino :: ino in junk ==> |junk[ino]| <= OFF_MAX
    case Began(p, proc) =>
      && p !in w.procs
      && ((proc.Fresh? && ValidRequest(proc.req) && IsTemp(proc.temp)) || (proc.Deleting? && ValidId(proc.id)))
    case Restarted => true
    case Looked(_, id, found) => found == Found(w.fs, id)
    case _ => a.p in w.procs && EnabledAt(w.fs, w.procs[a.p], a)
  }

  predicate EnabledAt(fs: Fs, at: Proc, a: Action) {
    match a
    case Created(p, ino) => at.Fresh? && ValidRequest(at.req) && at.temp !in fs.dir && ino !in fs.inodes
    case Wrote(p, n) =>
      && at.Writing? && n <= |at.todo|
      && at.ino in fs.inodes && at.ino in fs.writers
      && |fs.inodes[at.ino].bytes| + n <= OFF_MAX
    case Received(p, data) => at.Writing? && at.todo == [] && |at.body| + |data| <= at.req.size
    case Synced(p) => at.Writing? && at.todo == [] && Verified(at.req, at.body) && at.ino in fs.inodes
    case Closed(p) => (at.Durable? || at.PutDone?) && at.ino in fs.writers
    case Failed(p, code) =>
      && (at.Fresh? || at.Writing? || at.Sealed?)
      && IsFailure(code)
      && (at.Fresh? && code == Unavailable ==> at.temp in fs.dir)
    case Committed(p, id, chunk) =>
      && at.Sealed? && id == at.req.id && chunk == Chunk(at.body, at.req.checksum)
      && at.temp in fs.dir && FinalName(id) !in fs.dir
    case Refused(p, id) => at.Sealed? && id == at.req.id && FinalName(id) in fs.dir
    case Cleaned(p, gone) => (at.Linked? || at.Failing?) && at.temp in fs.dir
    case Flushed(p, ok) => at.Settling?
    case Removed(p, id) => at.Deleting? && id == at.id && FinalName(id) in fs.dir
    case Missed(p, id) => at.Deleting? && id == at.id && FinalName(id) !in fs.dir
    case DeleteFailed(p) => at.Deleting?
    case Returned(p) => at.Rejected? || at.DeleteDone? || (at.PutDone? && at.ino !in fs.writers)
    case _ => false
  }

  // What the action does to the file system.
  function NextFs(fs: Fs, at: Proc, a: Action): Fs
    requires EnabledAt(fs, at, a)
  {
    match a
    case Created(p, ino) => fs.Create(at.temp, ino)
    case Wrote(p, n) => fs.Append(at.ino, at.todo[..n])
    case Synced(p) => fs.Sync(at.ino)
    case Closed(p) => fs.CloseWriter(at.ino)
    case Committed(p, id, chunk) => fs.Link(at.temp, FinalName(id))
    case Cleaned(p, gone) => if gone then fs.Unlink(at.temp) else fs
    case Flushed(p, ok) => if ok then fs.SyncDir() else fs
    case Removed(p, id) => fs.Unlink(FinalName(id))
    case _ => fs
  }

  // Where the call stands afterwards.
  function NextProc(ghost fs: Fs, at: Proc, a: Action): Proc
    requires EnabledAt(fs, at, a)
  {
    match a
    case Created(p, ino) => Writing(at.req, at.temp, ino, Header(at.req.size, at.req.checksum), [])
    case Wrote(p, n) => at.(todo := at.todo[n..])
    case Received(p, data) => at.(todo := data, body := at.body + data)
    case Synced(p) => Durable(at.req, at.temp, at.ino, at.body)
    case Closed(p) => if at.Durable? then Sealed(at.req, at.temp, at.ino, at.body) else at
    case Failed(p, code) => if at.Fresh? then Rejected(at.req, code) else Failing(at.req, at.temp, at.ino, code)
    case Committed(p, id, chunk) => Linked(at.req, at.temp, at.ino, at.body)
    case Refused(p, id) => Failing(at.req, at.temp, at.ino, AlreadyExists)
    case Cleaned(p, gone) => if at.Linked? then Settling(at.req, at.ino) else PutDone(at.req, at.ino, at.code)
    case Flushed(p, ok) => PutDone(at.req, at.ino, if ok then Ok else IoError)
    case Removed(p, id) => DeleteDone(at.id, Ok)
    case Missed(p, id) => DeleteDone(at.id, NotFound)
    case DeleteFailed(p) => DeleteDone(at.id, IoError)
    case _ => at
  }

  function NextProcs(ghost fs: Fs, procs: map<Pid, Proc>, a: Action): map<Pid, Proc>
    requires Enabled(World(fs, procs), a)
  {
    match a
    case Crashed(_, _) => map[]
    case Restarted => map[]
    case Began(p, proc) => procs[p := proc]
    case Looked(_, _, _) => procs
    case Returned(p) => procs - {p}
    case _ => procs[a.p := NextProc(fs, procs[a.p], a)]
  }

  function Next(w: World, a: Action): World
    requires Enabled(w, a)
  {
    var fs := match a
      case Crashed(keep, junk) => w.fs.Crash(keep, junk)
      case Restarted => w.fs.Restart()
      case Began(_, _) => w.fs
      case Looked(_, _, _) => w.fs
      case _ => NextFs(w.fs, w.procs[a.p], a);
    World(fs, NextProcs(w.fs, w.procs, a))
  }

  // ---- The invariant ----

  // A complete chunk: header, payload of the length the header states, and the checksum of that payload.
  predicate GoodImage(bytes: seq<byte>) {
    && HEADER_SIZE <= |bytes| <= OFF_MAX
    && ValidChecksum(bytes[16..80])
    && bytes[..80] == Header(|bytes| - 80, bytes[16..80])
    && Hex(Blake3(bytes[80..])) == bytes[16..80]
  }

  // On disk and out of reach of any writer.
  predicate Frozen(fs: Fs, ino: Ino) {
    ino in fs.inodes && fs.inodes[ino].synced && ino !in fs.writers
  }

  predicate Published(fs: Fs, ino: Ino) {
    Frozen(fs, ino) && GoodImage(fs.inodes[ino].bytes)
  }

  ghost predicate FsInv(fs: Fs) {
    && (forall ino :: ino in fs.inodes ==> |fs.inodes[ino].bytes| <= OFF_MAX)
    && (forall ino :: ino in fs.writers ==> ino in fs.inodes)
    && (forall name, ino :: fs.MayBind(name, ino) ==> ino in fs.inodes)
    && (forall name, ino :: fs.MayBind(name, ino) && IsFinal(name) ==> Published(fs, ino))
  }

  predicate ProcInv(fs: Fs, proc: Proc) {
    && (HasIno(proc) ==> proc.ino in fs.inodes)
    && (HoldsTemp(proc) ==>
          && ValidRequest(proc.req) && IsTemp(proc.temp)
          && proc.temp in fs.dir && fs.dir[proc.temp] == proc.ino)
    && match proc
       case Fresh(req, temp) => ValidRequest(req) && IsTemp(temp)
       case Writing(req, temp, ino, todo, body) =>
         && ino in fs.writers && !fs.inodes[ino].synced
         && |body| <= req.size
         && fs.inodes[ino].bytes + todo == Image(req.size, req.checksum, body)
       case Durable(req, temp, ino, body) => ino in fs.writers && Complete(fs, req, ino, body)
       case Sealed(req, temp, ino, body) => ino !in fs.writers && Complete(fs, req, ino, body)
       case Linked(req, temp, ino, body) => ino !in fs.writers
       case Settling(req, ino) => ino !in fs.writers
       case _ => true
  }

  predicate Complete(fs: Fs, req: PutRequest, ino: Ino, body: seq<byte>)
    requires ino in fs.inodes && ValidRequest(req)
  {
    && Verified(req, body)
    && fs.inodes[ino].synced
    && fs.inodes[ino].bytes == Image(req.size, req.checksum, body)
  }

  ghost predicate Distinct(procs: map<Pid, Proc>) {
    && (forall p, q :: p in procs && q in procs && p != q && HasIno(procs[p]) && HasIno(procs[q])
          ==> procs[p].ino != procs[q].ino)
  }

  ghost predicate Inv(w: World) {
    && FsInv(w.fs)
    && (forall p :: p in w.procs ==> ProcInv(w.fs, w.procs[p]))
    && Distinct(w.procs)
  }
}
