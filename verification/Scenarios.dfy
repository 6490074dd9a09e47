/** Runs that exist: a Put that nothing disturbs, and the runs that break promises stronger than the code keeps. */
module Scenarios {
  import opened Types
  import opened Names
  import opened Codec
  import opened Posix
  import opened Protocol
  import opened Runs
  import opened CrashSafety
  import Invariant

  // One more action of a run that began at `start`
  lemma Do(start: Run, run: Run, a: Action, id: Text) returns (next: Run)
    requires ValidRun(run) && CrashFree(start, run) && NeverRemoved(start, run, id)
    requires Enabled(run.w, a) && !a.Crashed? && !(a.Removed? && a.id == id)
    ensures next == Then(run, a, Next(run.w, a))
    ensures ValidRun(next) && CrashFree(start, next) && NeverRemoved(start, next, id)
  {
    next := Then(run, a, Next(run.w, a));
  }

  // This Put can begin here and finds everything it needs free.
  predicate Welcome(run: Run, p: Pid, req: PutRequest, temp: Text, ino: Ino, body: seq<byte>) {
    && ValidRun(run) && p !in run.w.procs
    && ValidRequest(req) && Verified(req, body) && HEADER_SIZE + |body| <= OFF_MAX
    && IsTemp(temp) && temp !in run.w.fs.dir && FinalName(req.id) !in run.w.fs.dir && ino !in run.w.fs.inodes
  }

  // The file system when the temporary file is complete and synchronized.
  function Written(fs: Fs, req: PutRequest, temp: Text, ino: Ino, body: seq<byte>): Fs
    requires ValidRequest(req)
  {
    fs.Create(temp, ino).(inodes := fs.inodes[ino := Inode(Image(req.size, req.checksum, body), true)])
  }

  lemma PutStarts(run: Run, p: Pid, req: PutRequest, temp: Text, ino: Ino, body: seq<byte>) returns (end: Run)
    requires Welcome(run, p, req, temp, ino, body)
    ensures ValidRun(end) && CrashFree(run, end) && NeverRemoved(run, end, req.id)
    ensures end.w.procs == run.w.procs[p := Writing(req, temp, ino, Header(req.size, req.checksum), [])]
    ensures end.w.fs == run.w.fs.Create(temp, ino)
  {
    hide CrashFree, NeverRemoved;
    end := Do(run, run, Began(p, Fresh(req, temp)), req.id);
    end := Do(run, end, Created(p, ino), req.id);
  }

  lemma PutStreams(run: Run, p: Pid, req: PutRequest, temp: Text, ino: Ino, body: seq<byte>) returns (end: Run)
    requires Welcome(run, p, req, temp, ino, body)
    ensures ValidRun(end) && CrashFree(run, end) && NeverRemoved(run, end, req.id)
    ensures end.w.procs == run.w.procs[p := Writing(req, temp, ino, body, body)]
    ensures end.w.fs == run.w.fs.Create(temp, ino).Append(ino, Header(req.size, req.checksum))
  {
    hide CrashFree, NeverRemoved;
    var header := Header(req.size, req.checksum);
    end := PutStarts(run, p, req, temp, ino, body);
    assert header[..HEADER_SIZE] == header && header[HEADER_SIZE..] == [] && [] + body == body;
    end := Do(run, end, Wrote(p, HEADER_SIZE), req.id);
    end := Do(run, end, Received(p, body), req.id);
  }

  lemma PutFills(run: Run, p: Pid, req: PutRequest, temp: Text, ino: Ino, body: seq<byte>) returns (end: Run)
    requires Welcome(run, p, req, temp, ino, body)
    ensures ValidRun(end) && CrashFree(run, end) && NeverRemoved(run, end, req.id)
    ensures end.w.procs == run.w.procs[p := Writing(req, temp, ino, [], body)]
    ensures end.w.fs == run.w.fs.Create(temp, ino).Append(ino, Image(req.size, req.checksum, body))
  {
    hide CrashFree, NeverRemoved;
    var header := Header(req.size, req.checksum);
    end := PutStreams(run, p, req, temp, ino, body);
    assert body[..|body|] == body && body[|body|..] == [] && ([] + header) + body == [] + (header + body);
    end := Do(run, end, Wrote(p, |body|), req.id);
  }

  lemma PutWrites(run: Run, p: Pid, req: PutRequest, temp: Text, ino: Ino, body: seq<byte>) returns (end: Run)
    requires Welcome(run, p, req, temp, ino, body)
    ensures ValidRun(end) && CrashFree(run, end) && NeverRemoved(run, end, req.id)
    ensures end.w.procs == run.w.procs[p := Durable(req, temp, ino, body)]
    ensures end.w.fs == Written(run.w.fs, req, temp, ino, body)
  {
    hide CrashFree, NeverRemoved, Image;
    end := PutFills(run, p, req, temp, ino, body);
    assert [] + Image(req.size, req.checksum, body) == Image(req.size, req.checksum, body);
    end := Do(run, end, Synced(p), req.id);
  }

  // fd.reset() and link
  lemma PutLinks(run: Run, p: Pid) returns (end: Run)
    requires ValidRun(run) && p in run.w.procs && run.w.procs[p].Durable?
    requires FinalName(run.w.procs[p].req.id) !in run.w.fs.dir
    ensures var Durable(req, temp, ino, body) := run.w.procs[p];
            && ValidRun(end) && CrashFree(run, end) && NeverRemoved(run, end, req.id)
            && end.w.procs == run.w.procs[p := Linked(req, temp, ino, body)]
            && temp in run.w.fs.dir && end.w.fs == run.w.fs.CloseWriter(ino).Link(temp, FinalName(req.id))
  {
    RunInv(run);
    var Durable(req, temp, ino, body) := run.w.procs[p];
    assert ProcInv(run.w.fs, run.w.procs[p]);
    end := Do(run, run, Closed(p), req.id);
    end := Do(run, end, Committed(p, req.id, Chunk(body, req.checksum)), req.id);
  }

  // cleanup() and the fsync of the directory
  lemma PutEnds(run: Run, p: Pid, synced: bool) returns (end: Run)
    requires ValidRun(run) && p in run.w.procs && run.w.procs[p].Linked?
    ensures var Linked(req, temp, ino, body) := run.w.procs[p];
            && ValidRun(end) && CrashFree(run, end) && NeverRemoved(run, end, req.id)
            && end.w.procs == run.w.procs[p := PutDone(req, ino, if synced then Ok else IoError)]
            && end.w.fs == (if synced then run.w.fs.Unlink(temp).SyncDir() else run.w.fs.Unlink(temp))
            && end.Then? && end.a == Flushed(p, synced)
  {
    RunInv(run);
    assert ProcInv(run.w.fs, run.w.procs[p]);
    var id := run.w.procs[p].req.id;
    end := Do(run, run, Cleaned(p, true), id);
    end := Do(run, end, Flushed(p, synced), id);
  }

  lemma Chained(a: Run, b: Run, c: Run, id: Text)
    requires CrashFree(a, b) && NeverRemoved(a, b, id) && CrashFree(b, c) && NeverRemoved(b, c, id)
    ensures CrashFree(a, c) && NeverRemoved(a, c, id)
  {
    CrashFreeTransitive(a, b, c);
    NeverRemovedTransitive(a, b, c, id);
  }

  /**
   From any reachable state, a Put that finds the id and its temporary name free, and whose bytes have the size
   and digest stated, can run to its end and make the chunk visible. Its answer is Ok exactly if the last
   step, the fsync of the directory, succeeds; the chunk is there either way.
   */
  lemma UndisturbedPut(run: Run, p: Pid, req: PutRequest, temp: Text, ino: Ino, body: seq<byte>, synced: bool)
    returns (end: Run)
    requires Welcome(run, p, req, temp, ino, body)
    ensures ValidRun(end) && CrashFree(run, end) && NeverRemoved(run, end, req.id)
    ensures end.Then? && end.a == Flushed(p, synced)
    ensures end.w.procs == run.w.procs[p := PutDone(req, ino, if synced then Ok else IoError)]
    ensures end.w.fs.dir == run.w.fs.dir[FinalName(req.id) := ino] && ino !in end.w.fs.writers
    ensures end.w.fs.inodes.Keys == run.w.fs.inodes.Keys + {ino}
    ensures Found(end.w.fs, req.id) == Some(Chunk(body, req.checksum))
    ensures synced ==> end.w.fs.disk == end.w.fs.dir
  {
    hide ValidRun, CrashFree, NeverRemoved;
    TempIsNotFinal(temp, req.id);
    var written := PutWrites(run, p, req, temp, ino, body);
    var linked := PutLinks(written, p);
    end := PutEnds(linked, p, synced);
    Chained(run, written, linked, req.id);
    Chained(run, linked, end, req.id);
    AfterPutFacts(run.w.fs, req, temp, ino, body, synced);
  }

  // The file system after the whole Put.
  function AfterPut(fs: Fs, req: PutRequest, temp: Text, ino: Ino, body: seq<byte>, synced: bool): Fs
    requires ValidRequest(req)
  {
    var linked := Written(fs, req, temp, ino, body).CloseWriter(ino).Link(temp, FinalName(req.id)).Unlink(temp);
    if synced then linked.SyncDir() else linked
  }

  lemma AfterPutFacts(fs: Fs, req: PutRequest, temp: Text, ino: Ino, body: seq<byte>, synced: bool)
    requires ValidRequest(req) && Verified(req, body) && HEADER_SIZE + |body| <= OFF_MAX
    requires temp !in fs.dir && temp != FinalName(req.id) && ino !in fs.inodes
    ensures var end := AfterPut(fs, req, temp, ino, body, synced);
            && end.dir == fs.dir[FinalName(req.id) := ino] && ino !in end.writers
            && end.inodes.Keys == fs.inodes.Keys + {ino}
            && Found(end, req.id) == Some(Chunk(body, req.checksum))
            && (synced ==> end.disk == end.dir)
  {
    Unlinked(fs.dir, temp, FinalName(req.id), ino);
    FoundInImage(req, body);
  }

  lemma Unlinked(dir: map<Text, Ino>, temp: Text, name: Text, ino: Ino)
    requires temp !in dir && temp != name
    ensures dir[temp := ino][name := ino] - {temp} == dir[name := ino]
  {
  }

  lemma FoundInImage(req: PutRequest, body: seq<byte>)
    requires ValidRequest(req) && Verified(req, body) && HEADER_SIZE + |body| <= OFF_MAX
    ensures HEADER_SIZE <= |Image(req.size, req.checksum, body)|
    ensures ChunkOf(Image(req.size, req.checksum, body)) == Chunk(body, req.checksum)
  {
    Invariant.CompleteIsGood(req, body);
  }

  // ---- Examples ----

  const SAMPLE_ID: Text := [97]
  const SAMPLE_TEMP: Text := TempName(SAMPLE_ID, 1, 1)

  function Sample(body: seq<byte>): PutRequest
    requires |body| <= U64_MAX
  {
    PutRequest(SAMPLE_ID, |body|, Hex(Blake3(body)))
  }

  lemma SamplePut(run: Run, body: seq<byte>, ino: Ino, synced: bool) returns (end: Run)
    requires ValidRun(run) && run.w.procs == map[] && |body| <= 1
    requires run.w.fs.dir == map[] && ino !in run.w.fs.inodes
    ensures ValidRun(end) && CrashFree(run, end) && end.Then? && end.a == Flushed(0, synced)
    ensures end.w.procs == map[0 := PutDone(Sample(body), ino, if synced then Ok else IoError)]
    ensures end.w.fs.dir == map[FinalName(SAMPLE_ID) := ino] && ino !in end.w.fs.writers
    ensures end.w.fs.inodes.Keys == run.w.fs.inodes.Keys + {ino}
    ensures Found(end.w.fs, SAMPLE_ID) == Some(Chunk(body, Hex(Blake3(body))))
    ensures synced ==> end.w.fs.disk == end.w.fs.dir
  {
    DigestTextIsFaithful(Blake3(body), Blake3(body));
    TempNamesAreTemporary(SAMPLE_ID, 1, 1);
    end := UndisturbedPut(run, 0, Sample(body), SAMPLE_TEMP, ino, body, synced);
  }

  // The id that is deleted plays no part in Do: NeverRemoved is about another one.
  lemma SampleDelete(run: Run) returns (removed: Run, end: Run)
    requires ValidRun(run) && run.w.procs.Keys == {0} && run.w.procs[0].PutDone? && run.w.procs[0].ino !in run.w.fs.writers
    requires run.w.fs.dir.Keys == {FinalName(SAMPLE_ID)}
    ensures ValidRun(end) && CrashFree(run, end) && end.w == World(run.w.fs.Unlink(FinalName(SAMPLE_ID)), map[])
    ensures removed.Then? && removed.a == Removed(1, SAMPLE_ID) && end == Then(removed, Returned(1), end.w)
    ensures end.w.fs.dir == map[]
  {
    hide CrashFree, NeverRemoved;
    removed := Do(run, run, Returned(0), []);
    removed := Do(run, removed, Began(1, Deleting(SAMPLE_ID)), []);
    removed := Do(run, removed, Removed(1, SAMPLE_ID), []);
    end := Do(run, removed, Returned(1), []);
  }

  /** A Put that has answered IoError, after the fsync of the directory failed, has stored its chunk all the same. */
  lemma FailedPutMayHaveStored() returns (run: Run)
    ensures ValidRun(run) && run.Then? && run.a == Flushed(0, false)
    ensures 0 in run.w.procs && run.w.procs[0].PutDone? && run.w.procs[0].code == IoError
    ensures SAMPLE_ID in Visible(run.w.fs)
  {
    run := SamplePut(Start(World(EMPTY, map[])), [], 7, false);
  }

  /** After a Put and a Delete that both answered Ok, the id is absent, and a crash can bring it back. */
  lemma DeletedChunkReturns() returns (run: Run)
    ensures ValidRun(run) && run.w.procs == map[] && run.Then? && run.before.Then?
    ensures run.before.a == Removed(1, SAMPLE_ID)
    ensures SAMPLE_ID !in Visible(run.w.fs) && MayComeBack(run.w, SAMPLE_ID)
  {
    var put := SamplePut(Start(World(EMPTY, map[])), [], 7, true);
    var removed: Run;
    removed, run := SampleDelete(put);
    assert NeverFlushed(removed, run) && NeverCommitted(removed, run, SAMPLE_ID);
    DeletedIdsMayComeBack(removed, run, SAMPLE_ID);
  }

  lemma SeenIfFound(fs: Fs, id: Text, chunk: Chunk)
    requires Found(fs, id) == Some(chunk)
    ensures id in Visible(fs) && Visible(fs)[id] == chunk
  {
  }

  // Delete, then Put of an empty chunk
  lemma ReplaceSample(first: Run) returns (second: Run)
    requires ValidRun(first) && first.w.procs.Keys == {0} && first.w.procs[0].PutDone? && first.w.procs[0].ino !in first.w.fs.writers
    requires first.w.fs.dir.Keys == {FinalName(SAMPLE_ID)} && first.w.fs.inodes.Keys == {7}
    ensures ValidRun(second) && CrashFree(first, second)
    ensures Found(second.w.fs, SAMPLE_ID) == Some(Chunk([], Hex(Blake3([]))))
  {
    var removed, gone := SampleDelete(first);
    assert 8 !in gone.w.fs.inodes.Keys;
    second := SamplePut(gone, [], 8, true);
    CrashFreeTransitive(first, gone, second);
  }

  /**
   Two states of one run, with no crash between them, such that a Get of one byte finds its range in the chunk of
   the first and not in that of the second: what makes Get answer Corruption on an undamaged store.
   */
  lemma ChunkMayShrinkBetweenOpens() returns (first: Run, second: Run, range: ByteRange)
    ensures ValidRun(second) && CrashFree(first, second) && range.size > 0
    ensures SAMPLE_ID in Visible(first.w.fs) && Fits(range, Visible(first.w.fs)[SAMPLE_ID])
    ensures SAMPLE_ID in Visible(second.w.fs) && !Fits(range, Visible(second.w.fs)[SAMPLE_ID])
  {
    range := ByteRange(0, 1);
    first := SamplePut(Start(World(EMPTY, map[])), [65], 7, true);
    SeenIfFound(first.w.fs, SAMPLE_ID, Chunk([65], Hex(Blake3([65]))));
    second := ReplaceSample(first);
    SeenIfFound(second.w.fs, SAMPLE_ID, Chunk([], Hex(Blake3([]))));
  }
}
