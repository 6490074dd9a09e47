/** What a crash at any step may leave behind, under the weakest reading of directory durability. */
module CrashSafety {
  import opened Types
  import opened Names
  import opened Posix
  import opened Protocol
  import opened Runs
  import Invariant

  // The directory as it would be with every pending update on disk
  function Caught(fs: Fs): map<Text, Ino> {
    Surviving(fs.disk, fs.pending, AllKept(|fs.pending|))
  }

  lemma CaughtUp(fs: Fs, fs': Fs, u: Update)
    requires Caught(fs) == fs.dir && fs'.disk == fs.disk && fs'.pending == fs.pending + [u]
    requires fs'.dir == ApplyUpdate(fs.dir, u)
    ensures Caught(fs') == fs'.dir
  {
    KeepingOneMore(fs.disk, fs.pending, u);
  }

  lemma CaughtStep(w: World, a: Action)
    requires Enabled(w, a) && Caught(w.fs) == w.fs.dir
    ensures Caught(Next(w, a).fs) == Next(w, a).fs.dir
  {
    var fs, fs' := w.fs, Next(w, a).fs;
    match a {
      case Created(p, ino) => CaughtUp(fs, fs', Bind(w.procs[p].temp, ino));
      case Committed(p, id, _) => CaughtUp(fs, fs', Bind(FinalName(id), fs.dir[w.procs[p].temp]));
      case Cleaned(p, gone) =>
        if gone {
          CaughtUp(fs, fs', Unbind(w.procs[p].temp));
        }
      case Removed(p, id) => CaughtUp(fs, fs', Unbind(FinalName(id)));
      case _ =>
    }
  }

  /** In every reachable state the directory that processes see is the disk with all pending updates applied. */
  lemma {:induction false} DirectoryIsDiskPlusPending(run: Run)
    requires ValidRun(run)
    ensures Caught(run.w.fs) == run.w.fs.dir
  {
    if run.Then? {
      DirectoryIsDiskPlusPending(run.before);
      CaughtStep(run.before.w, run.a);
    }
  }

  /** A name that is or may become bound was bound by a Put that had verified exactly these bytes. */
  lemma {:induction false} BindingsWereCommitted(run: Run, id: Text, ino: Ino)
    requires ValidRun(run) && run.w.fs.MayBind(FinalName(id), ino)
    ensures Published(run.w.fs, ino) && EverCommitted(run, id, ChunkOf(run.w.fs.inodes[ino].bytes))
  {
    FinalNamesStayInRoot(id);
    RunInv(run);
    if run.Then? {
      RunInv(run.before);
      var fs, fs', a := run.before.w.fs, run.w.fs, run.a;
      BindingSource(run.before.w, a, id, ino);
      if fs.MayBind(FinalName(id), ino) {
        BindingsWereCommitted(run.before, id, ino);
        FrozenStep(run.before.w, a, ino);
      } else {
        var at := run.before.w.procs[a.p];
        assert ProcInv(fs, at);
        Invariant.CompleteIsGood(at.req, at.body);
      }
    }
  }

  /** A step adds a binding for a final name in one way only: the link that commits it. */
  lemma BindingSource(w: World, a: Action, id: Text, ino: Ino)
    requires Inv(w) && Enabled(w, a)
    requires Next(w, a).fs.MayBind(FinalName(id), ino)
    ensures w.fs.MayBind(FinalName(id), ino)
         || (a.Committed? && a.id == id && w.fs.dir[w.procs[a.p].temp] == ino)
  {
    if a.Crashed? {
      SurvivorsHaveASource(w.fs.disk, w.fs.pending, a.keep, FinalName(id));
    } else if OfCall(a) {
      var at := w.procs[a.p];
      assert ProcInv(w.fs, at);
      if a.Created? {
        TempIsNotFinal(at.temp, id);
      } else if a.Committed? {
        FinalNamesAreInjective(id, a.id);
      }
    }
  }

  /** After any run with any crashes, every visible chunk is complete, verified, and was put under that id. */
  lemma SurvivorsAreVerified(run: Run, id: Text)
    requires ValidRun(run) && id in Visible(run.w.fs)
    ensures var c := Visible(run.w.fs)[id];
            Hex(Blake3(c.payload)) == c.checksum && EverCommitted(run, id, c)
  {
    VisibleChunksAreComplete(run, id);
    BindingsWereCommitted(run, id, run.w.fs.dir[FinalName(id)]);
  }

  lemma BoundStep(w: World, a: Action, id: Text, ino: Ino)
    requires Inv(w) && Enabled(w, a) && !a.Crashed? && !(a.Removed? && a.id == id)
    requires FinalName(id) in w.fs.dir && w.fs.dir[FinalName(id)] == ino
    ensures FinalName(id) in Next(w, a).fs.dir && Next(w, a).fs.dir[FinalName(id)] == ino
  {
    if OfCall(a) {
      var at := w.procs[a.p];
      assert ProcInv(w.fs, at);
      if a.Created? || a.Cleaned? {
        TempIsNotFinal(at.temp, id);
      } else if a.Removed? {
        FinalNamesAreInjective(id, a.id);
      }
    }
  }

  lemma {:induction false} BindingStays(start: Run, run: Run, id: Text, ino: Ino)
    requires ValidRun(run) && CrashFree(start, run) && NeverRemoved(start, run, id)
    requires FinalName(id) in start.w.fs.dir && start.w.fs.dir[FinalName(id)] == ino
    ensures FinalName(id) in run.w.fs.dir && run.w.fs.dir[FinalName(id)] == ino
  {
    if run != start {
      BindingStays(start, run.before, id, ino);
      RunInv(run.before);
      BoundStep(run.before.w, run.a, id, ino);
    }
  }

  lemma PinnedStep(w: World, a: Action, id: Text, ino: Ino)
    requires Inv(w) && Enabled(w, a) && !(a.Removed? && a.id == id)
    requires w.fs.Pinned(FinalName(id), ino)
    ensures Next(w, a).fs.Pinned(FinalName(id), ino)
  {
    if a.Crashed? {
      UntouchedEntriesSurvive(w.fs.disk, w.fs.pending, a.keep, FinalName(id), ino);
    } else if OfCall(a) {
      var at := w.procs[a.p];
      assert ProcInv(w.fs, at);
      if a.Created? || a.Cleaned? {
        TempIsNotFinal(at.temp, id);
      } else if a.Removed? {
        FinalNamesAreInjective(id, a.id);
      }
    }
  }

  lemma {:induction false} PinnedStays(start: Run, run: Run, id: Text, ino: Ino)
    requires ValidRun(run) && Prefix(start, run) && NeverRemoved(start, run, id)
    requires start.w.fs.Pinned(FinalName(id), ino)
    ensures run.w.fs.Pinned(FinalName(id), ino)
  {
    if run != start {
      PinnedStays(start, run.before, id, ino);
      RunInv(run.before);
      PinnedStep(run.before.w, run.a, id, ino);
    }
  }

  // `linked` ends with the link of this chunk; a directory fsync followed it before `run`, with no crash between.
  ghost predicate Acknowledged(linked: Run, run: Run, id: Text, chunk: Chunk) {
    && linked.Then? && linked.a.Committed? && linked.a.id == id && linked.a.chunk == chunk
    && exists flushed: Run :: FlushedAfter(linked, flushed) && Prefix(flushed, run)
  }

  predicate FlushedAfter(linked: Run, flushed: Run) {
    flushed != linked && flushed.Then? && flushed.a.Flushed? && flushed.a.ok && CrashFree(linked, flushed)
  }

  lemma FlushIsAfter(linked: Run, flushed: Run)
    requires flushed.Then? && flushed.a.Flushed? && CrashFree(linked, flushed.before)
    ensures flushed.a.ok ==> FlushedAfter(linked, flushed)
  {
    CrashFreeIsPrefix(linked, flushed.before);
    PrefixIsNotLonger(linked, flushed.before);
  }

  lemma FlushIsLater(linked: Run, later: Run, flushed: Run)
    requires CrashFree(linked, later) && FlushedAfter(later, flushed)
    ensures FlushedAfter(linked, flushed)
  {
    CrashFreeTransitive(linked, later, flushed.before);
    FlushIsAfter(linked, flushed);
  }

  lemma {:induction false} ValidPrefix(start: Run, run: Run)
    requires ValidRun(run) && Prefix(start, run)
    ensures ValidRun(start)
  {
    if run != start {
      ValidPrefix(start, run.before);
    }
  }

  lemma {:induction false} NeverRemovedSplits(a: Run, b: Run, c: Run, id: Text)
    requires Prefix(a, b) && Prefix(b, c) && NeverRemoved(a, c, id)
    ensures NeverRemoved(a, b, id) && NeverRemoved(b, c, id)
  {
    if c != b {
      if c == a {
        PrefixAntisymmetric(a, b);
      } else {
        NeverRemovedSplits(a, b, c.before, id);
      }
    }
  }

  function Length(run: Run): nat {
    if run.Start? then 0 else 1 + Length(run.before)
  }

  lemma {:induction false} PrefixIsNotLonger(a: Run, b: Run)
    requires Prefix(a, b)
    ensures Length(a) <= Length(b)
    ensures a != b ==> Length(a) < Length(b)
  {
    if a != b {
      PrefixIsNotLonger(a, b.before);
    }
  }

  lemma PrefixAntisymmetric(a: Run, b: Run)
    requires Prefix(a, b) && Prefix(b, a)
    ensures a == b
  {
    PrefixIsNotLonger(a, b);
    PrefixIsNotLonger(b, a);
  }

  /**
   Durability: a chunk whose Put has returned Ok is still there, with exactly its bytes, after any further
   steps and any crashes, unless its id was unlinked after the link.
   */
  lemma AcknowledgedChunksSurvive(linked: Run, acked: Run, run: Run, id: Text, chunk: Chunk)
    requires ValidRun(run) && Acknowledged(linked, acked, id, chunk) && Prefix(acked, run)
    requires NeverRemoved(linked, run, id)
    ensures id in Visible(run.w.fs) && Visible(run.w.fs)[id] == chunk
  {
    var flushed :| FlushedAfter(linked, flushed) && Prefix(flushed, acked);
    PrefixTransitive(flushed, acked, run);
    CrashFreeIsPrefix(linked, flushed);
    ValidPrefix(flushed, run);
    NeverRemovedSplits(linked, flushed, run, id);
    var ino := PinnedByFlush(linked, flushed);
    PinnedStays(flushed, run, id, ino);
    FrozenIsImmutable(flushed, run, ino);
  }

  // The flush pins the committed inode under its name.
  lemma PinnedByFlush(linked: Run, flushed: Run) returns (ino: Ino)
    requires ValidRun(flushed) && linked.Then? && linked.a.Committed? && FlushedAfter(linked, flushed)
    requires NeverRemoved(linked, flushed, linked.a.id)
    ensures flushed.w.fs.Pinned(FinalName(linked.a.id), ino)
    ensures Published(flushed.w.fs, ino) && ChunkOf(flushed.w.fs.inodes[ino].bytes) == linked.a.chunk
  {
    CrashFreeIsPrefix(linked, flushed);
    ValidPrefix(linked, flushed);
    ino := CommittedInode(linked);
    BindingStays(linked, flushed, linked.a.id, ino);
    FrozenIsImmutable(linked, flushed, ino);
  }

  lemma CommittedInode(linked: Run) returns (ino: Ino)
    requires ValidRun(linked) && linked.Then? && linked.a.Committed?
    ensures FinalName(linked.a.id) in linked.w.fs.dir && linked.w.fs.dir[FinalName(linked.a.id)] == ino
    ensures Published(linked.w.fs, ino) && ChunkOf(linked.w.fs.inodes[ino].bytes) == linked.a.chunk
  {
    RunInv(linked.before);
    var at := linked.before.w.procs[linked.a.p];
    assert ProcInv(linked.before.w.fs, at);
    ino := at.ino;
    Invariant.CompleteIsGood(at.req, at.body);
    RunInv(linked);
    FinalNamesStayInRoot(linked.a.id);
    assert linked.w.fs.MayBind(FinalName(linked.a.id), ino);
  }

  // ---- Deletes ----

  predicate BoundAfter(fs: Fs, keep: seq<bool>, name: Text, ino: Ino) {
    |keep| == |fs.pending| && var found := Surviving(fs.disk, fs.pending, keep); name in found && found[name] == ino
  }

  predicate OnDiskOrPending(fs: Fs, name: Text, ino: Ino) {
    (name in fs.disk && fs.disk[name] == ino) || Bind(name, ino) in fs.pending
  }

  function OnlyAt(n: nat, k: int): (keep: seq<bool>)
    ensures |keep| == n
  {
    seq(n, i => i == k)
  }

  lemma {:induction false} KeepingNothing(disk: map<Text, Ino>, pending: seq<Update>, k: int)
    requires k >= |pending|
    ensures Surviving(disk, pending, OnlyAt(|pending|, k)) == disk
  {
    if pending != [] {
      var n := |pending| - 1;
      assert OnlyAt(n + 1, k)[..n] == OnlyAt(n, k);
      KeepingNothing(disk, pending[..n], k);
    }
  }

  lemma {:induction false} KeepingOne(disk: map<Text, Ino>, pending: seq<Update>, k: nat)
    requires k < |pending|
    ensures Surviving(disk, pending, OnlyAt(|pending|, k)) == ApplyUpdate(disk, pending[k])
  {
    var n := |pending| - 1;
    assert OnlyAt(n + 1, k)[..n] == OnlyAt(n, k);
    if k < n {
      KeepingOne(disk, pending[..n], k);
    } else {
      KeepingNothing(disk, pending[..n], k);
    }
  }

  /** What a crash can make of a name is exactly what the disk or some pending update says of it. */
  lemma CrashOutcomes(fs: Fs, name: Text, ino: Ino)
    ensures (exists keep :: BoundAfter(fs, keep, name, ino)) <==> OnDiskOrPending(fs, name, ino)
  {
    var n := |fs.pending|;
    if exists keep :: BoundAfter(fs, keep, name, ino) {
      var keep :| BoundAfter(fs, keep, name, ino);
      SurvivorsHaveASource(fs.disk, fs.pending, keep, name);
    }
    if name in fs.disk && fs.disk[name] == ino {
      KeepingNothing(fs.disk, fs.pending, n);
      assert BoundAfter(fs, OnlyAt(n, n), name, ino);
    }
    if Bind(name, ino) in fs.pending {
      var k :| 0 <= k < n && fs.pending[k] == Bind(name, ino);
      KeepingOne(fs.disk, fs.pending, k);
      assert BoundAfter(fs, OnlyAt(n, k), name, ino);
    }
  }

  predicate MissingAfter(fs: Fs, keep: seq<bool>, name: Text) {
    |keep| == |fs.pending| && name !in Surviving(fs.disk, fs.pending, keep)
  }

  lemma {:induction false} NamesAreLostByUnbind(disk: map<Text, Ino>, pending: seq<Update>, keep: seq<bool>, name: Text)
    requires |keep| == |pending| && name in disk && Unbind(name) !in pending
    ensures name in Surviving(disk, pending, keep)
  {
    if pending != [] {
      var n := |pending| - 1;
      assert pending == pending[..n] + [pending[n]];
      assert pending[n] in pending;
      NamesAreLostByUnbind(disk, pending[..n], keep[..n], name);
    }
  }

  /** A crash can lose a name exactly if the disk does not have it or some pending update removes it. */
  lemma CrashLosses(fs: Fs, name: Text)
    ensures (exists keep :: MissingAfter(fs, keep, name)) <==> name !in fs.disk || Unbind(name) in fs.pending
  {
    var n := |fs.pending|;
    if exists keep :: MissingAfter(fs, keep, name) {
      var keep :| MissingAfter(fs, keep, name);
      if name in fs.disk && Unbind(name) !in fs.pending {
        NamesAreLostByUnbind(fs.disk, fs.pending, keep, name);
      }
    }
    if name !in fs.disk {
      KeepingNothing(fs.disk, fs.pending, n);
      assert MissingAfter(fs, OnlyAt(n, n), name);
    }
    if Unbind(name) in fs.pending {
      var k :| 0 <= k < n && fs.pending[k] == Unbind(name);
      KeepingOne(fs.disk, fs.pending, k);
      assert MissingAfter(fs, OnlyAt(n, k), name);
    }
  }

  /** An entry survives every crash exactly if it is on disk and no pending update says anything else of its name. */
  lemma SurvivesExactlyIfUntouched(fs: Fs, name: Text, ino: Ino)
    ensures (forall keep :: |keep| == |fs.pending| ==> BoundAfter(fs, keep, name, ino))
       <==> name in fs.disk && fs.disk[name] == ino
            && forall u :: u in fs.pending && u.name == name ==> u == Bind(name, ino)
  {
    var n := |fs.pending|;
    if forall keep :: |keep| == n ==> BoundAfter(fs, keep, name, ino) {
      KeepingNothing(fs.disk, fs.pending, n);
      assert BoundAfter(fs, OnlyAt(n, n), name, ino);
      forall u | u in fs.pending && u.name == name
        ensures u == Bind(name, ino)
      {
        var k :| 0 <= k < n && fs.pending[k] == u;
        KeepingOne(fs.disk, fs.pending, k);
        assert BoundAfter(fs, OnlyAt(n, k), name, ino);
      }
    } else {
      var keep :| |keep| == n && !BoundAfter(fs, keep, name, ino);
      if name in fs.disk && fs.disk[name] == ino && forall u :: u in fs.pending && u.name == name ==> u == Bind(name, ino) {
        UntouchedEntriesSurvive(fs.disk, fs.pending, keep, name, ino);
      }
    }
  }

  // The crash `c`, now, leaves a store that has the id.
  ghost predicate BringsBack(w: World, c: Action, id: Text) {
    c.Crashed? && Enabled(w, c) && id in Visible(Next(w, c).fs)
  }

  ghost predicate MayComeBack(w: World, id: Text) {
    exists c: Action :: BringsBack(w, c, id)
  }

  lemma ReturnHasASource(w: World, c: Action, id: Text)
    requires BringsBack(w, c, id)
    ensures exists ino :: OnDiskOrPending(w.fs, FinalName(id), ino)
  {
    SurvivorsHaveASource(w.fs.disk, w.fs.pending, c.keep, FinalName(id));
    assert OnDiskOrPending(w.fs, FinalName(id), Surviving(w.fs.disk, w.fs.pending, c.keep)[FinalName(id)]);
  }

  lemma SourceCanReturn(run: Run, id: Text, ino: Ino)
    requires ValidRun(run) && OnDiskOrPending(run.w.fs, FinalName(id), ino)
    ensures MayComeBack(run.w, id)
  {
    CrashOutcomes(run.w.fs, FinalName(id), ino);
    var keep :| BoundAfter(run.w.fs, keep, FinalName(id), ino);
    var c := Crashed(keep, map[]);
    VisibleChunksAreComplete(Then(run, c, Next(run.w, c)), id);
    assert BringsBack(run.w, c, id);
  }

  /** An id can be there after a crash exactly while the disk, or a link not yet synchronized, has its name. */
  lemma ComesBackFromDiskOrLink(run: Run, id: Text)
    requires ValidRun(run)
    ensures MayComeBack(run.w, id) <==> exists ino :: OnDiskOrPending(run.w.fs, FinalName(id), ino)
  {
    if c: Action :| BringsBack(run.w, c, id) {
      ReturnHasASource(run.w, c, id);
    }
    if ino: Ino :| OnDiskOrPending(run.w.fs, FinalName(id), ino) {
      SourceCanReturn(run, id, ino);
    }
  }

  // No link of this id between the two states.
  predicate NeverCommitted(start: Run, run: Run, id: Text) {
    run == start || (run.Then? && !(run.a.Committed? && run.a.id == id) && NeverCommitted(start, run.before, id))
  }

  ghost predicate Gone(fs: Fs, name: Text) {
    forall ino :: !fs.MayBind(name, ino)
  }

  lemma {:induction false} GoneStays(start: Run, run: Run, id: Text)
    requires ValidRun(run) && Prefix(start, run) && NeverCommitted(start, run, id)
    requires Gone(start.w.fs, FinalName(id))
    ensures Gone(run.w.fs, FinalName(id))
  {
    if run != start {
      GoneStays(start, run.before, id);
      RunInv(run.before);
      forall ino
        ensures !run.w.fs.MayBind(FinalName(id), ino)
      {
        if run.w.fs.MayBind(FinalName(id), ino) {
          BindingSource(run.before.w, run.a, id, ino);
        }
      }
    }
  }

  lemma {:induction false} AbsenceStays(start: Run, run: Run, id: Text)
    requires ValidRun(run) && CrashFree(start, run) && NeverCommitted(start, run, id)
    requires FinalName(id) !in start.w.fs.dir
    ensures FinalName(id) !in run.w.fs.dir
  {
    if run != start {
      AbsenceStays(start, run.before, id);
      RunInv(run.before);
      AbsentStep(run.before.w, run.a, id);
    }
  }

  lemma AbsentStep(w: World, a: Action, id: Text)
    requires Inv(w) && Enabled(w, a) && !a.Crashed? && !(a.Committed? && a.id == id)
    requires FinalName(id) !in w.fs.dir
    ensures FinalName(id) !in Next(w, a).fs.dir
  {
    if OfCall(a) {
      var at := w.procs[a.p];
      assert ProcInv(w.fs, at);
      if a.Created? {
        TempIsNotFinal(at.temp, id);
      } else if a.Committed? {
        FinalNamesAreInjective(id, a.id);
      }
    }
  }

  lemma {:induction false} NeverCommittedSplits(a: Run, b: Run, c: Run, id: Text)
    requires Prefix(a, b) && Prefix(b, c) && NeverCommitted(a, c, id)
    ensures NeverCommitted(a, b, id) && NeverCommitted(b, c, id)
  {
    if c != b {
      if c == a {
        PrefixAntisymmetric(a, b);
      } else {
        NeverCommittedSplits(a, b, c.before, id);
      }
    }
  }

  /** A delete lasts through every crash once any Put has synchronized the directory after it. */
  lemma FlushedDeletesLast(removed: Run, flushed: Run, run: Run, id: Text)
    requires ValidRun(run) && removed.Then? && removed.a.Removed? && removed.a.id == id
    requires FlushedAfter(removed, flushed) && Prefix(flushed, run) && NeverCommitted(removed, run, id)
    ensures id !in Visible(run.w.fs) && !MayComeBack(run.w, id)
  {
    CrashFreeIsPrefix(removed, flushed);
    ValidPrefix(flushed, run);
    ValidPrefix(removed, flushed);
    NeverCommittedSplits(removed, flushed, run, id);
    AbsenceStays(removed, flushed, id);
    assert Gone(flushed.w.fs, FinalName(id));
    GoneStays(flushed, run, id);
    ComesBackFromDiskOrLink(run, id);
    assert forall ino :: !run.w.fs.MayBind(FinalName(id), ino);
    if FinalName(id) in run.w.fs.dir {
      assert run.w.fs.MayBind(FinalName(id), run.w.fs.dir[FinalName(id)]);
    }
    forall ino
      ensures !OnDiskOrPending(run.w.fs, FinalName(id), ino)
    {
      assert !run.w.fs.MayBind(FinalName(id), ino);
    }
  }

  // No fsync of the directory has succeeded between the two states.
  predicate NeverFlushed(start: Run, run: Run) {
    run == start || (run.Then? && !(run.a.Flushed? && run.a.ok) && NeverFlushed(start, run.before))
  }

  // An unlinked name had a source: the directory is the disk with the pending updates applied.
  lemma RemovedHasASource(removed: Run) returns (ino: Ino)
    requires ValidRun(removed) && removed.Then? && removed.a.Removed?
    ensures OnDiskOrPending(removed.w.fs, FinalName(removed.a.id), ino)
  {
    var fs, name := removed.before.w.fs, FinalName(removed.a.id);
    DirectoryIsDiskPlusPending(removed.before);
    SurvivorsHaveASource(fs.disk, fs.pending, AllKept(|fs.pending|), name);
    ino := fs.dir[name];
  }

  lemma {:induction false} SourceRemains(start: Run, run: Run, name: Text, ino: Ino)
    requires ValidRun(run) && CrashFree(start, run) && NeverFlushed(start, run)
    requires OnDiskOrPending(start.w.fs, name, ino)
    ensures OnDiskOrPending(run.w.fs, name, ino)
  {
    if run != start {
      SourceRemains(start, run.before, name, ino);
    }
  }

  lemma {:induction false} FlushHappened(start: Run, run: Run) returns (flushed: Run)
    requires CrashFree(start, run) && !NeverFlushed(start, run)
    ensures FlushedAfter(start, flushed) && Prefix(flushed, run)
  {
    if run.a.Flushed? && run.a.ok {
      flushed := run;
      FlushIsAfter(start, flushed);
    } else {
      flushed := FlushHappened(start, run.before);
    }
  }

  /**
   The promise that a delete is lasting is false, since Delete does not synchronize the directory. A crash can
   bring a deleted id back exactly if no fsync of the directory has succeeded since the unlink.
   */
  lemma DeletedIdsMayComeBack(removed: Run, run: Run, id: Text)
    requires ValidRun(run) && removed.Then? && removed.a.Removed? && removed.a.id == id
    requires CrashFree(removed, run) && NeverCommitted(removed, run, id)
    ensures id !in Visible(run.w.fs)
    ensures MayComeBack(run.w, id) <==> NeverFlushed(removed, run)
  {
    CrashFreeIsPrefix(removed, run);
    ValidPrefix(removed, run);
    AbsenceStays(removed, run, id);
    if NeverFlushed(removed, run) {
      var ino := RemovedHasASource(removed);
      SourceRemains(removed, run, FinalName(id), ino);
      ComesBackFromDiskOrLink(run, id);
    } else {
      var flushed := FlushHappened(removed, run);
      FlushedDeletesLast(removed, flushed, run, id);
    }
  }
}
