/** What a call has done to the directory when it gives its answer, in every reachable state of the machine. */
module Outcomes {
  import opened Types
  import opened Posix
  import opened Protocol
  import opened Runs

  // The directory changes of the call that `p` is in.
  function DoneBy(run: Run, p: Pid): seq<Action> {
    match run
    case Start(_) => []
    case Then(before, a, _) =>
      if Stops(a) || (a.Began? && a.p == p) then []
      else DoneBy(before, p) + (if Noted(a) && ActedBy(a, p) then [a] else [])
  }

  // The changes that lead to each program counter.
  predicate Story(p: Pid, at: Proc, done: seq<Action>) {
    match at
    case Fresh(_, _) => done == []
    case Writing(_, _, ino, _, _) => done == [Created(p, ino)]
    case Durable(_, _, ino, _) => done == [Created(p, ino)]
    case Sealed(_, _, ino, _) => done == [Created(p, ino)]
    case Linked(req, _, ino, body) => done == [Created(p, ino), Committed(p, req.id, Chunk(body, req.checksum))]
    case Settling(req, ino) => |done| == 3 && CommittedFirst(p, req, ino, done) && done[2].Cleaned?
    case Failing(req, _, ino, code) =>
      || (done == [Created(p, ino)] && IsFailure(code))
      || (done == [Created(p, ino), Refused(p, req.id)] && code == AlreadyExists)
    case PutDone(req, ino, code) =>
      || (|done| == 2 && done[0] == Created(p, ino) && done[1].Cleaned? && IsFailure(code))
      || (|done| == 3 && done[..2] == [Created(p, ino), Refused(p, req.id)] && done[2].Cleaned? && code == AlreadyExists)
      || (|done| == 4 && CommittedFirst(p, req, ino, done) && done[2].Cleaned? && done[3] == Flushed(p, code == Ok)
          && (code == Ok || code == IoError))
    case Rejected(_, code) => done == [] && IsFailure(code)
    case Deleting(_) => done == []
    case DeleteDone(id, code) =>
      || (done == [Removed(p, id)] && code == Ok)
      || (done == [Missed(p, id)] && code == NotFound)
      || (done == [] && code == IoError)
  }

  predicate CommittedFirst(p: Pid, req: PutRequest, ino: Ino, done: seq<Action>) {
    && |done| >= 2 && done[0] == Created(p, ino)
    && done[1].Committed? && done[1].p == p && done[1].id == req.id && done[1].chunk.checksum == req.checksum
  }

  lemma StoryStep(fs: Fs, p: Pid, at: Proc, done: seq<Action>, a: Action)
    requires Story(p, at, done) && OfCall(a) && a.p == p && EnabledAt(fs, at, a) && !a.Returned?
    ensures Story(p, NextProc(fs, at, a), done + (if Noted(a) then [a] else []))
  {
  }

  // Where a program counter comes from.
  lemma ProcSource(w: World, a: Action, p: Pid)
    requires Enabled(w, a) && p in Next(w, a).procs
    ensures !Stops(a)
    ensures if OfCall(a) && a.p == p then
              && p in w.procs && !a.Returned? && EnabledAt(w.fs, w.procs[p], a)
              && Next(w, a).procs[p] == NextProc(w.fs, w.procs[p], a)
            else if a.Began? && a.p == p then
              Next(w, a).procs[p] == a.proc && (a.proc.Fresh? || a.proc.Deleting?)
            else p in w.procs && Next(w, a).procs[p] == w.procs[p]
  {
  }

  /** In every reachable state the changes of a call are those that its program counter tells. */
  lemma {:induction false} StoryHolds(run: Run, p: Pid)
    requires ValidRun(run) && p in run.w.procs
    ensures Story(p, run.w.procs[p], DoneBy(run, p))
  {
    var before, a := run.before, run.a;
    ProcSource(before.w, a, p);
    if a.Began? && a.p == p {
      assert DoneBy(run, p) == [];
    } else {
      StoryHolds(before, p);
      if OfCall(a) && a.p == p {
        StoryStep(before.w.fs, p, before.w.procs[p], DoneBy(before, p), a);
      }
      assert DoneBy(run, p) == DoneBy(before, p) + (if Noted(a) && ActedBy(a, p) then [a] else []);
    }
  }

  predicate HasStored(p: Pid, req: PutRequest, done: seq<Action>) {
    exists a :: a in done && a.Committed? && a.p == p && a.id == req.id
  }

  // What a finished Put has done, by its length.
  lemma DoneIsOneOf(p: Pid, req: PutRequest, ino: Ino, code: Code, done: seq<Action>)
    requires Story(p, PutDone(req, ino, code), done)
    ensures |done| == 2 ==> done == [Created(p, ino), done[1]] && done[1].Cleaned? && IsFailure(code)
    ensures |done| == 3 ==> done == [Created(p, ino), Refused(p, req.id), done[2]] && done[2].Cleaned? && code == AlreadyExists
    ensures |done| == 4 ==> done == [Created(p, ino), done[1], done[2], Flushed(p, code == Ok)] && done[2].Cleaned?
                            && done[1].Committed? && done[1].p == p && done[1].id == req.id && (code == Ok || code == IoError)
    ensures 2 <= |done| <= 4
  {
    if |done| == 3 {
      assert done[..2][0] == done[0] && done[..2][1] == done[1];
    }
  }

  // None of these changes the map that readers see.
  predicate Harmless(done: seq<Action>) {
    forall a :: a in done ==> !a.Committed? && !a.Removed?
  }

  lemma ChangesTellTheAnswer(p: Pid, req: PutRequest, ino: Ino, code: Code, done: seq<Action>)
    requires Story(p, PutDone(req, ino, code), done)
    ensures HasStored(p, req, done) <==> |done| == 4
    ensures HasStored(p, req, done) || Harmless(done)
    ensures Flushed(p, false) in done <==> |done| == 4 && code != Ok
    ensures Flushed(p, true) in done <==> |done| == 4 && code == Ok
    ensures Refused(p, req.id) in done <==> |done| == 3
  {
    DoneIsOneOf(p, req, ino, code, done);
    if |done| == 4 {
      assert done[1] in done && done[3] in done;
    } else if |done| == 3 {
      assert done[1] in done;
    }
  }

  /**
   "A Put that fails changes nothing" is false. A failed Put has stored its chunk exactly if the directory fsync
   after its link failed; and the fsync, the refused link, or neither tell Ok, AlreadyExists and the rest apart.
   */
  lemma WhenFailedPutsHaveStored(run: Run, p: Pid)
    requires ValidRun(run) && p in run.w.procs && run.w.procs[p].PutDone?
    ensures var PutDone(req, _, code) := run.w.procs[p];
            var done := DoneBy(run, p);
            && (HasStored(p, req, done) || Harmless(done))
            && (HasStored(p, req, done) && code != Ok <==> Flushed(p, false) in done)
            && (code == Ok <==> Flushed(p, true) in done)
            && (code == AlreadyExists <==> Refused(p, req.id) in done)
  {
    StoryHolds(run, p);
    var PutDone(req, ino, code) := run.w.procs[p];
    ChangesTellTheAnswer(p, req, ino, code, DoneBy(run, p));
    DoneIsOneOf(p, req, ino, code, DoneBy(run, p));
  }
}
