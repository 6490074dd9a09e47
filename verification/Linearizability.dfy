/** The store is one atomic map: insert if absent, remove if present, look up. */
module Linearizability {
  import opened Types
  import opened Names
  import opened Posix
  import opened Protocol
  import opened Runs
  import Invariant

  // ---- The abstract object ----

  datatype Event =
    | Inserted(id: Text, chunk: Chunk)
    | Occupied(id: Text)
    | Erased(id: Text)
    | Absent(id: Text)
    | Observed(id: Text, found: Option<Chunk>)                          // Head
    | Got(id: Text, range: ByteRange, code: Code, bytes: seq<byte>)      // Get, with all that it sent

  // The answer is the right one for an atomic map that holds `m`.
  ghost predicate Legal(m: imap<Text, Chunk>, e: Event) {
    match e
    case Inserted(id, _) => id !in m
    case Occupied(id) => id in m
    case Erased(id) => id in m
    case Absent(id) => id !in m
    case Observed(id, found) => found == if id in m then Some(m[id]) else None
    case Got(id, range, code, bytes) =>
      match code
      case Ok => id in m && Fits(range, m[id]) && bytes == Slice(m[id].payload, range)
      case NotFound => id !in m && bytes == []
      case InvalidArgument => id in m && !Fits(range, m[id]) && bytes == []
      case _ => false
  }

  predicate IsRead(e: Event) {
    e.Observed? || e.Got?
  }

  ghost function Apply(m: imap<Text, Chunk>, e: Event): imap<Text, Chunk> {
    match e
    case Inserted(id, chunk) => m[id := chunk]
    case Erased(id) => imap i | i in m && i != id :: m[i]
    case _ => m
  }

  ghost function Replay(m: imap<Text, Chunk>, events: seq<Event>): imap<Text, Chunk> {
    if events == [] then m else Apply(Replay(m, events[..|events| - 1]), events[|events| - 1])
  }

  ghost predicate LegalHistory(m: imap<Text, Chunk>, events: seq<Event>) {
    events != [] ==>
      && LegalHistory(m, events[..|events| - 1])
      && Legal(Replay(m, events[..|events| - 1]), events[|events| - 1])
  }

  // ---- The linearization points ----

  // Put takes effect at link, Delete at unlink; every other system call is invisible.
  function EventsOf(a: Action): seq<Event> {
    match a
    case Committed(_, id, chunk) => [Inserted(id, chunk)]
    case Refused(_, id) => [Occupied(id)]
    case Removed(_, id) => [Erased(id)]
    case Missed(_, id) => [Absent(id)]
    case _ => []
  }

  // Head takes effect at its open, Get at one of its two, which is known when it has its answer. `answers` says
  // which call, with which answer, takes effect at each open of a chunk file for reading.
  ghost predicate Answering(start: Run, run: Run, answers: Run -> Option<Event>) {
    run == start || (run.Then? && RightAt(run, answers(run)) && Answering(start, run.before, answers))
  }

  ghost predicate RightAt(run: Run, read: Option<Event>) {
    match read
    case None => true
    case Some(e) => run.Then? && run.a.Looked? && IsRead(e) && e.id == run.a.id && Legal(Visible(run.w.fs), e)
  }

  function EventsAt(a: Action, read: Option<Event>): seq<Event> {
    if read.Some? then [read.value] else EventsOf(a)
  }

  function EventsSince(start: Run, run: Run, answers: Run -> Option<Event>): seq<Event> {
    if run == start || run.Start? then []
    else EventsSince(start, run.before, answers) + EventsAt(run.a, answers(run))
  }

  // ---- One step ----

  lemma SameView(fs: Fs, fs': Fs)
    requires FsInv(fs)
    requires forall id :: FinalName(id) in fs'.dir <==> FinalName(id) in fs.dir
    requires forall id :: FinalName(id) in fs.dir ==> fs'.dir[FinalName(id)] == fs.dir[FinalName(id)]
    requires forall ino :: Published(fs, ino) ==> ino in fs'.inodes && fs'.inodes[ino] == fs.inodes[ino]
    ensures Visible(fs') == Visible(fs)
  {
    forall id: Text | FinalName(id) in fs.dir
      ensures Holds(fs', id) && Holds(fs, id) && Visible(fs')[id] == Visible(fs)[id]
    {
      NamedIsPublished(fs, id);
    }
  }

  lemma NamedIsPublished(fs: Fs, id: Text)
    requires FsInv(fs) && FinalName(id) in fs.dir
    ensures Published(fs, fs.dir[FinalName(id)]) && Holds(fs, id)
  {
    FinalNamesStayInRoot(id);
    assert fs.MayBind(FinalName(id), fs.dir[FinalName(id)]);
  }

  lemma CommitRefines(w: World, a: Action)
    requires Inv(w) && Enabled(w, a) && a.Committed?
    ensures a.id !in Visible(w.fs)
    ensures Visible(Next(w, a).fs) == Visible(w.fs)[a.id := a.chunk]
  {
    var fs, fs', at := w.fs, Next(w, a).fs, w.procs[a.p];
    assert ProcInv(fs, at);
    Invariant.CompleteIsGood(at.req, at.body);
    forall id: Text | id != a.id
      ensures id in Visible(fs') <==> id in Visible(fs)
      ensures id in Visible(fs) ==> Visible(fs')[id] == Visible(fs)[id]
    {
      FinalNamesAreInjective(id, a.id);
    }
  }

  lemma RemoveRefines(w: World, a: Action)
    requires Inv(w) && Enabled(w, a) && a.Removed?
    ensures a.id in Visible(w.fs)
    ensures Visible(Next(w, a).fs) == Apply(Visible(w.fs), Erased(a.id))
  {
    hide GoodImage, ProcInv;
    var fs, fs' := w.fs, Next(w, a).fs;
    NamedIsPublished(fs, a.id);
    forall id: Text | id != a.id
      ensures id in Visible(fs') <==> id in Visible(fs)
      ensures id in Visible(fs) ==> Visible(fs')[id] == Visible(fs)[id]
    {
      FinalNamesAreInjective(id, a.id);
    }
  }

  lemma OtherStepsAreInvisible(w: World, a: Action)
    requires Inv(w) && Enabled(w, a) && !a.Crashed? && !a.Committed? && !a.Removed?
    ensures Visible(Next(w, a).fs) == Visible(w.fs)
  {
    var fs, fs' := w.fs, Next(w, a).fs;
    if OfCall(a) {
      var at := w.procs[a.p];
      assert ProcInv(fs, at);
      forall id: Text
        ensures FinalName(id) in fs'.dir <==> FinalName(id) in fs.dir
        ensures FinalName(id) in fs.dir ==> fs'.dir[FinalName(id)] == fs.dir[FinalName(id)]
      {
        if a.Created? || a.Cleaned? {
          TempIsNotFinal(at.temp, id);
        }
      }
    }
    forall ino | Published(fs, ino)
      ensures ino in fs'.inodes && fs'.inodes[ino] == fs.inodes[ino]
    {
      FrozenStep(w, a, ino);
    }
    SameView(fs, fs');
  }

  /** Each system call is either invisible or exactly one legal operation of the atomic map. */
  lemma StepRefines(w: World, a: Action)
    requires Inv(w) && Enabled(w, a) && !a.Crashed?
    ensures EventsOf(a) == [] ==> Visible(Next(w, a).fs) == Visible(w.fs)
    ensures EventsOf(a) != [] ==> Legal(Visible(w.fs), EventsOf(a)[0])
    ensures EventsOf(a) != [] ==> Visible(Next(w, a).fs) == Apply(Visible(w.fs), EventsOf(a)[0])
  {
    if a.Committed? {
      CommitRefines(w, a);
    } else if a.Removed? {
      RemoveRefines(w, a);
    } else {
      OtherStepsAreInvisible(w, a);
      if a.Refused? {
        NamedIsPublished(w.fs, a.id);
      }
    }
  }

  // The same with the read that takes effect there
  lemma StepAnswers(w: World, a: Action, read: Option<Event>)
    requires Inv(w) && Enabled(w, a) && !a.Crashed?
    requires read.Some? ==> a.Looked? && IsRead(read.value) && Legal(Visible(Next(w, a).fs), read.value)
    ensures EventsAt(a, read) == [] ==> Visible(Next(w, a).fs) == Visible(w.fs)
    ensures EventsAt(a, read) != [] ==>
              && |EventsAt(a, read)| == 1 && Legal(Visible(w.fs), EventsAt(a, read)[0])
              && Visible(Next(w, a).fs) == Apply(Visible(w.fs), EventsAt(a, read)[0])
  {
    StepRefines(w, a);
  }

  // ---- Whole runs ----

  lemma EmptyHistory(m: imap<Text, Chunk>)
    ensures LegalHistory(m, []) && Replay(m, []) == m
  {
  }

  lemma HistoryGrows(m: imap<Text, Chunk>, earlier: seq<Event>, e: Event)
    requires LegalHistory(m, earlier) && Legal(Replay(m, earlier), e)
    ensures LegalHistory(m, earlier + [e]) && Replay(m, earlier + [e]) == Apply(Replay(m, earlier), e)
  {
    assert (earlier + [e])[..|earlier|] == earlier;
  }

  /**
   Any interleaving of any number of Put, Delete, Head and Get calls is a sequential history of the atomic map,
   one event for each call, through any restarts of the worker: every answer in it is the one that the map gives
   at that point.
   */
  lemma {:induction false} RunsAreLinearizable(start: Run, run: Run, answers: Run -> Option<Event>)
    requires ValidRun(run) && CrashFree(start, run) && Answering(start, run, answers)
    ensures LegalHistory(Visible(start.w.fs), EventsSince(start, run, answers))
    ensures Visible(run.w.fs) == Replay(Visible(start.w.fs), EventsSince(start, run, answers))
  {
    hide Inv, Enabled, Next, Visible, Legal, Apply, Replay, LegalHistory, EventsAt;
    EmptyHistory(Visible(start.w.fs));
    if run != start {
      RunsAreLinearizable(start, run.before, answers);
      RunInv(run.before);
      StepAnswers(run.before.w, run.a, answers(run));
      var earlier, now := EventsSince(start, run.before, answers), EventsAt(run.a, answers(run));
      if now == [] {
        assert EventsSince(start, run, answers) == earlier;
      } else {
        HistoryGrows(Visible(start.w.fs), earlier, now[0]);
        assert EventsSince(start, run, answers) == earlier + [now[0]];
      }
    }
  }

  function Change(a: Action, id: Text): int {
    if a.Committed? && a.id == id then 1 else if a.Removed? && a.id == id then -1 else 0
  }

  // Links minus unlinks of one id.
  function Balance(start: Run, run: Run, id: Text): int {
    if run == start || run.Start? then 0 else Balance(start, run.before, id) + Change(run.a, id)
  }

  /** Conservation: links minus unlinks of an id account exactly for its presence. */
  lemma {:induction false} LinksAreConserved(start: Run, run: Run, id: Text)
    requires ValidRun(run) && CrashFree(start, run)
    ensures Balance(start, run, id)
         == (if id in Visible(run.w.fs) then 1 else 0) - (if id in Visible(start.w.fs) then 1 else 0)
  {
    hide Inv, Enabled, Next, Visible;
    if run != start {
      LinksAreConserved(start, run.before, id);
      RunInv(run.before);
      StepRefines(run.before.w, run.a);
    }
  }

  // The number of links of one id, whatever was unlinked.
  function Links(start: Run, run: Run, id: Text): nat {
    if run == start || run.Start? then 0
    else Links(start, run.before, id) + (if run.a.Committed? && run.a.id == id then 1 else 0)
  }

  /** Among racing Puts of an id with no Delete between them, at most one commits, and none if it was there. */
  lemma {:induction false} AtMostOneCommit(start: Run, run: Run, id: Text)
    requires ValidRun(run) && CrashFree(start, run) && NeverRemoved(start, run, id)
    ensures Links(start, run, id) <= 1
    ensures id in Visible(start.w.fs) ==> Links(start, run, id) == 0
  {
    LinksAreConserved(start, run, id);
    LinksAreBalance(start, run, id);
  }

  lemma {:induction false} LinksAreBalance(start: Run, run: Run, id: Text)
    requires CrashFree(start, run) && NeverRemoved(start, run, id)
    ensures Links(start, run, id) == Balance(start, run, id)
  {
    if run != start {
      LinksAreBalance(start, run.before, id);
    }
  }

  /** Without an unlink in between, an id keeps its chunk: seeing two different ones means it was deleted. */
  lemma {:induction false} RebindingNeedsRemoval(start: Run, run: Run, id: Text)
    requires ValidRun(run) && CrashFree(start, run) && NeverRemoved(start, run, id)
    requires id in Visible(start.w.fs)
    ensures id in Visible(run.w.fs) && Visible(run.w.fs)[id] == Visible(start.w.fs)[id]
  {
    hide Inv, Enabled, Next, Visible;
    if run != start {
      RebindingNeedsRemoval(start, run.before, id);
      RunInv(run.before);
      StepRefines(run.before.w, run.a);
    }
  }
}
