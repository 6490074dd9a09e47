/** Whole runs of the machine: what holds in every reachable state, and what one step leaves to the next. */
module Runs {
  import opened Types
  import opened Names
  import opened Codec
  import opened Posix
  import opened Protocol
  import Invariant

  // A run, newest step outermost; `w` is the state it has reached.
  datatype Run = Start(w: World) | Then(before: Run, a: Action, w: World)

  // From an empty store, through actions the machine allows.
  predicate ValidRun(run: Run) {
    match run
    case Start(w) => w == World(EMPTY, map[])
    case Then(before, a, w) => ValidRun(before) && Enabled(before.w, a) && w == Next(before.w, a)
  }

  predicate Prefix(start: Run, run: Run) {
    run == start || (run.Then? && Prefix(start, run.before))
  }

  predicate CrashFree(start: Run, run: Run) {
    run == start || (run.Then? && !run.a.Crashed? && CrashFree(start, run.before))
  }

  // Steps of calls other than `me`, and no crash.
  predicate OthersOnly(start: Run, run: Run, me: Pid) {
    run == start || (run.Then? && ActedByOther(run.a, me) && OthersOnly(start, run.before, me))
  }

  // No unlink of this id's chunk file between the two states.
  predicate NeverRemoved(start: Run, run: Run, id: Text) {
    run == start || (run.Then? && !(run.a.Removed? && run.a.id == id) && NeverRemoved(start, run.before, id))
  }

  predicate EverCommitted(run: Run, id: Text, chunk: Chunk) {
    run.Then? && ((run.a.Committed? && run.a.id == id && run.a.chunk == chunk) || EverCommitted(run.before, id, chunk))
  }

  // The directory changes of one call, and its attempts that found the name taken or missing.
  predicate Noted(a: Action) {
    a.Created? || a.Committed? || a.Refused? || a.Cleaned? || a.Flushed? || a.Removed? || a.Missed?
  }

  function Trail(run: Run, me: Pid): seq<Action> {
    match run
    case Start(_) => []
    case Then(before, a, _) => Trail(before, me) + (if Noted(a) && ActedBy(a, me) then [a] else [])
  }

  // The state of the run that a thread carries along.
  ghost predicate Account(run: Run, base: Run, me: Pid, changes: seq<Action>) {
    ValidRun(run) && CrashFree(base, run) && Trail(run, me) == changes
  }

  lemma OpenAccount(run: Run, base: Run, me: Pid, changes: seq<Action>)
    requires Account(run, base, me, changes)
    ensures ValidRun(run) && CrashFree(base, run) && Trail(run, me) == changes && Inv(run.w)
  {
    RunInv(run);
  }

  lemma AccountGrows(run: Run, base: Run, me: Pid, changes: seq<Action>, a: Action)
    requires Account(run, base, me, changes) && Enabled(run.w, a) && ActedBy(a, me)
    ensures Account(Then(run, a, Next(run.w, a)), base, me, changes + (if Noted(a) then [a] else []))
  {
    OpenAccount(run, base, me, changes);
  }

  // What a reader can see: the abstract map of the store.
  ghost function Visible(fs: Fs): imap<Text, Chunk> {
    imap id: Text | Holds(fs, id) :: ChunkOf(fs.inodes[fs.dir[FinalName(id)]].bytes)
  }

  // ---- Order on runs ----

  lemma {:induction false} PrefixTransitive(a: Run, b: Run, c: Run)
    requires Prefix(a, b) && Prefix(b, c)
    ensures Prefix(a, c)
  {
    if c != b {
      PrefixTransitive(a, b, c.before);
    }
  }

  lemma {:induction false} CrashFreeTransitive(a: Run, b: Run, c: Run)
    requires CrashFree(a, b) && CrashFree(b, c)
    ensures CrashFree(a, c)
  {
    if c != b {
      CrashFreeTransitive(a, b, c.before);
    }
  }

  lemma {:induction false} CrashFreeIsPrefix(start: Run, run: Run)
    requires CrashFree(start, run)
    ensures Prefix(start, run)
  {
    if run != start {
      CrashFreeIsPrefix(start, run.before);
    }
  }

  lemma {:induction false} NeverRemovedTransitive(a: Run, b: Run, c: Run, id: Text)
    requires NeverRemoved(a, b, id) && NeverRemoved(b, c, id)
    ensures NeverRemoved(a, c, id)
  {
    if c != b {
      NeverRemovedTransitive(a, b, c.before, id);
    }
  }

  // ---- Every reachable state ----

  /** Every state of every run, crashes included, satisfies the invariant. */
  lemma {:induction false} RunInv(run: Run)
    requires ValidRun(run)
    ensures Inv(run.w)
  {
    if run.Then? {
      RunInv(run.before);
      Invariant.StepKeepsInv(run.before.w, run.a);
    } else {
      Invariant.InitInv();
    }
  }

  /** In every reachable state, a name a reader can open holds a complete chunk that no one can write. */
  lemma VisibleChunksAreComplete(run: Run, id: Text)
    requires ValidRun(run) && FinalName(id) in run.w.fs.dir
    ensures var ino := run.w.fs.dir[FinalName(id)];
            Published(run.w.fs, ino)
            && id in Visible(run.w.fs)
            && var c := Visible(run.w.fs)[id];
               |c.payload| + HEADER_SIZE <= OFF_MAX
               && ValidChecksum(c.checksum)
               && Hex(Blake3(c.payload)) == c.checksum
               && run.w.fs.inodes[ino].bytes == Image(|c.payload|, c.checksum, c.payload)
  {
    RunInv(run);
    FinalNamesStayInRoot(id);
    var ino := run.w.fs.dir[FinalName(id)];
    assert run.w.fs.MayBind(FinalName(id), ino);
    var bytes := run.w.fs.inodes[ino].bytes;
    assert bytes == bytes[..80] + bytes[80..];
  }

  /** An id is visible exactly while its name is in the directory. */
  lemma VisibleIffNamed(run: Run, id: Text)
    requires ValidRun(run)
    ensures id in Visible(run.w.fs) <==> FinalName(id) in run.w.fs.dir
  {
    if FinalName(id) in run.w.fs.dir {
      VisibleChunksAreComplete(run, id);
    }
  }

  lemma FrozenStep(w: World, a: Action, ino: Ino)
    requires Inv(w) && Enabled(w, a) && Frozen(w.fs, ino)
    ensures Frozen(Next(w, a).fs, ino) && Next(w, a).fs.inodes[ino] == w.fs.inodes[ino]
  {
    if OfCall(a) {
      assert ProcInv(w.fs, w.procs[a.p]);
    }
  }

  /** Once synchronized and closed, a file keeps its bytes for ever: through every call, unlink and crash. */
  lemma {:induction false} FrozenIsImmutable(start: Run, run: Run, ino: Ino)
    requires ValidRun(run) && Prefix(start, run) && Frozen(start.w.fs, ino)
    ensures Frozen(run.w.fs, ino) && run.w.fs.inodes[ino] == start.w.fs.inodes[ino]
  {
    if run != start {
      FrozenIsImmutable(start, run.before, ino);
      RunInv(run.before);
      FrozenStep(run.before.w, run.a, ino);
    }
  }

  // ---- Interference ----

  lemma OthersStep(w: World, a: Action, me: Pid)
    requires Inv(w) && Enabled(w, a) && ActedByOther(a, me)
    ensures w.fs.inodes.Keys <= Next(w, a).fs.inodes.Keys
    ensures me in Next(w, a).procs <==> me in w.procs
    ensures me in w.procs ==> Next(w, a).procs[me] == w.procs[me]
    ensures me in w.procs && HasIno(w.procs[me]) ==> Invariant.Untouched(w.fs, Next(w, a).fs, w.procs[me].ino)
  {
    if me in w.procs && OfCall(a) {
      assert ProcInv(w.fs, w.procs[me]) && ProcInv(w.fs, w.procs[a.p]);
      Invariant.OtherProcInv(w.fs, w.procs[a.p], a, w.procs[me]);
    }
  }

  /** Whatever other calls do, a call's own place, file and descriptor stay as they were. */
  lemma {:induction false} OthersKeep(start: Run, run: Run, me: Pid)
    requires ValidRun(run) && OthersOnly(start, run, me)
    ensures CrashFree(start, run) && Prefix(start, run) && ValidRun(start)
    ensures Trail(run, me) == Trail(start, me)
    ensures start.w.fs.inodes.Keys <= run.w.fs.inodes.Keys
    ensures me in run.w.procs <==> me in start.w.procs
    ensures me in start.w.procs ==> run.w.procs[me] == start.w.procs[me]
    ensures me in start.w.procs && HasIno(start.w.procs[me])
         ==> Invariant.Untouched(start.w.fs, run.w.fs, start.w.procs[me].ino)
  {
    if run != start {
      OthersKeep(start, run.before, me);
      RunInv(run.before);
      OthersStep(run.before.w, run.a, me);
    } else if me in start.w.procs {
      RunInv(start);
      assert ProcInv(start.w.fs, start.w.procs[me]);
    }
  }
}
