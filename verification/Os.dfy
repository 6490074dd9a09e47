/**
 The system calls of one thread of the worker. Before every call the rest of the machine may take any
 number of steps, and the call itself may fail, be interrupted, or do only part of the work. A call that
 changes the file system is followed by Record, which adds the machine action it stands for to the run.
 */
module Os {
  import opened Types
  import opened Posix
  import opened Protocol
  import opened Runs
  import Invariant

  datatype Descriptor = Reader(ino: Ino) | Writer(ino: Ino) | Directory

  datatype Errno = EEXIST | ENOENT | EIO

  datatype OpenReply = Opened(fd: nat) | OpenFailed(errno: Errno)

  // A byte count, EINTR, or another error
  datatype IoReply = Count(n: nat) | Interrupted | Error

  datatype Reply = Done | Refuse(errno: Errno)

  lemma OpenedAndClosed(fds: map<nat, Descriptor>, fd: nat, d: Descriptor)
    requires fd !in fds
    ensures fds[fd := d] - {fd} == fds
  {
  }

  predicate NoRemoval(changes: seq<Action>) {
    forall a :: a in changes ==> !a.Removed?
  }

  class Thread {
    const me: Pid
    var fs: Fs
    var procs: map<Pid, Proc>
    var fds: map<nat, Descriptor>
    var interrupts: nat        // how often EINTR may still occur
    ghost var faults: nat      // how many calls have failed for no reason of their own
    ghost var run: Run         // everything the machine has done
    ghost var base: Run        // `run` when the current call of the store began
    ghost var changes: seq<Action>  // what this thread has done to the directory

    // Everything but `fs` agrees with the run: `fs` may be one recorded action ahead.
    ghost predicate Tracked()
      reads this
    {
      && Account(run, base, me, changes)
      && procs == run.w.procs
      && forall fd :: fd in fds && !fds[fd].Directory? ==> fds[fd].ino in run.w.fs.inodes || fds[fd].ino in fs.inodes
    }

    ghost predicate Valid()
      reads this
    {
      Tracked() && fs == run.w.fs
    }

    // Since `start` only other threads have moved.
    ghost predicate Steady(start: Run)
      reads this
    {
      && Onward(start)
      && start.w.fs.inodes.Keys <= run.w.fs.inodes.Keys
      && (me in start.w.procs ==> run.w.procs[me] == start.w.procs[me])
      && (me in run.w.procs ==> ProcInv(run.w.fs, run.w.procs[me]))
      && (me in run.w.procs && HasIno(run.w.procs[me]) ==> Invariant.Untouched(start.w.fs, run.w.fs, run.w.procs[me].ino))
    }

    // Steady, as far as a reader needs it and can carry it over several calls.
    ghost predicate Onward(start: Run)
      reads this
    {
      && CrashFree(start, run)
      && (me in run.w.procs <==> me in start.w.procs)
      && (forall ino :: Frozen(start.w.fs, ino) ==> Frozen(run.w.fs, ino) && run.w.fs.inodes[ino] == start.w.fs.inodes[ino])
    }

    lemma StaysOnward()
      ensures Onward(run)
    {
    }

    lemma GoesOnward(start: Run, before: Run)
      requires CrashFree(start, before) && (me in before.w.procs <==> me in start.w.procs)
      requires forall ino :: Frozen(start.w.fs, ino) ==> Frozen(before.w.fs, ino) && before.w.fs.inodes[ino] == start.w.fs.inodes[ino]
      requires Onward(before)
      ensures Onward(start)
    {
      CrashFreeTransitive(start, before, run);
    }

    lemma Audit()
      requires Tracked()
      ensures ValidRun(run) && CrashFree(base, run) && Trail(run, me) == changes && Inv(run.w)
    {
      OpenAccount(run, base, me, changes);
    }

    lemma NoCrashSinceBase()
      requires Tracked()
      ensures CrashFree(base, run)
    {
      OpenAccount(run, base, me, changes);
    }

    constructor (me: Pid, interrupts: nat)
      ensures Valid() && this.me == me && run == Start(World(EMPTY, map[])) && fds == map[] && faults == 0 && changes == []
    {
      this.me := me;
      this.interrupts := interrupts;
      fs, procs, fds := EMPTY, map[], map[];
      run, base := Start(World(EMPTY, map[])), Start(World(EMPTY, map[]));
      faults, changes := 0, [];
    }

    /** A call of the store begins. */
    ghost method Enter()
      requires Valid()
      modifies this`base
      ensures Valid() && base == run
    {
      Audit();
      base := run;
    }

    /** Any number of actions of any other calls. */
    method Interfere()
      requires Valid()
      modifies this`fs, this`procs, this`run
      ensures Valid() && Steady(old(run))
    {
      var steps: nat := *;
      Audit();
      while steps > 0
        invariant ValidRun(run) && run.w == World(fs, procs) && OthersOnly(old(run), run, me)
        invariant old(run).w.fs.inodes.Keys <= fs.inodes.Keys
      {
        var a: Action := *;
        var w := World(fs, procs);
        if ActedByOther(a, me) && Enabled(w, a) {
          RunInv(run);
          OthersStep(w, a, me);
          w := Next(w, a);
          fs, procs := w.fs, w.procs;
          run := Then(run, a, w);
        }
        steps := steps - 1;
      }
      OthersKeep(old(run), run, me);
      RunInv(run);
      forall ino | Frozen(old(run).w.fs, ino)
        ensures Frozen(run.w.fs, ino) && run.w.fs.inodes[ino] == old(run).w.fs.inodes[ino]
      {
        FrozenIsImmutable(old(run), run, ino);
      }
      CrashFreeTransitive(base, old(run), run);
    }

    /** Time passes between calls: any actions of others, and any number of crashes, each followed by a restart. */
    method Wait()
      requires Valid() && me !in procs && fds == map[]
      modifies this`fs, this`procs, this`run, this`base
      ensures Valid() && me !in procs && Prefix(old(run), run)
    {
      var steps: nat := *;
      Audit();
      while steps > 0
        invariant ValidRun(run) && run.w == World(fs, procs) && Prefix(old(run), run)
        invariant Trail(run, me) == changes && me !in procs
      {
        var a: Action := *;
        var w := World(fs, procs);
        if (Stops(a) || ActedByOther(a, me)) && Enabled(w, a) {
          w := Next(w, a);
          fs, procs := w.fs, w.procs;
          run := Then(run, a, w);
        }
        steps := steps - 1;
      }
      base := run;
    }

    /**
     The worker dies at any point of what this thread was doing, by itself or with its machine, and is started
     again. Until then every other
     call may have moved, and this thread made any of the steps the machine allows: only opens for reading if
     it does not write, and never an unlink of a chunk.
     */
    method Die(writes: bool) returns (ghost more: seq<Action>)
      requires Valid() && me !in procs
      modifies this`fs, this`procs, this`run, this`base, this`fds, this`changes
      ensures Valid() && me !in procs && fds == map[] && Prefix(old(run), run)
      ensures changes == old(changes) + more && NoRemoval(more) && (!writes ==> more == [])
    {
      var steps: nat := *;
      Audit();
      more := [];
      while steps > 0
        invariant ValidRun(run) && run.w == World(fs, procs) && Prefix(old(run), run) && Trail(run, me) == changes
        invariant changes == old(changes) + more && NoRemoval(more) && (!writes ==> more == [])
      {
        var a: Action := *;
        if Enabled(World(fs, procs), a) && (ActedBy(a, me) ==> a.Looked? || (writes && !a.Removed?)) {
          ghost var done := Do(a);
          assert changes == old(changes) + (more + done);
          more := more + done;
        }
        steps := steps - 1;
      }
      fds := map[];
      Stop();
      base := run;
    }

    // One action of the machine, whoever takes it
    method Do(a: Action) returns (ghost done: seq<Action>)
      requires ValidRun(run) && run.w == World(fs, procs) && Trail(run, me) == changes && Enabled(run.w, a)
      modifies this`fs, this`procs, this`run, this`changes
      ensures ValidRun(run) && run.w == World(fs, procs) && Trail(run, me) == changes
      ensures run.Then? && run.before == old(run)
      ensures changes == old(changes) + done && done == if Noted(a) && ActedBy(a, me) then [a] else []
    {
      var w := Next(World(fs, procs), a);
      fs, procs := w.fs, w.procs;
      run := Then(run, a, w);
      done := if Noted(a) && ActedBy(a, me) then [a] else [];
      changes := changes + done;
    }

    /** The worker process ends, alone or with its machine, and starts again. */
    method Stop()
      requires ValidRun(run) && run.w == World(fs, procs)
      modifies this`fs, this`procs, this`run
      ensures ValidRun(run) && run.w == World(fs, procs) && procs == map[]
      ensures run.Then? && run.before == old(run) && Stops(run.a)
    {
      var alone: bool := *;
      var keep: seq<bool> := *;
      if |keep| != |fs.pending| {
        keep := AllKept(|fs.pending|);
      }
      var junk: map<Ino, seq<byte>> := *;
      if exists ino :: ino in junk && |junk[ino]| > OFF_MAX {
        junk := map[];
      }
      var a := if alone then Restarted else Crashed(keep, junk);
      var w := Next(World(fs, procs), a);
      fs, procs := w.fs, w.procs;
      run := Then(run, a, w);
    }

    /** The call made since the last Record was this action of the machine. */
    method Record(a: Action)
      requires Tracked() && Enabled(run.w, a) && ActedBy(a, me) && Next(run.w, a).fs == fs
      requires forall fd :: fd in fds && !fds[fd].Directory? ==> fds[fd].ino in fs.inodes
      modifies this`procs, this`run, this`changes
      ensures Valid()
      ensures changes == old(changes) + (if Noted(a) then [a] else [])
      ensures run.Then? && run.before == old(run) && run.a == a
      ensures procs == NextProcs(old(run).w.fs, old(procs), a)
    {
      AccountGrows(run, base, me, changes, a);
      changes := changes + (if Noted(a) then [a] else []);
      run := Then(run, a, Next(run.w, a));
      procs := NextProcs(run.before.w.fs, procs, a);
    }

    // ---- Descriptors ----

    predicate Refers(fd: nat, d: Descriptor)
      reads this
    {
      fd in fds && fds[fd] == d
    }

    /** open(name, O_WRONLY | O_CREAT | O_EXCL) */
    method OpenExclusive(name: Text) returns (r: OpenReply, ino: Ino)
      requires Valid()
      modifies this`fs, this`procs, this`run, this`fds, this`interrupts, this`faults
      ensures Tracked() && Steady(old(run)) && interrupts == old(interrupts)
      ensures match r
              case Opened(fd) =>
                && name !in run.w.fs.dir && ino !in run.w.fs.inodes
                && fs == run.w.fs.Create(name, ino)
                && fd !in old(fds) && fds == old(fds)[fd := Writer(ino)]
                && faults == old(faults)
              case OpenFailed(errno) =>
                && Valid() && fds == old(fds)
                && faults == (if errno == EEXIST then old(faults) else old(faults) + 1)
                && (errno == EEXIST ==> name in run.w.fs.dir)
    {
      Interfere();
      ino := *;
      var fd: nat := *;
      var lucky: bool := *;
      if name in fs.dir {
        return OpenFailed(EEXIST), ino;
      } else if lucky && ino !in fs.inodes && fd !in fds {
        fs := fs.Create(name, ino);
        fds := fds[fd := Writer(ino)];
        return Opened(fd), ino;
      } else {
        faults := faults + 1;
        return OpenFailed(EIO), ino;
      }
    }

    /** open(name, O_RDONLY | O_NOFOLLOW) */
    method OpenToRead(name: Text) returns (r: OpenReply)
      requires Valid()
      modifies this`fs, this`procs, this`run, this`fds, this`interrupts, this`faults
      ensures Valid() && Steady(old(run)) && interrupts == old(interrupts)
      ensures match r
              case Opened(fd) =>
                && name in fs.dir
                && fd !in old(fds) && fds == old(fds)[fd := Reader(fs.dir[name])]
                && faults == old(faults)
              case OpenFailed(errno) =>
                && fds == old(fds)
                && faults == (if errno == ENOENT then old(faults) else old(faults) + 1)
                && (errno == ENOENT ==> name !in fs.dir)
    {
      Interfere();
      var fd: nat := *;
      var lucky: bool := *;
      if lucky && name !in fs.dir {
        return OpenFailed(ENOENT);
      } else if lucky && fd !in fds {
        Audit();
        assert fs.MayBind(name, fs.dir[name]);
        fds := fds[fd := Reader(fs.dir[name])];
        return Opened(fd);
      } else {
        faults := faults + 1;
        return OpenFailed(EIO);
      }
    }

    /** open(root, O_RDONLY | O_DIRECTORY) */
    method OpenDirectory() returns (r: OpenReply)
      requires Valid()
      modifies this`fs, this`procs, this`run, this`fds, this`interrupts, this`faults
      ensures Valid() && Steady(old(run)) && interrupts == old(interrupts)
      ensures match r
              case Opened(fd) => fd !in old(fds) && fds == old(fds)[fd := Directory] && faults == old(faults)
              case OpenFailed(_) => fds == old(fds) && faults == old(faults) + 1
    {
      Interfere();
      var fd: nat := *;
      var lucky: bool := *;
      if lucky && fd !in fds {
        fds := fds[fd := Directory];
        return Opened(fd);
      } else {
        faults := faults + 1;
        return OpenFailed(EIO);
      }
    }

    /** close; closing the writing descriptor is seen by the whole machine. */
    method Close(fd: nat)
      requires Valid() && fd in fds
      modifies this`fs, this`procs, this`run, this`fds, this`interrupts, this`faults
      ensures Tracked() && Steady(old(run)) && interrupts == old(interrupts) && faults == old(faults)
      ensures fds == old(fds) - {fd}
      ensures fs == if old(fds)[fd].Writer? then run.w.fs.CloseWriter(old(fds)[fd].ino) else run.w.fs
    {
      Interfere();
      if fds[fd].Writer? {
        fs := fs.CloseWriter(fds[fd].ino);
      }
      fds := fds - {fd};
    }

    // ---- Data ----

    /** write: any part of the data may be written; 0 counts as an error to the callers. */
    method Write(fd: nat, data: seq<byte>) returns (r: IoReply)
      requires Valid() && fd in fds && fds[fd].Writer?
      modifies this`fs, this`procs, this`run, this`fds, this`interrupts, this`faults
      ensures Tracked() && Steady(old(run)) && fds == old(fds)
      ensures match r
              case Count(n) =>
                && n <= |data| && |run.w.fs.inodes[fds[fd].ino].bytes| + n <= OFF_MAX
                && fs == run.w.fs.Append(fds[fd].ino, data[..n])
                && interrupts == old(interrupts)
                && (data != [] ==> faults == if n > 0 then old(faults) else old(faults) + 1)
              case Interrupted => Valid() && interrupts < old(interrupts) && faults == old(faults)
              case Error => Valid() && interrupts == old(interrupts) && faults == old(faults) + 1
    {
      Interfere();
      var ino := fds[fd].ino;
      var n: nat := *;
      var interrupted: bool := *;
      if interrupted && interrupts > 0 {
        interrupts := interrupts - 1;
        return Interrupted;
      } else if 0 <= n <= |data| && |fs.inodes[ino].bytes| + n <= OFF_MAX {
        fs := fs.Append(ino, data[..n]);
        if n == 0 && data != [] {
          faults := faults + 1;
        }
        return Count(n);
      } else {
        faults := faults + 1;
        return Error;
      }
    }

    /** fdatasync */
    method Fdatasync(fd: nat) returns (ok: bool)
      requires Valid() && fd in fds && fds[fd].Writer?
      modifies this`fs, this`procs, this`run, this`fds, this`interrupts, this`faults
      ensures Tracked() && Steady(old(run)) && fds == old(fds) && interrupts == old(interrupts)
      ensures fs == if ok then run.w.fs.Sync(fds[fd].ino) else run.w.fs
      ensures faults == if ok then old(faults) else old(faults) + 1
    {
      Interfere();
      ok := *;
      if ok {
        fs := fs.Sync(fds[fd].ino);
      } else {
        faults := faults + 1;
      }
    }

    /** fsync of the directory */
    method FsyncDirectory(fd: nat) returns (ok: bool)
      requires Valid() && Refers(fd, Directory)
      modifies this`fs, this`procs, this`run, this`fds, this`interrupts, this`faults
      ensures Tracked() && Steady(old(run)) && fds == old(fds) && interrupts == old(interrupts)
      ensures fs == if ok then run.w.fs.SyncDir() else run.w.fs
      ensures faults == if ok then old(faults) else old(faults) + 1
    {
      Interfere();
      ok := *;
      if ok {
        fs := fs.SyncDir();
      } else {
        faults := faults + 1;
      }
    }

    /** pread into buffer[from..from + count]; it returns 0 only for an empty request or at end of file. */
    method Pread(fd: nat, buffer: array<byte>, from: nat, count: nat, offset: nat) returns (r: IoReply)
      requires Valid() && fd in fds && fds[fd].Reader? && from + count <= buffer.Length && offset <= OFF_MAX
      modifies this`fs, this`procs, this`run, this`fds, this`interrupts, this`faults, buffer
      ensures Valid() && Steady(old(run)) && fds == old(fds)
      ensures forall i :: 0 <= i < buffer.Length && !(from <= i < from + count) ==> buffer[i] == old(buffer[i])
      ensures var bytes := fs.inodes[fds[fd].ino].bytes;
              match r
              case Count(n) =>
                && n <= count
                && (n == 0 ==> count == 0 || offset >= |bytes|)
                && (n > 0 ==> offset + n <= |bytes| && buffer[from..from + n] == bytes[offset..offset + n])
                && buffer[..from] == old(buffer[..from])
                && interrupts == old(interrupts) && faults == old(faults)
              case Interrupted =>
                buffer[..] == old(buffer[..]) && interrupts < old(interrupts) && faults == old(faults)
              case Error => interrupts == old(interrupts) && faults == old(faults) + 1
    {
      Interfere();
      var bytes := fs.inodes[fds[fd].ino].bytes;
      var n: nat := *;
      var interrupted: bool := *;
      if interrupted && interrupts > 0 {
        interrupts := interrupts - 1;
        return Interrupted;
      } else if count == 0 || offset >= |bytes| {
        return Count(0);
      } else if 0 < n <= count && offset + n <= |bytes| {
        forall i | 0 <= i < n {
          buffer[from + i] := bytes[offset + i];
        }
        return Count(n);
      } else {
        faults := faults + 1;
        return Error;
      }
    }

    /** fstat, for st_size */
    method Fstat(fd: nat) returns (r: IoReply)
      requires Valid() && fd in fds && fds[fd].Reader?
      modifies this`fs, this`procs, this`run, this`fds, this`interrupts, this`faults
      ensures Valid() && Steady(old(run)) && fds == old(fds) && interrupts == old(interrupts)
      ensures r == Count(|fs.inodes[fds[fd].ino].bytes|) || r == Error
      ensures faults == if r == Error then old(faults) + 1 else old(faults)
    {
      Interfere();
      var ok: bool := *;
      if ok {
        return Count(|fs.inodes[fds[fd].ino].bytes|);
      } else {
        faults := faults + 1;
        return Error;
      }
    }

    // ---- Names ----

    /** create_directories(root) */
    method CreateRoot() returns (ok: bool)
      requires Valid()
      modifies this`fs, this`procs, this`run, this`fds, this`interrupts, this`faults
      ensures Valid() && Steady(old(run)) && fds == old(fds) && interrupts == old(interrupts)
      ensures faults == if ok then old(faults) else old(faults) + 1
    {
      Interfere();
      ok := *;
      if !ok {
        faults := faults + 1;
      }
    }

    /** link(from, to): never replaces an existing name. */
    method Link(from: Text, to: Text) returns (r: Reply)
      requires Valid()
      modifies this`fs, this`procs, this`run, this`fds, this`interrupts, this`faults
      ensures Tracked() && Steady(old(run)) && fds == old(fds) && interrupts == old(interrupts)
      ensures match r
              case Done =>
                from in run.w.fs.dir && to !in run.w.fs.dir && fs == run.w.fs.Link(from, to) && faults == old(faults)
              case Refuse(EEXIST) => Valid() && to in fs.dir && faults == old(faults)
              case Refuse(ENOENT) => Valid() && from !in fs.dir && faults == old(faults)
              case Refuse(EIO) => Valid() && faults == old(faults) + 1
    {
      Interfere();
      var lucky: bool := *;
      if !lucky {
        faults := faults + 1;
        return Refuse(EIO);
      } else if from !in fs.dir {
        return Refuse(ENOENT);
      } else if to in fs.dir {
        return Refuse(EEXIST);
      } else {
        fs := fs.Link(from, to);
        return Done;
      }
    }

    /** unlink */
    method Unlink(name: Text) returns (r: Reply)
      requires Valid()
      modifies this`fs, this`procs, this`run, this`fds, this`interrupts, this`faults
      ensures Tracked() && Steady(old(run)) && fds == old(fds) && interrupts == old(interrupts)
      ensures match r
              case Done => name in run.w.fs.dir && fs == run.w.fs.Unlink(name) && faults == old(faults)
              case Refuse(ENOENT) => Valid() && name !in fs.dir && faults == old(faults)
              case Refuse(errno) => Valid() && errno == EIO && faults == old(faults) + 1
    {
      Interfere();
      var lucky: bool := *;
      if !lucky {
        faults := faults + 1;
        return Refuse(EIO);
      } else if name !in fs.dir {
        return Refuse(ENOENT);
      } else {
        fs := fs.Unlink(name);
        return Done;
      }
    }
  }
}
