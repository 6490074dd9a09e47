/** Every action keeps the machine's invariant. */
module Invariant {
  import opened Types
  import opened Names
  import opened Codec
  import opened Posix
  import opened Protocol

  // What every inode, name and writer outside the acting call's own file can count on.
  ghost predicate Untouched(fs: Fs, fs': Fs, ino: Ino) {
    ino in fs.inodes && ino in fs'.inodes && fs'.inodes[ino] == fs.inodes[ino] && (ino in fs'.writers <==> ino in fs.writers)
  }

  /** An image that Put has verified and whose size the file system could hold is a complete chunk. */
  lemma CompleteIsGood(req: PutRequest, body: seq<byte>)
    requires ValidRequest(req) && Verified(req, body)
    requires |Image(req.size, req.checksum, body)| <= OFF_MAX
    ensures GoodImage(Image(req.size, req.checksum, body))
    ensures Image(req.size, req.checksum, body)[80..] == body
    ensures Image(req.size, req.checksum, body)[16..80] == req.checksum
  {
    var image := Image(req.size, req.checksum, body);
    assert image[..80] == Header(req.size, req.checksum);
    assert image[16..80] == Header(req.size, req.checksum)[16..80];
    HeaderFields(req.size, req.checksum);
  }

  lemma FsInvAfterWrite(fs: Fs, at: Proc, a: Action)
    requires FsInv(fs) && ProcInv(fs, at) && EnabledAt(fs, at, a)
    requires a.Wrote? || a.Synced? || a.Closed?
    ensures FsInv(NextFs(fs, at, a))
  {
    var fs' := NextFs(fs, at, a);
    forall name, ino | fs'.MayBind(name, ino)
      ensures ino in fs'.inodes && (IsFinal(name) ==> Published(fs', ino))
    {
      assert fs.MayBind(name, ino);
    }
  }

  lemma FsInvAfterCreate(fs: Fs, at: Proc, a: Action)
    requires FsInv(fs) && ProcInv(fs, at) && EnabledAt(fs, at, a)
    requires a.Created?
    ensures FsInv(NextFs(fs, at, a))
  {
    var fs' := NextFs(fs, at, a);
    TempIsNotFinal(at.temp, []);
    forall name, ino | fs'.MayBind(name, ino)
      ensures ino in fs'.inodes && (IsFinal(name) ==> Published(fs', ino))
    {
      assert fs.MayBind(name, ino) || (name == at.temp && ino == a.ino);
    }
  }

  lemma FsInvAfterLink(fs: Fs, at: Proc, a: Action)
    requires FsInv(fs) && ProcInv(fs, at) && EnabledAt(fs, at, a)
    requires a.Committed?
    ensures FsInv(NextFs(fs, at, a))
  {
    var fs' := NextFs(fs, at, a);
    CompleteIsGood(at.req, at.body);
    forall name, ino | fs'.MayBind(name, ino)
      ensures ino in fs'.inodes && (IsFinal(name) ==> Published(fs', ino))
    {
      assert fs.MayBind(name, ino) || (name == FinalName(a.id) && ino == at.ino);
    }
  }

  lemma FsInvAfterUnlink(fs: Fs, at: Proc, a: Action)
    requires FsInv(fs) && EnabledAt(fs, at, a)
    requires a.Cleaned? || a.Flushed? || a.Removed?
    ensures FsInv(NextFs(fs, at, a))
  {
    var fs' := NextFs(fs, at, a);
    forall name, ino | fs'.MayBind(name, ino)
      ensures ino in fs'.inodes && (IsFinal(name) ==> Published(fs', ino))
    {
      assert fs.MayBind(name, ino);
    }
  }

  lemma FsInvAfter(fs: Fs, at: Proc, a: Action)
    requires FsInv(fs) && ProcInv(fs, at) && EnabledAt(fs, at, a)
    ensures FsInv(NextFs(fs, at, a))
  {
    match a {
      case Wrote(_, _) => FsInvAfterWrite(fs, at, a);
      case Synced(_) => FsInvAfterWrite(fs, at, a);
      case Closed(_) => FsInvAfterWrite(fs, at, a);
      case Created(_, _) => FsInvAfterCreate(fs, at, a);
      case Committed(_, _, _) => FsInvAfterLink(fs, at, a);
      case Cleaned(_, _) => FsInvAfterUnlink(fs, at, a);
      case Flushed(_, _) => FsInvAfterUnlink(fs, at, a);
      case Removed(_, _) => FsInvAfterUnlink(fs, at, a);
      case _ =>
    }
  }

  /** The acting call reaches a state that its program counter describes correctly. */
  lemma OwnProcInv(fs: Fs, at: Proc, a: Action)
    requires FsInv(fs) && ProcInv(fs, at) && EnabledAt(fs, at, a)
    ensures ProcInv(NextFs(fs, at, a), NextProc(fs, at, a))
  {
    match a {
      case Created(_, ino) =>
        assert Image(at.req.size, at.req.checksum, []) == [] + Header(at.req.size, at.req.checksum);
      case Wrote(_, n) =>
        assert at.todo == at.todo[..n] + at.todo[n..];
      case Received(_, data) =>
        assert fs.inodes[at.ino].bytes + [] == fs.inodes[at.ino].bytes;
        assert Image(at.req.size, at.req.checksum, at.body + data) == Image(at.req.size, at.req.checksum, at.body) + data;
      case Synced(_) =>
        assert fs.inodes[at.ino].bytes + [] == fs.inodes[at.ino].bytes;
      case Committed(_, id, _) =>
        TempIsNotFinal(at.temp, id);
      case _ =>
    }
  }

  lemma OtherInode(fs: Fs, at: Proc, a: Action, ino: Ino)
    requires EnabledAt(fs, at, a) && ino in fs.inodes
    requires HasIno(at) ==> at.ino != ino
    ensures Untouched(fs, NextFs(fs, at, a), ino)
  {
    hide FsInv, ProcInv, Verified, FinalName;
  }

  lemma OtherName(fs: Fs, at: Proc, a: Action, temp: Text, ino: Ino)
    requires FsInv(fs) && ProcInv(fs, at) && EnabledAt(fs, at, a)
    requires IsTemp(temp) && temp in fs.dir && fs.dir[temp] == ino && (HasIno(at) ==> at.ino != ino)
    ensures temp in NextFs(fs, at, a).dir && NextFs(fs, at, a).dir[temp] == ino
  {
    TempIsNotFinal(temp, if a.Committed? || a.Removed? then a.id else []);
  }

  /** No call disturbs the file, the temporary name or the descriptor of another. */
  lemma OtherProcInv(fs: Fs, at: Proc, a: Action, other: Proc)
    requires FsInv(fs) && ProcInv(fs, at) && ProcInv(fs, other) && EnabledAt(fs, at, a)
    requires HasIno(at) && HasIno(other) ==> at.ino != other.ino
    ensures ProcInv(NextFs(fs, at, a), other)
    ensures HasIno(other) ==> Untouched(fs, NextFs(fs, at, a), other.ino)
  {
    hide NextFs, EnabledAt, FsInv;
    if HasIno(other) {
      OtherInode(fs, at, a, other.ino);
    }
    if HoldsTemp(other) {
      OtherName(fs, at, a, other.temp, other.ino);
    }
  }

  // A call keeps its inode; the only way to get one is to create it.
  lemma OwnInode(fs: Fs, at: Proc, a: Action)
    requires EnabledAt(fs, at, a) && HasIno(NextProc(fs, at, a))
    ensures var ino := NextProc(fs, at, a).ino;
            if HasIno(at) then ino == at.ino else ino !in fs.inodes
  {
  }

  lemma DistinctAfter(fs: Fs, procs: map<Pid, Proc>, a: Action, next: Proc)
    requires Inv(World(fs, procs)) && OfCall(a) && a.p in procs && EnabledAt(fs, procs[a.p], a) && next == NextProc(fs, procs[a.p], a)
    ensures Distinct(procs[a.p := next])
  {
    forall p | p in procs && p != a.p && HasIno(procs[p]) && HasIno(next)
      ensures procs[p].ino != next.ino
    {
      OwnInode(fs, procs[a.p], a);
      assert ProcInv(fs, procs[p]);
    }
  }

  lemma RestartKeepsInv(w: World)
    requires Inv(w)
    ensures Inv(Next(w, Restarted))
  {
    var fs, fs' := w.fs, w.fs.Restart();
    forall name, ino | fs'.MayBind(name, ino)
      ensures ino in fs'.inodes && (IsFinal(name) ==> Published(fs', ino))
    {
      assert fs.MayBind(name, ino);
    }
  }

  lemma CrashKeepsInv(w: World, a: Action)
    requires Inv(w) && Enabled(w, a) && a.Crashed?
    ensures Inv(Next(w, a))
  {
    var fs, fs' := w.fs, Next(w, a).fs;
    forall name, ino | fs'.MayBind(name, ino)
      ensures ino in fs'.inodes && (IsFinal(name) ==> Published(fs', ino))
    {
      SurvivorsHaveASource(fs.disk, fs.pending, a.keep, name);
      assert fs.MayBind(name, ino);
    }
  }

  lemma CallKeepsInv(w: World, a: Action)
    requires Inv(w) && Enabled(w, a) && OfCall(a)
    ensures Inv(Next(w, a))
  {
    hide FsInv, ProcInv, NextFs, NextProc, EnabledAt;
    var w', at := Next(w, a), w.procs[a.p];
    if !a.Returned? {
      DistinctAfter(w.fs, w.procs, a, NextProc(w.fs, at, a));
    }
    assert ProcInv(w.fs, at);
    FsInvAfter(w.fs, at, a);
    OwnProcInv(w.fs, at, a);
    forall p | p in w'.procs
      ensures ProcInv(w'.fs, w'.procs[p])
    {
      if p != a.p {
        OtherProcInv(w.fs, at, a, w.procs[p]);
      }
    }
  }

  /** The invariant holds at the start and every action keeps it, whatever the interleaving and the crashes. */
  lemma InitInv()
    ensures Inv(World(EMPTY, map[]))
  {
  }

  lemma StepKeepsInv(w: World, a: Action)
    requires Inv(w) && Enabled(w, a)
    ensures Inv(Next(w, a))
  {
    if a.Crashed? {
      CrashKeepsInv(w, a);
    } else if a.Restarted? {
      RestartKeepsInv(w);
    } else if OfCall(a) {
      CallKeepsInv(w, a);
    }
  }
}
