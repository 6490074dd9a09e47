/**
 The file system under the storage root: inodes, one directory, and what a crash may leave of them.
 The operations follow POSIX.1-2017. A directory change is only `pending` until the directory is
 synchronized; a crash keeps any subset of the pending changes, and replaces the content of every
 inode that was not synchronized by anything at all.
 */
module Posix {
  import opened Types

  type Ino = nat

  // `synced`: fdatasync has returned since the last write.
  datatype Inode = Inode(bytes: seq<byte>, synced: bool)

  datatype Update = Bind(name: Text, ino: Ino) | Unbind(name: Text)

  // Unnamed inodes stay in `inodes`: a descriptor that is still open keeps reading them.
  datatype Fs = Fs(
    inodes: map<Ino, Inode>,
    dir: map<Text, Ino>,      // the directory as processes see it
    disk: map<Text, Ino>,     // the directory as of its last fsync
    pending: seq<Update>,     // directory changes since then, oldest first
    writers: set<Ino>)        // inodes with a descriptor open for writing
  {
    // open(O_WRONLY | O_CREAT | O_EXCL)
    function Create(name: Text, ino: Ino): Fs {
      this.(inodes := inodes[ino := Inode([], false)],
            dir := dir[name := ino],
            pending := pending + [Bind(name, ino)],
            writers := writers + {ino})
    }

    // write on the descriptor that created the file
    function Append(ino: Ino, data: seq<byte>): Fs
      requires ino in inodes
    {
      this.(inodes := inodes[ino := Inode(inodes[ino].bytes + data, false)])
    }

    // fdatasync
    function Sync(ino: Ino): Fs
      requires ino in inodes
    {
      this.(inodes := inodes[ino := inodes[ino].(synced := true)])
    }

    function CloseWriter(ino: Ino): Fs {
      this.(writers := writers - {ino})
    }

    function Link(from: Text, to: Text): Fs
      requires from in dir
    {
      this.(dir := dir[to := dir[from]], pending := pending + [Bind(to, dir[from])])
    }

    function Unlink(name: Text): Fs {
      this.(dir := dir - {name}, pending := pending + [Unbind(name)])
    }

    // fsync of the directory
    function SyncDir(): Fs {
      this.(disk := dir, pending := [])
    }

    // The death of the worker process: the kernel closes its descriptors and keeps everything else.
    function Restart(): Fs {
      this.(writers := {})
    }

    // A crash of the machine
    function Crash(keep: seq<bool>, junk: map<Ino, seq<byte>>): Fs
      requires |keep| == |pending|
    {
      var survivors := Surviving(disk, pending, keep);
      Fs(map ino | ino in inodes :: if inodes[ino].synced then inodes[ino] else Inode(if ino in junk then junk[ino] else [], true),
         survivors, survivors, [], {})
    }

    // `name` refers to `ino` now, or may do so after a crash.
    ghost predicate MayBind(name: Text, ino: Ino) {
      || (name in dir && dir[name] == ino)
      || (name in disk && disk[name] == ino)
      || Bind(name, ino) in pending
    }

    // `name` refers to `ino` now, and does so after every crash.
    ghost predicate Pinned(name: Text, ino: Ino) {
      && name in dir && dir[name] == ino
      && name in disk && disk[name] == ino
      && forall u :: u in pending && u.name == name ==> u == Bind(name, ino)
    }
  }

  /** The crash is as bad as it may be: a file that was not synchronized can come back with any content. */
  lemma CrashesGarble(fs: Fs, ino: Ino, content: seq<byte>, keep: seq<bool>)
    requires ino in fs.inodes && |keep| == |fs.pending|
    ensures var after := fs.Crash(keep, map[ino := content]);
            ino in after.inodes && after.inodes[ino].bytes == if fs.inodes[ino].synced then fs.inodes[ino].bytes else content
  {
  }

  const EMPTY := Fs(map[], map[], map[], [], {})

  function ApplyUpdate(dir: map<Text, Ino>, u: Update): map<Text, Ino> {
    match u
    case Bind(name, ino) => dir[name := ino]
    case Unbind(name) => dir - {name}
  }

  // The directory found after a crash that let through the updates selected by `keep`.
  function Surviving(disk: map<Text, Ino>, pending: seq<Update>, keep: seq<bool>): map<Text, Ino>
    requires |keep| == |pending|
  {
    if pending == [] then disk
    else
      var n := |pending| - 1;
      var before := Surviving(disk, pending[..n], keep[..n]);
      if keep[n] then ApplyUpdate(before, pending[n]) else before
  }

  /** A crash invents nothing: a surviving entry was on disk or in a pending update. */
  lemma {:induction false} SurvivorsHaveASource(disk: map<Text, Ino>, pending: seq<Update>, keep: seq<bool>, name: Text)
    requires |keep| == |pending|
    requires name in Surviving(disk, pending, keep)
    ensures var ino := Surviving(disk, pending, keep)[name];
            (name in disk && disk[name] == ino) || Bind(name, ino) in pending
  {
    if pending != [] {
      var n := |pending| - 1;
      assert pending == pending[..n] + [pending[n]];
      if name in Surviving(disk, pending[..n], keep[..n]) {
        SurvivorsHaveASource(disk, pending[..n], keep[..n], name);
      }
    }
  }

  /** An entry on disk that no pending update touches survives every crash. */
  lemma {:induction false} UntouchedEntriesSurvive(disk: map<Text, Ino>, pending: seq<Update>, keep: seq<bool>, name: Text, ino: Ino)
    requires |keep| == |pending|
    requires name in disk && disk[name] == ino
    requires forall u :: u in pending && u.name == name ==> u == Bind(name, ino)
    ensures name in Surviving(disk, pending, keep) && Surviving(disk, pending, keep)[name] == ino
  {
    if pending != [] {
      var n := |pending| - 1;
      assert pending == pending[..n] + [pending[n]];
      assert pending[n] in pending;
      UntouchedEntriesSurvive(disk, pending[..n], keep[..n], name, ino);
    }
  }

  function AllKept(n: nat): seq<bool> {
    seq(n, i => true)
  }

  lemma KeepingOneMore(disk: map<Text, Ino>, pending: seq<Update>, u: Update)
    ensures Surviving(disk, pending + [u], AllKept(|pending| + 1))
         == ApplyUpdate(Surviving(disk, pending, AllKept(|pending|)), u)
  {
    var n := |pending|;
    assert (pending + [u])[..n] == pending;
    assert AllKept(n + 1)[..n] == AllKept(n);
  }
}
