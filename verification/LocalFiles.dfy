/**
 The file system of the client machine. Other programs may create, change and delete any file at any time,
 except the names in `own`, which they do not use, and the files in `made`, which this client has created
 exclusively: they may take such a name first, but leave the file alone once it is there.
 */
module LocalFiles {
  import opened Types
  import opened Os

  // What this client has done to names that others can see, or may have left behind.
  // `synced`: all of the file had been synchronized when it was linked. `mine`: this client had created the file
  // that it unlinked.
  datatype Effect =
    | Made(path: Text)
    | Linked(path: Text, bytes: seq<byte>, synced: bool)
    | Erased(path: Text, mine: bool)

  // A file being read is the content found at open; a file being written is known by its name.
  datatype Handle = Reading(bytes: seq<byte>, pos: nat) | Appending(path: Text)

  class LocalFs {
    var files: map<Text, seq<byte>>
    const own: set<Text>
    var made: set<Text>
    var handles: map<nat, Handle>
    var interrupts: nat
    ghost var faults: nat            // how many calls have failed for no reason of their own
    ghost var refused: nat           // how often a name was found taken or missing
    ghost var synced: set<Text>      // names in `made` whose file has not been written since its last fdatasync
    ghost var effects: seq<Effect>

    constructor (files: map<Text, seq<byte>>, own: set<Text>, interrupts: nat)
      ensures this.files == files && this.own == own && handles == map[] && effects == [] && faults == 0
      ensures made == {} && Valid()
    {
      this.files, this.own, this.interrupts, made := files, own, interrupts, {};
      handles, faults, effects, refused, synced := map[], 0, [], 0, {};
    }

    ghost predicate Valid()
      reads this`files, this`made
    {
      made <= files.Keys
    }

    // The names that no other program touches now.
    ghost function Safe(): set<Text>
      reads this`made
    {
      own + made
    }

    // The files with these names are as they were.
    ghost predicate Kept(before: map<Text, seq<byte>>, names: set<Text>)
      reads this`files
    {
      forall p :: p in names ==> (p in files <==> p in before) && (p in before ==> files[p] == before[p])
    }

    /** Other programs. */
    method Interfere()
      requires Valid()
      modifies this`files
      ensures Valid() && Kept(old(files), Safe())
    {
      var next: map<Text, seq<byte>> := *;
      files := (map p | p in next && p !in own + made :: next[p]) + (map p | p in files && p in own + made :: files[p]);
    }

    method Exists(path: Text) returns (found: bool)
      requires Valid()
      modifies this`files, this`refused
      ensures Valid() && Kept(old(files), Safe()) && (found <==> path in files)
      ensures refused == if found then old(refused) + 1 else old(refused)
    {
      Interfere();
      found := path in files;
      if found {
        refused := refused + 1;
      }
    }

    /** open(path, O_WRONLY | O_CREAT | O_EXCL) */
    method OpenExclusive(path: Text) returns (r: OpenReply)
      requires Valid()
      modifies this
      ensures Valid() && Kept(old(files), old(Safe()) - {path}) && interrupts == old(interrupts)
      ensures match r
              case Opened(fd) =>
                && (path in old(Safe()) ==> path !in old(files))
                && path in files && files[path] == [] && made == old(made) + {path}
                && fd !in old(handles) && handles == old(handles)[fd := Appending(path)]
                && effects == old(effects) + [Made(path)] && faults == old(faults)
                && refused == old(refused) && synced == old(synced) - {path}
              case OpenFailed(errno) =>
                && Kept(old(files), Safe()) && made == old(made) && handles == old(handles) && effects == old(effects)
                && (errno == EEXIST ==> path in files && faults == old(faults) && refused == old(refused) + 1)
                && (errno != EEXIST ==> faults == old(faults) + 1 && refused == old(refused))
                && synced == old(synced)
    {
      Interfere();
      var fd: nat := *;
      var lucky: bool := *;
      if path in files {
        refused := refused + 1;
        return OpenFailed(EEXIST);
      } else if lucky && fd !in handles {
        files, made, synced := files[path := []], made + {path}, synced - {path};
        handles := handles[fd := Appending(path)];
        effects := effects + [Made(path)];
        return Opened(fd);
      } else {
        faults := faults + 1;
        return OpenFailed(EIO);
      }
    }

    /** open(path, O_RDONLY) */
    method OpenToRead(path: Text) returns (r: OpenReply)
      requires Valid()
      modifies this`files, this`handles, this`faults, this`refused
      ensures Valid() && Kept(old(files), Safe())
      ensures match r
              case Opened(fd) =>
                && path in files && |files[path]| <= OFF_MAX
                && fd !in old(handles) && handles == old(handles)[fd := Reading(files[path], 0)]
                && faults == old(faults) && refused == old(refused)
              case OpenFailed(errno) =>
                && handles == old(handles)
                && if path in files then faults == old(faults) + 1 && refused == old(refused)
                   else faults == old(faults) && refused == old(refused) + 1
    {
      Interfere();
      var fd: nat := *;
      var lucky: bool := *;
      if path !in files {
        refused := refused + 1;
        return OpenFailed(ENOENT);
      } else if lucky && fd !in handles && |files[path]| <= OFF_MAX {
        handles := handles[fd := Reading(files[path], 0)];
        return Opened(fd);
      } else {
        faults := faults + 1;
        return OpenFailed(EIO);
      }
    }

    method Close(fd: nat)
      requires fd in handles
      modifies this`handles
      ensures handles == old(handles) - {fd}
    {
      handles := handles - {fd};
    }

    /** read: at least one byte unless at the end of the file */
    method Read(fd: nat, count: nat) returns (r: IoReply, data: seq<byte>)
      requires fd in handles && handles[fd].Reading? && handles[fd].pos <= |handles[fd].bytes| && count > 0
      modifies this`handles, this`interrupts, this`faults
      ensures var Reading(bytes, pos) := old(handles)[fd];
              match r
              case Count(n) =>
                && n <= count && pos + n <= |bytes| && data == bytes[pos..pos + n]
                && (n == 0 <==> pos == |bytes|)
                && handles == old(handles)[fd := Reading(bytes, pos + n)]
                && interrupts == old(interrupts) && faults == old(faults)
              case Interrupted => handles == old(handles) && interrupts < old(interrupts) && faults == old(faults)
              case Error => handles == old(handles) && faults == old(faults) + 1
    {
      var Reading(bytes, pos) := handles[fd];
      var n: nat := *;
      var interrupted: bool := *;
      data := [];
      if interrupted && interrupts > 0 {
        interrupts := interrupts - 1;
        return Interrupted, data;
      } else if 0 <= n <= count && pos + n <= |bytes| && (n == 0 <==> pos == |bytes|) {
        handles := handles[fd := Reading(bytes, pos + n)];
        return Count(n), bytes[pos..pos + n];
      } else {
        faults := faults + 1;
        return Error, data;
      }
    }

    /** write */
    method Write(fd: nat, data: seq<byte>) returns (r: IoReply)
      requires Valid() && fd in handles && handles[fd].Appending? && handles[fd].path in made
      modifies this`files, this`interrupts, this`faults, this`synced
      ensures synced == old(synced) - {handles[fd].path}
      ensures var path := handles[fd].path;
              && Valid() && Kept(old(files), Safe() - {path})
              && match r
                 case Count(n) =>
                   && n <= |data| && files[path] == old(files)[path] + data[..n] && interrupts == old(interrupts)
                   && (data != [] ==> faults == if n > 0 then old(faults) else old(faults) + 1)
                 case Interrupted => files[path] == old(files)[path] && interrupts < old(interrupts) && faults == old(faults)
                 case Error => files[path] == old(files)[path] && faults == old(faults) + 1
    {
      Interfere();
      var path := handles[fd].path;
      synced := synced - {path};
      var n: nat := *;
      var interrupted: bool := *;
      if interrupted && interrupts > 0 {
        interrupts := interrupts - 1;
        return Interrupted;
      } else if 0 <= n <= |data| {
        files := files[path := files[path] + data[..n]];
        if n == 0 && data != [] {
          faults := faults + 1;
        }
        return Count(n);
      } else {
        faults := faults + 1;
        return Error;
      }
    }

    method Fdatasync(fd: nat) returns (ok: bool)
      requires Valid() && fd in handles && handles[fd].Appending?
      modifies this`files, this`faults, this`synced
      ensures synced == if ok then old(synced) + {handles[fd].path} else old(synced)
      ensures Valid() && Kept(old(files), Safe())
      ensures faults == if ok then old(faults) else old(faults) + 1
    {
      Interfere();
      ok := *;
      if ok {
        synced := synced + {handles[fd].path};
      } else {
        faults := faults + 1;
      }
    }

    /** link(from, to): never replaces an existing file. */
    method Link(from: Text, to: Text) returns (r: Reply)
      requires Valid()
      modifies this`files, this`faults, this`effects, this`refused
      ensures Valid() && Kept(old(files), Safe() - {to})
      ensures refused == if r == Refuse(EEXIST) || r == Refuse(ENOENT) then old(refused) + 1 else old(refused)
      ensures match r
              case Done =>
                && from in files && to in files && files[to] == files[from]
                && effects == old(effects) + [Linked(to, files[from], from in synced)] && faults == old(faults)
                && (to in Safe() ==> to !in old(files))
              case Refuse(errno) =>
                && Kept(old(files), Safe()) && effects == old(effects)
                && (errno == EEXIST ==> to in files) && (errno == ENOENT ==> from !in files)
                && faults == (if errno == EIO then old(faults) + 1 else old(faults))
    {
      Interfere();
      var lucky: bool := *;
      if !lucky {
        faults := faults + 1;
        return Refuse(EIO);
      } else if from !in files {
        refused := refused + 1;
        return Refuse(ENOENT);
      } else if to in files {
        refused := refused + 1;
        return Refuse(EEXIST);
      } else {
        files := files[to := files[from]];
        effects := effects + [Linked(to, files[from], from in synced)];
        return Done;
      }
    }

    /** unlink, its result ignored */
    method Unlink(path: Text)
      requires Valid()
      modifies this`files, this`faults, this`effects, this`made
      ensures Valid() && Kept(old(files), old(Safe()) - {path})
      ensures faults == old(faults) || faults == old(faults) + 1
      ensures if faults == old(faults) then path !in files else made == old(made) && effects == old(effects)
      ensures faults != old(faults) ==> Kept(old(files), Safe())
      ensures effects == old(effects) || effects == old(effects) + [Erased(path, path in old(made))]
      ensures path in old(Safe()) ==>
                (effects == old(effects) <==> path !in old(files) || faults != old(faults))
      ensures made == if faults == old(faults) then old(made) - {path} else old(made)
    {
      Interfere();
      var lucky: bool := *;
      if path in files {
        if lucky {
          files := files - {path};
          effects := effects + [Erased(path, path in made)];
          made := made - {path};
        } else {
          faults := faults + 1;
        }
      }
    }
  }
}
