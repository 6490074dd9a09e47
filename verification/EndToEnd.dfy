/** From a file on one client, through the worker and its crashes, to a file on another. */
module EndToEnd {
  import opened Types
  import opened Names
  import opened Protocol
  import opened Runs
  import opened Os
  import opened Network
  import opened LocalFiles
  import opened Linearizability
  import opened CrashSafety
  import opened Client

  // The opens behind a Get, in order, after `start` and before `end`
  ghost predicate InOrder(start: Run, seen: Opens, end: Run) {
    Prefix(start, seen.head) && Prefix(seen.head, seen.check) && Prefix(seen.check, seen.data) && Prefix(seen.data, end)
  }

  // An acknowledged chunk that is not unlinked before `later` is there at every state up to it.
  lemma StillThere(linked: Run, acked: Run, run: Run, later: Run, id: Text, stored: Chunk)
    requires ValidRun(later) && Acknowledged(linked, acked, id, stored) && Prefix(linked, acked)
    requires Prefix(acked, run) && Prefix(run, later) && NeverRemoved(linked, later, id)
    ensures id in Visible(run.w.fs) && Visible(run.w.fs)[id] == stored
    ensures Hex(Blake3(stored.payload)) == stored.checksum
  {
    ValidPrefix(run, later);
    PrefixTransitive(linked, acked, run);
    NeverRemovedSplits(linked, run, later, id);
    AcknowledgedChunksSurvive(linked, acked, run, id, stored);
    SurvivorsAreVerified(run, id);
  }

  /**
   After an acknowledged Put, and as long as the id is not unlinked, a Get can only succeed, with exactly the
   bytes that were put, or fail on the way: whatever runs or crashes, and at whatever point of either call, it
   never answers NotFound, InvalidArgument or Corruption.
   */
  lemma RoundTrip(linked: Run, acked: Run, seen: Opens, end: Run, id: Text, stored: Chunk, code: Code, got: seq<byte>)
    requires ValidRun(end) && Acknowledged(linked, acked, id, stored) && Prefix(linked, acked)
    requires InOrder(acked, seen, end) && NeverRemoved(linked, seen.data, id)
    requires Explained(code, id, got, seen)
    ensures code == Ok ==> got == stored.payload
    ensures code != NotFound && code != InvalidArgument && code != Corruption
  {
    ValidPrefix(seen.data, end);
    PrefixTransitive(seen.head, seen.check, seen.data);
    PrefixTransitive(acked, seen.head, seen.check);
    PrefixTransitive(acked, seen.check, seen.data);
    StillThere(linked, acked, seen.head, seen.data, id, stored);
    StillThere(linked, acked, seen.check, seen.data, id, stored);
    StillThere(linked, acked, seen.data, seen.data, id, stored);
    PrefixTransitive(linked, acked, seen.check);
    NeverRemovedSplits(linked, seen.check, seen.data, id);
    if |got| == |stored.payload| && (got != [] ==> FromOneChunk(got, seen.data, id, 0)) {
      WholeChunk(got, seen.data, id);
    }
  }

  /**
   On a sound disk the client finds a download corrupt only if the id was unlinked, or the worker crashed, between
   HeadChunk and the last open of GetChunk.
   */
  lemma CorruptionNeedsReplacement(seen: Opens, end: Run, id: Text, got: seq<byte>)
    requires ValidRun(end) && InOrder(seen.head, seen, end) && Explained(Corruption, id, got, seen)
    ensures !CrashFree(seen.head, seen.data) || !NeverRemoved(seen.head, seen.data, id)
  {
    ValidPrefix(seen.data, end);
    if CrashFree(seen.head, seen.data) && NeverRemoved(seen.head, seen.data, id) {
      NeverRemovedSplits(seen.head, seen.check, seen.data, id);
      RebindingNeedsRemoval(seen.head, seen.data, id);
      WholeChunk(got, seen.data, id);
      SurvivorsAreVerified(seen.data, id);
    }
  }

  /** What a Get delivers always has the size and the digest of a chunk that the id held during the call. */
  lemma DownloadHasTheDigestOfOneChunk(seen: Opens, end: Run, id: Text, got: seq<byte>)
    requires ValidRun(end) && Prefix(seen.head, end) && Verifies(id, got, seen)
    ensures Blake3(got) == Blake3(Visible(seen.head.w.fs)[id].payload)
    ensures EverCommitted(seen.head, id, Visible(seen.head.w.fs)[id])
  {
    ValidPrefix(seen.head, end);
    SurvivorsAreVerified(seen.head, id);
    DigestTextIsFaithful(Blake3(got), Blake3(Visible(seen.head.w.fs)[id].payload));
  }

  /**
   Put a file, let the worker run and crash at will, get it elsewhere. If both calls answer Ok and the id was not
   unlinked, the new file is the old one; if the Put answered Ok, no answer of the Get denies the object; and if
   nothing fails on the way, the Get does answer Ok.
   */
  method PutThenGet(putter: StorageClient, there: LocalFs, up: Channel, getter: StorageClient, here: LocalFs, down: Channel,
                    t: Thread, workerPid: nat, address: nat, id: Text, source: Text, destination: Text)
    returns (put: Code, get: Code, ghost got: seq<byte>, ghost linked: Run, ghost seen: Opens)
    requires t.Valid() && t.me !in t.procs && t.fds == map[] && there != here && there.Valid() && here.Valid()
    requires source in there.own
    modifies t, there, up, here, down, getter
    ensures put == Ok && Sure(up) && NeverRemoved(linked, seen.data, id) ==>
              && source in old(there.files)
              && (get == Ok ==> got == old(there.files)[source])
              && get != NotFound && get != InvalidArgument && get != Corruption
    ensures put == Ok && Sure(up) && get == Ok && NeverRemoved(linked, seen.data, id) && destination in here.own ==>
              && source in old(there.files) && destination in here.files
              && here.files[destination] == old(there.files)[source]
    ensures destination in here.own ==> AllOrNothing(here, old(here.files), destination, get, got)
    ensures put == Ok && Sure(up) && NeverRemoved(linked, seen.data, id) && Smooth(here, t, down)
            && destination in here.own && destination !in old(here.files)
            && DownloadName(destination, getter.pid, old(getter.nextTempId)) in here.own - old(here.files).Keys
            ==> get == Ok
    ensures exists temp, added ::
              here.effects == old(here.effects) + added && GetStory(added, temp, destination, got, get)
  {
    hide Prefix, Explained, Acknowledged, GetStory;
    ghost var arrived, hashed: seq<byte>;
    ghost var heard: bool;
    ghost var changes: seq<Action>;
    put, heard, hashed, arrived, linked, changes := putter.Put(there, t, up, workerPid, address, id, source);
    ghost var acked := t.run;
    t.Wait();
    ghost var waited := t.run;
    ghost var added: seq<Effect>;
    get, got, seen, added := getter.Get(here, t, down, id, destination);
    if put == Ok && Sure(up) && NeverRemoved(linked, seen.data, id) {
      t.Audit();
      CrashFreeIsPrefix(linked, acked);
      PrefixTransitive(acked, waited, seen.head);
      RoundTrip(linked, acked, seen, t.run, id, Chunk(arrived, Hex(Blake3(hashed))), get, got);
    }
  }
}
