/** The RPC handlers of the worker, with the repeated checks of DataPlaneService in line. */
module WorkerService {
  import opened Types
  import opened Names
  import opened Protocol
  import opened Runs
  import opened Os
  import opened Streams
  import opened Network
  import opened StatusCodes
  import opened FileChunkStore
  import opened CrashSafety

  /** The first frame must be metadata; everything after it is the payload. */
  method PutChunk(t: Thread, pid: nat, address: nat, reader: FrameReader)
    returns (grpc: GrpcCode, response: RpcCode, ghost linked: Run, ghost changes: seq<Action>)
    requires t.Valid() && t.me !in t.procs
    modifies t, reader
    ensures t.Valid() && t.me !in t.procs && t.fds == old(t.fds) && CrashFree(old(t.run), t.run)
    ensures grpc == GOk || grpc == GInvalidArgument
    ensures t.faults >= old(t.faults)
    ensures t.changes == old(t.changes) + changes && (grpc != GOk ==> changes == [])
    ensures grpc == GOk <==> old(reader.frames) != [] && old(reader.frames)[0].Metadata?
    ensures grpc == GOk ==>
              var request, rest := old(reader.frames)[0].request, old(reader.frames)[1..];
              var code := FromRpcStatus(response);
              && response == ToRpcStatusCode(code) && PutStory(t.me, request, Flat(rest), code, changes)
              && code in {Ok, InvalidArgument, AlreadyExists, Corruption, Unavailable, IoError}
              && var proper := 0 < |request.id| <= 1024 && ValidChecksum(request.checksum);
                 var matches := |Flat(rest)| == request.size && Hex(Blake3(Flat(rest))) == request.checksum;
              && (!proper ==> code == InvalidArgument)
              && (code == InvalidArgument ==> !proper || (Cut(rest) && |Flat(rest)| <= request.size))
              && (code == Corruption ==> |Flat(rest)| > request.size || (!Cut(rest) && !matches))
              && (code == Ok || code == AlreadyExists ==> !Cut(rest) && matches)
              && (code == IoError ==> t.faults > old(t.faults))
              && (code == Unavailable ==> changes == [] && TempName(request.id, pid, address) in t.fs.dir)
              && (code == Ok ==>
                    && Acknowledged(linked, t.run, request.id, Chunk(Flat(rest), request.checksum))
                    && CrashFree(old(t.run), linked) && CrashFree(linked, t.run))
  {
    linked, changes, response := t.run, [], 0;
    var first := reader.Read();
    if first.None? || !first.value.Metadata? {
      return GInvalidArgument, response, linked, changes;
    }
    var request := first.value.request;
    var input := new RpcInputStream(reader);
    var code: Code;
    if request.id == [] || !ValidChecksum(request.checksum) {
      code := InvalidArgument;
    } else {
      code, linked, changes := Put(t, pid, address, request, input);
    }
    CodesSurviveTheWire(code, 0, GOk);
    return GOk, ToRpcStatusCode(code), linked, changes;
  }

  /** The status of the call carries the answer of the store, whatever it is. */
  method GetChunk(t: Thread, channel: Channel, id: Text, range: ByteRange)
    returns (grpc: GrpcCode, sent: seq<seq<byte>>, ghost first: Run, ghost second: Run, ghost delivered: nat)
    requires t.Valid() && t.me !in t.procs
    modifies t, channel
    ensures t.Valid() && t.me !in t.procs && t.changes == old(t.changes) && t.fds == old(t.fds)
    ensures CrashFree(old(t.run), first) && CrashFree(first, second) && CrashFree(second, t.run)
    ensures if id in Visible(second.w.fs)
            then Delivered(Concat(sent), [], Visible(second.w.fs)[id], range, delivered)
            else Concat(sent) == []
    ensures match FromGrpcStatus(grpc)
            case Ok =>
              && id in Visible(first.w.fs) && Fits(range, Visible(first.w.fs)[id])
              && id in Visible(second.w.fs) && delivered == range.size
            case InvalidArgument => 0 < |id| <= 1024 ==> id in Visible(first.w.fs) && !Fits(range, Visible(first.w.fs)[id])
            case NotFound => id !in Visible(first.w.fs) || id !in Visible(second.w.fs)
            case Corruption => !NeverRemoved(first, second, id)
            case code => code == Unavailable || code == IoError
    ensures !(0 < |id| <= 1024) ==> FromGrpcStatus(grpc) == InvalidArgument
    ensures if FromGrpcStatus(grpc) == IoError then t.faults > old(t.faults) else t.faults == old(t.faults)
    ensures channel.losses == if FromGrpcStatus(grpc) == Unavailable then old(channel.losses) + 1 else old(channel.losses)
  {
    var output := new RpcOutputStream(channel);
    var code := InvalidArgument;
    first, second, delivered := t.run, t.run, 0;
    if id != [] {
      ghost var bytes: seq<byte>;
      code, first, second, delivered, bytes := Get(t, id, range, output);
    }
    CodesSurviveTheWire(code, 0, GOk);
    return ToGrpcStatus(code), output.sent, first, second, delivered;
  }

  method HeadChunk(t: Thread, id: Text) returns (response: RpcCode, head: HeadResponse, ghost seen: Run)
    requires t.Valid() && t.me !in t.procs
    modifies t
    ensures t.Valid() && t.me !in t.procs && t.changes == old(t.changes) && t.fds == old(t.fds)
    ensures CrashFree(old(t.run), seen) && CrashFree(seen, t.run)
    ensures match FromRpcStatus(response)
            case Ok =>
              && ValidId(id) && id in Visible(seen.w.fs) && head.id == id
              && head.size == |Visible(seen.w.fs)[id].payload| && head.checksum == Visible(seen.w.fs)[id].checksum
            case NotFound => id !in Visible(seen.w.fs)
            case InvalidArgument => !(0 < |id| <= 1024)
            case code => code == IoError
    ensures !(0 < |id| <= 1024) ==> FromRpcStatus(response) == InvalidArgument
    ensures if FromRpcStatus(response) == IoError then t.faults > old(t.faults) else t.faults == old(t.faults)
  {
    head := HeadResponse([], 0, []);
    var r := Failure(InvalidArgument);
    seen := t.run;
    if id != [] {
      r, seen := Head(t, id);
    }
    if r.Failure? {
      CodesSurviveTheWire(r.code, 0, GOk);
      return ToRpcStatusCode(r.code), head, seen;
    }
    return ToRpcStatusCode(Ok), r.value, seen;
  }

  method DeleteChunk(t: Thread, id: Text) returns (response: RpcCode)
    requires t.Valid() && t.me !in t.procs
    modifies t
    ensures t.Valid() && t.me !in t.procs && t.fds == old(t.fds) && CrashFree(old(t.run), t.run)
    ensures var code := FromRpcStatus(response);
            && (code == InvalidArgument <==> !(0 < |id| <= 1024))
            && (code == Ok || code == NotFound || code == InvalidArgument || code == IoError)
            && t.faults == (if code == IoError then old(t.faults) + 1 else old(t.faults))
            && t.changes == old(t.changes) + if code == Ok then [Removed(t.me, id)] else if code == NotFound then [Missed(t.me, id)] else []
  {
    var code := InvalidArgument;
    if id != [] {
      ghost var at: Run;
      code, at := Delete(t, id);
    }
    CodesSurviveTheWire(code, 0, GOk);
    return ToRpcStatusCode(code);
  }
}
