/** The two gRPC streams as FileChunkStore sees them. */
module Streams {
  import opened Types
  import opened Network

  // rpc::PutChunkFrame: one of metadata and data, or neither
  datatype Frame = Metadata(request: PutRequest) | Data(bytes: seq<byte>) | Unset

  // The payload of the data frames up to the end of the stream or to the first frame that is not allowed there.
  function Flat(frames: seq<Frame>): seq<byte> {
    if frames == [] || !Sound(frames[0]) then [] else frames[0].bytes + Flat(frames[1..])
  }

  // Some frame after the metadata is not a non-empty data frame.
  predicate Cut(frames: seq<Frame>) {
    frames != [] && (Sound(frames[0]) ==> Cut(frames[1..]))
  }

  predicate Sound(frame: Frame) {
    frame.Data? && frame.bytes != []
  }

  // The first frame that ends the payload, or the number of frames if there is none.
  predicate FirstBad(frames: seq<Frame>, k: nat) {
    && k <= |frames|
    && (forall i :: 0 <= i < k ==> frames[i].Data? && frames[i].bytes != [])
    && (k < |frames| ==> !(frames[k].Data? && frames[k].bytes != []))
  }

  /** The stream is cut exactly at its first frame that is no data or empty data; the payload is all data before it. */
  lemma {:induction false} PayloadEndsAtFirstBad(frames: seq<Frame>, k: nat)
    requires FirstBad(frames, k)
    ensures Cut(frames) <==> k < |frames|
    ensures Flat(frames) == Concat(seq(k, i requires 0 <= i < k => frames[i].bytes))
  {
    var parts := seq(k, i requires 0 <= i < k => frames[i].bytes);
    if k > 0 {
      var rest := seq(k - 1, i requires 0 <= i < k - 1 => frames[1..][i].bytes);
      assert FirstBad(frames[1..], k - 1);
      PayloadEndsAtFirstBad(frames[1..], k - 1);
      ConcatOfCons(frames[0].bytes, rest);
      assert parts == [frames[0].bytes] + rest;
    }
  }

  lemma {:induction false} ConcatOfCons(first: seq<byte>, rest: seq<seq<byte>>)
    ensures Concat([first] + rest) == first + Concat(rest)
  {
    var all := [first] + rest;
    if rest == [] {
      assert all == [first] && all[..0] == [];
    } else {
      var n := |rest| - 1;
      ConcatOfCons(first, rest[..n]);
      assert all[..|all| - 1] == [first] + rest[..n];
    }
  }

  function Concat(parts: seq<seq<byte>>): seq<byte> {
    if parts == [] then [] else Concat(parts[..|parts| - 1]) + parts[|parts| - 1]
  }

  lemma {:induction false} FlatOfMore(frames: seq<Frame>, data: seq<byte>)
    requires !Cut(frames) && data != []
    ensures !Cut(frames + [Data(data)]) && Flat(frames + [Data(data)]) == Flat(frames) + data
  {
    if frames == [] {
      assert [Data(data)][1..] == [];
      assert data + [] == data;
    } else {
      FlatOfMore(frames[1..], data);
      assert (frames + [Data(data)])[1..] == frames[1..] + [Data(data)];
    }
  }

  function AsFrames(parts: seq<seq<byte>>): seq<Frame> {
    seq(|parts|, i requires 0 <= i < |parts| => Data(parts[i]))
  }

  /** However a payload is divided into non-empty frames, the server reads back exactly the payload. */
  lemma {:induction false} FramingIsTransparent(parts: seq<seq<byte>>)
    requires forall i :: 0 <= i < |parts| ==> parts[i] != []
    ensures !Cut(AsFrames(parts)) && Flat(AsFrames(parts)) == Concat(parts)
  {
    if parts != [] {
      var n := |parts| - 1;
      FramingIsTransparent(parts[..n]);
      FlatOfMore(AsFrames(parts[..n]), parts[n]);
      assert AsFrames(parts) == AsFrames(parts[..n]) + [Data(parts[n])];
    }
  }

  /** A stream that ends early delivers a prefix of the bytes, and nothing that was not sent. */
  lemma {:induction false} FlatOfFewer(frames: seq<Frame>, k: nat)
    requires k <= |frames| && !Cut(frames)
    ensures !Cut(frames[..k]) && Flat(frames[..k]) <= Flat(frames)
  {
    if k > 0 {
      FlatOfFewer(frames[1..], k - 1);
      assert frames[..k][1..] == frames[1..][..k - 1];
    }
  }

  lemma {:induction false} ConcatOfFewer(parts: seq<seq<byte>>, k: nat)
    requires k <= |parts|
    ensures Concat(parts[..k]) <= Concat(parts)
  {
    if k < |parts| {
      ConcatOfFewer(parts[..|parts| - 1], k);
      assert parts[..|parts| - 1][..k] == parts[..k];
    } else {
      assert parts[..k] == parts;
    }
  }

  /** grpc::ServerReader over the frames that reach the server. */
  class FrameReader {
    var frames: seq<Frame>

    constructor (frames: seq<Frame>)
      ensures this.frames == frames
    {
      this.frames := frames;
    }

    method Read() returns (frame: Option<Frame>)
      modifies this
      ensures old(frames) == [] ==> frame == None && frames == []
      ensures old(frames) != [] ==> frame == Some(old(frames)[0]) && frames == old(frames)[1..]
    {
      if frames == [] {
        return None;
      }
      frame := Some(frames[0]);
      frames := frames[1..];
    }
  }

  /** RpcInputStream: cuts the frames of the client into the reads that the store asks for. */
  class RpcInputStream {
    const reader: FrameReader
    var data: seq<byte>
    var offset: nat
    ghost var calls: nat

    constructor (reader: FrameReader)
      ensures this.reader == reader && Valid()
      ensures Unread() == Flat(reader.frames) && calls == 0
    {
      this.reader := reader;
      data, offset, calls := [], 0, 0;
    }

    predicate Valid()
      reads this
    {
      offset <= |data|
    }

    // The bytes that are still to be delivered.
    function Unread(): seq<byte>
      requires Valid()
      reads this, reader
    {
      data[offset..] + Flat(reader.frames)
    }

    /** Delivers the next bytes in order; 0 means that none are left, an error that a forbidden frame is next. */
    method Read(buffer: array<byte>) returns (r: Result<nat>)
      requires Valid()
      modifies this, reader, buffer
      ensures Valid() && calls == old(calls) + 1
      ensures match r
              case Success(n) =>
                && n <= buffer.Length
                && old(Unread()) == buffer[..n] + Unread()
                && Cut(reader.frames) == old(Cut(reader.frames))
                && (n == 0 <==> old(Unread()) == [])
                && (n == 0 ==> !Cut(reader.frames))
              case Failure(code) =>
                code == InvalidArgument && (buffer.Length == 0 || (old(Unread()) == [] && old(Cut(reader.frames))))
    {
      calls := calls + 1;
      if buffer.Length == 0 {
        return Failure(InvalidArgument);
      }
      if offset == |data| {
        r := NextFrame();
        if r.Failure? || r.value == 0 {
          return;
        }
      }
      var count := Min(buffer.Length, |data| - offset);
      forall i | 0 <= i < count {
        buffer[i] := data[offset + i];
      }
      assert buffer[..count] == data[offset..offset + count];
      assert data[offset..] == data[offset..offset + count] + data[offset + count..];
      offset := offset + count;
      return Success(count);
    }

    // Replaces a used-up frame by the next one; Success(0) at the end of the stream.
    method NextFrame() returns (r: Result<nat>)
      requires Valid() && offset == |data|
      modifies this`data, this`offset, reader
      ensures Valid()
      ensures match r
              case Success(n) =>
                && n == |data| - offset && Unread() == old(Unread())
                && Cut(reader.frames) == old(Cut(reader.frames))
                && (n == 0 ==> old(Unread()) == [] && !Cut(reader.frames))
              case Failure(code) => code == InvalidArgument && old(Unread()) == [] && old(Cut(reader.frames))
    {
      assert data[offset..] == [];
      var frame := reader.Read();
      if frame.None? {
        return Success(0);
      }
      if !frame.value.Data? {
        return Failure(InvalidArgument);
      }
      data := frame.value.bytes;
      offset := 0;
      if data == [] {
        return Failure(InvalidArgument);
      }
      assert data[0..] == data;
      return Success(|data|);
    }
  }

  /** RpcOutputStream over grpc::ServerWriter; the client may go away at any frame. */
  class RpcOutputStream {
    const channel: Channel
    var sent: seq<seq<byte>>

    constructor (channel: Channel)
      ensures this.channel == channel && sent == []
    {
      this.channel := channel;
      sent := [];
    }

    function Accepted(): seq<byte>
      reads this
    {
      Concat(sent)
    }

    method Write(data: seq<byte>) returns (code: Code)
      modifies this, channel
      ensures code == Ok ==> sent == old(sent) + [data] && Accepted() == old(Accepted()) + data
      ensures code != Ok ==> code == Unavailable && sent == old(sent)
      ensures channel.losses == if code == Ok then old(channel.losses) else old(channel.losses) + 1
    {
      var alive := channel.Holds();
      if !alive {
        return Unavailable;
      }
      sent := sent + [data];
      return Ok;
    }
  }
}
