/** Values shared by every module: bytes, 64-bit integers, status codes, chunks and byte ranges. */
module Types {

  type byte = x: int | 0 <= x < 256

  // std::uint64_t. Storing a value in a u64 is an obligation that it does not wrap.
  type u64 = x: int | 0 <= x < 0x1_0000_0000_0000_0000

  // std::string holds bytes, not characters.
  type Text = seq<byte>

  const U64_MAX := 0xFFFF_FFFF_FFFF_FFFF
  const OFF_MAX := 0x7FFF_FFFF_FFFF_FFFF  // the largest off_t
  const BUFFER_SIZE := 3 * 1024 * 1024

  datatype Option<+T> = None | Some(value: T)

  datatype Code =
    | Ok | InvalidArgument | NotFound | AlreadyExists | Unavailable
    | Timeout | IoError | Corruption | ResourceExhausted | Internal

  // StatusOr<T>; a Failure never carries Ok.
  datatype Result<+T> = Success(value: T) | Failure(code: Code)

  // A stored object: what a chunk file holds besides its own size.
  datatype Chunk = Chunk(payload: seq<byte>, checksum: Text)

  datatype ByteRange = ByteRange(offset: u64, size: u64)

  datatype PutRequest = PutRequest(id: Text, size: u64, checksum: Text)

  datatype HeadResponse = HeadResponse(id: Text, size: u64, checksum: Text)

  // BLAKE3 is an arbitrary function to 32 bytes: nothing below depends on which one.
  type Digest = d: seq<byte> | |d| == 32 witness seq(32, i => 0)
  const Blake3: seq<byte> -> Digest

  function Min(a: nat, b: nat): nat {
    if a <= b then a else b
  }

  predicate ValidId(id: Text) {
    0 < |id| <= 1024
  }

  predicate IsDigit(c: byte) {
    48 <= c <= 57
  }

  predicate IsLowerHex(c: byte) {
    IsDigit(c) || 97 <= c <= 102
  }

  predicate ValidChecksum(text: Text) {
    |text| == 64 && forall i :: 0 <= i < |text| ==> IsLowerHex(text[i])
  }

  // The two comparisons stay inside u64, yet decide the question over the integers.
  function ValidateByteRange(range: ByteRange, total: u64): (code: Code)
    ensures code == Ok <==> range.offset + range.size <= total
    ensures code != Ok ==> code == InvalidArgument
  {
    if range.offset > total then InvalidArgument
    else
      var room: u64 := total - range.offset;
      if range.size > room then InvalidArgument else Ok
  }

  predicate Fits(range: ByteRange, chunk: Chunk) {
    range.offset + range.size <= |chunk.payload|
  }

  function Slice(payload: seq<byte>, range: ByteRange): seq<byte>
    requires range.offset + range.size <= |payload|
  {
    payload[range.offset..range.offset + range.size]
  }

  /** The incremental blake3_hasher: it remembers the bytes it has absorbed. */
  class Hasher {
    var absorbed: seq<byte>

    constructor ()
      ensures absorbed == []
    {
      absorbed := [];
    }

    method Update(data: seq<byte>)
      modifies this
      ensures absorbed == old(absorbed) + data
    {
      absorbed := absorbed + data;
    }

    method Finalize() returns (digest: Digest)
      ensures digest == Blake3(absorbed)
    {
      digest := Blake3(absorbed);
    }
  }
}
