/** The 80-byte header of a chunk file: magic, little-endian u64 payload size, 64 checksum characters. */
module Codec {
  import opened Types
  import opened Names

  const MAGIC: seq<byte> := [83, 84, 67, 72, 86, 49, 0, 0]  // "STCHV1\0\0"
  const CHECKSUM_LENGTH := 64
  const HEADER_SIZE := 80

  // ---- Shifts and bitwise OR on unsigned integers, one bit at a time ----

  function Pow2(k: nat): (p: nat)
    ensures p > 0
  {
    if k == 0 then 1 else 2 * Pow2(k - 1)
  }

  function ShiftRight(x: nat, k: nat): nat {
    if k == 0 then x else ShiftRight(x / 2, k - 1)
  }

  // The shift of a u64 drops the bits that leave the word.
  function ShiftLeft(x: u64, k: nat): u64 {
    x * Pow2(k) % 0x1_0000_0000_0000_0000
  }

  function BitOr(x: nat, y: nat): nat {
    if x == 0 && y == 0 then 0
    else (if x % 2 == 1 || y % 2 == 1 then 1 else 0) + 2 * BitOr(x / 2, y / 2)
  }

  function LowByte(x: nat): byte {
    x % 256
  }

  // ---- The little-endian text of a number, and the number it stands for ----

  function LeBytes(n: nat, count: nat): (s: seq<byte>)
    ensures |s| == count
  {
    if count == 0 then [] else [n % 256] + LeBytes(n / 256, count - 1)
  }

  function LeValue(s: seq<byte>): nat {
    if s == [] then 0 else LeValue(s[..|s| - 1]) + s[|s| - 1] * Pow2(8 * (|s| - 1))
  }

  lemma PowStep(k: nat)
    ensures Pow2(k + 8) == 256 * Pow2(k)
  {
    assert Pow2(k + 2) == 4 * Pow2(k);
    assert Pow2(k + 4) == 4 * Pow2(k + 2);
    assert Pow2(k + 6) == 4 * Pow2(k + 4);
    assert Pow2(k + 8) == 4 * Pow2(k + 6);
  }

  lemma PowersOfBytes()
    ensures Pow2(0) == 1 && Pow2(8) == 0x100 && Pow2(16) == 0x1_0000 && Pow2(24) == 0x100_0000
    ensures Pow2(32) == 0x1_0000_0000 && Pow2(40) == 0x100_0000_0000 && Pow2(48) == 0x1_0000_0000_0000
    ensures Pow2(56) == 0x100_0000_0000_0000 && Pow2(64) == 0x1_0000_0000_0000_0000
  {
    PowStep(0);
    PowStep(8);
    PowStep(16);
    PowStep(24);
    PowStep(32);
    PowStep(40);
    PowStep(48);
    PowStep(56);
  }

  lemma {:induction false} OrOfZero(x: nat)
    ensures BitOr(0, x) == x
  {
    if x != 0 {
      OrOfZero(x / 2);
    }
  }

  /** OR-ing in bits above position k is addition when the lower operand has none there. */
  lemma {:induction false} OrOfDisjointBits(low: nat, high: nat, k: nat)
    requires low < Pow2(k)
    ensures BitOr(low, high * Pow2(k)) == low + high * Pow2(k)
  {
    if k == 0 {
      OrOfZero(high);
    } else {
      var shifted := high * Pow2(k - 1);
      assert high * Pow2(k) == 2 * shifted;
      OrOfDisjointBits(low / 2, high, k - 1);
      if low == 0 && shifted == 0 {
      } else {
        assert (2 * shifted) / 2 == shifted && (2 * shifted) % 2 == 0;
      }
    }
  }

  lemma ShiftRightByByte(n: nat, k: nat)
    ensures ShiftRight(n, k + 8) == ShiftRight(n / 256, k)
  {
    assert ShiftRight(n, k + 8) == ShiftRight(n / 2 / 2, k + 6);
    assert ShiftRight(n / 2 / 2, k + 6) == ShiftRight(n / 2 / 2 / 2 / 2, k + 4);
    assert ShiftRight(n / 2 / 2 / 2 / 2, k + 4) == ShiftRight(n / 2 / 2 / 2 / 2 / 2 / 2, k + 2);
    assert ShiftRight(n / 2 / 2 / 2 / 2 / 2 / 2, k + 2) == ShiftRight(n / 2 / 2 / 2 / 2 / 2 / 2 / 2 / 2, k);
    assert n / 2 / 2 / 2 / 2 / 2 / 2 / 2 / 2 == n / 256;
  }

  /** The byte that the shift and mask extract is the byte of the little-endian text. */
  lemma {:induction false} ShiftedByte(n: nat, count: nat, index: nat)
    requires index < count
    ensures LeBytes(n, count)[index] == LowByte(ShiftRight(n, 8 * index))
  {
    if index > 0 {
      ShiftedByte(n / 256, count - 1, index - 1);
      ShiftRightByByte(n, 8 * (index - 1));
    }
  }

  lemma {:induction false} ValueOfCons(b: byte, s: seq<byte>)
    ensures LeValue([b] + s) == b + 256 * LeValue(s)
  {
    if s == [] {
      assert [b] + s == [b];
    } else {
      var n := |s| - 1;
      ValueOfCons(b, s[..n]);
      assert ([b] + s)[..n + 1] == [b] + s[..n];
      PowStep(8 * n);
      assert Pow2(8 * (n + 1)) == 256 * Pow2(8 * n);
      assert s[n] * (256 * Pow2(8 * n)) == 256 * (s[n] * Pow2(8 * n));
    }
  }

  lemma {:induction false} ValueOfLeBytes(n: nat, count: nat)
    requires n < Pow2(8 * count)
    ensures LeValue(LeBytes(n, count)) == n
  {
    if count > 0 {
      PowStep(8 * (count - 1));
      ValueOfLeBytes(n / 256, count - 1);
      ValueOfCons(n % 256, LeBytes(n / 256, count - 1));
    }
  }

  lemma {:induction false} ValueIsBounded(s: seq<byte>)
    ensures LeValue(s) < Pow2(8 * |s|)
  {
    if s != [] {
      var n := |s| - 1;
      ValueIsBounded(s[..n]);
      PowStep(8 * n);
      assert s[n] * Pow2(8 * n) <= 255 * Pow2(8 * n) by {
        MultiplyMonotone(s[n], 255, Pow2(8 * n));
      }
    }
  }

  lemma MultiplyMonotone(a: nat, b: nat, c: nat)
    requires a <= b
    ensures a * c <= b * c
  {
  }

  lemma LowestByte(b: byte, v: nat)
    ensures (b + 256 * v) % 256 == b && (b + 256 * v) / 256 == v
  {
  }

  lemma {:induction false} LeBytesOfValue(s: seq<byte>)
    ensures LeBytes(LeValue(s), |s|) == s
    decreases |s|
  {
    if s != [] {
      var rest := s[1..];
      assert s == [s[0]] + rest;
      ValueOfCons(s[0], rest);
      LeBytesOfValue(rest);
      LowestByte(s[0], LeValue(rest));
    }
  }

  /** OR-ing the next byte, shifted into place, into the value of the bytes before it. */
  lemma OrStep(done: seq<byte>, b: byte)
    requires |done| < 8
    ensures BitOr(LeValue(done), ShiftLeft(b, 8 * |done|)) == LeValue(done + [b]) <= U64_MAX
  {
    ValueIsBounded(done);
    OrOfDisjointBits(LeValue(done), b, 8 * |done|);
    ShiftFits(b, |done|);
    assert (done + [b])[..|done|] == done;
    ValueFits(done + [b]);
  }

  lemma PowerOfByte(index: nat)
    requires index < 8
    ensures Pow2(8 * index) <= 0x100_0000_0000_0000
  {
    PowersOfBytes();
    var k := 8 * index;
    assert k == 0 || k == 8 || k == 16 || k == 24 || k == 32 || k == 40 || k == 48 || k == 56;
  }

  lemma ProductFits(b: byte, power: nat)
    requires power <= 0x100_0000_0000_0000
    ensures 0 <= b * power <= 255 * 0x100_0000_0000_0000
  {
    MultiplyMonotone(b, 255, power);
  }

  lemma ShiftFits(b: byte, index: nat)
    requires index < 8
    ensures ShiftLeft(b, 8 * index) == b * Pow2(8 * index)
  {
    hide Pow2;
    PowerOfByte(index);
    ProductFits(b, Pow2(8 * index));
  }

  lemma ValueFits(s: seq<byte>)
    requires |s| <= 8
    ensures LeValue(s) <= U64_MAX
  {
    ValueIsBounded(s);
    PowersOfBytes();
    var k := 8 * |s|;
    assert k == 0 || k == 8 || k == 16 || k == 24 || k == 32 || k == 40 || k == 48 || k == 56 || k == 64;
  }

  /** The widths of the integers behind the bounds. */
  lemma BoundsArePowers()
    ensures U64_MAX == Pow2(64) - 1 && OFF_MAX == Pow2(63) - 1
  {
    PowersOfBytes();
    assert Pow2(64) == 2 * Pow2(63);
  }

  // ---- The header ----

  function Header(size: u64, checksum: Text): (h: seq<byte>)
    requires |checksum| == CHECKSUM_LENGTH
    ensures |h| == HEADER_SIZE
  {
    MAGIC + LeBytes(size, 8) + checksum
  }

  // The whole content of a chunk file.
  function Image(size: u64, checksum: Text, payload: seq<byte>): seq<byte>
    requires |checksum| == CHECKSUM_LENGTH
  {
    Header(size, checksum) + payload
  }

  // A file that ReadHeader must accept, with the fields it must return.
  predicate Accepts(file: seq<byte>, size: u64, checksum: Text) {
    && ValidChecksum(checksum)
    && size <= U64_MAX - HEADER_SIZE
    && |file| == size + HEADER_SIZE
    && file[..HEADER_SIZE] == Header(size, checksum)
  }

  /** The header fields of an accepted file are unique: the codec is injective on what it accepts. */
  lemma AcceptedFieldsAreUnique(file: seq<byte>, size: u64, checksum: Text, size': u64, checksum': Text)
    requires Accepts(file, size, checksum) && Accepts(file, size', checksum')
    ensures size == size' && checksum == checksum'
  {
    assert checksum == file[..HEADER_SIZE][16..] == checksum';
  }

  /** A header can be taken apart again whatever the size, including sizes no accepted file can have. */
  lemma HeaderFields(size: u64, checksum: Text)
    requires |checksum| == CHECKSUM_LENGTH
    ensures Header(size, checksum)[..8] == MAGIC
    ensures LeValue(Header(size, checksum)[8..16]) == size
    ensures Header(size, checksum)[16..80] == checksum
  {
    PowersOfBytes();
    assert Header(size, checksum)[8..16] == LeBytes(size, 8);
    ValueOfLeBytes(size, 8);
  }

  /** Any 80 bytes that start with the magic are the header of the fields read from them. */
  lemma HeaderOfFields(bytes: seq<byte>)
    requires |bytes| == HEADER_SIZE && bytes[..8] == MAGIC
    ensures LeValue(bytes[8..16]) <= U64_MAX
    ensures Header(LeValue(bytes[8..16]), bytes[16..]) == bytes
  {
    ValueFits(bytes[8..16]);
    LeBytesOfValue(bytes[8..16]);
    assert bytes == bytes[..8] + bytes[8..16] + bytes[16..];
  }

  /** What ReadHeader looks at decides acceptance: the converse of building a header from its fields. */
  lemma AcceptedByFields(file: seq<byte>, size: u64, checksum: Text)
    requires |file| >= HEADER_SIZE
    ensures Accepts(file, size, checksum) <==>
              && file[..8] == MAGIC && LeValue(file[8..16]) == size && file[16..80] == checksum
              && ValidChecksum(checksum) && size <= U64_MAX - HEADER_SIZE && |file| == size + HEADER_SIZE
  {
    var header := file[..80];
    assert header[..8] == file[..8] && header[8..16] == file[8..16] && header[16..] == file[16..80];
    if |checksum| == CHECKSUM_LENGTH && header == Header(size, checksum) {
      HeaderFields(size, checksum);
      assert header[16..80] == header[16..];
    }
    if header[..8] == MAGIC {
      HeaderOfFields(header);
    }
  }

  /** The magic is the literal in the source, padded with two zeros. */
  lemma MagicIsAscii()
    ensures MAGIC == Ascii("STCHV1") + [0, 0]
  {
    var text := Ascii("STCHV1");
    assert text == [83, 84, 67, 72, 86, 49];
  }

  method MakeHeader(size: u64, checksum: Text) returns (header: array<byte>)
    requires |checksum| == CHECKSUM_LENGTH
    ensures fresh(header) && header[..] == Header(size, checksum)
  {
    hide ShiftRight, LowByte, LeBytes, ValidChecksum;
    header := new byte[HEADER_SIZE](_ => 0);
    forall i | 0 <= i < 8 {
      header[i] := MAGIC[i];
    }
    for index := 0 to 8
      invariant header[..8] == MAGIC
      invariant header[8..8 + index] == LeBytes(size, 8)[..index]
    {
      ShiftedByte(size, 8, index);
      header[8 + index] := LowByte(ShiftRight(size, index * 8));
      assert header[8..8 + index + 1] == header[8..8 + index] + [header[8 + index]];
    }
    forall i | 0 <= i < CHECKSUM_LENGTH {
      header[16 + i] := checksum[i];
    }
    assert header[8..16] == LeBytes(size, 8);
    assert forall i :: 0 <= i < CHECKSUM_LENGTH ==> header[16..][i] == checksum[i];
    assert header[16..] == checksum;
    assert header[..] == header[..8] + header[8..16] + header[16..];
  }

  /** The reassembly loop: shifting each byte into place and OR-ing undoes the byte split. */
  method DecodeSize(header: array<byte>) returns (size: u64)
    requires header.Length == HEADER_SIZE
    ensures size == LeValue(header[8..16])
  {
    size := 0;
    for index := 0 to 8
      invariant size == LeValue(header[8..8 + index])
    {
      OrStep(header[8..8 + index], header[8 + index]);
      assert header[8..8 + index + 1] == header[8..8 + index] + [header[8 + index]];
      size := BitOr(size, ShiftLeft(header[8 + index], index * 8));
    }
  }
}
