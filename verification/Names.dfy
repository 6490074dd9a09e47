/** Hexadecimal text, the digest printer, and the names of chunk files and temporary files. */
module Names {
  import opened Types

  const DOT: byte := 46
  const DOT_CHUNK: Text := [46, 99, 104, 117, 110, 107]  // ".chunk"
  const DOT_TMP: Text := [46, 116, 109, 112, 46]         // ".tmp."

  // kHex[nibble]
  function HexDigit(nibble: nat): (c: byte)
    requires nibble < 16
    ensures IsLowerHex(c)
  {
    if nibble < 10 then 48 + nibble else 87 + nibble
  }

  // The bytes of a C++ string literal
  function Ascii(literal: string): Text
    requires forall i :: 0 <= i < |literal| ==> literal[i] < 128 as char
  {
    seq(|literal|, i requires 0 <= i < |literal| => literal[i] as int)
  }

  /** The digits and the fixed parts of file names are the literals in the source. */
  lemma LiteralsAreAscii()
    ensures forall nibble: nat :: nibble < 16 ==> HexDigit(nibble) == Ascii("0123456789abcdef")[nibble]
    ensures DOT_CHUNK == Ascii(".chunk") && DOT_TMP == Ascii(".tmp.") && [DOT] == Ascii(".")
  {
    var digits := Ascii("0123456789abcdef");
    assert digits[0] == 48 && digits[1] == 49 && digits[2] == 50 && digits[3] == 51;
    assert digits[4] == 52 && digits[5] == 53 && digits[6] == 54 && digits[7] == 55;
    assert digits[8] == 56 && digits[9] == 57 && digits[10] == 97 && digits[11] == 98;
    assert digits[12] == 99 && digits[13] == 100 && digits[14] == 101 && digits[15] == 102;
  }

  function NibbleOf(c: byte): (nibble: nat)
    requires IsLowerHex(c)
    ensures nibble < 16 && HexDigit(nibble) == c
  {
    if c <= 57 then c - 48 else c - 87
  }

  predicate AllHex(text: Text) {
    forall i :: 0 <= i < |text| ==> IsLowerHex(text[i])
  }

  function Hex(bytes: seq<byte>): (text: Text)
    ensures |text| == 2 * |bytes| && AllHex(text)
  {
    if bytes == [] then []
    else Hex(bytes[..|bytes| - 1]) + [HexDigit(bytes[|bytes| - 1] / 16), HexDigit(bytes[|bytes| - 1] % 16)]
  }

  function Unhex(text: Text): seq<byte>
    requires |text| % 2 == 0 && AllHex(text)
  {
    seq(|text| / 2, i requires 0 <= i < |text| / 2 => NibbleOf(text[2 * i]) * 16 + NibbleOf(text[2 * i + 1]))
  }

  lemma {:induction false} HexAt(bytes: seq<byte>, i: nat)
    requires i < |bytes|
    ensures Hex(bytes)[2 * i] == HexDigit(bytes[i] / 16) && Hex(bytes)[2 * i + 1] == HexDigit(bytes[i] % 16)
  {
    if i < |bytes| - 1 {
      HexAt(bytes[..|bytes| - 1], i);
    }
  }

  /** Printing bytes as hex text is undone by reading the text back. */
  lemma UnhexOfHex(bytes: seq<byte>)
    ensures Unhex(Hex(bytes)) == bytes
  {
    forall i | 0 <= i < |bytes|
      ensures Unhex(Hex(bytes))[i] == bytes[i]
    {
      HexAt(bytes, i);
    }
  }

  /** Every digest prints as text that ValidateChecksum accepts, and equal text means equal digest. */
  lemma DigestTextIsFaithful(d: Digest, e: Digest)
    ensures ValidChecksum(Hex(d))
    ensures Unhex(Hex(d)) == d
    ensures Hex(d) == Hex(e) <==> d == e
  {
    UnhexOfHex(d);
    UnhexOfHex(e);
  }

  /** ValidateChecksum accepts nothing else: a text passes exactly if it is the printed form of some digest. */
  lemma ChecksumsAreDigestTexts(text: Text)
    ensures ValidChecksum(text) <==> exists d: Digest :: text == Hex(d)
  {
    if ValidChecksum(text) {
      var d: Digest := Unhex(text);
      HexOfUnhex(text);
      assert text == Hex(d);
    } else if d: Digest :| text == Hex(d) {
      DigestTextIsFaithful(d, d);
    }
  }

  lemma NibblesOfByte(high: nat, low: nat)
    requires high < 16 && low < 16
    ensures (high * 16 + low) / 16 == high && (high * 16 + low) % 16 == low
  {
  }

  lemma HexOfUnhexAt(text: Text, i: nat)
    requires |text| % 2 == 0 && AllHex(text) && i < |text| / 2
    ensures Hex(Unhex(text))[2 * i] == text[2 * i] && Hex(Unhex(text))[2 * i + 1] == text[2 * i + 1]
  {
    hide Hex;
    var high, low := NibbleOf(text[2 * i]), NibbleOf(text[2 * i + 1]);
    HexAt(Unhex(text), i);
    NibblesOfByte(high, low);
    assert Unhex(text)[i] == high * 16 + low;
  }

  lemma HexOfUnhex(text: Text)
    requires |text| % 2 == 0 && AllHex(text)
    ensures Hex(Unhex(text)) == text
  {
    hide Hex, AllHex;
    assert |Unhex(text)| == |text| / 2;
    forall k | 0 <= k < |text|
      ensures Hex(Unhex(text))[k] == text[k]
    {
      HexOfUnhexAt(text, k / 2);
      assert k == 2 * (k / 2) || k == 2 * (k / 2) + 1;
    }
  }

  /** The nibble-table loop: the text is filled in place, two characters for each byte of the digest. */
  method FinalizeHex(hasher: Hasher) returns (text: Text)
    ensures text == Hex(Blake3(hasher.absorbed))
  {
    var digest := hasher.Finalize();
    var result := new byte[|digest| * 2](_ => 48);
    var index := 0;
    while index < |digest|
      invariant index <= |digest| && result.Length == 2 * |digest|
      invariant result[..2 * index] == Hex(digest[..index])
    {
      result[index * 2] := HexDigit(digest[index] / 16);
      result[index * 2 + 1] := HexDigit(digest[index] % 16);
      assert digest[..index + 1][..index] == digest[..index];
      assert result[..2 * (index + 1)] == result[..2 * index] + [result[index * 2], result[index * 2 + 1]];
      index := index + 1;
    }
    assert digest[..index] == digest;
    return result[..];
  }

  function FinalName(id: Text): Text {
    Hex(id) + DOT_CHUNK
  }

  method PathFor(id: Text) returns (name: Text)
    ensures name == FinalName(id)
  {
    var encoded: Text := [];
    for index := 0 to |id|
      invariant encoded == Hex(id[..index])
    {
      assert id[..index + 1][..index] == id[..index];
      encoded := encoded + [HexDigit(id[index] / 16)];
      encoded := encoded + [HexDigit(id[index] % 16)];
    }
    assert id[..|id|] == id;
    name := encoded + DOT_CHUNK;
  }

  // std::to_string of an unsigned integer
  function Decimal(n: nat): (text: Text)
    ensures 0 < |text| && forall i :: 0 <= i < |text| ==> IsDigit(text[i])
  {
    if n < 10 then [48 + n] else Decimal(n / 10) + [48 + n % 10]
  }

  // The number that a decimal text stands for
  function Number(text: Text): nat
    requires forall i :: 0 <= i < |text| ==> IsDigit(text[i])
  {
    if text == [] then 0
    else
      assert IsDigit(text[|text| - 1]);
      var digit: nat := text[|text| - 1];
      10 * Number(text[..|text| - 1]) + digit - 48
  }

  /** The text is the number in base ten, without leading zeros. */
  lemma {:induction false} DecimalReadsBack(n: nat)
    ensures Number(Decimal(n)) == n
    ensures n > 0 ==> Decimal(n)[0] != 48
  {
    var text := Decimal(n);
    if n >= 10 {
      DecimalReadsBack(n / 10);
      assert text[..|text| - 1] == Decimal(n / 10);
      assert text[0] == Decimal(n / 10)[0];
    } else {
      assert text[..0] == [];
    }
  }

  function TempName(id: Text, pid: nat, address: nat): Text {
    FinalName(id) + DOT_TMP + Decimal(pid) + [DOT] + Decimal(address)
  }

  predicate IsFinal(name: Text) {
    |name| >= |DOT_CHUNK| && name[|name| - |DOT_CHUNK|..] == DOT_CHUNK
  }

  predicate IsTemp(name: Text) {
    name != [] && IsDigit(name[|name| - 1])
  }

  predicate DotFree(text: Text) {
    forall i :: 0 <= i < |text| ==> text[i] != DOT
  }

  lemma HexIsDotFree(bytes: seq<byte>)
    ensures DotFree(Hex(bytes))
  {
  }

  lemma DotIsNotInPrefix(a: Text, b: Text, whole: Text)
    requires whole == a + [DOT] + b && DotFree(a)
    ensures whole[|a|] == DOT && forall i :: 0 <= i < |a| ==> whole[i] != DOT
  {
  }

  /** Text up to the first dot, and text after it, are determined by the whole. */
  lemma SplitAtDot(a: Text, b: Text, x: Text, y: Text)
    requires DotFree(a) && DotFree(x)
    requires a + [DOT] + b == x + [DOT] + y
    ensures a == x && b == y
  {
    var whole := a + [DOT] + b;
    DotIsNotInPrefix(a, b, whole);
    DotIsNotInPrefix(x, y, whole);
    assert a == whole[..|a|] && x == whole[..|x|];
    assert b == whole[|a| + 1..] && y == whole[|x| + 1..];
  }

  lemma {:induction false} DecimalIsInjective(m: nat, n: nat)
    requires Decimal(m) == Decimal(n)
    ensures m == n
  {
    var s, t := Decimal(m), Decimal(n);
    if m < 10 && n < 10 {
      assert s[0] == t[0];
    } else if m >= 10 && n >= 10 {
      assert s[..|s| - 1] == Decimal(m / 10) && t[..|t| - 1] == Decimal(n / 10);
      DecimalIsInjective(m / 10, n / 10);
      assert s[|s| - 1] == t[|t| - 1];
    }
  }

  /** Different ids, whatever bytes they hold, never share a chunk file. */
  lemma FinalNamesAreInjective(id: Text, other: Text)
    ensures FinalName(id) == FinalName(other) <==> id == other
  {
    if FinalName(id) == FinalName(other) {
      assert Hex(id) == FinalName(id)[..2 * |id|];
      assert |id| == |other|;
      UnhexOfHex(id);
      UnhexOfHex(other);
    }
  }

  /** A chunk file name has no path separator, so it cannot leave the storage root. */
  lemma FinalNamesStayInRoot(id: Text)
    ensures IsFinal(FinalName(id))
    ensures forall i :: 0 <= i < |FinalName(id)| ==> FinalName(id)[i] != 47
    ensures FinalName(id) != [DOT] && FinalName(id) != [DOT, DOT]
  {
    UnhexOfHex(id);
  }

  lemma TempNamesAreTemporary(id: Text, pid: nat, address: nat)
    ensures IsTemp(TempName(id, pid, address))
  {
    var name := TempName(id, pid, address);
    var last := Decimal(address);
    assert name[|name| - 1] == last[|last| - 1];
  }

  lemma LastOfFinal(name: Text)
    requires IsFinal(name)
    ensures name[|name| - 1] == 107
  {
    assert name[|name| - 1] == name[|name| - |DOT_CHUNK|..][5];
  }

  /** Temporary and final names never meet, so a stale temporary is invisible to Head, Get and Delete. */
  lemma TempIsNotFinal(name: Text, id: Text)
    requires IsTemp(name)
    ensures !IsFinal(name) && FinalName(id) != name
  {
    if IsFinal(name) {
      LastOfFinal(name);
    }
    FinalNamesStayInRoot(id);
  }

  // The parts of a temporary name, in their order
  lemma TempNameSpelledOut(id: Text, pid: nat, address: nat)
    ensures TempName(id, pid, address) == Hex(id) + Ascii(".chunk") + Ascii(".tmp.") + Decimal(pid) + Ascii(".") + Decimal(address)
  {
    LiteralsAreAscii();
  }

  // TempName with its first dot in plain view
  lemma TempNameParts(id: Text, pid: nat, address: nat)
    ensures TempName(id, pid, address)
         == Hex(id) + [DOT] + (DOT_CHUNK[1..] + DOT_TMP + (Decimal(pid) + [DOT] + Decimal(address)))
  {
    assert DOT_CHUNK == [DOT] + DOT_CHUNK[1..];
  }

  /** A temporary name determines the id, the process and the stream address it was made from. */
  lemma TempNamesAreInjective(id: Text, pid: nat, address: nat, id': Text, pid': nat, address': nat)
    requires TempName(id, pid, address) == TempName(id', pid', address')
    ensures id == id' && pid == pid' && address == address'
  {
    var between := DOT_CHUNK[1..] + DOT_TMP;
    var tail := Decimal(pid) + [DOT] + Decimal(address);
    var tail' := Decimal(pid') + [DOT] + Decimal(address');
    TempNameParts(id, pid, address);
    TempNameParts(id', pid', address');
    HexIsDotFree(id);
    HexIsDotFree(id');
    SplitAtDot(Hex(id), between + tail, Hex(id'), between + tail');
    UnhexOfHex(id);
    UnhexOfHex(id');
    CancelPrefix(between, tail, tail');
    SplitAtDot(Decimal(pid), Decimal(address), Decimal(pid'), Decimal(address'));
    DecimalIsInjective(pid, pid');
    DecimalIsInjective(address, address');
  }

  lemma CancelPrefix(prefix: Text, a: Text, b: Text)
    requires prefix + a == prefix + b
    ensures a == b
  {
    assert a == (prefix + a)[|prefix|..];
    assert b == (prefix + b)[|prefix|..];
  }
}
