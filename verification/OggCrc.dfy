/**
 The page checksum of the Ogg container (section 6 of RFC 3533): generator 0x04c11db7,
 no reflection, no final XOR.
 */
module OggCrc {
  import opened Words
  import Crc32
  import CrcAlgebra

  const POLY: U32 := Hex("04c11db7")

  /** The generator wired into the ARM instructions, which work low end first. */
  const REFLECTED_POLY: U32 := Hex("edb88320")

  lemma {:induction false} HexAppend(a: string, b: string)
    ensures Hex(a + b) == Hex(a) + Hex(b)
  {
    if a == "" {
      assert a + b == b;
    } else {
      assert (a + b)[1..] == a[1..] + b;
      HexAppend(a[1..], b);
    }
  }

  lemma HexDigit(c: char)
    ensures Hex([c]) == Nibble(c)
  {
    assert [c][1..] == "";
  }

  /** Reading a constant backwards mirrors its digits and swaps their order. */
  lemma {:induction false} MirrorHex(a: string, b: string)
    requires |a| == |b|
    requires forall i :: 0 <= i < |a| ==> Nibble(b[|b| - 1 - i]) == ReverseBits(Nibble(a[i]))
    ensures Hex(b) == ReverseBits(Hex(a))
  {
    if a != "" {
      var m := |b| - 1;
      MirrorHex(a[1..], b[..m]);
      HexAppend(b[..m], b[m..]);
      HexDigit(b[m]);
      assert b == b[..m] + b[m..] && b[m..] == [b[m]];
      assert ReverseBits(Nibble(a[0]) + Hex(a[1..])) == ReverseBits(Hex(a[1..])) + ReverseBits(Nibble(a[0]));
    }
  }

  /** The reflected generator is the generator read backwards. */
  lemma ReflectedPoly()
    ensures REFLECTED_POLY == ReverseBits(POLY)
  {
    MirrorHex("04c11db7", "edb88320");
  }

  /** The last bit of a constant is that of its last digit. */
  lemma LastDigit(s: string)
    requires s != ""
    ensures Hex(s) != [] && Hex(s)[|Hex(s)| - 1] == Nibble(s[|s| - 1])[3]
  {
    var m := |s| - 1;
    HexAppend(s[..m], [s[m]]);
    HexDigit(s[m]);
    assert s == s[..m] + [s[m]];
  }

  predicate Generates(g: Bits) {
    |g| == 33 && g[0] && g[32]
  }

  /** The polynomial the checksum divides by, leading coefficient included. */
  lemma OggGenerator() returns (g: CrcAlgebra.Generator)
    ensures g == [true] + POLY && g[1..] == POLY
  {
    LastDigit("04c11db7");
    g := [true] + POLY;
  }

  // ----- the checksum functions

  method ChecksumTable() returns (table: array<U32>)
    ensures fresh(table) && Crc32.IsTable(POLY, table[..])
  {
    table := Crc32.ChecksumTable(POLY);
  }

  method OggTable(table: array<U32>, sum: U32, data: seq<U8>) returns (r: U32)
    requires Crc32.IsTable(POLY, table[..])
    ensures r == Crc32.Crc(POLY, sum, data)
  {
    r := Crc32.TableForm(POLY, table, sum, data);
  }

  method OggNeonCrc(initial: U32, data: seq<U8>) returns (r: U32)
    ensures r == Crc32.Crc(POLY, initial, data)
  {
    ReflectedPoly();
    r := Crc32.NeonForm(POLY, REFLECTED_POLY, initial, data);
  }

  method OggCrcWords(initial: U32, data: seq<U8>) returns (r: U32)
    ensures r == Crc32.Crc(POLY, initial, data)
  {
    ReflectedPoly();
    r := Crc32.WordForm(POLY, REFLECTED_POLY, initial, data);
  }

  // ----- what the checksum promises

  /** With initial state zero, the checksum is the remainder of the message times x^32. */
  lemma ChecksumIsRemainder(data: seq<U8>, r: U32)
    ensures Generates([true] + POLY)
    ensures CrcAlgebra.IsRemainder([true] + POLY, Crc32.MessageBits(data) + Zeros(32), r) <==>
      r == Crc32.Crc(POLY, Zeros(32), data)
  {
    var g := OggGenerator();
    var bits := Crc32.MessageBits(data);
    assert CrcAlgebra.Dividend(Zeros(32), bits) == bits + Zeros(32);
    CrcAlgebra.CrcIsTheRemainder(g, Zeros(32), bits, r);
  }

  /** Inputs of one length that differ only inside four consecutive bytes have different checksums. */
  lemma BurstDetected(sum: U32, a: seq<U8>, b: seq<U8>, from: nat)
    requires |a| == |b| && a != b
    requires forall k :: 0 <= k < |a| && !(from <= k < from + 4) ==> a[k] == b[k]
    ensures Crc32.Crc(POLY, sum, a) != Crc32.Crc(POLY, sum, b)
  {
    var g := OggGenerator();
    CrcAlgebra.ByteBurstDetected(g, sum, a, b, from);
  }
}
