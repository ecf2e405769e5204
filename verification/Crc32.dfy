/**
 A 32-bit cyclic redundancy check with any generator `p` (its leading coefficient left
 out): `Crc` is the specification, one message bit at a time; the table form and the
 two forms built on ARM's reflected CRC instructions are methods proved to return it.
 OggCrc.dfy fixes the generator; CrcAlgebra.dfy says what `Crc` means as polynomial
 division.
 */
module Crc32 {
  import opened Sequences
  import opened Words

  // ----- the specification: bit-serial division, most significant bit first

  /** Takes one message bit in at the top of the register. */
  function Feed(p: U32, s: U32, b: bool): U32 {
    var moved := s[1..] + [false];
    if s[0] != b then Xor(moved, p) else moved
  }

  function CrcBits(p: U32, s: U32, bits: Bits): U32 {
    if bits == [] then s else Feed(p, CrcBits(p, s, bits[..|bits| - 1]), bits[|bits| - 1])
  }

  function MessageBits(data: seq<U8>): (bits: Bits)
    ensures |bits| == 8 * |data|
  {
    if data == [] then [] else MessageBits(data[..|data| - 1]) + data[|data| - 1]
  }

  function Crc(p: U32, s: U32, data: seq<U8>): U32 {
    CrcBits(p, s, MessageBits(data))
  }

  lemma {:induction false} CrcBitsAppend(p: U32, s: U32, a: Bits, b: Bits)
    ensures CrcBits(p, s, a + b) == CrcBits(p, CrcBits(p, s, a), b)
  {
    if b == [] {
      assert a + b == a;
    } else {
      var m := |b| - 1;
      assert (a + b)[..|a + b| - 1] == a + b[..m];
      CrcBitsAppend(p, s, a, b[..m]);
    }
  }

  lemma {:induction false} MessageBitsAppend(a: seq<U8>, b: seq<U8>)
    ensures MessageBits(a + b) == MessageBits(a) + MessageBits(b)
  {
    if b == [] {
      assert a + b == a;
    } else {
      var m := |b| - 1;
      assert (a + b)[..|a + b| - 1] == a + b[..m];
      MessageBitsAppend(a, b[..m]);
    }
  }

  /** Checksumming a concatenation is chaining the checksums across the split. */
  lemma CrcAppend(p: U32, s: U32, a: seq<U8>, b: seq<U8>)
    ensures Crc(p, s, a + b) == Crc(p, Crc(p, s, a), b)
  {
    MessageBitsAppend(a, b);
    CrcBitsAppend(p, s, MessageBits(a), MessageBits(b));
  }

  lemma CrcOne(p: U32, s: U32, v: U8)
    ensures Crc(p, s, [v]) == CrcBits(p, s, v)
  {
    assert [v][..0] == [] && MessageBits([v]) == MessageBits([]) + v == v;
  }

  // ----- the division step without a message bit, and its linearity

  /** One turn of the inner loop of the table generator. */
  function Shift(p: U32, r: U32): U32 {
    if Bit(r, 31) then Xor(Shl(r, 1), p) else Shl(r, 1)
  }

  function ShiftBy(p: U32, r: U32, n: nat): U32 {
    if n == 0 then r else Shift(p, ShiftBy(p, r, n - 1))
  }

  lemma FeedIsShift(p: U32, s: U32, b: bool)
    ensures Feed(p, s, b) == Shift(p, Xor(s, [b] + Zeros(31)))
  {
    var x := Xor(s, [b] + Zeros(31));
    assert x[1..] == s[1..];
    assert Zeros(1) == [false];
  }

  lemma ShiftXor(p: U32, a: U32, b: U32)
    ensures Shift(p, Xor(a, b)) == Xor(Shift(p, a), Shift(p, b))
  {
    var x, y, z := Shl(a, 1), Shl(b, 1), Shl(Xor(a, b), 1);
    assert z == Xor(x, y);
    forall i | 0 <= i < 32
      ensures Shift(p, Xor(a, b))[i] == Xor(Shift(p, a), Shift(p, b))[i]
    {
      assert z[i] == (x[i] != y[i]);
    }
  }

  lemma {:induction false} ShiftByXor(p: U32, a: U32, b: U32, n: nat)
    ensures ShiftBy(p, Xor(a, b), n) == Xor(ShiftBy(p, a, n), ShiftBy(p, b, n))
  {
    if n > 0 {
      ShiftByXor(p, a, b, n - 1);
      ShiftXor(p, ShiftBy(p, a, n - 1), ShiftBy(p, b, n - 1));
    }
  }

  /** Leading zeros shift out without feedback. */
  lemma {:induction false} SlideOut(p: U32, k: nat, u: Bits, m: nat)
    requires m <= k && k + |u| == 32
    ensures ShiftBy(p, Zeros(k) + u, m) == Zeros(k - m) + u + Zeros(m)
  {
    if m == 0 {
      assert Zeros(k) + u == Zeros(k) + u + Zeros(0);
    } else {
      SlideOut(p, k, u, m - 1);
      var r := Zeros(k - m + 1) + u + Zeros(m - 1);
      assert !Bit(r, 31);
      assert Shl(r, 1) == Zeros(k - m) + u + Zeros(m);
    }
  }

  lemma PadStep(s: U32, u: Bits, b: bool)
    requires |u| < 32
    ensures var n := |u| + 1;
      Xor(Xor(s, u + Zeros(33 - n)), Zeros(n - 1) + ([b] + Zeros(32 - n))) == Xor(s, (u + [b]) + Zeros(32 - n))
  {}

  lemma UnitSlides(p: U32, b: bool, k: nat)
    requires k < 32
    ensures ShiftBy(p, Zeros(k) + ([b] + Zeros(31 - k)), k) == [b] + Zeros(31)
  {
    SlideOut(p, k, [b] + Zeros(31 - k), k);
    assert Zeros(0) + ([b] + Zeros(31 - k)) + Zeros(k) == [b] + Zeros(31);
  }

  /** Feeding at most 32 bits is that many division steps of the register with the bits added at its top. */
  lemma {:induction false} FeedWord(p: U32, s: U32, w: Bits)
    requires |w| <= 32
    ensures CrcBits(p, s, w) == ShiftBy(p, Xor(s, w + Zeros(32 - |w|)), |w|)
  {
    var n := |w|;
    if n == 0 {
      XorZero(s);
      assert w + Zeros(32) == Zeros(32);
    } else {
      FeedWord(p, s, w[..n - 1]);
      FeedWordStep(p, s, w[..n - 1], w[n - 1]);
      assert w == w[..n - 1] + [w[n - 1]];
    }
  }

  lemma FeedWordStep(p: U32, s: U32, u: Bits, b: bool)
    requires |u| < 32
    ensures Feed(p, ShiftBy(p, Xor(s, u + Zeros(32 - |u|)), |u|), b) ==
      ShiftBy(p, Xor(s, u + [b] + Zeros(31 - |u|)), |u| + 1)
  {
    PadStep(s, u, b);
    FeedPadded(p, Xor(s, u + Zeros(32 - |u|)), |u|, b);
  }

  lemma FeedPadded(p: U32, x: U32, k: nat, b: bool)
    requires k < 32
    ensures Feed(p, ShiftBy(p, x, k), b) == ShiftBy(p, Xor(x, Zeros(k) + ([b] + Zeros(31 - k))), k + 1)
  {
    FeedIsShift(p, ShiftBy(p, x, k), b);
    UnitSlides(p, b, k);
    ShiftByXor(p, x, Zeros(k) + ([b] + Zeros(31 - k)), k);
  }

  // ----- the table form

  /** Eight division steps of a byte placed at the top of the register. */
  function Row(p: U32, v: U8): U32 {
    ShiftBy(p, v + Zeros(24), |v|)
  }

  ghost predicate IsTable(p: U32, table: seq<U32>) {
    && |table| == 256
    && forall i :: 0 <= i < 256 ==> table[i] == Row(p, FromNat(i, 8))
  }

  lemma IndexWord(i: nat)
    requires i < 256
    ensures Shl(FromNat(i, 32), 24) == FromNat(i, 8) + Zeros(24)
  {
    assert Pow2(8) == 256;
    FromNatWiden(i, 8, 24);
  }

  method DivideSteps(p: U32, start: U32, n: nat) returns (r: U32)
    ensures r == ShiftBy(p, start, n)
  {
    r := start;
    var bit := 0;
    while bit < n
      invariant 0 <= bit <= n
      invariant r == ShiftBy(p, start, bit)
    {
      r := if Bit(r, 31) then Xor(Shl(r, 1), p) else Shl(r, 1);
      bit := bit + 1;
    }
  }

  method TableEntry(p: U32, i: nat) returns (r: U32)
    requires i < 256
    ensures r == Row(p, FromNat(i, 8))
  {
    IndexWord(i);
    r := DivideSteps(p, Shl(FromNat(i, 32), 24), 8);
  }

  method ChecksumTable(p: U32) returns (table: array<U32>)
    ensures fresh(table)
    ensures IsTable(p, table[..])
  {
    table := new U32[256](_ => Zeros(32));
    var i := 0;
    while i < 256
      invariant 0 <= i <= 256
      invariant forall k :: 0 <= k < i ==> table[k] == Row(p, FromNat(k, 8))
    {
      var r := TableEntry(p, i);
      table[i] := r;
      i := i + 1;
    }
  }

  lemma RowOfValue(p: U32, table: seq<U32>, v: U8)
    requires IsTable(p, table)
    ensures Value(v) < 256 && table[Value(v)] == Row(p, v)
  {
    ValueBound(v);
    assert Pow2(8) == 256;
    FromValue(v);
  }

  /** Adding a byte at the top splits the register into the table's key and the rest. */
  lemma TopByte(sum: U32, v: U8)
    ensures var key, low := Xor(Shr(sum, 24)[24..], v), sum[8..];
      && Xor(Zeros(8) + low, key + Zeros(24)) == Xor(sum, v + Zeros(24))
      && Zeros(0) + low + Zeros(8) == Shl(sum, 8)
  {
    assert Shr(sum, 24)[24..] == sum[..8];
  }

  lemma TableStep(p: U32, table: seq<U32>, sum: U32, v: U8)
    requires IsTable(p, table)
    ensures var key := Xor(Shr(sum, 24)[24..], v);
      Value(key) < 256 && Xor(Shl(sum, 8), table[Value(key)]) == Crc(p, sum, [v])
  {
    var key := Xor(Shr(sum, 24)[24..], v);
    var low := sum[8..];
    RowOfValue(p, table, key);
    SlideOut(p, 8, low, |v|);
    ShiftByXor(p, Zeros(8) + low, key + Zeros(24), |v|);
    TopByte(sum, v);
    FeedWord(p, sum, v);
    CrcOne(p, sum, v);
  }

  method TableForm(p: U32, table: array<U32>, initial: U32, data: seq<U8>) returns (sum: U32)
    requires IsTable(p, table[..])
    ensures sum == Crc(p, initial, data)
  {
    sum := initial;
    for k := 0 to |data|
      invariant sum == Crc(p, initial, data[..k])
    {
      var v := data[k];
      TableStep(p, table[..], sum, v);
      CrcAppend(p, initial, data[..k], [v]);
      assert data[..k + 1] == data[..k] + [v];
      sum := Xor(Shl(sum, 8), table[Value(Xor(Shr(sum, 24)[24..], v))]);
    }
    assert data[..|data|] == data;
  }

  // ----- the ARM CRC instructions, by their definition

  /** One bit of the reflected CRC: low end first. */
  function ReflectedShift(p: U32, r: U32): U32 {
    if Bit(r, 0) then Xor(Shr(r, 1), p) else Shr(r, 1)
  }

  function ReflectedShiftBy(p: U32, r: U32, n: nat): U32 {
    if n == 0 then r else ReflectedShift(p, ReflectedShiftBy(p, r, n - 1))
  }

  function Crc32b(p: U32, crc: U32, v: U8): U32 {
    ReflectedShiftBy(p, Xor(crc, Zeros(24) + v), 8)
  }

  /** `Crc32b` over the bytes of a wider operand, least significant byte first. */
  function Crc32Wide(p: U32, crc: U32, w: Bits): U32
    requires |w| % 8 == 0
    decreases |w|
  {
    if w == [] then crc else Crc32Wide(p, Crc32b(p, crc, w[|w| - 8..]), w[..|w| - 8])
  }

  function Crc32d(p: U32, crc: U32, w: U64): U32 {
    Crc32Wide(p, crc, w)
  }

  /** `from_le_bytes`: the first byte is the least significant one. */
  function FromLeBytes(bytes: seq<U8>): (w: Bits)
    ensures |w| == 8 * |bytes|
  {
    if bytes == [] then [] else FromLeBytes(bytes[1..]) + bytes[0]
  }

  function SwapBytes(w: Bits): (r: Bits)
    requires |w| % 8 == 0
    ensures |r| == |w|
  {
    if w == [] then [] else w[|w| - 8..] + SwapBytes(w[..|w| - 8])
  }

  /** The NEON per-byte bit reversal. */
  function ReverseEach(bytes: seq<U8>): (r: seq<U8>)
    ensures |r| == |bytes|
    ensures forall i :: 0 <= i < |r| ==> r[i] == ReverseBits(bytes[i])
  {
    seq(|bytes|, i requires 0 <= i < |bytes| => ReverseBits(bytes[i]))
  }

  lemma ReflectShift(p: U32, r: U32)
    ensures ReflectedShift(ReverseBits(p), ReverseBits(r)) == ReverseBits(Shift(p, r))
  {
    var x := Shl(r, 1);
    assert Shr(ReverseBits(r), 1) == ReverseBits(x);
    assert ReverseBits(Xor(x, p)) == Xor(ReverseBits(x), ReverseBits(p));
  }

  lemma {:induction false} ReflectShiftBy(p: U32, r: U32, n: nat)
    ensures ReflectedShiftBy(ReverseBits(p), ReverseBits(r), n) == ReverseBits(ShiftBy(p, r, n))
  {
    if n > 0 {
      ReflectShiftBy(p, r, n - 1);
      ReflectShift(p, ShiftBy(p, r, n - 1));
    }
  }

  lemma ReflectByte(p: U32, s: U32, v: U8)
    ensures Crc32b(ReverseBits(p), ReverseBits(s), ReverseBits(v)) == ReverseBits(Crc(p, s, [v]))
  {
    var x := Xor(s, v + Zeros(24));
    assert Xor(ReverseBits(s), Zeros(24) + ReverseBits(v)) == ReverseBits(x);
    ReflectShiftBy(p, x, 8);
    FeedWord(p, s, v);
    CrcOne(p, s, v);
  }

  /** A wide CRC instruction on bit-reversed bytes runs the unreflected checksum on the mirrored register. */
  lemma {:induction false} ReflectWide(p: U32, s: U32, bytes: seq<U8>)
    ensures Crc32Wide(ReverseBits(p), ReverseBits(s), FromLeBytes(ReverseEach(bytes))) == ReverseBits(Crc(p, s, bytes))
    decreases |bytes|
  {
    if bytes != [] {
      var v, rest := bytes[0], bytes[1..];
      var w := FromLeBytes(ReverseEach(bytes));
      assert ReverseEach(bytes)[1..] == ReverseEach(rest);
      assert w[..|w| - 8] == FromLeBytes(ReverseEach(rest)) && w[|w| - 8..] == ReverseBits(v);
      ReflectByte(p, s, v);
      ReflectWide(p, Crc(p, s, [v]), rest);
      CrcAppend(p, s, [v], rest);
      assert [v] + rest == bytes;
    }
  }

  lemma ReverseAppend(a: Bits, b: Bits)
    ensures ReverseBits(a + b) == ReverseBits(b) + ReverseBits(a)
  {}

  lemma ReverseEachTail(bytes: seq<U8>)
    requires bytes != []
    ensures ReverseEach(bytes)[1..] == ReverseEach(bytes[1..]) && ReverseEach(bytes)[0] == ReverseBits(bytes[0])
  {}

  /** Reversing all bits of a word and then its bytes reverses the bits of each byte. */
  lemma {:induction false} SwapReversed(bytes: seq<U8>)
    ensures SwapBytes(ReverseBits(FromLeBytes(bytes))) == FromLeBytes(ReverseEach(bytes))
  {
    if bytes != [] {
      var v, hi := bytes[0], FromLeBytes(bytes[1..]);
      SwapReversed(bytes[1..]);
      ReverseAppend(hi, v);
      SwapPrefix(ReverseBits(v), ReverseBits(hi));
      ReverseEachTail(bytes);
    }
  }

  lemma LastByte(v: U8, w: Bits)
    requires |w| >= 8
    ensures var m := |w| - 8; (v + w)[|v + w| - 8..] == w[m..] && (v + w)[..|v + w| - 8] == v + w[..m]
  {}

  lemma {:induction false} SwapPrefix(v: U8, w: Bits)
    requires |w| % 8 == 0
    ensures SwapBytes(v + w) == SwapBytes(w) + v
  {
    if w == [] {
      assert v + w == v && v[..0] == [] && v[0..] == v;
    } else {
      var m := |w| - 8;
      LastByte(v, w);
      SwapPrefix(v, w[..m]);
      Associate(w[m..], SwapBytes(w[..m]), v);
    }
  }

  // ----- the accelerated forms; `hw` is the generator the instructions use

  lemma ReverseTwice(w: Bits)
    ensures ReverseBits(ReverseBits(w)) == w
  {}

  method WordForm(ghost p: U32, hw: U32, initial: U32, data: seq<U8>) returns (sum: U32)
    requires hw == ReverseBits(p)
    ensures sum == Crc(p, initial, data)
  {
    var crc: U32 := ReverseBits(initial);
    var at := 0;
    while |data| - at >= 8
      invariant 0 <= at <= |data|
      invariant crc == ReverseBits(Crc(p, initial, data[..at]))
    {
      var chunk := data[at..at + 8];
      var word := FromLeBytes(chunk);
      SwapReversed(chunk);
      WideStep(p, initial, data, at, chunk);
      crc := Crc32d(hw, crc, SwapBytes(ReverseBits(word)));
      at := at + 8;
    }
    sum := Remainder(p, hw, initial, data, at, crc);
  }

  method NeonForm(ghost p: U32, hw: U32, initial: U32, data: seq<U8>) returns (sum: U32)
    requires hw == ReverseBits(p)
    ensures sum == Crc(p, initial, data)
  {
    var crc: U32 := ReverseBits(initial);
    var at := 0;
    while |data| - at >= 16
      invariant 0 <= at <= |data|
      invariant crc == ReverseBits(Crc(p, initial, data[..at]))
    {
      var bits := ReverseEach(data[at..at + 16]);
      assert bits[..8] == ReverseEach(data[at..at + 8]);
      assert bits[8..] == ReverseEach(data[at + 8..at + 16]);
      WideStep(p, initial, data, at, data[at..at + 8]);
      crc := Crc32d(hw, crc, FromLeBytes(bits[..8]));
      WideStep(p, initial, data, at + 8, data[at + 8..at + 16]);
      crc := Crc32d(hw, crc, FromLeBytes(bits[8..]));
      at := at + 16;
    }
    sum := Remainder(p, hw, initial, data, at, crc);
  }

  lemma WideStep(p: U32, initial: U32, data: seq<U8>, at: nat, chunk: seq<U8>)
    requires at + |chunk| <= |data| && chunk == data[at..at + |chunk|]
    ensures Crc32Wide(ReverseBits(p), ReverseBits(Crc(p, initial, data[..at])), FromLeBytes(ReverseEach(chunk)))
         == ReverseBits(Crc(p, initial, data[..at + |chunk|]))
  {
    assert data[..at + |chunk|] == data[..at] + chunk;
    CrcAppend(p, initial, data[..at], chunk);
    ReflectWide(p, Crc(p, initial, data[..at]), chunk);
  }

  /** The byte loop over what the chunks leave, and the final reversal. */
  method Remainder(ghost p: U32, hw: U32, initial: U32, data: seq<U8>, from: nat, start: U32) returns (sum: U32)
    requires hw == ReverseBits(p) && from <= |data|
    requires start == ReverseBits(Crc(p, initial, data[..from]))
    ensures sum == Crc(p, initial, data)
  {
    var crc := start;
    for k := from to |data|
      invariant crc == ReverseBits(Crc(p, initial, data[..k]))
    {
      var v := data[k];
      ReflectByte(p, Crc(p, initial, data[..k]), v);
      CrcAppend(p, initial, data[..k], [v]);
      assert data[..k + 1] == data[..k] + [v];
      crc := Crc32b(hw, crc, ReverseBits(v));
    }
    assert data[..|data|] == data;
    ReverseTwice(Crc(p, initial, data));
    sum := ReverseBits(crc);
  }
}
