/**
 Fixed-width machine words as their bits, most significant bit first. Every operation
 is the one Rust defines on `u8`, `u32` and `u64`: shifts drop the bits that leave the
 word and fill with zeros, and a shift distance is always below the width.
 */
module Words {
  type Bits = seq<bool>

  type U8 = w: Bits | |w| == 8 witness seq(8, _ => false)
  type U32 = w: Bits | |w| == 32 witness seq(32, _ => false)
  type U64 = w: Bits | |w| == 64 witness seq(64, _ => false)

  function Zeros(n: nat): (w: Bits)
    ensures |w| == n && forall i :: 0 <= i < n ==> !w[i]
  {
    seq(n, _ => false)
  }

  function Ones(n: nat): (w: Bits)
    ensures |w| == n && forall i :: 0 <= i < n ==> w[i]
  {
    seq(n, _ => true)
  }

  function Xor(a: Bits, b: Bits): (w: Bits)
    requires |a| == |b|
    ensures |w| == |a| && forall i :: 0 <= i < |a| ==> w[i] == (a[i] != b[i])
  {
    seq(|a|, i requires 0 <= i < |a| => a[i] != b[i])
  }

  function And(a: Bits, b: Bits): (w: Bits)
    requires |a| == |b|
    ensures |w| == |a| && forall i :: 0 <= i < |a| ==> w[i] == (a[i] && b[i])
  {
    seq(|a|, i requires 0 <= i < |a| => a[i] && b[i])
  }

  function Not(a: Bits): (w: Bits)
    ensures |w| == |a| && forall i :: 0 <= i < |a| ==> w[i] == !a[i]
  {
    seq(|a|, i requires 0 <= i < |a| => !a[i])
  }

  function Shl(a: Bits, n: nat): (w: Bits)
    requires n < |a|
    ensures |w| == |a|
  {
    a[n..] + Zeros(n)
  }

  function Shr(a: Bits, n: nat): (w: Bits)
    requires n < |a|
    ensures |w| == |a|
  {
    Zeros(n) + a[..|a| - n]
  }

  function ReverseBits(a: Bits): (w: Bits)
    ensures |w| == |a| && forall i :: 0 <= i < |a| ==> w[i] == a[|a| - 1 - i]
  {
    seq(|a|, i requires 0 <= i < |a| => a[|a| - 1 - i])
  }

  /** Bit `k` of a word, counting from the least significant. */
  predicate Bit(a: Bits, k: nat)
    requires k < |a|
  {
    a[|a| - 1 - k]
  }

  function CountOnes(a: Bits): nat {
    if a == [] then 0 else (if a[0] then 1 else 0) + CountOnes(a[1..])
  }

  // ----- words and numbers

  function Value(a: Bits): nat {
    if a == [] then 0 else 2 * Value(a[..|a| - 1]) + if a[|a| - 1] then 1 else 0
  }

  /** The low `n` bits of `v`. */
  function FromNat(v: nat, n: nat): (w: Bits)
    ensures |w| == n
    decreases n, v
  {
    if n == 0 then [] else FromNat(v / 2, n - 1) + [v % 2 == 1]
  }

  function Nibble(c: char): (w: Bits)
    ensures |w| == 4
  {
    match c
    case '0' => [false, false, false, false]
    case '1' => [false, false, false, true]
    case '2' => [false, false, true, false]
    case '3' => [false, false, true, true]
    case '4' => [false, true, false, false]
    case '5' => [false, true, false, true]
    case '6' => [false, true, true, false]
    case '7' => [false, true, true, true]
    case '8' => [true, false, false, false]
    case '9' => [true, false, false, true]
    case 'a' => [true, false, true, false]
    case 'b' => [true, false, true, true]
    case 'c' => [true, true, false, false]
    case 'd' => [true, true, false, true]
    case 'e' => [true, true, true, false]
    case _ => [true, true, true, true]
  }

  /** A hexadecimal constant, four bits to the digit. */
  function Hex(digits: string): (w: Bits)
    ensures |w| == 4 * |digits|
  {
    if digits == "" then [] else Nibble(digits[0]) + Hex(digits[1..])
  }

  function Pow2(n: nat): (p: nat)
    ensures p > 0
  {
    if n == 0 then 1 else 2 * Pow2(n - 1)
  }

  lemma {:induction false} ValueBound(a: Bits)
    ensures Value(a) < Pow2(|a|)
  {
    if a != [] {
      ValueBound(a[..|a| - 1]);
    }
  }

  /** A word is determined by its value. */
  lemma {:induction false} FromValue(a: Bits)
    ensures FromNat(Value(a), |a|) == a
  {
    if a != [] {
      var hi := a[..|a| - 1];
      FromValue(hi);
      assert Value(a) / 2 == Value(hi) && (Value(a) % 2 == 1) == a[|a| - 1];
      assert hi + [a[|a| - 1]] == a;
    }
  }

  /** Leading zeros appear when a small number is widened. */
  lemma {:induction false} FromNatWiden(v: nat, n: nat, k: nat)
    requires v < Pow2(n)
    ensures FromNat(v, k + n) == Zeros(k) + FromNat(v, n)
    decreases n + k
  {
    if n > 0 {
      FromNatWiden(v / 2, n - 1, k);
    } else if k > 0 {
      FromNatWiden(0, 0, k - 1);
      assert Zeros(k) == Zeros(k - 1) + [false];
    }
  }

  // ----- XOR as addition of coefficient sequences

  lemma XorZero(a: Bits)
    ensures Xor(a, Zeros(|a|)) == a
    ensures Xor(Zeros(|a|), a) == a
    ensures Xor(a, a) == Zeros(|a|)
  {}

  lemma XorExchange(a: Bits, b: Bits, c: Bits, d: Bits)
    requires |a| == |b| == |c| == |d|
    ensures Xor(Xor(a, b), Xor(c, d)) == Xor(Xor(a, c), Xor(b, d))
  {}

  lemma XorSame(a: Bits, b: Bits)
    requires |a| == |b| && Xor(a, b) == Zeros(|a|)
    ensures a == b
  {
    forall i | 0 <= i < |a| ensures a[i] == b[i] {
      assert !Xor(a, b)[i];
    }
  }
}
