/**
 What the checksum means. A bit sequence is a polynomial over GF(2), highest power
 first; a CRC of a message is the remainder of its polynomial, shifted up by 32
 powers, on division by the generator x^32 + p. From that: linearity, exactly which
 changes to a message go unnoticed, and that no change inside 32 consecutive bits does.
 */
module CrcAlgebra {
  import opened Sequences
  import opened Words
  import opened Crc32

  /** A polynomial of degree 32, leading coefficient included. */
  type Divisor = g: Bits | |g| == 33 && g[0] witness [true] + Zeros(32)

  /** One whose constant coefficient is one too. */
  type Generator = g: Divisor | g[32] witness [true] + Zeros(31) + [true]

  /** The product of `q` and `g`, by Horner's rule. */
  function Times(g: Divisor, q: Bits): (p: Bits)
    ensures |p| == |q| + 32
  {
    if q == [] then Zeros(32)
    else
      var m := |q| - 1;
      Xor(Times(g, q[..m]) + [false], Zeros(m) + Scaled(g, q[m]))
  }

  function Scaled(g: Divisor, b: bool): (p: Bits)
    ensures |p| == 33
  {
    if b then g else Zeros(33)
  }

  // ----- products

  lemma ScaledXor(g: Divisor, m: nat, a: bool, b: bool)
    ensures Xor(Zeros(m) + Scaled(g, a), Zeros(m) + Scaled(g, b)) == Zeros(m) + Scaled(g, a != b)
  {}

  lemma {:induction false} TimesXor(g: Divisor, a: Bits, b: Bits)
    requires |a| == |b|
    ensures Times(g, Xor(a, b)) == Xor(Times(g, a), Times(g, b))
  {
    if a == [] {
      XorZero(Zeros(32));
    } else {
      var m := |a| - 1;
      TimesXor(g, a[..m], b[..m]);
      assert Xor(a, b)[..m] == Xor(a[..m], b[..m]);
      var x, y := Times(g, a[..m]), Times(g, b[..m]);
      assert Xor(x + [false], y + [false]) == Xor(x, y) + [false];
      ScaledXor(g, m, a[m], b[m]);
      XorExchange(x + [false], Zeros(m) + Scaled(g, a[m]), y + [false], Zeros(m) + Scaled(g, b[m]));
    }
  }

  lemma {:induction false} TimesZero(g: Divisor, n: nat)
    ensures Times(g, Zeros(n)) == Zeros(n + 32)
  {
    if n > 0 {
      assert Zeros(n)[..n - 1] == Zeros(n - 1);
      TimesZero(g, n - 1);
    }
  }

  /** The leading coefficient of a product stands where that of the factor does. */
  lemma {:induction false} TimesLeading(g: Divisor, q: Bits, k: nat)
    requires k < |q| && q[..k] == Zeros(k)
    ensures Times(g, q)[..k] == Zeros(k) && Times(g, q)[k] == q[k]
  {
    var m := |q| - 1;
    var p := Times(g, q[..m]);
    if k < m {
      assert q[..m][..k] == q[..k];
      TimesLeading(g, q[..m], k);
      assert (p + [false])[..k] == Zeros(k);
    } else {
      assert q[..m] == Zeros(m);
      TimesZero(g, m);
      assert p + [false] == Zeros(m + 33);
    }
  }

  lemma {:induction false} TimesPadded(g: Divisor, q: Bits, k: nat)
    ensures Times(g, q + Zeros(k)) == Times(g, q) + Zeros(k)
  {
    if k == 0 {
      assert Zeros(0) == [];
      Nothing(q);
      Nothing(Times(g, q));
    } else {
      TimesPadded(g, q, k - 1);
      TimesShifted(g, q + Zeros(k - 1));
      PadMore(q, k);
      PadMore(Times(g, q), k);
    }
  }

  lemma PadMore(a: Bits, k: nat)
    requires k > 0
    ensures a + Zeros(k - 1) + [false] == a + Zeros(k)
  {}

  lemma TimesShifted(g: Divisor, q: Bits)
    ensures Times(g, q + [false]) == Times(g, q) + [false]
  {
    assert (q + [false])[..|q|] == q;
    assert Zeros(|q|) + Zeros(33) == Zeros(|q| + 33);
    XorZero(Times(g, q) + [false]);
  }

  /** The lowest coefficient of a product stands 32 places after that of the factor. */
  lemma TimesLowest(g: Generator, q: Bits, j: nat)
    requires j < |q| && q[j] && q[j + 1..] == Zeros(|q| - j - 1)
    ensures Times(g, q)[j + 32]
  {
    var u, k := q[..j + 1], |q| - j - 1;
    assert q == u + Zeros(k);
    TimesPadded(g, u, k);
    assert Times(g, u) == Xor(Times(g, u[..j]) + [false], Zeros(j) + g);
    assert (Zeros(j) + g)[j + 32];
  }

  /** The index of the first one, or the length when there is none. */
  lemma FirstOne(q: Bits) returns (k: nat)
    ensures k <= |q| && q[..k] == Zeros(k) && (k < |q| ==> q[k])
    ensures k == |q| ==> q == Zeros(|q|)
  {
    k := 0;
    while k < |q| && !q[k]
      invariant k <= |q| && q[..k] == Zeros(k)
    {
      k := k + 1;
    }
  }

  /** The index after the last one, or zero when there is none. */
  lemma LastOne(q: Bits) returns (k: nat)
    ensures k <= |q| && q[k..] == Zeros(|q| - k) && (k > 0 ==> q[k - 1])
    ensures forall i :: k <= i < |q| ==> !q[i]
  {
    k := |q|;
    while k > 0 && !q[k - 1]
      invariant k <= |q| && q[k..] == Zeros(|q| - k)
      invariant forall i :: k <= i < |q| ==> !q[i]
    {
      k := k - 1;
    }
  }

  /** Only the zero factor gives a product below degree 32. */
  lemma TimesSmall(g: Divisor, q: Bits)
    requires forall i :: 0 <= i < |q| ==> !Times(g, q)[i]
    ensures q == Zeros(|q|)
  {
    var k := FirstOne(q);
    if k < |q| {
      TimesLeading(g, q, k);
    }
  }

  // ----- division

  /** `p` divided by `g` has quotient `q` and remainder `r`. */
  ghost predicate IsDivision(g: Divisor, p: Bits, q: Bits, r: U32) {
    |p| == |q| + 32 && p == Xor(Times(g, q), Zeros(|q|) + r)
  }

  ghost predicate IsRemainder(g: Divisor, p: Bits, r: U32)
    requires |p| >= 32
  {
    exists q :: IsDivision(g, p, q, r)
  }

  lemma RemainderUnique(g: Divisor, p: Bits, q: Bits, r: U32, q': Bits, r': U32)
    requires IsDivision(g, p, q, r) && IsDivision(g, p, q', r')
    ensures q == q' && r == r'
  {
    var n := |q|;
    var x, y, u, v := Times(g, q), Zeros(n) + r, Times(g, q'), Zeros(n) + r';
    XorExchange(x, y, u, v);
    XorZero(p);
    XorSame(Xor(x, u), Xor(y, v));
    assert Xor(y, v) == Zeros(n) + Xor(r, r');
    TimesXor(g, q, q');
    TimesSmall(g, Xor(q, q'));
    XorSame(q, q');
    TimesZero(g, n);
    assert Xor(r, r') == (Zeros(n) + Xor(r, r'))[n..] == Zeros(32);
    XorSame(r, r');
  }

  /** The message raised by 32 powers, plus the initial register raised by the message length. */
  function Dividend(s: U32, bits: Bits): (p: Bits)
    ensures |p| == |bits| + 32
  {
    Xor(s + Zeros(|bits|), bits + Zeros(32))
  }

  lemma DividendSnoc(s: U32, u: Bits, b: bool)
    ensures Dividend(s, u + [b]) == Xor(Dividend(s, u) + [false], Zeros(|u|) + ([b] + Zeros(32)))
  {}

  /** One more coefficient brought down: the quotient grows by the bit that left the register. */
  lemma DivideStep(g: Divisor, p: Bits, q: Bits, r: U32, b: bool)
    requires IsDivision(g, p, q, r)
    ensures IsDivision(g, Xor(p + [false], Zeros(|q|) + ([b] + Zeros(32))), q + [r[0] != b], Feed(g[1..], r, b))
  {
    var t, m := r[0] != b, |q|;
    assert (q + [t])[..m] == q;
    var step := Zeros(m) + Scaled(g, t);
    var lhs := Xor(p + [false], Zeros(m) + ([b] + Zeros(32)));
    var rhs := Xor(Times(g, q + [t]), Zeros(m + 1) + Feed(g[1..], r, b));
    forall i | 0 <= i < m + 33 ensures lhs[i] == rhs[i] {
      assert Times(g, q + [t])[i] == ((Times(g, q) + [false])[i] != step[i]);
      if i == m {
        assert p[m] == (Times(g, q)[m] != r[0]);
      } else if i > m {
        assert step[i] == (t && g[1..][i - m - 1]);
        assert (Zeros(m + 1) + Feed(g[1..], r, b))[i] == Feed(g[1..], r, b)[i - m - 1];
        assert (p + [false])[i] == ((Times(g, q) + [false])[i] != (r + [false])[i - m]);
      }
    }
  }

  lemma DivisionStep(g: Divisor, s: U32, u: Bits, b: bool, q: Bits)
    requires IsDivision(g, Dividend(s, u), q, CrcBits(g[1..], s, u))
    ensures IsDivision(g, Dividend(s, u + [b]), q + [CrcBits(g[1..], s, u)[0] != b], CrcBits(g[1..], s, u + [b]))
  {
    DividendSnoc(s, u, b);
    DivideStep(g, Dividend(s, u), q, CrcBits(g[1..], s, u), b);
    assert (u + [b])[..|u|] == u;
  }

  /** Long division: the register after a message is a remainder of its dividend. */
  lemma {:induction false} Division(g: Divisor, s: U32, bits: Bits) returns (q: Bits)
    ensures |q| == |bits| && IsDivision(g, Dividend(s, bits), q, CrcBits(g[1..], s, bits))
  {
    if bits == [] {
      q := [];
      DivisionStart(g, s);
    } else {
      var m := |bits| - 1;
      q := Division(g, s, bits[..m]);
      DivisionStep(g, s, bits[..m], bits[m], q);
      assert bits == bits[..m] + [bits[m]];
      q := q + [CrcBits(g[1..], s, bits[..m])[0] != bits[m]];
    }
  }

  lemma DivisionStart(g: Divisor, s: U32)
    ensures IsDivision(g, Dividend(s, []), [], s)
  {
    XorZero(s);
    assert s + Zeros(0) == s && [] + Zeros(32) == Zeros(32) && Zeros(0) + s == s;
  }

  /** The register after a message is the remainder of its dividend, and nothing else is. */
  lemma CrcIsTheRemainder(g: Divisor, s: U32, bits: Bits, r: U32)
    ensures IsRemainder(g, Dividend(s, bits), r) <==> r == CrcBits(g[1..], s, bits)
  {
    var p := Dividend(s, bits);
    var q := Division(g, s, bits);
    if IsRemainder(g, p, r) {
      var q' :| IsDivision(g, p, q', r);
      RemainderUnique(g, p, q, CrcBits(g[1..], s, bits), q', r);
    }
  }

  // ----- linearity

  lemma FeedXor(p: U32, s: U32, t: U32, a: bool, b: bool)
    ensures Feed(p, Xor(s, t), a != b) == Xor(Feed(p, s, a), Feed(p, t, b))
  {
    FeedIsShift(p, s, a);
    FeedIsShift(p, t, b);
    FeedIsShift(p, Xor(s, t), a != b);
    var x, y := [a] + Zeros(31), [b] + Zeros(31);
    ShiftXor(p, Xor(s, x), Xor(t, y));
    XorExchange(s, x, t, y);
    assert Xor(x, y) == [a != b] + Zeros(31);
  }

  lemma {:induction false} CrcXor(p: U32, s: U32, t: U32, a: Bits, b: Bits)
    requires |a| == |b|
    ensures CrcBits(p, Xor(s, t), Xor(a, b)) == Xor(CrcBits(p, s, a), CrcBits(p, t, b))
  {
    if a != [] {
      var m := |a| - 1;
      CrcXor(p, s, t, a[..m], b[..m]);
      assert Xor(a, b)[..m] == Xor(a[..m], b[..m]);
      FeedXor(p, CrcBits(p, s, a[..m]), CrcBits(p, t, b[..m]), a[m], b[m]);
    }
  }

  // ----- which changes go unnoticed

  /** `e` is a multiple of `g`. */
  ghost predicate IsMultiple(g: Divisor, e: Bits) {
    exists q :: |q| + 32 == |e| && Times(g, q) == e
  }

  /** A factor whose product ends in 32 zeros ends in 32 zeros itself, or is zero. */
  lemma FactorPadded(g: Generator, q: Bits) returns (k: nat)
    requires forall i :: |q| <= i < |q| + 32 ==> !Times(g, q)[i]
    ensures k <= |q| && q == q[..k] + Zeros(|q| - k) && (k == 0 || k + 32 <= |q|)
  {
    k := LastOne(q);
    if k > 0 {
      TimesLowest(g, q, k - 1);
    }
  }

  lemma MultipleOfPadded(g: Divisor, e: Bits, q: Bits, k: nat)
    requires |q| == |e| >= 32 && k + 32 <= |q| && q == q[..k] + Zeros(|q| - k) && Times(g, q) == e + Zeros(32)
    ensures IsMultiple(g, e)
  {
    var d := q[..|q| - 32];
    assert q == d + Zeros(32);
    TimesPadded(g, d, 32);
    assert Times(g, d) == (Times(g, d) + Zeros(32))[..|e|] == e;
  }

  /** A zero remainder, read off the quotient. */
  lemma ZeroDivision(g: Generator, e: Bits, q: Bits)
    requires IsDivision(g, e + Zeros(32), q, Zeros(32))
    ensures e == Zeros(|e|) || IsMultiple(g, e)
  {
    var n := |e|;
    assert Zeros(n) + Zeros(32) == Zeros(n + 32);
    XorZero(Times(g, q));
    assert forall i :: n <= i < n + 32 ==> !(e + Zeros(32))[i];
    var k := FactorPadded(g, q);
    if k > 0 {
      MultipleOfPadded(g, e, q, k);
    } else {
      assert q == Zeros(n);
      TimesZero(g, n);
      assert e == (e + Zeros(32))[..n] == Zeros(n);
    }
  }

  lemma DivisionZero(g: Divisor, e: Bits, q: Bits, r: U32)
    requires e == Zeros(|e|) || IsMultiple(g, e)
    requires IsDivision(g, e + Zeros(32), q, r)
    ensures r == Zeros(32)
  {
    var d := Zeros(|e|);
    if e == Zeros(|e|) {
      TimesZero(g, |e|);
      assert e + Zeros(32) == Zeros(|e| + 32);
    } else {
      var c :| |c| + 32 == |e| && Times(g, c) == e;
      TimesPadded(g, c, 32);
      d := c + Zeros(32);
    }
    XorZero(Times(g, d));
    assert Zeros(|d|) + Zeros(32) == Zeros(|d| + 32);
    RemainderUnique(g, e + Zeros(32), q, r, d, Zeros(32));
  }

  lemma ZeroRemainder(g: Generator, e: Bits)
    ensures CrcBits(g[1..], Zeros(32), e) == Zeros(32) <==> e == Zeros(|e|) || IsMultiple(g, e)
  {
    assert Dividend(Zeros(32), e) == e + Zeros(32);
    var q := Division(g, Zeros(32), e);
    if CrcBits(g[1..], Zeros(32), e) == Zeros(32) {
      ZeroDivision(g, e, q);
    } else if e == Zeros(|e|) || IsMultiple(g, e) {
      DivisionZero(g, e, q, CrcBits(g[1..], Zeros(32), e));
    }
  }

  lemma SameIffZero(a: Bits, b: Bits)
    requires |a| == |b|
    ensures a == b <==> Xor(a, b) == Zeros(|a|)
  {
    if a == b { XorZero(a); }
    if Xor(a, b) == Zeros(|a|) { XorSame(a, b); }
  }

  /**
   Two messages of one length collide, from any initial register, exactly when they are
   equal or their difference is a multiple of the generator.
   */
  lemma Collision(g: Generator, s: U32, a: Bits, b: Bits)
    requires |a| == |b|
    ensures CrcBits(g[1..], s, a) == CrcBits(g[1..], s, b) <==> a == b || IsMultiple(g, Xor(a, b))
  {
    XorZero(s);
    CrcXor(g[1..], s, s, a, b);
    ZeroRemainder(g, Xor(a, b));
    SameIffZero(a, b);
    SameIffZero(CrcBits(g[1..], s, a), CrcBits(g[1..], s, b));
  }

  /** A non-zero multiple of the generator has two ones at least 32 places apart. */
  lemma MultipleSpan(g: Generator, e: Bits) returns (i: nat, j: nat)
    requires IsMultiple(g, e) && e != Zeros(|e|)
    ensures i + 32 <= j < |e| && e[i] && e[j]
  {
    var q :| |q| + 32 == |e| && Times(g, q) == e;
    TimesZero(g, |q|);
    i, j := ProductSpan(g, q);
  }

  lemma ProductSpan(g: Generator, q: Bits) returns (i: nat, j: nat)
    requires q != Zeros(|q|)
    ensures i + 32 <= j < |q| + 32 && Times(g, q)[i] && Times(g, q)[j]
  {
    i := FirstOne(q);
    TimesLeading(g, q, i);
    var k := LastOne(q);
    TimesLowest(g, q, k - 1);
    j := k + 31;
  }

  ghost predicate AgreeOutside(a: Bits, b: Bits, from: nat, to: nat) {
    |a| == |b| && forall i :: 0 <= i < |a| && !(from <= i < to) ==> a[i] == b[i]
  }

  /** Any change inside 32 consecutive bits changes the checksum. */
  lemma BurstDetected(g: Generator, s: U32, a: Bits, b: Bits, from: nat)
    requires AgreeOutside(a, b, from, from + 32) && a != b
    ensures CrcBits(g[1..], s, a) != CrcBits(g[1..], s, b)
  {
    Collision(g, s, a, b);
    SameIffZero(a, b);
    if IsMultiple(g, Xor(a, b)) {
      var i, j := MultipleSpan(g, Xor(a, b));
    }
  }

  lemma GeneratorAlone(g: Divisor, from: nat, k: nat)
    ensures IsMultiple(g, Zeros(from) + g + Zeros(k))
  {
    var u := Zeros(from) + [true];
    assert u[..from] == Zeros(from);
    TimesZero(g, from);
    assert Zeros(from + 32) + [false] == Zeros(from + 33);
    XorZero(Zeros(from) + g);
    TimesPadded(g, u, k);
    assert |u + Zeros(k)| + 32 == |Zeros(from) + g + Zeros(k)|;
  }

  /** Adding the generator itself, 33 bits wide, anywhere in a message goes unnoticed: 32 is the limit. */
  lemma BurstLimit(g: Generator, s: U32, a: Bits, from: nat)
    requires from + 33 <= |a|
    ensures var b := Xor(a, Zeros(from) + g + Zeros(|a| - from - 33));
      a != b && AgreeOutside(a, b, from, from + 33) && CrcBits(g[1..], s, a) == CrcBits(g[1..], s, b)
  {
    var e := Zeros(from) + g + Zeros(|a| - from - 33);
    var b := Xor(a, e);
    GeneratorAlone(g, from, |a| - from - 33);
    assert Xor(a, b) == e;
    assert e[from] && b[from] != a[from];
    Collision(g, s, a, b);
  }

  // ----- the same for bytes

  lemma {:induction false} MessageBitAt(data: seq<U8>, k: nat, i: nat)
    requires k < |data| && i < 8
    ensures MessageBits(data)[8 * k + i] == data[k][i]
  {
    var m := |data| - 1;
    if k < m {
      MessageBitAt(data[..m], k, i);
    }
  }

  /** Inputs of one length that differ only inside four consecutive bytes have different checksums. */
  lemma ByteBurstDetected(g: Generator, s: U32, a: seq<U8>, b: seq<U8>, from: nat)
    requires |a| == |b| && a != b
    requires forall k :: 0 <= k < |a| && !(from <= k < from + 4) ==> a[k] == b[k]
    ensures Crc(g[1..], s, a) != Crc(g[1..], s, b)
  {
    var x, y := MessageBits(a), MessageBits(b);
    forall n | 0 <= n < |x| && !(8 * from <= n < 8 * from + 32)
      ensures x[n] == y[n]
    {
      MessageBitAt(a, n / 8, n % 8);
      MessageBitAt(b, n / 8, n % 8);
    }
    var k :| 0 <= k < |a| && a[k] != b[k];
    var i :| 0 <= i < 8 && a[k][i] != b[k][i];
    MessageBitAt(a, k, i);
    MessageBitAt(b, k, i);
    BurstDetected(g, s, x, y, 8 * from);
  }
}
