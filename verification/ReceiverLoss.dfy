/**
 Counting lost packets in the receiver's cyclic bitmap: bit `seq % capacity` is clear
 when packet `seq` was not received. The per-bit walk and the word-at-a-time count are
 both specified by `Walk`.
 */
module ReceiverLoss {
  import opened Arithmetic
  import opened Words

  const U16_RANGE: nat := 65536

  /** Bitwise AND of unsigned integers. */
  function BitAnd(x: nat, y: nat): nat {
    if x == 0 || y == 0 then 0 else 2 * BitAnd(x / 2, y / 2) + if x % 2 == 1 && y % 2 == 1 then 1 else 0
  }

  predicate IsPowerOfTwo(n: nat) {
    n == 1 || (n > 1 && n % 2 == 0 && IsPowerOfTwo(n / 2))
  }

  /** The packet of bitmap position `pos` is missing. */
  predicate Missing(bits: seq<U64>, pos: nat)
    requires pos < 64 * |bits|
  {
    !Bit(bits[pos / 64], pos % 64)
  }

  /** How many of the `count` sequence numbers from `start` on are missing, each looked up cyclically. */
  function Walk(bits: seq<U64>, start: nat, count: nat): (lost: nat)
    requires |bits| > 0
    ensures lost <= count
  {
    if count == 0 then 0
    else Walk(bits, start, count - 1) + if Missing(bits, (start + count - 1) % (64 * |bits|)) then 1 else 0
  }

  /** The same over a stretch that does not wrap. */
  function Stretch(bits: seq<U64>, from: nat, n: nat): nat
    requires from + n <= 64 * |bits|
  {
    if n == 0 then 0 else Stretch(bits, from, n - 1) + if Missing(bits, from + n - 1) then 1 else 0
  }

  // ----- index masks

  lemma {:induction false} MaskIsModulo(x: nat, n: nat)
    requires IsPowerOfTwo(n)
    ensures BitAnd(x, n - 1) == x % n
    decreases n
  {
    if n > 1 {
      MaskIsModulo(x / 2, n / 2);
      MaskStep(x / 2, x % 2, n / 2);
    }
  }

  lemma BitAndOdd(x: nat, b: nat, y: nat)
    requires b < 2
    ensures BitAnd(2 * x + b, 2 * y + 1) == 2 * BitAnd(x, y) + b
  {
    var u, v := 2 * x + b, 2 * y + 1;
    assert u / 2 == x && v / 2 == y && u % 2 == b && v % 2 == 1;
  }

  lemma MaskStep(y: nat, b: nat, h: nat)
    requires h > 0 && b < 2 && BitAnd(y, h - 1) == y % h
    ensures BitAnd(2 * y + b, 2 * h - 1) == (2 * y + b) % (2 * h)
  {
    BitAndOdd(y, b, h - 1);
    assert 2 * (h - 1) + 1 == 2 * h - 1;
    HalfModulo(y, b, h);
  }

  lemma HalfModulo(y: nat, b: nat, h: nat)
    requires h > 0 && b < 2
    ensures (2 * y + b) % (2 * h) == 2 * (y % h) + b
  {
    var q, r := y / h, y % h;
    assert y == q * h + r;
    assert q * (2 * h) == 2 * (q * h);
    DivModUnique(2 * y + b, 2 * h, q, 2 * r + b);
  }

  /** A power of two up to 65536 divides it. */
  lemma {:induction false} DividesRange(n: nat, m: nat)
    requires IsPowerOfTwo(n) && IsPowerOfTwo(m) && n <= m
    ensures m % n == 0
    decreases n
  {
    if n > 1 {
      DividesRange(n / 2, m / 2);
      HalfModulo(m / 2, m % 2, n / 2);
    }
  }

  lemma WrapAt(x: nat, n: nat, m: nat)
    requires IsPowerOfTwo(n) && IsPowerOfTwo(m) && n <= m
    ensures (x % m) % n == x % n
  {
    DividesRange(n, m);
    ExactQuotient(m, n);
    ModuloModulo(x, m / n, n);
  }

  lemma ExactQuotient(m: nat, n: nat)
    requires 0 < n <= m && m % n == 0
    ensures m == (m / n) * n && m / n > 0
  {}

  /** Wrapping a sequence number at 16 bits does not move its bitmap position. */
  lemma WrapKeepsPosition(x: nat, n: nat)
    requires IsPowerOfTwo(n) && n <= U16_RANGE
    ensures (x % U16_RANGE) % n == x % n
  {
    RangeIsPower();
    WrapAt(x, n, 65536);
  }

  lemma ModuloModulo(x: nat, k: nat, n: nat)
    requires k > 0 && n > 0 && k * n > 0
    ensures (x % (k * n)) % n == x % n
  {
    var m := k * n;
    var q, y := x / m, x % m;
    assert x == q * m + y;
    TripleProduct(q, k, n);
    DropMultiple(q * k, n, y);
  }

  lemma TripleProduct(q: nat, k: nat, n: nat)
    ensures (q * k) * n == q * (k * n)
  {}

  lemma RangeIsPower()
    ensures IsPowerOfTwo(65536)
  {
    assert IsPowerOfTwo(16);
    assert IsPowerOfTwo(256);
    assert IsPowerOfTwo(4096);
  }

  // ----- the walk in stretches

  lemma StepWithin(x: nat, c: nat, k: nat)
    requires c > 0
    ensures x % c + k < c ==> (x + k) % c == x % c + k
    ensures x % c + k == c ==> (x + k) % c == 0
  {
    assert x == (x / c) * c + x % c;
    if x % c + k < c {
      DivModUnique(x + k, c, x / c, x % c + k);
    } else if x % c + k == c {
      assert (x / c + 1) * c == (x / c) * c + c;
      DivModUnique(x + k, c, x / c + 1, 0);
    }
  }

  /** A walk goes on through the bitmap without wrapping as long as it stays below the end. */
  lemma {:induction false} WalkOn(bits: seq<U64>, start: nat, done: nat, at: nat, n: nat)
    requires |bits| > 0 && at == (start + done) % (64 * |bits|) && at + n <= 64 * |bits|
    ensures Walk(bits, start, done + n) == Walk(bits, start, done) + Stretch(bits, at, n)
  {
    if n > 0 {
      WalkOn(bits, start, done, at, n - 1);
      BothStep(bits, start, done, at, n - 1);
    }
  }

  /** One step further, both ways. */
  lemma BothStep(bits: seq<U64>, start: nat, done: nat, at: nat, k: nat)
    requires |bits| > 0 && at == (start + done) % (64 * |bits|) && at + k < 64 * |bits|
    ensures Walk(bits, start, done + k + 1) - Walk(bits, start, done + k) ==
      Stretch(bits, at, k + 1) - Stretch(bits, at, k)
  {
    StepWithin(start + done, 64 * |bits|, k);
    assert start + (done + k) == start + done + k;
    WalkStep(bits, start, done + k, at + k);
    StretchStep(bits, at, k);
  }

  lemma StretchStep(bits: seq<U64>, from: nat, n: nat)
    requires from + n < 64 * |bits|
    ensures Stretch(bits, from, n + 1) == Stretch(bits, from, n) + if Missing(bits, from + n) then 1 else 0
  {}

  lemma WalkStep(bits: seq<U64>, start: nat, done: nat, at: nat)
    requires |bits| > 0 && at == (start + done) % (64 * |bits|)
    ensures Walk(bits, start, done + 1) == Walk(bits, start, done) + if Missing(bits, at) then 1 else 0
  {}

  lemma {:induction false} StretchSplit(bits: seq<U64>, from: nat, m: nat, n: nat)
    requires from + m + n <= 64 * |bits|
    ensures Stretch(bits, from, m + n) == Stretch(bits, from, m) + Stretch(bits, from + m, n)
  {
    if n > 0 {
      StretchSplit(bits, from, m, n - 1);
    }
  }

  lemma {:induction false} WalkChain(bits: seq<U64>, start: nat, m: nat, n: nat)
    requires |bits| > 0
    ensures Walk(bits, start, m + n) == Walk(bits, start, m) + Walk(bits, start + m, n)
  {
    if n > 0 {
      WalkChain(bits, start, m, n - 1);
    }
  }

  lemma {:induction false} WalkPeriodic(bits: seq<U64>, start: nat, n: nat)
    requires |bits| > 0
    ensures Walk(bits, start + 64 * |bits|, n) == Walk(bits, start, n)
  {
    if n > 0 {
      WalkPeriodic(bits, start, n - 1);
      DropMultiple(1, 64 * |bits|, start + n - 1);
    }
  }

  /** From anywhere, one lap sees every bit once. */
  lemma Lap(bits: seq<U64>, start: nat)
    requires |bits| > 0
    ensures Walk(bits, start, 64 * |bits|) == Stretch(bits, 0, 64 * |bits|)
  {
    var c := 64 * |bits|;
    var p := start % c;
    WalkOn(bits, start, 0, p, c - p);
    StepWithin(start, c, c - p);
    WalkOn(bits, start, c - p, 0, p);
    StretchSplit(bits, 0, p, c - p);
    assert 0 + (c - p) == c - p && c - p + p == c && p + (c - p) == c && 0 + p == p;
  }

  /** A range longer than the bitmap counts every bit once per lap, and then the rest. */
  lemma {:induction false} Laps(bits: seq<U64>, start: nat, laps: nat, rest: nat)
    requires |bits| > 0
    ensures Walk(bits, start, laps * (64 * |bits|) + rest) ==
      laps * Stretch(bits, 0, 64 * |bits|) + Walk(bits, start, rest)
  {
    var c, total := 64 * |bits|, Stretch(bits, 0, 64 * |bits|);
    if laps > 0 {
      Laps(bits, start, laps - 1, rest);
      OneMore(laps, c);
      OneMore(laps, total);
      LapFirst(bits, start, (laps - 1) * c + rest);
    }
  }

  lemma OneMore(k: nat, c: nat)
    requires k > 0
    ensures k * c == (k - 1) * c + c
  {}

  lemma LapFirst(bits: seq<U64>, start: nat, more: nat)
    requires |bits| > 0
    ensures Walk(bits, start, 64 * |bits| + more) == Stretch(bits, 0, 64 * |bits|) + Walk(bits, start, more)
  {
    WalkChain(bits, start, 64 * |bits|, more);
    WalkPeriodic(bits, start, more);
    Lap(bits, start);
  }

  // ----- counting inside one word

  /** Clear bits of a word among the `n` from bit `lo` upwards. */
  function ClearBits(w: U64, lo: nat, n: nat): nat
    requires lo + n <= 64
  {
    if n == 0 then 0 else ClearBits(w, lo, n - 1) + if !Bit(w, lo + n - 1) then 1 else 0
  }

  lemma {:induction false} CountOnesAppend(a: Bits, b: Bits)
    ensures CountOnes(a + b) == CountOnes(a) + CountOnes(b)
  {
    if a == [] {
      assert a + b == b;
    } else {
      assert (a + b)[1..] == a[1..] + b;
      CountOnesAppend(a[1..], b);
    }
  }

  lemma {:induction false} CountOnesZeros(n: nat)
    ensures CountOnes(Zeros(n)) == 0
  {
    if n > 0 {
      assert Zeros(n)[1..] == Zeros(n - 1);
      CountOnesZeros(n - 1);
    }
  }

  lemma {:induction false} CountClear(w: U64, lo: nat, n: nat)
    requires lo + n <= 64
    ensures CountOnes(Not(w)[64 - lo - n..64 - lo]) == ClearBits(w, lo, n)
  {
    if n > 0 {
      CountClear(w, lo, n - 1);
      var u := Not(w)[64 - lo - n..64 - lo];
      assert u[1..] == Not(w)[64 - lo - (n - 1)..64 - lo];
      assert u[0] == !Bit(w, lo + n - 1);
    }
  }

  lemma MaskBits(lo: nat, n: nat)
    requires 0 < n && lo < 64 && lo + n <= 64
    ensures Shl(Shr(Ones(64), 64 - n), lo) == Zeros(64 - lo - n) + Ones(n) + Zeros(lo)
  {
    assert Shr(Ones(64), 64 - n) == Zeros(64 - n) + Ones(n);
    assert (Zeros(64 - n) + Ones(n))[lo..] == Zeros(64 - lo - n) + Ones(n);
  }

  /** The mask of `n` ones shifted up by `lo` keeps exactly those bits. */
  lemma MaskedClear(w: U64, lo: nat, n: nat)
    requires 0 < n && lo < 64 && lo + n <= 64
    ensures CountOnes(And(Not(w), Shl(Shr(Ones(64), 64 - n), lo))) == ClearBits(w, lo, n)
  {
    var u := Not(w)[64 - lo - n..64 - lo];
    MaskBits(lo, n);
    assert And(Not(w), Zeros(64 - lo - n) + Ones(n) + Zeros(lo)) == Zeros(64 - lo - n) + u + Zeros(lo);
    CountOnesAppend(Zeros(64 - lo - n) + u, Zeros(lo));
    CountOnesAppend(Zeros(64 - lo - n), u);
    CountOnesZeros(64 - lo - n);
    CountOnesZeros(lo);
    CountClear(w, lo, n);
  }

  lemma {:induction false} StretchInWord(bits: seq<U64>, from: nat, i: nat, lo: nat, n: nat)
    requires i < |bits| && from == 64 * i + lo && lo + n <= 64
    ensures Stretch(bits, from, n) == ClearBits(bits[i], lo, n)
  {
    if n > 0 {
      StretchInWord(bits, from, i, lo, n - 1);
      var pos := from + n - 1;
      assert pos / 64 == i && pos % 64 == lo + n - 1;
    }
  }

  function ClearWords(words: seq<U64>): nat {
    if words == [] then 0 else ClearWords(words[..|words| - 1]) + CountOnes(Not(words[|words| - 1]))
  }

  lemma {:induction false} StretchOfWords(bits: seq<U64>, i: nat, full: nat)
    requires i + full <= |bits|
    ensures Stretch(bits, 64 * i, 64 * full) == ClearWords(bits[i..i + full])
  {
    if full > 0 {
      var words, k := bits[i..i + full], i + full - 1;
      assert words[..full - 1] == bits[i..k];
      StretchOfWords(bits, i, full - 1);
      StretchSplit(bits, 64 * i, 64 * (full - 1), |bits[k]|);
      StretchOfWord(bits, k);
      assert 64 * i + 64 * (full - 1) == 64 * k && 64 * (full - 1) + |bits[k]| == 64 * full;
    }
  }

  lemma StretchOfWord(bits: seq<U64>, k: nat)
    requires k < |bits|
    ensures Stretch(bits, 64 * k, |bits[k]|) == CountOnes(Not(bits[k]))
  {
    StretchInWord(bits, 64 * k, k, 0, |bits[k]|);
    AllClear(bits[k]);
  }

  lemma AllClear(w: U64)
    ensures ClearBits(w, 0, |w|) == CountOnes(Not(w))
  {
    CountClear(w, 0, |w|);
    var n := |Not(w)|;
    assert Not(w)[0..n] == Not(w);
  }

  // ----- the two counts

  lemma {:induction false} BitAndBound(x: nat, y: nat)
    ensures BitAnd(x, y) <= y
  {
    if x != 0 && y != 0 {
      BitAndBound(x / 2, y / 2);
    }
  }

  /** The walk as the masked index makes it, for a bitmap of any size. */
  function MaskedWalk(bits: seq<U64>, start: nat, count: nat): nat
    requires |bits| > 0
  {
    if count == 0 then 0
    else
      var pos := BitAnd((start + count - 1) % U16_RANGE, 64 * |bits| - 1);
      BitAndBound((start + count - 1) % U16_RANGE, 64 * |bits| - 1);
      MaskedWalk(bits, start, count - 1) + if Missing(bits, pos) then 1 else 0
  }

  lemma {:induction false} MaskedWalkIsWalk(bits: seq<U64>, start: nat, count: nat)
    requires IsPowerOfTwo(64 * |bits|) && 64 * |bits| <= U16_RANGE
    ensures MaskedWalk(bits, start, count) == Walk(bits, start, count)
  {
    if count > 0 {
      MaskedWalkIsWalk(bits, start, count - 1);
      MaskIsModulo((start + count - 1) % U16_RANGE, 64 * |bits|);
      WrapKeepsPosition(start + count - 1, 64 * |bits|);
    }
  }

  lemma WrapNext(x: nat)
    ensures (x % U16_RANGE + 1) % U16_RANGE == (x + 1) % U16_RANGE
  {}

  lemma MaskedStep(bits: seq<U64>, start: nat, k: nat, pos: nat)
    requires |bits| > 0 && pos == BitAnd((start + k) % U16_RANGE, 64 * |bits| - 1)
    ensures pos < 64 * |bits|
    ensures MaskedWalk(bits, start, k + 1) == MaskedWalk(bits, start, k) + if Missing(bits, pos) then 1 else 0
  {
    BitAndBound((start + k) % U16_RANGE, 64 * |bits| - 1);
  }

  method LossPerBit(bits: seq<U64>, start: nat, count: nat) returns (lost: nat)
    requires |bits| > 0 && start < U16_RANGE && count < U16_RANGE
    ensures lost == MaskedWalk(bits, start, count)
  {
    var indexMask := |bits| * 64 - 1;
    lost := 0;
    var seqNo := start;
    for k := 0 to count
      invariant seqNo == (start + k) % U16_RANGE
      invariant lost == MaskedWalk(bits, start, k)
    {
      var pos := BitAnd(seqNo, indexMask);
      MaskedStep(bits, start, k, pos);
      if !Bit(bits[pos / 64], pos % 64) {
        lost := lost + 1;
      }
      WrapNext(start + k);
      seqNo := (seqNo + 1) % U16_RANGE;
    }
  }

  lemma PartialWord(bits: seq<U64>, from: nat, n: nat)
    requires 0 < n && from % 64 + n <= 64 && from + n <= 64 * |bits|
    ensures CountOnes(And(Not(bits[from / 64]), Shl(Shr(Ones(64), 64 - n), from % 64))) == Stretch(bits, from, n)
  {
    MaskedClear(bits[from / 64], from % 64, n);
    StretchInWord(bits, from, from / 64, from % 64, n);
  }

  lemma WholeWords(bits: seq<U64>, i: nat, full: nat, tail: nat)
    requires 64 * i + 64 * full + tail <= 64 * |bits|
    ensures i + full <= |bits|
    ensures Stretch(bits, 64 * i, 64 * full + tail) ==
      ClearWords(bits[i..i + full]) + Stretch(bits, 64 * i + 64 * full, tail)
  {
    StretchOfWords(bits, i, full);
    StretchSplit(bits, 64 * i, 64 * full, tail);
  }

  lemma WordsAndTail(bits: seq<U64>, from: nat, n: nat)
    requires from % 64 == 0 && from + n <= 64 * |bits|
    ensures var i, full, count := from / 64, n / 64, n % 64;
      && from == 64 * i && n == 64 * full + count && i + full <= |bits|
      && 64 * i + 64 * full + count <= 64 * |bits| && (64 * i + 64 * full) % 64 == 0
  {}

  /** Whole words and a tail, from a word boundary or for nothing. */
  method CountAligned(bits: seq<U64>, from: nat, n: nat) returns (lost: nat)
    requires from + n <= 64 * |bits| && (n == 0 || from % 64 == 0)
    ensures lost == Stretch(bits, from, n)
  {
    if n == 0 {
      return 0;
    }
    WordsAndTail(bits, from, n);
    var i, full, count := from / 64, n / 64, n % 64;
    WholeWords(bits, i, full, count);
    lost := ClearWords(bits[i..i + full]);
    if count != 0 {
      var tail := CountTail(bits, 64 * i + 64 * full, count);
      lost := lost + tail;
    }
  }

  method CountTail(bits: seq<U64>, start: nat, count: nat) returns (lost: nat)
    requires 0 < count < 64 && start + count <= 64 * |bits| && start % 64 == 0
    ensures lost == Stretch(bits, start, count)
  {
    PartialWord(bits, start, count);
    assert Shl(Shr(Ones(64), 64 - count), 0) == Shr(Ones(64), 64 - count);
    lost := CountOnes(And(Not(bits[start / 64]), Shr(Ones(64), 64 - count)));
  }

  /** The ones before the first word boundary, if the stretch starts inside a word. */
  method CountHead(bits: seq<U64>, from: nat, n: nat) returns (lost: nat, head: nat)
    requires 0 < n && from + n <= 64 * |bits| && from % 64 != 0
    ensures head <= n && lost == Stretch(bits, from, head) && (head == n || (from + head) % 64 == 0)
  {
    var within := from % 64;
    head := if n <= 64 - within then n else 64 - within;
    var mask := Shl(Shr(Ones(64), 64 - head), within);
    PartialWord(bits, from, head);
    lost := CountOnes(And(Not(bits[from / 64]), mask));
  }

  method CountLinear(bits: seq<U64>, from: nat, n: nat) returns (lost: nat)
    requires from + n <= 64 * |bits|
    ensures lost == Stretch(bits, from, n)
  {
    var head: nat := 0;
    lost := 0;
    if from % 64 != 0 && n != 0 {
      lost, head := CountHead(bits, from, n);
    }
    StretchSplit(bits, from, head, n - head);
    var rest := CountAligned(bits, from + head, n - head);
    lost := lost + rest;
  }

  /** Sequence number `x` is looked up at bitmap position `at`. */
  predicate AtPosition(bits: seq<U64>, x: nat, at: nat)
    requires |bits| > 0
  {
    at == x % (64 * |bits|)
  }

  /** One turn of the outer loop: to the end of the bitmap or of the range, whichever comes first. */
  lemma Turn(bits: seq<U64>, from: nat, done: nat, start: nat, n: nat)
    requires |bits| > 0 && AtPosition(bits, from + done, start) && start + n <= 64 * |bits|
    ensures Walk(bits, from, done + n) == Walk(bits, from, done) + Stretch(bits, start, n)
    ensures start + n == 64 * |bits| ==> AtPosition(bits, from + done + n, 0)
  {
    WalkOn(bits, from, done, start, n);
    StepWithin(from + done, 64 * |bits|, n);
  }

  method LossByWord(bits: seq<U64>, from: nat, count: nat) returns (lost: nat)
    requires from < U16_RANGE && count < U16_RANGE
    requires IsPowerOfTwo(64 * |bits|) && 64 * |bits| <= 32768
    ensures lost == Walk(bits, from, count)
  {
    var capacity := |bits| * 64;
    MaskIsModulo(from, capacity);
    var start := BitAnd(from, capacity - 1);
    lost := CountTurns(bits, from, start, count);
  }

  method CountTurns(bits: seq<U64>, ghost from: nat, first: nat, count: nat) returns (lost: nat)
    requires |bits| > 0 && AtPosition(bits, from, first)
    ensures lost == Walk(bits, from, count)
  {
    var start: nat, left: nat := first, count;
    ghost var done: nat := 0;
    lost := 0;
    while left != 0
      invariant done + left == count && start < 64 * |bits|
      invariant lost == Walk(bits, from, done)
      invariant left != 0 ==> AtPosition(bits, from + done, start)
    {
      var n := if left <= 64 * |bits| - start then left else 64 * |bits| - start;
      var piece := CountLinear(bits, start, n);
      Turn(bits, from, done, start, n);
      lost := lost + piece;
      left := left - n;
      start := 0;
      done := done + n;
    }
  }

  /** The word count returns what the per-bit walk returns. */
  method CountsMatch(bits: seq<U64>, start: nat, count: nat) returns (perBit: nat, byWord: nat)
    requires start < U16_RANGE && count < U16_RANGE
    requires IsPowerOfTwo(64 * |bits|) && 64 * |bits| <= 32768
    ensures perBit == byWord <= count
  {
    perBit := LossPerBit(bits, start, count);
    byWord := LossByWord(bits, start, count);
    MaskedWalkIsWalk(bits, start, count);
  }
}
