/**
 Annex B byte streams (Annex B of ITU-T H.264): a start code is 00 00 01 together with
 the zeros right before it. Three scanners for the next start code, and the division of
 a stream into the NAL units between start codes.
 */
module AnnexB {
  import opened Sequences

  type Byte = b: int | 0 <= b < 256

  // ----- the next start code

  /** 00 00 01 stands at `i`. */
  predicate CodeAt(nalu: seq<Byte>, i: int) {
    0 <= i && i + 3 <= |nalu| && nalu[i] == 0 && nalu[i + 1] == 0 && nalu[i + 2] == 1
  }

  /** The first 00 00 01 at or after `i`, or -1. */
  function FirstCode(nalu: seq<Byte>, i: nat): int
    decreases |nalu| - i
  {
    if i + 3 > |nalu| then -1 else if CodeAt(nalu, i) then i else FirstCode(nalu, i + 1)
  }

  /** Back over the zeros before `i`, not past `start`. */
  function ZerosBack(nalu: seq<Byte>, start: nat, i: nat): nat
    requires start <= i <= |nalu|
    decreases i
  {
    if i > start && nalu[i - 1] == 0 then ZerosBack(nalu, start, i - 1) else i
  }

  /** Offset and length of the next start code, or (-1, -1). */
  function NextInd(nalu: seq<Byte>, start: nat): (int, int)
    requires start <= |nalu|
  {
    var one := FirstCode(nalu, start);
    if one < start then (-1, -1)
    else
      FirstCodeLaw(nalu, start);
      var first: int := ZerosBack(nalu, start, one);
      (first, one + 3 - first)
  }

  lemma {:induction false} FirstCodeLaw(nalu: seq<Byte>, i: nat)
    ensures FirstCode(nalu, i) == -1 || (FirstCode(nalu, i) >= i && CodeAt(nalu, FirstCode(nalu, i)))
    ensures forall j :: i <= j && (FirstCode(nalu, i) == -1 || j < FirstCode(nalu, i)) ==> !CodeAt(nalu, j)
    decreases |nalu| - i
  {
    if i + 3 <= |nalu| && !CodeAt(nalu, i) {
      FirstCodeLaw(nalu, i + 1);
    }
  }

  lemma {:induction false} ZerosBackLaw(nalu: seq<Byte>, start: nat, i: nat)
    requires start <= i <= |nalu|
    ensures var first := ZerosBack(nalu, start, i);
      && start <= first <= i
      && (forall j :: first <= j < i ==> nalu[j] == 0)
      && (first == start || nalu[first - 1] != 0)
  {
    if i > start && nalu[i - 1] == 0 {
      ZerosBackLaw(nalu, start, i - 1);
    }
  }

  /** What a scanner's answer means, without saying how it is found. */
  predicate Finds(nalu: seq<Byte>, start: nat, r: (int, int)) {
    if r.0 == -1 then r.1 == -1 && forall j :: start <= j < |nalu| ==> !CodeAt(nalu, j)
    else
      var (first, last) := (r.0, r.0 + r.1 - 1);
      && start <= first && r.1 >= 3 && last < |nalu|
      && nalu[last] == 1 && (forall j :: first <= j < last ==> nalu[j] == 0)
      && (first == start || nalu[first - 1] != 0)
      && forall j :: start <= j < last - 2 ==> !CodeAt(nalu, j)
  }

  lemma NextIndFinds(nalu: seq<Byte>, start: nat)
    requires start <= |nalu|
    ensures Finds(nalu, start, NextInd(nalu, start))
  {
    FirstCodeLaw(nalu, start);
    var one := FirstCode(nalu, start);
    if one >= start {
      ZerosBackLaw(nalu, start, one);
    }
  }

  lemma FoundCode(nalu: seq<Byte>, start: nat, r: (int, int))
    requires Finds(nalu, start, r) && r.0 != -1
    ensures CodeAt(nalu, r.0 + r.1 - 3)
  {}

  /** There is only one right answer. */
  lemma FindsUnique(nalu: seq<Byte>, start: nat, r: (int, int), r': (int, int))
    requires start <= |nalu| && Finds(nalu, start, r) && Finds(nalu, start, r')
    ensures r == r'
  {
    if r.0 != -1 { FoundCode(nalu, start, r); }
    if r'.0 != -1 { FoundCode(nalu, start, r'); }
  }

  method Scalar(nalu: seq<Byte>, start: nat) returns (r: (int, int))
    requires start <= |nalu|
    ensures r == NextInd(nalu, start)
  {
    var zeroCount: nat := 0;
    NextIndFinds(nalu, start);
    for i := start to |nalu|
      invariant zeroCount <= i - start
      invariant forall j :: i - zeroCount <= j < i ==> nalu[j] == 0
      invariant i - zeroCount == start || nalu[i - zeroCount - 1] != 0
      invariant forall j :: start <= j < i - 2 ==> !CodeAt(nalu, j)
    {
      if nalu[i] == 0 {
        zeroCount := zeroCount + 1;
        continue;
      } else if nalu[i] == 1 && zeroCount >= 2 {
        r := (i - zeroCount, zeroCount + 1);
        FindsUnique(nalu, start, r, NextInd(nalu, start));
        return;
      }
      zeroCount := 0;
    }
    r := (-1, -1);
    FindsUnique(nalu, start, r, NextInd(nalu, start));
  }

  /** `memchr`: the first byte equal to one at or after `from`, or the length. */
  method NextOne(nalu: seq<Byte>, from: nat) returns (i: nat)
    requires from <= |nalu|
    ensures from <= i <= |nalu| && (i < |nalu| ==> nalu[i] == 1)
    ensures forall j :: from <= j < i ==> nalu[j] != 1
  {
    i := from;
    while i < |nalu| && nalu[i] != 1
      invariant from <= i <= |nalu|
      invariant forall j :: from <= j < i ==> nalu[j] != 1
    {
      i := i + 1;
    }
  }

  method WalkBack(nalu: seq<Byte>, start: nat, from: nat) returns (first: nat)
    requires start <= from <= |nalu|
    ensures first == ZerosBack(nalu, start, from)
  {
    first := from;
    while first > start && nalu[first - 1] == 0
      invariant start <= first <= from
      invariant ZerosBack(nalu, start, first) == ZerosBack(nalu, start, from)
    {
      first := first - 1;
    }
  }

  method ByteSearch(nalu: seq<Byte>, start: nat) returns (r: (int, int))
    requires start <= |nalu|
    ensures r == NextInd(nalu, start)
  {
    NextIndFinds(nalu, start);
    var one := NextOne(nalu, start);
    while one < |nalu|
      invariant start <= one <= |nalu| && (one < |nalu| ==> nalu[one] == 1)
      invariant forall j :: start <= j < one - 2 ==> !CodeAt(nalu, j)
      decreases |nalu| - one
    {
      if one - start < 2 || nalu[one - 1] != 0 || nalu[one - 2] != 0 {
        one := NextOne(nalu, one + 1);
        continue;
      }
      var first := WalkBack(nalu, start, one - 2);
      ZerosBackLaw(nalu, start, one - 2);
      r := (first, one - first + 1);
      FindsUnique(nalu, start, r, NextInd(nalu, start));
      return;
    }
    r := (-1, -1);
    FindsUnique(nalu, start, r, NextInd(nalu, start));
  }

  method SubstringSearch(nalu: seq<Byte>, start: nat) returns (r: (int, int))
    requires start <= |nalu|
    ensures r == NextInd(nalu, start)
  {
    var found := FirstCode(nalu, start);
    FirstCodeLaw(nalu, start);
    if found < 0 {
      return (-1, -1);
    }
    var first := WalkBack(nalu, start, found);
    r := (first, found + 3 - first);
  }

  // ----- the units between start codes

  /** The units from `prev` on, which follows a start code. */
  function UnitsFrom(p: seq<Byte>, prev: nat): (units: seq<seq<Byte>>)
    requires prev <= |p|
    ensures units != []
    decreases |p| - prev
  {
    NextIndFinds(p, prev);
    var (next, len) := NextInd(p, prev);
    if next == -1 then [p[prev..]] else [p[prev..next]] + UnitsFrom(p, next + len)
  }

  /** A stream without a start code is one unit; bytes before the first start code belong to none. */
  function Units(p: seq<Byte>): (units: seq<seq<Byte>>)
    ensures units != []
  {
    NextIndFinds(p, 0);
    var (next, len) := NextInd(p, 0);
    if next == -1 then [p] else UnitsFrom(p, next + len)
  }

  const START_CODE: seq<Byte> := [0, 0, 0, 1]

  function Join(units: seq<seq<Byte>>): seq<Byte> {
    if units == [] then [] else START_CODE + units[0] + Join(units[1..])
  }

  predicate NoCode(u: seq<Byte>) {
    forall i :: 0 <= i < |u| ==> !CodeAt(u, i)
  }

  /** Units that survive being written out and split again. */
  predicate Clean(units: seq<seq<Byte>>) {
    && (forall k :: 0 <= k < |units| ==> NoCode(units[k]))
    && forall k :: 0 <= k < |units| - 1 ==> units[k] == [] || units[k][|units[k]| - 1] != 0
  }

  lemma {:induction false} UnitsFromClean(p: seq<Byte>, prev: nat)
    requires prev <= |p|
    ensures Clean(UnitsFrom(p, prev))
    decreases |p| - prev
  {
    NextIndFinds(p, prev);
    var (next, len) := NextInd(p, prev);
    if next == -1 {
      NoCodeInside(p, prev, |p|, prev);
      assert p[prev..|p|] == p[prev..];
    } else {
      UnitsFromClean(p, next + len);
      NoCodeInside(p, prev, next, prev);
    }
  }

  lemma NoCodeInside(p: seq<Byte>, from: nat, to: nat, start: nat)
    requires start <= from <= to <= |p|
    requires forall j :: start <= j < to - 2 ==> !CodeAt(p, j)
    ensures NoCode(p[from..to])
  {
    forall i | 0 <= i < to - from ensures !CodeAt(p[from..to], i) {
      if i + 3 <= to - from {
        assert !CodeAt(p, from + i);
      }
    }
  }

  /** After any prefix, a clean unit is read up to the start code that follows it. */
  lemma NextAfterUnit(pre: seq<Byte>, u: seq<Byte>, rest: seq<Byte>)
    requires NoCode(u) && (u == [] || u[|u| - 1] != 0)
    ensures NextInd(pre + u + START_CODE + rest, |pre|) == (|pre| + |u|, 4)
  {
    var p, at := pre + u + START_CODE + rest, |pre| + |u|;
    forall j | |pre| <= j < at + 1 ensures !CodeAt(p, j) {
      if j + 2 < at {
        assert !CodeAt(u, j - |pre|);
        assert p[j] == u[j - |pre|] && p[j + 1] == u[j - |pre| + 1] && p[j + 2] == u[j - |pre| + 2];
      } else {
        assert p[j + 2] == START_CODE[j + 2 - at];
      }
    }
    assert p[at] == 0 && p[at + 1] == 0 && p[at + 2] == 0 && p[at + 3] == 1;
    assert Finds(p, |pre|, (at, 4));
    NextIndFinds(p, |pre|);
    FindsUnique(p, |pre|, (at, 4), NextInd(p, |pre|));
  }

  lemma LastUnit(pre: seq<Byte>, u: seq<Byte>)
    requires NoCode(u)
    ensures NextInd(pre + u, |pre|) == (-1, -1)
  {
    var p := pre + u;
    forall j | |pre| <= j < |p| ensures !CodeAt(p, j) {
      assert !CodeAt(u, j - |pre|);
    }
    NextIndFinds(p, |pre|);
    FindsUnique(p, |pre|, (-1, -1), NextInd(p, |pre|));
  }

  lemma UnitsFromNext(p: seq<Byte>, prev: nat, next: nat, len: nat)
    requires prev <= next && next + len <= |p| && NextInd(p, prev) == (next, len)
    ensures UnitsFrom(p, prev) == [p[prev..next]] + UnitsFrom(p, next + len)
  {
    NextIndFinds(p, prev);
  }

  lemma UnitsFromLast(p: seq<Byte>, prev: nat)
    requires prev <= |p| && NextInd(p, prev) == (-1, -1)
    ensures UnitsFrom(p, prev) == [p[prev..]]
  {}

  /** The first unit, the start code behind it, and the rest of the stream. */
  lemma JoinStep(pre: seq<Byte>, u: seq<Byte>, rest: seq<seq<Byte>>)
    requires rest != []
    ensures var p, tail := pre + u + Join(rest), rest[0] + Join(rest[1..]);
      p == pre + u + START_CODE + tail && p == pre + u + START_CODE + rest[0] + Join(rest[1..])
  {
    JoinFront(rest);
    Associate(pre + u, START_CODE, rest[0] + Join(rest[1..]));
    Associate(pre + u + START_CODE, rest[0], Join(rest[1..]));
  }

  lemma {:induction false} UnitsFromJoin(pre: seq<Byte>, units: seq<seq<Byte>>)
    requires units != [] && Clean(units)
    ensures UnitsFrom(pre + units[0] + Join(units[1..]), |pre|) == units
    decreases |units|
  {
    var u, rest := units[0], units[1..];
    assert units == [u] + rest;
    if rest == [] {
      Nothing(pre + u);
      LastUnit(pre, u);
      UnitsFromLast(pre + u, |pre|);
      assert (pre + u)[|pre|..] == u;
    } else {
      CleanRest(units);
      JoinStep(pre, u, rest);
      NextAfterUnit(pre, u, rest[0] + Join(rest[1..]));
      UnitsFromNext(pre + u + Join(rest), |pre|, |pre| + |u|, 4);
      Middle(pre, u, Join(rest));
      UnitsFromJoin(pre + u + START_CODE, rest);
    }
  }

  lemma CleanRest(units: seq<seq<Byte>>)
    requires units != [] && Clean(units)
    ensures Clean(units[1..])
  {
    var rest := units[1..];
    assert forall k :: 0 <= k < |rest| ==> rest[k] == units[k + 1];
  }

  /** Writing units out behind start codes and splitting again gives them back exactly when they are clean. */
  lemma SplitJoin(units: seq<seq<Byte>>)
    requires units != []
    ensures Units(Join(units)) == units <==> Clean(units)
  {
    JoinFront(units);
    var p := Join(units);
    LeadingCode(units[0] + Join(units[1..]));
    UnitsFromClean(p, 4);
    if Clean(units) {
      UnitsFromJoin(START_CODE, units);
    }
  }

  lemma JoinFront(units: seq<seq<Byte>>)
    requires units != []
    ensures Join(units) == START_CODE + (units[0] + Join(units[1..]))
  {
    Associate(START_CODE, units[0], Join(units[1..]));
  }

  lemma CodeInFront(p: seq<Byte>)
    requires START_CODE <= p
    ensures Finds(p, 0, (0, 4))
  {
    assert p[0] == 0 && p[1] == 0 && p[2] == 0 && p[3] == 1;
  }

  lemma LeadingCode(tail: seq<Byte>)
    ensures Units(START_CODE + tail) == UnitsFrom(START_CODE + tail, 4)
  {
    var p := START_CODE + tail;
    CodeInFront(p);
    NextIndFinds(p, 0);
    FindsUnique(p, 0, (0, 4), NextInd(p, 0));
  }

  /** From `prev` on, the stream is its units with these start codes between them. */
  predicate Covers(p: seq<Byte>, prev: nat, codes: seq<seq<Byte>>)
    requires prev <= |p|
  {
    && |codes| == |UnitsFrom(p, prev)| - 1 && (forall k :: 0 <= k < |codes| ==> IsStartCode(codes[k]))
    && p[prev..] == Interleave(UnitsFrom(p, prev), codes)
  }

  lemma CoversNext(p: seq<Byte>, prev: nat, next: nat, len: nat, codes: seq<seq<Byte>>)
    requires prev <= next && next + len <= |p| && NextInd(p, prev) == (next, len)
    requires Covers(p, next + len, codes) && IsStartCode(p[next..next + len])
    ensures Covers(p, prev, [p[next..next + len]] + codes)
  {
    UnitsFromNext(p, prev, next, len);
    InterleaveFront(p[prev..next], p[next..next + len], UnitsFrom(p, next + len), codes);
    Cut(p, prev, next, next + len);
  }

  /** Nothing but start codes lies between the units: bytes are lost only before the first start code. */
  lemma {:induction false} UnitsCover(p: seq<Byte>, prev: nat) returns (codes: seq<seq<Byte>>)
    requires prev <= |p|
    ensures Covers(p, prev, codes)
    decreases |p| - prev
  {
    NextIndFinds(p, prev);
    if NextInd(p, prev).0 == -1 {
      codes := [];
      UnitsFromLast(p, prev);
    } else {
      FoundStartCode(p, prev);
      var next: nat, len: nat := NextInd(p, prev).0, NextInd(p, prev).1;
      var rest := UnitsCover(p, next + len);
      CoversNext(p, prev, next, len, rest);
      codes := [p[next..next + len]] + rest;
    }
  }

  lemma InterleaveFront(u: seq<Byte>, code: seq<Byte>, units: seq<seq<Byte>>, codes: seq<seq<Byte>>)
    requires |units| == |codes| + 1
    ensures Interleave([u] + units, [code] + codes) == u + code + Interleave(units, codes)
  {
    assert ([u] + units)[1..] == units && ([code] + codes)[1..] == codes;
  }

  lemma FoundStartCode(p: seq<Byte>, prev: nat)
    requires prev <= |p| && NextInd(p, prev).0 != -1
    ensures var (next, len) := NextInd(p, prev); prev <= next < next + len <= |p| && IsStartCode(p[next..next + len])
  {
    NextIndFinds(p, prev);
  }

  predicate IsStartCode(code: seq<Byte>) {
    && |code| >= 3 && code[|code| - 1] == 1
    && forall i :: 0 <= i < |code| - 1 ==> code[i] == 0
  }

  function Interleave(units: seq<seq<Byte>>, codes: seq<seq<Byte>>): seq<Byte>
    requires |units| == |codes| + 1
  {
    if codes == [] then units[0] else units[0] + codes[0] + Interleave(units[1..], codes[1..])
  }
}
