/**
 The H.264 RTP payload format (RFC 6184): an Annex B stream is cut into NAL units, each
 sent whole, as an aggregate of parameter sets (STAP-A) or in fragments (FU-A), and put
 back together by the depacketizer at the far end.
 */
module H264 {
  import opened Sequences
  import opened Wrappers
  import opened AnnexB

  type Bytes = seq<Byte>

  const SPS := 7
  const PPS := 8
  const AUD := 9
  const FILLER := 12
  const STAP_A := 24
  const FU_A := 28
  const STAP_A_HEADER: Byte := 0x78

  /** The low five bits of a header byte. */
  function NaluType(b: Byte): Byte {
    b % 32
  }

  /** Bits 5 and 6, in place. */
  function RefIdc(b: Byte): Byte {
    b % 128 - b % 32
  }

  /** The low 16 bits of a length, big end first. */
  function Be16(n: nat): Bytes {
    [n / 256 % 256, n % 256]
  }

  function Be32(n: nat): Bytes {
    Be16(n / 65536) + Be16(n)
  }

  // ----- payloading

  /** Parameter sets held back for the next unit. */
  datatype Held = Held(sps: Option<Bytes>, pps: Option<Bytes>)

  function StapA(sps: Bytes, pps: Bytes): Bytes {
    [STAP_A_HEADER] + Be16(|sps|) + sps + Be16(|pps|) + pps
  }

  function FuHeader(nalu: Bytes, index: nat, size: nat): Bytes
    requires 1 <= index < |nalu|
  {
    var mark := if index == 1 then 128 else if index + size == |nalu| then 64 else 0;
    [FU_A + RefIdc(nalu[0]), NaluType(nalu[0]) + mark]
  }

  function FragmentSize(nalu: Bytes, mtu: nat, index: nat): nat
    requires mtu > 2 && index <= |nalu|
  {
    if mtu - 2 <= |nalu| - index then mtu - 2 else |nalu| - index
  }

  /** The fragments of the unit's bytes from `index` on. */
  function FragmentsFrom(nalu: Bytes, mtu: nat, index: nat): seq<Bytes>
    requires mtu > 2 && 1 <= index <= |nalu|
    decreases |nalu| - index
  {
    if index == |nalu| then []
    else
      var size := FragmentSize(nalu, mtu, index);
      [FuHeader(nalu, index, size) + nalu[index..index + size]] + FragmentsFrom(nalu, mtu, index + size)
  }

  /** One unit, whole if it fits and in fragments otherwise. */
  function UnitPayloads(nalu: Bytes, mtu: nat): seq<Bytes> {
    if |nalu| <= mtu then [nalu] else if mtu <= 2 || nalu == [] then [] else FragmentsFrom(nalu, mtu, 1)
  }

  function Emit(h: Held, nalu: Bytes, mtu: nat): (Held, seq<Bytes>) {
    if nalu == [] then (h, [])
    else
      var t := NaluType(nalu[0]);
      if t == AUD || t == FILLER then (h, [])
      else if t == SPS then (h.(sps := Some(nalu)), [])
      else if t == PPS then (h.(pps := Some(nalu)), [])
      else if h.sps.Some? && h.pps.Some? then (Held(None, None), Aggregate(h, mtu) + UnitPayloads(nalu, mtu))
      else (h, UnitPayloads(nalu, mtu))
  }

  function Aggregate(h: Held, mtu: nat): seq<Bytes>
    requires h.sps.Some? && h.pps.Some?
  {
    var stap := StapA(h.sps.value, h.pps.value);
    if |stap| <= mtu then [stap] else []
  }

  function EmitAll(h: Held, units: seq<Bytes>, mtu: nat): (Held, seq<Bytes>)
    decreases |units|
  {
    if units == [] then (h, [])
    else
      var (h1, sent) := Emit(h, units[0], mtu);
      var (h2, more) := EmitAll(h1, units[1..], mtu);
      (h2, sent + more)
  }

  // ----- depacketizing

  /** Bytes, an error, or an index past the end of the packet, which stops the program. */
  datatype Outcome<+T> = Done(value: T) | Refused | Crash {
    predicate IsFailure() {
      !Done?
    }

    function PropagateFailure<U>(): Outcome<U>
      requires !Done?
    {
      if Refused? then Refused else Crash
    }

    function Extract(): T
      requires Done?
    {
      value
    }
  }

  /** A unit's length in four bytes, or the start code. */
  function Prefix(avc: bool, n: nat): (p: Bytes)
    ensures |p| == 4
  {
    if avc then Be32(n) else START_CODE
  }

  /** The aggregated units from here on; a length is read without looking whether it is all there. */
  function Unstap(bytes: Bytes, avc: bool): Outcome<Bytes> {
    if bytes == [] then Done([])
    else if |bytes| == 1 then Crash
    else
      var size := LengthAt(bytes);
      if |bytes| < 2 + size then Refused
      else
        var rest :- Unstap(bytes[2 + size..], avc);
        Done(Prefix(avc, size) + bytes[2..2 + size] + rest)
  }

  function LengthAt(bytes: Bytes): nat
    requires |bytes| >= 2
  {
    256 * (bytes[0] as int) + bytes[1]
  }

  /** The new fragment buffer and what comes out. */
  function Depacketize(buffer: Option<Bytes>, packet: Bytes, avc: bool): Outcome<(Option<Bytes>, Bytes)> {
    if |packet| <= 1 then Refused
    else
      var t := NaluType(packet[0]);
      if |packet| <= 2 && t != AUD then Refused
      else if 1 <= t <= 23 then Done((buffer, Prefix(avc, |packet|) + packet))
      else if t == STAP_A then
        var out :- Unstap(packet[1..], avc);
        Done((buffer, out))
      else if t == FU_A then
        var whole := (if buffer.Some? then buffer.value else []) + packet[2..];
        if packet[1] / 64 % 2 == 1 then
          var header: Byte := RefIdc(packet[0]) + NaluType(packet[1]);
          Done((None, Prefix(avc, |whole| + 1) + [header] + whole))
        else
          Done((Some(whole), []))
      else Refused
  }

  /** A packet train: outputs are concatenated, the first error ends it. */
  function DepacketizeAll(buffer: Option<Bytes>, packets: seq<Bytes>, avc: bool): Outcome<(Option<Bytes>, Bytes)>
    decreases |packets|
  {
    if packets == [] then Done((buffer, []))
    else
      var (b, out) :- Depacketize(buffer, packets[0], avc);
      var (b', rest) :- DepacketizeAll(b, packets[1..], avc);
      Done((b', out + rest))
  }

  /** A packet in front of a train. */
  lemma TrainCons(
    start: Option<Bytes>, packets: seq<Bytes>, next: Option<Bytes>, first: Bytes, end: Option<Bytes>, rest: Bytes,
    avc: bool)
    requires packets != []
    requires Depacketize(start, packets[0], avc) == Done((next, first))
    requires DepacketizeAll(next, packets[1..], avc) == Done((end, rest))
    ensures DepacketizeAll(start, packets, avc) == Done((end, first + rest))
  {}

  /** Two trains in a row. */
  lemma {:induction false} TrainAppend(
    start: Option<Bytes>, a: seq<Bytes>, mid: Option<Bytes>, out: Bytes, b: seq<Bytes>, end: Option<Bytes>,
    more: Bytes, avc: bool)
    requires DepacketizeAll(start, a, avc) == Done((mid, out))
    requires DepacketizeAll(mid, b, avc) == Done((end, more))
    ensures DepacketizeAll(start, a + b, avc) == Done((end, out + more))
    decreases |a|
  {
    if a == [] {
      assert a + b == b && out + more == more;
    } else {
      var next, first, others := TrainHead(start, a, mid, out, avc);
      TrainAppend(next, a[1..], mid, others, b, end, more, avc);
      TrainConsAppend(start, a, b, next, first, end, others + more, avc);
      Associate(first, others, more);
    }
  }

  lemma TrainConsAppend(
    start: Option<Bytes>, a: seq<Bytes>, b: seq<Bytes>, next: Option<Bytes>, first: Bytes, end: Option<Bytes>,
    rest: Bytes, avc: bool)
    requires a != [] && Depacketize(start, a[0], avc) == Done((next, first))
    requires DepacketizeAll(next, a[1..] + b, avc) == Done((end, rest))
    ensures DepacketizeAll(start, a + b, avc) == Done((end, first + rest))
  {
    assert (a + b)[1..] == a[1..] + b && (a + b)[0] == a[0];
    TrainCons(start, a + b, next, first, end, rest, avc);
  }

  lemma TrainHead(start: Option<Bytes>, a: seq<Bytes>, mid: Option<Bytes>, out: Bytes, avc: bool)
    returns (next: Option<Bytes>, first: Bytes, others: Bytes)
    requires a != [] && DepacketizeAll(start, a, avc) == Done((mid, out))
    ensures Depacketize(start, a[0], avc) == Done((next, first))
    ensures DepacketizeAll(next, a[1..], avc) == Done((mid, others)) && out == first + others
  {
    next, first := Depacketize(start, a[0], avc).value.0, Depacketize(start, a[0], avc).value.1;
    others := DepacketizeAll(next, a[1..], avc).value.1;
  }

  // ----- fragments go back together

  /** What the far side makes of a fragmented unit: the forbidden bit is not carried. */
  function Reassembled(nalu: Bytes): Bytes
    requires nalu != []
  {
    [nalu[0] % 128] + nalu[1..]
  }

  lemma FragmentStep(nalu: Bytes, mtu: nat, index: nat, buffer: Option<Bytes>, avc: bool)
    requires mtu > 2 && 1 <= index < |nalu| && |nalu| > mtu
    requires buffer == if index == 1 then None else Some(nalu[1..index])
    ensures
      var size := FragmentSize(nalu, mtu, index);
      var packet := FuHeader(nalu, index, size) + nalu[index..index + size];
      Depacketize(buffer, packet, avc) ==
        if index + size == |nalu| then Done((None, Prefix(avc, |nalu|) + Reassembled(nalu)))
        else Done((Some(nalu[1..index + size]), []))
  {
    var size := FragmentSize(nalu, mtu, index);
    var header, part := FuHeader(nalu, index, size), nalu[index..index + size];
    var packet := header + part;
    assert packet[2..] == part && packet[0] == header[0] && packet[1] == header[1];
    HeaderBits(nalu[0]);
    MarkBits(NaluType(nalu[0]), if index == 1 then 128 else if index + size == |nalu| then 64 else 0);
    var before := if buffer.Some? then buffer.value else [];
    assert before + part == nalu[1..index + size];
    if index + size == |nalu| {
      var header: Byte := RefIdc(packet[0]) + NaluType(packet[1]);
      assert header == nalu[0] % 128;
      assert Prefix(avc, |nalu|) + [header] + nalu[1..] == Prefix(avc, |nalu|) + Reassembled(nalu);
      assert nalu[1..index + size] == nalu[1..];
    }
  }

  /** The fragments of a unit, fed to a fresh buffer, give it back once, at the last one. */
  lemma {:induction false} FragmentsReassemble(nalu: Bytes, mtu: nat, index: nat, buffer: Option<Bytes>, avc: bool)
    requires mtu > 2 && 1 <= index < |nalu| && |nalu| > mtu
    requires buffer == if index == 1 then None else Some(nalu[1..index])
    ensures DepacketizeAll(buffer, FragmentsFrom(nalu, mtu, index), avc) ==
      Done((None, Prefix(avc, |nalu|) + Reassembled(nalu)))
    decreases |nalu| - index
  {
    var size := FragmentSize(nalu, mtu, index);
    var all := FragmentsFrom(nalu, mtu, index);
    FragmentStep(nalu, mtu, index, buffer, avc);
    assert all[1..] == FragmentsFrom(nalu, mtu, index + size);
    var result := Prefix(avc, |nalu|) + Reassembled(nalu);
    if index + size == |nalu| {
      assert result + [] == result;
    } else {
      FragmentsReassemble(nalu, mtu, index + size, Some(nalu[1..index + size]), avc);
      assert [] + result == result;
    }
  }

  lemma HeaderBits(b: Byte)
    ensures NaluType(FU_A + RefIdc(b)) == FU_A && RefIdc(FU_A + RefIdc(b)) == RefIdc(b)
    ensures RefIdc(b) + NaluType(b) == b % 128
  {}

  lemma MarkBits(t: Byte, mark: Byte)
    requires t < 32 && (mark == 0 || mark == 64 || mark == 128)
    ensures NaluType(t + mark) == t && ((t + mark) / 64 % 2 == 1 <==> mark == 64)
  {}

  // ----- aggregates come apart

  lemma LengthBytes(n: nat, rest: Bytes)
    requires n < 65536
    ensures LengthAt(Be16(n) + rest) == n
  {}

  /** A result with more in front of it. */
  function Behind(out: Bytes, r: Outcome<Bytes>): Outcome<Bytes> {
    if r.Done? then Done(out + r.value) else r
  }

  lemma BehindNothing(r: Outcome<Bytes>)
    ensures Behind([], r) == r
  {
    if r.Done? { assert [] + r.value == r.value; }
  }

  lemma BehindTwice(a: Bytes, b: Bytes, r: Outcome<Bytes>)
    ensures Behind(a, Behind(b, r)) == Behind(a + b, r)
  {
    if r.Done? { Associate(a, b, r.value); }
  }

  lemma UnstapOne(unit: Bytes, rest: Bytes, avc: bool)
    requires |unit| < 65536
    ensures Unstap(Be16(|unit|) + unit + rest, avc) == Behind(Prefix(avc, |unit|) + unit, Unstap(rest, avc))
  {
    var bytes := Be16(|unit|) + unit + rest;
    Associate(Be16(|unit|), unit, rest);
    LengthBytes(|unit|, unit + rest);
    assert bytes[2..2 + |unit|] == unit && bytes[2 + |unit|..] == rest;
  }

  /** Units behind 16-bit lengths, as they stand in an aggregate. */
  function Prefixed(units: seq<Bytes>): Bytes {
    if units == [] then [] else Be16(|units[0]|) + units[0] + Prefixed(units[1..])
  }

  predicate AllShort(units: seq<Bytes>) {
    forall k :: 0 <= k < |units| ==> |units[k]| < 65536
  }

  function LengthIn(packet: Bytes, at: nat): nat
    requires at + 2 <= |packet|
  {
    256 * (packet[at] as int) + packet[at + 1]
  }

  /** Whole units at the front come out whatever follows them. */
  lemma {:induction false} UnstapUnits(units: seq<Bytes>, rest: Bytes, avc: bool)
    requires AllShort(units)
    ensures Unstap(Prefixed(units) + rest, avc) == Behind(Framed(units, avc), Unstap(rest, avc))
  {
    if units == [] {
      assert [] + rest == rest;
      BehindNothing(Unstap(rest, avc));
    } else {
      var u, others := units[0], units[1..];
      UnstapUnits(others, rest, avc);
      Associate(Be16(|u|) + u, Prefixed(others), rest);
      UnstapOne(u, Prefixed(others) + rest, avc);
      BehindTwice(Prefix(avc, |u|) + u, Framed(others, avc), Unstap(rest, avc));
    }
  }

  /** What is left when no further whole unit can be read: nothing, half a length, or a length that is too long. */
  predicate Stuck(rest: Bytes) {
    |rest| < 2 || |rest| < 2 + LengthAt(rest)
  }

  lemma {:induction false} PrefixedAppend(a: seq<Bytes>, b: seq<Bytes>)
    ensures Prefixed(a + b) == Prefixed(a) + Prefixed(b)
  {
    if a == [] {
      assert a + b == b;
    } else {
      assert (a + b)[1..] == a[1..] + b;
      PrefixedAppend(a[1..], b);
    }
  }

  /** Up to `at` the packet is these units, which are `out` when framed. */
  ghost predicate Taken(packet: Bytes, at: nat, units: seq<Bytes>, out: Bytes, avc: bool) {
    1 <= at <= |packet| && AllShort(units) && packet[1..at] == Prefixed(units) && out == Framed(units, avc)
  }

  /** One turn of the aggregate loop. */
  lemma TakeOne(packet: Bytes, at: nat, units: seq<Bytes>, out: Bytes, avc: bool)
    requires Taken(packet, at, units, out, avc) && at + 2 <= |packet| && at + 2 + LengthIn(packet, at) <= |packet|
    ensures var size := LengthIn(packet, at);
      var unit := packet[at + 2..at + 2 + size];
      Taken(packet, at + 2 + size, units + [unit], out + (Prefix(avc, size) + unit), avc)
  {
    var size := LengthIn(packet, at);
    var unit := packet[at + 2..at + 2 + size];
    PrefixedAppend(units, [unit]);
    FramedAppend(units, [unit], avc);
    FramedOne(unit, avc);
    PrefixedOne(unit);
    LengthBefore(packet, at);
    Associate(packet[1..at], Be16(size), unit);
  }

  /** The bytes up to the end of the unit at `at`. */
  lemma LengthBefore(packet: Bytes, at: nat)
    requires 1 <= at && at + 2 <= |packet| && at + 2 + LengthIn(packet, at) <= |packet|
    ensures var size := LengthIn(packet, at);
      size < 65536 && packet[1..at + 2 + size] == packet[1..at] + Be16(size) + packet[at + 2..at + 2 + size]
  {
    var size := LengthIn(packet, at);
    assert size / 256 == packet[at] && size % 256 == packet[at + 1];
    assert Be16(size) == packet[at..at + 2];
  }

  lemma PrefixedOne(u: Bytes)
    ensures Prefixed([u]) == Be16(|u|) + u
  {
    assert [u][1..] == [];
    Nothing(Be16(|u|) + u);
  }

  /** Where the loop stops. */
  lemma TakeEnd(packet: Bytes, at: nat, units: seq<Bytes>, out: Bytes, avc: bool)
    requires Taken(packet, at, units, out, avc)
    requires at + 2 <= |packet| ==> |packet| < at + 2 + LengthIn(packet, at)
    ensures Unstap(packet[1..], avc) ==
      if at == |packet| then Done(out) else if at + 1 == |packet| then Crash else Refused
  {
    var rest := packet[at..];
    assert packet[1..] == Prefixed(units) + rest;
    UnstapUnits(units, rest, avc);
    Nothing(out);
  }

  /** Any bytes are whole units and a rest that holds none. */
  lemma {:induction false} ReadUnits(bytes: Bytes) returns (units: seq<Bytes>, rest: Bytes)
    ensures AllShort(units) && bytes == Prefixed(units) + rest && Stuck(rest)
    decreases |bytes|
  {
    if Stuck(bytes) {
      units, rest := [], bytes;
      assert [] + bytes == bytes;
    } else {
      var size := LengthAt(bytes);
      var u := bytes[2..2 + size];
      var more;
      more, rest := ReadUnits(bytes[2 + size..]);
      units := [u] + more;
      assert units[1..] == more;
      LengthAgain(bytes);
      Associate(Be16(size) + u, Prefixed(more), rest);
    }
  }

  lemma LengthAgain(bytes: Bytes)
    requires |bytes| >= 2 && 2 + LengthAt(bytes) <= |bytes|
    ensures var size := LengthAt(bytes); size < 65536 && bytes == Be16(size) + bytes[2..2 + size] + bytes[2 + size..]
  {
    var size := LengthAt(bytes);
    assert size / 256 == bytes[0] && size % 256 == bytes[1];
    assert Be16(size) == bytes[..2];
  }

  /** The bytes are whole units and nothing else. */
  ghost predicate WholeUnits(bytes: Bytes) {
    exists units :: AllShort(units) && bytes == Prefixed(units)
  }

  /** The bytes are whole units and then one byte more. */
  ghost predicate OneByteOver(bytes: Bytes) {
    exists units, last :: AllShort(units) && bytes == Prefixed(units) + [last]
  }

  /** The aggregate loop returns bytes for whole units, stops the program on one byte more, and fails otherwise. */
  lemma UnstapOutcome(bytes: Bytes, avc: bool)
    ensures Unstap(bytes, avc).Done? <==> WholeUnits(bytes)
    ensures Unstap(bytes, avc).Crash? <==> OneByteOver(bytes)
  {
    var units, rest := ReadUnits(bytes);
    UnstapUnits(units, rest, avc);
    if rest == [] {
      assert bytes == Prefixed(units);
    } else if |rest| == 1 {
      assert rest == [rest[0]];
    }
    if WholeUnits(bytes) { WholeUnitsArrive(bytes, avc); }
    if OneByteOver(bytes) { OneByteCrashes(bytes, avc); }
  }

  lemma WholeUnitsArrive(bytes: Bytes, avc: bool)
    requires WholeUnits(bytes)
    ensures Unstap(bytes, avc).Done?
  {
    var units :| AllShort(units) && bytes == Prefixed(units);
    assert bytes == Prefixed(units) + [];
    UnstapUnits(units, [], avc);
  }

  lemma OneByteCrashes(bytes: Bytes, avc: bool)
    requires OneByteOver(bytes)
    ensures Unstap(bytes, avc) == Crash
  {
    var units, last :| AllShort(units) && bytes == Prefixed(units) + [last];
    UnstapUnits(units, [last], avc);
  }

  /** A packet stops the program exactly when it is an aggregate that ends with one byte of a length. */
  lemma CrashesExactly(buffer: Option<Bytes>, packet: Bytes, avc: bool)
    ensures Depacketize(buffer, packet, avc).Crash? <==>
      |packet| > 2 && NaluType(packet[0]) == STAP_A && OneByteOver(packet[1..])
  {
    if |packet| > 2 && NaluType(packet[0]) == STAP_A {
      UnstapOutcome(packet[1..], avc);
    }
  }

  /** Four bytes that do. */
  lemma CrashInput(buffer: Option<Bytes>, avc: bool)
    ensures Depacketize(buffer, [24, 0, 0, 5], avc) == Crash
  {
    var packet: Bytes := [24, 0, 0, 5];
    assert packet[1..] == Prefixed([[]]) + [5];
    CrashesExactly(buffer, packet, avc);
  }

  lemma StapParts(sps: Bytes, pps: Bytes)
    ensures |StapA(sps, pps)| == 5 + |sps| + |pps| && StapA(sps, pps)[1..] == Prefixed([sps, pps])
  {
    assert [sps, pps][1..] == [pps] && [pps][1..] == [];
    assert Prefixed([pps]) == Be16(|pps|) + pps + [];
  }

  lemma UnstapBoth(sps: Bytes, pps: Bytes, avc: bool)
    requires |sps| < 65536 && |pps| < 65536
    ensures Unstap(StapA(sps, pps)[1..], avc) == Done(Framed([sps, pps], avc))
  {
    var units := [sps, pps];
    StapParts(sps, pps);
    UnstapUnits(units, [], avc);
    assert Prefixed(units) + [] == Prefixed(units) && Framed(units, avc) + [] == Framed(units, avc);
  }

  lemma AggregateApart(sps: Bytes, pps: Bytes, avc: bool)
    requires |sps| < 65536 && |pps| < 65536 && |sps| + |pps| > 0
    ensures var packet := StapA(sps, pps);
      Depacketize(None, packet, avc) == Done((None, Framed([sps, pps], avc)))
  {
    UnstapBoth(sps, pps, avc);
    assert StapA(sps, pps)[0] == STAP_A_HEADER;
  }

  /** Units behind their prefixes. */
  function Framed(units: seq<Bytes>, avc: bool): Bytes {
    if units == [] then [] else Prefix(avc, |units[0]|) + units[0] + Framed(units[1..], avc)
  }

  lemma {:induction false} FramedAppend(a: seq<Bytes>, b: seq<Bytes>, avc: bool)
    ensures Framed(a + b, avc) == Framed(a, avc) + Framed(b, avc)
  {
    if a == [] {
      assert a + b == b;
    } else {
      assert (a + b)[1..] == a[1..] + b;
      FramedAppend(a[1..], b, avc);
    }
  }

  /** With start codes, framing is writing an Annex B stream. */
  lemma {:induction false} FramedIsJoin(units: seq<Bytes>)
    ensures Framed(units, false) == Join(units)
  {
    if units != [] {
      FramedIsJoin(units[1..]);
    }
  }

  // ----- end to end

  /** The units that reach the far side: kept units, each behind the parameter sets released with it. */
  function Carried(h: Held, units: seq<Bytes>, mtu: nat): seq<Bytes>
    decreases |units|
  {
    if units == [] then []
    else CarriedBy(h, units[0], mtu) + Carried(Emit(h, units[0], mtu).0, units[1..], mtu)
  }

  function CarriedBy(h: Held, nalu: Bytes, mtu: nat): seq<Bytes> {
    if !IsCoded(nalu) then []
    else
      (if h.sps.Some? && h.pps.Some? && |StapA(h.sps.value, h.pps.value)| <= mtu
       then [h.sps.value, h.pps.value] else [])
      + (if HasRoom(nalu, mtu) then [nalu] else [])
  }

  /** Units that are neither held back nor dropped. */
  predicate IsCoded(nalu: Bytes) {
    nalu != [] && NaluType(nalu[0]) !in {SPS, PPS, AUD, FILLER}
  }

  predicate IsSet(nalu: Bytes, t: Byte) {
    nalu != [] && NaluType(nalu[0]) == t
  }

  /** The held sets are what they are held as. */
  predicate HeldTyped(h: Held) {
    (h.sps.Some? ==> IsSet(h.sps.value, SPS)) && (h.pps.Some? ==> IsSet(h.pps.value, PPS))
  }

  /** A unit goes out whole or in fragments. */
  predicate HasRoom(nalu: Bytes, mtu: nat) {
    |nalu| <= mtu || mtu > 2
  }

  function Coded(units: seq<Bytes>): seq<Bytes> {
    if units == [] then []
    else if IsCoded(units[0]) then [units[0]] + Coded(units[1..])
    else Coded(units[1..])
  }

  function WithRoom(units: seq<Bytes>, mtu: nat): seq<Bytes> {
    if units == [] then []
    else if HasRoom(units[0], mtu) then [units[0]] + WithRoom(units[1..], mtu)
    else WithRoom(units[1..], mtu)
  }

  lemma {:induction false} CodedAppend(a: seq<Bytes>, b: seq<Bytes>)
    ensures Coded(a + b) == Coded(a) + Coded(b)
  {
    if a == [] {
      assert a + b == b;
    } else {
      assert (a + b)[1..] == a[1..] + b;
      CodedAppend(a[1..], b);
    }
  }

  lemma CodedOne(u: Bytes)
    ensures Coded([u]) == if IsCoded(u) then [u] else []
  {
    assert [u][1..] == [];
  }

  lemma CodedCarriedBy(h: Held, nalu: Bytes, mtu: nat)
    requires HeldTyped(h)
    ensures Coded(CarriedBy(h, nalu, mtu)) == if IsCoded(nalu) && HasRoom(nalu, mtu) then [nalu] else []
  {
    if IsCoded(nalu) {
      var unit := if HasRoom(nalu, mtu) then [nalu] else [];
      CodedOne(nalu);
      if h.sps.Some? && h.pps.Some? {
        var sets := [h.sps.value] + [h.pps.value];
        CodedOne(h.sps.value);
        CodedOne(h.pps.value);
        CodedAppend([h.sps.value], [h.pps.value]);
        CodedAppend(sets, unit);
        assert sets == [h.sps.value, h.pps.value];
      }
      assert [] + unit == unit;
    }
  }

  /** Every coded unit there is room for arrives, in order, once; with room for fragments that is all of them. */
  lemma {:induction false} CodedArrive(h: Held, units: seq<Bytes>, mtu: nat)
    requires HeldTyped(h)
    ensures Coded(Carried(h, units, mtu)) == WithRoom(Coded(units), mtu)
    ensures mtu > 2 ==> Coded(Carried(h, units, mtu)) == Coded(units)
    decreases |units|
  {
    if units != [] {
      var h1 := Emit(h, units[0], mtu).0;
      CodedArrive(h1, units[1..], mtu);
      CodedCarriedBy(h, units[0], mtu);
      CodedAppend(CarriedBy(h, units[0], mtu), Carried(h1, units[1..], mtu));
      if IsCoded(units[0]) {
        assert Coded(units)[1..] == Coded(units[1..]);
      }
    }
  }

  // ----- which parameter sets arrive

  /** The last unit of type `t`, or `held` when there is none. */
  function LastOf(units: seq<Bytes>, t: Byte, held: Option<Bytes>): Option<Bytes> {
    if units == [] then held
    else if IsSet(units[|units| - 1], t) then Some(units[|units| - 1])
    else LastOf(units[..|units| - 1], t, held)
  }

  lemma {:induction false} LastOfFront(units: seq<Bytes>, t: Byte, held: Option<Bytes>)
    requires units != []
    ensures LastOf(units, t, held) == LastOf(units[1..], t, if IsSet(units[0], t) then Some(units[0]) else held)
  {
    var n := |units| - 1;
    if n > 0 && !IsSet(units[n], t) {
      LastOfFront(units[..n], t, held);
      assert units[1..][..n - 1] == units[..n][1..];
    }
  }

  function HeldAfter(h: Held, units: seq<Bytes>, mtu: nat): Held
    decreases |units|
  {
    if units == [] then h else HeldAfter(Emit(h, units[0], mtu).0, units[1..], mtu)
  }

  lemma {:induction false} CarriedAppend(h: Held, a: seq<Bytes>, b: seq<Bytes>, mtu: nat)
    ensures Carried(h, a + b, mtu) == Carried(h, a, mtu) + Carried(HeldAfter(h, a, mtu), b, mtu)
    decreases |a|
  {
    if a == [] {
      assert a + b == b;
    } else {
      assert (a + b)[1..] == a[1..] + b;
      CarriedAppend(Emit(h, a[0], mtu).0, a[1..], b, mtu);
    }
  }

  /** Without a coded unit nothing goes out, and the last set of either kind is held. */
  lemma {:induction false} SetsWait(h: Held, units: seq<Bytes>, mtu: nat)
    requires Coded(units) == []
    ensures Carried(h, units, mtu) == []
    ensures HeldAfter(h, units, mtu) == Held(LastOf(units, SPS, h.sps), LastOf(units, PPS, h.pps))
    decreases |units|
  {
    if units != [] {
      LastOfFront(units, SPS, h.sps);
      LastOfFront(units, PPS, h.pps);
      SetsWait(Emit(h, units[0], mtu).0, units[1..], mtu);
    }
  }

  /**
   What goes out at a coded unit: the last set of either kind before it, if both kinds are
   there and they fit one packet together, and then the unit. A pair that is there is
   forgotten either way; half a pair goes on waiting.
   */
  lemma SetsReach(h: Held, units: seq<Bytes>, unit: Bytes, mtu: nat)
    requires Coded(units) == [] && IsCoded(unit)
    ensures
      var sps, pps := LastOf(units, SPS, h.sps), LastOf(units, PPS, h.pps);
      var pair := sps.Some? && pps.Some?;
      && Carried(h, units + [unit], mtu) ==
           (if pair && 5 + |sps.value| + |pps.value| <= mtu then [sps.value, pps.value] else [])
           + (if HasRoom(unit, mtu) then [unit] else [])
      && HeldAfter(h, units + [unit], mtu) == if pair then Held(None, None) else Held(sps, pps)
  {
    SetsWait(h, units, mtu);
    var h1 := HeldAfter(h, units, mtu);
    CarriedAppend(h, units, [unit], mtu);
    HeldAfterAppend(h, units, [unit], mtu);
    assert [unit][1..] == [];
    assert CarriedBy(h1, unit, mtu) + [] == CarriedBy(h1, unit, mtu);
    assert [] + CarriedBy(h1, unit, mtu) == CarriedBy(h1, unit, mtu);
    if h1.sps.Some? && h1.pps.Some? { StapParts(h1.sps.value, h1.pps.value); }
  }

  lemma {:induction false} HeldAfterAppend(h: Held, a: seq<Bytes>, b: seq<Bytes>, mtu: nat)
    ensures HeldAfter(h, a + b, mtu) == HeldAfter(HeldAfter(h, a, mtu), b, mtu)
    decreases |a|
  {
    if a == [] {
      assert a + b == b;
    } else {
      assert (a + b)[1..] == a[1..] + b;
      HeldAfterAppend(Emit(h, a[0], mtu).0, a[1..], b, mtu);
    }
  }

  lemma PairOnly(sps: Bytes, pps: Bytes)
    requires IsSet(sps, SPS) && IsSet(pps, PPS)
    ensures Coded([sps, pps]) == []
    ensures LastOf([sps, pps], SPS, None) == Some(sps) && LastOf([sps, pps], PPS, None) == Some(pps)
  {
    var sets := [sps, pps];
    assert sets[..1] == [sps] && sets[1..] == [pps];
    CodedOne(pps);
  }

  /** A pair that does not fit one packet is lost, though each set and the coded unit would. */
  lemma SetsLost()
    ensures var units: seq<Bytes> := [[7, 1, 1], [8, 1, 1], [5, 1, 1]];
      && (forall k :: 0 <= k < 3 ==> Sendable(units[k], 3))
      && Carried(Held(None, None), units, 3) == [[5, 1, 1]]
  {
    var sps: Bytes, pps: Bytes, unit: Bytes := [7, 1, 1], [8, 1, 1], [5, 1, 1];
    var sets := [sps, pps];
    PairOnly(sps, pps);
    SetsReach(Held(None, None), sets, unit, 3);
    assert sets + [unit] == [sps, pps, unit];
  }

  // ----- when everything arrives

  /** The units the format means to carry: all but delimiters, filler and empty ones. */
  function Kept(units: seq<Bytes>): seq<Bytes> {
    if units == [] then []
    else if IsKept(units[0]) then [units[0]] + Kept(units[1..])
    else Kept(units[1..])
  }

  predicate IsKept(nalu: Bytes) {
    nalu != [] && NaluType(nalu[0]) !in {AUD, FILLER}
  }

  /** Coded units with room, each alone or right behind one SPS and one PPS that fit a packet together. */
  predicate Grouped(units: seq<Bytes>, mtu: nat) {
    || units == []
    || (IsCoded(units[0]) && HasRoom(units[0], mtu) && Grouped(units[1..], mtu))
    || (|units| >= 3 && IsSet(units[0], SPS) && IsSet(units[1], PPS) && 5 + |units[0]| + |units[1]| <= mtu
        && IsCoded(units[2]) && Grouped(units[3..], mtu))
  }

  lemma {:induction false} CarriedIsGrouped(h: Held, units: seq<Bytes>, mtu: nat)
    requires HeldTyped(h)
    ensures Grouped(Carried(h, units, mtu), mtu)
    decreases |units|
  {
    if units != [] {
      var h1 := Emit(h, units[0], mtu).0;
      CarriedIsGrouped(h1, units[1..], mtu);
      GroupInFront(h, units[0], Carried(h1, units[1..], mtu), mtu);
    }
  }

  lemma GroupInFront(h: Held, nalu: Bytes, rest: seq<Bytes>, mtu: nat)
    requires HeldTyped(h) && Grouped(rest, mtu)
    ensures Grouped(CarriedBy(h, nalu, mtu) + rest, mtu)
  {
    var front := CarriedBy(h, nalu, mtu);
    var all := front + rest;
    if h.sps.Some? && h.pps.Some? { StapParts(h.sps.value, h.pps.value); }
    if front == [] {
      assert all == rest;
    } else if |front| == 1 {
      assert all[1..] == rest;
    } else {
      assert all[3..] == rest;
    }
  }

  lemma {:induction false} DroppedMakeNoDifference(h: Held, units: seq<Bytes>, mtu: nat)
    ensures Carried(h, Kept(units), mtu) == Carried(h, units, mtu)
    decreases |units|
  {
    if units != [] {
      DroppedMakeNoDifference(Emit(h, units[0], mtu).0, units[1..], mtu);
      if IsKept(units[0]) {
        assert Kept(units)[1..] == Kept(units[1..]);
      }
    }
  }

  lemma {:induction false} GroupedIsCarried(units: seq<Bytes>, mtu: nat)
    requires Grouped(units, mtu)
    ensures Carried(Held(None, None), units, mtu) == units
    decreases |units|
  {
    var none := Held(None, None);
    if units != [] {
      if IsCoded(units[0]) {
        GroupedIsCarried(units[1..], mtu);
        assert CarriedBy(none, units[0], mtu) == [units[0]];
      } else {
        var sets, unit := units[..2], units[2];
        assert units == sets + [unit] + units[3..];
        assert sets == [units[0], units[1]];
        PairOnly(units[0], units[1]);
        SetsReach(none, sets, unit, mtu);
        CarriedAppend(none, sets + [unit], units[3..], mtu);
        GroupedIsCarried(units[3..], mtu);
      }
    }
  }

  /**
   Everything meant to be carried is, in order, exactly when there is room for every coded
   unit and each parameter set stands in a pair, SPS first, right before a coded unit,
   and the pair fits a packet.
   */
  lemma NothingLost(units: seq<Bytes>, mtu: nat)
    ensures Carried(Held(None, None), units, mtu) == Kept(units) <==> Grouped(Kept(units), mtu)
  {
    CarriedIsGrouped(Held(None, None), units, mtu);
    DroppedMakeNoDifference(Held(None, None), units, mtu);
    if Grouped(Kept(units), mtu) {
      GroupedIsCarried(Kept(units), mtu);
    }
  }

  // ----- what arrives is what was carried

  /** A unit the depacketizer gives back as it was. */
  predicate Intact(nalu: Bytes, mtu: nat)
    requires nalu != []
  {
    if |nalu| <= mtu then |nalu| > 2 && 1 <= NaluType(nalu[0]) <= 23 else mtu > 2 && nalu[0] < 128
  }

  /** Dropped by design, held and short enough for its length field, or of a kind the far side can read. */
  predicate Sendable(nalu: Bytes, mtu: nat) {
    if !IsKept(nalu) then true
    else if !IsCoded(nalu) then |nalu| < 65536
    else |nalu| <= mtu ==> |nalu| > 2 && 1 <= NaluType(nalu[0]) <= 23
  }

  /** What the far side makes of a unit: one that was fragmented loses its forbidden bit. */
  function Arrived(nalu: Bytes, mtu: nat): (r: Bytes)
    ensures |r| == |nalu|
  {
    if |nalu| <= mtu || nalu == [] then nalu else Reassembled(nalu)
  }

  function ArrivedAll(units: seq<Bytes>, mtu: nat): (r: seq<Bytes>)
    ensures |r| == |units| && forall k :: 0 <= k < |r| ==> r[k] == Arrived(units[k], mtu)
  {
    seq(|units|, k requires 0 <= k < |units| => Arrived(units[k], mtu))
  }

  /** Units arrive as they were exactly when no fragmented one has its forbidden bit set. */
  lemma ArrivedUnchanged(units: seq<Bytes>, mtu: nat)
    ensures ArrivedAll(units, mtu) == units <==>
      forall k :: 0 <= k < |units| ==> |units[k]| <= mtu || units[k] == [] || units[k][0] < 128
  {
    forall k | 0 <= k < |units|
      ensures Arrived(units[k], mtu) == units[k] <==> |units[k]| <= mtu || units[k] == [] || units[k][0] < 128
    {
      if units[k] != [] { SameAgain([], units[k]); }
      Nothing(units[k]);
      Nothing(Arrived(units[k], mtu));
    }
    if ArrivedAll(units, mtu) == units {
      forall k | 0 <= k < |units| ensures |units[k]| <= mtu || units[k] == [] || units[k][0] < 128 {
        assert ArrivedAll(units, mtu)[k] == units[k];
      }
    }
  }

  predicate HeldSendable(h: Held) {
    && (h.sps.Some? ==> 0 < |h.sps.value| < 65536)
    && (h.pps.Some? ==> 0 < |h.pps.value| < 65536)
  }

  /** One unit comes back as it was exactly when it is `Intact`. */
  lemma UnitRoundTrip(nalu: Bytes, mtu: nat, avc: bool)
    requires nalu != [] && NaluType(nalu[0]) != AUD
    ensures DepacketizeAll(None, UnitPayloads(nalu, mtu), avc) == Done((None, Prefix(avc, |nalu|) + nalu)) <==>
      Intact(nalu, mtu)
  {
    if |nalu| <= mtu {
      WholeRoundTrip(nalu, avc);
    } else if mtu > 2 {
      FragmentsReassemble(nalu, mtu, 1, None, avc);
      SameAgain(Prefix(avc, |nalu|), nalu);
    } else {
      assert |Prefix(avc, |nalu|) + nalu| > 0;
    }
  }

  lemma SameAgain(p: Bytes, nalu: Bytes)
    requires nalu != []
    ensures p + Reassembled(nalu) == p + nalu <==> nalu[0] < 128
  {
    assert (p + Reassembled(nalu))[|p|] == nalu[0] % 128 && (p + nalu)[|p|] == nalu[0];
    if nalu[0] < 128 { assert Reassembled(nalu) == nalu; }
  }

  lemma WholeRoundTrip(nalu: Bytes, avc: bool)
    requires nalu != [] && NaluType(nalu[0]) != AUD
    ensures DepacketizeAll(None, [nalu], avc) == Done((None, Prefix(avc, |nalu|) + nalu)) <==>
      |nalu| > 2 && 1 <= NaluType(nalu[0]) <= 23
  {
    assert [nalu][1..] == [];
    var r := Depacketize(None, nalu, avc);
    if r.Done? {
      var (_, out) := r.value;
      assert out + [] == out;
      if NaluType(nalu[0]) == STAP_A {
        var n := UnstapLength(nalu[1..], avc);
      }
    }
  }

  lemma {:induction false} FramedLength(units: seq<Bytes>, avc: bool)
    ensures |Framed(units, avc)| == |Prefixed(units)| + 2 * |units|
  {
    if units != [] {
      FramedLength(units[1..], avc);
    }
  }

  /** An aggregate taken apart grows by two bytes for each of its units. */
  lemma UnstapLength(bytes: Bytes, avc: bool) returns (n: nat)
    requires Unstap(bytes, avc).Done?
    ensures |Unstap(bytes, avc).value| == |bytes| + 2 * n
  {
    var units, rest := ReadUnits(bytes);
    UnstapUnits(units, rest, avc);
    FramedLength(units, avc);
    n := |units|;
  }

  /** What one emitted unit leaves at the far side. */
  lemma EmitArrives(h: Held, nalu: Bytes, mtu: nat, avc: bool)
    requires HeldSendable(h) && Sendable(nalu, mtu)
    ensures HeldSendable(Emit(h, nalu, mtu).0)
    ensures DepacketizeAll(None, Emit(h, nalu, mtu).1, avc)
         == Done((None, Framed(ArrivedAll(CarriedBy(h, nalu, mtu), mtu), avc)))
  {
    if IsCoded(nalu) {
      var unit := if HasRoom(nalu, mtu) then [Arrived(nalu, mtu)] else [];
      UnitArrives(nalu, mtu, avc);
      if h.sps.Some? && h.pps.Some? && |StapA(h.sps.value, h.pps.value)| <= mtu {
        var sets := [h.sps.value, h.pps.value];
        StapParts(h.sps.value, h.pps.value);
        AggregateArrives(h.sps.value, h.pps.value, avc);
        var units := UnitPayloads(nalu, mtu);
        TrainAppend(None, Aggregate(h, mtu), None, Framed(sets, avc), units, None, Framed(unit, avc), avc);
        FramedAppend(sets, unit, avc);
        assert ArrivedAll(CarriedBy(h, nalu, mtu), mtu) == sets + unit;
      } else {
        Nothing(UnitPayloads(nalu, mtu));
        assert ArrivedAll(CarriedBy(h, nalu, mtu), mtu) == unit;
      }
    }
  }

  lemma UnitArrives(nalu: Bytes, mtu: nat, avc: bool)
    requires Sendable(nalu, mtu) && IsCoded(nalu)
    ensures DepacketizeAll(None, UnitPayloads(nalu, mtu), avc) ==
      Done((None, Framed(if HasRoom(nalu, mtu) then [Arrived(nalu, mtu)] else [], avc)))
  {
    FramedOne(Arrived(nalu, mtu), avc);
    if |nalu| <= mtu {
      WholeRoundTrip(nalu, avc);
    } else if mtu > 2 {
      FragmentsReassemble(nalu, mtu, 1, None, avc);
    }
  }

  lemma FramedOne(u: Bytes, avc: bool)
    ensures Framed([u], avc) == Prefix(avc, |u|) + u
  {
    assert [u][1..] == [];
    Nothing(Prefix(avc, |u|) + u);
  }

  lemma AggregateArrives(sps: Bytes, pps: Bytes, avc: bool)
    requires 0 < |sps| < 65536 && 0 < |pps| < 65536
    ensures DepacketizeAll(None, [StapA(sps, pps)], avc) == Done((None, Framed([sps, pps], avc)))
  {
    AggregateApart(sps, pps, avc);
    assert [StapA(sps, pps)][1..] == [];
    assert Framed([sps, pps], avc) + [] == Framed([sps, pps], avc);
  }

  /** The units carried arrive, in order and nothing else, with no fragment left over. */
  lemma {:induction false} EndToEnd(h: Held, units: seq<Bytes>, mtu: nat, avc: bool)
    requires HeldSendable(h) && forall k :: 0 <= k < |units| ==> Sendable(units[k], mtu)
    ensures DepacketizeAll(None, EmitAll(h, units, mtu).1, avc)
         == Done((None, Framed(ArrivedAll(Carried(h, units, mtu), mtu), avc)))
    decreases |units|
  {
    if units != [] {
      var (h1, sent) := Emit(h, units[0], mtu);
      EmitArrives(h, units[0], mtu, avc);
      EndToEnd(h1, units[1..], mtu, avc);
      var first, rest := CarriedBy(h, units[0], mtu), Carried(h1, units[1..], mtu);
      ArrivedAppend(first, rest, mtu);
      TrainsJoin(sent, ArrivedAll(first, mtu), EmitAll(h1, units[1..], mtu).1, ArrivedAll(rest, mtu), avc);
    }
  }

  lemma ArrivedAppend(a: seq<Bytes>, b: seq<Bytes>, mtu: nat)
    ensures ArrivedAll(a + b, mtu) == ArrivedAll(a, mtu) + ArrivedAll(b, mtu)
  {}

  /** Two trains in a row, each of whole units. */
  lemma TrainsJoin(a: seq<Bytes>, x: seq<Bytes>, b: seq<Bytes>, y: seq<Bytes>, avc: bool)
    requires DepacketizeAll(None, a, avc) == Done((None, Framed(x, avc)))
    requires DepacketizeAll(None, b, avc) == Done((None, Framed(y, avc)))
    ensures DepacketizeAll(None, a + b, avc) == Done((None, Framed(x + y, avc)))
  {
    FramedAppend(x, y, avc);
    TrainAppend(None, a, None, Framed(x, avc), b, None, Framed(y, avc), avc);
  }

  /** A packet that is an error whatever came before it. */
  predicate Unreadable(packet: Bytes) {
    || |packet| <= 1
    || (|packet| <= 2 && NaluType(packet[0]) != AUD)
    || NaluType(packet[0]) == 0 || (NaluType(packet[0]) > STAP_A && NaluType(packet[0]) != FU_A)
  }

  lemma {:induction false} UnreadableEndsTrain(buffer: Option<Bytes>, packets: seq<Bytes>, avc: bool)
    requires exists k :: 0 <= k < |packets| && Unreadable(packets[k])
    ensures !DepacketizeAll(buffer, packets, avc).Done?
    decreases |packets|
  {
    var k :| 0 <= k < |packets| && Unreadable(packets[k]);
    var first := Depacketize(buffer, packets[0], avc);
    if first.Done? {
      assert packets[1..][k - 1] == packets[k];
      UnreadableEndsTrain(first.value.0, packets[1..], avc);
    }
  }

  lemma {:induction false} SentWhole(h: Held, units: seq<Bytes>, k: nat, mtu: nat)
    requires k < |units| && IsCoded(units[k]) && |units[k]| <= mtu
    ensures units[k] in EmitAll(h, units, mtu).1
    decreases |units|
  {
    if k > 0 {
      SentWhole(Emit(h, units[0], mtu).0, units[1..], k - 1, mtu);
    } else {
      assert units[0] in UnitPayloads(units[0], mtu);
    }
  }

  /** A coded unit sent whole that is too short or of a type the far side does not take spoils the whole train. */
  lemma UnreadableUnit(h: Held, units: seq<Bytes>, k: nat, mtu: nat, avc: bool)
    requires k < |units| && IsCoded(units[k]) && |units[k]| <= mtu && Unreadable(units[k])
    ensures !DepacketizeAll(None, EmitAll(h, units, mtu).1, avc).Done?
  {
    var packets := EmitAll(h, units, mtu).1;
    SentWhole(h, units, k, mtu);
    var j :| 0 <= j < |packets| && packets[j] == units[k];
    UnreadableEndsTrain(None, packets, avc);
  }

  // ----- the same as objects updated in place

  class Payloader {
    var spsNalu: Option<Bytes>
    var ppsNalu: Option<Bytes>

    constructor ()
      ensures State() == Held(None, None)
    {
      spsNalu, ppsNalu := None, None;
    }

    function State(): Held
      reads this
    {
      Held(spsNalu, ppsNalu)
    }

    /** The fragmenting loop. */
    method Fragment(nalu: Bytes, mtu: nat) returns (out: seq<Bytes>)
      requires |nalu| > mtu
      ensures out == UnitPayloads(nalu, mtu)
    {
      out := [];
      if mtu <= 2 {
        return;
      }
      var index: nat := 1;
      while index < |nalu|
        invariant 1 <= index <= |nalu|
        invariant out + FragmentsFrom(nalu, mtu, index) == FragmentsFrom(nalu, mtu, 1)
      {
        var size := FragmentSize(nalu, mtu, index);
        var fragment := FuHeader(nalu, index, size) + nalu[index..index + size];
        assert FragmentsFrom(nalu, mtu, index) == [fragment] + FragmentsFrom(nalu, mtu, index + size);
        assert out + ([fragment] + FragmentsFrom(nalu, mtu, index + size)) ==
          out + [fragment] + FragmentsFrom(nalu, mtu, index + size);
        out := out + [fragment];
        index := index + size;
      }
    }

    method EmitUnit(nalu: Bytes, mtu: nat) returns (out: seq<Bytes>)
      modifies this
      ensures (State(), out) == Emit(old(State()), nalu, mtu)
    {
      out := [];
      if nalu == [] {
        return;
      }
      assert [] + UnitPayloads(nalu, mtu) == UnitPayloads(nalu, mtu);
      var t := NaluType(nalu[0]);
      if t == AUD || t == FILLER {
        return;
      } else if t == SPS {
        spsNalu := Some(nalu);
        return;
      } else if t == PPS {
        ppsNalu := Some(nalu);
        return;
      } else if spsNalu.Some? && ppsNalu.Some? {
        var stap := StapA(spsNalu.value, ppsNalu.value);
        if |stap| <= mtu {
          out := [stap];
        }
        spsNalu, ppsNalu := None, None;
      }
      if |nalu| <= mtu {
        out := out + [nalu];
        return;
      }
      var fragments := Fragment(nalu, mtu);
      out := out + fragments;
    }

    /** Cuts the stream at start codes and emits each unit in turn. */
    method Payload(mtu: nat, payload: Bytes) returns (out: seq<Bytes>)
      modifies this
      ensures (State(), out) ==
        if payload == [] || mtu == 0 then (old(State()), []) else EmitAll(old(State()), Units(payload), mtu)
    {
      out := [];
      if payload == [] || mtu == 0 {
        return;
      }
      var found := SubstringSearch(payload, 0);
      if found.0 == -1 {
        EmitOnly(State(), payload, mtu);
        out := EmitUnit(payload, mtu);
        return;
      }
      UnitsLater(payload);
      out := EmitFrom(mtu, payload, found.0 + found.1);
    }

    /** The loop: each unit from `first` on, up to the next start code or the end. */
    method EmitFrom(mtu: nat, payload: Bytes, first: nat) returns (out: seq<Bytes>)
      requires first <= |payload|
      modifies this
      ensures (State(), out) == EmitAll(old(State()), UnitsFrom(payload, first), mtu)
    {
      out := [];
      ghost var all := EmitAll(State(), UnitsFrom(payload, first), mtu);
      var prev: nat, done := first, false;
      Nothing(all.1);
      while !done
        invariant prev <= |payload|
        invariant if done then all == (State(), out) else Remaining(all, State(), payload, prev, mtu, out)
        decreases !done, |payload| - prev
      {
        var found := SubstringSearch(payload, prev);
        UnitsStep(payload, prev);
        EmitNext(all, State(), payload, prev, mtu, out);
        done := found.0 == -1;
        var sent := EmitUnit(if done then payload[prev..] else payload[prev..found.0], mtu);
        out := out + sent;
        if !done {
          prev := found.0 + found.1;
        }
      }
    }
  }

  /** What is still to be sent from `prev` on completes `all`. */
  ghost predicate Remaining(all: (Held, seq<Bytes>), h: Held, payload: Bytes, prev: nat, mtu: nat, out: seq<Bytes>)
    requires prev <= |payload|
  {
    all == After(out, EmitAll(h, UnitsFrom(payload, prev), mtu))
  }

  lemma EmitNext(all: (Held, seq<Bytes>), h: Held, payload: Bytes, prev: nat, mtu: nat, out: seq<Bytes>)
    requires prev <= |payload| && Remaining(all, h, payload, prev, mtu, out)
    ensures var (next, len) := NextInd(payload, prev);
      if next == -1 then After(out, Emit(h, payload[prev..], mtu)) == all
      else
        && prev <= next && len > 0 && next + len <= |payload|
        && var (h1, sent) := Emit(h, payload[prev..next], mtu);
           Remaining(all, h1, payload, next + len, mtu, out + sent)
  {
    var units := UnitsFrom(payload, prev);
    UnitsStep(payload, prev);
    EmitStep(h, units, mtu, out);
    if NextInd(payload, prev).0 == -1 {
      Nothing(out + Emit(h, units[0], mtu).1);
    }
  }

  /** Packets sent before what an emission sends. */
  function After(out: seq<Bytes>, r: (Held, seq<Bytes>)): (Held, seq<Bytes>) {
    (r.0, out + r.1)
  }

  lemma EmitOnly(h: Held, unit: Bytes, mtu: nat)
    ensures EmitAll(h, [unit], mtu) == Emit(h, unit, mtu)
  {
    var sent := Emit(h, unit, mtu).1;
    assert [unit][1..] == [] && sent + [] == sent;
  }

  lemma UnitsLater(payload: Bytes)
    requires NextInd(payload, 0).0 != -1
    ensures var (next, len) := NextInd(payload, 0);
      0 <= next + len <= |payload| && Units(payload) == UnitsFrom(payload, next + len)
  {
    NextIndFinds(payload, 0);
  }

  lemma UnitsStep(payload: Bytes, prev: nat)
    requires prev <= |payload|
    ensures var (next, len) := NextInd(payload, prev);
      if next == -1 then UnitsFrom(payload, prev)[0] == payload[prev..] && UnitsFrom(payload, prev)[1..] == []
      else
        && prev <= next && len > 0 && next + len <= |payload|
        && UnitsFrom(payload, prev)[0] == payload[prev..next]
        && UnitsFrom(payload, prev)[1..] == UnitsFrom(payload, next + len)
  {
    NextIndFinds(payload, prev);
  }

  lemma EmitStep(h: Held, units: seq<Bytes>, mtu: nat, out: seq<Bytes>)
    requires units != []
    ensures var (h1, sent) := Emit(h, units[0], mtu);
      After(out, EmitAll(h, units, mtu)) == After(out + sent, EmitAll(h1, units[1..], mtu))
  {
    var (h1, sent) := Emit(h, units[0], mtu);
    Associate(out, sent, EmitAll(h1, units[1..], mtu).1);
  }

  class Depacketizer {
    const isAvc: bool
    var fuaBuffer: Option<Bytes>

    constructor (isAvc: bool)
      ensures this.isAvc == isAvc && fuaBuffer == None
    {
      this.isAvc := isAvc;
      fuaBuffer := None;
    }

    /** The aggregate loop. */
    method TakeApart(packet: Bytes) returns (r: Outcome<Bytes>)
      requires packet != []
      ensures r == Unstap(packet[1..], isAvc)
    {
      var out: Bytes, at: nat := [], 1;
      ghost var units: seq<Bytes> := [];
      while at < |packet|
        invariant Taken(packet, at, units, out, isAvc)
        decreases |packet| - at
      {
        if at + 2 > |packet| {
          TakeEnd(packet, at, units, out, isAvc);
          return Crash;
        }
        var size := LengthIn(packet, at);
        if |packet| < at + 2 + size {
          TakeEnd(packet, at, units, out, isAvc);
          return Refused;
        }
        TakeOne(packet, at, units, out, isAvc);
        at := at + 2;
        var unit := packet[at..at + size];
        units := units + [unit];
        out := out + (Prefix(isAvc, size) + unit);
        at := at + size;
      }
      TakeEnd(packet, at, units, out, isAvc);
      return Done(out);
    }

    method Packet(packet: Bytes) returns (r: Outcome<Bytes>)
      modifies this
      ensures match Depacketize(old(fuaBuffer), packet, isAvc)
        case Refused => r == Refused && fuaBuffer == old(fuaBuffer)
        case Crash => r == Crash && fuaBuffer == old(fuaBuffer)
        case Done((buffer, out)) => r == Done(out) && fuaBuffer == buffer
    {
      if |packet| <= 1 {
        return Refused;
      }
      var t := NaluType(packet[0]);
      if |packet| <= 2 && t != AUD {
        return Refused;
      }
      if 1 <= t <= 23 {
        return Done(Prefix(isAvc, |packet|) + packet);
      } else if t == STAP_A {
        r := TakeApart(packet);
      } else if t == FU_A {
        if fuaBuffer == None {
          fuaBuffer := Some([]);
        }
        fuaBuffer := Some(fuaBuffer.value + packet[2..]);
        if packet[1] / 64 % 2 == 1 {
          var whole := fuaBuffer.value;
          var header: Byte := RefIdc(packet[0]) + NaluType(packet[1]);
          fuaBuffer := None;
          return Done(Prefix(isAvc, |whole| + 1) + [header] + whole);
        }
        return Done([]);
      } else {
        return Refused;
      }
    }
  }

  /**
   An Annex B stream sent through the payload format comes out as the stream of the units
   carried, which are all but the dropped ones when they are grouped.
   */
  lemma StreamArrives(payload: Bytes, mtu: nat)
    requires forall k :: 0 <= k < |Units(payload)| ==> Sendable(Units(payload)[k], mtu)
    ensures DepacketizeAll(None, EmitAll(Held(None, None), Units(payload), mtu).1, false)
         == Done((None, Join(ArrivedAll(Carried(Held(None, None), Units(payload), mtu), mtu))))
    ensures Grouped(Kept(Units(payload)), mtu) ==>
      DepacketizeAll(None, EmitAll(Held(None, None), Units(payload), mtu).1, false)
        == Done((None, Join(ArrivedAll(Kept(Units(payload)), mtu))))
  {
    EndToEnd(Held(None, None), Units(payload), mtu, false);
    FramedIsJoin(ArrivedAll(Carried(Held(None, None), Units(payload), mtu), mtu));
    NothingLost(Units(payload), mtu);
  }
}
