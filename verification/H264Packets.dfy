/**
 What the payloader puts into packets and the depacketizer makes of packets from anywhere:
 every packet fits the MTU, the fragments of a unit are the only ones RFC 6184 allows
 that fill all packets but the last, and any train of fragments is joined at its end bit.
 */
module H264Packets {
  import opened Arithmetic
  import opened Sequences
  import opened Wrappers
  import opened AnnexB
  import opened H264

  // ----- sizes

  /** No packet is longer than the MTU. */
  predicate AllFit(packets: seq<Bytes>, mtu: nat) {
    forall p :: p in packets ==> |p| <= mtu
  }

  lemma {:induction false} FragmentsFit(unit: Bytes, mtu: nat, index: nat)
    requires mtu > 2 && 1 <= index <= |unit|
    ensures AllFit(FragmentsFrom(unit, mtu, index), mtu)
    decreases |unit| - index
  {
    if index < |unit| {
      FragmentsFit(unit, mtu, index + FragmentSize(unit, mtu, index));
    }
  }

  lemma EmittedFit(h: Held, unit: Bytes, mtu: nat)
    ensures AllFit(Emit(h, unit, mtu).1, mtu)
  {
    if |unit| > mtu > 2 {
      FragmentsFit(unit, mtu, 1);
    }
  }

  /** Whatever units are payloaded, every packet fits the MTU. */
  lemma {:induction false} PacketsFit(h: Held, units: seq<Bytes>, mtu: nat)
    ensures forall p :: p in EmitAll(h, units, mtu).1 ==> |p| <= mtu
    decreases |units|
  {
    if units != [] {
      EmittedFit(h, units[0], mtu);
      PacketsFit(Emit(h, units[0], mtu).0, units[1..], mtu);
    }
  }

  /** Held parameter sets go out in front of the next coded unit, as one aggregate, if that fits the MTU. */
  lemma AggregateShape(sps: Bytes, pps: Bytes, unit: Bytes, mtu: nat)
    requires IsCoded(unit) && 5 + |sps| + |pps| <= mtu
    ensures var packets := Emit(Held(Some(sps), Some(pps)), unit, mtu).1;
      && packets != [] && |packets[0]| == 5 + |sps| + |pps|
      && packets[0][0] == 0x78 && packets[0][1..] == Prefixed([sps, pps])
      && packets[1..] == UnitPayloads(unit, mtu)
  {
    StapParts(sps, pps);
  }

  // ----- fragments

  /** Section 5.8 of RFC 6184, bit by bit: the unit's importance and type, and the start and end marks. */
  predicate IsFragment(p: Bytes, unit: Bytes, first: bool, last: bool)
    requires unit != []
  {
    && |p| >= 3
    && p[0] % 32 == 28 && p[0] / 32 == unit[0] / 32 % 4
    && p[1] % 32 == unit[0] % 32 && p[1] / 32 % 2 == 0
    && (p[1] / 128 == 1 <==> first) && (p[1] / 64 % 2 == 1 <==> last)
  }

  /** What the packets carry after their two header bytes. */
  function Bodies(packets: seq<Bytes>): Bytes {
    if packets == [] then []
    else (if |packets[0]| >= 2 then packets[0][2..] else []) + Bodies(packets[1..])
  }

  /** The packets carry `rest`, the end of the unit, filling all of them but the last. */
  predicate Fragmented(unit: Bytes, rest: Bytes, first: bool, mtu: nat, packets: seq<Bytes>)
    requires unit != []
  {
    var n := |packets| - 1;
    && n >= 0
    && (forall k :: 0 <= k <= n ==> IsFragment(packets[k], unit, first && k == 0, k == n))
    && (forall k :: 0 <= k < n ==> |packets[k]| == mtu)
    && |packets[n]| <= mtu
    && Bodies(packets) == rest
  }

  lemma HeaderFields(unit: Bytes, index: nat, size: nat, part: Bytes)
    requires 1 <= index && 0 < size && index + size <= |unit| && |part| == size
    requires index == 1 ==> index + size < |unit|
    ensures IsFragment(FuHeader(unit, index, size) + part, unit, index == 1, index + size == |unit|)
  {
    KindFields(unit[0]);
    MarkFields(unit[0], if index == 1 then 128 else if index + size == |unit| then 64 else 0);
  }

  lemma KindFields(b: Byte)
    ensures (FU_A + RefIdc(b)) % 32 == 28 && (FU_A + RefIdc(b)) / 32 == b / 32 % 4
  {
    var q := b / 32;
    DivModUnique(b as int, 128, q / 4, 32 * (q % 4) + b % 32);
    DivModUnique(28 + 32 * (q % 4), 32, q % 4, 28);
  }

  lemma MarkFields(b: Byte, mark: Byte)
    requires mark == 0 || mark == 64 || mark == 128
    ensures var m := NaluType(b) + mark;
      && m % 32 == b % 32 && m / 32 % 2 == 0
      && (m / 128 == 1 <==> mark == 128) && (m / 64 % 2 == 1 <==> mark == 64)
  {}

  /** Another fragment in front. */
  lemma FragmentBefore(unit: Bytes, p: Bytes, rest: Bytes, first: bool, mtu: nat, packets: seq<Bytes>)
    requires unit != [] && IsFragment(p, unit, first, false) && |p| == mtu
    requires Fragmented(unit, rest, false, mtu, packets)
    ensures Fragmented(unit, p[2..] + rest, first, mtu, [p] + packets)
  {
    var all := [p] + packets;
    assert all[1..] == packets;
    forall k | 0 <= k < |all| ensures IsFragment(all[k], unit, first && k == 0, k == |all| - 1) {
      if k > 0 {
        assert all[k] == packets[k - 1];
      }
    }
    forall k | 0 <= k < |all| - 1 ensures |all[k]| == mtu {
      if k > 0 {
        assert all[k] == packets[k - 1];
      }
    }
  }

  lemma LastFragment(unit: Bytes, p: Bytes, first: bool, mtu: nat)
    requires unit != [] && IsFragment(p, unit, first, true) && |p| <= mtu
    ensures Fragmented(unit, p[2..], first, mtu, [p])
  {
    assert [p][1..] == [];
    assert Bodies([]) == [] && p[2..] + [] == p[2..];
  }

  lemma NextFragment(unit: Bytes, mtu: nat, index: nat) returns (p: Bytes, next: nat)
    requires mtu > 2 && 1 <= index < |unit| && (index == 1 ==> mtu < |unit|)
    ensures index < next <= |unit| && FragmentsFrom(unit, mtu, index) == [p] + FragmentsFrom(unit, mtu, next)
    ensures IsFragment(p, unit, index == 1, next == |unit|) && p[2..] == unit[index..next]
    ensures |p| <= mtu && (next < |unit| ==> |p| == mtu)
  {
    var size := FragmentSize(unit, mtu, index);
    var part := unit[index..index + size];
    p, next := FuHeader(unit, index, size) + part, index + size;
    HeaderFields(unit, index, size, part);
  }

  lemma {:induction false} FragmentsShape(unit: Bytes, mtu: nat, index: nat)
    requires mtu > 2 && 1 <= index < |unit| && (index == 1 ==> mtu < |unit|)
    ensures Fragmented(unit, unit[index..], index == 1, mtu, FragmentsFrom(unit, mtu, index))
    decreases |unit| - index
  {
    var p, next := NextFragment(unit, mtu, index);
    assert unit[index..next] + unit[next..] == unit[index..];
    if next == |unit| {
      LastFragment(unit, p, index == 1, mtu);
    } else {
      FragmentsShape(unit, mtu, next);
      FragmentBefore(unit, p, unit[next..], index == 1, mtu, FragmentsFrom(unit, mtu, next));
    }
  }

  /** How many bytes are left says whether a packet is the last. */
  lemma FirstBody(unit: Bytes, rest: Bytes, first: bool, mtu: nat, packets: seq<Bytes>)
    requires unit != [] && mtu > 2 && Fragmented(unit, rest, first, mtu, packets)
    ensures |packets| == 1 <==> |rest| <= mtu - 2
    ensures |packets| == 1 ==> packets[0][2..] == rest
    ensures |packets| > 1 ==>
      && |rest| > mtu - 2 && packets[0][2..] == rest[..mtu - 2]
      && Fragmented(unit, rest[mtu - 2..], false, mtu, packets[1..])
  {
    var tail := packets[1..];
    assert rest == packets[0][2..] + Bodies(tail);
    if |packets| == 1 {
      assert tail == [];
    } else {
      assert tail[0] == packets[1] && |tail[0]| >= 3;
      assert Bodies(tail) == tail[0][2..] + Bodies(tail[1..]);
      forall k | 0 <= k < |tail| ensures IsFragment(tail[k], unit, false, k == |tail| - 1) {
        assert tail[k] == packets[k + 1];
      }
    }
  }

  /**
   The fragments of a unit: at least two, all full but the last, which holds at least a
   byte of the unit; the start bit on the first only, the end bit on the last only; and
   the bodies joined are the unit without its header byte.
   */
  lemma FragmentShape(unit: Bytes, mtu: nat)
    requires 2 < mtu < |unit|
    ensures var packets := UnitPayloads(unit, mtu);
      var n := |packets| - 1;
      && n >= 1
      && (forall k :: 0 <= k <= n ==> IsFragment(packets[k], unit, k == 0, k == n))
      && (forall k :: 0 <= k < n ==> |packets[k]| == mtu)
      && 3 <= |packets[n]| <= mtu
      && Bodies(packets) == unit[1..]
  {
    FragmentsShape(unit, mtu, 1);
    FirstBody(unit, unit[1..], true, mtu, UnitPayloads(unit, mtu));
  }

  lemma BitFields(b: Byte)
    ensures b as int == 128 * (b / 128) + 64 * (b / 64 % 2) + 32 * (b / 32 % 2) + b % 32
  {
    var q := b / 32;
    DivModUnique(b as int, 64, q / 2, 32 * (q % 2) + b % 32);
    DivModUnique(b as int, 128, q / 2 / 2, 64 * (q / 2 % 2) + 32 * (q % 2) + b % 32);
  }

  lemma SameFragment(p: Bytes, q: Bytes, unit: Bytes, first: bool, last: bool)
    requires unit != [] && IsFragment(p, unit, first, last) && IsFragment(q, unit, first, last) && p[2..] == q[2..]
    ensures p == q
  {
    BitFields(p[1]);
    BitFields(q[1]);
    assert p[0] == q[0] && p[1] == q[1];
    assert p == [p[0], p[1]] + p[2..] && q == [q[0], q[1]] + q[2..];
  }

  /** No other packets meet that description. */
  lemma {:induction false} FragmentsUnique(
    unit: Bytes, rest: Bytes, first: bool, mtu: nat, a: seq<Bytes>, b: seq<Bytes>)
    requires unit != [] && mtu > 2
    requires Fragmented(unit, rest, first, mtu, a) && Fragmented(unit, rest, first, mtu, b)
    ensures a == b
    decreases |a|
  {
    FirstBody(unit, rest, first, mtu, a);
    FirstBody(unit, rest, first, mtu, b);
    SameFragment(a[0], b[0], unit, first, |a| == 1);
    if |a| > 1 {
      FragmentsUnique(unit, rest[mtu - 2..], false, mtu, a[1..], b[1..]);
    }
    assert a == [a[0]] + a[1..] && b == [b[0]] + b[1..];
  }

  // ----- what comes out

  /** A packet is refused exactly when it is unreadable, or an aggregate that breaks off inside a unit. */
  lemma RefusedExactly(buffer: Option<Bytes>, packet: Bytes, avc: bool)
    ensures Depacketize(buffer, packet, avc).Refused? <==>
      || Unreadable(packet)
      || (NaluType(packet[0]) == STAP_A && !WholeUnits(packet[1..]) && !OneByteOver(packet[1..]))
  {
    if !Unreadable(packet) && NaluType(packet[0]) == STAP_A {
      UnstapOutcome(packet[1..], avc);
    }
  }

  /** A readable packet that is not a fragment comes out without a look at, or a change to, the fragments held. */
  lemma FragmentsWait(buffer: Option<Bytes>, packet: Bytes, avc: bool)
    requires packet != [] && NaluType(packet[0]) != FU_A && Depacketize(buffer, packet, avc).Done?
    ensures Depacketize(buffer, packet, avc).value.0 == buffer
    ensures forall other :: Depacketize(other, packet, avc) == Done((other, Depacketize(buffer, packet, avc).value.1))
  {}

  /** The packet is a fragment, and carries the end bit or not. */
  predicate FragmentPacket(p: Bytes, last: bool) {
    |p| > 2 && p[0] % 32 == 28 && (p[1] / 64 % 2 == 1 <==> last)
  }

  /** Fragments of which the last one only has its end bit set. */
  predicate FragmentTrain(packets: seq<Bytes>) {
    var n := |packets| - 1;
    n >= 0 && FragmentPacket(packets[n], true) && forall k :: 0 <= k < n ==> FragmentPacket(packets[k], false)
  }

  lemma TrainGoesOn(packets: seq<Bytes>)
    requires FragmentTrain(packets) && |packets| > 1
    ensures FragmentTrain(packets[1..])
  {}

  function Waiting(buffer: Option<Bytes>): Bytes {
    if buffer.Some? then buffer.value else []
  }

  /** The unit the fragments make: importance and type from the last packet, then everything held. */
  function Joined(last: Bytes, body: Bytes): Bytes
    requires |last| > 2
  {
    [(last[0] / 32 % 4 * 32 + last[1] % 32) as Byte] + body
  }

  lemma FragmentTaken(buffer: Option<Bytes>, p: Bytes, last: bool, avc: bool)
    requires FragmentPacket(p, last)
    ensures var body := Waiting(buffer) + p[2..];
      Depacketize(buffer, p, avc) ==
        if last then Done((None, Prefix(avc, |body| + 1) + Joined(p, body))) else Done((Some(body), []))
  {
    var body := Waiting(buffer) + p[2..];
    JoinedHeader(p[0], p[1]);
    if last {
      Associate(Prefix(avc, |body| + 1), [RefIdc(p[0]) + NaluType(p[1])], body);
    }
  }

  lemma JoinedHeader(a: Byte, b: Byte)
    ensures RefIdc(a) + NaluType(b) == a / 32 % 4 * 32 + b % 32
  {}

  /**
   Any train of fragments, whatever their start bits and whatever is already held: nothing
   comes out before the end bit, and then all the bodies come out in order as one unit.
   */
  lemma {:induction false} FragmentsJoin(buffer: Option<Bytes>, packets: seq<Bytes>, avc: bool)
    requires FragmentTrain(packets)
    ensures var body := Waiting(buffer) + Bodies(packets);
      DepacketizeAll(buffer, packets, avc)
        == Done((None, Prefix(avc, |body| + 1) + Joined(packets[|packets| - 1], body)))
    decreases |packets|
  {
    var p, tail := packets[0], packets[1..];
    var held := Waiting(buffer) + p[2..];
    FragmentTaken(buffer, p, |packets| == 1, avc);
    Associate(Waiting(buffer), p[2..], Bodies(tail));
    if |packets| == 1 {
      assert tail == [];
      Nothing(held);
      Nothing(Prefix(avc, |held| + 1) + Joined(p, held));
    } else {
      TrainGoesOn(packets);
      FragmentsJoin(Some(held), tail, avc);
      var body := held + Bodies(tail);
      Nothing(Prefix(avc, |body| + 1) + Joined(packets[|packets| - 1], body));
    }
  }

  // ----- length-prefixed output

  /** Cuts a stream in which every unit follows its length in four bytes. */
  function ReadLengths(bytes: Bytes): Option<seq<Bytes>> {
    if bytes == [] then Some([])
    else if |bytes| < 4 then None
    else
      var size := BigEndian(bytes[0], bytes[1], bytes[2], bytes[3]);
      if |bytes| < 4 + size then None
      else
        match ReadLengths(bytes[4 + size..])
        case None => None
        case Some(units) => Some([bytes[4..4 + size]] + units)
  }

  function BigEndian(a: Byte, b: Byte, c: Byte, d: Byte): nat {
    0x100_0000 * (a as int) + 0x1_0000 * (b as int) + 0x100 * (c as int) + d as int
  }

  lemma LengthReadsBack(n: nat)
    requires n < 0x1_0000_0000
    ensures var p := Prefix(true, n); BigEndian(p[0], p[1], p[2], p[3]) == n
  {
    LowBytes(n / 65536);
    LowBytes(n);
  }

  lemma LowBytes(n: nat)
    ensures 0x100 * (n / 256 % 256) + n % 256 == n % 65536
  {
    var q := n / 256;
    DivModUnique(n, 65536, q / 256, 256 * (q % 256) + n % 256);
  }

  /** With length prefixes, units of less than 4 GiB can be told apart again, whatever bytes they hold. */
  lemma {:induction false} LengthsReadBack(units: seq<Bytes>)
    requires forall k :: 0 <= k < |units| ==> |units[k]| < 0x1_0000_0000
    ensures ReadLengths(Framed(units, true)) == Some(units)
  {
    if units != [] {
      var u, rest := units[0], Framed(units[1..], true);
      LengthsReadBack(units[1..]);
      LengthReadsBack(|u|);
      var bytes := Prefix(true, |u|) + u + rest;
      assert bytes[4..4 + |u|] == u && bytes[4 + |u|..] == rest;
      assert units == [u] + units[1..];
    }
  }
}
