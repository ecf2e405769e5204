/**
 The lossy path of the FEC example: an interceptor at the bottom of the write chain that
 swallows one media packet in `every` and lets control and repair packets through.
 `Kept` says which packets leave, from the calls alone.
 */
module DropFilter {
  import opened Arithmetic
  import opened Wrappers

  datatype Packet = Rtp(ssrc: nat, id: nat) | Rtcp(id: nat)

  datatype Filter = Filter(
    every: nat,
    repair: seq<nat>,
    media: nat,
    fec: nat,
    dropped: nat,
    writeQueue: seq<Packet>
  )

  datatype Call =
    | Bind(fec: Option<nat>)
    | Unbind(fec: Option<nat>)
    | Write(packet: Packet)
    | PollWrite

  function NewFilter(every: nat): Filter {
    Filter(every, [], 0, 0, 0, [])
  }

  function HandleWrite(f: Filter, p: Packet): Filter {
    if p.Rtcp? then f.(writeQueue := f.writeQueue + [p])
    else if p.ssrc in f.repair then f.(fec := f.fec + 1, writeQueue := f.writeQueue + [p])
    else
      var g := f.(media := f.media + 1);
      if f.every != 0 && g.media % f.every == 0 then g.(dropped := f.dropped + 1)
      else g.(writeQueue := f.writeQueue + [p])
  }

  function Without(ssrcs: seq<nat>, x: nat): seq<nat> {
    if ssrcs == [] then []
    else if ssrcs[0] == x then Without(ssrcs[1..], x)
    else [ssrcs[0]] + Without(ssrcs[1..], x)
  }

  function Handle(f: Filter, call: Call): (Filter, Option<Packet>) {
    match call
    case Bind(None) => (f, None)
    case Bind(Some(x)) => (f.(repair := f.repair + [x]), None)
    case Unbind(None) => (f, None)
    case Unbind(Some(x)) => (f.(repair := Without(f.repair, x)), None)
    case Write(p) => (HandleWrite(f, p), None)
    case PollWrite =>
      if f.writeQueue == [] then (f, None) else (f.(writeQueue := f.writeQueue[1..]), Some(f.writeQueue[0]))
  }

  /** A filter after some calls, with what polling it has returned. */
  datatype Run = Run(filter: Filter, written: seq<Packet>)

  function RunAll(every: nat, calls: seq<Call>): Run {
    if calls == [] then Run(NewFilter(every), [])
    else
      var before := RunAll(every, calls[..|calls| - 1]);
      var (f, out) := Handle(before.filter, calls[|calls| - 1]);
      Run(f, before.written + if out.Some? then [out.value] else [])
  }

  // ----- what the calls alone say

  /** `x` was bound as a repair SSRC and not unbound since. */
  predicate Bound(calls: seq<Call>, x: nat) {
    exists i :: 0 <= i < |calls| && BoundAt(calls, x, i)
  }

  /** Call `i` writes a packet that is neither control nor repair traffic. */
  predicate IsMedia(calls: seq<Call>, i: nat)
    requires i < |calls|
  {
    calls[i].Write? && calls[i].packet.Rtp? && !Bound(calls[..i], calls[i].packet.ssrc)
  }

  /** Call `i` writes a packet on an SSRC bound for repair. */
  predicate IsRepair(calls: seq<Call>, i: nat)
    requires i < |calls|
  {
    calls[i].Write? && calls[i].packet.Rtp? && Bound(calls[..i], calls[i].packet.ssrc)
  }

  function RepairCount(calls: seq<Call>): nat {
    if calls == [] then 0
    else RepairCount(calls[..|calls| - 1]) + if IsRepair(calls, |calls| - 1) then 1 else 0
  }

  function MediaCount(calls: seq<Call>): nat {
    if calls == [] then 0
    else MediaCount(calls[..|calls| - 1]) + if IsMedia(calls, |calls| - 1) then 1 else 0
  }

  /** Call `i` writes the packet that fills a group of `every` media packets. */
  predicate IsDropped(every: nat, calls: seq<Call>, i: nat)
    requires i < |calls|
  {
    IsMedia(calls, i) && every != 0 && MediaCount(calls[..i + 1]) % every == 0
  }

  /** The written packets that are not dropped, in order. */
  function Kept(every: nat, calls: seq<Call>): seq<Packet> {
    if calls == [] then []
    else
      var n := |calls| - 1;
      Kept(every, calls[..n]) + if calls[n].Write? && !IsDropped(every, calls, n) then [calls[n].packet] else []
  }

  function DropCount(every: nat, calls: seq<Call>): nat {
    if calls == [] then 0
    else DropCount(every, calls[..|calls| - 1]) + if IsDropped(every, calls, |calls| - 1) then 1 else 0
  }

  // ----- bindings

  lemma {:induction false} WithoutLaw(ssrcs: seq<nat>, x: nat, y: nat)
    ensures y in Without(ssrcs, x) <==> y in ssrcs && y != x
  {
    if ssrcs != [] {
      assert ssrcs == [ssrcs[0]] + ssrcs[1..];
      WithoutLaw(ssrcs[1..], x, y);
    }
  }

  /** `Bind` at `i` still counts. */
  predicate BoundAt(calls: seq<Call>, x: nat, i: nat) {
    i < |calls| && calls[i] == Bind(Some(x)) && Unbind(Some(x)) !in calls[i + 1..]
  }

  lemma BoundAtSnoc(calls: seq<Call>, call: Call, x: nat, i: nat)
    ensures BoundAt(calls + [call], x, i) <==>
      (i == |calls| && call == Bind(Some(x))) || (BoundAt(calls, x, i) && call != Unbind(Some(x)))
  {
    var all := calls + [call];
    if i < |calls| {
      assert all[i + 1..] == calls[i + 1..] + [call];
    } else if i == |calls| {
      assert all[i + 1..] == [];
    }
  }

  lemma BoundSnoc(calls: seq<Call>, call: Call, x: nat)
    ensures Bound(calls + [call], x) <==> call == Bind(Some(x)) || (Bound(calls, x) && call != Unbind(Some(x)))
  {
    if Bound(calls + [call], x) {
      var i :| BoundAt(calls + [call], x, i);
      BoundAtSnoc(calls, call, x, i);
    }
    if call == Bind(Some(x)) {
      BoundAtSnoc(calls, call, x, |calls|);
    } else if Bound(calls, x) && call != Unbind(Some(x)) {
      var i :| BoundAt(calls, x, i);
      BoundAtSnoc(calls, call, x, i);
    }
  }

  /** The filter's list of repair SSRCs is what the calls have bound. */
  lemma {:induction false} RepairLaw(every: nat, calls: seq<Call>, x: nat)
    ensures x in RunAll(every, calls).filter.repair <==> Bound(calls, x)
  {
    if calls != [] {
      var n := |calls| - 1;
      RepairLaw(every, calls[..n], x);
      BoundSnoc(calls[..n], calls[n], x);
      assert calls == calls[..n] + [calls[n]];
      match calls[n]
      case Unbind(Some(y)) => WithoutLaw(RunAll(every, calls[..n]).filter.repair, y, x);
      case _ =>
    }
  }

  // ----- every sequence of calls

  lemma Last(calls: seq<Call>) returns (n: nat)
    requires calls != []
    ensures n == |calls| - 1 && calls[..n + 1] == calls
  {
    n := |calls| - 1;
  }

  /** The counters: every media and every repair packet is counted, and one drop for each that fills a group. */
  lemma {:induction false} CounterLaw(every: nat, calls: seq<Call>)
    ensures var f := RunAll(every, calls).filter;
      && f.every == every && f.media == MediaCount(calls) && f.fec == RepairCount(calls)
      && f.dropped == DropCount(every, calls)
  {
    if calls != [] {
      var n := Last(calls);
      CounterLaw(every, calls[..n]);
      if calls[n].Write? && calls[n].packet.Rtp? {
        RepairLaw(every, calls[..n], calls[n].packet.ssrc);
      }
    }
  }

  /** What a write does to the queue. */
  lemma WriteLaw(every: nat, calls: seq<Call>)
    requires calls != [] && calls[|calls| - 1].Write?
    ensures var n := |calls| - 1;
      RunAll(every, calls).filter.writeQueue ==
        RunAll(every, calls[..n]).filter.writeQueue + if IsDropped(every, calls, n) then [] else [calls[n].packet]
  {
    var n := Last(calls);
    CounterLaw(every, calls[..n]);
    var queue := RunAll(every, calls[..n]).filter.writeQueue;
    assert queue + [] == queue;
    if calls[n].packet.Rtp? {
      RepairLaw(every, calls[..n], calls[n].packet.ssrc);
    }
  }

  /** Every packet that is not dropped has left or is queued, in the order written, once. */
  lemma {:induction false} NothingElseLost(every: nat, calls: seq<Call>)
    ensures RunAll(every, calls).written + RunAll(every, calls).filter.writeQueue == Kept(every, calls)
  {
    if calls != [] {
      var n := |calls| - 1;
      NothingElseLost(every, calls[..n]);
      var before := RunAll(every, calls[..n]);
      var queue := before.filter.writeQueue;
      assert before.written + [] == before.written;
      if calls[n].Write? {
        WriteLaw(every, calls);
      } else if calls[n].PollWrite? && queue != [] {
        assert before.written + queue == before.written + [queue[0]] + queue[1..];
      }
    }
  }

  /** Drops are the media packets divided by `every`, rounded down; none when it is zero. */
  lemma {:induction false} DropRate(every: nat, calls: seq<Call>)
    ensures DropCount(every, calls) == if every == 0 then 0 else MediaCount(calls) / every
  {
    if calls != [] {
      var n := Last(calls);
      DropRate(every, calls[..n]);
      if every != 0 {
        DivStep(MediaCount(calls[..n]), every);
      }
    }
  }

  /** The indices of the calls that write media packets. */
  function MediaCalls(calls: seq<Call>): seq<nat> {
    if calls == [] then []
    else MediaCalls(calls[..|calls| - 1]) + if IsMedia(calls, |calls| - 1) then [|calls| - 1] else []
  }

  lemma {:induction false} MediaCallLaw(calls: seq<Call>, k: nat)
    requires k < |MediaCalls(calls)|
    ensures var i := MediaCalls(calls)[k]; i < |calls| && IsMedia(calls, i) && MediaCount(calls[..i + 1]) == k + 1
  {
    var n := Last(calls);
    MediaCallCount(calls);
    MediaCallCount(calls[..n]);
    if k < |MediaCalls(calls[..n])| {
      MediaCallLaw(calls[..n], k);
      var i := MediaCalls(calls)[k];
      assert calls[..n][..i] == calls[..i] && calls[..n][..i + 1] == calls[..i + 1];
    }
  }

  lemma {:induction false} MediaCallCount(calls: seq<Call>)
    ensures |MediaCalls(calls)| == MediaCount(calls)
  {
    if calls != [] {
      MediaCallCount(calls[..|calls| - 1]);
    }
  }

  /** Among any `every` media packets in a row exactly one is dropped. */
  lemma OneInEvery(every: nat, calls: seq<Call>, k: nat) returns (lost: nat)
    requires every > 0 && k + every <= |MediaCalls(calls)|
    ensures k <= lost < k + every
    ensures forall t :: k <= t < k + every ==>
      MediaCalls(calls)[t] < |calls| && (IsDropped(every, calls, MediaCalls(calls)[t]) <==> t == lost)
  {
    lost := k + (every - 1 - k % every);
    forall t | k <= t < k + every
      ensures MediaCalls(calls)[t] < |calls| && (IsDropped(every, calls, MediaCalls(calls)[t]) <==> t == lost)
    {
      MediaCallLaw(calls, t);
      MultipleInWindow(every, k, t);
    }
  }

  lemma MultipleInWindow(every: nat, k: nat, t: nat)
    requires every > 0 && k <= t < k + every
    ensures (t + 1) % every == 0 <==> t == k + (every - 1 - k % every)
  {
    var q, r := k / every, k % every;
    assert k == q * every + r;
    DropMultiple(q, every, t + 1 - k + r);
    assert t + 1 == q * every + (t + 1 - k + r);
    SmallRemainder(t + 1 - k + r, every);
  }

  lemma SmallRemainder(a: nat, n: nat)
    requires 0 < a < 2 * n
    ensures a % n == 0 <==> a == n
  {
    if a < n {
      DivModUnique(a, n, 0, a);
    } else {
      DivModUnique(a, n, 1, a - n);
    }
  }

  // ----- the same as an object updated in place

  class Interceptor {
    const dropOneIn: nat
    var fecSsrcs: seq<nat>
    var mediaPackets: nat
    var fecPackets: nat
    var droppedPackets: nat
    var writeQueue: seq<Packet>

    constructor (dropOneIn: nat)
      ensures State() == NewFilter(dropOneIn)
    {
      this.dropOneIn := dropOneIn;
      fecSsrcs := [];
      mediaPackets, fecPackets, droppedPackets := 0, 0, 0;
      writeQueue := [];
    }

    function State(): Filter
      reads this
    {
      Filter(dropOneIn, fecSsrcs, mediaPackets, fecPackets, droppedPackets, writeQueue)
    }

    method HandleWritePacket(p: Packet)
      modifies this
      ensures State() == HandleWrite(old(State()), p)
    {
      if p.Rtcp? {
        writeQueue := writeQueue + [p];
        return;
      }
      if p.ssrc in fecSsrcs {
        fecPackets := fecPackets + 1;
        writeQueue := writeQueue + [p];
        return;
      }
      mediaPackets := mediaPackets + 1;
      if dropOneIn != 0 && mediaPackets % dropOneIn == 0 {
        droppedPackets := droppedPackets + 1;
        return;
      }
      writeQueue := writeQueue + [p];
    }

    method PollWritePacket() returns (r: Option<Packet>)
      modifies this
      ensures (State(), r) == Handle(old(State()), PollWrite)
    {
      if writeQueue == [] {
        return None;
      }
      r := Some(writeQueue[0]);
      writeQueue := writeQueue[1..];
    }

    method BindLocalStream(fec: Option<nat>)
      modifies this
      ensures State() == Handle(old(State()), Bind(fec)).0
    {
      if fec.Some? {
        fecSsrcs := fecSsrcs + [fec.value];
      }
    }

    method UnbindLocalStream(fec: Option<nat>)
      modifies this
      ensures State() == Handle(old(State()), Unbind(fec)).0
    {
      if fec.Some? {
        fecSsrcs := Without(fecSsrcs, fec.value);
      }
    }
  }
}
