/**
 Perfect negotiation, one peer: the handler that wraps a connection, and the three
 things its event loop does with it (waking up, receiving from the relay, being told to
 renegotiate). Each step is a function on the peer's value; `Handler` is the same code
 as an object updated in place.
 */
module Negotiation {
  import opened Wrappers
  import opened Signaling

  datatype Message = Relayed(description: Description) | Candidate

  /** What the handler and its loop keep between steps. `failed` means the task has ended with an error. */
  datatype Peer = Peer(
    polite: bool,
    making: bool,
    ignore: bool,
    tracked: State,
    conn: Connection,
    pending: bool,
    failed: bool
  )

  function NewPeer(polite: bool): Peer {
    Peer(polite, false, false, Stable, NEW_CONNECTION, false, false)
  }

  /** What the connection decides on its own during a step. */
  datatype Choice = Choice(
    newCandidate: bool,
    neededAfterRollback: bool,
    neededAfterDescription: bool,
    neededAfterAnswer: bool
  )

  const ROLLBACK := Description(Rollback, Empty)

  predicate Collides(p: Peer, d: Description) {
    d.kind == Offer && (p.making || p.tracked != Stable)
  }

  /** The tracked state once a remote description of this kind has been applied. */
  function TrackRemote(kind: Kind, tracked: State): State {
    match kind
    case Offer => HaveRemoteOffer
    case Answer => Stable
    case _ => tracked
  }

  /** Answers when the tracked state asks for it. */
  function Respond(p: Peer, c: Choice): Result<(Peer, Option<Description>)> {
    if p.tracked == HaveRemoteOffer then
      var (conn, answer) :- CreateAnswer(AddLocalCandidate(p.conn, c.newCandidate), p.polite);
      var done :- SetLocalDescription(conn, answer, c.neededAfterAnswer);
      Success((p.(conn := done, tracked := Stable), Some(answer)))
    else
      Success((p, None))
  }

  function OnDescription(p: Peer, d: Description, c: Choice): Result<(Peer, Option<Description>)> {
    var collision := Collides(p, d);
    var p1 := p.(ignore := !p.polite && collision);
    if p1.ignore then Success((p1, None))
    else
      var p2 :- if p1.polite && collision then RollBack(p1, c) else Success(p1);
      Accept(p2, d, c)
  }

  /** Applies the description, tracks the state it leads to, and answers. */
  function Accept(p: Peer, d: Description, c: Choice): Result<(Peer, Option<Description>)> {
    var conn :- SetRemoteDescription(p.conn, d, c.neededAfterDescription);
    Respond(p.(conn := conn, tracked := TrackRemote(d.kind, p.tracked)), c)
  }

  function RollBack(p: Peer, c: Choice): Result<Peer> {
    var conn :- SetLocalDescription(p.conn, ROLLBACK, c.neededAfterRollback);
    Success(p.(conn := conn, tracked := Stable))
  }

  function OnCandidate(p: Peer): Result<Peer> {
    if p.ignore then Success(p)
    else
      var conn :- AddRemoteCandidate(p.conn);
      Success(p.(conn := conn))
  }

  /** Polls the connection's events until none is left; candidates go to the other peer. */
  function Drain(p: Peer): (Peer, seq<Message>)
    decreases |p.conn.events|
  {
    if p.conn.events == [] then (p, [])
    else
      var event := p.conn.events[0];
      var q := p.(conn := p.conn.(events := p.conn.events[1..]));
      match event
      case SignalingChange(state) => Drain(q.(tracked := state))
      case NegotiationNeeded => Drain(q.(pending := true))
      case IceCandidate => var (r, out) := Drain(q); (r, [Candidate] + out)
  }

  /** Makes an offer if one is pending and the tracked state is stable. */
  function OfferIfPending(p: Peer, c: Choice): Result<(Peer, Option<Description>)> {
    if !p.pending then Success((p, None))
    else if p.tracked != Stable then Success((p.(pending := false), None))
    else
      var (conn, offer) := CreateOffer(AddLocalCandidate(p.conn, c.newCandidate), p.polite);
      var done :- SetLocalDescription(conn, offer, false);
      Success((p.(pending := false, conn := done, tracked := HaveLocalOffer, making := false), Some(offer)))
  }

  /** The same code as an object; every method returns whether it went through without an error. */
  class Handler {
    var pc: Connection
    const polite: bool
    var isMakingOffer: bool
    var ignoreOffer: bool
    var signalingState: State
    var pendingNegotiation: bool

    constructor (polite: bool)
      ensures Snapshot() == NewPeer(polite)
    {
      this.pc := NEW_CONNECTION;
      this.polite := polite;
      this.isMakingOffer := false;
      this.ignoreOffer := false;
      this.signalingState := Stable;
      this.pendingNegotiation := false;
    }

    function Snapshot(): Peer
      reads this
    {
      Peer(polite, isMakingOffer, ignoreOffer, signalingState, pc, pendingNegotiation, false)
    }

    method HandleRemoteDescriptionWithResponse(d: Description, c: Choice) returns (r: Result<Option<Description>>)
      modifies this
      ensures match OnDescription(old(Snapshot()), d, c)
        case Failure => r == Failure
        case Success((p, response)) => r == Success(response) && Snapshot() == p
    {
      var offerCollision := d.kind == Offer && (isMakingOffer || signalingState != Stable);
      ignoreOffer := !polite && offerCollision;
      if ignoreOffer {
        return Success(None);
      }
      if polite && offerCollision {
        var rolled := UndoOwnOffer(c);
        if !rolled { return Failure; }
      }
      r := AcceptDescription(d, c);
    }

    method AcceptDescription(d: Description, c: Choice) returns (r: Result<Option<Description>>)
      modifies this
      ensures match Accept(old(Snapshot()), d, c)
        case Failure => r == Failure
        case Success((p, response)) => r == Success(response) && Snapshot() == p
    {
      var applied := SetRemoteDescription(pc, d, c.neededAfterDescription);
      if applied.Failure? { return Failure; }
      pc := applied.value;
      signalingState := match d.kind
        case Offer => HaveRemoteOffer
        case Answer => Stable
        case _ => signalingState;
      r := AnswerIfOffered(c);
    }

    method UndoOwnOffer(c: Choice) returns (ok: bool)
      modifies this
      ensures match RollBack(old(Snapshot()), c)
        case Failure => !ok
        case Success(p) => ok && Snapshot() == p
    {
      var rolled := SetLocalDescription(pc, ROLLBACK, c.neededAfterRollback);
      if rolled.Failure? { return false; }
      pc := rolled.value;
      signalingState := Stable;
      return true;
    }

    method AnswerIfOffered(c: Choice) returns (r: Result<Option<Description>>)
      modifies this
      ensures match Respond(old(Snapshot()), c)
        case Failure => r == Failure
        case Success((p, response)) => r == Success(response) && Snapshot() == p
    {
      if signalingState == HaveRemoteOffer {
        pc := AddLocalCandidate(pc, c.newCandidate);
        var created := CreateAnswer(pc, polite);
        if created.Failure? { return Failure; }
        var (conn, answer) := created.value;
        var local := SetLocalDescription(conn, answer, c.neededAfterAnswer);
        if local.Failure? { return Failure; }
        pc := local.value;
        signalingState := Stable;
        return Success(Some(answer));
      }
      return Success(None);
    }

    method HandleRemoteCandidate() returns (ok: bool)
      modifies this
      ensures match OnCandidate(old(Snapshot()))
        case Failure => !ok
        case Success(p) => ok && Snapshot() == p
    {
      if ignoreOffer {
        return true;
      }
      var added := AddRemoteCandidate(pc);
      if added.Failure? { return false; }
      pc := added.value;
      return true;
    }

    method DrainEvents() returns (sent: seq<Message>)
      modifies this
      ensures (Snapshot(), sent) == Drain(old(Snapshot()))
    {
      sent := [];
      while pc.events != []
        invariant Drain(old(Snapshot())).0 == Drain(Snapshot()).0
        invariant Drain(old(Snapshot())).1 == sent + Drain(Snapshot()).1
        decreases |pc.events|
      {
        var event := pc.events[0];
        pc := pc.(events := pc.events[1..]);
        match event
        case NegotiationNeeded => pendingNegotiation := true;
        case IceCandidate => sent := sent + [Candidate];
        case SignalingChange(state) => signalingState := state;
      }
      assert sent + [] == sent;
    }

    method HandlePendingNegotiation(c: Choice) returns (r: Result<Option<Description>>)
      modifies this
      ensures match OfferIfPending(old(Snapshot()), c)
        case Failure => r == Failure
        case Success((p, offer)) => r == Success(offer) && Snapshot() == p
    {
      if pendingNegotiation {
        pendingNegotiation := false;
        if signalingState != Stable {
          return Success(None);
        }
        isMakingOffer := true;
        pc := AddLocalCandidate(pc, c.newCandidate);
        var (conn, offer) := CreateOffer(pc, polite);
        var local := SetLocalDescription(conn, offer, false);
        if local.Failure? { return Failure; }
        pc := local.value;
        signalingState := HaveLocalOffer;
        isMakingOffer := false;
        return Success(Some(offer));
      }
      return Success(None);
    }
  }
}
