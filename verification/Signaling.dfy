/**
 The offer/answer half of a peer connection: its signalling state machine, the four
 description slots, and the queue of events the application polls (sections 3.2 and
 4.1.10.2 of RFC 9429). Session descriptions are opaque texts that remember who wrote
 them and, for an answer, which offer it answers.
 */
module Signaling {
  import opened Wrappers

  datatype State = Stable | HaveLocalOffer | HaveRemoteOffer | HaveLocalPranswer | HaveRemotePranswer | Closed

  datatype Kind = Offer | Answer | Pranswer | Rollback

  datatype Side = SetLocal | SetRemote

  datatype Sdp = Empty | OfferText(polite: bool, serial: nat) | AnswerText(polite: bool, serial: nat, to: Sdp)

  datatype Description = Description(kind: Kind, sdp: Sdp)

  datatype Event = SignalingChange(state: State) | IceCandidate | NegotiationNeeded

  datatype Connection = Connection(
    state: State,
    lastOffer: Sdp,
    lastAnswer: Sdp,
    pendingLocal: Option<Description>,
    currentLocal: Option<Description>,
    pendingRemote: Option<Description>,
    currentRemote: Option<Description>,
    events: seq<Event>,
    serial: nat,
    remoteCandidates: nat
  ) {
    /** The pending remote description if there is one, the current one otherwise. */
    function RemoteDescription(): Option<Description> {
      if pendingRemote.Some? then pendingRemote else currentRemote
    }
  }

  const NEW_CONNECTION := Connection(Stable, Empty, Empty, None, None, None, None, [], 0, 0)

  /** Whether applying a description of this kind may take `cur` to `next`. */
  function CheckNextState(cur: State, next: State, side: Side, kind: Kind): Result<State> {
    if kind == Rollback && cur == Stable then Failure
    else
      var allowed :=
        match cur
        case Stable =>
          || (side == SetLocal && kind == Offer && next == HaveLocalOffer)
          || (side == SetRemote && kind == Offer && next == HaveRemoteOffer)
        case HaveLocalOffer =>
          || (side == SetRemote && kind == Answer && next == Stable)
          || (side == SetRemote && kind == Pranswer && next == HaveRemotePranswer)
          || (side == SetLocal && kind == Offer && next == HaveLocalOffer)
          || (side == SetLocal && kind == Rollback && next == Stable)
        case HaveRemotePranswer => side == SetRemote && kind == Answer && next == Stable
        case HaveRemoteOffer =>
          || (side == SetLocal && kind == Answer && next == Stable)
          || (side == SetLocal && kind == Pranswer && next == HaveLocalPranswer)
          || (side == SetRemote && kind == Rollback && next == Stable)
        case HaveLocalPranswer => side == SetLocal && kind == Answer && next == Stable
        case Closed => false;
      if allowed then Success(next) else Failure
  }

  function TargetState(side: Side, kind: Kind): State {
    match kind
    case Offer => if side == SetLocal then HaveLocalOffer else HaveRemoteOffer
    case Pranswer => if side == SetLocal then HaveLocalPranswer else HaveRemotePranswer
    case Answer => Stable
    case Rollback => Stable
  }

  /** A local description has to be the one this connection generated last. */
  predicate MatchesLast(c: Connection, d: Description, side: Side) {
    side == SetLocal ==>
      && (d.kind == Offer ==> d.sdp == c.lastOffer)
      && (d.kind == Answer || d.kind == Pranswer ==> d.sdp == c.lastAnswer)
  }

  /** Where an accepted description is filed. */
  function FileDescription(c: Connection, d: Description, side: Side): Connection {
    match (side, d.kind)
    case (SetLocal, Answer) =>
      c.(currentLocal := Some(d), currentRemote := c.pendingRemote, pendingLocal := None, pendingRemote := None)
    case (SetRemote, Answer) =>
      c.(currentRemote := Some(d), currentLocal := c.pendingLocal, pendingLocal := None, pendingRemote := None)
    case (SetLocal, Rollback) => c.(pendingLocal := None)
    case (SetRemote, Rollback) => c.(pendingRemote := None)
    case (SetLocal, _) => c.(pendingLocal := Some(d))
    case (SetRemote, _) => c.(pendingRemote := Some(d))
  }

  /** `needed` says whether returning to stable finds something still to negotiate. */
  function SetDescription(c: Connection, d: Description, side: Side, needed: bool): Result<Connection> {
    if !MatchesLast(c, d, side) then Failure
    else
      var next :- CheckNextState(c.state, TargetState(side, d.kind), side, d.kind);
      var filed := FileDescription(c, d, side).(state := next);
      var again := if next == Stable && needed then [NegotiationNeeded] else [];
      Success(filed.(events := c.events + [SignalingChange(next)] + again))
  }

  /** An empty text stands for the last one generated. */
  function FillEmpty(c: Connection, d: Description): Description {
    if d.sdp != Empty then d
    else
      match d.kind
      case Offer => d.(sdp := c.lastOffer)
      case Answer => d.(sdp := c.lastAnswer)
      case Pranswer => d.(sdp := c.lastAnswer)
      case Rollback => d
  }

  function SetLocalDescription(c: Connection, d: Description, needed: bool): Result<Connection> {
    SetDescription(c, FillEmpty(c, d), SetLocal, needed)
  }

  function SetRemoteDescription(c: Connection, d: Description, needed: bool): Result<Connection> {
    SetDescription(c, d, SetRemote, needed)
  }

  function CreateOffer(c: Connection, polite: bool): (Connection, Description) {
    var text := OfferText(polite, c.serial);
    (c.(lastOffer := text, serial := c.serial + 1), Description(Offer, text))
  }

  function CreateAnswer(c: Connection, polite: bool): Result<(Connection, Description)> {
    if c.RemoteDescription().None? || (c.state != HaveRemoteOffer && c.state != HaveLocalPranswer) then Failure
    else
      var text := AnswerText(polite, c.serial, c.RemoteDescription().value.sdp);
      Success((c.(lastAnswer := text, serial := c.serial + 1), Description(Answer, text)))
  }

  /** A candidate the agent already has raises no event. */
  function AddLocalCandidate(c: Connection, isNew: bool): Connection {
    if isNew then c.(events := c.events + [IceCandidate]) else c
  }

  function AddRemoteCandidate(c: Connection): Result<Connection> {
    if c.RemoteDescription().None? then Failure else Success(c.(remoteCandidates := c.remoteCandidates + 1))
  }
}
