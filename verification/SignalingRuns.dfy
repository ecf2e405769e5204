/**
 The connection's signalling under any sequence of calls, sensible or not: the state
 always says which descriptions are pending, what is pending says which call is accepted
 next, and a rollback undoes an offer completely.
 */
module SignalingRuns {
  import opened Sequences
  import opened Wrappers
  import opened Signaling

  datatype Call =
    | MakeOffer(polite: bool)
    | MakeAnswer(polite: bool)
    | SetLocally(local: Description, neededThen: bool)
    | SetRemotely(remote: Description, needed: bool)

  function OrElse(r: Result<Connection>, c: Connection): Connection {
    if r.Success? then r.value else c
  }

  /** A call that is refused changes nothing. */
  function Do(c: Connection, call: Call): Connection {
    match call
    case MakeOffer(polite) => CreateOffer(c, polite).0
    case MakeAnswer(polite) => (match CreateAnswer(c, polite) case Failure => c case Success((d, _)) => d)
    case SetLocally(d, needed) => OrElse(SetLocalDescription(c, d, needed), c)
    case SetRemotely(d, needed) => OrElse(SetRemoteDescription(c, d, needed), c)
  }

  function RunCalls(calls: seq<Call>): Connection {
    if calls == [] then NEW_CONNECTION else Do(RunCalls(calls[..|calls| - 1]), calls[|calls| - 1])
  }

  predicate Holds(slot: Option<Description>, kind: Kind) {
    slot.Some? && slot.value.kind == kind
  }

  /** The pending descriptions the state stands for. */
  predicate SlotsMatch(c: Connection) {
    match c.state
    case Stable => c.pendingLocal == None && c.pendingRemote == None
    case HaveLocalOffer => Holds(c.pendingLocal, Offer) && c.pendingRemote == None
    case HaveRemoteOffer => c.pendingLocal == None && Holds(c.pendingRemote, Offer)
    case HaveLocalPranswer => Holds(c.pendingLocal, Pranswer) && Holds(c.pendingRemote, Offer)
    case HaveRemotePranswer => Holds(c.pendingLocal, Offer) && Holds(c.pendingRemote, Pranswer)
    case Closed => false
  }

  /** No session yet, or one side's offer with the other side's answer. */
  predicate SessionPaired(c: Connection) {
    || (c.currentLocal == None && c.currentRemote == None)
    || (Holds(c.currentLocal, Offer) && Holds(c.currentRemote, Answer))
    || (Holds(c.currentLocal, Answer) && Holds(c.currentRemote, Offer))
  }

  lemma AcceptedKeeps(c: Connection, d: Description, side: Side, needed: bool)
    requires SlotsMatch(c) && SessionPaired(c) && SetDescription(c, d, side, needed).Success?
    ensures var r := SetDescription(c, d, side, needed).value; SlotsMatch(r) && SessionPaired(r)
  {}

  /** Whatever was called, the state fits the pending descriptions and the session is an offer with an answer. */
  lemma {:induction false} StateFitsSlots(calls: seq<Call>)
    ensures SlotsMatch(RunCalls(calls)) && SessionPaired(RunCalls(calls))
  {
    if calls != [] {
      var n := |calls| - 1;
      StateFitsSlots(calls[..n]);
      var c := RunCalls(calls[..n]);
      match calls[n]
      case SetLocally(d, needed) =>
        if SetLocalDescription(c, d, needed).Success? { AcceptedKeeps(c, FillEmpty(c, d), SetLocal, needed); }
      case SetRemotely(d, needed) =>
        if SetRemoteDescription(c, d, needed).Success? { AcceptedKeeps(c, d, SetRemote, needed); }
      case _ =>
    }
  }

  /** What has to be pending for a description to be accepted, without mention of the state. */
  predicate Expected(own: Option<Description>, other: Option<Description>, kind: Kind, side: Side) {
    match kind
    case Offer => other == None && (side == SetRemote ==> own == None)
    case Answer => Holds(other, Offer)
    case Pranswer => Holds(other, Offer) && own == None
    case Rollback => Holds(own, Offer) && other == None
  }

  function Own(c: Connection, side: Side): Option<Description> {
    if side == SetLocal then c.pendingLocal else c.pendingRemote
  }

  function Other(c: Connection, side: Side): Option<Description> {
    if side == SetLocal then c.pendingRemote else c.pendingLocal
  }

  /** A local description has to be the text generated last; a remote one, or a rollback, can be any. */
  predicate IsGenerated(c: Connection, d: Description, side: Side) {
    side == SetRemote || d.kind == Rollback || d.sdp == if d.kind == Offer then c.lastOffer else c.lastAnswer
  }

  /**
   After any calls, a description is accepted exactly when it is the one generated and what
   is pending calls for it.
   */
  lemma AcceptedExactly(calls: seq<Call>, d: Description, side: Side, needed: bool)
    ensures var c := RunCalls(calls);
      SetDescription(c, d, side, needed).Success? <==>
        IsGenerated(c, d, side) && Expected(Own(c, side), Other(c, side), d.kind, side)
  {
    StateFitsSlots(calls);
    ExpectedInState(RunCalls(calls), d, side, needed);
  }

  lemma ExpectedInState(c: Connection, d: Description, side: Side, needed: bool)
    requires SlotsMatch(c)
    ensures SetDescription(c, d, side, needed).Success? <==>
      IsGenerated(c, d, side) && Expected(Own(c, side), Other(c, side), d.kind, side)
  {}

  /** A closed connection accepts nothing. */
  lemma ClosedRefuses(c: Connection, d: Description, side: Side, needed: bool)
    requires c.state == Closed
    ensures SetDescription(c, d, side, needed).Failure?
  {}

  function Current(c: Connection, side: Side): Option<Description> {
    if side == SetLocal then c.currentLocal else c.currentRemote
  }

  function Opposite(side: Side): Side {
    if side == SetLocal then SetRemote else SetLocal
  }

  /**
   Both sides file an accepted description alike. An answer makes a session of itself and
   what was pending opposite; a rollback takes back what was pending on its own side; an
   offer or provisional answer becomes what is pending there. Nothing else moves, and the
   new state is reported, with the need to negotiate again if it is stable.
   */
  lemma Filed(c: Connection, d: Description, side: Side, needed: bool)
    requires SetDescription(c, d, side, needed).Success?
    ensures var r, back := SetDescription(c, d, side, needed).value, Opposite(side);
      && (if d.kind == Answer then
            && Own(r, side) == None && Own(r, back) == None
            && Current(r, side) == Some(d) && Current(r, back) == Own(c, back)
          else
            && Own(r, side) == (if d.kind == Rollback then None else Some(d)) && Own(r, back) == Own(c, back)
            && Current(r, side) == Current(c, side) && Current(r, back) == Current(c, back))
      && r.events == c.events + ([SignalingChange(r.state)] +
           if r.state == Stable && needed then [NegotiationNeeded] else [])
      && r.lastOffer == c.lastOffer && r.lastAnswer == c.lastAnswer
  {
    var r := SetDescription(c, d, side, needed).value;
    Associate(c.events, [SignalingChange(r.state)], if r.state == Stable && needed then [NegotiationNeeded] else []);
  }

  /** After any calls an answer can be made exactly when a remote offer is pending, and it answers that one. */
  lemma AnswerableExactly(calls: seq<Call>, polite: bool)
    ensures var c := RunCalls(calls);
      && (CreateAnswer(c, polite).Success? <==> Holds(c.pendingRemote, Offer))
      && (CreateAnswer(c, polite).Success? ==>
            var (_, answer) := CreateAnswer(c, polite).value;
            answer.kind == Answer && answer.sdp == AnswerText(polite, c.serial, c.pendingRemote.value.sdp))
  {
    StateFitsSlots(calls);
  }

  /** An answer just made is accepted, given as it is or left empty. */
  lemma AnswerAccepted(calls: seq<Call>, polite: bool, needed: bool)
    requires CreateAnswer(RunCalls(calls), polite).Success?
    ensures var (c, answer) := CreateAnswer(RunCalls(calls), polite).value;
      && SetLocalDescription(c, answer, needed).Success?
      && SetLocalDescription(c, Description(Answer, Empty), needed) == SetLocalDescription(c, answer, needed)
  {
    StateFitsSlots(calls);
  }

  /** An offer just made is accepted exactly when nothing remote is pending, given as it is or left empty. */
  lemma OfferAccepted(calls: seq<Call>, polite: bool, needed: bool)
    ensures var (c, offer) := CreateOffer(RunCalls(calls), polite);
      && offer.kind == Offer
      && (SetLocalDescription(c, offer, needed).Success? <==> RunCalls(calls).pendingRemote == None)
      && SetLocalDescription(c, Description(Offer, Empty), needed) == SetLocalDescription(c, offer, needed)
  {
    StateFitsSlots(calls);
  }

  /** An offer accepted in the stable state can be rolled back, which undoes it but for the events reported. */
  lemma RollbackRestores(calls: seq<Call>, d: Description, side: Side, needed: bool, again: bool)
    requires RunCalls(calls).state == Stable && d.kind == Offer &&
      SetDescription(RunCalls(calls), d, side, needed).Success?
    ensures var c := RunCalls(calls);
      var offered := SetDescription(c, d, side, needed).value;
      var undone := SetDescription(offered, Description(Rollback, Empty), side, again);
      undone.Success? && undone.value == c.(events := undone.value.events) && c.events <= undone.value.events
  {
    StateFitsSlots(calls);
  }
}
