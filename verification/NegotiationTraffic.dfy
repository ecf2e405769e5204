/**
 What a run of two negotiating peers sends. A peer that wakes up makes an offer exactly
 when one is wanted and it is stable, and every candidate a peer's agent raises is queued
 there, in flight, taken by the other peer or discarded by it.
 */
module NegotiationTraffic {
  import opened Wrappers
  import opened Signaling
  import opened Negotiation
  import opened PerfectNegotiation

  /** The candidate events a peer has yet to drain. */
  function Queued(s: System, who: Role): nat {
    CandidateEvents(PeerOf(s, who).conn.events)
  }

  // ----- offers

  /** The offer a peer makes next. */
  function NextOffer(s: System, who: Role): Description {
    Description(Offer, OfferText(who == Polite, PeerOf(s, who).conn.serial))
  }

  /** A peer that wakes up sends its candidates, then an offer exactly if one is wanted and it is stable. */
  lemma WakeSends(s: System, who: Role, c: Choice) returns (candidates: seq<Message>)
    requires Peers(s)
    ensures forall m :: m in candidates ==> m == Candidate
    ensures |candidates| == Queued(s, who)
    ensures var p, r := PeerOf(s, who), WakeUp(s, who, c);
      if WantsOffer(p) && p.conn.state == Stable then
        && Outbox(r, who) == Outbox(s, who) + (candidates + [Relayed(NextOffer(s, who))])
        && PeerOf(r, who).conn.pendingLocal == Some(NextOffer(s, who))
      else
        Outbox(r, who) == Outbox(s, who) + candidates && PeerOf(r, who).conn.pendingLocal == p.conn.pendingLocal
    ensures !PeerOf(WakeUp(s, who, c), who).pending
  {
    var p := PeerOf(s, who);
    var r, offer;
    r, candidates, offer := Woken(s, who, c);
    DrainLaw(p);
    OfferLaw(Drain(p).0, c);
    OfferNumber(Drain(p).0, c);
    assert candidates + [] == candidates;
  }

  /**
   In every run, a peer that wakes up offers exactly if something is to be negotiated and it
   is stable. The offer follows the candidates, is the peer's own next one, and is pending
   there; either way the request is used up.
   */
  lemma WakingOffers(steps: seq<Step>, who: Role, c: Choice) returns (candidates: seq<Message>)
    ensures forall m :: m in candidates ==> m == Candidate
    ensures |candidates| == Queued(Run(steps), who)
    ensures var s, r := Run(steps), Run(steps + [Wake(who, c)]);
      var p := PeerOf(s, who);
      if WantsOffer(p) && p.conn.state == Stable then
        && Outbox(r, who) == Outbox(s, who) + (candidates + [Relayed(NextOffer(s, who))])
        && PeerOf(r, who).conn.pendingLocal == Some(NextOffer(s, who))
      else
        Outbox(r, who) == Outbox(s, who) + candidates && PeerOf(r, who).conn.pendingLocal == p.conn.pendingLocal
    ensures !PeerOf(Run(steps + [Wake(who, c)]), who).pending
  {
    var phase := EveryRun(steps);
    RunSnoc(steps, Wake(who, c));
    candidates := WakeSends(Run(steps), who, c);
  }

  /** A new peer ignores nothing and, woken up before anything is asked of it, sends nothing. */
  lemma QuietStart(who: Role, c: Choice)
    ensures !PeerOf(Run([]), who).ignore
    ensures Outbox(Run([Wake(who, c)]), who) == [] && PeerOf(Run([Wake(who, c)]), who) == NewPeer(who == Polite)
  {
    RunSnoc([], Wake(who, c));
    assert [] + [Wake(who, c)] == [Wake(who, c)];
  }

  /** Asking a stable peer to renegotiate, or giving it a channel, makes its next waking up send an offer. */
  lemma RequestIsOffered(steps: seq<Step>, who: Role, request: Step, c: Choice)
    requires PeerOf(Run(steps), who).conn.state == Stable
    requires request == Renegotiate(who) || request == ChannelCreated(who)
    ensures var s, r := Run(steps), Run(steps + [request] + [Wake(who, c)]);
      && Outbox(r, who) != []
      && Outbox(r, who)[|Outbox(r, who)| - 1] == Relayed(NextOffer(s, who))
      && PeerOf(r, who).conn.pendingLocal == Some(NextOffer(s, who))
  {
    var phase := EveryRun(steps);
    RunSnoc(steps, request);
    var candidates := WakingOffers(steps + [request], who, c);
  }

  // ----- candidates

  function Other(who: Role): Role {
    if who == Polite then Impolite else Polite
  }

  function Candidates(channel: seq<Message>): nat {
    if channel == [] then 0 else Candidates(channel[1..]) + if channel[0] == Candidate then 1 else 0
  }

  /** The candidates on their way from a peer. */
  function InFlight(s: System, who: Role): nat {
    Candidates(Outbox(s, who))
  }

  function Taken(s: System, who: Role): nat {
    PeerOf(s, who).conn.remoteCandidates
  }

  /** The step, which leads to `r`, makes `who` generate a description along with a candidate of its own. */
  predicate Raises(s: System, step: Step, r: System, who: Role) {
    && step.who == who && (step.Wake? || step.Receive?) && step.choice.newCandidate
    && |Descriptions(Outbox(r, who))| > |Descriptions(Outbox(s, who))|
  }

  /** The candidate events a step drains. */
  function Drains(s: System, step: Step, who: Role): nat {
    if step.Wake? && step.who == who then Queued(s, who) else 0
  }

  /** The step makes `who` read a candidate while it is ignoring the offer the candidate belongs to. */
  predicate Discards(s: System, step: Step, who: Role) {
    step.Receive? && step.who == who && Inbox(s, who) != [] && Inbox(s, who)[0] == Candidate && PeerOf(s, who).ignore
  }

  /** How many candidates `who` has raised during the run. */
  function Raised(steps: seq<Step>, who: Role): nat {
    if steps == [] then 0
    else
      var front, last := steps[..|steps| - 1], steps[|steps| - 1];
      Raised(front, who) + if Raises(Run(front), last, Run(steps), who) then 1 else 0
  }

  /** How many candidate events `who` has drained during the run. */
  function Drained(steps: seq<Step>, who: Role): nat {
    if steps == [] then 0
    else
      var front, last := steps[..|steps| - 1], steps[|steps| - 1];
      Drained(front, who) + Drains(Run(front), last, who)
  }

  /** How many candidates `who` has discarded during the run. */
  function Discarded(steps: seq<Step>, who: Role): nat {
    if steps == [] then 0
    else
      var front, last := steps[..|steps| - 1], steps[|steps| - 1];
      Discarded(front, who) + if Discards(Run(front), last, who) then 1 else 0
  }

  lemma {:induction false} CandidatesAppend(a: seq<Message>, b: seq<Message>)
    ensures Candidates(a + b) == Candidates(a) + Candidates(b)
  {
    if a == [] {
      assert a + b == b;
    } else {
      assert (a + b)[1..] == a[1..] + b;
      CandidatesAppend(a[1..], b);
    }
  }

  lemma {:induction false} EventsAppend(a: seq<Event>, b: seq<Event>)
    ensures CandidateEvents(a + b) == CandidateEvents(a) + CandidateEvents(b)
  {
    if a == [] {
      assert a + b == b;
    } else {
      assert (a + b)[1..] == a[1..] + b;
      EventsAppend(a[1..], b);
    }
  }

  lemma {:induction false} AllCandidates(a: seq<Message>)
    requires forall m :: m in a ==> m == Candidate
    ensures Candidates(a) == |a|
  {
    if a != [] {
      assert a[0] in a && forall m :: m in a[1..] ==> m in a;
      AllCandidates(a[1..]);
    }
  }

  /** A response adds no candidate to a channel, and one description if there is one. */
  lemma ResponseSent(channel: seq<Message>, response: Option<Description>)
    ensures Candidates(channel + Relay(response)) == Candidates(channel)
    ensures |Descriptions(channel + Relay(response))| == |Descriptions(channel)| + if response.Some? then 1 else 0
  {
    DescriptionsAppend(channel, Relay(response));
    RelayDescriptions(response);
    CandidatesAppend(channel, Relay(response));
  }

  /** Applying a description raises no candidate, and takes none. */
  lemma SetCandidates(c: Connection, d: Description, side: Side, needed: bool)
    requires SetDescription(c, d, side, needed).Success?
    ensures var r := SetDescription(c, d, side, needed).value;
      CandidateEvents(r.events) == CandidateEvents(c.events) && r.remoteCandidates == c.remoteCandidates
  {
    var queued := c.events + [SignalingChange(SetDescription(c, d, side, needed).value.state)];
    EventsAppend(c.events, queued[|c.events|..]);
    EventsAppend(queued, [NegotiationNeeded]);
    assert queued + [] == queued;
  }

  lemma CandidateQueued(c: Connection, isNew: bool)
    ensures CandidateEvents(AddLocalCandidate(c, isNew).events) == CandidateEvents(c.events) + if isNew then 1 else 0
  {
    EventsAppend(c.events, [IceCandidate]);
  }

  /** An answer raises the agent's new candidate, if it has one. */
  lemma RespondCandidates(p: Peer, c: Choice)
    requires Respond(p, c).Success?
    ensures var (q, response) := Respond(p, c).value;
      && q.conn.remoteCandidates == p.conn.remoteCandidates
      && CandidateEvents(q.conn.events)
           == CandidateEvents(p.conn.events) + if response.Some? && c.newCandidate then 1 else 0
  {
    if p.tracked == HaveRemoteOffer {
      CandidateQueued(p.conn, c.newCandidate);
      var (conn, answer) := CreateAnswer(AddLocalCandidate(p.conn, c.newCandidate), p.polite).value;
      SetCandidates(conn, FillEmpty(conn, answer), SetLocal, c.neededAfterAnswer);
    }
  }

  lemma AcceptCandidates(p: Peer, d: Description, c: Choice)
    requires Accept(p, d, c).Success?
    ensures var (q, response) := Accept(p, d, c).value;
      && q.conn.remoteCandidates == p.conn.remoteCandidates
      && CandidateEvents(q.conn.events)
           == CandidateEvents(p.conn.events) + if response.Some? && c.newCandidate then 1 else 0
  {
    SetCandidates(p.conn, d, SetRemote, c.neededAfterDescription);
    var conn := SetRemoteDescription(p.conn, d, c.neededAfterDescription).value;
    RespondCandidates(p.(conn := conn, tracked := TrackRemote(d.kind, p.tracked)), c);
  }

  lemma DescriptionCandidates(p: Peer, d: Description, c: Choice)
    requires OnDescription(p, d, c).Success?
    ensures var (q, response) := OnDescription(p, d, c).value;
      && q.conn.remoteCandidates == p.conn.remoteCandidates
      && CandidateEvents(q.conn.events)
           == CandidateEvents(p.conn.events) + if response.Some? && c.newCandidate then 1 else 0
  {
    var p1 := p.(ignore := !p.polite && Collides(p, d));
    if !p1.ignore {
      if p1.polite && Collides(p, d) {
        SetCandidates(p1.conn, FillEmpty(p1.conn, ROLLBACK), SetLocal, c.neededAfterRollback);
        AcceptCandidates(RollBack(p1, c).value, d, c);
      } else {
        AcceptCandidates(p1, d, c);
      }
    }
  }

  /** An offer raises the agent's new candidate, if it has one. */
  lemma OfferCandidates(p: Peer, c: Choice)
    requires OfferIfPending(p, c).Success?
    ensures var (q, offer) := OfferIfPending(p, c).value;
      CandidateEvents(q.conn.events)
        == CandidateEvents(p.conn.events) + if offer.Some? && c.newCandidate then 1 else 0
  {
    if p.pending && p.tracked == Stable {
      CandidateQueued(p.conn, c.newCandidate);
      var (conn, offer) := CreateOffer(AddLocalCandidate(p.conn, c.newCandidate), p.polite);
      SetCandidates(conn, FillEmpty(conn, offer), SetLocal, false);
    }
  }

  /** A step of `who` moves what it drains into flight, and queues what it raises. */
  predicate Sends(s: System, step: Step, r: System, who: Role) {
    && InFlight(r, who) == InFlight(s, who) + Drains(s, step, who)
    && Queued(r, who) + Drains(s, step, who) == Queued(s, who) + if Raises(s, step, r, who) then 1 else 0
  }

  /** A step of `who` takes or discards each candidate it reads. */
  predicate Reads(s: System, step: Step, r: System, who: Role) {
    InFlight(s, Other(who)) + Taken(s, who)
      == InFlight(r, Other(who)) + Taken(r, who) + if Discards(s, step, who) then 1 else 0
  }

  lemma WakeTraffic(s: System, who: Role, c: Choice)
    requires Peers(s)
    ensures Sends(s, Wake(who, c), WakeUp(s, who, c), who) && Reads(s, Wake(who, c), WakeUp(s, who, c), who)
  {
    var p, candidates, offer := Woken(s, who, c);
    WakeKeepsRemote(s, who, c);
    WakeQueues(s, who, c);
    WokenTraffic(s, WakeUp(s, who, c), who, c, p, candidates, offer);
  }

  lemma WokenTraffic(s: System, r: System, who: Role, c: Choice, p: Peer, candidates: seq<Message>,
      offer: Option<Description>)
    requires r.(history := s.history) == After(s, who, p, Inbox(s, who), candidates + Relay(offer))
    requires forall m :: m in candidates ==> m == Candidate
    requires |candidates| == Queued(s, who) && Taken(r, who) == Taken(s, who)
    requires Queued(r, who) == if offer.Some? && c.newCandidate then 1 else 0
    ensures Sends(s, Wake(who, c), r, who) && Reads(s, Wake(who, c), r, who)
  {
    var channel := Outbox(s, who);
    AllCandidates(candidates);
    OnlyCandidates(candidates);
    CandidatesAppend(channel, candidates);
    DescriptionsAppend(channel, candidates);
    ResponseSent(channel + candidates, offer);
    assert channel + (candidates + Relay(offer)) == channel + candidates + Relay(offer);
  }

  lemma WakeQueues(s: System, who: Role, c: Choice)
    requires Peers(s)
    ensures Queued(WakeUp(s, who, c), who)
      == if WantsOffer(PeerOf(s, who)) && PeerOf(s, who).conn.state == Stable && c.newCandidate then 1 else 0
  {
    var p := PeerOf(s, who);
    DrainLaw(p);
    OfferLaw(Drain(p).0, c);
    OfferCandidates(Drain(p).0, c);
  }

  lemma DescribedTraffic(s: System, r: System, who: Role, c: Choice, q: Peer, response: Option<Description>)
    requires Inbox(s, who) != [] && Inbox(s, who)[0].Relayed?
    requires r.(history := s.history) == After(s, who, q, Inbox(s, who)[1..], Relay(response))
    requires Taken(r, who) == Taken(s, who)
    requires Queued(r, who) == Queued(s, who) + if response.Some? && c.newCandidate then 1 else 0
    ensures Sends(s, Receive(who, c), r, who) && Reads(s, Receive(who, c), r, who)
  {
    ResponseSent(Outbox(s, who), response);
  }

  lemma DescriptionTraffic(s: System, who: Role, c: Choice)
    requires Inbox(s, who) != [] && Inbox(s, who)[0].Relayed?
    requires OnDescription(PeerOf(s, who), Inbox(s, who)[0].description, c).Success?
    ensures Sends(s, Receive(who, c), Deliver(s, who, c), who) && Reads(s, Receive(who, c), Deliver(s, who, c), who)
  {
    var p, d := PeerOf(s, who), Inbox(s, who)[0].description;
    DescriptionCandidates(p, d, c);
    var (q, response) := OnDescription(p, d, c).value;
    DescribedTraffic(s, Deliver(s, who, c), who, c, q, response);
  }

  lemma TakenTraffic(s: System, r: System, who: Role, c: Choice, q: Peer)
    requires Inbox(s, who) != [] && Inbox(s, who)[0] == Candidate
    requires r == After(s, who, q, Inbox(s, who)[1..], []) && q.conn.events == PeerOf(s, who).conn.events
    requires q.conn.remoteCandidates == Taken(s, who) + if PeerOf(s, who).ignore then 0 else 1
    ensures Sends(s, Receive(who, c), r, who) && Reads(s, Receive(who, c), r, who)
  {
    assert Outbox(s, who) + [] == Outbox(s, who);
  }

  /** A candidate read while no offer is being ignored reaches the connection. */
  lemma CandidateReaches(p: Peer)
    requires Ready(p)
    ensures OnCandidate(p).Success?
    ensures var q := OnCandidate(p).value;
      && q.conn.remoteCandidates == p.conn.remoteCandidates + (if p.ignore then 0 else 1)
      && q == p.(conn := p.conn.(remoteCandidates := q.conn.remoteCandidates))
  {}

  lemma CandidateTraffic(s: System, who: Role, c: Choice)
    requires Peers(s) && Inbox(s, who) != [] && Inbox(s, who)[0] == Candidate
    ensures Sends(s, Receive(who, c), Deliver(s, who, c), who) && Reads(s, Receive(who, c), Deliver(s, who, c), who)
  {
    assert Ready(PeerOf(s, who));
    CandidateReaches(PeerOf(s, who));
    TakenTraffic(s, Deliver(s, who, c), who, c, OnCandidate(PeerOf(s, who)).value);
  }

  lemma DeliveryTraffic(s: System, who: Role, c: Choice, phase: Phase)
    requires Shape(s, phase)
    ensures Sends(s, Receive(who, c), Deliver(s, who, c), who) && Reads(s, Receive(who, c), Deliver(s, who, c), who)
  {
    if Inbox(s, who) != [] {
      if Inbox(s, who)[0] == Candidate {
        CandidateTraffic(s, who, c);
      } else {
        DescriptionAccepted(s, who, c, phase);
        DescriptionTraffic(s, who, c);
      }
    }
  }

  lemma NoteTraffic(s: System, step: Step)
    requires Peers(s) && (step.Renegotiate? || step.ChannelCreated?)
    ensures Sends(s, step, Apply(s, step), step.who) && Reads(s, step, Apply(s, step), step.who)
  {
    var channel, events := Outbox(s, step.who), PeerOf(s, step.who).conn.events;
    assert channel + [] == channel;
    EventsAppend(events, [NegotiationNeeded]);
  }

  /** What a step of either peer does to the candidates of `who`, on their way to the other peer. */
  predicate Moves(s: System, step: Step, r: System, who: Role) {
    && Queued(r, who) + Drains(s, step, who) == Queued(s, who) + (if Raises(s, step, r, who) then 1 else 0)
    && InFlight(r, who) + Taken(r, Other(who)) + (if Discards(s, step, Other(who)) then 1 else 0)
         == InFlight(s, who) + Taken(s, Other(who)) + Drains(s, step, who)
  }

  lemma MovedBy(s: System, step: Step, r: System, who: Role)
    requires Sends(s, step, r, step.who) && Reads(s, step, r, step.who)
    requires PeerOf(r, Other(step.who)) == PeerOf(s, Other(step.who))
    ensures Moves(s, step, r, who)
  {}

  lemma WakeMoves(s: System, step: Step, who: Role)
    requires Peers(s) && step.Wake?
    ensures Moves(s, step, WakeUp(s, step.who, step.choice), who)
  {
    WakeTraffic(s, step.who, step.choice);
    MovedBy(s, step, WakeUp(s, step.who, step.choice), who);
  }

  lemma DeliveryMoves(s: System, step: Step, phase: Phase, who: Role)
    requires Shape(s, phase) && step.Receive?
    ensures Moves(s, step, Deliver(s, step.who, step.choice), who)
  {
    DeliveryTraffic(s, step.who, step.choice, phase);
    MovedBy(s, step, Deliver(s, step.who, step.choice), who);
  }

  lemma NoteMoves(s: System, step: Step, who: Role)
    requires Peers(s) && (step.Renegotiate? || step.ChannelCreated?)
    ensures Moves(s, step, Apply(s, step), who)
  {
    NoteTraffic(s, step);
    MovedBy(s, step, Apply(s, step), who);
  }

  lemma StepMoves(s: System, step: Step, phase: Phase, who: Role)
    requires Shape(s, phase)
    ensures Moves(s, step, Apply(s, step), who)
  {
    match step
    case Wake(_, _) => WakeMoves(s, step, who);
    case Receive(_, _) => DeliveryMoves(s, step, phase, who);
    case _ => NoteMoves(s, step, who);
  }

  /** The candidates of `who` are all somewhere. */
  predicate Balanced(s: System, who: Role, raised: nat, drained: nat, discarded: nat) {
    && raised == drained + Queued(s, who)
    && drained == InFlight(s, who) + Taken(s, Other(who)) + discarded
  }

  lemma MovesBalance(s: System, step: Step, r: System, who: Role, raised: nat, drained: nat, discarded: nat)
    requires Balanced(s, who, raised, drained, discarded) && Moves(s, step, r, who)
    ensures Balanced(r, who, raised + (if Raises(s, step, r, who) then 1 else 0), drained + Drains(s, step, who),
                     discarded + if Discards(s, step, Other(who)) then 1 else 0)
  {}

  lemma {:induction false} RunBalanced(steps: seq<Step>, who: Role)
    ensures Balanced(Run(steps), who, Raised(steps, who), Drained(steps, who), Discarded(steps, Other(who)))
  {
    if steps != [] {
      var n := |steps| - 1;
      var s, step := Run(steps[..n]), steps[n];
      RunBalanced(steps[..n], who);
      var before := EveryRun(steps[..n]);
      StepMoves(s, step, before, who);
      MovesBalance(s, step, Run(steps), who,
                   Raised(steps[..n], who), Drained(steps[..n], who), Discarded(steps[..n], Other(who)));
    }
  }

  /**
   In every run, what a peer has raised is what it has drained and what it has yet to
   drain; and what it has drained is in flight, taken by the other peer or discarded by it.
   */
  lemma CandidatesAccounted(steps: seq<Step>, who: Role)
    ensures var s := Run(steps);
      && Raised(steps, who) == Drained(steps, who) + Queued(s, who)
      && Drained(steps, who) == InFlight(s, who) + Taken(s, Other(who)) + Discarded(steps, Other(who))
  {
    RunBalanced(steps, who);
  }

  lemma PoliteNeverIgnores(s: System, step: Step, phase: Phase)
    requires Shape(s, phase) && !s.polite.ignore
    ensures !Apply(s, step).polite.ignore
  {
    if step.who == Polite {
      match step
      case Wake(_, c) => WakeKeepsRemote(s, Polite, c);
      case Receive(_, c) =>
        if s.toPolite != [] && s.toPolite[0].Relayed? {
          DescriptionAccepted(s, Polite, c, phase);
        }
      case _ =>
    }
  }

  /** The polite peer ignores no offer, so it discards no candidate. */
  lemma {:induction false} PoliteTakesAll(steps: seq<Step>)
    ensures Discarded(steps, Polite) == 0 && !Run(steps).polite.ignore
  {
    if steps != [] {
      var n := |steps| - 1;
      PoliteTakesAll(steps[..n]);
      var before := EveryRun(steps[..n]);
      PoliteNeverIgnores(Run(steps[..n]), steps[n], before);
    }
  }
}
