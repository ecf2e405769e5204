/**
 Two peers running the same negotiation code, one polite and one impolite, joined by two
 FIFO relay channels. A run is any sequence of steps of either peer. The main results
 hold of every run: no call on either connection is ever out of order, offers that cross
 are resolved the same way on both sides, and when nothing is in flight both peers are
 stable and hold the same session.
 */
module PerfectNegotiation {
  import opened Wrappers
  import opened Signaling
  import opened Negotiation

  // ----- the system

  datatype Role = Polite | Impolite

  /** What has happened to offers so far, oldest first. */
  datatype History = History(
    impoliteOffers: seq<Sdp>,
    politeAnswered: seq<Sdp>,
    politeOffers: seq<Sdp>,
    impoliteAnswered: seq<Sdp>,
    ignored: seq<Sdp>,
    rolledBack: seq<Sdp>
  )

  datatype System = System(
    polite: Peer,
    impolite: Peer,
    toImpolite: seq<Message>,
    toPolite: seq<Message>,
    history: History
  )

  datatype Step =
    | Wake(who: Role, choice: Choice)
    | Receive(who: Role, choice: Choice)
    | Renegotiate(who: Role)
    | ChannelCreated(who: Role)

  const START := System(NewPeer(true), NewPeer(false), [], [], History([], [], [], [], [], []))

  function PeerOf(s: System, who: Role): Peer {
    if who == Polite then s.polite else s.impolite
  }

  function Inbox(s: System, who: Role): seq<Message> {
    if who == Polite then s.toPolite else s.toImpolite
  }

  /** `who` becomes `p`, with `inbox` left to read, and sends `sent` to the other peer. */
  function After(s: System, who: Role, p: Peer, inbox: seq<Message>, sent: seq<Message>): System {
    if who == Polite then s.(polite := p, toPolite := inbox, toImpolite := s.toImpolite + sent)
    else s.(impolite := p, toImpolite := inbox, toPolite := s.toPolite + sent)
  }

  function Relay(response: Option<Description>): seq<Message> {
    match response
    case None => []
    case Some(d) => [Relayed(d)]
  }

  function NoteOffer(h: History, who: Role, offer: Option<Description>): History {
    if offer.None? then h
    else if who == Polite then h.(politeOffers := h.politeOffers + [offer.value.sdp])
    else h.(impoliteOffers := h.impoliteOffers + [offer.value.sdp])
  }

  function Undone(offer: Option<Description>): seq<Sdp> {
    if offer.Some? then [offer.value.sdp] else []
  }

  function NoteReceived(h: History, p: Peer, d: Description, response: Option<Description>): History {
    if !Collides(p, d) then
      if response.None? then h
      else if p.polite then h.(politeAnswered := h.politeAnswered + [d.sdp])
      else h.(impoliteAnswered := h.impoliteAnswered + [d.sdp])
    else if !p.polite then h.(ignored := h.ignored + [d.sdp])
    else
      var h1 := h.(rolledBack := h.rolledBack + Undone(p.conn.pendingLocal));
      if response.Some? then h1.(politeAnswered := h1.politeAnswered + [d.sdp]) else h1
  }

  /** The timer branch: drain the events, then make an offer if one is wanted. */
  function WakeUp(s: System, who: Role, c: Choice): System {
    var (p, candidates) := Drain(PeerOf(s, who));
    match OfferIfPending(p, c)
    case Failure => After(s, who, p.(failed := true), Inbox(s, who), candidates)
    case Success((q, offer)) =>
      After(s, who, q, Inbox(s, who), candidates + Relay(offer)).(history := NoteOffer(s.history, who, offer))
  }

  /** The relay branch: take the oldest message. */
  function Deliver(s: System, who: Role, c: Choice): System {
    var p, inbox := PeerOf(s, who), Inbox(s, who);
    if inbox == [] then s
    else
      match inbox[0]
      case Candidate =>
        (match OnCandidate(p)
         case Failure => After(s, who, p.(failed := true), inbox[1..], [])
         case Success(q) => After(s, who, q, inbox[1..], []))
      case Relayed(d) =>
        (match OnDescription(p, d, c)
         case Failure => After(s, who, p.(failed := true), inbox[1..], [])
         case Success((q, response)) =>
           After(s, who, q, inbox[1..], Relay(response)).(history := NoteReceived(s.history, p, d, response)))
  }

  function Apply(s: System, step: Step): System {
    var p := PeerOf(s, step.who);
    if p.failed then s
    else
      match step
      case Wake(who, c) => WakeUp(s, who, c)
      case Receive(who, c) => Deliver(s, who, c)
      case Renegotiate(who) => After(s, who, p.(pending := true), Inbox(s, who), [])
      case ChannelCreated(who) =>
        After(s, who, p.(conn := p.conn.(events := p.conn.events + [NegotiationNeeded])), Inbox(s, who), [])
  }

  function Run(steps: seq<Step>): System {
    if steps == [] then START else Apply(Run(steps[..|steps| - 1]), steps[|steps| - 1])
  }

  // ----- one peer between steps

  /** The state the last queued signalling event reports, or `s` if none is queued. */
  function LastState(events: seq<Event>, s: State): State {
    if events == [] then s
    else
      match events[|events| - 1]
      case SignalingChange(state) => state
      case _ => LastState(events[..|events| - 1], s)
  }

  /**
   Between steps the tracked state is the connection's, which is stable or waiting for
   an answer to the pending offer, and the queued events end on it.
   */
  ghost predicate Settled(p: Peer) {
    var c := p.conn;
    && !p.failed && !p.making
    && p.tracked == c.state && LastState(c.events, c.state) == c.state
    && c.pendingRemote.None?
    && (c.state == Stable ==> c.pendingLocal.None?)
    && (c.state == HaveLocalOffer ==> c.pendingLocal.Some? && c.pendingLocal.value.kind == Offer)
    && (c.state == Stable || c.state == HaveLocalOffer)
  }

  lemma LastStateSnoc(events: seq<Event>, e: Event, s: State)
    ensures LastState(events + [e], s) == if e.SignalingChange? then e.state else LastState(events, s)
  {
    assert (events + [e])[..|events|] == events;
  }

  lemma {:induction false} LastStateFront(events: seq<Event>, s: State)
    requires events != []
    ensures LastState(events, s) == LastState(events[1..], if events[0].SignalingChange? then events[0].state else s)
  {
    var n := |events| - 1;
    if n > 0 && !events[n].SignalingChange? {
      LastStateFront(events[..n], s);
      assert events[1..][..n - 1] == events[..n][1..];
    }
  }

  /** Draining leaves the tracked state at the last one reported. */
  lemma {:induction false} DrainLaw(p: Peer)
    ensures Drain(p).0 == p.(
      conn := p.conn.(events := []),
      tracked := LastState(p.conn.events, p.tracked),
      pending := p.pending || NegotiationNeeded in p.conn.events)
    decreases |p.conn.events|
  {
    if p.conn.events != [] {
      var event, rest := p.conn.events[0], p.conn.events[1..];
      LastStateFront(p.conn.events, p.tracked);
      assert p.conn.events == [event] + rest;
      var q := p.(conn := p.conn.(events := rest));
      match event
      case SignalingChange(state) => DrainLaw(q.(tracked := state));
      case NegotiationNeeded => DrainLaw(q.(pending := true));
      case IceCandidate => DrainLaw(q);
    }
  }

  /** How many candidates are waiting to be reported. */
  function CandidateEvents(events: seq<Event>): nat {
    if events == [] then 0 else CandidateEvents(events[1..]) + if events[0] == IceCandidate then 1 else 0
  }

  lemma {:induction false} NoCandidateEvents(events: seq<Event>)
    requires IceCandidate !in events
    ensures CandidateEvents(events) == 0
  {
    if events != [] {
      NoCandidateEvents(events[1..]);
    }
  }

  /** Draining sends candidates only, one for each candidate event. */
  lemma {:induction false} DrainedCandidates(p: Peer)
    ensures forall m :: m in Drain(p).1 ==> m == Candidate
    ensures |Drain(p).1| == CandidateEvents(p.conn.events)
    decreases |p.conn.events|
  {
    if p.conn.events != [] {
      var event, rest := p.conn.events[0], p.conn.events[1..];
      var q := p.(conn := p.conn.(events := rest));
      match event
      case SignalingChange(state) => DrainedCandidates(q.(tracked := state));
      case NegotiationNeeded => DrainedCandidates(q.(pending := true));
      case IceCandidate => DrainedCandidates(q);
    }
  }

  /** The session a connection has negotiated. */
  function Session(c: Connection): (Option<Description>, Option<Description>) {
    (c.currentLocal, c.currentRemote)
  }

  /** A drained peer never fails to make the offer it wants in the stable state, and offers in no other case. */
  lemma OfferLaw(p: Peer, c: Choice)
    requires Settled(p) && p.conn.events == []
    ensures OfferIfPending(p, c).Success?
    ensures var (q, offer) := OfferIfPending(p, c).value;
      && Settled(q) && q.polite == p.polite && q.ignore == p.ignore
      && Session(q.conn) == Session(p.conn) && q.conn.remoteCandidates == p.conn.remoteCandidates
      && !q.pending && (offer.Some? <==> p.pending && p.conn.state == Stable)
      && (offer.None? ==> q.conn == p.conn)
      && (offer.Some? ==> q.conn.pendingLocal == offer && offer.value.kind == Offer)
  {
    if p.pending && p.tracked == Stable {
      var (conn, offer) := CreateOffer(AddLocalCandidate(p.conn, c.newCandidate), p.polite);
      LastStateSnoc(conn.events, SignalingChange(HaveLocalOffer), HaveLocalOffer);
    }
  }

  /** `a` answers `o`. */
  predicate Answers(a: Description, o: Description) {
    a.kind == Answer && a.sdp.AnswerText? && a.sdp.to == o.sdp
  }

  lemma QueueLaw(c: Connection, d: Description, side: Side, needed: bool)
    requires SetDescription(c, d, side, needed).Success?
    ensures var r := SetDescription(c, d, side, needed).value;
      LastState(r.events, r.state) == r.state && (IceCandidate in r.events ==> IceCandidate in c.events)
  {
    var r := SetDescription(c, d, side, needed).value;
    var queued := c.events + [SignalingChange(r.state)];
    LastStateSnoc(c.events, SignalingChange(r.state), r.state);
    LastStateSnoc(queued, NegotiationNeeded, r.state);
    assert queued + [] == queued;
  }

  /** An offer that finds the peer stable, or polite, is answered; a polite peer's own offer is undone first. */
  lemma AcceptLaw(p: Peer, d: Description, c: Choice)
    requires Settled(p) && d.kind == Offer && (p.polite || p.conn.state == Stable)
    ensures OnDescription(p, d, c).Success?
    ensures var (q, response) := OnDescription(p, d, c).value;
      && Settled(q) && q.polite == p.polite && !q.ignore
      && response.Some? && Answers(response.value, d)
      && q.conn.state == Stable && Session(q.conn) == (response, Some(d))
  {
    var p1 := p.(ignore := false);
    if Collides(p, d) {
      UndoLaw(p1, c);
      AnswerLaw(RollBack(p1, c).value, d, c);
    } else {
      AnswerLaw(p1, d, c);
    }
  }

  lemma UndoLaw(p: Peer, c: Choice)
    requires Settled(p) && p.conn.state == HaveLocalOffer
    ensures RollBack(p, c).Success?
    ensures var q := RollBack(p, c).value;
      Settled(q) && q.polite == p.polite && q.ignore == p.ignore && q.conn.state == Stable
  {
    QueueLaw(p.conn, ROLLBACK, SetLocal, c.neededAfterRollback);
  }

  lemma AnswerLaw(p: Peer, d: Description, c: Choice)
    requires Settled(p) && p.conn.state == Stable && d.kind == Offer
    ensures SetRemoteDescription(p.conn, d, c.neededAfterDescription).Success?
    ensures
      var p2 := p.(conn := SetRemoteDescription(p.conn, d, c.neededAfterDescription).value, tracked := HaveRemoteOffer);
      Respond(p2, c).Success? &&
      var (q, response) := Respond(p2, c).value;
      && Settled(q) && q.polite == p.polite && q.ignore == p.ignore
      && response.Some? && Answers(response.value, d)
      && q.conn.state == Stable && Session(q.conn) == (response, Some(d))
  {
    var conn := SetRemoteDescription(p.conn, d, c.neededAfterDescription).value;
    RespondLaw(p.(conn := conn, tracked := HaveRemoteOffer), d, c);
  }

  lemma RespondLaw(p: Peer, d: Description, c: Choice)
    requires !p.failed && !p.making && p.tracked == HaveRemoteOffer
    requires p.conn.state == HaveRemoteOffer && p.conn.pendingRemote == Some(d) && p.conn.pendingLocal == None
    ensures Respond(p, c).Success?
    ensures var (q, response) := Respond(p, c).value;
      && Settled(q) && q.polite == p.polite && q.ignore == p.ignore
      && response.Some? && Answers(response.value, d)
      && q.conn.state == Stable && Session(q.conn) == (response, Some(d))
  {
    var (conn, answer) := CreateAnswer(AddLocalCandidate(p.conn, c.newCandidate), p.polite).value;
    AnswerApplied(conn, answer, d, c.neededAfterAnswer);
  }

  /** A generated answer to the pending remote offer is accepted and completes the session. */
  lemma AnswerApplied(c: Connection, answer: Description, d: Description, needed: bool)
    requires c.state == HaveRemoteOffer && c.pendingRemote == Some(d) && answer.kind == Answer
    requires answer.sdp == c.lastAnswer && answer.sdp != Empty
    ensures SetLocalDescription(c, answer, needed).Success?
    ensures var r := SetLocalDescription(c, answer, needed).value;
      && r.state == Stable && r.pendingLocal == None && r.pendingRemote == None
      && Session(r) == (Some(answer), Some(d)) && LastState(r.events, r.state) == r.state
  {
    QueueLaw(c, answer, SetLocal, needed);
  }

  /** An answer to the pending offer completes it. */
  lemma CompleteLaw(p: Peer, d: Description, c: Choice)
    requires Settled(p) && p.conn.state == HaveLocalOffer && d.kind == Answer
    ensures OnDescription(p, d, c).Success?
    ensures var (q, response) := OnDescription(p, d, c).value;
      && Settled(q) && q.polite == p.polite && !q.ignore && response.None?
      && q.conn.state == Stable && Session(q.conn) == (p.conn.pendingLocal, Some(d))
      && (IceCandidate in q.conn.events ==> IceCandidate in p.conn.events)
  {
    QueueLaw(p.conn, d, SetRemote, c.neededAfterDescription);
  }

  // ----- what is in flight

  /** The descriptions in a channel, oldest first. */
  function Descriptions(channel: seq<Message>): seq<Description> {
    if channel == [] then []
    else
      var rest := Descriptions(channel[1..]);
      match channel[0]
      case Relayed(d) => [d] + rest
      case Candidate => rest
  }

  lemma {:induction false} DescriptionsAppend(a: seq<Message>, b: seq<Message>)
    ensures Descriptions(a + b) == Descriptions(a) + Descriptions(b)
  {
    if a == [] {
      assert a + b == b;
    } else {
      assert (a + b)[1..] == a[1..] + b;
      DescriptionsAppend(a[1..], b);
    }
  }

  lemma {:induction false} OnlyCandidates(a: seq<Message>)
    requires forall m :: m in a ==> m == Candidate
    ensures Descriptions(a) == []
  {
    if a != [] {
      assert a[0] in a && forall m :: m in a[1..] ==> m in a;
      OnlyCandidates(a[1..]);
    }
  }

  lemma RelayDescriptions(response: Option<Description>)
    ensures Descriptions(Relay(response)) == if response.Some? then [response.value] else []
  {
    if response.Some? {
      assert Relay(response)[1..] == [];
    }
  }

  /** What the negotiation itself depends on: descriptions in flight, pending offers, sessions, history. */
  datatype View = View(
    there: seq<Description>,
    back: seq<Description>,
    politePending: Option<Description>,
    impolitePending: Option<Description>,
    politeSession: (Option<Description>, Option<Description>),
    impoliteSession: (Option<Description>, Option<Description>),
    history: History
  )

  function ViewOf(s: System): View {
    View(
      Descriptions(s.toImpolite), Descriptions(s.toPolite),
      s.polite.conn.pendingLocal, s.impolite.conn.pendingLocal,
      Session(s.polite.conn), Session(s.impolite.conn),
      s.history)
  }

  /** Both peers hold the same session. */
  predicate Agree(v: View) {
    v.politeSession == (v.impoliteSession.1, v.impoliteSession.0)
  }

  /** The polite peer has answered the impolite offer: its session is the one the answer will complete. */
  predicate PoliteAhead(v: View, answer: Description) {
    && v.impolitePending.Some? && Answers(answer, v.impolitePending.value)
    && v.politeSession == (Some(answer), v.impolitePending)
  }

  predicate ImpoliteAhead(v: View, answer: Description) {
    && v.politePending.Some? && Answers(answer, v.politePending.value)
    && v.impoliteSession == (Some(answer), v.politePending)
  }

  /** Where a negotiation can stand. "Stale" is a polite offer already rolled back and still to be ignored. */
  datatype Phase =
    | Idle
    | PoliteOffer
    | ImpoliteAnswer
    | ImpoliteAnswerThenOffer
    | OffersCross
    | PoliteOfferIgnored
    | ImpoliteOffer
    | StaleThenAnswer
    | PoliteAnswer
    | StaleThenAnswerThenOffer
    | PoliteAnswerThenOffer

  predicate InPhase(v: View, phase: Phase) {
    var po, io := v.politePending, v.impolitePending;
    match phase
    case Idle => po == None && io == None && v.there == [] && v.back == [] && Agree(v)
    case PoliteOffer => po.Some? && io == None && v.there == [po.value] && v.back == [] && Agree(v)
    case ImpoliteAnswer => po.Some? && io == None && v.there == [] && |v.back| == 1 && ImpoliteAhead(v, v.back[0])
    case ImpoliteAnswerThenOffer =>
      po.Some? && io.Some? && v.there == [] && |v.back| == 2 && v.back[1] == io.value && ImpoliteAhead(v, v.back[0])
    case OffersCross => po.Some? && io.Some? && v.there == [po.value] && v.back == [io.value] && Agree(v)
    case PoliteOfferIgnored => po.Some? && io.Some? && v.there == [] && v.back == [io.value] && Agree(v)
    case ImpoliteOffer => po == None && io.Some? && v.there == [] && v.back == [io.value] && Agree(v)
    case StaleThenAnswer =>
      po == None && io.Some? && |v.there| == 2 && v.back == [] && v.there[0].kind == Offer && PoliteAhead(v, v.there[1])
    case PoliteAnswer => po == None && io.Some? && |v.there| == 1 && v.back == [] && PoliteAhead(v, v.there[0])
    case StaleThenAnswerThenOffer =>
      && po.Some? && io.Some? && |v.there| == 3 && v.back == []
      && v.there[0].kind == Offer && v.there[2] == po.value && PoliteAhead(v, v.there[1])
    case PoliteAnswerThenOffer =>
      po.Some? && io.Some? && |v.there| == 2 && v.back == [] && v.there[1] == po.value && PoliteAhead(v, v.there[0])
  }

  /** The impolite offer has not reached the polite peer. */
  predicate Unanswered(phase: Phase) {
    phase.ImpoliteAnswerThenOffer? || phase.OffersCross? || phase.PoliteOfferIgnored? || phase.ImpoliteOffer?
  }

  predicate Stale(phase: Phase) {
    phase.StaleThenAnswer? || phase.StaleThenAnswerThenOffer?
  }

  /**
   The impolite peer's offers are those the polite one has answered, in order, plus the
   one still to be read; the offers one side ignored are those the other rolled back,
   plus the one only one of them has dealt with.
   */
  predicate HistoryFits(v: View, phase: Phase)
    requires InPhase(v, phase)
  {
    var h := v.history;
    && (if Unanswered(phase) then h.impoliteOffers == h.politeAnswered + [v.impolitePending.value.sdp]
        else h.impoliteOffers == h.politeAnswered)
    && (if phase.PoliteOfferIgnored? then h.ignored == h.rolledBack + [v.politePending.value.sdp]
        else if Stale(phase) then h.rolledBack == h.ignored + [v.there[0].sdp]
        else h.ignored == h.rolledBack)
  }

  predicate Fits(v: View, phase: Phase) {
    InPhase(v, phase) && HistoryFits(v, phase)
  }

  // ----- moves between phases

  function AfterPoliteOffer(phase: Phase): Phase {
    match phase
    case Idle => PoliteOffer
    case ImpoliteOffer => OffersCross
    case StaleThenAnswer => StaleThenAnswerThenOffer
    case _ => PoliteAnswerThenOffer
  }

  lemma PoliteOffers(v: View, phase: Phase, offer: Description)
    requires Fits(v, phase) && v.politePending == None
    ensures Fits(OfferView(v, Polite, offer), AfterPoliteOffer(phase))
  {}

  function AfterImpoliteOffer(phase: Phase): Phase {
    match phase
    case Idle => ImpoliteOffer
    case PoliteOffer => OffersCross
    case _ => ImpoliteAnswerThenOffer
  }

  lemma ImpoliteOffers(v: View, phase: Phase, offer: Description)
    requires Fits(v, phase) && v.impolitePending == None
    ensures Fits(OfferView(v, Impolite, offer), AfterImpoliteOffer(phase))
  {}

  /** Pending offers are offers. */
  predicate Proper(v: View) {
    && (v.politePending.Some? ==> v.politePending.value.kind == Offer)
    && (v.impolitePending.Some? ==> v.impolitePending.value.kind == Offer)
  }

  function AfterPoliteReceives(phase: Phase): Phase {
    match phase
    case ImpoliteAnswer => Idle
    case ImpoliteAnswerThenOffer => ImpoliteOffer
    case OffersCross => StaleThenAnswer
    case _ => PoliteAnswer
  }

  /** The polite peer completes its offer. */
  lemma PoliteCompletes(v: View, phase: Phase)
    requires Fits(v, phase) && Proper(v) && v.back != [] && v.back[0].kind == Answer
    ensures v.politePending.Some?
    ensures Fits(CompleteView(v, Polite), AfterPoliteReceives(phase))
  {}

  /** The polite peer answers, undoing its own offer if it has one out. */
  lemma PoliteAnswers(v: View, phase: Phase, answer: Description)
    requires Fits(v, phase) && Proper(v)
    requires v.back != [] && v.back[0].kind != Answer && Answers(answer, v.back[0])
    ensures v.back[0].kind == Offer
    ensures Fits(AnswerView(v, Polite, v.back[0], answer), AfterPoliteReceives(phase))
  {
    assert v.history.rolledBack + [] == v.history.rolledBack;
  }

  function AfterImpoliteReceives(phase: Phase): Phase {
    match phase
    case PoliteOffer => ImpoliteAnswer
    case OffersCross => PoliteOfferIgnored
    case StaleThenAnswer => PoliteAnswer
    case StaleThenAnswerThenOffer => PoliteAnswerThenOffer
    case PoliteAnswer => Idle
    case _ => PoliteOffer
  }

  lemma ImpoliteCompletes(v: View, phase: Phase)
    requires Fits(v, phase) && Proper(v) && v.there != [] && v.there[0].kind == Answer
    ensures v.impolitePending.Some?
    ensures Fits(CompleteView(v, Impolite), AfterImpoliteReceives(phase))
  {}

  lemma ImpoliteAnswers(v: View, phase: Phase, answer: Description)
    requires Fits(v, phase) && Proper(v) && v.impolitePending == None
    requires v.there != [] && Answers(answer, v.there[0])
    ensures v.there[0].kind == Offer
    ensures Fits(AnswerView(v, Impolite, v.there[0], answer), AfterImpoliteReceives(phase))
  {}

  lemma ImpoliteIgnores(v: View, phase: Phase)
    requires Fits(v, phase) && Proper(v) && v.impolitePending.Some?
    requires v.there != [] && v.there[0].kind != Answer
    ensures v.there[0].kind == Offer
    ensures Fits(IgnoreView(v), AfterImpoliteReceives(phase))
  {}

  // ----- what has become of the polite offers

  /** The polite offer nobody has decided on: neither answered by the one side nor undone by the other. */
  function Undecided(v: View, phase: Phase): Option<Description> {
    if phase.ImpoliteAnswer? || phase.ImpoliteAnswerThenOffer? then None else v.politePending
  }

  /** The polite offers are those answered, those undone and the undecided one, which is the latest. */
  predicate Accounted(h: History, undecided: Option<Description>) {
    && multiset(h.politeOffers) ==
         multiset(h.impoliteAnswered) + multiset(h.rolledBack) + multiset(Undone(undecided))
    && (undecided.Some? ==> h.politeOffers != [] && h.politeOffers[|h.politeOffers| - 1] == undecided.value.sdp)
  }

  predicate Counted(v: View, phase: Phase) {
    Accounted(v.history, Undecided(v, phase))
  }

  lemma OfferAccounted(h: History, offer: Description)
    requires Accounted(h, None)
    ensures Accounted(h.(politeOffers := h.politeOffers + [offer.sdp]), Some(offer))
  {}

  lemma AnsweredAccounted(h: History, offer: Description)
    requires Accounted(h, Some(offer))
    ensures Accounted(h.(impoliteAnswered := h.impoliteAnswered + [offer.sdp]), None)
  {}

  lemma UndoneAccounted(h: History, undecided: Option<Description>)
    requires Accounted(h, undecided)
    ensures Accounted(h.(rolledBack := h.rolledBack + Undone(undecided)), None)
  {}

  lemma UndecidedAfterOffer(v: View, phase: Phase, who: Role, offer: Description)
    requires Fits(v, phase) && (if who == Polite then v.politePending else v.impolitePending) == None
    ensures var next := if who == Polite then AfterPoliteOffer(phase) else AfterImpoliteOffer(phase);
      Undecided(OfferView(v, who, offer), next) == if who == Polite then Some(offer) else Undecided(v, phase)
    ensures who == Polite ==> Undecided(v, phase) == None
  {}

  lemma UndecidedAfterAnswer(v: View, phase: Phase)
    requires Fits(v, phase) && Proper(v)
    ensures v.back != [] && v.back[0].kind == Answer ==>
      Undecided(v, phase) == None && Undecided(CompleteView(v, Polite), AfterPoliteReceives(phase)) == None
    ensures v.there != [] && v.there[0].kind == Answer ==>
      Undecided(CompleteView(v, Impolite), AfterImpoliteReceives(phase)) == Undecided(v, phase)
  {}

  lemma UndecidedAfterRemoteOffer(v: View, phase: Phase, answer: Description)
    requires Fits(v, phase) && Proper(v)
    ensures v.back != [] && v.back[0].kind != Answer ==>
      && Undecided(v, phase) == v.politePending
      && Undecided(AnswerView(v, Polite, v.back[0], answer), AfterPoliteReceives(phase)) == None
    ensures v.there != [] && v.impolitePending == None ==>
      && Undecided(v, phase) == Some(v.there[0])
      && Undecided(AnswerView(v, Impolite, v.there[0], answer), AfterImpoliteReceives(phase)) == None
    ensures v.there != [] && v.there[0].kind != Answer && v.impolitePending.Some? ==>
      Undecided(IgnoreView(v), AfterImpoliteReceives(phase)) == Undecided(v, phase)
  {}

  lemma OfferCounted(v: View, phase: Phase, who: Role, offer: Description)
    requires Fits(v, phase) && Counted(v, phase)
    requires (if who == Polite then v.politePending else v.impolitePending) == None
    ensures var next := if who == Polite then AfterPoliteOffer(phase) else AfterImpoliteOffer(phase);
      Counted(OfferView(v, who, offer), next)
  {
    UndecidedAfterOffer(v, phase, who, offer);
    if who == Polite {
      OfferAccounted(v.history, offer);
    }
  }

  lemma CompleteCounted(v: View, phase: Phase, who: Role)
    requires Fits(v, phase) && Proper(v) && Counted(v, phase)
    requires var d := if who == Polite then v.back else v.there; d != [] && d[0].kind == Answer
    ensures var next := if who == Polite then AfterPoliteReceives(phase) else AfterImpoliteReceives(phase);
      Counted(CompleteView(v, who), next)
  {
    UndecidedAfterAnswer(v, phase);
  }

  lemma PoliteAnswerCounted(v: View, phase: Phase, answer: Description)
    requires Fits(v, phase) && Proper(v) && Counted(v, phase) && v.back != [] && v.back[0].kind != Answer
    ensures Counted(AnswerView(v, Polite, v.back[0], answer), AfterPoliteReceives(phase))
  {
    UndecidedAfterRemoteOffer(v, phase, answer);
    UndoneAccounted(v.history, v.politePending);
  }

  lemma ImpoliteAnswerCounted(v: View, phase: Phase, answer: Description)
    requires Fits(v, phase) && Proper(v) && Counted(v, phase) && v.impolitePending == None && v.there != []
    ensures Counted(AnswerView(v, Impolite, v.there[0], answer), AfterImpoliteReceives(phase))
  {
    UndecidedAfterRemoteOffer(v, phase, answer);
    AnsweredAccounted(v.history, v.there[0]);
  }

  lemma IgnoreCounted(v: View, phase: Phase)
    requires Fits(v, phase) && Proper(v) && Counted(v, phase) && v.impolitePending.Some?
    requires v.there != [] && v.there[0].kind != Answer
    ensures Counted(IgnoreView(v), AfterImpoliteReceives(phase))
  {
    UndecidedAfterRemoteOffer(v, phase, v.there[0]);
  }

  // ----- the invariant

  /** A candidate reaching this peer will be taken or discarded, not refused. */
  predicate Ready(p: Peer) {
    p.conn.RemoteDescription().Some? || p.ignore
  }

  /** No candidate overtakes the first description on the way from one peer to the other. */
  predicate CandidatesFollow(sender: Peer, receiver: Peer, channel: seq<Message>) {
    Ready(receiver) ||
    ((channel != [] ==> channel[0].Relayed?) && (IceCandidate in sender.conn.events ==> channel != []))
  }

  ghost predicate Peers(s: System) {
    && s.polite.polite && !s.impolite.polite
    && Settled(s.polite) && Settled(s.impolite)
    && CandidatesFollow(s.polite, s.impolite, s.toImpolite)
    && CandidatesFollow(s.impolite, s.polite, s.toPolite)
  }

  ghost predicate Shape(s: System, phase: Phase) {
    Peers(s) && Fits(ViewOf(s), phase)
  }

  ghost predicate Invariant(s: System, phase: Phase) {
    Shape(s, phase) && Counted(ViewOf(s), phase)
  }

  lemma FrontDescription(channel: seq<Message>)
    requires channel != []
    ensures Descriptions(channel) ==
      (if channel[0].Relayed? then [channel[0].description] else []) + Descriptions(channel[1..])
  {}

  lemma DeliverCandidate(s: System, who: Role, c: Choice)
    requires Peers(s) && Inbox(s, who) != [] && Inbox(s, who)[0] == Candidate
    ensures Peers(Deliver(s, who, c)) && ViewOf(Deliver(s, who, c)) == ViewOf(s)
  {
    FrontDescription(Inbox(s, who));
    assert Ready(PeerOf(s, who));
    assert s.toPolite + [] == s.toPolite && s.toImpolite + [] == s.toImpolite;
  }

  function OfferView(v: View, who: Role, offer: Description): View {
    var noted := NoteOffer(v.history, who, Some(offer));
    if who == Polite then v.(there := v.there + [offer], politePending := Some(offer), history := noted)
    else v.(back := v.back + [offer], impolitePending := Some(offer), history := noted)
  }

  /** What draining sends carries no description, and nothing at all if it would go first. */
  lemma DrainSends(p: Peer, receiver: Peer, channel: seq<Message>)
    requires CandidatesFollow(p, receiver, channel)
    ensures Descriptions(Drain(p).1) == []
    ensures !Ready(receiver) && channel == [] ==> Drain(p).1 == []
  {
    DrainedCandidates(p);
    OnlyCandidates(Drain(p).1);
    if IceCandidate !in p.conn.events {
      NoCandidateEvents(p.conn.events);
    }
  }

  lemma SentDescriptions(channel: seq<Message>, candidates: seq<Message>, response: Option<Description>)
    requires Descriptions(candidates) == []
    ensures Descriptions(channel + (candidates + Relay(response)))
         == Descriptions(channel) + (if response.Some? then [response.value] else [])
  {
    DescriptionsAppend(channel, candidates + Relay(response));
    DescriptionsAppend(candidates, Relay(response));
    RelayDescriptions(response);
  }

  function Partner(s: System, who: Role): Peer {
    if who == Polite then s.impolite else s.polite
  }

  function Outbox(s: System, who: Role): seq<Message> {
    if who == Polite then s.toImpolite else s.toPolite
  }

  /** Something to negotiate has been asked for, or is about to be reported. */
  predicate WantsOffer(p: Peer) {
    p.pending || NegotiationNeeded in p.conn.events
  }

  /** What a peer is after waking up, and what it has sent. */
  lemma Woken(s: System, who: Role, c: Choice) returns (r: Peer, candidates: seq<Message>, offer: Option<Description>)
    requires Peers(s)
    ensures WakeUp(s, who, c) ==
      After(s, who, r, Inbox(s, who), candidates + Relay(offer)).(history := NoteOffer(s.history, who, offer))
    ensures Settled(r) && r.polite == PeerOf(s, who).polite && r.ignore == PeerOf(s, who).ignore
    ensures Session(r.conn) == Session(PeerOf(s, who).conn)
    ensures if offer.None? then r.conn.pendingLocal == PeerOf(s, who).conn.pendingLocal && r.conn.events == []
            else r.conn.pendingLocal == offer && PeerOf(s, who).conn.pendingLocal == None
    ensures Descriptions(candidates) == [] && (!Ready(Partner(s, who)) && Outbox(s, who) == [] ==> candidates == [])
    ensures forall m :: m in candidates ==> m == Candidate
    ensures |candidates| == CandidateEvents(PeerOf(s, who).conn.events)
    ensures offer.Some? <==> WantsOffer(PeerOf(s, who)) && PeerOf(s, who).conn.state == Stable
    ensures !r.pending && (offer.Some? ==> offer.value.kind == Offer)
  {
    var p := PeerOf(s, who);
    DrainLaw(p);
    DrainedCandidates(p);
    DrainSends(p, Partner(s, who), Outbox(s, who));
    candidates := Drain(p).1;
    OfferLaw(Drain(p).0, c);
    r, offer := OfferIfPending(Drain(p).0, c).value.0, OfferIfPending(Drain(p).0, c).value.1;
  }

  lemma WakeEffect(s: System, who: Role, c: Choice) returns (offer: Option<Description>)
    requires Peers(s)
    ensures Peers(WakeUp(s, who, c))
    ensures offer == None ==> ViewOf(WakeUp(s, who, c)) == ViewOf(s)
    ensures offer.Some? ==>
      PeerOf(s, who).conn.pendingLocal == None && ViewOf(WakeUp(s, who, c)) == OfferView(ViewOf(s), who, offer.value)
  {
    var r, candidates;
    r, candidates, offer := Woken(s, who, c);
    SentDescriptions(Outbox(s, who), candidates, offer);
    WokenFollow(r, Partner(s, who), Outbox(s, who), candidates, offer);
  }

  /** Candidates still follow the first description: an offer goes out before any of its candidates. */
  lemma WokenFollow(r: Peer, partner: Peer, channel: seq<Message>, candidates: seq<Message>, offer: Option<Description>)
    requires offer.None? ==> r.conn.events == []
    requires !Ready(partner) && channel == [] ==> candidates == []
    requires !Ready(partner) && channel != [] ==> channel[0].Relayed?
    ensures CandidatesFollow(r, partner, channel + (candidates + Relay(offer)))
  {}

  /** An offer is answered: by a stable peer, or by the polite one whatever its state. */
  lemma DeliverOffer(s: System, who: Role, c: Choice) returns (answer: Description)
    requires Peers(s) && Inbox(s, who) != [] && Inbox(s, who)[0].Relayed?
    requires Inbox(s, who)[0].description.kind == Offer && (who == Polite || s.impolite.conn.state == Stable)
    ensures Answers(answer, Inbox(s, who)[0].description)
    ensures Peers(Deliver(s, who, c))
    ensures ViewOf(Deliver(s, who, c)) == AnswerView(ViewOf(s), who, Inbox(s, who)[0].description, answer)
  {
    var p, inbox := PeerOf(s, who), Inbox(s, who);
    var d := inbox[0].description;
    AcceptLaw(p, d, c);
    var (q, response) := OnDescription(p, d, c).value;
    answer := response.value;
    FrontDescription(inbox);
    SentDescriptions(if who == Polite then s.toImpolite else s.toPolite, [], response);
    assert [] + Relay(response) == Relay(response);
    assert s.history.rolledBack + [] == s.history.rolledBack;
  }

  function AnswerView(v: View, who: Role, d: Description, answer: Description): View
    requires if who == Polite then v.back != [] else v.there != []
  {
    if who == Polite then
      var h := v.history.(rolledBack := v.history.rolledBack + Undone(v.politePending),
                          politeAnswered := v.history.politeAnswered + [d.sdp]);
      v.(back := v.back[1..], there := v.there + [answer], politePending := None,
         politeSession := (Some(answer), Some(d)), history := h)
    else
      v.(there := v.there[1..], back := v.back + [answer], impoliteSession := (Some(answer), Some(d)),
         history := v.history.(impoliteAnswered := v.history.impoliteAnswered + [d.sdp]))
  }

  lemma DeliverAnswer(s: System, who: Role, c: Choice)
    requires Peers(s) && Inbox(s, who) != [] && Inbox(s, who)[0].Relayed?
    requires Inbox(s, who)[0].description.kind == Answer && PeerOf(s, who).conn.state == HaveLocalOffer
    ensures Peers(Deliver(s, who, c))
    ensures ViewOf(Deliver(s, who, c)) == CompleteView(ViewOf(s), who)
  {
    var p, inbox := PeerOf(s, who), Inbox(s, who);
    CompleteLaw(p, inbox[0].description, c);
    FrontDescription(inbox);
    assert s.toPolite + [] == s.toPolite && s.toImpolite + [] == s.toImpolite;
  }

  function CompleteView(v: View, who: Role): View
    requires if who == Polite then v.back != [] else v.there != []
  {
    if who == Polite then
      v.(back := v.back[1..], politePending := None, politeSession := (v.politePending, Some(v.back[0])))
    else
      v.(there := v.there[1..], impolitePending := None, impoliteSession := (v.impolitePending, Some(v.there[0])))
  }

  function IgnoreView(v: View): View
    requires v.there != []
  {
    v.(there := v.there[1..], history := v.history.(ignored := v.history.ignored + [v.there[0].sdp]))
  }

  /** The impolite peer, waiting for an answer, ignores an offer. */
  lemma DeliverIgnored(s: System, c: Choice)
    requires Peers(s) && s.toImpolite != [] && s.toImpolite[0].Relayed?
    requires s.toImpolite[0].description.kind == Offer && s.impolite.conn.state == HaveLocalOffer
    ensures Peers(Deliver(s, Impolite, c))
    ensures ViewOf(s).there != [] && ViewOf(Deliver(s, Impolite, c)) == IgnoreView(ViewOf(s))
  {
    FrontDescription(s.toImpolite);
    assert s.toPolite + [] == s.toPolite;
  }

  // ----- every run

  lemma KeepsWake(s: System, who: Role, c: Choice, phase: Phase) returns (next: Phase)
    requires Invariant(s, phase)
    ensures Invariant(WakeUp(s, who, c), next)
  {
    var offer := WakeEffect(s, who, c);
    next := phase;
    if offer.Some? {
      if who == Polite {
        PoliteOffers(ViewOf(s), phase, offer.value);
        OfferCounted(ViewOf(s), phase, Polite, offer.value);
        next := AfterPoliteOffer(phase);
      } else {
        ImpoliteOffers(ViewOf(s), phase, offer.value);
        OfferCounted(ViewOf(s), phase, Impolite, offer.value);
        next := AfterImpoliteOffer(phase);
      }
    }
  }

  lemma KeepsPoliteDelivery(s: System, c: Choice, phase: Phase) returns (next: Phase)
    requires Invariant(s, phase) && s.toPolite != [] && s.toPolite[0].Relayed?
    ensures Invariant(Deliver(s, Polite, c), next)
  {
    FrontDescription(s.toPolite);
    var v := ViewOf(s);
    next := AfterPoliteReceives(phase);
    if v.back[0].kind == Answer {
      PoliteCompletes(v, phase);
      CompleteCounted(v, phase, Polite);
      DeliverAnswer(s, Polite, c);
    } else {
      assert v.back[0].kind == Offer by { OnlyOffersBack(v, phase); }
      var answer := DeliverOffer(s, Polite, c);
      PoliteAnswers(v, phase, answer);
      PoliteAnswerCounted(v, phase, answer);
    }
  }

  lemma OnlyOffersBack(v: View, phase: Phase)
    requires Fits(v, phase) && Proper(v) && v.back != [] && v.back[0].kind != Answer
    ensures v.back[0].kind == Offer
  {}

  lemma OnlyOffersThere(v: View, phase: Phase)
    requires Fits(v, phase) && Proper(v) && v.there != [] && v.there[0].kind != Answer
    ensures v.there[0].kind == Offer
  {}

  lemma KeepsImpoliteDelivery(s: System, c: Choice, phase: Phase) returns (next: Phase)
    requires Invariant(s, phase) && s.toImpolite != [] && s.toImpolite[0].Relayed?
    ensures Invariant(Deliver(s, Impolite, c), next)
  {
    FrontDescription(s.toImpolite);
    var v := ViewOf(s);
    next := AfterImpoliteReceives(phase);
    if v.there[0].kind == Answer {
      ImpoliteCompletes(v, phase);
      CompleteCounted(v, phase, Impolite);
      DeliverAnswer(s, Impolite, c);
    } else {
      OnlyOffersThere(v, phase);
      if v.impolitePending == None {
        var answer := DeliverOffer(s, Impolite, c);
        ImpoliteAnswers(v, phase, answer);
        ImpoliteAnswerCounted(v, phase, answer);
      } else {
        DeliverIgnored(s, c);
        ImpoliteIgnores(v, phase);
        IgnoreCounted(v, phase);
      }
    }
  }

  lemma KeepsDelivery(s: System, who: Role, c: Choice, phase: Phase) returns (next: Phase)
    requires Invariant(s, phase)
    ensures Invariant(Deliver(s, who, c), next)
  {
    next := phase;
    if Inbox(s, who) != [] {
      if Inbox(s, who)[0] == Candidate {
        DeliverCandidate(s, who, c);
      } else if who == Polite {
        next := KeepsPoliteDelivery(s, c, phase);
      } else {
        next := KeepsImpoliteDelivery(s, c, phase);
      }
    }
  }

  lemma KeepsStep(s: System, step: Step, phase: Phase) returns (next: Phase)
    requires Invariant(s, phase)
    ensures Invariant(Apply(s, step), next)
  {
    next := phase;
    match step
    case Wake(who, c) => next := KeepsWake(s, who, c, phase);
    case Receive(who, c) => next := KeepsDelivery(s, who, c, phase);
    case Renegotiate(who) => KeepsNote(s, step);
    case ChannelCreated(who) => KeepsNote(s, step);
  }

  lemma KeepsNote(s: System, step: Step)
    requires Peers(s) && (step.Renegotiate? || step.ChannelCreated?)
    ensures Peers(Apply(s, step)) && ViewOf(Apply(s, step)) == ViewOf(s)
  {
    var c := PeerOf(s, step.who).conn;
    LastStateSnoc(c.events, NegotiationNeeded, c.state);
    assert s.toPolite + [] == s.toPolite && s.toImpolite + [] == s.toImpolite;
  }

  /** Every run keeps the invariant. */
  lemma {:induction false} EveryRun(steps: seq<Step>) returns (phase: Phase)
    ensures Invariant(Run(steps), phase)
  {
    if steps == [] {
      phase := Idle;
    } else {
      var n := |steps| - 1;
      var before := EveryRun(steps[..n]);
      phase := KeepsStep(Run(steps[..n]), steps[n], before);
    }
  }

  /**
   No call either handler makes is ever refused: both tasks stay alive in every run, and
   between steps the tracked state is the connection's.
   */
  lemma NeverOutOfOrder(steps: seq<Step>, who: Role)
    ensures var p := PeerOf(Run(steps), who);
      && !p.failed && !p.making && p.tracked == p.conn.state
      && (p.conn.state == Stable || p.conn.state == HaveLocalOffer)
  {
    var phase := EveryRun(steps);
  }

  /** At most three descriptions are on their way to the impolite peer, and two to the polite one. */
  lemma InFlightBounds(steps: seq<Step>)
    ensures |Descriptions(Run(steps).toImpolite)| <= 3 && |Descriptions(Run(steps).toPolite)| <= 2
  {
    var phase := EveryRun(steps);
  }

  lemma AnswersInPhase(v: View, phase: Phase, i: nat)
    requires Fits(v, phase) && Proper(v)
    ensures i < |v.there| && v.there[i].kind == Answer ==>
      v.impolitePending.Some? && Answers(v.there[i], v.impolitePending.value)
    ensures i < |v.back| && v.back[i].kind == Answer ==>
      v.politePending.Some? && Answers(v.back[i], v.politePending.value)
  {}

  /** Every answer in flight answers the one offer its receiver has outstanding. */
  lemma AnswersMatch(steps: seq<Step>, who: Role, i: nat)
    requires i < |Descriptions(Inbox(Run(steps), who))| && Descriptions(Inbox(Run(steps), who))[i].kind == Answer
    ensures var p := PeerOf(Run(steps), who);
      p.conn.pendingLocal.Some? && Answers(Descriptions(Inbox(Run(steps), who))[i], p.conn.pendingLocal.value)
  {
    var phase := EveryRun(steps);
    AnswersInPhase(ViewOf(Run(steps)), phase, i);
  }

  /**
   With no description in flight both peers are stable, hold the same session, and have
   dealt with every crossing the same way: each impolite offer was answered once, in
   order, and the polite offers ignored on one side are those undone on the other.
   */
  lemma Quiescence(steps: seq<Step>)
    requires Descriptions(Run(steps).toImpolite) == [] && Descriptions(Run(steps).toPolite) == []
    ensures var s := Run(steps);
      && s.polite.conn.state == Stable && s.impolite.conn.state == Stable
      && s.polite.conn.currentLocal == s.impolite.conn.currentRemote
      && s.polite.conn.currentRemote == s.impolite.conn.currentLocal
      && s.history.politeAnswered == s.history.impoliteOffers
      && s.history.rolledBack == s.history.ignored
  {
    var phase := EveryRun(steps);
  }

  /** At any moment the polite peer has answered all impolite offers but possibly the last. */
  lemma AnsweredInOrder(steps: seq<Step>)
    ensures var h := Run(steps).history;
      h.politeAnswered <= h.impoliteOffers && |h.impoliteOffers| <= |h.politeAnswered| + 1
  {
    var phase := EveryRun(steps);
  }

  // ----- every polite offer accounted for

  /** Offers carry numbers that grow, all below `next`. */
  predicate Numbered(offers: seq<Sdp>, next: nat) {
    && (forall i :: 0 <= i < |offers| ==> offers[i].OfferText? && offers[i].serial < next)
    && forall i, j :: 0 <= i < j < |offers| ==> offers[i].serial < offers[j].serial
  }

  lemma NumberedMore(offers: seq<Sdp>, next: nat, text: Sdp, later: nat)
    requires Numbered(offers, next) && text.OfferText? && next <= text.serial < later
    ensures Numbered(offers + [text], later)
  {}

  /** An offer takes the connection's number, which then grows. */
  lemma OfferNumber(p: Peer, c: Choice)
    requires OfferIfPending(p, c).Success?
    ensures var (q, offer) := OfferIfPending(p, c).value;
      if offer.None? then q.conn.serial == p.conn.serial
      else offer.value.sdp == OfferText(p.polite, p.conn.serial) && q.conn.serial == p.conn.serial + 1
  {}

  lemma SetKeepsNumber(c: Connection, d: Description, side: Side, needed: bool)
    requires SetDescription(c, d, side, needed).Success?
    ensures SetDescription(c, d, side, needed).value.serial == c.serial
  {}

  lemma ResponseNumber(p: Peer, c: Choice)
    requires Respond(p, c).Success?
    ensures Respond(p, c).value.0.conn.serial >= p.conn.serial
  {
    if p.tracked == HaveRemoteOffer {
      var (conn, answer) := CreateAnswer(AddLocalCandidate(p.conn, c.newCandidate), p.polite).value;
      SetKeepsNumber(conn, FillEmpty(conn, answer), SetLocal, c.neededAfterAnswer);
    }
  }

  lemma AcceptNumber(p: Peer, d: Description, c: Choice)
    requires Accept(p, d, c).Success?
    ensures Accept(p, d, c).value.0.conn.serial >= p.conn.serial
  {
    SetKeepsNumber(p.conn, d, SetRemote, c.neededAfterDescription);
    var conn := SetRemoteDescription(p.conn, d, c.neededAfterDescription).value;
    ResponseNumber(p.(conn := conn, tracked := TrackRemote(d.kind, p.tracked)), c);
  }

  lemma ReceivedNumber(p: Peer, d: Description, c: Choice)
    requires OnDescription(p, d, c).Success?
    ensures OnDescription(p, d, c).value.0.conn.serial >= p.conn.serial
  {
    var p1 := p.(ignore := !p.polite && Collides(p, d));
    if !p1.ignore {
      if p1.polite && Collides(p, d) {
        SetKeepsNumber(p1.conn, FillEmpty(p1.conn, ROLLBACK), SetLocal, c.neededAfterRollback);
        AcceptNumber(RollBack(p1, c).value, d, c);
      } else {
        AcceptNumber(p1, d, c);
      }
    }
  }

  lemma WakeNumbers(s: System, who: Role, c: Choice)
    requires Numbered(s.history.politeOffers, s.polite.conn.serial)
    ensures var r := WakeUp(s, who, c); Numbered(r.history.politeOffers, r.polite.conn.serial)
  {
    var p := PeerOf(s, who);
    DrainLaw(p);
    var q := Drain(p).0;
    if OfferIfPending(q, c).Success? {
      OfferNumber(q, c);
      var (r, offer) := OfferIfPending(q, c).value;
      if who == Polite && offer.Some? {
        NumberedMore(s.history.politeOffers, p.conn.serial, offer.value.sdp, r.conn.serial);
      }
    }
  }

  lemma DeliveryKeepsOffers(s: System, who: Role, c: Choice)
    ensures Deliver(s, who, c).history.politeOffers == s.history.politeOffers
  {}

  lemma DeliveryNumber(s: System, who: Role, c: Choice)
    ensures Deliver(s, who, c).polite.conn.serial >= s.polite.conn.serial
  {
    var p, inbox := PeerOf(s, who), Inbox(s, who);
    if inbox != [] && inbox[0].Relayed? && OnDescription(p, inbox[0].description, c).Success? {
      ReceivedNumber(p, inbox[0].description, c);
    }
  }

  lemma {:induction false} RunNumbers(steps: seq<Step>)
    ensures Numbered(Run(steps).history.politeOffers, Run(steps).polite.conn.serial)
  {
    if steps != [] {
      var n := |steps| - 1;
      RunNumbers(steps[..n]);
      match steps[n]
      case Wake(who, c) => WakeNumbers(Run(steps[..n]), who, c);
      case Receive(who, c) =>
        DeliveryKeepsOffers(Run(steps[..n]), who, c);
        DeliveryNumber(Run(steps[..n]), who, c);
      case _ =>
    }
  }

  lemma {:induction false} NumberedOnce(offers: seq<Sdp>, next: nat, i: nat)
    requires Numbered(offers, next) && i < |offers|
    ensures multiset(offers)[offers[i]] == 1
  {
    var n := |offers| - 1;
    var front, last := offers[..n], offers[n];
    assert offers == front + [last];
    if i < n {
      NumberedOnce(front, next, i);
    } else {
      assert last !in front;
    }
  }

  /**
   In every run each polite offer but possibly the last has been decided on in exactly one
   way: answered once by the impolite peer, or undone once by the polite one. The last
   has been decided on at most once.
   */
  lemma PoliteOffersDecided(steps: seq<Step>, i: nat)
    requires i < |Run(steps).history.politeOffers|
    ensures var h := Run(steps).history;
      var decided := multiset(h.impoliteAnswered)[h.politeOffers[i]] + multiset(h.rolledBack)[h.politeOffers[i]];
      decided <= 1 && (i < |h.politeOffers| - 1 ==> decided == 1)
  {
    var phase := EveryRun(steps);
    RunNumbers(steps);
    DecidedOnce(Run(steps).history, Undecided(ViewOf(Run(steps)), phase), Run(steps).polite.conn.serial, i);
  }

  lemma DecidedOnce(h: History, undecided: Option<Description>, next: nat, i: nat)
    requires Accounted(h, undecided) && Numbered(h.politeOffers, next) && i < |h.politeOffers|
    ensures var decided := multiset(h.impoliteAnswered)[h.politeOffers[i]] + multiset(h.rolledBack)[h.politeOffers[i]];
      decided <= 1 && (i < |h.politeOffers| - 1 ==> decided == 1)
  {
    NumberedOnce(h.politeOffers, next, i);
  }

  // ----- settling down

  /** An offer weighs two, any other message one. */
  function Load(channel: seq<Message>): nat {
    if channel == [] then 0
    else Load(channel[1..]) + if channel[0].Relayed? && channel[0].description.kind == Offer then 2 else 1
  }

  lemma {:induction false} LoadAppend(a: seq<Message>, b: seq<Message>)
    ensures Load(a + b) == Load(a) + Load(b)
  {
    if a == [] {
      assert a + b == b;
    } else {
      assert (a + b)[1..] == a[1..] + b;
      LoadAppend(a[1..], b);
    }
  }

  function TotalLoad(s: System): nat {
    Load(s.toImpolite) + Load(s.toPolite)
  }

  /** Every delivery lightens the load, so deliveries alone bring any run to rest. */
  lemma DeliveryLightens(steps: seq<Step>, who: Role, c: Choice)
    requires Inbox(Run(steps), who) != []
    ensures TotalLoad(Run(steps + [Receive(who, c)])) < TotalLoad(Run(steps))
  {
    var s := Run(steps);
    var phase := EveryRun(steps);
    assert (steps + [Receive(who, c)])[..|steps|] == steps;
    DeliverLoad(s, who, c);
  }

  lemma DeliverLoad(s: System, who: Role, c: Choice)
    requires Inbox(s, who) != []
    ensures TotalLoad(Deliver(s, who, c)) < TotalLoad(s)
  {
    var p, inbox := PeerOf(s, who), Inbox(s, who);
    var out := if who == Polite then s.toImpolite else s.toPolite;
    assert out + [] == out;
    if inbox[0].Relayed? && OnDescription(p, inbox[0].description, c).Success? {
      var response := OnDescription(p, inbox[0].description, c).value.1;
      LoadAppend(out, Relay(response));
      ResponseLoad(p, inbox[0].description, c);
    }
  }

  lemma ResponseLoad(p: Peer, d: Description, c: Choice)
    requires OnDescription(p, d, c).Success?
    ensures Load(Relay(OnDescription(p, d, c).value.1)) < if d.kind == Offer then 2 else 1
  {
    var response := OnDescription(p, d, c).value.1;
    ResponseKind(p, d, c);
    RelayLoad(response);
  }

  lemma RelayLoad(response: Option<Description>)
    ensures Load(Relay(response)) == if response.None? then 0 else if response.value.kind == Offer then 2 else 1
  {
    if response.Some? {
      assert Relay(response)[1..] == [];
    }
  }

  /** Only offers are responded to, and only with answers. */
  lemma ResponseKind(p: Peer, d: Description, c: Choice)
    requires OnDescription(p, d, c).Success?
    ensures var response := OnDescription(p, d, c).value.1;
      response.Some? ==> d.kind == Offer && response.value.kind == Answer
  {}

  /** Nothing in flight, both peers stable, one session. */
  predicate Resolved(s: System) {
    && s.toImpolite == [] && s.toPolite == []
    && s.polite.conn.state == Stable && s.impolite.conn.state == Stable && Agree(ViewOf(s))
  }

  function Continue(s: System, steps: seq<Step>): System
    decreases |steps|
  {
    if steps == [] then s else Continue(Apply(s, steps[0]), steps[1..])
  }

  lemma {:induction false} RunContinues(steps: seq<Step>, more: seq<Step>)
    ensures Run(steps + more) == Continue(Run(steps), more)
    decreases |more|
  {
    if more == [] {
      assert steps + more == steps;
    } else {
      var longer := steps + [more[0]];
      assert longer[..|steps|] == steps;
      assert longer + more[1..] == steps + more;
      RunContinues(longer, more[1..]);
    }
  }

  lemma EmptyIsResolved(s: System, phase: Phase)
    requires Shape(s, phase) && s.toImpolite == [] && s.toPolite == []
    ensures Resolved(s)
  {}

  lemma {:induction false} Settle(s: System, phase: Phase, c: Choice) returns (more: seq<Step>)
    requires Invariant(s, phase)
    ensures (forall m :: m in more ==> m.Receive?) && |more| <= TotalLoad(s)
    ensures Resolved(Continue(s, more))
    decreases TotalLoad(s)
  {
    if s.toImpolite == [] && s.toPolite == [] {
      more := [];
      EmptyIsResolved(s, phase);
    } else {
      var next := Receive(if s.toPolite != [] then Polite else Impolite, c);
      var phase1 := KeepsStep(s, next, phase);
      DeliverLoad(s, next.who, c);
      more := SettleAfter(s, next, phase1, c);
    }
  }

  lemma SettleAfter(s: System, next: Step, phase: Phase, c: Choice) returns (more: seq<Step>)
    requires next.Receive? && Invariant(Apply(s, next), phase) && TotalLoad(Apply(s, next)) < TotalLoad(s)
    ensures (forall m :: m in more ==> m.Receive?) && |more| <= TotalLoad(s)
    ensures Resolved(Continue(s, more))
    decreases TotalLoad(s), 0
  {
    var rest := Settle(Apply(s, next), phase, c);
    more := [next] + rest;
    assert more[1..] == rest;
  }

  /** From any run, delivering what is in flight ends with both channels empty and the peers agreed. */
  lemma DeliveriesSettle(steps: seq<Step>, c: Choice) returns (more: seq<Step>)
    ensures (forall m :: m in more ==> m.Receive?) && |more| <= TotalLoad(Run(steps))
    ensures Resolved(Run(steps + more))
  {
    var phase := EveryRun(steps);
    more := Settle(Run(steps), phase, c);
    RunContinues(steps, more);
  }

  // ----- candidates

  /** A description read is accepted, ignored by an impolite peer, or gives the connection its remote description. */
  lemma DescriptionAccepted(s: System, who: Role, c: Choice, phase: Phase)
    requires Shape(s, phase) && Inbox(s, who) != [] && Inbox(s, who)[0].Relayed?
    ensures OnDescription(PeerOf(s, who), Inbox(s, who)[0].description, c).Success?
    ensures var p, q := PeerOf(s, who), OnDescription(PeerOf(s, who), Inbox(s, who)[0].description, c).value.0;
      if q.ignore then !p.polite && q.conn == p.conn else q.conn.RemoteDescription().Some?
  {
    var p, d := PeerOf(s, who), Inbox(s, who)[0].description;
    var v := ViewOf(s);
    FrontDescription(Inbox(s, who));
    if d.kind == Answer {
      AnswersInPhase(v, phase, 0);
      CompleteLaw(p, d, c);
    } else {
      if who == Polite { OnlyOffersBack(v, phase); } else { OnlyOffersThere(v, phase); }
      if p.polite || p.conn.state == Stable {
        AcceptLaw(p, d, c);
      }
    }
  }

  /** A remote description is not given up, and candidates are only added to one. */
  predicate KeepsRemote(p: Connection, q: Connection) {
    && (p.RemoteDescription().Some? ==> q.RemoteDescription().Some?)
    && (q.remoteCandidates != p.remoteCandidates ==> q.RemoteDescription().Some?)
  }

  lemma WakeKeepsRemote(s: System, who: Role, c: Choice)
    requires Peers(s)
    ensures var p, q := PeerOf(s, who), PeerOf(WakeUp(s, who, c), who);
      && q.ignore == p.ignore && q.conn.remoteCandidates == p.conn.remoteCandidates
      && q.conn.RemoteDescription() == p.conn.RemoteDescription()
  {
    var p := PeerOf(s, who);
    DrainLaw(p);
    OfferLaw(Drain(p).0, c);
  }

  lemma DeliveryKeepsRemote(s: System, who: Role, c: Choice, phase: Phase)
    requires Shape(s, phase)
    ensures KeepsRemote(PeerOf(s, who).conn, PeerOf(Deliver(s, who, c), who).conn)
  {
    if Inbox(s, who) != [] && Inbox(s, who)[0].Relayed? {
      DescriptionAccepted(s, who, c, phase);
    }
  }

  lemma StepKeepsRemote(s: System, step: Step, who: Role, phase: Phase)
    requires Shape(s, phase)
    ensures KeepsRemote(PeerOf(s, who).conn, PeerOf(Apply(s, step), who).conn)
  {
    if step.who != who {
      OtherStays(s, step, who);
    } else {
      match step
      case Wake(_, c) => WakeKeepsRemote(s, who, c);
      case Receive(_, c) => DeliveryKeepsRemote(s, who, c, phase);
      case _ =>
    }
  }

  lemma OtherStays(s: System, step: Step, who: Role)
    requires step.who != who
    ensures PeerOf(Apply(s, step), who) == PeerOf(s, who)
  {}

  /** A connection that holds a remote candidate has accepted a remote description. */
  lemma {:induction false} CandidatesNeedDescription(steps: seq<Step>, who: Role)
    ensures var c := PeerOf(Run(steps), who).conn;
      c.remoteCandidates > 0 ==> c.RemoteDescription().Some?
  {
    if steps != [] {
      var n := |steps| - 1;
      CandidatesNeedDescription(steps[..n], who);
      var before := EveryRun(steps[..n]);
      StepKeepsRemote(Run(steps[..n]), steps[n], who, before);
    }
  }

  /** The step hands the impolite peer a description. */
  predicate DescribesToImpolite(s: System, step: Step) {
    step.Receive? && step.who == Impolite && s.toImpolite != [] && s.toImpolite[0].Relayed?
  }

  lemma IgnoringStep(s: System, step: Step, phase: Phase)
    requires Shape(s, phase) && s.impolite.ignore && !DescribesToImpolite(s, step)
    ensures var p, q := s.impolite, Apply(s, step).impolite;
      q.ignore && q.conn.remoteCandidates == p.conn.remoteCandidates
  {
    if step.Wake? && step.who == Impolite {
      WakeKeepsRemote(s, Impolite, step.choice);
    }
  }

  lemma IgnoredOffer(s: System, c: Choice, phase: Phase)
    requires Shape(s, phase) && s.toImpolite != [] && s.toImpolite[0].Relayed?
    requires Collides(s.impolite, s.toImpolite[0].description)
    ensures var p, q := s.impolite, Apply(s, Receive(Impolite, c)).impolite;
      q.ignore && q.conn == p.conn
  {}

  /** None of the steps, taken from `s` on, hands the impolite peer a description. */
  predicate NoneDescribes(s: System, steps: seq<Step>)
    decreases |steps|
  {
    steps == [] || (!DescribesToImpolite(s, steps[0]) && NoneDescribes(Apply(s, steps[0]), steps[1..]))
  }

  lemma {:induction false} IgnoringContinues(s: System, phase: Phase, steps: seq<Step>)
    requires Invariant(s, phase) && s.impolite.ignore && NoneDescribes(s, steps)
    ensures var q := Continue(s, steps).impolite;
      q.ignore && q.conn.remoteCandidates == s.impolite.conn.remoteCandidates
    decreases |steps|
  {
    if steps != [] {
      IgnoringStep(s, steps[0], phase);
      var next := KeepsStep(s, steps[0], phase);
      IgnoringContinues(Apply(s, steps[0]), next, steps[1..]);
    }
  }

  /**
   From an offer that collides at the impolite peer on, and until the next description
   is handed to it, whatever else either peer does, the offer stays ignored and no
   candidate reaches the connection.
   */
  lemma IgnoringLasts(steps: seq<Step>, c: Choice, more: seq<Step>)
    requires var s := Run(steps);
      s.toImpolite != [] && s.toImpolite[0].Relayed? && Collides(s.impolite, s.toImpolite[0].description)
    requires NoneDescribes(Run(steps + [Receive(Impolite, c)]), more)
    ensures var p, q := Run(steps).impolite, Run(steps + [Receive(Impolite, c)] + more).impolite;
      q.ignore && q.conn.remoteCandidates == p.conn.remoteCandidates
  {
    var received := steps + [Receive(Impolite, c)];
    var phase := EveryRun(steps);
    RunSnoc(steps, Receive(Impolite, c));
    IgnoredOffer(Run(steps), c, phase);
    var next := EveryRun(received);
    IgnoringContinues(Run(received), next, more);
    RunContinues(received, more);
  }

  lemma RunSnoc(steps: seq<Step>, step: Step)
    ensures Run(steps + [step]) == Apply(Run(steps), step)
  {
    assert (steps + [step])[..|steps|] == steps;
  }

  // ----- every call in its place

  lemma LegalInPhase(s: System, who: Role, phase: Phase)
    requires Shape(s, phase) && Inbox(s, who) != [] && Inbox(s, who)[0].Relayed?
    ensures var p, d := PeerOf(s, who), Inbox(s, who)[0].description;
      || (d.kind == Answer && p.conn.state == HaveLocalOffer)
      || (d.kind == Offer && (Collides(p, d) <==> p.conn.state == HaveLocalOffer))
  {
    var v := ViewOf(s);
    FrontDescription(Inbox(s, who));
    if Inbox(s, who)[0].description.kind == Answer {
      AnswersInPhase(v, phase, 0);
    } else if who == Polite {
      OnlyOffersBack(v, phase);
    } else {
      OnlyOffersThere(v, phase);
    }
  }

  /**
   In every run: after a drain the tracked state is the connection's, an offer is made in
   the stable state only, an answer is read with an own offer out, and an offer is read in
   the stable state or collides with an own offer, which the polite peer then rolls back
   to the stable state.
   */
  lemma LegalCalls(steps: seq<Step>, who: Role, c: Choice)
    ensures var p := PeerOf(Run(steps), who);
      var drained := Drain(p).0;
      && drained.tracked == drained.conn.state && OfferIfPending(drained, c).Success?
      && (OfferIfPending(drained, c).value.1.Some? ==> drained.conn.state == Stable)
    ensures var s := Run(steps);
      Inbox(s, who) != [] && Inbox(s, who)[0].Relayed? ==>
        var p, d := PeerOf(s, who), Inbox(s, who)[0].description;
        || (d.kind == Answer && p.conn.state == HaveLocalOffer)
        || (d.kind == Offer && !Collides(p, d) && p.conn.state == Stable)
        || (d.kind == Offer && Collides(p, d) && p.conn.state == HaveLocalOffer
            && RollBack(p, c).Success? && RollBack(p, c).value.conn.state == Stable)
  {
    var s := Run(steps);
    var p := PeerOf(s, who);
    var phase := EveryRun(steps);
    DrainLaw(p);
    OfferLaw(Drain(p).0, c);
    if Inbox(s, who) != [] && Inbox(s, who)[0].Relayed? {
      LegalInPhase(s, who, phase);
      if p.conn.state == HaveLocalOffer { UndoLaw(p, c); }
    }
  }
}
