/**
 The host page's negotiation with its viewers. A peer is an object that closures keep alive after it
 has left the peers map, so objects are named by handles; an id can come back with a new object.
 Each await splits a handler: anything else may run before it continues.
 */
module Negotiation {
  import opened Outcomes

  /** The signaling states of section 3.2 of RFC 8829 that the offering side goes through */
  datatype Signaling = Stable | HaveLocalOffer | Closed

  /** Where a call of negotiatePeer is suspended */
  datatype Stage = CreatingOffer | SettingLocal | Sending

  /**
   requested counts the requests for an offer, covered those made before the latest offer was
   begun, served those made before the latest offer that was set as local description was begun.
   */
  datatype Log = Log(requested: nat, covered: nat, served: nat, lastFailed: bool)

  /**
   attempts are the suspended calls of negotiatePeer, answers the answers being applied, applied the
   handlers of an answer that have still to continue, events the state change events still to run.
   */
  datatype Peer = Peer(id: string, negotiating: bool, needsRenegotiate: bool, signaling: Signaling,
                       attempts: seq<Stage>, answers: nat, applied: nat, events: nat, log: Log)

  type Handle = nat

  datatype Page = Page(peers: map<string, Handle>, objects: map<Handle, Peer>, timers: multiset<string>)

  // ----- the handlers, as functions

  function NewPeer(id: string): Peer {
    Peer(id, false, false, Stable, [], 0, 0, 0, Log(0, 0, 0, false))
  }

  /** negotiatePeer up to its first await */
  function Begin(p: Peer): Peer {
    if p.negotiating || p.signaling != Stable then p.(needsRenegotiate := true)
    else
      p.(needsRenegotiate := false, negotiating := true, attempts := p.attempts + [CreatingOffer],
         log := p.log.(covered := p.log.requested, lastFailed := false))
  }

  function WithPeer(page: Page, h: Handle, p: Peer): Page {
    page.(objects := page.objects[h := p])
  }

  predicate WellFormed(page: Page) {
    forall id | id in page.peers :: page.peers[id] in page.objects
  }

  function Negotiated(page: Page, id: string): Page
    requires WellFormed(page)
  {
    if id in page.peers then WithPeer(page, page.peers[id], Begin(page.objects[page.peers[id]])) else page
  }

  /**
   What the state change event and the handler of an answer do: the flag is the object's, the offer
   that of its id.
   */
  function WakeUp(page: Page, h: Handle): Page
    requires WellFormed(page) && h in page.objects
  {
    var p := page.objects[h];
    if p.needsRenegotiate && p.signaling == Stable then
      Negotiated(WithPeer(page, h, p.(needsRenegotiate := false)), p.id)
    else page
  }

  /** The finally block: one attempt is over, and a request that came during it is put on a timer. */
  function Finished(page: Page, h: Handle, i: nat): Page
    requires h in page.objects && i < |page.objects[h].attempts|
  {
    var p := page.objects[h].(negotiating := false,
                              attempts := page.objects[h].attempts[..i] + page.objects[h].attempts[i + 1..]);
    if p.needsRenegotiate then
      WithPeer(page, h, p.(needsRenegotiate := false)).(timers := page.timers + multiset{p.id})
    else WithPeer(page, h, p)
  }

  datatype Step =
    | EnsurePeer(id: string, handle: Handle)
    | NegotiationNeeded(h: Handle)
    | OfferCreated(h: Handle, i: nat)
    | LocalSet(h: Handle, i: nat)
    | OfferSent(h: Handle, i: nat)
    | OfferFailed(h: Handle, i: nat)
    | AnswerArrives(id: string)
    | AnswerApplied(h: Handle)
    | AnswerRejected(h: Handle)
    | AnswerContinues(h: Handle)
    | StateChanged(h: Handle)
    | TimerFires(id: string)
    | CleanupPeer(id: string)

  predicate Suspended(page: Page, h: Handle, i: nat, stage: Stage) {
    h in page.objects && i < |page.objects[h].attempts| && page.objects[h].attempts[i] == stage
  }

  /** What the browser and the network may do next */
  predicate Enabled(page: Page, step: Step) {
    match step
    case EnsurePeer(_, handle) => handle !in page.objects
    case NegotiationNeeded(h) => h in page.objects
    case OfferCreated(h, i) => Suspended(page, h, i, CreatingOffer)
    case LocalSet(h, i) => Suspended(page, h, i, SettingLocal) && page.objects[h].signaling != Closed
    case OfferSent(h, i) => Suspended(page, h, i, Sending)
    case OfferFailed(h, i) => Suspended(page, h, i, CreatingOffer) || Suspended(page, h, i, SettingLocal)
    case AnswerArrives(_) => true
    case AnswerApplied(h) =>
      h in page.objects && page.objects[h].answers > 0 && page.objects[h].signaling == HaveLocalOffer
    case AnswerRejected(h) => h in page.objects && page.objects[h].answers > 0
    case AnswerContinues(h) => h in page.objects && page.objects[h].applied > 0
    case StateChanged(h) => h in page.objects && page.objects[h].events > 0
    case TimerFires(id) => id in page.timers
    case CleanupPeer(_) => true
  }

  function Next(page: Page, step: Step): Page
    requires WellFormed(page) && Enabled(page, step)
  {
    match step
    case EnsurePeer(id, handle) =>
      if id in page.peers then page
      else WithPeer(page.(peers := page.peers[id := handle]), handle, NewPeer(id))
    case NegotiationNeeded(h) =>
      var p := page.objects[h];
      Negotiated(WithPeer(page, h, p.(needsRenegotiate := true, log := p.log.(requested := p.log.requested + 1))), p.id)
    case OfferCreated(h, i) =>
      var p := page.objects[h];
      WithPeer(page, h, p.(attempts := p.attempts[i := SettingLocal]))
    case LocalSet(h, i) =>
      var p := page.objects[h];
      WithPeer(page, h, p.(attempts := p.attempts[i := Sending], signaling := HaveLocalOffer,
                           events := if p.signaling == Stable then p.events + 1 else p.events,
                           log := p.log.(served := p.log.covered)))
    case OfferSent(h, i) => Finished(page, h, i)
    case OfferFailed(h, i) =>
      var p := page.objects[h];
      Finished(WithPeer(page, h, p.(log := p.log.(lastFailed := true))), h, i)
    case AnswerArrives(id) =>
      if id !in page.peers then page
      else
        var p := page.objects[page.peers[id]];
        WithPeer(page, page.peers[id], p.(answers := p.answers + 1))
    case AnswerApplied(h) =>
      var p := page.objects[h];
      WithPeer(page, h, p.(answers := p.answers - 1, applied := p.applied + 1, signaling := Stable,
                           events := p.events + 1))
    case AnswerRejected(h) =>
      var p := page.objects[h];
      WithPeer(page, h, p.(answers := p.answers - 1, applied := p.applied + 1))
    case AnswerContinues(h) =>
      var p := page.objects[h];
      WakeUp(WithPeer(page, h, p.(applied := p.applied - 1)), h)
    case StateChanged(h) =>
      var p := page.objects[h];
      WakeUp(WithPeer(page, h, p.(events := p.events - 1)), h)
    case TimerFires(id) => Negotiated(page.(timers := page.timers - multiset{id}), id)
    case CleanupPeer(id) =>
      if id !in page.peers then page
      else
        var p := page.objects[page.peers[id]];
        WithPeer(page.(peers := page.peers - {id}), page.peers[id], p.(signaling := Closed))
  }

  // ----- what every step keeps

  /** At most one offer is being made, and negotiating says whether. */
  predicate OneAttempt(p: Peer) {
    |p.attempts| <= 1 && (p.negotiating <==> p.attempts != [])
  }

  /** A set flag is sure to be looked at again. */
  predicate WillWake(p: Peer) {
    p.needsRenegotiate ==> p.negotiating || p.signaling != Stable || p.events > 0
  }

  /** A request newer than the last offer begun is on the flag or on a timer. */
  predicate Remembered(p: Peer, timer: bool) {
    p.log.requested > p.log.covered ==> p.needsRenegotiate || timer
  }

  /** Unless the latest attempt failed, the requests that were covered are served, or the attempt is under way. */
  predicate Accounted(p: Peer) {
    p.log.served <= p.log.covered <= p.log.requested
    && (p.attempts == [Sending] ==> p.log.served == p.log.covered)
    && (p.attempts == [] && !p.log.lastFailed ==> p.log.served == p.log.covered)
  }

  predicate GoodPeer(p: Peer, timer: bool) {
    p.signaling != Closed && WillWake(p) && Remembered(p, timer)
  }

  predicate InvExcept(page: Page, except: Option<string>) {
    && WellFormed(page)
    && (forall h | h in page.objects :: OneAttempt(page.objects[h]) && Accounted(page.objects[h]))
    && (forall id | id in page.peers :: page.objects[page.peers[id]].id == id)
    && (forall id | id in page.peers ::
          page.objects[page.peers[id]].signaling != Closed
          && (Some(id) != except ==> GoodPeer(page.objects[page.peers[id]], id in page.timers)))
  }

  predicate Inv(page: Page) {
    InvExcept(page, None)
  }

  lemma BeginIsGood(p: Peer, timer: bool)
    requires OneAttempt(p) && Accounted(p) && p.signaling != Closed
    ensures var p' := Begin(p);
            OneAttempt(p') && Accounted(p') && p'.id == p.id && GoodPeer(p', timer)
  {
    assert [] + [CreatingOffer] == [CreatingOffer];
  }

  /** Changing one object, and perhaps the timers */
  lemma SetPeer(page: Page, h: Handle, p: Peer, timers: multiset<string>, except: Option<string>)
    requires InvExcept(page, except) && h in page.objects && p.id == page.objects[h].id
    requires OneAttempt(p) && Accounted(p)
    requires forall id | id in page.peers && page.peers[id] != h && Some(id) != except ::
               id in page.timers ==> id in timers
    requires p.id in page.peers && page.peers[p.id] == h ==>
               p.signaling != Closed && (Some(p.id) != except ==> GoodPeer(p, p.id in timers))
    ensures InvExcept(WithPeer(page, h, p).(timers := timers), except)
  {
    hide OneAttempt, Accounted, GoodPeer;
    var page' := WithPeer(page, h, p).(timers := timers);
    forall id | id in page'.peers
      ensures page'.objects[page'.peers[id]].id == id
      ensures page'.objects[page'.peers[id]].signaling != Closed
      ensures Some(id) != except ==> GoodPeer(page'.objects[page'.peers[id]], id in page'.timers)
    {
      if page'.peers[id] != h {
        assert page'.objects[page'.peers[id]] == page.objects[page.peers[id]];
        if Some(id) != except { MoreTimers(page.objects[page.peers[id]], id in page.timers, id in timers); }
      }
    }
  }

  lemma MoreTimers(p: Peer, timer: bool, timer': bool)
    requires GoodPeer(p, timer) && (timer ==> timer')
    ensures GoodPeer(p, timer')
  {}

  lemma NegotiateRestores(page: Page, id: string)
    requires InvExcept(page, Some(id))
    ensures Inv(Negotiated(page, id))
  {
    hide OneAttempt, Accounted, GoodPeer, Begin;
    if id in page.peers {
      var h := page.peers[id];
      var p := page.objects[h];
      BeginIsGood(p, id in page.timers);
      assert Begin(p).signaling != Closed by { GoodIsOpen(Begin(p), id in page.timers); }
      SetPeer(page, h, Begin(p), page.timers, Some(id));
    }
  }

  lemma GoodIsOpen(p: Peer, timer: bool)
    requires GoodPeer(p, timer)
    ensures p.signaling != Closed
  {}

  lemma WakeUpKeeps(page: Page, h: Handle, p: Peer)
    requires Inv(page) && h in page.objects
    requires p == page.objects[h].(events := p.events, applied := p.applied)
    ensures Inv(WakeUp(WithPeer(page, h, p), h))
  {
    hide Negotiated;
    if p.needsRenegotiate && p.signaling == Stable {
      var p' := p.(needsRenegotiate := false);
      SetPeer(page, h, p', page.timers, Some(p.id));
      NegotiateRestores(WithPeer(page, h, p'), p.id);
      assert WithPeer(WithPeer(page, h, p), h, p') == WithPeer(page, h, p');
    } else {
      SetPeer(page, h, p, page.timers, None);
    }
  }

  lemma FinallyKeeps(page: Page, h: Handle, i: nat, p: Peer)
    requires Inv(page) && h in page.objects && i < |p.attempts|
    requires p == page.objects[h].(log := p.log)
    requires p.log == page.objects[h].log || p.log == page.objects[h].log.(lastFailed := true)
    requires p.log.lastFailed || p.attempts[i] == Sending
    ensures Inv(Finished(WithPeer(page, h, p), h, i))
  {
    hide GoodPeer, Accounted;
    var p' := p.(negotiating := false, attempts := p.attempts[..i] + p.attempts[i + 1..], needsRenegotiate := false);
    var timers := if p.needsRenegotiate then page.timers + multiset{p.id} else page.timers;
    var timer := p.id in page.timers;
    AttemptOver(page.objects[h], p, i, timer);
    if p.id in page.peers && page.peers[p.id] == h { GoodIsOpen(p', p.id in timers); }
    SetPeer(page, h, p', timers, None);
    assert WithPeer(WithPeer(page, h, p), h, p') == WithPeer(page, h, p');
  }

  lemma AttemptOver(before: Peer, p: Peer, i: nat, timer: bool)
    requires OneAttempt(before) && Accounted(before) && i < |p.attempts| && p == before.(log := p.log)
    requires p.log == before.log || p.log == before.log.(lastFailed := true)
    requires p.log.lastFailed || p.attempts[i] == Sending
    ensures var p' := p.(negotiating := false, attempts := p.attempts[..i] + p.attempts[i + 1..],
                         needsRenegotiate := false);
            OneAttempt(p') && Accounted(p') && (GoodPeer(before, timer) ==> GoodPeer(p', timer || p.needsRenegotiate))
  {
    assert p.attempts[..i] + p.attempts[i + 1..] == [];
    assert p.attempts == [p.attempts[i]];
  }

  lemma NewPeerKeeps(page: Page, id: string, h: Handle)
    requires Inv(page) && id !in page.peers && h !in page.objects
    ensures Inv(WithPeer(page.(peers := page.peers[id := h]), h, NewPeer(id)))
  {
    hide GoodPeer, Accounted, OneAttempt;
    NewPeerIsGood(id, id in page.timers);
  }

  lemma NewPeerIsGood(id: string, timer: bool)
    ensures var p := NewPeer(id); OneAttempt(p) && Accounted(p) && p.signaling != Closed && GoodPeer(p, timer)
  {}

  lemma CleanupKeeps(page: Page, id: string)
    requires Inv(page) && id in page.peers
    ensures Inv(Next(page, CleanupPeer(id)))
  {
    hide GoodPeer;
    var h := page.peers[id];
    var p := page.objects[h].(signaling := Closed);
    assert OneAttempt(p) && Accounted(p);
  }

  /** Steps that change one object and start nothing */
  lemma QuietStepKeeps(page: Page, h: Handle, p: Peer)
    requires Inv(page) && h in page.objects && p.id == page.objects[h].id
    requires OneAttempt(page.objects[h]) && Accounted(page.objects[h]) ==> OneAttempt(p) && Accounted(p)
    requires forall timer :: GoodPeer(page.objects[h], timer) ==> GoodPeer(p, timer)
    ensures Inv(WithPeer(page, h, p))
  {
    hide OneAttempt, Accounted, GoodPeer;
    if p.id in page.peers && page.peers[p.id] == h { GoodIsOpen(p, p.id in page.timers); }
    SetPeer(page, h, p, page.timers, None);
  }

  lemma AnswerKeeps(page: Page, h: Handle, p: Peer)
    requires Inv(page) && h in page.objects
    requires p == page.objects[h].(answers := p.answers, applied := p.applied)
             || p == page.objects[h].(answers := p.answers, applied := p.applied, signaling := Stable,
                                      events := p.events)
    requires p.signaling == page.objects[h].signaling || (page.objects[h].signaling == HaveLocalOffer && p.events > 0)
    requires p.events >= page.objects[h].events
    ensures Inv(WithPeer(page, h, p))
  {
    QuietStepKeeps(page, h, p);
  }

  lemma OfferCreatedKeeps(page: Page, h: Handle, i: nat)
    requires Inv(page) && Enabled(page, OfferCreated(h, i))
    ensures Inv(Next(page, OfferCreated(h, i)))
  {
    var p := page.objects[h];
    QuietStepKeeps(page, h, p.(attempts := p.attempts[i := SettingLocal]));
  }

  lemma LocalSetKeeps(page: Page, h: Handle, i: nat)
    requires Inv(page) && Enabled(page, LocalSet(h, i))
    ensures Inv(Next(page, LocalSet(h, i)))
  {
    var p := page.objects[h];
    var p' := p.(attempts := p.attempts[i := Sending], signaling := HaveLocalOffer,
                 events := if p.signaling == Stable then p.events + 1 else p.events,
                 log := p.log.(served := p.log.covered));
    QuietStepKeeps(page, h, p');
  }

  lemma NegotiationNeededKeeps(page: Page, h: Handle)
    requires Inv(page) && h in page.objects
    ensures Inv(Next(page, NegotiationNeeded(h)))
  {
    hide Negotiated;
    var p := page.objects[h];
    var p' := p.(needsRenegotiate := true, log := p.log.(requested := p.log.requested + 1));
    SetPeer(page, h, p', page.timers, Some(p.id));
    NegotiateRestores(WithPeer(page, h, p'), p.id);
  }

  /** Every step keeps the invariant. */
  lemma StepKeeps(page: Page, step: Step)
    requires Inv(page) && Enabled(page, step)
    ensures Inv(Next(page, step))
  {
    hide WakeUp, Finished, Negotiated, GoodPeer, OneAttempt, Accounted;
    match step
    case EnsurePeer(id, handle) => if id !in page.peers { NewPeerKeeps(page, id, handle); }
    case NegotiationNeeded(h) => NegotiationNeededKeeps(page, h);
    case OfferCreated(h, i) => OfferCreatedKeeps(page, h, i);
    case LocalSet(h, i) => LocalSetKeeps(page, h, i);
    case OfferSent(h, i) => FinallyKeeps(page, h, i, page.objects[h]); SamePeer(page, h);
    case OfferFailed(h, i) =>
      var p := page.objects[h];
      FinallyKeeps(page, h, i, p.(log := p.log.(lastFailed := true)));
    case AnswerArrives(id) =>
      if id in page.peers {
        var p := page.objects[page.peers[id]];
        AnswerKeeps(page, page.peers[id], p.(answers := p.answers + 1));
      }
    case AnswerApplied(h) =>
      var p := page.objects[h];
      AnswerKeeps(page, h, p.(answers := p.answers - 1, applied := p.applied + 1, signaling := Stable,
                              events := p.events + 1));
    case AnswerRejected(h) =>
      var p := page.objects[h];
      AnswerKeeps(page, h, p.(answers := p.answers - 1, applied := p.applied + 1));
    case AnswerContinues(h) =>
      var p := page.objects[h];
      WakeUpKeeps(page, h, p.(applied := p.applied - 1));
    case StateChanged(h) =>
      var p := page.objects[h];
      WakeUpKeeps(page, h, p.(events := p.events - 1));
    case TimerFires(id) => TimerKeeps(page, id);
    case CleanupPeer(id) => if id in page.peers { CleanupKeeps(page, id); }
  }

  lemma SamePeer(page: Page, h: Handle)
    requires h in page.objects
    ensures WithPeer(page, h, page.objects[h]) == page
  {
    assert page.objects[h := page.objects[h]] == page.objects;
  }

  lemma TimerKeeps(page: Page, id: string)
    requires Inv(page) && id in page.timers
    ensures Inv(Next(page, TimerFires(id)))
  {
    hide Negotiated, GoodPeer, OneAttempt, Accounted;
    var page' := page.(timers := page.timers - multiset{id});
    assert forall other | other != id :: other in page.timers <==> other in page'.timers;
    assert InvExcept(page', Some(id));
    NegotiateRestores(page', id);
  }

  // ----- whole runs

  /** The page after a run of enabled steps, if all of them are enabled */
  function Run(steps: seq<Step>): Option<Page> {
    if steps == [] then Some(Page(map[], map[], multiset{}))
    else
      match Run(steps[..|steps| - 1])
      case None => None
      case Some(page) =>
        if WellFormed(page) && Enabled(page, steps[|steps| - 1]) then Some(Next(page, steps[|steps| - 1])) else None
  }

  lemma {:induction false} ReachableIsGood(steps: seq<Step>)
    ensures Run(steps).Some? ==> Inv(Run(steps).value)
  {
    if steps != [] {
      ReachableIsGood(steps[..|steps| - 1]);
      var before := Run(steps[..|steps| - 1]);
      if before.Some? && Enabled(before.value, steps[|steps| - 1]) {
        StepKeeps(before.value, steps[|steps| - 1]);
      }
    }
  }

  /**
   In every interleaving, until a peer is removed: at most one offer is being made for it, a request
   newer than the last offer begun is on its flag or on a timer, and a set flag will be looked at.
   */
  lemma NoLostWakeUp(steps: seq<Step>, id: string)
    requires Run(steps).Some? && id in Run(steps).value.peers
    ensures WellFormed(Run(steps).value)
    ensures var page := Run(steps).value;
            var p := page.objects[page.peers[id]];
            && p.id == id && p.signaling != Closed
            && |p.attempts| <= 1 && (p.negotiating <==> p.attempts != [])
            && (p.log.requested > p.log.covered ==> p.needsRenegotiate || id in page.timers)
            && (p.needsRenegotiate ==> p.negotiating || p.signaling != Stable || p.events > 0)
  {
    ReachableIsGood(steps);
  }

  /** Nothing is under way for a peer that is still on the page. */
  predicate Quiet(page: Page, id: string) {
    WellFormed(page) && id in page.peers && id !in page.timers
    && var p := page.objects[page.peers[id]];
       p.attempts == [] && p.signaling == Stable && p.events == 0
  }

  /** When nothing is under way, every request has been served, unless the latest attempt failed. */
  lemma QuietMeansServed(steps: seq<Step>, id: string)
    requires Run(steps).Some? && Quiet(Run(steps).value, id)
    ensures var page := Run(steps).value;
            var p := page.objects[page.peers[id]];
            && !p.needsRenegotiate && p.log.covered == p.log.requested
            && (!p.log.lastFailed ==> p.log.served == p.log.requested)
  {
    ReachableIsGood(steps);
  }

  /** The state change event starts the offer a set flag waits for. */
  lemma EventStartsOffer(steps: seq<Step>, id: string)
    requires Run(steps).Some? && id in Run(steps).value.peers && WellFormed(Run(steps).value)
    requires var page := Run(steps).value;
             var p := page.objects[page.peers[id]];
             p.needsRenegotiate && !p.negotiating && p.signaling == Stable
    ensures var page := Run(steps).value;
            var h := page.peers[id];
            && Enabled(page, StateChanged(h))
            && var p := Next(page, StateChanged(h)).objects[h];
               p.attempts == [CreatingOffer] && p.log.covered == p.log.requested && !p.needsRenegotiate
  {
    ReachableIsGood(steps);
  }

  predicate Dropped(p: Peer) {
    p.attempts == [] && !p.needsRenegotiate && p.log.served < p.log.requested
  }

  /** A peer has a request that nothing will serve. */
  predicate Lost(page: Page, id: string) {
    id in page.peers && page.peers[id] in page.objects && id !in page.timers && Dropped(page.objects[page.peers[id]])
  }

  lemma NegotiatingLosesNothing(page: Page, id: string, other: string)
    requires InvExcept(page, Some(other))
    ensures Lost(Negotiated(page, other), id) ==> other != id && Lost(page, id)
  {
    if other in page.peers {
      assert page.objects[page.peers[other]].id == other;
      if id in page.peers { assert page.objects[page.peers[id]].id == id; }
    }
  }

  /** A change of an object that keeps what Dropped looks at, or of another peer's object */
  lemma SetPeerLoses(page: Page, id: string, h: Handle, p: Peer, timers: multiset<string>)
    requires Inv(page) && h in page.objects && p.id == page.objects[h].id
    requires id in page.timers && id in page.peers ==> id in timers
    ensures Lost(WithPeer(page, h, p).(timers := timers), id)
            <==> id in page.peers && id !in timers
                 && if page.peers[id] == h then Dropped(p) else Dropped(page.objects[page.peers[id]])
  {
    hide Dropped;
  }

  lemma WakingLosesNothing(page: Page, h: Handle, p: Peer, id: string)
    requires Inv(page) && h in page.objects && !Lost(page, id)
    requires p == page.objects[h].(events := p.events, applied := p.applied)
    ensures !Lost(WakeUp(WithPeer(page, h, p), h), id)
  {
    hide Negotiated;
    assert Dropped(p) == Dropped(page.objects[h]);
    SetPeerLoses(page, id, h, p, page.timers);
    if p.needsRenegotiate && p.signaling == Stable {
      var p' := p.(needsRenegotiate := false);
      assert WithPeer(WithPeer(page, h, p), h, p') == WithPeer(page, h, p');
      SetPeer(page, h, p', page.timers, Some(p.id));
      SetPeerLoses(page, id, h, p', page.timers);
      NegotiatingLosesNothing(WithPeer(page, h, p'), id, p.id);
      if id in page.peers { assert page.objects[page.peers[id]].id == id; }
    }
  }

  lemma FinishingLoses(page: Page, h: Handle, i: nat, p: Peer, id: string)
    requires Inv(page) && h in page.objects && i < |p.attempts| && !Lost(page, id)
    requires p == page.objects[h].(log := p.log) && p.log == page.objects[h].log.(lastFailed := p.log.lastFailed)
    ensures Lost(Finished(WithPeer(page, h, p), h, i), id)
            <==> id in page.peers && page.peers[id] == h && !p.needsRenegotiate && id !in page.timers
                 && p.log.served < p.log.requested
  {
    var p' := p.(negotiating := false, attempts := p.attempts[..i] + p.attempts[i + 1..], needsRenegotiate := false);
    assert WithPeer(WithPeer(page, h, p), h, p') == WithPeer(page, h, p');
    assert OneAttempt(page.objects[h]);
    assert p'.attempts == [];
    SetPeerLoses(page, id, h, p', if p.needsRenegotiate then page.timers + multiset{p.id} else page.timers);
    if id in page.peers { assert page.objects[page.peers[id]].id == id; }
  }

  /** The requests are served when an offer has been sent and nothing is on the flag or a timer. */
  lemma SentIsServed(page: Page, h: Handle, i: nat, id: string)
    requires Inv(page) && Suspended(page, h, i, Sending) && id in page.peers && page.peers[id] == h
    requires !page.objects[h].needsRenegotiate && id !in page.timers
    ensures page.objects[h].log.served == page.objects[h].log.requested
  {
    var p := page.objects[h];
    assert OneAttempt(p) && Accounted(p) && GoodPeer(p, id in page.timers);
    assert p.attempts == [Sending];
  }

  /**
   Which step loses a request: a failed attempt, exactly when its requests were not served before
   and no flag or timer makes another attempt.
   */
  lemma OnlyFailureLoses(page: Page, step: Step, id: string)
    requires Inv(page) && Enabled(page, step) && !Lost(page, id)
    ensures Lost(Next(page, step), id) <==>
              step.OfferFailed? && id in page.peers && step.h == page.peers[id] && id !in page.timers
              && !page.objects[step.h].needsRenegotiate
              && page.objects[step.h].log.served < page.objects[step.h].log.requested
  {
    hide WakeUp, Finished, Negotiated, Dropped;
    match step
    case EnsurePeer(_, _) => QuietStepLosesNothing(page, step, id);
    case OfferCreated(_, _) => QuietStepLosesNothing(page, step, id);
    case LocalSet(_, _) => QuietStepLosesNothing(page, step, id);
    case AnswerArrives(_) => QuietStepLosesNothing(page, step, id);
    case AnswerApplied(_) => QuietStepLosesNothing(page, step, id);
    case AnswerRejected(_) => QuietStepLosesNothing(page, step, id);
    case CleanupPeer(_) => QuietStepLosesNothing(page, step, id);
    case NegotiationNeeded(h) => RequestLosesNothing(page, h, id);
    case OfferSent(h, i) =>
      SamePeer(page, h);
      FinishingLoses(page, h, i, page.objects[h], id);
      if id in page.peers && page.peers[id] == h && !page.objects[h].needsRenegotiate && id !in page.timers {
        SentIsServed(page, h, i, id);
      }
    case OfferFailed(h, i) =>
      var p := page.objects[h];
      FinishingLoses(page, h, i, p.(log := p.log.(lastFailed := true)), id);
    case AnswerContinues(h) =>
      var p := page.objects[h];
      WakingLosesNothing(page, h, p.(applied := p.applied - 1), id);
    case StateChanged(h) =>
      var p := page.objects[h];
      WakingLosesNothing(page, h, p.(events := p.events - 1), id);
    case TimerFires(other) => TimerLosesNothing(page, other, id);
  }

  lemma QuietStepLosesNothing(page: Page, step: Step, id: string)
    requires Inv(page) && Enabled(page, step) && !Lost(page, id)
    requires step.EnsurePeer? || step.OfferCreated? || step.LocalSet? || step.AnswerArrives? || step.AnswerApplied?
             || step.AnswerRejected? || step.CleanupPeer?
    ensures !Lost(Next(page, step), id)
  {}

  lemma RequestLosesNothing(page: Page, h: Handle, id: string)
    requires Inv(page) && h in page.objects && !Lost(page, id)
    ensures !Lost(Next(page, NegotiationNeeded(h)), id)
  {
    hide Negotiated;
    var p := page.objects[h];
    var p' := p.(needsRenegotiate := true, log := p.log.(requested := p.log.requested + 1));
    SetPeer(page, h, p', page.timers, Some(p.id));
    SetPeerLoses(page, id, h, p', page.timers);
    NegotiatingLosesNothing(WithPeer(page, h, p'), id, p.id);
    if id in page.peers { assert page.objects[page.peers[id]].id == id; }
  }

  lemma TimerLosesNothing(page: Page, other: string, id: string)
    requires Inv(page) && other in page.timers && !Lost(page, id)
    ensures !Lost(Next(page, TimerFires(other)), id)
  {
    hide Negotiated;
    var page' := page.(timers := page.timers - multiset{other});
    assert forall x | x != other :: x in page.timers <==> x in page'.timers;
    assert InvExcept(page', Some(other));
    NegotiatingLosesNothing(page', id, other);
  }

  /** In a run without a failed attempt no request is ever lost. */
  lemma {:induction false} NoFailureNoLoss(steps: seq<Step>, id: string)
    requires Run(steps).Some? && forall k | 0 <= k < |steps| :: !steps[k].OfferFailed?
    ensures !Lost(Run(steps).value, id)
  {
    hide Next, Lost;
    if steps == [] {
      assert !Lost(Page(map[], map[], multiset{}), id) by { EmptyPage(id); }
    } else {
      var before := steps[..|steps| - 1];
      NoFailureNoLoss(before, id);
      ReachableIsGood(before);
      OnlyFailureLoses(Run(before).value, steps[|steps| - 1], id);
    }
  }

  lemma EmptyPage(id: string)
    ensures !Lost(Page(map[], map[], multiset{}), id)
  {}

  /** A first offer that fails leaves its request behind: nothing under way makes it again. */
  lemma FirstOfferFails(id: string) returns (steps: seq<Step>, page: Page)
    ensures steps == [EnsurePeer(id, 0), NegotiationNeeded(0), OfferFailed(0, 0)]
    ensures Run(steps) == Some(page) && Quiet(page, id) && Lost(page, id)
  {
    hide Quiet, Lost;
    var before;
    steps, before := FirstOffer(id);
    page := FirstFailure(before, id);
    var page' := RunStep(steps, before, OfferFailed(0, 0));
    steps := steps + [OfferFailed(0, 0)];
  }

  /** The page of one peer, with the handle 0 */
  function OnePeer(id: string, p: Peer): Page {
    Page(map[id := 0], map[0 := p], multiset{})
  }

  lemma FirstOffer(id: string) returns (steps: seq<Step>, page: Page)
    ensures steps == [EnsurePeer(id, 0), NegotiationNeeded(0)] && Run(steps) == Some(page)
    ensures page == OnePeer(id, Peer(id, true, false, Stable, [CreatingOffer], 0, 0, 0, Log(1, 1, 0, false)))
  {
    hide Run;
    var empty := Page(map[], map[], multiset{});
    EmptyRun();
    page := RunStep([], empty, EnsurePeer(id, 0));
    assert page.peers == map[id := 0] && page.objects == map[0 := NewPeer(id)];
    assert [] + [EnsurePeer(id, 0)] == [EnsurePeer(id, 0)];
    page := RunStep([EnsurePeer(id, 0)], page, NegotiationNeeded(0));
    assert [] + [CreatingOffer] == [CreatingOffer];
    assert page.objects == map[0 := Peer(id, true, false, Stable, [CreatingOffer], 0, 0, 0, Log(1, 1, 0, false))];
    steps := [EnsurePeer(id, 0), NegotiationNeeded(0)];
    assert [EnsurePeer(id, 0)] + [NegotiationNeeded(0)] == steps;
  }

  lemma EmptyRun()
    ensures Run([]) == Some(Page(map[], map[], multiset{}))
  {}

  lemma FirstFailure(page: Page, id: string) returns (page': Page)
    requires page == OnePeer(id, Peer(id, true, false, Stable, [CreatingOffer], 0, 0, 0, Log(1, 1, 0, false)))
    ensures Enabled(page, OfferFailed(0, 0)) && page' == Next(page, OfferFailed(0, 0)) && Quiet(page', id)
            && Lost(page', id)
  {
    page' := Next(page, OfferFailed(0, 0));
  }

  lemma RunStep(steps: seq<Step>, page: Page, step: Step) returns (page': Page)
    requires Run(steps) == Some(page) && WellFormed(page) && Enabled(page, step)
    ensures page' == Next(page, step) && Run(steps + [step]) == Some(page')
  {
    page' := Next(page, step);
    assert (steps + [step])[..|steps|] == steps;
  }

  // ----- the page

  class HostPage {
    var peers: map<string, Handle>
    var objects: map<Handle, Peer>
    var timers: multiset<string>

    constructor ()
      ensures State() == Page(map[], map[], multiset{})
    {
      peers, objects, timers := map[], map[], multiset{};
    }

    function State(): Page
      reads this
    {
      Page(peers, objects, timers)
    }

    method EnsurePeer(id: string, handle: Handle)
      requires WellFormed(State()) && handle !in objects
      modifies this
      ensures State() == Next(old(State()), Step.EnsurePeer(id, handle))
    {
      if id in peers { return; }
      objects := objects[handle := NewPeer(id)];
      peers := peers[id := handle];
    }

    method CleanupPeer(id: string)
      requires WellFormed(State())
      modifies this
      ensures State() == Next(old(State()), Step.CleanupPeer(id))
    {
      if id !in peers { return; }
      var h := peers[id];
      objects := objects[h := objects[h].(signaling := Closed)];
      peers := peers - {id};
    }

    /** negotiatePeer up to its first await */
    method NegotiatePeer(id: string)
      requires WellFormed(State())
      modifies this
      ensures State() == Negotiated(old(State()), id)
    {
      if id !in peers { return; }
      var h := peers[id];
      if objects[h].negotiating {
        objects := objects[h := objects[h].(needsRenegotiate := true)];
        return;
      }
      if objects[h].signaling != Stable {
        objects := objects[h := objects[h].(needsRenegotiate := true)];
        return;
      }
      objects := objects[h := objects[h].(needsRenegotiate := false)];
      objects := objects[h := objects[h].(negotiating := true)];
      var p := objects[h];
      objects := objects[h := p.(attempts := p.attempts + [CreatingOffer],
                                 log := p.log.(covered := p.log.requested, lastFailed := false))];
    }

    /** The finally block of attempt i of an object */
    method Finally(h: Handle, i: nat)
      requires h in objects && i < |objects[h].attempts|
      modifies this
      ensures State() == Finished(old(State()), h, i)
    {
      var p := objects[h];
      objects := objects[h := p.(attempts := p.attempts[..i] + p.attempts[i + 1..])];
      objects := objects[h := objects[h].(negotiating := false)];
      if objects[h].needsRenegotiate {
        objects := objects[h := objects[h].(needsRenegotiate := false)];
        timers := timers + multiset{p.id};
      }
    }

    method OnNegotiationNeeded(h: Handle)
      requires WellFormed(State()) && h in objects
      modifies this
      ensures State() == Next(old(State()), NegotiationNeeded(h))
    {
      var p := objects[h];
      objects := objects[h := p.(needsRenegotiate := true, log := p.log.(requested := p.log.requested + 1))];
      NegotiatePeer(p.id);
    }

    /** The handler of the state change event, run once for each event */
    method OnSignalingStateChange(h: Handle)
      requires WellFormed(State()) && h in objects && objects[h].events > 0
      modifies this
      ensures State() == Next(old(State()), StateChanged(h))
    {
      objects := objects[h := objects[h].(events := objects[h].events - 1)];
      if objects[h].needsRenegotiate && objects[h].signaling == Stable {
        objects := objects[h := objects[h].(needsRenegotiate := false)];
        NegotiatePeer(objects[h].id);
      }
    }

    /** The handler of an answer, once setRemoteDescription is over, whatever its outcome */
    method AnswerContinues(h: Handle)
      requires WellFormed(State()) && h in objects && objects[h].applied > 0
      modifies this
      ensures State() == Next(old(State()), Step.AnswerContinues(h))
    {
      objects := objects[h := objects[h].(applied := objects[h].applied - 1)];
      if objects[h].needsRenegotiate && objects[h].signaling == Stable {
        objects := objects[h := objects[h].(needsRenegotiate := false)];
        NegotiatePeer(objects[h].id);
      }
    }

    method TimerFires(id: string)
      requires WellFormed(State()) && id in timers
      modifies this
      ensures State() == Next(old(State()), Step.TimerFires(id))
    {
      timers := timers - multiset{id};
      NegotiatePeer(id);
    }
  }
}
