/** When the page begins an offer, and what else each step changes: peers, timers and closed objects. */
module NegotiationLaws {
  import opened Negotiation
  import opened Outcomes

  /** The steps that ask for an offer to the peer of this id */
  predicate AsksFor(page: Page, step: Step, id: string)
    requires Enabled(page, step)
  {
    match step
    case NegotiationNeeded(h) => page.objects[h].id == id
    case StateChanged(h) => Waiting(page.objects[h]) && page.objects[h].id == id
    case AnswerContinues(h) => Waiting(page.objects[h]) && page.objects[h].id == id
    case TimerFires(other) => other == id
    case _ => false
  }

  /** A flag set on a stable connection */
  predicate Waiting(p: Peer) {
    p.needsRenegotiate && p.signaling == Stable
  }

  /**
   A step begins an offer to a peer that is making none exactly when it asks for one and the
   connection is stable; an offer it asks for otherwise is left on the flag.
   */
  lemma OfferBegins(page: Page, step: Step, id: string)
    requires Inv(page) && Enabled(page, step) && id in page.peers && step != CleanupPeer(id)
    ensures var h := page.peers[id];
            var p, p' := page.objects[h], Next(page, step).objects[h];
            && (p.attempts == [] ==>
                  (p'.attempts != [] <==> AsksFor(page, step, id) && p.signaling == Stable)
                  && (p'.attempts != [] ==> p'.attempts == [CreatingOffer] && !p'.needsRenegotiate))
            && (AsksFor(page, step, id) && (p.attempts != [] || p.signaling != Stable) ==>
                  p'.attempts == p.attempts && p'.needsRenegotiate)
  {
    assert WellFormed(page);
    hide Next, Inv, WakeUp, Negotiated;
    PeerOfId(page, id);
    match step
    case NegotiationNeeded(o) => RequestBegins(page, o, id);
    case StateChanged(o) =>
      WakeUpBegins(page, o, page.objects[o].(events := page.objects[o].events - 1), id);
      assert Next(page, step)
          == WakeUp(WithPeer(page, o, page.objects[o].(events := page.objects[o].events - 1)), o) by {
        EventStep(page, o);
      }
    case AnswerContinues(o) =>
      WakeUpBegins(page, o, page.objects[o].(applied := page.objects[o].applied - 1), id);
      assert Next(page, step)
          == WakeUp(WithPeer(page, o, page.objects[o].(applied := page.objects[o].applied - 1)), o) by {
        AnswerStep(page, o);
      }
    case TimerFires(other) => TimerBegins(page, other, id);
    case _ => OthersBeginNothing(page, step, id);
  }

  lemma PeerOfId(page: Page, id: string)
    requires Inv(page) && id in page.peers
    ensures WellFormed(page) && page.peers[id] in page.objects
    ensures page.objects[page.peers[id]].id == id && OneAttempt(page.objects[page.peers[id]])
  {}

  lemma EventStep(page: Page, o: Handle)
    requires WellFormed(page) && Enabled(page, StateChanged(o))
    ensures Next(page, StateChanged(o))
            == WakeUp(WithPeer(page, o, page.objects[o].(events := page.objects[o].events - 1)), o)
  {}

  lemma AnswerStep(page: Page, o: Handle)
    requires WellFormed(page) && Enabled(page, AnswerContinues(o))
    ensures Next(page, AnswerContinues(o))
            == WakeUp(WithPeer(page, o, page.objects[o].(applied := page.objects[o].applied - 1)), o)
  {}

  /** What a call for an id leaves of the offers of a peer of the page */
  predicate Called(p: Peer, p': Peer, called: bool) {
    if called && p.attempts == [] && p.signaling == Stable then p'.attempts == [CreatingOffer] && !p'.needsRenegotiate
    else p'.attempts == p.attempts && (called ==> p'.needsRenegotiate)
  }

  lemma BeginCalled(p: Peer, q: Peer)
    requires OneAttempt(p) && q.attempts == p.attempts && q.signaling == p.signaling && q.negotiating == p.negotiating
    ensures Called(p, Begin(q), true)
  {
    assert [] + [CreatingOffer] == [CreatingOffer];
  }

  lemma CallBegins(page: Page, o: Handle, q: Peer, other: string, id: string)
    requires Inv(page) && o in page.objects && id in page.peers && q.id == page.objects[o].id
    requires q.attempts == page.objects[o].attempts && q.signaling == page.objects[o].signaling
             && q.negotiating == page.objects[o].negotiating
    ensures WellFormed(WithPeer(page, o, q)) && page.peers[id] in Negotiated(WithPeer(page, o, q), other).objects
    ensures Called(page.objects[page.peers[id]], Negotiated(WithPeer(page, o, q), other).objects[page.peers[id]],
                   other == id)
  {
    hide Begin, Inv;
    var h := page.peers[id];
    PeerOfId(page, id);
    if other in page.peers { PeerOfId(page, other); }
    BeginCalled(page.objects[h], if h == o then q else page.objects[h]);
  }

  lemma RequestBegins(page: Page, o: Handle, id: string)
    requires Inv(page) && o in page.objects && id in page.peers
    ensures page.peers[id] in Next(page, NegotiationNeeded(o)).objects
    ensures Called(page.objects[page.peers[id]], Next(page, NegotiationNeeded(o)).objects[page.peers[id]],
                   page.objects[o].id == id)
  {
    hide Negotiated, Called, Inv;
    var p := page.objects[o];
    CallBegins(page, o, p.(needsRenegotiate := true, log := p.log.(requested := p.log.requested + 1)), p.id, id);
    PeerOfId(page, id);
  }

  lemma WakeUpBegins(page: Page, o: Handle, p: Peer, id: string)
    requires Inv(page) && o in page.objects && id in page.peers
    requires p == page.objects[o].(events := p.events, applied := p.applied)
    ensures WellFormed(WithPeer(page, o, p)) && page.peers[id] in WakeUp(WithPeer(page, o, p), o).objects
    ensures Called(page.objects[page.peers[id]], WakeUp(WithPeer(page, o, p), o).objects[page.peers[id]],
                   Waiting(page.objects[o]) && page.objects[o].id == id)
  {
    hide Negotiated, Inv;
    var q := p.(needsRenegotiate := false);
    assert WithPeer(WithPeer(page, o, p), o, q) == WithPeer(page, o, q);
    CallBegins(page, o, q, p.id, id);
    PeerOfId(page, id);
  }

  lemma TimerBegins(page: Page, other: string, id: string)
    requires Inv(page) && other in page.timers && id in page.peers
    ensures page.peers[id] in Next(page, TimerFires(other)).objects
    ensures Called(page.objects[page.peers[id]], Next(page, TimerFires(other)).objects[page.peers[id]], other == id)
  {
    hide Begin, Inv;
    PeerOfId(page, id);
    if other in page.peers { PeerOfId(page, other); }
    BeginCalled(page.objects[page.peers[id]], page.objects[page.peers[id]]);
  }

  lemma OthersBeginNothing(page: Page, step: Step, id: string)
    requires Inv(page) && Enabled(page, step) && id in page.peers
    requires !step.NegotiationNeeded? && !step.StateChanged? && !step.AnswerContinues? && !step.TimerFires?
    ensures page.peers[id] in Next(page, step).objects
    ensures page.objects[page.peers[id]].attempts == [] ==> Next(page, step).objects[page.peers[id]].attempts == []
  {
    hide Negotiated, WakeUp, GoodPeer, Accounted, OneAttempt;
  }

  lemma AskedById(page: Page, id: string)
    requires Inv(page)
    ensures id in page.peers ==> page.objects[page.peers[id]].id == id
  {}

  /** The ways in which an object's attempts and connection change in one step */
  predicate Moves(p: Peer, p': Peer) {
    p'.id == p.id
    && (|| (p'.attempts == p.attempts && (p'.signaling == p.signaling || p'.signaling == Closed))
        || (p'.attempts == p.attempts && p.signaling == HaveLocalOffer && p'.signaling == Stable)
        || (p'.signaling == p.signaling && p'.attempts == [])
        || (p'.signaling == p.signaling == Stable && p.attempts == [] && p'.attempts == [CreatingOffer])
        || (p'.signaling == p.signaling && p.attempts == [CreatingOffer] && p'.attempts == [SettingLocal])
        || (p.signaling != Closed && p'.signaling == HaveLocalOffer && p'.attempts == [Sending]))
  }

  lemma StepMoves(page: Page, step: Step, h: Handle)
    requires Inv(page) && Enabled(page, step) && h in page.objects
    ensures h in Next(page, step).objects && Moves(page.objects[h], Next(page, step).objects[h])
    ensures Next(page, step).objects[h].signaling == Closed && page.objects[h].signaling != Closed ==> step.CleanupPeer?
  {
    assert WellFormed(page);
    hide Next, Inv, Negotiated, WakeUp, Moves, Enabled, WellFormed;
    if step.NegotiationNeeded? {
      RequestMoves(page, step.h, h);
    } else if step.StateChanged? {
      EventMoves(page, step.h, h);
    } else if step.AnswerContinues? {
      AnswerMoves(page, step.h, h);
    } else if step.TimerFires? {
      TimerMoves(page, step.id, h);
    } else {
      OthersMove(page, step, h);
    }
  }

  lemma EventMoves(page: Page, o: Handle, h: Handle)
    requires Inv(page) && Enabled(page, StateChanged(o)) && h in page.objects
    ensures var page' := Next(page, StateChanged(o));
            h in page'.objects && Moves(page.objects[h], page'.objects[h])
            && page'.objects[h].signaling == page.objects[h].signaling
  {
    hide Moves, WakeUp;
    WakeUpMoves(page, o, page.objects[o].(events := page.objects[o].events - 1), h);
  }

  lemma AnswerMoves(page: Page, o: Handle, h: Handle)
    requires Inv(page) && Enabled(page, AnswerContinues(o)) && h in page.objects
    ensures var page' := Next(page, AnswerContinues(o));
            h in page'.objects && Moves(page.objects[h], page'.objects[h])
            && page'.objects[h].signaling == page.objects[h].signaling
  {
    hide Moves, WakeUp;
    WakeUpMoves(page, o, page.objects[o].(applied := page.objects[o].applied - 1), h);
  }

  lemma RequestMoves(page: Page, o: Handle, h: Handle)
    requires Inv(page) && Enabled(page, NegotiationNeeded(o)) && h in page.objects
    ensures var page' := Next(page, NegotiationNeeded(o));
            h in page'.objects && Moves(page.objects[h], page'.objects[h])
            && page'.objects[h].signaling == page.objects[h].signaling
  {
    hide Negotiated, Moves;
    var p := page.objects[o];
    NegotiatedMoves(page, o, p.(needsRenegotiate := true, log := p.log.(requested := p.log.requested + 1)), p.id, h);
  }

  lemma OthersMove(page: Page, step: Step, h: Handle)
    requires Inv(page) && Enabled(page, step) && h in page.objects
    requires !step.NegotiationNeeded? && !step.StateChanged? && !step.AnswerContinues? && !step.TimerFires?
    ensures h in Next(page, step).objects && Moves(page.objects[h], Next(page, step).objects[h])
    ensures Next(page, step).objects[h].signaling == Closed && page.objects[h].signaling != Closed ==> step.CleanupPeer?
  {
    hide Negotiated, WakeUp, GoodPeer, Accounted;
    assert OneAttempt(page.objects[h]);
  }

  lemma BeginMoves(p: Peer)
    requires OneAttempt(p)
    ensures Moves(p, Begin(p)) && Begin(p).signaling == p.signaling
  {
    assert [] + [CreatingOffer] == [CreatingOffer];
  }

  lemma TimerMoves(page: Page, id: string, h: Handle)
    requires Inv(page) && Enabled(page, TimerFires(id)) && h in page.objects
    ensures var page' := Next(page, TimerFires(id));
            h in page'.objects && Moves(page.objects[h], page'.objects[h])
            && page'.objects[h].signaling == page.objects[h].signaling
  {
    hide Begin, Moves;
    assert OneAttempt(page.objects[h]);
    BeginMoves(page.objects[h]);
    StayMoves(page.objects[h], page.objects[h]);
  }

  lemma StayMoves(p: Peer, p': Peer)
    requires p'.id == p.id && p'.attempts == p.attempts && p'.signaling == p.signaling
    ensures Moves(p, p')
  {}

  /** A call for the peer of an id, once an object's flags have changed */
  lemma NegotiatedMoves(page: Page, o: Handle, p: Peer, id: string, h: Handle)
    requires Inv(page) && o in page.objects && h in page.objects
    requires p.id == page.objects[o].id && p.attempts == page.objects[o].attempts
             && p.signaling == page.objects[o].signaling && p.negotiating == page.objects[o].negotiating
    ensures var page' := Negotiated(WithPeer(page, o, p), id);
            h in page'.objects && Moves(page.objects[h], page'.objects[h])
            && page'.objects[h].signaling == page.objects[h].signaling
  {
    hide Moves;
    var q := if h == o then p else page.objects[h];
    assert OneAttempt(page.objects[h]);
    BeginAfter(page.objects[h], q);
    StayMoves(page.objects[h], q);
  }

  lemma BeginAfter(p: Peer, q: Peer)
    requires OneAttempt(p) && q.id == p.id && q.attempts == p.attempts && q.signaling == p.signaling
    requires q.negotiating == p.negotiating
    ensures Moves(p, Begin(q)) && Begin(q).signaling == p.signaling
  {
    assert [] + [CreatingOffer] == [CreatingOffer];
  }

  lemma WakeUpMoves(page: Page, o: Handle, p: Peer, h: Handle)
    requires Inv(page) && o in page.objects && h in page.objects
    requires p == page.objects[o].(events := p.events, applied := p.applied)
    ensures var page' := WakeUp(WithPeer(page, o, p), o);
            h in page'.objects && Moves(page.objects[h], page'.objects[h])
            && page'.objects[h].signaling == page.objects[h].signaling
  {
    hide Moves, Negotiated;
    var p' := p.(needsRenegotiate := false);
    assert WithPeer(WithPeer(page, o, p), o, p') == WithPeer(page, o, p');
    NegotiatedMoves(page, o, p', p.id, h);
    StayMoves(page.objects[h], if h == o then p else page.objects[h]);
  }

  /** Until its offer is the local description, an object being offered for has no other offer outstanding. */
  predicate Making(p: Peer) {
    p.attempts == [CreatingOffer] || p.attempts == [SettingLocal] ==> p.signaling != HaveLocalOffer
  }

  lemma MakingKept(page: Page, step: Step)
    requires Inv(page) && Enabled(page, step) && forall h | h in page.objects :: Making(page.objects[h])
    ensures forall h | h in Next(page, step).objects :: Making(Next(page, step).objects[h])
  {
    assert WellFormed(page);
    hide Inv, Next;
    forall h | h in Next(page, step).objects
      ensures Making(Next(page, step).objects[h])
    {
      if h in page.objects {
        StepMoves(page, step, h);
      } else {
        NewObject(page, step, h);
      }
    }
  }

  lemma NewObject(page: Page, step: Step, h: Handle)
    requires WellFormed(page) && Enabled(page, step) && h !in page.objects && h in Next(page, step).objects
    ensures step.EnsurePeer? && step.handle == h && step.id !in page.peers
    ensures Next(page, step).objects[h] == NewPeer(step.id) && Next(page, step).peers == page.peers[step.id := h]
  {}

  /** In every run, a peer of the page that is making an offer is stable: it has no other one outstanding. */
  lemma OfferedWhenStable(steps: seq<Step>, id: string)
    requires Run(steps).Some? && id in Run(steps).value.peers
    ensures WellFormed(Run(steps).value)
    ensures var p := Run(steps).value.objects[Run(steps).value.peers[id]];
            CreatingOffer in p.attempts || SettingLocal in p.attempts ==> p.signaling == Stable
  {
    hide Run, Accounted, GoodPeer;
    AllMaking(steps);
    ReachableIsGood(steps);
    var page := Run(steps).value;
    OpenAndSingle(page, id);
  }

  lemma OpenAndSingle(page: Page, id: string)
    requires Inv(page) && id in page.peers
    ensures var p := page.objects[page.peers[id]]; p.signaling != Closed && |p.attempts| <= 1
  {
    hide Accounted;
    assert OneAttempt(page.objects[page.peers[id]]);
  }

  lemma {:induction false} AllMaking(steps: seq<Step>)
    requires Run(steps).Some?
    ensures forall h | h in Run(steps).value.objects :: Making(Run(steps).value.objects[h])
  {
    hide Next, Making;
    if steps != [] {
      var before := steps[..|steps| - 1];
      AllMaking(before);
      ReachableIsGood(before);
      MakingKept(Run(before).value, steps[|steps| - 1]);
    }
  }

  // ----- what else a step changes

  /** A peer keeps its object until it is cleaned up; an unknown id gets one from ensurePeer only. */
  lemma PeersChange(page: Page, step: Step, id: string)
    requires WellFormed(page) && Enabled(page, step)
    ensures id in page.peers ==>
              (id in Next(page, step).peers <==> step != CleanupPeer(id))
              && (id in Next(page, step).peers ==> Next(page, step).peers[id] == page.peers[id])
    ensures id !in page.peers ==> (id in Next(page, step).peers <==> step.EnsurePeer? && step.id == id)
  {}

  /** Timers are set for requests made during an attempt, one each, and a timer fires once. */
  lemma TimersChange(page: Page, step: Step)
    requires WellFormed(page) && Enabled(page, step)
    ensures Next(page, step).timers
            == match step
               case TimerFires(id) => page.timers - multiset{id}
               case OfferSent(h, _) =>
                 if page.objects[h].needsRenegotiate then page.timers + multiset{page.objects[h].id} else page.timers
               case OfferFailed(h, _) =>
                 if page.objects[h].needsRenegotiate then page.timers + multiset{page.objects[h].id} else page.timers
               case _ => page.timers
  {}

  predicate OnPage(page: Page, h: Handle) {
    h in page.objects && page.objects[h].id in page.peers && page.peers[page.objects[h].id] == h
  }

  /** Exactly the objects that are not on the page are closed. */
  predicate OthersClosed(page: Page) {
    forall h | h in page.objects :: page.objects[h].signaling == Closed <==> !OnPage(page, h)
  }

  lemma OthersClosedKept(page: Page, step: Step)
    requires Inv(page) && Enabled(page, step) && OthersClosed(page)
    ensures OthersClosed(Next(page, step))
  {
    assert WellFormed(page);
    hide Next, Inv;
    var page' := Next(page, step);
    forall h | h in page'.objects
      ensures page'.objects[h].signaling == Closed <==> !OnPage(page', h)
    {
      if h in page.objects {
        StepMoves(page, step, h);
        PlaceKept(page, step, h);
      } else {
        NewObject(page, step, h);
      }
    }
  }

  /** An object leaves the page, closed, when its own peer is cleaned up. */
  lemma PlaceKept(page: Page, step: Step, h: Handle)
    requires Inv(page) && Enabled(page, step) && h in page.objects && h in Next(page, step).objects
    requires Next(page, step).objects[h].id == page.objects[h].id
    ensures OnPage(Next(page, step), h) <==> OnPage(page, h) && step != CleanupPeer(page.objects[h].id)
    ensures step.CleanupPeer? ==>
              Next(page, step).objects[h].signaling
              == if OnPage(page, h) && step.id == page.objects[h].id then Closed else page.objects[h].signaling
  {
    hide GoodPeer, Accounted, OneAttempt;
    PeersChange(page, step, page.objects[h].id);
    if step.CleanupPeer? {
      AskedById(page, step.id);
    } else {
      hide Next;
    }
  }

  lemma {:induction false} RemovedAreClosed(steps: seq<Step>)
    requires Run(steps).Some?
    ensures OthersClosed(Run(steps).value)
  {
    hide Next;
    if steps != [] {
      var before := steps[..|steps| - 1];
      RemovedAreClosed(before);
      ReachableIsGood(before);
      OthersClosedKept(Run(before).value, steps[|steps| - 1]);
    }
  }
}
