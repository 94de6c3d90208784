/**
 The asynchronous write queue of one session. The sends of all threads are posted to the session's
 strand, which executes them one after the other, in the order posted; the completion of a write
 runs on the same strand, at any time after the write was started.
 */
module WriteQueues {
  import opened Outcomes
  import opened WsHubs

  /**
   pending: the writes that have been started and not completed. executed, completed and lost
   record the sends executed, the messages whose write succeeded and those dropped after an error.
   */
  datatype Queue = Queue(outbox: seq<Message>, writing: bool, pending: seq<Message>,
                         executed: seq<Message>, completed: seq<Message>, lost: seq<Message>)

  // ----- the handlers, as functions

  function DoWrite(q: Queue): Queue
    requires q.outbox != []
  {
    q.(pending := q.pending + [q.outbox[0]])
  }

  function ExecuteSend(q: Queue, message: Message): Queue {
    var q' := q.(outbox := q.outbox + [message], executed := q.executed + [message]);
    if q.outbox == [] && !q.writing then DoWrite(q'.(writing := true)) else q'
  }

  function CompleteWrite(q: Queue, i: nat): Queue
    requires i < |q.pending| && q.outbox != []
  {
    var q' := q.(pending := q.pending[..i] + q.pending[i + 1..], completed := q.completed + [q.pending[i]],
                 outbox := q.outbox[1..]);
    if q'.outbox != [] then DoWrite(q') else q'.(writing := false)
  }

  function FailWrite(q: Queue, i: nat): Queue
    requires i < |q.pending|
  {
    q.(pending := q.pending[..i] + q.pending[i + 1..], lost := q.lost + q.outbox, outbox := [], writing := false)
  }

  // ----- what holds between any two handlers

  /** s can be read off t by skipping elements. */
  ghost predicate Subsequence<T(!new)>(s: seq<T>, t: seq<T>) {
    s == []
    || (t != [] && (Subsequence(s, Init(t)) || (Last(s) == Last(t) && Subsequence(Init(s), Init(t)))))
  }

  function Init<T>(s: seq<T>): seq<T>
    requires s != []
  {
    s[..|s| - 1]
  }

  function Last<T>(s: seq<T>): T
    requires s != []
  {
    s[|s| - 1]
  }

  /** writing says that the outbox is nonempty, and exactly its first message is being written. */
  predicate OneWrite(q: Queue) {
    q.writing == (q.outbox != []) && q.pending == if q.outbox == [] then [] else [q.outbox[0]]
  }

  /** Nothing is reordered, duplicated or invented; before the first error nothing is lost. */
  ghost predicate Faithful(q: Queue) {
    && Subsequence(q.completed + q.outbox, q.executed)
    && multiset(q.executed) == multiset(q.completed) + multiset(q.outbox) + multiset(q.lost)
    && (q.lost == [] ==> q.executed == q.completed + q.outbox)
  }

  lemma ExecuteKeeps(q: Queue, message: Message)
    requires OneWrite(q) && Faithful(q)
    ensures OneWrite(ExecuteSend(q, message)) && Faithful(ExecuteSend(q, message))
  {
    hide Subsequence;
    SubsequenceSnoc(q.completed + q.outbox, q.executed, message);
    assert q.completed + (q.outbox + [message]) == q.completed + q.outbox + [message];
  }

  lemma SubsequenceSnoc<T(!new)>(s: seq<T>, t: seq<T>, x: T)
    requires Subsequence(s, t)
    ensures Subsequence(s + [x], t + [x])
  {
    assert Init(s + [x]) == s && Init(t + [x]) == t;
  }

  lemma CompleteKeeps(q: Queue)
    requires OneWrite(q) && Faithful(q) && q.pending != []
    ensures OneWrite(CompleteWrite(q, 0)) && Faithful(CompleteWrite(q, 0))
  {
    var front := q.outbox[0];
    assert q.outbox == [front] + q.outbox[1..];
    assert (q.completed + [front]) + q.outbox[1..] == q.completed + q.outbox;
  }

  lemma FailKeeps(q: Queue)
    requires OneWrite(q) && Faithful(q) && q.pending != []
    ensures OneWrite(FailWrite(q, 0)) && Faithful(FailWrite(q, 0))
  {
    PrefixOfSubsequence(q.completed, q.outbox, q.executed);
    assert q.completed + [] == q.completed;
  }

  lemma {:induction false} PrefixOfSubsequence<T(!new)>(s: seq<T>, u: seq<T>, t: seq<T>)
    requires Subsequence(s + u, t)
    ensures Subsequence(s, t)
  {
    if u == [] {
      assert s + u == s;
    } else if Subsequence(s + u, Init(t)) {
      PrefixOfSubsequence(s, u, Init(t));
    } else {
      assert Init(s + u) == s + Init(u);
      PrefixOfSubsequence(s, Init(u), Init(t));
    }
  }

  lemma {:induction false} SubsequenceExtends<T(!new)>(s: seq<T>, t: seq<T>, u: seq<T>)
    requires Subsequence(s, t)
    ensures Subsequence(s, t + u)
  {
    if u == [] {
      assert t + u == t;
    } else {
      SubsequenceExtends(s, t, Init(u));
      assert Init(t + u) == t + Init(u);
    }
  }

  // ----- whole runs

  datatype Event = Send(message: Message) | ExecuteNext | Completed(i: nat) | Failed(i: nat)

  /** The posted sends wait in the strand's own queue. */
  datatype Strand = Strand(sent: seq<Message>, posted: seq<Message>, queue: Queue)

  predicate CanHappen(st: Strand, event: Event) {
    match event
    case Send(_) => true
    case ExecuteNext => st.posted != []
    case Completed(i) => i < |st.queue.pending|
    case Failed(i) => i < |st.queue.pending|
  }

  /** A completion for an empty outbox would be undefined behaviour: None. */
  function After(st: Strand, event: Event): Option<Strand>
    requires CanHappen(st, event)
  {
    match event
    case Send(message) => Some(st.(sent := st.sent + [message], posted := st.posted + [message]))
    case ExecuteNext => Some(st.(posted := st.posted[1..], queue := ExecuteSend(st.queue, st.posted[0])))
    case Completed(i) => if st.queue.outbox == [] then None else Some(st.(queue := CompleteWrite(st.queue, i)))
    case Failed(i) => Some(st.(queue := FailWrite(st.queue, i)))
  }

  datatype RunResult = Impossible | Undefined | Reached(strand: Strand)

  /** The outcome of a history of events, latest last */
  function History(events: seq<Event>): RunResult {
    if events == [] then Reached(Strand([], [], Queue([], false, [], [], [], [])))
    else
      match History(Init(events))
      case Reached(st) =>
        if !CanHappen(st, Last(events)) then Impossible
        else (match After(st, Last(events)) case None => Undefined case Some(st') => Reached(st'))
      case other => other
  }

  /**
   In every interleaving of sends, executions, completions and errors: no undefined behaviour, at
   most one write in flight, and the invariants of the queue.
   */
  lemma {:induction false} EveryHistory(events: seq<Event>)
    ensures !History(events).Undefined?
    ensures History(events).Reached? ==>
              var st := History(events).strand;
              OneWrite(st.queue) && Faithful(st.queue) && st.sent == st.queue.executed + st.posted
  {
    hide Faithful, ExecuteSend, CompleteWrite, FailWrite;
    if events == [] {
      StartFaithful();
    } else {
      EveryHistory(Init(events));
      var before := History(Init(events));
      if before.Reached? && CanHappen(before.strand, Last(events)) {
        var st := before.strand;
        match Last(events)
        case Send(_) =>
        case ExecuteNext =>
          ExecuteKeeps(st.queue, st.posted[0]);
          ExecuteRecords(st.queue, st.posted[0]);
          assert st.queue.executed + st.posted == (st.queue.executed + [st.posted[0]]) + st.posted[1..];
        case Completed(_) => CompleteKeeps(st.queue); CompletionRecords(st.queue);
        case Failed(_) => FailKeeps(st.queue); CompletionRecords(st.queue);
      }
    }
  }

  lemma StartFaithful()
    ensures Faithful(Queue([], false, [], [], [], []))
  {}

  lemma ExecuteRecords(q: Queue, message: Message)
    ensures ExecuteSend(q, message).executed == q.executed + [message] && ExecuteSend(q, message).lost == q.lost
  {}

  lemma CompletionRecords(q: Queue)
    requires OneWrite(q) && q.pending != []
    ensures CompleteWrite(q, 0).executed == q.executed && CompleteWrite(q, 0).lost == q.lost
    ensures FailWrite(q, 0).executed == q.executed && FailWrite(q, 0).lost == q.lost + q.outbox
  {}

  /** Messages are lost by failed writes only, and by every failed write. */
  lemma {:induction false} LossMeansFailure(events: seq<Event>)
    requires History(events).Reached?
    ensures History(events).strand.queue.lost != [] <==> AnyFailed(events)
  {
    if events != [] {
      LossMeansFailure(Init(events));
      EveryHistory(Init(events));
      LossStep(History(Init(events)).strand, Last(events));
    }
  }

  predicate AnyFailed(events: seq<Event>) {
    events != [] && (Last(events).Failed? || AnyFailed(Init(events)))
  }

  lemma LossStep(st: Strand, event: Event)
    requires OneWrite(st.queue) && CanHappen(st, event)
    ensures var after := After(st, event);
            after.Some? ==> (after.value.queue.lost != [] <==> event.Failed? || st.queue.lost != [])
  {
    hide ExecuteSend, CompleteWrite, FailWrite;
    match event
    case ExecuteNext => ExecuteRecords(st.queue, st.posted[0]);
    case Completed(_) => CompletionRecords(st.queue);
    case Failed(_) => CompletionRecords(st.queue);
    case Send(_) =>
  }

  /**
   When no handler is left to run, every message sent was written or lost; what was written is in
   the order sent, and it is everything exactly when no write has failed.
   */
  lemma Quiescent(events: seq<Event>)
    requires var h := History(events); h.Reached? && h.strand.posted == [] && h.strand.queue.pending == []
    ensures var st := History(events).strand;
            && !st.queue.writing && st.queue.outbox == []
            && Subsequence(st.queue.completed, st.sent)
            && multiset(st.sent) == multiset(st.queue.completed) + multiset(st.queue.lost)
            && (st.queue.completed == st.sent <==> !AnyFailed(events))
  {
    EveryHistory(events);
    LossMeansFailure(events);
    var st := History(events).strand;
    assert st.sent == st.queue.executed;
    assert st.queue.completed + [] == st.queue.completed;
    assert |multiset(st.queue.lost)| == |st.queue.lost|;
    assert |multiset(st.sent)| == |multiset(st.queue.completed)| + |multiset(st.queue.lost)|;
  }

  /** At every moment the completed writes are some of the messages sent, in the order sent. */
  lemma WrittenInOrder(events: seq<Event>)
    requires History(events).Reached?
    ensures var st := History(events).strand;
            Subsequence(st.queue.completed, st.sent)
            && (st.queue.lost == [] ==> st.sent == st.queue.completed + st.queue.outbox + st.posted)
  {
    EveryHistory(events);
    var st := History(events).strand;
    PrefixOfSubsequence(st.queue.completed, st.queue.outbox, st.queue.executed);
    SubsequenceExtends(st.queue.completed, st.queue.executed, st.posted);
  }
}
