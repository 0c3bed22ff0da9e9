/**
 * The message queue as a state machine on values: the in-memory backend, workers whose handlers may interleave,
 * and a ledger of what became of each message.
 */
module QueueModel {
  type Id = string

  datatype Kind = Collection | Parsing | Notification | HealthCheck

  datatype Status = Pending | Processing | Completed | Failed | Retry

  datatype Msg = Msg(id: Id, kind: Kind, status: Status, retryCount: nat, maxRetries: int) {
    predicate MayRetry() {
      retryCount + 1 < maxRetries
    }

    function Retried(): Msg {
      this.(retryCount := retryCount + 1, status := Retry)
    }
  }

  const MAX_RETRIES := 3

  /** A message as the queue's own publish makes it. */
  function NewMessage(id: Id, kind: Kind): Msg {
    Msg(id, kind, Pending, 0, MAX_RETRIES)
  }

  datatype Backend = Backend(queue: seq<Msg>, processing: map<Id, Msg>) {

    function Publish(m: Msg): Backend {
      this.(queue := queue + [m])
    }

    function Consume(): Backend {
      if queue == [] then this
      else
        var m := queue[0].(status := Processing);
        Backend(queue[1..], processing[m.id := m])
    }

    function Ack(id: Id): Backend {
      this.(processing := processing - {id})
    }

    function Nack(id: Id, requeue: bool): Backend {
      if id in processing && requeue && processing[id].MayRetry() then Ack(id).Publish(processing[id].Retried())
      else Ack(id)
    }

    function Purge(): Backend {
      Backend([], map[])
    }
  }

  datatype Stats = Stats(published: nat, consumed: nat, acknowledged: nat, failed: nat)

  /**
   * The queue with its running handlers, and what has become of every message so far: how often it was
   * delivered, the order of first deliveries, the order in which messages that never failed completed, and which were
   * given up for want of a handler.
   */
  datatype System = System(
    backend: Backend,
    handlers: set<Kind>,
    stats: Stats,
    running: set<Id>,
    published: seq<Id>,
    completed: set<Id>,
    failed: set<Id>,
    purged: set<Id>,
    delivered: map<Id, nat>,
    firsts: seq<Id>,
    clean: seq<Id>,
    refused: set<Id>)
  {
    /** A worker takes the next message. */
    function Take(): System
      requires backend.queue != []
    {
      var m := backend.queue[0];
      this.(
        backend := backend.Consume(),
        stats := stats.(consumed := stats.consumed + 1),
        running := running + {m.id},
        delivered := delivered[m.id := Times(delivered, m.id) + 1],
        firsts := if m.retryCount == 0 then firsts + [m.id] else firsts)
    }

    /** The worker of `id` ends without success; the message goes back, if it may, or is given up. */
    function Reject(id: Id, requeue: bool): System {
      this.(
        backend := backend.Nack(id, requeue),
        stats := stats.(failed := stats.failed + 1),
        running := running - {id},
        refused := if requeue then refused else refused + {id},
        failed := if id in backend.processing && !(requeue && backend.processing[id].MayRetry()) then failed + {id} else failed)
    }

    function Accept(id: Id): System {
      this.(
        backend := backend.Ack(id),
        stats := stats.(acknowledged := stats.acknowledged + 1),
        running := running - {id},
        completed := if id in backend.processing then completed + {id} else completed,
        clean := if id in backend.processing && backend.processing[id].retryCount == 0 then clean + [id] else clean)
    }

    /** A worker begins: it takes the next message, and gives it up at once for want of a handler. */
    function Start(): System {
      if backend.queue == [] then this
      else
        var m := backend.queue[0];
        if m.kind in handlers then Take() else Take().Reject(m.id, false)
    }

    /** The handler of `id` is done; returning false and raising are handled alike. */
    function Finish(id: Id, success: bool): System {
      if success then Accept(id) else Reject(id, true)
    }

    function Publish(id: Id, kind: Kind): System {
      this.(backend := backend.Publish(NewMessage(id, kind)),
            stats := stats.(published := stats.published + 1),
            published := published + [id])
    }

    function Purge(): System {
      this.(backend := backend.Purge(), purged := purged + Ids(backend.queue) + backend.processing.Keys)
    }
  }

  /** How often `id` has been handed to a worker. */
  function Times(delivered: map<Id, nat>, id: Id): nat {
    if id in delivered then delivered[id] else 0
  }

  function Ids(queue: seq<Msg>): set<Id> {
    set m | m in queue :: m.id
  }

  /** The ids of the queued messages never delivered, in queue order. */
  function Fresh(queue: seq<Msg>): seq<Id> {
    if queue == [] then []
    else (if queue[0].retryCount == 0 then [queue[0].id] else []) + Fresh(queue[1..])
  }

  function Initial(): System {
    System(Backend([], map[]), {}, Stats(0, 0, 0, 0), {}, [], {}, {}, {}, map[], [], [], {})
  }

  datatype Event =
    | Publishes(id: Id, kind: Kind)
    | Starts
    | Finishes(id: Id, success: bool)
    | Purges
    | Registers(kind: Kind)

  predicate Enabled(s: System, e: Event) {
    match e
    case Publishes(id, _) => id !in s.published
    case Finishes(id, _) => id in s.running
    case _ => true
  }

  function Step(s: System, e: Event): System {
    match e
    case Publishes(id, kind) => s.Publish(id, kind)
    case Starts => s.Start()
    case Finishes(id, success) => s.Finish(id, success)
    case Purges => s.Purge()
    case Registers(kind) => s.(handlers := s.handlers + {kind})
  }

  /** Any interleaving of publishers and workers. */
  predicate IsRun(s: System, events: seq<Event>)
    decreases |events|
  {
    events == [] || (Enabled(s, events[0]) && IsRun(Step(s, events[0]), events[1..]))
  }

  function After(s: System, events: seq<Event>): System
    decreases |events|
  {
    if events == [] then s else After(Step(s, events[0]), events[1..])
  }

  // --------------------------------------------------------------------- the invariant

  predicate NoRepeats(s: seq<Id>) {
    forall i, j :: 0 <= i < j < |s| ==> s[i] != s[j]
  }

  predicate DistinctIds(queue: seq<Msg>) {
    forall i, j :: 0 <= i < j < |queue| ==> queue[i].id != queue[j].id
  }

  /** Every published message is in exactly one place, and nothing else is anywhere. */
  ghost predicate Conserved(s: System) {
    && NoRepeats(s.published) && DistinctIds(s.backend.queue)
    && Ids(s.backend.queue) !! s.backend.processing.Keys !! s.completed !! s.failed !! s.purged
    && (forall id :: id in s.published <==>
         id in Ids(s.backend.queue) + s.backend.processing.Keys + s.completed + s.failed + s.purged)
  }

  predicate QueuedWell(s: System, m: Msg) {
    && m.status == (if m.retryCount == 0 then Pending else Retry)
    && m.retryCount < m.maxRetries == MAX_RETRIES
    && Times(s.delivered, m.id) == m.retryCount
  }

  predicate HeldWell(s: System, id: Id, m: Msg) {
    && m.id == id && m.status == Processing
    && m.retryCount < m.maxRetries == MAX_RETRIES
    && Times(s.delivered, id) == m.retryCount + 1
  }

  ghost predicate Tracked(s: System) {
    && (forall m :: m in s.backend.queue ==> QueuedWell(s, m))
    && (forall id :: id in s.backend.processing ==> HeldWell(s, id, s.backend.processing[id]))
    && (forall id :: Times(s.delivered, id) <= MAX_RETRIES)
    && (forall id :: id !in s.published ==> Times(s.delivered, id) == 0)
    && (forall id :: id in s.completed + s.failed ==> Times(s.delivered, id) >= 1)
  }

  ghost predicate Counted(s: System) {
    && s.stats.published == |s.published|
    && s.stats.consumed == s.stats.acknowledged + s.stats.failed + |s.running|
    && s.backend.processing.Keys <= s.running <= s.backend.processing.Keys + s.purged
  }

  /** Only what had all its deliveries is given up, or what had no handler. */
  ghost predicate GivenUpLast(s: System) {
    forall id :: id in s.failed ==> id in s.refused || Times(s.delivered, id) == MAX_RETRIES
  }

  ghost predicate Inv(s: System) {
    Conserved(s) && Tracked(s) && Counted(s) && GivenUpLast(s)
  }

  lemma InitialInv()
    ensures Inv(Initial())
  {
  }

  lemma PublishInv(s: System, id: Id, kind: Kind)
    requires Inv(s) && id !in s.published
    ensures Inv(s.Publish(id, kind))
  {
    var s1, m := s.Publish(id, kind), NewMessage(id, kind);
    assert s1.backend.queue == s.backend.queue + [m];
    assert Ids(s1.backend.queue) == Ids(s.backend.queue) + {id};
  }

  lemma PurgeInv(s: System)
    requires Inv(s)
    ensures Inv(s.Purge())
  {
  }

  lemma TakeSets(s: System)
    requires Conserved(s) && s.backend.queue != []
    ensures var m, b, b1 := s.backend.queue[0], s.backend, s.Take().backend;
      && Ids(b.queue) == Ids(b1.queue) + {m.id} && m.id !in Ids(b1.queue)
      && b1.processing.Keys == b.processing.Keys + {m.id} && m.id !in b.processing
      && m.id in s.published && DistinctIds(b1.queue)
      && m in b.queue && forall k :: k in b1.queue ==> k in b.queue && k.id != m.id
  {
    var m, q, q1 := s.backend.queue[0], s.backend.queue, s.Take().backend.queue;
    assert q == [m] + q1;
    assert m.id in Ids(q);
    assert forall k :: k in q1 ==> k in q && k.id != m.id;
  }

  lemma TakeConserved(s: System)
    requires Conserved(s) && s.backend.queue != []
    ensures Conserved(s.Take())
  {
    TakeSets(s);
  }

  lemma TakeTracked(s: System)
    requires Conserved(s) && Tracked(s) && s.backend.queue != []
    ensures Tracked(s.Take())
  {
    TakeSets(s);
    var m := s.backend.queue[0];
    assert QueuedWell(s, m);
    assert forall id :: Times(s.Take().delivered, id) == Times(s.delivered, id) + if id == m.id then 1 else 0;
  }

  lemma TakeCounted(s: System)
    requires Conserved(s) && Counted(s) && s.backend.queue != []
    ensures Counted(s.Take())
  {
    TakeSets(s);
  }

  lemma AcceptConserved(s: System, id: Id)
    requires Conserved(s)
    ensures Conserved(s.Accept(id))
    ensures s.Accept(id).backend.processing.Keys == s.backend.processing.Keys - {id}
  {
    assert s.Accept(id).backend.processing.Keys == s.backend.processing.Keys - {id};
  }

  lemma AcceptTracked(s: System, id: Id)
    requires Tracked(s)
    ensures Tracked(s.Accept(id))
  {
    if id in s.backend.processing {
      assert HeldWell(s, id, s.backend.processing[id]);
    }
  }

  lemma AcceptInv(s: System, id: Id)
    requires Inv(s) && id in s.running
    ensures Inv(s.Accept(id))
  {
    AcceptConserved(s, id);
    AcceptTracked(s, id);
  }

  lemma RejectSets(s: System, id: Id, requeue: bool)
    requires Conserved(s) && Tracked(s)
    ensures var b, b1 := s.backend, s.Reject(id, requeue).backend;
      && b1.processing.Keys == b.processing.Keys - {id} && DistinctIds(b1.queue)
      && Ids(b1.queue) == Ids(b.queue)
           + (if id in b.processing && requeue && b.processing[id].MayRetry() then {id} else {})
  {
    var b, b1 := s.backend, s.Reject(id, requeue).backend;
    if id in b.processing && requeue && b.processing[id].MayRetry() {
      assert HeldWell(s, id, b.processing[id]);
      assert b1.queue == b.queue + [b.processing[id].Retried()];
      assert forall m :: m in b.queue ==> m.id in Ids(b.queue);
    }
  }

  lemma RejectConserved(s: System, id: Id, requeue: bool)
    requires Conserved(s) && Tracked(s)
    ensures Conserved(s.Reject(id, requeue))
  {
    RejectSets(s, id, requeue);
    if id in s.backend.processing {
      assert HeldWell(s, id, s.backend.processing[id]);
    }
  }

  lemma RejectTracked(s: System, id: Id, requeue: bool)
    requires Conserved(s) && Tracked(s)
    ensures Tracked(s.Reject(id, requeue))
  {
    if id in s.backend.processing {
      assert HeldWell(s, id, s.backend.processing[id]);
    }
  }

  lemma StepInv(s: System, e: Event)
    requires Inv(s) && Enabled(s, e)
    ensures Inv(Step(s, e))
  {
    match e
    case Publishes(id, kind) => PublishInv(s, id, kind);
    case Starts =>
      if s.backend.queue != [] {
        TakeInv(s);
        if s.backend.queue[0].kind !in s.handlers {
          RejectInv(s.Take(), s.backend.queue[0].id, false);
        }
      }
    case Finishes(id, success) =>
      if success { AcceptInv(s, id); } else { RejectInv(s, id, true); }
    case Purges => PurgeInv(s);
    case Registers(_) =>
  }

  lemma TakeInv(s: System)
    requires Inv(s) && s.backend.queue != []
    ensures Inv(s.Take()) && s.backend.queue[0].id in s.Take().running
  {
    TakeConserved(s);
    TakeTracked(s);
    TakeCounted(s);
    TakeGivenUp(s);
  }

  lemma TakeGivenUp(s: System)
    requires Conserved(s) && GivenUpLast(s) && s.backend.queue != []
    ensures GivenUpLast(s.Take())
  {
    TakeSets(s);
    assert s.backend.queue[0].id !in s.failed;
  }

  lemma RejectGivenUp(s: System, id: Id, requeue: bool)
    requires Tracked(s) && GivenUpLast(s)
    ensures GivenUpLast(s.Reject(id, requeue))
  {
    if id in s.backend.processing {
      assert HeldWell(s, id, s.backend.processing[id]);
    }
  }

  lemma RejectInv(s: System, id: Id, requeue: bool)
    requires Inv(s) && id in s.running
    ensures Inv(s.Reject(id, requeue))
  {
    RejectConserved(s, id, requeue);
    RejectTracked(s, id, requeue);
    RejectSets(s, id, requeue);
    RejectGivenUp(s, id, requeue);
  }

  /** Conservation, the retry discipline and the counters hold after any interleaving. */
  lemma {:induction false} RunInv(s: System, events: seq<Event>)
    requires Inv(s) && IsRun(s, events)
    ensures Inv(After(s, events))
    decreases |events|
  {
    if events != [] {
      StepInv(s, events[0]);
      RunInv(Step(s, events[0]), events[1..]);
    }
  }

  /** The states the queue can get into. */
  ghost predicate Reachable(s: System) {
    exists events :: IsRun(Initial(), events) && After(Initial(), events) == s
  }

  lemma ReachableInv(s: System)
    requires Reachable(s)
    ensures Inv(s) && FirstsInOrder(s)
  {
    var events :| IsRun(Initial(), events) && After(Initial(), events) == s;
    InitialInv();
    RunInv(Initial(), events);
    FirstDeliveriesInOrder(Initial(), events);
  }

  lemma {:induction false} RunExtends(s: System, events: seq<Event>, e: Event)
    requires IsRun(s, events) && Enabled(After(s, events), e)
    ensures IsRun(s, events + [e]) && After(s, events + [e]) == Step(After(s, events), e)
    decreases |events|
  {
    if events == [] {
      assert events + [e] == [e] && [e][1..] == [];
    } else {
      RunExtends(Step(s, events[0]), events[1..], e);
      assert (events + [e])[1..] == events[1..] + [e];
    }
  }

  lemma ReachableStep(s: System, e: Event)
    requires Reachable(s) && Enabled(s, e)
    ensures Reachable(Step(s, e))
  {
    var events :| IsRun(Initial(), events) && After(Initial(), events) == s;
    RunExtends(Initial(), events, e);
  }

  lemma InitialReachable()
    ensures Reachable(Initial())
  {
    assert IsRun(Initial(), []) && After(Initial(), []) == Initial();
  }

  lemma StepFinal(s: System, e: Event, id: Id)
    requires Inv(s) && Enabled(s, e) && id in s.completed + s.failed + s.purged
    ensures var s1 := Step(s, e);
      && s.completed <= s1.completed && s.failed <= s1.failed && s.purged <= s1.purged
      && Times(s1.delivered, id) == Times(s.delivered, id)
  {
    if e.Starts? && s.backend.queue != [] {
      assert s.backend.queue[0].id in Ids(s.backend.queue);
    }
  }

  /** What is completed, given up or purged stays so, and is not delivered again. */
  lemma {:induction false} FinalStaysFinal(s: System, events: seq<Event>, id: Id)
    requires Inv(s) && IsRun(s, events) && id in s.completed + s.failed + s.purged
    ensures var s1 := After(s, events);
      && s.completed <= s1.completed && s.failed <= s1.failed && s.purged <= s1.purged
      && Times(s1.delivered, id) == Times(s.delivered, id)
    decreases |events|
  {
    if events != [] {
      StepInv(s, events[0]);
      StepFinal(s, events[0], id);
      FinalStaysFinal(Step(s, events[0]), events[1..], id);
    }
  }

  /**
   * A message is given up only after three deliveries, unless it had no handler. Until then, and unless completed or
   * purged, it waits in the queue or is being handled.
   */
  lemma GivenUpAfterThree(s: System, id: Id)
    requires Reachable(s)
    ensures id in s.failed && id !in s.refused ==> Times(s.delivered, id) == 3
    ensures id in s.published && id !in s.completed + s.purged + s.refused && Times(s.delivered, id) < 3 ==>
      id in Ids(s.backend.queue) || id in s.backend.processing
  {
    ReachableInv(s);
  }

  /** Without a purge, a message whose handler once accepts it is completed in the end. */
  lemma {:induction false} AcceptedCompletes(s: System, events: seq<Event>, id: Id)
    requires Inv(s) && IsRun(s, events) && s.purged == {} && Purges !in events && Finishes(id, true) in events
    ensures id in After(s, events).completed
    decreases |events|
  {
    var e, rest := events[0], events[1..];
    StepInv(s, e);
    InEither(events, e, rest, Purges);
    InEither(events, e, rest, Finishes(id, true));
    if e == Finishes(id, true) {
      AcceptedNow(s, id);
      FinalStaysFinal(Step(s, e), rest, id);
    } else {
      NothingPurged(s, e);
      AcceptedCompletes(Step(s, e), rest, id);
    }
  }

  lemma InEither(events: seq<Event>, e: Event, rest: seq<Event>, x: Event)
    requires events != [] && e == events[0] && rest == events[1..]
    ensures x in events <==> x == e || x in rest
  {
    assert events == [e] + rest;
  }

  lemma AcceptedNow(s: System, id: Id)
    requires Inv(s) && s.purged == {} && id in s.running
    ensures id in Step(s, Finishes(id, true)).completed
  {
  }

  lemma NothingPurged(s: System, e: Event)
    requires s.purged == {} && e != Purges
    ensures Step(s, e).purged == {}
  {
  }

  /** Where every kind of message has a handler, none is refused. */
  lemma {:induction false} NoneRefused(s: System, events: seq<Event>)
    requires forall kind: Kind :: kind in s.handlers
    ensures After(s, events).refused == s.refused
    decreases |events|
  {
    if events != [] {
      NoneRefused(Step(s, events[0]), events[1..]);
    }
  }

  /** So a message is given up only when three deliveries of it have been turned down, and none accepted. */
  lemma FailsOnlyWhenNeverAccepted(events: seq<Event>, id: Id)
    requires IsRun(Initial(), events) && Purges !in events
    requires id in After(Initial(), events).failed && id !in After(Initial(), events).refused
    ensures Finishes(id, true) !in events && Times(After(Initial(), events).delivered, id) == 3
  {
    var s := After(Initial(), events);
    InitialInv();
    RunInv(Initial(), events);
    if Finishes(id, true) in events {
      AcceptedCompletes(Initial(), events, id);
      assert false;
    }
  }

  // -------------------------------------------------------------------------- ordering

  predicate Precedes(published: seq<Id>, a: Id, b: Id) {
    exists i, j :: 0 <= i < j < |published| && published[i] == a && published[j] == b
  }

  /** `ids` come in the order they were published. */
  ghost predicate Ordered(ids: seq<Id>, published: seq<Id>) {
    && (forall i :: 0 <= i < |ids| ==> ids[i] in published)
    && (forall i, j :: 0 <= i < j < |ids| ==> Precedes(published, ids[i], ids[j]))
  }

  lemma OrderedMore(ids: seq<Id>, published: seq<Id>, id: Id)
    requires Ordered(ids, published)
    ensures Ordered(ids, published + [id]) && Ordered(ids + [id], published + [id])
  {
    var more := published + [id];
    assert more[|published|] == id;
    forall i, j | 0 <= i < j < |ids| ensures Precedes(more, ids[i], ids[j]) {
      assert Precedes(published, ids[i], ids[j]);
      var x, y :| 0 <= x < y < |published| && published[x] == ids[i] && published[y] == ids[j];
      assert more[x] == ids[i] && more[y] == ids[j];
    }
    forall i | 0 <= i < |ids| ensures ids[i] in more && Precedes(more, ids[i], id) {
      var x :| 0 <= x < |published| && published[x] == ids[i];
      assert more[x] == ids[i];
    }
  }

  lemma OrderedLess(a: seq<Id>, b: seq<Id>, c: seq<Id>, published: seq<Id>)
    requires Ordered(a + b + c, published)
    ensures Ordered(a + c, published)
  {
    var all, less := a + b + c, a + c;
    assert forall i :: 0 <= i < |less| ==> less[i] == all[if i < |a| then i else i + |b|];
  }

  lemma OrderedPrefix(a: seq<Id>, b: seq<Id>, published: seq<Id>)
    requires Ordered(a + b, published)
    ensures Ordered(a, published)
  {
    assert forall i :: 0 <= i < |a| ==> a[i] == (a + b)[i];
  }

  lemma {:induction false} FreshAppend(q: seq<Msg>, m: Msg)
    ensures Fresh(q + [m]) == Fresh(q) + if m.retryCount == 0 then [m.id] else []
  {
    if q == [] {
      assert [m][1..] == [];
    } else {
      FreshAppend(q[1..], m);
      assert (q + [m])[1..] == q[1..] + [m];
    }
  }

  /** First deliveries, and those still to come, are in publish order whatever the interleaving. */
  ghost predicate FirstsInOrder(s: System) {
    Ordered(s.firsts + Fresh(s.backend.queue), s.published)
  }

  lemma TakeFresh(s: System)
    requires s.backend.queue != []
    ensures s.Take().firsts + Fresh(s.Take().backend.queue) == s.firsts + Fresh(s.backend.queue)
  {
  }

  lemma RejectFresh(s: System, id: Id, requeue: bool)
    ensures Fresh(s.Reject(id, requeue).backend.queue) == Fresh(s.backend.queue)
  {
    if id in s.backend.processing && requeue && s.backend.processing[id].MayRetry() {
      FreshAppend(s.backend.queue, s.backend.processing[id].Retried());
    }
  }

  lemma StepFirsts(s: System, e: Event)
    requires FirstsInOrder(s)
    ensures FirstsInOrder(Step(s, e))
  {
    var q := s.backend.queue;
    match e
    case Publishes(id, kind) =>
      FreshAppend(q, NewMessage(id, kind));
      OrderedMore(s.firsts + Fresh(q), s.published, id);
      assert s.firsts + (Fresh(q) + [id]) == s.firsts + Fresh(q) + [id];
    case Starts =>
      if q != [] {
        TakeFresh(s);
        RejectFresh(s.Take(), q[0].id, false);
      }
    case Finishes(id, success) =>
      RejectFresh(s, id, true);
    case Purges =>
      OrderedPrefix(s.firsts, Fresh(q), s.published);
      assert s.firsts + [] == s.firsts;
    case Registers(_) =>
  }

  lemma {:induction false} FirstDeliveriesInOrder(s: System, events: seq<Event>)
    requires FirstsInOrder(s) && IsRun(s, events)
    ensures FirstsInOrder(After(s, events)) && Ordered(After(s, events).firsts, After(s, events).published)
    decreases |events|
  {
    if events != [] {
      StepFirsts(s, events[0]);
      FirstDeliveriesInOrder(Step(s, events[0]), events[1..]);
    } else {
      OrderedPrefix(s.firsts, Fresh(s.backend.queue), s.published);
    }
  }

  // ------------------------------------------------------------------------ one worker

  /** With one worker a handler is started only when none is running. */
  predicate OneWorker(s: System, events: seq<Event>)
    decreases |events|
  {
    events == [] ||
    ((events[0].Starts? ==> s.running == {}) && OneWorker(Step(s, events[0]), events[1..]))
  }

  /** The message being handled, if it has not failed before. */
  function HeldFresh(s: System): seq<Id> {
    if s.firsts == [] then []
    else
      var id := s.firsts[|s.firsts| - 1];
      if id in s.backend.processing && s.backend.processing[id].retryCount == 0 then [id] else []
  }

  ghost predicate CleanInOrder(s: System) {
    && (forall id :: id in s.backend.processing && s.backend.processing[id].retryCount == 0 ==> HeldFresh(s) == [id])
    && Ordered(s.clean + HeldFresh(s) + Fresh(s.backend.queue), s.published)
  }

  lemma TakeClean(s: System)
    requires CleanInOrder(s) && s.backend.processing == map[] && s.backend.queue != []
    ensures CleanInOrder(s.Take())
  {
    var s1 := s.Take();
    assert HeldFresh(s) == [];
    assert s1.clean + HeldFresh(s1) + Fresh(s1.backend.queue) == s.clean + HeldFresh(s) + Fresh(s.backend.queue);
  }

  lemma RejectClean(s: System, id: Id, requeue: bool)
    requires CleanInOrder(s)
    ensures CleanInOrder(s.Reject(id, requeue))
  {
    var s1, waiting := s.Reject(id, requeue), Fresh(s.backend.queue);
    RejectFresh(s, id, requeue);
    OrderedLess(s.clean, HeldFresh(s), waiting, s.published);
    if HeldFresh(s1) == [] {
      assert s1.clean + HeldFresh(s1) + waiting == s.clean + waiting;
    }
  }

  lemma AcceptClean(s: System, id: Id)
    requires Inv(s) && CleanInOrder(s)
    ensures CleanInOrder(s.Accept(id))
  {
    var s1 := s.Accept(id);
    assert s1.clean + HeldFresh(s1) == s.clean + HeldFresh(s);
  }

  lemma PublishClean(s: System, id: Id, kind: Kind)
    requires CleanInOrder(s)
    ensures CleanInOrder(s.Publish(id, kind))
  {
    var q, all := s.backend.queue, s.clean + HeldFresh(s) + Fresh(s.backend.queue);
    FreshAppend(q, NewMessage(id, kind));
    OrderedMore(all, s.published, id);
    assert s.clean + HeldFresh(s) + (Fresh(q) + [id]) == all + [id];
  }

  lemma PurgeClean(s: System)
    requires CleanInOrder(s)
    ensures CleanInOrder(s.Purge())
  {
    var rest := HeldFresh(s) + Fresh(s.backend.queue);
    assert s.clean + HeldFresh(s) + Fresh(s.backend.queue) == s.clean + rest;
    OrderedPrefix(s.clean, rest, s.published);
    assert s.clean + HeldFresh(s.Purge()) + [] == s.clean;
  }

  lemma RegisterClean(s: System, kind: Kind)
    requires CleanInOrder(s)
    ensures CleanInOrder(Step(s, Registers(kind)))
  {
    assert HeldFresh(Step(s, Registers(kind))) == HeldFresh(s);
  }

  lemma StepClean(s: System, e: Event)
    requires Inv(s) && CleanInOrder(s) && Enabled(s, e) && (e.Starts? ==> s.running == {})
    ensures CleanInOrder(Step(s, e))
  {
    match e
    case Publishes(id, kind) => PublishClean(s, id, kind);
    case Starts =>
      if s.backend.queue != [] {
        assert s.backend.processing == map[];
        TakeClean(s);
        RejectClean(s.Take(), s.backend.queue[0].id, false);
      }
    case Finishes(id, success) =>
      if success { AcceptClean(s, id); } else { RejectClean(s, id, true); }
    case Purges => PurgeClean(s);
    case Registers(kind) => RegisterClean(s, kind);
  }

  /** With one worker, messages that never failed complete in publish order. */
  lemma {:induction false} CleanCompletionsInOrder(s: System, events: seq<Event>)
    requires Inv(s) && CleanInOrder(s) && IsRun(s, events) && OneWorker(s, events)
    ensures Ordered(After(s, events).clean, After(s, events).published)
    decreases |events|
  {
    if events != [] {
      StepInv(s, events[0]);
      StepClean(s, events[0]);
      CleanCompletionsInOrder(Step(s, events[0]), events[1..]);
    } else {
      var rest := HeldFresh(s) + Fresh(s.backend.queue);
      assert s.clean + HeldFresh(s) + Fresh(s.backend.queue) == s.clean + rest;
      OrderedPrefix(s.clean, rest, s.published);
    }
  }

  /** Which is so from the start, for any run of publishers and one worker. */
  lemma CleanFromTheStart(events: seq<Event>)
    requires IsRun(Initial(), events) && OneWorker(Initial(), events)
    ensures Ordered(After(Initial(), events).clean, After(Initial(), events).published)
  {
    InitialInv();
    assert CleanInOrder(Initial());
    CleanCompletionsInOrder(Initial(), events);
  }

  // -------------------------------------------------------------------------- draining

  /** One whole call of a worker that nothing interrupts; `ok` is what the handler answers, if there is one. */
  function ProcessNext(s: System, ok: bool): System {
    if s.backend.queue == [] then s
    else if s.backend.queue[0].kind in s.handlers then s.Start().Finish(s.backend.queue[0].id, ok)
    else s.Start()
  }

  predicate Processed(s: System, ok: bool) {
    s.backend.queue != [] && s.backend.queue[0].kind in s.handlers && ok
  }

  /** Each call on a non-empty queue consumes one message, and acknowledges or rejects it. */
  lemma ProcessNextCounts(s: System, ok: bool)
    ensures var n, n1 := s.stats, ProcessNext(s, ok).stats;
      && n1.published == n.published
      && n1.consumed == n.consumed + (if s.backend.queue != [] then 1 else 0)
      && n1.acknowledged == n.acknowledged + (if Processed(s, ok) then 1 else 0)
      && n1.failed == n.failed + (if s.backend.queue != [] && !Processed(s, ok) then 1 else 0)
  {
    if s.backend.queue != [] {
      assert s.Take().stats == s.stats.(consumed := s.stats.consumed + 1);
    }
  }

  /** Deliveries still possible: the retries the queued messages have left. */
  function Budget(queue: seq<Msg>): int {
    if queue == [] then 0 else queue[0].maxRetries - queue[0].retryCount + Budget(queue[1..])
  }

  lemma {:induction false} BudgetAppend(q: seq<Msg>, m: Msg)
    ensures Budget(q + [m]) == Budget(q) + m.maxRetries - m.retryCount
  {
    if q == [] {
      assert [m][1..] == [];
    } else {
      BudgetAppend(q[1..], m);
      assert (q + [m])[1..] == q[1..] + [m];
    }
  }

  lemma {:induction false} BudgetBounds(s: System, q: seq<Msg>)
    requires forall m :: m in q ==> QueuedWell(s, m)
    ensures |q| <= Budget(q) <= MAX_RETRIES * |q|
  {
    if q != [] {
      assert QueuedWell(s, q[0]);
      BudgetBounds(s, q[1..]);
    }
  }

  lemma ProcessNextInv(s: System, ok: bool)
    requires Inv(s)
    ensures Inv(ProcessNext(s, ok))
  {
    if s.backend.queue != [] {
      TakeInv(s);
      StepInv(s, Starts);
      if s.backend.queue[0].kind in s.handlers {
        StepInv(s.Start(), Finishes(s.backend.queue[0].id, ok));
      }
    }
  }

  /** Whatever the handler answers, a call on a non-empty queue uses up some of the budget. */
  lemma ProcessNextSpends(s: System, ok: bool)
    requires Inv(s) && s.backend.queue != []
    ensures Budget(ProcessNext(s, ok).backend.queue) < Budget(s.backend.queue)
  {
    var m, s1 := s.backend.queue[0], s.Take();
    assert QueuedWell(s, m);
    if m.kind in s.handlers && !ok && s1.backend.processing[m.id].MayRetry() {
      BudgetAppend(s1.backend.queue, s1.backend.processing[m.id].Retried());
    }
  }

  function Drain(s: System, oks: seq<bool>): System
    decreases |oks|
  {
    if oks == [] then s else Drain(ProcessNext(s, oks[0]), oks[1..])
  }

  lemma {:induction false} DrainInv(s: System, oks: seq<bool>)
    requires Inv(s)
    ensures Inv(Drain(s, oks))
    ensures Budget(s.backend.queue) <= |oks| ==> Drain(s, oks).backend.queue == []
    ensures s.backend.queue == [] ==> Drain(s, oks).backend.queue == []
    ensures s.running == {} ==> Drain(s, oks).running == {}
    ensures Drain(s, oks).published == s.published && s.purged == Drain(s, oks).purged
    decreases |oks|
  {
    BudgetBounds(s, s.backend.queue);
    if oks != [] {
      ProcessNextInv(s, oks[0]);
      if s.backend.queue != [] {
        ProcessNextSpends(s, oks[0]);
      }
      DrainInv(ProcessNext(s, oks[0]), oks[1..]);
    }
  }

  /**
   * With nothing new published, three calls per queued message empty the queue, whatever the handlers answer;
   * and then every message that was not purged has been completed or given up.
   */
  lemma Drains(s: System, oks: seq<bool>)
    requires Inv(s) && s.running == {} && |oks| >= MAX_RETRIES * |s.backend.queue|
    ensures var s1 := Drain(s, oks);
      && s1.backend.queue == [] && s1.backend.processing == map[]
      && (forall id :: id in s.published ==> id in s1.completed + s1.failed + s.purged)
  {
    BudgetBounds(s, s.backend.queue);
    DrainInv(s, oks);
    assert Drain(s, oks).backend.processing.Keys == {};
  }
}
