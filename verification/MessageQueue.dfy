/** The message queue as the program has it: message objects changed in place, refining the state machine. */
module MessageQueue {
  import opened QueueModel

  class QueueMessage {
    const id: Id
    const kind: Kind
    const maxRetries: int
    var status: Status
    var retryCount: nat

    constructor (id: Id, kind: Kind)
      ensures View() == NewMessage(id, kind)
    {
      this.id, this.kind, maxRetries := id, kind, MAX_RETRIES;
      status, retryCount := Pending, 0;
    }

    ghost function View(): Msg
      reads this
    {
      Msg(id, kind, status, retryCount, maxRetries)
    }
  }

  ghost function Views(queue: seq<QueueMessage>): (r: seq<Msg>)
    reads queue
    ensures |r| == |queue| && forall i :: 0 <= i < |queue| ==> r[i] == queue[i].View()
  {
    if queue == [] then [] else [queue[0].View()] + Views(queue[1..])
  }

  class InMemoryQueueBackend {
    var queue: seq<QueueMessage>
    var processing: map<Id, QueueMessage>

    constructor ()
      ensures Valid() && View() == Backend([], map[]) && Held() == {}
    {
      queue, processing := [], map[];
    }

    /** Each object is held once. */
    ghost predicate Valid()
      reads this, queue, processing.Values
    {
      && (forall i, j :: 0 <= i < j < |queue| ==> queue[i] != queue[j])
      && (forall id :: id in processing ==> processing[id].id == id && processing[id] !in queue)
    }

    ghost function View(): Backend
      reads this, queue, processing.Values
    {
      Backend(Views(queue), map id | id in processing :: processing[id].View())
    }

    ghost function Held(): set<QueueMessage>
      reads this
    {
      (set m | m in queue) + processing.Values
    }

    method Publish(message: QueueMessage)
      requires Valid() && message !in Held()
      modifies this`queue
      ensures Valid() && View() == old(View()).Publish(message.View())
      ensures Held() == old(Held()) + {message} && queue == old(queue) + [message]
    {
      queue := queue + [message];
      assert queue[..|old(queue)|] == old(queue);
      assert Views(queue) == old(Views(queue)) + [message.View()];
    }

    method Consume() returns (message: QueueMessage?)
      requires Valid()
      modifies this, queue
      ensures Valid() && View() == old(View()).Consume()
      ensures message == null <==> old(queue) == []
      ensures message != null ==>
        message == old(queue)[0] && message.id in processing && processing[message.id] == message
      ensures Held() <= old(Held())
    {
      if queue == [] {
        return null;
      }
      message := queue[0];
      queue := queue[1..];
      message.status := Processing;
      processing := processing[message.id := message];
    }

    method Pop(id: Id) returns (message: QueueMessage)
      requires Valid() && id in processing
      modifies this`processing
      ensures Valid() && queue == old(queue)
      ensures View() == old(View()).(processing := old(View()).processing - {id})
      ensures message == old(processing)[id] && message.View() == old(View()).processing[id]
      ensures message !in Held() && Held() <= old(Held())
    {
      message := processing[id];
      processing := processing - {id};
      assert Views(queue) == old(Views(queue));
    }

    method Ack(id: Id) returns (found: bool)
      requires Valid()
      modifies this`processing, processing.Values
      ensures Valid() && View() == old(View()).Ack(id)
      ensures found <==> id in old(processing)
      ensures found ==> old(processing)[id].status == Completed
      ensures Held() <= old(Held())
    {
      found := id in processing;
      if found {
        var message := processing[id];
        processing := processing - {id};
        message.status := Completed;
      }
    }

    method Nack(id: Id, requeue: bool) returns (found: bool)
      requires Valid()
      modifies this, processing.Values
      ensures Valid() && View() == old(View()).Nack(id, requeue)
      ensures found <==> id in old(processing)
      ensures found && !(requeue && old(View()).processing[id].MayRetry()) ==> old(processing)[id].status == Failed
      ensures Held() <= old(Held())
    {
      found := id in processing;
      if found {
        var message := Pop(id);
        Settle(message, requeue);
        assert queue == old(queue) || queue == old(queue) + [message];
      }
    }

    /** Counts the retry, and puts the message back at the end if it has one left. */
    method Settle(message: QueueMessage, requeue: bool)
      requires Valid() && message !in Held()
      modifies this`queue, message
      ensures Valid() && processing == old(processing) && (queue == old(queue) || queue == old(queue) + [message])
      ensures if requeue && old(message.View()).MayRetry()
        then View() == old(View()).Publish(old(message.View()).Retried())
        else View() == old(View()) && message.status == Failed
    {
      message.retryCount := message.retryCount + 1;
      if requeue && message.retryCount < message.maxRetries {
        message.status := Retry;
        assert View().queue == old(View()).queue && View().processing == old(View()).processing;
        assert message.View() == old(message.View()).Retried();
        Publish(message);
      } else {
        message.status := Failed;
        assert View().queue == old(View()).queue && View().processing == old(View()).processing;
      }
    }

    method Purge() returns (count: nat)
      requires Valid()
      modifies this
      ensures Valid() && View() == old(View()).Purge() && count == |old(queue)| && Held() == {}
    {
      count := |queue|;
      queue, processing := [], map[];
    }
  }

  class MessageQueue {
    const backend: InMemoryQueueBackend
    /** The kinds of message that have a handler; what a handler answers is an argument where it is called. */
    var handlers: set<Kind>
    var published: nat
    var consumed: nat
    var acknowledged: nat
    var failed: nat
    ghost var ledger: System

    /** The ledger describes the objects as they are. */
    ghost predicate Synced()
      reads this, backend, backend.queue, backend.processing.Values
    {
      && backend.Valid()
      && ledger.backend == backend.View()
      && ledger.handlers == handlers
      && ledger.stats == Stats(published, consumed, acknowledged, failed)
    }

    ghost predicate Valid()
      reads this, backend, backend.queue, backend.processing.Values
    {
      Synced() && Reachable(ledger)
    }

    constructor ()
      ensures Valid() && ledger == Initial()
      ensures fresh(backend) && backend.Held() == {}
    {
      backend := new InMemoryQueueBackend();
      handlers, published, consumed, acknowledged, failed := {}, 0, 0, 0, 0;
      ledger := Initial();
      InitialReachable();
    }

    method SetHandler(kind: Kind)
      requires Valid()
      modifies this`handlers, this`ledger
      ensures Valid() && ledger == old(ledger).(handlers := old(handlers) + {kind})
    {
      ReachableStep(ledger, Registers(kind));
      handlers := handlers + {kind};
      ledger := ledger.(handlers := handlers);
    }

    /** `id` is the fresh identifier drawn for the message. */
    method Publish(kind: Kind, id: Id)
      requires Valid() && id !in ledger.published
      modifies this, backend
      ensures Valid() && ledger == old(ledger).Publish(id, kind)
      ensures fresh(backend.Held() - old(backend.Held()))
    {
      ReachableStep(ledger, Publishes(id, kind));
      var message := new QueueMessage(id, kind);
      Append(message);
    }

    method Append(message: QueueMessage)
      requires Synced() && message !in backend.Held() && message.View() == NewMessage(message.id, message.kind)
      modifies this, backend
      ensures Synced() && ledger == old(ledger).Publish(message.id, message.kind)
      ensures backend.Held() == old(backend.Held()) + {message}
    {
      backend.Publish(message);
      ghost var after := backend.View();
      published := published + 1;
      ledger := ledger.Publish(message.id, message.kind);
      assert backend.View() == after == ledger.backend;
    }

    method TakeNext() returns (message: QueueMessage?)
      requires Synced()
      modifies this, backend, backend.queue
      ensures Synced() && backend.Held() <= old(backend.Held())
      ensures message == null <==> old(ledger.backend.queue) == []
      ensures message == null ==> ledger == old(ledger)
      ensures message != null ==> ledger == old(ledger).Take()
      ensures message != null ==>
        message.id == old(ledger.backend.queue[0]).id && message.kind == old(ledger.backend.queue[0]).kind
    {
      message := backend.Consume();
      if message != null {
        ghost var after := backend.View();
        consumed := consumed + 1;
        ledger := ledger.Take();
        assert backend.View() == after == ledger.backend;
      }
    }

    method Reject(id: Id, requeue: bool)
      requires Synced()
      modifies this, backend, backend.processing.Values
      ensures Synced() && ledger == old(ledger).Reject(id, requeue) && backend.Held() <= old(backend.Held())
    {
      var _ := backend.Nack(id, requeue);
      ghost var after := backend.View();
      failed := failed + 1;
      ledger := ledger.Reject(id, requeue);
      assert backend.View() == after == ledger.backend;
    }

    method Accept(id: Id)
      requires Synced()
      modifies this, backend, backend.processing.Values
      ensures Synced() && ledger == old(ledger).Accept(id) && backend.Held() <= old(backend.Held())
    {
      var _ := backend.Ack(id);
      ghost var after := backend.View();
      acknowledged := acknowledged + 1;
      ledger := ledger.Accept(id);
      assert backend.View() == after == ledger.backend;
    }

    /** The part of a worker's call before the handler; null when there is nothing to hand over. */
    method StartNext() returns (message: QueueMessage?)
      requires Valid()
      modifies this, backend, backend.Held()
      ensures Valid() && ledger == old(ledger).Start() && backend.Held() <= old(backend.Held())
      ensures message != null <==> old(ledger.backend.queue) != [] && old(ledger.backend.queue[0]).kind in handlers
      ensures message != null ==> message.id == old(ledger.backend.queue[0]).id && message.id in ledger.running
    {
      ReachableStep(ledger, Starts);
      message := TakeNext();
      if message != null && message.kind !in handlers {
        Reject(message.id, false);
        message := null;
      }
    }

    /** The part of a worker's call after the handler of `id` has answered `ok`, or raised. */
    method FinishHandler(id: Id, ok: bool)
      requires Valid() && id in ledger.running
      modifies this, backend, backend.Held()
      ensures Valid() && ledger == old(ledger).Finish(id, ok) && backend.Held() <= old(backend.Held())
    {
      ReachableStep(ledger, Finishes(id, ok));
      if ok {
        Accept(id);
      } else {
        Reject(id, true);
      }
    }

    /** Empties the queue, also of what is in flight; the counters stay. */
    method Purge() returns (count: nat)
      requires Valid()
      modifies this`ledger, backend
      ensures Valid() && ledger == old(ledger).Purge() && backend.Held() == {}
      ensures count == |old(ledger.backend.queue)| && backend.queue == []
    {
      ReachableStep(ledger, Purges);
      count := backend.Purge();
      ghost var after := backend.View();
      ledger := ledger.Purge();
      assert backend.View() == after == ledger.backend;
    }

    method ProcessNext(ok: bool) returns (processed: bool)
      requires Valid()
      modifies this, backend, backend.Held()
      ensures Valid() && ledger == QueueModel.ProcessNext(old(ledger), ok) && backend.Held() <= old(backend.Held())
      ensures processed == Processed(old(ledger), ok)
      ensures consumed == old(consumed) + (if old(ledger.backend.queue) != [] then 1 else 0)
      ensures acknowledged == old(acknowledged) + (if processed then 1 else 0)
      ensures failed == old(failed) + (if old(ledger.backend.queue) != [] && !processed then 1 else 0)
      ensures old(ledger.backend.queue) == [] ==> backend.queue == []
    {
      ProcessNextCounts(ledger, ok);
      var message := StartNext();
      if message == null {
        return false;
      }
      FinishHandler(message.id, ok);
      return ok;
    }

    /**
     * Stops at the first call that processes nothing. The `processed` calls each acknowledged a message; at
     * most one more message was taken, and if one was, it was rejected.
     */
    method ProcessAll(maxMessages: nat, oks: seq<bool>) returns (processed: nat)
      requires Valid() && |oks| >= maxMessages
      modifies this, backend, backend.Held()
      ensures Valid() && processed <= maxMessages
      ensures acknowledged == old(acknowledged) + processed
      ensures old(failed) <= failed <= old(failed) + 1
      ensures consumed - old(consumed) == processed + failed - old(failed)
      ensures processed == maxMessages ==> failed == old(failed)
      ensures processed < maxMessages && failed == old(failed) ==> backend.queue == []
      ensures ledger == Drain(old(ledger), oks[..if processed < maxMessages then processed + 1 else processed])
    {
      processed := 0;
      for i := 0 to maxMessages
        invariant Valid() && processed == i && backend.Held() <= old(backend.Held())
        invariant ledger == Drain(old(ledger), oks[..i])
        invariant acknowledged == old(acknowledged) + i && failed == old(failed) && consumed == old(consumed) + i
      {
        DrainNext(old(ledger), oks, i);
        var more := ProcessNext(oks[i]);
        if !more {
          break;
        }
        processed := processed + 1;
      }
    }
  }

  lemma {:induction false} DrainNext(s: System, oks: seq<bool>, i: nat)
    requires i < |oks|
    ensures Drain(s, oks[..i + 1]) == QueueModel.ProcessNext(Drain(s, oks[..i]), oks[i])
    decreases i
  {
    if i > 0 {
      DrainNext(QueueModel.ProcessNext(s, oks[0]), oks[1..], i - 1);
      assert oks[1..][..i] == oks[..i + 1][1..] && oks[1..][..i - 1] == oks[..i][1..];
    } else {
      assert oks[..1][1..] == [];
    }
  }
}
