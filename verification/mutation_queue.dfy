/** The mutation queue (content.js:323-362): the observer callback appends
    added element and text nodes to a FIFO queue and arms a single 250 ms
    throttle timer; when the timer fires, draining starts, and each idle step
    hands at most 250 nodes from the head to `applyNastaleeq`. Scheduling is
    abstracted to three events: Observe, TimerFire and IdleStep. */
module MutationQueue {

  const ElementNode: int := 1
  const TextNode: int := 3

  /** The batch size of `mutationQueue.splice(0, 250)`. */
  const BatchSize: nat := 250

  /** A node reference as the observer sees it: its `nodeType` and an identity. */
  datatype QNode = QNode(nodeType: int, id: nat)

  /** `mutationQueue`, `isProcessingMutations`, whether `throttleTimer` is
      pending, and whether a `requestIdleCallback(processQueue)` is pending. */
  datatype QueueState = QueueState(queue: seq<QNode>, processing: bool, timerArmed: bool, idlePending: bool)

  /** Nothing queued, nothing scheduled. */
  function Initial(): (r: QueueState)
    ensures Inv(r) && r.queue == []
  {
    QueueState([], false, false, false)
  }

  predicate Queued(n: QNode)
  {
    n.nodeType == ElementNode || n.nodeType == TextNode
  }

  /** The nodes of one record's `addedNodes` that get queued, in order. */
  function EligibleOf(added: seq<QNode>): seq<QNode>
  {
    if added == [] then []
    else (if Queued(added[0]) then [added[0]] else []) + EligibleOf(added[1..])
  }

  /** The nodes of all records that get queued, record by record. */
  function Eligible(records: seq<seq<QNode>>): seq<QNode>
  {
    if records == [] then [] else EligibleOf(records[0]) + Eligible(records[1..])
  }

  /** A drain is running exactly when an idle callback is pending; the timer
      is only armed while no drain runs; and something is scheduled (timer
      or drain) exactly when the queue is non-empty, so no queued node is
      ever stranded. */
  predicate Inv(s: QueueState)
  {
    && (s.processing <==> s.idlePending)
    && (s.timerArmed ==> !s.processing)
    && (s.timerArmed || s.processing <==> |s.queue| > 0)
  }

  /** The observer callback, given the value of
      `globalEnable && isSiteEnabled` when it runs. Observing when the
      feature is off drops the mutations and changes nothing; when on, the
      eligible nodes are appended behind the queue in record order, and the
      timer ends up armed exactly when it was armed before or the queue is
      non-empty while no drain is running. The invariant is kept. */
  function Observe(s: QueueState, enabled: bool, records: seq<seq<QNode>>): (r: QueueState)
    ensures !enabled ==> r == s
    ensures enabled ==> r.queue == s.queue + Eligible(records)
    ensures r.processing == s.processing && r.idlePending == s.idlePending
    ensures r.timerArmed <==> s.timerArmed || (enabled && |r.queue| > 0 && !s.processing)
    ensures Inv(s) ==> Inv(r)
  {
    if !enabled then s
    else
      var q := s.queue + Eligible(records);
      if |q| > 0 && !s.processing then s.(queue := q, timerArmed := true)
      else s.(queue := q)
  }

  /** The throttle timer's callback: a drain starts, with the queue as it is. */
  function TimerFire(s: QueueState): (r: QueueState)
    requires s.timerArmed
    ensures r.queue == s.queue && r.processing && r.idlePending && !r.timerArmed
    ensures Inv(s) ==> Inv(r)
  {
    s.(processing := true, timerArmed := false, idlePending := true)
  }

  /** One `processQueue` call: the new state and the batch handed to
      `applyNastaleeq`, in order. The batch is the first min(250, |queue|)
      nodes and the rest stays queued behind it; the processing flag stays
      set exactly while nodes remain, and the timer is left alone. It keeps
      the invariant, under which a drain step never meets an empty queue
      (the guard at its top never fires). */
  function IdleStep(s: QueueState): (r: (QueueState, seq<QNode>))
    requires s.idlePending
    ensures r.1 + r.0.queue == s.queue
    ensures |r.1| == (if |s.queue| < BatchSize then |s.queue| else BatchSize)
    ensures (r.0.processing <==> |r.0.queue| > 0) && (r.0.idlePending <==> |r.0.queue| > 0)
    ensures r.0.timerArmed == s.timerArmed
    ensures Inv(s) ==> Inv(r.0) && |r.1| > 0
  {
    if |s.queue| == 0 then (s.(processing := false, idlePending := false), [])
    else
      var k := if |s.queue| < BatchSize then |s.queue| else BatchSize;
      var rest := s.queue[k..];
      (s.(queue := rest, processing := |rest| > 0, idlePending := |rest| > 0), s.queue[..k])
  }

  // ---------------------------------------------------------------------------
  // What gets queued
  // ---------------------------------------------------------------------------

  lemma {:induction false} EligibleOfMembers(added: seq<QNode>)
    ensures forall n :: n in EligibleOf(added) <==> n in added && Queued(n)
  {
    if added != [] {
      EligibleOfMembers(added[1..]);
      assert added == [added[0]] + added[1..];
    }
  }

  lemma {:induction false} EligibleAppend(a: seq<seq<QNode>>, b: seq<seq<QNode>>)
    ensures Eligible(a + b) == Eligible(a) + Eligible(b)
  {
    if a == [] {
      assert a + b == b;
    } else {
      assert (a + b)[0] == a[0];
      assert (a + b)[1..] == a[1..] + b;
      EligibleAppend(a[1..], b);
    }
  }

  /** A node is queued exactly when it was added by one of the records and is
      an element or a text node. */
  lemma {:induction false} EligibleMembers(records: seq<seq<QNode>>)
    ensures forall n :: n in Eligible(records) <==>
      Queued(n) && exists i :: 0 <= i < |records| && n in records[i]
  {
    if records != [] {
      EligibleOfMembers(records[0]);
      EligibleMembers(records[1..]);
      forall n | Queued(n) && exists i :: 0 <= i < |records| && n in records[i]
        ensures n in Eligible(records)
      {
        var i :| 0 <= i < |records| && n in records[i];
        if i > 0 {
          assert records[1..][i - 1] == records[i];
        }
      }
      forall n | n in Eligible(records)
        ensures exists i :: 0 <= i < |records| && n in records[i]
      {
        if n !in EligibleOf(records[0]) {
          var i :| 0 <= i < |records[1..]| && n in records[1..][i];
          assert records[i + 1] == records[1..][i];
        }
      }
    }
  }

  // ---------------------------------------------------------------------------
  // Draining
  // ---------------------------------------------------------------------------

  /** The batches of a drain that no new mutation interrupts. */
  function Drain(s: QueueState): seq<seq<QNode>>
    requires s.idlePending
    decreases |s.queue|
  {
    var (r, batch) := IdleStep(s);
    if !r.idlePending then [batch] else [batch] + Drain(r)
  }

  function Flatten(bs: seq<seq<QNode>>): seq<QNode>
  {
    if bs == [] then [] else bs[0] + Flatten(bs[1..])
  }

  /** An uninterrupted drain hands every queued node to `applyNastaleeq`
      exactly once, in FIFO order, in batches of at most 250 of which all
      but the last are full. */
  lemma {:induction false} DrainSpec(s: QueueState)
    requires s.idlePending
    ensures Flatten(Drain(s)) == s.queue
    ensures forall i :: 0 <= i < |Drain(s)| ==> |Drain(s)[i]| <= BatchSize
    ensures forall i :: 0 <= i < |Drain(s)| - 1 ==> |Drain(s)[i]| == BatchSize
    decreases |s.queue|
  {
    var (r, batch) := IdleStep(s);
    var d := Drain(s);
    if !r.idlePending {
      assert d == [batch];
      assert Flatten(d) == batch + Flatten([]);
    } else {
      DrainSpec(r);
      assert d == [batch] + Drain(r);
      assert d[1..] == Drain(r);
      forall i | 0 <= i < |d| ensures |d[i]| <= BatchSize {
        if i > 0 {
          assert d[i] == Drain(r)[i - 1];
        }
      }
      forall i | 0 <= i < |d| - 1 ensures |d[i]| == BatchSize {
        if i > 0 {
          assert d[i] == Drain(r)[i - 1];
        }
      }
    }
  }
}
