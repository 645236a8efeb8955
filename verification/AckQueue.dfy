/** The queue of acknowledgements to metadata servers (AckManager.c). The consumer drops the queue lock
    during each of at most two sends per entry; when both fail it also frees every later entry for the
    same node. */
module AckQueue {
  import opened Basics
  import opened DelayedQueue

  datatype Ack = Ack(node: nat, id: nat)

  /** What the consumer meets while it handles one entry: whether the node is known and the message
      can be serialised, whether each send goes through, and what arrives during each send. */
  datatype AckRound = AckRound(known: bool, serialized: bool,
                               sent1: bool, arrivals1: seq<Ack>, sent2: bool, arrivals2: seq<Ack>)

  datatype Fate = Sent | UnknownNode | NotSerialized | SendFailed

  function FateOf(r: AckRound): Fate {
    if !r.known then UnknownNode
    else if !r.serialized then NotSerialized
    else if r.sent1 || r.sent2 then Sent
    else SendFailed
  }

  function Arriving(r: AckRound): seq<Ack> {
    if !r.known || !r.serialized then [] else if r.sent1 then r.arrivals1 else r.arrivals1 + r.arrivals2
  }

  /** The entries for other nodes among the first `n`, and those for `node`. */
  function WithoutIn(q: seq<Entry<Ack>>, node: nat, n: nat): (r: seq<Entry<Ack>>)
    requires n <= |q|
    ensures |r| <= n
  {
    if n == 0 then [] else
      WithoutIn(q, node, n - 1) + if q[n - 1].op.node == node then [] else [q[n - 1]]
  }

  function OnlyIn(q: seq<Entry<Ack>>, node: nat, n: nat): seq<Entry<Ack>>
    requires n <= |q|
  {
    if n == 0 then [] else
      OnlyIn(q, node, n - 1) + if q[n - 1].op.node == node then [q[n - 1]] else []
  }

  function Without(q: seq<Entry<Ack>>, node: nat): seq<Entry<Ack>> {
    WithoutIn(q, node, |q|)
  }

  function Only(q: seq<Entry<Ack>>, node: nat): seq<Entry<Ack>> {
    OnlyIn(q, node, |q|)
  }

  /** What happened to the entry at the head of the queue, and the entries freed along with it. */
  datatype Log = Log(entry: Entry<Ack>, fate: Fate, dropped: seq<Entry<Ack>>)

  /** The queue behind its head once the sends are over. */
  function Rest(q: seq<Entry<Ack>>, nextKey: nat, r: AckRound): seq<Entry<Ack>>
    requires q != []
  {
    q[1..] + Created(Arriving(r), nextKey)
  }

  function LogOf(q: seq<Entry<Ack>>, nextKey: nat, r: AckRound): Log
    requires q != []
  {
    Log(q[0], FateOf(r), if FateOf(r) == SendFailed then Only(Rest(q, nextKey, r), q[0].op.node) else [])
  }

  function QueueAfter(q: seq<Entry<Ack>>, nextKey: nat, r: AckRound): seq<Entry<Ack>>
    requires q != []
  {
    if FateOf(r) == SendFailed then Without(Rest(q, nextKey, r), q[0].op.node) else Rest(q, nextKey, r)
  }

  /** One entry handled: the queue and key before it, what happened, the queue after it. */
  ghost predicate Handled(q: seq<Entry<Ack>>, nextKey: nat, r: AckRound, l: Log, q': seq<Entry<Ack>>, nextKey': nat) {
    q != [] && l == LogOf(q, nextKey, r) && q' == QueueAfter(q, nextKey, r) && nextKey' == nextKey + |Arriving(r)|
  }

  /** A pass: the queues and keys before each entry and at the end, and a log for each entry. */
  datatype Trace = Trace(queues: seq<seq<Entry<Ack>>>, keys: seq<nat>, logs: seq<Log>) {
    ghost predicate Valid(rounds: seq<AckRound>) {
      && |queues| == |keys| == |logs| + 1 <= |rounds| + 1
      && forall k :: 0 <= k < |logs| ==>
           Handled(queues[k], keys[k], rounds[k], logs[k], queues[k + 1], keys[k + 1])
    }
  }

  function KeysOf(q: seq<Entry<Ack>>): seq<nat> {
    seq(|q|, i requires 0 <= i < |q| => q[i].key)
  }

  lemma KeysOfConcat(a: seq<Entry<Ack>>, b: seq<Entry<Ack>>)
    ensures KeysOf(a + b) == KeysOf(a) + KeysOf(b)
  {
  }

  /** The keys freed in one round: the entries of the node behind the current one, then the current. */
  function FreedBy(l: Log): seq<nat> {
    KeysOf(l.dropped) + [l.entry.key]
  }

  /** All keys freed in the first n rounds of a pass. */
  function FreedKeys(logs: seq<Log>, n: nat): seq<nat>
    requires n <= |logs|
  {
    if n == 0 then [] else FreedKeys(logs, n - 1) + FreedBy(logs[n - 1])
  }

  lemma {:induction false} FreedKeysPrefix(logs: seq<Log>, l: Log, n: nat)
    requires n <= |logs|
    ensures FreedKeys(logs + [l], n) == FreedKeys(logs, n)
  {
    if n > 0 {
      FreedKeysPrefix(logs, l, n - 1);
    }
  }

  lemma HeadRemoved(q: seq<Entry<Ack>>, current: Entry<Ack>, left: seq<Entry<Ack>>)
    requires q == [current] + left
    ensures q[..0] + q[1..] == left
  {
  }

  lemma FreedKeysSnoc(freed0: seq<nat>, logs: seq<Log>, l: Log)
    ensures freed0 + FreedKeys(logs, |logs|) + FreedBy(l) == freed0 + FreedKeys(logs + [l], |logs| + 1)
  {
    FreedKeysPrefix(logs, l, |logs|);
  }

  class AckManager {
    const queue: Queue<Ack>

    constructor ()
      ensures queue.Valid() && queue.entries == [] && fresh(queue)
    {
      queue := new Queue<Ack>();
    }

    method AddAckToQueue(node: nat, id: nat)
      requires queue.Valid()
      modifies queue
      ensures queue.Valid() && queue.entries == old(queue.entries) + [Entry(old(queue.nextKey), Ack(node, id))]
    {
      queue.Add([Ack(node, id)]);
      assert Created([Ack(node, id)], old(queue.nextKey)) == [Entry(old(queue.nextKey), Ack(node, id))];
    }

    /** Free the entry under the iterator if it is for the node, else step over it. */
    method FreeIfNode(node: nat, iter: nat, ghost kept: seq<Entry<Ack>>, ghost pending: seq<Entry<Ack>>)
      returns (freed: seq<Entry<Ack>>, next: Option<nat>)
      requires queue.Valid() && queue.entries == kept + pending
      requires pending != [] && iter == pending[0].key
      modifies queue
      ensures queue.Valid() && queue.nextKey == old(queue.nextKey)
      ensures queue.entries == kept + (if pending[0].op.node == node then [] else [pending[0]]) + pending[1..]
      ensures freed == if pending[0].op.node == node then [pending[0]] else []
      ensures queue.freed == old(queue.freed) + KeysOf(freed)
      ensures next == if pending[1..] == [] then None else Some(pending[1].key)
    {
      var entry := queue.Value(iter, kept, pending);
      next := queue.StepOrRemove(iter, entry.op.node == node, kept, pending);
      freed := if entry.op.node == node then [entry] else [];
    }

    /** Between two steps of removeQueueEntriesByNode: `n` of the entries behind `before` are done. */
    ghost predicate Filtered(before: seq<Entry<Ack>>, all: seq<Entry<Ack>>, node: nat, n: nat, key: nat,
                             freed0: seq<nat>, iter: Option<nat>, dropped: seq<Entry<Ack>>)
      reads this, queue
    {
      && queue.Valid() && queue.nextKey == key && n <= |all|
      && dropped == OnlyIn(all, node, n) && queue.freed == freed0 + KeysOf(dropped)
      && queue.entries == before + WithoutIn(all, node, n) + all[n..]
      && iter == if n == |all| then None else Some(all[n].key)
    }

    method FilterStep(node: nat, iter: nat, ghost before: seq<Entry<Ack>>, ghost all: seq<Entry<Ack>>, ghost n: nat,
                      ghost key: nat, ghost freed0: seq<nat>, dropped: seq<Entry<Ack>>)
      returns (dropped': seq<Entry<Ack>>, next: Option<nat>)
      requires Filtered(before, all, node, n, key, freed0, Some(iter), dropped)
      modifies queue
      ensures n < |all| && Filtered(before, all, node, n + 1, key, freed0, next, dropped')
    {
      assert all[n..][1..] == all[n + 1..];
      var freed;
      freed, next := FreeIfNode(node, iter, before + WithoutIn(all, node, n), all[n..]);
      KeysOfConcat(dropped, freed);
      dropped' := dropped + freed;
    }

    /** removeQueueEntriesByNode: free all entries for the node from the iterator on. */
    method RemoveQueueEntriesByNode(node: nat, start: Option<nat>, ghost pos: nat)
      returns (dropped: seq<Entry<Ack>>)
      requires queue.Valid() && pos <= |queue.entries|
      requires start == if pos == |queue.entries| then None else Some(queue.entries[pos].key)
      modifies queue
      ensures queue.Valid() && queue.nextKey == old(queue.nextKey)
      ensures queue.entries == old(queue.entries)[..pos] + Without(old(queue.entries)[pos..], node)
      ensures dropped == Only(old(queue.entries)[pos..], node)
      ensures queue.freed == old(queue.freed) + KeysOf(dropped)
    {
      dropped := [];
      var iter := start;
      ghost var before, all, key := queue.entries[..pos], queue.entries[pos..], queue.nextKey;
      ghost var n, freed0 := 0, queue.freed;
      while iter.Some?
        invariant n <= |all|
        invariant Filtered(before, all, node, n, key, freed0, iter, dropped)
        decreases |all| - n
      {
        dropped, iter := FilterStep(node, iter.value, before, all, n, key, freed0, dropped);
        n := n + 1;
      }
    }

    /** One entry: look the node up, serialise, send with one retry, and free the entry. */
    method ProcessEntry(iter: nat, r: AckRound) returns (log: Log, next: Option<nat>)
      requires queue.Valid() && queue.entries != [] && iter == queue.entries[0].key
      modifies queue
      ensures queue.Valid() && queue.nextKey == old(queue.nextKey) + |Arriving(r)|
      ensures log == LogOf(old(queue.entries), old(queue.nextKey), r)
      ensures queue.entries == QueueAfter(old(queue.entries), old(queue.nextKey), r)
      ensures queue.freed == old(queue.freed) + FreedBy(log)
      ensures next == if queue.entries == [] then None else Some(queue.entries[0].key)
    {
      ghost var q, key := queue.entries, queue.nextKey;
      var pos := queue.Deref(iter);
      assert pos == 0;
      var current := queue.entries[pos];
      var fate := UnknownNode;
      if r.known {
        fate := NotSerialized;
        if r.serialized {
          fate := Send(r);
        }
      }
      ghost var rest := Rest(q, key, r);
      assert queue.entries == [current] + rest;
      var dropped;
      dropped, next := FreeEntry(iter, current, fate == SendFailed, rest);
      log := Log(current, fate, dropped);
    }

    /** Free the current entry, and before that the following ones of its node if sending failed. */
    method FreeEntry(iter: nat, current: Entry<Ack>, removeAllNextByNode: bool, ghost rest: seq<Entry<Ack>>)
      returns (dropped: seq<Entry<Ack>>, next: Option<nat>)
      requires queue.Valid() && queue.entries == [current] + rest && iter == current.key
      modifies queue
      ensures queue.Valid() && queue.nextKey == old(queue.nextKey)
      ensures queue.entries == if removeAllNextByNode then Without(rest, current.op.node) else rest
      ensures dropped == if removeAllNextByNode then Only(rest, current.op.node) else []
      ensures queue.freed == old(queue.freed) + (KeysOf(dropped) + [iter])
      ensures next == if queue.entries == [] then None else Some(queue.entries[0].key)
    {
      ghost var f := queue.freed;
      dropped := DropFollowing(iter, current, removeAllNextByNode, rest);
      ghost var left := if removeAllNextByNode then Without(rest, current.op.node) else rest;
      next := RemoveHead(iter, current, left);
      assert f + KeysOf(dropped) + [iter] == f + (KeysOf(dropped) + [iter]);
    }

    method RemoveHead(iter: nat, ghost current: Entry<Ack>, ghost left: seq<Entry<Ack>>) returns (next: Option<nat>)
      requires queue.Valid() && queue.entries == [current] + left && iter == current.key
      modifies queue
      ensures queue.Valid() && queue.nextKey == old(queue.nextKey)
      ensures queue.entries == left && queue.freed == old(queue.freed) + [iter]
      ensures next == if left == [] then None else Some(left[0].key)
    {
      HeadRemoved(queue.entries, current, left);
      next := queue.Remove(iter, 0);
    }

    method DropFollowing(iter: nat, current: Entry<Ack>, removeAllNextByNode: bool, ghost rest: seq<Entry<Ack>>)
      returns (dropped: seq<Entry<Ack>>)
      requires queue.Valid() && queue.entries == [current] + rest && iter == current.key
      modifies queue
      ensures queue.Valid() && queue.nextKey == old(queue.nextKey)
      ensures queue.entries == [current] + if removeAllNextByNode then Without(rest, current.op.node) else rest
      ensures dropped == if removeAllNextByNode then Only(rest, current.op.node) else []
      ensures queue.freed == old(queue.freed) + KeysOf(dropped)
    {
      dropped := [];
      assert queue.entries[1..] == rest && queue.entries[..1] == [current];
      if removeAllNextByNode {
        var iterNext := queue.Next(iter, 0);
        dropped := RemoveQueueEntriesByNode(current.op.node, iterNext, 1);
      }
    }

    /** The send loop: at most one retry, with the lock dropped during each attempt. */
    method Send(r: AckRound) returns (fate: Fate)
      requires queue.Valid() && r.known && r.serialized
      modifies queue
      ensures queue.Valid() && queue.nextKey == old(queue.nextKey) + |Arriving(r)|
      ensures queue.entries == old(queue.entries) + Created(Arriving(r), old(queue.nextKey))
      ensures queue.freed == old(queue.freed)
      ensures fate == FateOf(r)
    {
      var removeAllNextByNode := false;
      queue.Add(r.arrivals1);
      if r.sent1 {
        return Sent;
      }
      removeAllNextByNode := true;
      queue.Add(r.arrivals2);
      if r.sent2 {
        removeAllNextByNode := false;
      }
      fate := if removeAllNextByNode then SendFailed else Sent;
    }

    ghost predicate InPass(rounds: seq<AckRound>, n: nat, q0: seq<Entry<Ack>>, key0: nat, freed0: seq<nat>,
                           logs: seq<Log>, trace: Trace, iter: Option<nat>)
      reads this, queue
    {
      && queue.Valid()
      && iter == (if queue.entries == [] then None else Some(queue.entries[0].key))
      && Passed(rounds, n, q0, key0, freed0, logs, trace, queue.entries, queue.nextKey, queue.freed)
    }

    method PassStep(rounds: seq<AckRound>, n: nat, ghost q0: seq<Entry<Ack>>, ghost key0: nat, ghost freed0: seq<nat>,
                    logs: seq<Log>, ghost trace: Trace, iter: nat)
      returns (logs': seq<Log>, ghost trace': Trace, next: Option<nat>)
      requires n < |rounds| && InPass(rounds, n, q0, key0, freed0, logs, trace, Some(iter))
      modifies queue
      ensures InPass(rounds, n + 1, q0, key0, freed0, logs', trace', next)
    {
      ghost var q, key, f := queue.entries, queue.nextKey, queue.freed;
      var log;
      log, next := ProcessEntry(iter, rounds[n]);
      logs' := logs + [log];
      trace' := Trace(trace.queues + [queue.entries], trace.keys + [queue.nextKey], logs');
      PassedStep(rounds, n, q0, key0, freed0, logs, trace, q, key, f, log, queue.entries, queue.nextKey, queue.freed);
    }

    /** processAckQueue: entries are handled from the head on until the queue is empty or the thread
        is told to terminate, which the end of `rounds` stands for. What is freed is exactly what the logs
        name, and since the queue stays valid, none of it was freed before. */
    method ProcessAckQueue(rounds: seq<AckRound>) returns (logs: seq<Log>, ghost trace: Trace)
      requires queue.Valid()
      modifies queue
      ensures queue.Valid()
      ensures trace.Valid(rounds) && trace.logs == logs
      ensures trace.queues[0] == old(queue.entries) && trace.keys[0] == old(queue.nextKey)
      ensures trace.queues[|logs|] == queue.entries && trace.keys[|logs|] == queue.nextKey
      ensures |logs| == |rounds| || queue.entries == []
      ensures queue.freed == old(queue.freed) + FreedKeys(logs, |logs|)
    {
      logs := [];
      var iter := if queue.entries == [] then None else Some(queue.entries[0].key);
      var n := 0;
      trace := Trace([queue.entries], [queue.nextKey], []);
      ghost var q0, key0, freed0 := queue.entries, queue.nextKey, queue.freed;
      assert Passed(rounds, 0, q0, key0, freed0, logs, trace, q0, key0, freed0);
      while iter.Some? && n < |rounds|
        invariant InPass(rounds, n, q0, key0, freed0, logs, trace, iter)
        decreases |rounds| - n
      {
        logs, trace, iter := PassStep(rounds, n, q0, key0, freed0, logs, trace, iter.value);
        n := n + 1;
      }
    }
  }

  /** Where a pass stands after n entries. */
  ghost predicate Passed(rounds: seq<AckRound>, n: nat, q0: seq<Entry<Ack>>, key0: nat, freed0: seq<nat>,
                         logs: seq<Log>, trace: Trace, entries: seq<Entry<Ack>>, nextKey: nat, freed: seq<nat>)
  {
    && |logs| == n <= |rounds| && trace.logs == logs && trace.Valid(rounds)
    && trace.queues[0] == q0 && trace.keys[0] == key0
    && trace.queues[n] == entries && trace.keys[n] == nextKey
    && freed == freed0 + FreedKeys(logs, n)
  }

  lemma PassedStep(rounds: seq<AckRound>, n: nat, q0: seq<Entry<Ack>>, key0: nat, freed0: seq<nat>, logs: seq<Log>,
                   trace: Trace, q: seq<Entry<Ack>>, key: nat, f: seq<nat>,
                   log: Log, q': seq<Entry<Ack>>, key': nat, f': seq<nat>)
    requires n < |rounds| && Passed(rounds, n, q0, key0, freed0, logs, trace, q, key, f)
    requires Handled(q, key, rounds[n], log, q', key') && f' == f + FreedBy(log)
    ensures Passed(rounds, n + 1, q0, key0, freed0, logs + [log],
                   Trace(trace.queues + [q'], trace.keys + [key'], logs + [log]), q', key', f')
  {
    ExtendTrace(trace, rounds, q, key, log, q', key');
    FreedKeysSnoc(freed0, logs, log);
  }

  lemma ExtendTrace(t: Trace, rounds: seq<AckRound>, q: seq<Entry<Ack>>, key: nat, l: Log,
                    q': seq<Entry<Ack>>, key': nat)
    requires t.Valid(rounds) && |t.logs| < |rounds|
    requires t.queues[|t.logs|] == q && t.keys[|t.logs|] == key
    requires Handled(q, key, rounds[|t.logs|], l, q', key')
    ensures Trace(t.queues + [q'], t.keys + [key'], t.logs + [l]).Valid(rounds)
  {
  }

  // ---- what every pass guarantees ----

  lemma {:induction false} OnlyThatNode(q: seq<Entry<Ack>>, node: nat, n: nat)
    requires n <= |q|
    ensures forall i :: 0 <= i < |OnlyIn(q, node, n)| ==> OnlyIn(q, node, n)[i].op.node == node
  {
    if n > 0 {
      OnlyThatNode(q, node, n - 1);
    }
  }

  /** An ack leaves the queue unsent only if its node is unknown, it cannot be serialised, or two sends
      to its node failed; in the last case the acks freed along with it are for the same node. */
  lemma DropsAreJustified(t: Trace, rounds: seq<AckRound>, k: nat)
    requires t.Valid(rounds) && k < |t.logs|
    ensures t.logs[k].fate == Sent <==>
      rounds[k].known && rounds[k].serialized && (rounds[k].sent1 || rounds[k].sent2)
    ensures t.logs[k].dropped != [] ==>
      rounds[k].known && rounds[k].serialized && !rounds[k].sent1 && !rounds[k].sent2
    ensures forall i :: 0 <= i < |t.logs[k].dropped| ==>
      t.logs[k].dropped[i].op.node == t.logs[k].entry.op.node
  {
    var q, key, r := t.queues[k], t.keys[k], rounds[k];
    assert Handled(q, key, r, t.logs[k], t.queues[k + 1], t.keys[k + 1]);
    OnlyThatNode(Rest(q, key, r), q[0].op.node, |Rest(q, key, r)|);
  }

  lemma {:induction false} FilterMembers(q: seq<Entry<Ack>>, node: nat, n: nat, e: Entry<Ack>)
    requires n <= |q|
    ensures e in WithoutIn(q, node, n) <==> e in q[..n] && e.op.node != node
    ensures e in OnlyIn(q, node, n) <==> e in q[..n] && e.op.node == node
  {
    if n > 0 {
      FilterMembers(q, node, n - 1, e);
      assert q[..n] == q[..n - 1] + [q[n - 1]];
    }
  }

  /** After two failed sends, no ack for that node is left in the queue, not even one that arrived during
      the sends; otherwise only the handled one is gone. */
  lemma FailedNodeIsGone(t: Trace, rounds: seq<AckRound>, k: nat, e: Entry<Ack>)
    requires t.Valid(rounds) && k < |t.logs| && e in t.queues[k + 1]
    ensures t.logs[k].fate == SendFailed ==> e.op.node != t.logs[k].entry.op.node
    ensures t.logs[k].fate != SendFailed ==> t.logs[k].dropped == []
  {
    var q, key, r := t.queues[k], t.keys[k], rounds[k];
    assert Handled(q, key, r, t.logs[k], t.queues[k + 1], t.keys[k + 1]);
    FilterMembers(Rest(q, key, r), q[0].op.node, |Rest(q, key, r)|, e);
  }

  /** What arrives during the sends that take place is queued. */
  lemma ArrivalsAreQueued(r: AckRound)
    requires r.known && r.serialized
    ensures r.arrivals1 <= Arriving(r)
    ensures !r.sent1 ==> Arriving(r) == r.arrivals1 + r.arrivals2
    ensures r.sent1 ==> |Arriving(r)| == |r.arrivals1|
  {
  }

  /** The entry is freed in round `k` of a pass. */
  predicate FreedIn(l: Log, e: Entry<Ack>) {
    e == l.entry || e in l.dropped
  }

  /** Nothing is lost: what is queued or arrives is afterwards still queued or was freed. */
  lemma RoundAccounts(t: Trace, rounds: seq<AckRound>, k: nat, e: Entry<Ack>)
    requires t.Valid(rounds) && k < |t.logs|
    ensures e in t.queues[k] || e in Created(Arriving(rounds[k]), t.keys[k]) <==>
      e in t.queues[k + 1] || FreedIn(t.logs[k], e)
  {
    var q, key, r := t.queues[k], t.keys[k], rounds[k];
    assert Handled(q, key, r, t.logs[k], t.queues[k + 1], t.keys[k + 1]);
    var rest := Rest(q, key, r);
    FilterMembers(rest, q[0].op.node, |rest|, e);
    assert rest[..|rest|] == rest;
    assert q == [q[0]] + q[1..];
  }

  /** Keys ascend and lie below the next key to be given out. */
  ghost predicate WellKeyed(q: seq<Entry<Ack>>, nextKey: nat) {
    Ascending(q) && forall i :: 0 <= i < |q| ==> q[i].key < nextKey
  }

  lemma {:induction false} QueuesWellKeyed(t: Trace, rounds: seq<AckRound>, k: nat)
    requires t.Valid(rounds) && k <= |t.logs| && WellKeyed(t.queues[0], t.keys[0])
    ensures WellKeyed(t.queues[k], t.keys[k])
  {
    if k > 0 {
      QueuesWellKeyed(t, rounds, k - 1);
      var q, key, r := t.queues[k - 1], t.keys[k - 1], rounds[k - 1];
      assert Handled(q, key, r, t.logs[k - 1], t.queues[k], t.keys[k]);
      var rest := Rest(q, key, r);
      assert WellKeyed(rest, t.keys[k]);
      FilterKeepsOrder(rest, q[0].op.node, |rest|);
      FilterBelow(rest, q[0].op.node, |rest|, t.keys[k]);
    }
  }

  /** A freed entry is gone from the queue. */
  lemma FreedIsGone(t: Trace, rounds: seq<AckRound>, k: nat, e: Entry<Ack>)
    requires t.Valid(rounds) && k < |t.logs| && WellKeyed(t.queues[0], t.keys[0])
    requires FreedIn(t.logs[k], e)
    ensures e !in t.queues[k + 1] && e.key < t.keys[k + 1]
  {
    QueuesWellKeyed(t, rounds, k);
    var q, key, r := t.queues[k], t.keys[k], rounds[k];
    assert Handled(q, key, r, t.logs[k], t.queues[k + 1], t.keys[k + 1]);
    var rest := Rest(q, key, r);
    assert WellKeyed(rest, t.keys[k + 1]);
    FilterMembers(rest, q[0].op.node, |rest|, e);
    assert rest[..|rest|] == rest;
    assert forall i :: 0 <= i < |rest| ==> q[0].key < rest[i].key;
  }

  lemma GoneStep(t: Trace, rounds: seq<AckRound>, k: nat, e: Entry<Ack>)
    requires t.Valid(rounds) && k < |t.logs|
    requires e !in t.queues[k] && e.key < t.keys[k]
    ensures e !in t.queues[k + 1] && e.key < t.keys[k + 1]
  {
    RoundAccounts(t, rounds, k, e);
    assert Handled(t.queues[k], t.keys[k], rounds[k], t.logs[k], t.queues[k + 1], t.keys[k + 1]);
    assert e !in Created(Arriving(rounds[k]), t.keys[k]);
  }

  lemma {:induction false} GoneStaysGone(t: Trace, rounds: seq<AckRound>, k: nat, j: nat, e: Entry<Ack>)
    requires t.Valid(rounds) && k <= j <= |t.logs|
    requires e !in t.queues[k] && e.key < t.keys[k]
    ensures e !in t.queues[j] && e.key < t.keys[j]
  {
    if k < j {
      GoneStaysGone(t, rounds, k, j - 1, e);
      GoneStep(t, rounds, j - 1, e);
    }
  }

  lemma {:induction false} OnlyAscends(q: seq<Entry<Ack>>, node: nat, n: nat, low: nat)
    requires n <= |q| && Ascending(q) && forall i :: 0 <= i < n ==> low < q[i].key
    ensures Ascending(OnlyIn(q, node, n))
    ensures forall i :: 0 <= i < |OnlyIn(q, node, n)| ==> low < OnlyIn(q, node, n)[i].key
    ensures forall i :: 0 <= i < |OnlyIn(q, node, n)| && n < |q| ==> OnlyIn(q, node, n)[i].key < q[n].key
  {
    if n > 0 {
      OnlyAscends(q, node, n - 1, low);
    }
  }

  /** Within one round, too, no entry is freed twice. */
  lemma RoundFreesOnce(t: Trace, rounds: seq<AckRound>, k: nat, i: nat, j: nat)
    requires t.Valid(rounds) && k < |t.logs| && WellKeyed(t.queues[0], t.keys[0])
    requires i < j < |FreedBy(t.logs[k])|
    ensures FreedBy(t.logs[k])[i] != FreedBy(t.logs[k])[j]
  {
    QueuesWellKeyed(t, rounds, k);
    var q, key, r := t.queues[k], t.keys[k], rounds[k];
    assert Handled(q, key, r, t.logs[k], t.queues[k + 1], t.keys[k + 1]);
    var rest := Rest(q, key, r);
    RestBehindHead(q, key, r);
    OnlyAscends(rest, q[0].op.node, |rest|, q[0].key);
  }

  lemma RestBehindHead(q: seq<Entry<Ack>>, key: nat, r: AckRound)
    requires q != [] && WellKeyed(q, key)
    ensures Ascending(Rest(q, key, r)) && forall i :: 0 <= i < |Rest(q, key, r)| ==> q[0].key < Rest(q, key, r)[i].key
  {
  }

  /** Over a whole pass no entry is freed in two rounds. */
  lemma FreedOnceOnly(t: Trace, rounds: seq<AckRound>, k: nat, j: nat, e: Entry<Ack>)
    requires t.Valid(rounds) && k < j < |t.logs| && WellKeyed(t.queues[0], t.keys[0])
    requires FreedIn(t.logs[k], e)
    ensures !FreedIn(t.logs[j], e)
  {
    FreedIsGone(t, rounds, k, e);
    GoneStaysGone(t, rounds, k + 1, j, e);
    RoundAccounts(t, rounds, j, e);
  }

  lemma {:induction false} FilterBelow(q: seq<Entry<Ack>>, node: nat, n: nat, bound: nat)
    requires n <= |q| && forall i :: 0 <= i < n ==> q[i].key < bound
    ensures forall i :: 0 <= i < |WithoutIn(q, node, n)| ==> WithoutIn(q, node, n)[i].key < bound
  {
    if n > 0 {
      FilterBelow(q, node, n - 1, bound);
    }
  }

  /** Freeing the acks of a node leaves the others in their order. */
  lemma {:induction false} FilterKeepsOrder(q: seq<Entry<Ack>>, node: nat, n: nat)
    requires n <= |q| && Ascending(q)
    ensures Ascending(WithoutIn(q, node, n))
  {
    if n > 0 {
      FilterKeepsOrder(q, node, n - 1);
      FilterBelow(q, node, n - 1, q[n - 1].key);
    }
  }
}
