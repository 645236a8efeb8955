/** The queues of operations to be retried after a communication error (InternodeSyncer.c): delayed
    closes, entry unlocks and range unlocks all work the same way. The consumer drops the queue lock
    during each remote call, and producers append entries meanwhile. An iterator is a pointer to a
    list element, modelled by the element's key; following it requires the element to be alive. */
module DelayedQueue {
  import opened Basics

  datatype Entry<T> = Entry(key: nat, op: T)

  /** One turn of the consumer: the answer to its remote call, and what producers append while the
      lock is dropped. */
  datatype Round<T> = Round(result: int, arrivals: seq<T>)

  /** Keys grow along the queue, since entries are only appended. */
  ghost predicate Ascending<T>(q: seq<Entry<T>>) {
    forall i, j :: 0 <= i < j < |q| ==> q[i].key < q[j].key
  }

  ghost predicate HasKey<T>(q: seq<Entry<T>>, key: nat) {
    exists i :: 0 <= i < |q| && q[i].key == key
  }

  /** Entries as they are created for newly arriving operations. */
  function Created<T>(ops: seq<T>, firstKey: nat): (r: seq<Entry<T>>)
    ensures |r| == |ops|
    ensures forall i :: 0 <= i < |r| ==> r[i] == Entry(firstKey + i, ops[i])
  {
    seq(|ops|, i requires 0 <= i < |ops| => Entry(firstKey + i, ops[i]))
  }

  /** The operations that arrive during the first `n` rounds. */
  function Arrived<T>(rounds: seq<Round<T>>, n: nat): seq<T>
    requires n <= |rounds|
  {
    if n == 0 then [] else Arrived(rounds, n - 1) + rounds[n - 1].arrivals
  }

  /** All entries of a pass, in the order in which they enter the queue. */
  function All<T>(q: seq<Entry<T>>, nextKey: nat, rounds: seq<Round<T>>): seq<Entry<T>> {
    q + Created(Arrived(rounds, |rounds|), nextKey)
  }

  /** Of the first `n` entries attempted, those that stay: answered with a communication error. */
  function Kept<T>(all: seq<Entry<T>>, rounds: seq<Round<T>>, n: nat): (r: seq<Entry<T>>)
    requires n <= |all| && n <= |rounds|
    ensures |r| <= n
  {
    if n == 0 then [] else
      Kept(all, rounds, n - 1) + if rounds[n - 1].result == COMMUNICATION then [all[n - 1]] else []
  }

  /** The keys of those that leave: answered with anything else. */
  function Left<T>(all: seq<Entry<T>>, rounds: seq<Round<T>>, n: nat): seq<nat>
    requires n <= |all| && n <= |rounds|
  {
    if n == 0 then [] else
      Left(all, rounds, n - 1) + if rounds[n - 1].result == COMMUNICATION then [] else [all[n - 1].key]
  }

  /** No entry was freed twice, and no freed entry is queued or will come again. */
  ghost predicate Accounted<T>(q: seq<Entry<T>>, freed: seq<nat>, nextKey: nat) {
    && (forall i, j :: 0 <= i < j < |freed| ==> freed[i] != freed[j])
    && (forall i :: 0 <= i < |freed| ==> freed[i] < nextKey && !HasKey(q, freed[i]))
  }

  lemma AddAccounted<T>(q: seq<Entry<T>>, freed: seq<nat>, nextKey: nat, ops: seq<T>)
    requires Accounted(q, freed, nextKey)
    ensures Accounted(q + Created(ops, nextKey), freed, nextKey + |ops|)
  {
    var r := q + Created(ops, nextKey);
    forall i, j | 0 <= i < |freed| && 0 <= j < |r| ensures r[j].key != freed[i] {
      assert !HasKey(q, freed[i]);
    }
  }

  lemma RemoveAccounted<T>(q: seq<Entry<T>>, freed: seq<nat>, nextKey: nat, pos: nat)
    requires Accounted(q, freed, nextKey) && Ascending(q) && pos < |q| && q[pos].key < nextKey
    ensures Accounted(q[..pos] + q[pos + 1..], freed + [q[pos].key], nextKey)
  {
    var r, all := q[..pos] + q[pos + 1..], freed + [q[pos].key];
    forall i, j | 0 <= i < |all| && 0 <= j < |r| ensures r[j].key != all[i] {
      assert r[j] == q[if j < pos then j else j + 1];
      assert i < |freed| ==> !HasKey(q, freed[i]);
    }
    assert HasKey(q, q[pos].key);
  }

  class Queue<T> {
    var entries: seq<Entry<T>>
    var nextKey: nat
    var freed: seq<nat>         // keys of the entries that were removed and freed

    ghost predicate Valid()
      reads this
    {
      && Ascending(entries)
      && (forall i :: 0 <= i < |entries| ==> entries[i].key < nextKey)
      && Accounted(entries, freed, nextKey)
    }

    constructor ()
      ensures Valid() && entries == [] && freed == []
    {
      entries, nextKey, freed := [], 0, [];
    }

    /** A producer appends its operations. */
    method Add(ops: seq<T>)
      requires Valid()
      modifies this`entries, this`nextKey
      ensures Valid()
      ensures entries == old(entries) + Created(ops, old(nextKey))
      ensures nextKey == old(nextKey) + |ops|
    {
      AddAccounted(entries, freed, nextKey, ops);
      entries := entries + Created(ops, nextKey);
      nextKey := nextKey + |ops|;
    }

    /** Follow an iterator: the place of a live element. */
    method Deref(iter: nat) returns (pos: nat)
      requires Valid() && HasKey(entries, iter)
      ensures pos < |entries| && entries[pos].key == iter
    {
      pos := 0;
      while entries[pos].key != iter
        invariant pos < |entries|
        invariant forall i :: 0 <= i < pos ==> entries[i].key != iter
        decreases |entries| - pos
      {
        pos := pos + 1;
      }
    }

    method Next(iter: nat, ghost pos: nat) returns (next: Option<nat>)
      requires Valid() && pos < |entries| && entries[pos].key == iter
      ensures next == if pos + 1 < |entries| then Some(entries[pos + 1].key) else None
    {
      var p := Deref(iter);
      assert p == pos;
      next := if p + 1 < |entries| then Some(entries[p + 1].key) else None;
    }

    /** Free the entry, unlink its element, and return an iterator to the element behind it. The entry
        was never freed before. */
    method Remove(iter: nat, ghost pos: nat) returns (next: Option<nat>)
      requires Valid() && pos < |entries| && entries[pos].key == iter
      modifies this`entries, this`freed
      ensures Valid()
      ensures entries == old(entries)[..pos] + old(entries)[pos + 1..]
      ensures freed == old(freed) + [iter] && iter !in old(freed)
      ensures next == if pos < |entries| then Some(entries[pos].key) else None
    {
      var p := Deref(iter);
      assert p == pos;
      next := Next(iter, pos);
      RemoveAccounted(entries, freed, nextKey, p);
      entries := entries[..p] + entries[p + 1..];
      freed := freed + [iter];
    }

    method Value(iter: nat, ghost kept: seq<Entry<T>>, ghost pending: seq<Entry<T>>) returns (current: Entry<T>)
      requires Valid() && entries == kept + pending
      requires pending != [] && iter == pending[0].key
      ensures current == pending[0]
    {
      assert entries[|kept|] == pending[0];
      var pos := Deref(iter);
      assert pos == |kept|;
      current := entries[pos];
    }

    /** Step over the entry under the iterator, or remove it. `kept` and `pending` are the entries in
        front of the iterator and from it on. */
    method StepOrRemove(iter: nat, remove: bool, ghost kept: seq<Entry<T>>, ghost pending: seq<Entry<T>>)
      returns (next: Option<nat>)
      requires Valid() && entries == kept + pending
      requires pending != [] && iter == pending[0].key
      modifies this`entries, this`freed
      ensures Valid()
      ensures entries == kept + (if remove then [] else [pending[0]]) + pending[1..]
      ensures next == if pending[1..] == [] then None else Some(pending[1].key)
      ensures freed == old(freed) + if remove then [iter] else []
    {
      assert entries[|kept|] == pending[0];
      if remove {
        next := Remove(iter, |kept|);
        assert entries == kept + pending[1..];
      } else {
        next := Next(iter, |kept|);
        assert entries == kept + [pending[0]] + pending[1..];
      }
    }

    /** One turn: make the remote call for the entry under the iterator, with the lock dropped, and
        then step over the entry or remove it. */
    method Turn(iter: nat, round: Round<T>, ghost kept: seq<Entry<T>>, ghost pending: seq<Entry<T>>)
      returns (current: Entry<T>, next: Option<nat>)
      requires Valid() && entries == kept + pending
      requires pending != [] && iter == pending[0].key
      modifies this
      ensures Valid()
      ensures current == pending[0]
      ensures nextKey == old(nextKey) + |round.arrivals|
      ensures var rest := pending[1..] + Created(round.arrivals, old(nextKey));
        && entries == kept + (if round.result == COMMUNICATION then [current] else []) + rest
        && next == (if rest == [] then None else Some(rest[0].key))
      ensures freed == old(freed) + if round.result == COMMUNICATION then [] else [current.key]
    {
      current := Value(iter, kept, pending);
      ghost var more := Created(round.arrivals, nextKey);
      Add(round.arrivals);
      assert entries == kept + (pending + more);
      assert (pending + more)[1..] == pending[1..] + more;
      next := StepOrRemove(iter, round.result != COMMUNICATION, kept, pending + more);
    }

    /** The consumer has attempted the first `n` entries of a pass that began with `len0` entries, and
        the iterator denotes the next one or the end. */
    ghost predicate At(all: seq<Entry<T>>, rounds: seq<Round<T>>, n: nat, len0: nat, key0: nat, freed0: seq<nat>,
                       iter: Option<nat>)
      reads this
    {
      Valid() && Reached(all, rounds, n, len0, key0, freed0, iter, entries, nextKey, freed)
    }

    method PassTurn(iter: nat, rounds: seq<Round<T>>, n: nat, ghost all: seq<Entry<T>>, ghost len0: nat,
                    ghost key0: nat, ghost freed0: seq<nat>)
      returns (next: Option<nat>)
      requires n < |rounds| && At(all, rounds, n, len0, key0, freed0, Some(iter))
      requires RoundFits(all, len0, key0, rounds, n)
      modifies this
      ensures At(all, rounds, n + 1, len0, key0, freed0, next)
    {
      ghost var len := len0 + |Arrived(rounds, n)|;
      ghost var e, f := entries, freed;
      var current;
      current, next := Turn(iter, rounds[n], Kept(all, rounds, n), all[n..len]);
      ReachedStep(all, rounds, n, len0, key0, freed0, iter, e, f, next, entries, nextKey, freed);
    }

    /** One pass of the consumer, cut short when the thread is told to terminate, which the end of
        `rounds` stands for. The first `n` entries are attempted once each, in queue order, including
        entries that arrive during the pass; an entry leaves only after an answer other than a
        communication error; the others keep their order. */
    method Process(rounds: seq<Round<T>>) returns (n: nat)
      requires Valid()
      modifies this
      ensures Valid()
      ensures n <= |rounds|
      ensures var all, len := All(old(entries), old(nextKey), rounds), |old(entries)| + |Arrived(rounds, n)|;
        && n <= len <= |all|
        && (n == |rounds| || n == len)
        && entries == Kept(all, rounds, n) + all[n..len]
        && freed == old(freed) + Left(all, rounds, n)
        && Ascending(all)
    {
      ghost var all := All(entries, nextKey, rounds);
      AllAscends(entries, nextKey, rounds);
      forall k | 0 <= k < |rounds| ensures RoundFits(all, |entries|, nextKey, rounds, k) {
        ArrivalsInAll(entries, nextKey, rounds, k);
      }
      assert entries == all[0..|entries|];
      var iter;
      n, iter := ProcessLoop(rounds, all);
    }

    method ProcessLoop(rounds: seq<Round<T>>, ghost all: seq<Entry<T>>) returns (n: nat, iter: Option<nat>)
      requires Valid() && |entries| <= |all| && entries == all[0..|entries|]
      requires forall k :: 0 <= k < |rounds| ==> RoundFits(all, |entries|, nextKey, rounds, k)
      modifies this
      ensures n <= |rounds| && (n == |rounds| || iter.None?)
      ensures At(all, rounds, n, |old(entries)|, old(nextKey), old(freed), iter)
    {
      ghost var len0, key0, freed0 := |entries|, nextKey, freed;
      iter := if entries == [] then None else Some(entries[0].key);
      n := 0;
      while iter.Some? && n < |rounds|
        invariant n <= |rounds|
        invariant At(all, rounds, n, len0, key0, freed0, iter)
        decreases |rounds| - n
      {
        iter := PassTurn(iter.value, rounds, n, all, len0, key0, freed0);
        n := n + 1;
      }
    }
  }

  /** The entries created in round `k` have their place in the overall order. */
  ghost predicate RoundFits<T>(all: seq<Entry<T>>, len0: nat, key0: nat, rounds: seq<Round<T>>, k: nat)
    requires k < |rounds|
  {
    var len := len0 + |Arrived(rounds, k)|;
    && len + |rounds[k].arrivals| <= |all|
    && all[len..len + |rounds[k].arrivals|] == Created(rounds[k].arrivals, key0 + |Arrived(rounds, k)|)
  }

  ghost predicate Reached<T>(all: seq<Entry<T>>, rounds: seq<Round<T>>, n: nat, len0: nat, key0: nat,
                             freed0: seq<nat>, iter: Option<nat>, entries: seq<Entry<T>>, nextKey: nat, freed: seq<nat>)
  {
    && n <= |rounds| && n <= len0 + |Arrived(rounds, n)| <= |all|
    && nextKey == key0 + |Arrived(rounds, n)|
    && entries == Kept(all, rounds, n) + all[n..len0 + |Arrived(rounds, n)|]
    && iter == (if n == len0 + |Arrived(rounds, n)| then None else Some(all[n].key))
    && freed == freed0 + Left(all, rounds, n)
  }

  lemma ReachedStep<T>(all: seq<Entry<T>>, rounds: seq<Round<T>>, n: nat, len0: nat, key0: nat, freed0: seq<nat>,
                       iter: nat, e: seq<Entry<T>>, f: seq<nat>,
                       next: Option<nat>, e': seq<Entry<T>>, key': nat, f': seq<nat>)
    requires n < |rounds| && RoundFits(all, len0, key0, rounds, n)
    requires Reached(all, rounds, n, len0, key0, freed0, Some(iter), e, key0 + |Arrived(rounds, n)|, f)
    requires var rest := all[n..len0 + |Arrived(rounds, n)|][1..]
                + Created(rounds[n].arrivals, key0 + |Arrived(rounds, n)|);
      && e' == Kept(all, rounds, n) + (if rounds[n].result == COMMUNICATION then [all[n]] else []) + rest
      && next == (if rest == [] then None else Some(rest[0].key))
    requires key' == key0 + |Arrived(rounds, n)| + |rounds[n].arrivals|
    requires f' == f + if rounds[n].result == COMMUNICATION then [] else [all[n].key]
    ensures Reached(all, rounds, n + 1, len0, key0, freed0, next, e', key', f')
  {
    RestOfPass(all, len0, key0, rounds, n);
    var kept := if rounds[n].result == COMMUNICATION then [all[n]] else [];
    var left := if rounds[n].result == COMMUNICATION then [] else [all[n].key];
    assert Kept(all, rounds, n + 1) == Kept(all, rounds, n) + kept;
    assert Left(all, rounds, n + 1) == Left(all, rounds, n) + left;
    assert freed0 + Left(all, rounds, n) + left == freed0 + (Left(all, rounds, n) + left);
  }

  /** What is behind the attempted entry after its round: the entries pending before and the arrivals. */
  lemma RestOfPass<T>(all: seq<Entry<T>>, len0: nat, key0: nat, rounds: seq<Round<T>>, n: nat)
    requires n < |rounds| && n < len0 + |Arrived(rounds, n)| <= |all| && RoundFits(all, len0, key0, rounds, n)
    ensures var len, len' := len0 + |Arrived(rounds, n)|, len0 + |Arrived(rounds, n + 1)|;
      && n < len' <= |all|
      && all[n..len][1..] + Created(rounds[n].arrivals, key0 + |Arrived(rounds, n)|) == all[n + 1..len']
      && (n + 1 < len' ==> all[n + 1..len'][0] == all[n + 1])
  {
    var len, len' := len0 + |Arrived(rounds, n)|, len0 + |Arrived(rounds, n + 1)|;
    assert all[n..len][1..] + all[len..len'] == all[n + 1..len'];
  }

  lemma {:induction false} ArrivedPrefix<T>(rounds: seq<Round<T>>, n: nat, m: nat)
    requires n <= m <= |rounds|
    ensures |Arrived(rounds, n)| <= |Arrived(rounds, m)|
    ensures Arrived(rounds, m)[..|Arrived(rounds, n)|] == Arrived(rounds, n)
  {
    if n < m {
      ArrivedPrefix(rounds, n, m - 1);
    }
  }

  lemma ArrivalsInAll<T>(q: seq<Entry<T>>, nextKey: nat, rounds: seq<Round<T>>, n: nat)
    requires n < |rounds|
    ensures RoundFits(All(q, nextKey, rounds), |q|, nextKey, rounds, n)
  {
    var all, len := All(q, nextKey, rounds), |q| + |Arrived(rounds, n)|;
    ArrivedPrefix(rounds, n + 1, |rounds|);
    var l, r := all[len..len + |rounds[n].arrivals|], Created(rounds[n].arrivals, nextKey + |Arrived(rounds, n)|);
    forall i | 0 <= i < |l| ensures l[i] == r[i] {
      ArrivalAt(q, nextKey, rounds, n, i);
    }
  }

  lemma ArrivalAt<T>(q: seq<Entry<T>>, nextKey: nat, rounds: seq<Round<T>>, n: nat, i: nat)
    requires n < |rounds| && i < |rounds[n].arrivals|
    requires |q| + |Arrived(rounds, n)| + i < |All(q, nextKey, rounds)|
    ensures All(q, nextKey, rounds)[|q| + |Arrived(rounds, n)| + i]
      == Entry(nextKey + |Arrived(rounds, n)| + i, rounds[n].arrivals[i])
  {
    var k := |Arrived(rounds, n)| + i;
    ArrivedPrefix(rounds, n + 1, |rounds|);
    assert Arrived(rounds, |rounds|)[k] == Arrived(rounds, n + 1)[k];
  }

  /** Keys grow along all entries of a pass. */
  lemma AllAscends<T>(q: seq<Entry<T>>, nextKey: nat, rounds: seq<Round<T>>)
    requires Ascending(q) && forall i :: 0 <= i < |q| ==> q[i].key < nextKey
    ensures Ascending(All(q, nextKey, rounds))
  {
  }

  lemma {:induction false} KeysBelow<T>(all: seq<Entry<T>>, rounds: seq<Round<T>>, n: nat, bound: nat)
    requires n <= |all| && n <= |rounds|
    requires forall i :: 0 <= i < n ==> all[i].key < bound
    ensures forall i :: 0 <= i < |Kept(all, rounds, n)| ==> Kept(all, rounds, n)[i].key < bound
    ensures forall k :: k in Left(all, rounds, n) ==> k < bound
  {
    if n > 0 {
      KeysBelow(all, rounds, n - 1, bound);
    }
  }

  /** The entries that stay keep their order. */
  lemma {:induction false} KeptAscends<T>(all: seq<Entry<T>>, rounds: seq<Round<T>>, n: nat)
    requires n <= |all| && n <= |rounds| && Ascending(all)
    ensures Ascending(Kept(all, rounds, n))
  {
    if n > 0 {
      KeptAscends(all, rounds, n - 1);
      KeysBelow(all, rounds, n - 1, all[n - 1].key);
    }
  }

  /** An attempted entry stays exactly if its answer was a communication error and leaves exactly if
      it was not. */
  lemma {:induction false} StaysIff<T>(all: seq<Entry<T>>, rounds: seq<Round<T>>, n: nat, i: nat)
    requires n <= |all| && n <= |rounds| && Ascending(all) && i < n
    ensures all[i] in Kept(all, rounds, n) <==> rounds[i].result == COMMUNICATION
    ensures all[i].key in Left(all, rounds, n) <==> rounds[i].result != COMMUNICATION
  {
    if i < n - 1 {
      StaysIff(all, rounds, n - 1, i);
    } else {
      KeysBelow(all, rounds, n - 1, all[i].key);
    }
  }
}
