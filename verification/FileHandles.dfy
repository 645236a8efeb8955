/** Reference-counted server file handles of an inode (FhgfsInode.c) and what becomes of each handle
    opened at the metadata server: it is referenced, waits for a delayed close, was closed, or was
    given up without an answer. */
module FileHandles {
  import opened Basics

  const ACCESS_READ := 1
  const ACCESS_WRITE := 2
  const ACCESS_READWRITE := 4
  const ACCESS_TRUNC := 16

  datatype Kind = ReadKind | RwKind | WriteKind {
    predicate MayRead() {
      this != WriteKind
    }

    predicate MayWrite() {
      this != ReadKind
    }
  }

  predicate HasFlag(flags: nat, flag: nat)
    requires flag > 0
  {
    flags / flag % 2 == 1
  }

  /** The open asks for reading or writing, by the one access flag that it has. */
  predicate AsksToRead(flags: nat) {
    HasFlag(flags, ACCESS_READ) || HasFlag(flags, ACCESS_READWRITE)
  }

  predicate AsksToWrite(flags: nat) {
    HasFlag(flags, ACCESS_WRITE) || HasFlag(flags, ACCESS_READWRITE)
  }

  predicate OneAccess(flags: nat) {
    flags % 8 == ACCESS_READ || flags % 8 == ACCESS_WRITE || flags % 8 == ACCESS_READWRITE
  }

  /** The handle kind that the access bits of the open flags ask for: it grants just that access. */
  function OpenFlagsToKind(flags: nat): (k: Kind)
    ensures OneAccess(flags) ==> (k.MayRead() <==> AsksToRead(flags)) && (k.MayWrite() <==> AsksToWrite(flags))
  {
    if flags % 8 == ACCESS_WRITE then WriteKind
    else if flags % 8 == ACCESS_READWRITE then RwKind
    else ReadKind
  }

  type HandleId = nat
  type Token = nat

  /** Where a handle that was opened at the server is now. */
  datatype Place =
    | ByLookup                 // opened by a lookup, no slot holds it
    | Referenced(kind: Kind)   // held by the slot of that kind
    | Queued                   // waits in the delayed-close queue
    | Closed                   // the server answered the close
    | Abandoned                // a queued close was interrupted and not tried again

  /** Answers of the remote calls that a reference may need: truncation, version, open. */
  datatype RefCalls = RefCalls(truncErr: nat, versionErr: nat, openErr: nat)

  function Holders(tokens: map<Token, Kind>, k: Kind): set<Token> {
    set t | t in tokens && tokens[t] == k
  }

  /** One entry of the inode's handle array. */
  datatype Slot = Slot(refCount: nat, id: HandleId)

  /** The handle array, indexed by kind. */
  datatype Slots = Slots(read: Slot, rw: Slot, write: Slot) {
    function At(k: Kind): Slot {
      match k case ReadKind => read case RwKind => rw case WriteKind => write
    }

    function Set(k: Kind, s: Slot): (r: Slots)
      ensures forall j: Kind :: r.At(j) == if j == k then s else At(j)
    {
      match k
      case ReadKind => this.(read := s)
      case RwKind => this.(rw := s)
      case WriteKind => this.(write := s)
    }
  }

  class InodeHandles {
    var handles: Slots
    var nextId: HandleId                 // handles the server has opened so far
    var delayed: seq<HandleId>           // the delayed-close queue
    ghost var place: map<HandleId, Place>
    ghost var tokens: map<Token, Kind>   // references handed out and not released yet
    ghost var nextToken: Token

    ghost predicate Valid()
      reads this
    {
      && CountsValid(handles, tokens, nextToken)
      && PlacesValid(handles, nextId, place)
      && QueueValid(delayed, place)
    }

    /** Each reference count is the number of outstanding references. */
    static ghost predicate CountsValid(handles: Slots, tokens: map<Token, Kind>, nextToken: Token) {
      && (forall k: Kind :: handles.At(k).refCount == |Holders(tokens, k)|)
      && (forall t: Token :: t in tokens ==> t < nextToken)
    }

    /** Every handle ever opened has one place, and is referenced exactly if a slot with references
        holds it. */
    static ghost predicate PlacesValid(handles: Slots, nextId: HandleId, place: map<HandleId, Place>) {
      && (forall id: HandleId :: id in place <==> id < nextId)
      && (forall k: Kind :: handles.At(k).refCount > 0 ==>
            handles.At(k).id in place && place[handles.At(k).id] == Referenced(k))
      && (forall id: HandleId :: id in place && place[id].Referenced? ==>
            handles.At(place[id].kind).refCount > 0 && handles.At(place[id].kind).id == id)
    }

    static ghost predicate QueueValid(delayed: seq<HandleId>, place: map<HandleId, Place>) {
      && (forall id: HandleId :: id in delayed <==> id in place && place[id] == Queued)
      && (forall i, j :: 0 <= i < j < |delayed| ==> delayed[i] != delayed[j])
    }

    constructor ()
      ensures Valid() && place == map[] && tokens == map[]
    {
      var unused := Slot(0, 0);
      handles := Slots(unused, unused, unused);
      nextId, delayed := 0, [];
      place, tokens, nextToken := map[], map[], 0;
      new;
      assert forall k: Kind :: Holders(tokens, k) == {};
    }

    /** Count one more reference to the handle of the kind. */
    method AddReference(k: Kind) returns (ghost token: Token)
      requires Valid() && handles.At(k).refCount > 0
      modifies this`handles, this`tokens, this`nextToken
      ensures Valid() && token == old(nextToken) && token !in old(tokens)
      ensures tokens == old(tokens)[token := k]
      ensures handles == old(handles).Set(k, Slot(old(handles).At(k).refCount + 1, old(handles).At(k).id))
    {
      token := nextToken;
      HoldersAdded(tokens, token, k);
      handles := handles.Set(k, Slot(handles.At(k).refCount + 1, handles.At(k).id));
      tokens := tokens[token := k];
      nextToken := nextToken + 1;
    }

    /** Store a handle that no slot holds yet, with its first reference. */
    method StoreHandle(k: Kind, id: HandleId) returns (ghost token: Token)
      requires Valid() && handles.At(k).refCount == 0
      requires id in place && place[id] == ByLookup
      modifies this`handles, this`place, this`tokens, this`nextToken
      ensures Valid() && token == old(nextToken) && token !in old(tokens)
      ensures tokens == old(tokens)[token := k]
      ensures handles == old(handles).Set(k, Slot(1, id))
      ensures place == old(place)[id := Referenced(k)]
    {
      token := nextToken;
      HoldersAdded(tokens, token, k);
      handles := handles.Set(k, Slot(1, id));
      place := place[id := Referenced(k)];
      tokens := tokens[token := k];
      nextToken := nextToken + 1;
    }

    /** The server opens the file and hands out a new handle. */
    method RemoteOpen() returns (id: HandleId)
      requires Valid()
      modifies this`nextId, this`place
      ensures Valid() && id == old(nextId) && id !in old(place)
      ensures place == old(place)[id := ByLookup]
    {
      id := nextId;
      place := place[id := ByLookup];
      nextId := nextId + 1;
    }

    /** The handle that serves a reference, if one is there: the desired kind, else an allowed
        read-write handle. */
    function Serving(openFlags: nat, allowRWHandle: bool): (k: Option<Kind>)
      reads this
      ensures k.None? <==>
        handles.At(OpenFlagsToKind(openFlags)).refCount == 0 && (allowRWHandle ==> handles.rw.refCount == 0)
      ensures k.Some? ==> handles.At(k.value).refCount > 0
    {
      var kind := OpenFlagsToKind(openFlags);
      if handles.At(kind).refCount > 0 then Some(kind)
      else if allowRWHandle && handles.rw.refCount > 0 then Some(RwKind)
      else None
    }

    /** referenceHandle, with the handle of a preceding lookup open if there was one. An error changes
        nothing. Success counts one reference: to the handle that serves the flags if there is one, and
        then a handle opened by the lookup stays behind, else to the looked-up or newly opened one. */
    method ReferenceHandle(openFlags: nat, allowRWHandle: bool, lookup: Option<HandleId>, wantVersion: bool,
                           c: RefCalls)
      returns (err: nat, kind: Kind, ghost token: Token)
      requires Valid()
      requires lookup.Some? ==> lookup.value in place && place[lookup.value] == ByLookup
      modifies this
      ensures Valid() && delayed == old(delayed)
      ensures err != SUCCESS ==> handles == old(handles) && tokens == old(tokens) && place == old(place)
      ensures err == SUCCESS ==> token !in old(tokens) && tokens == old(tokens)[token := kind]
      ensures err == SUCCESS && old(Serving(openFlags, allowRWHandle)).Some? ==>
        && kind == old(Serving(openFlags, allowRWHandle)).value
        && place == old(place)
        && handles == old(handles).Set(kind, Slot(old(handles).At(kind).refCount + 1, old(handles).At(kind).id))
      ensures err == SUCCESS && old(Serving(openFlags, allowRWHandle)).None? ==>
        && kind == OpenFlagsToKind(openFlags)
        && handles == old(handles).Set(kind, Slot(1, handles.At(kind).id))
        && place == old(place)[handles.At(kind).id := Referenced(kind)]
        && handles.At(kind).id == (if lookup.Some? then lookup.value else old(nextId))
      ensures lookup.Some? && old(Serving(openFlags, allowRWHandle)).None? ==> err == SUCCESS
      ensures OneAccess(openFlags) ==>
        (AsksToRead(openFlags) ==> kind.MayRead()) && (AsksToWrite(openFlags) ==> kind.MayWrite())
      ensures err == SUCCESS && (!allowRWHandle || old(handles).At(OpenFlagsToKind(openFlags)).refCount > 0) ==>
        kind == OpenFlagsToKind(openFlags)
      ensures old(Serving(openFlags, allowRWHandle)).Some? ==>
        err == (if HasFlag(openFlags, ACCESS_TRUNC) && c.truncErr != SUCCESS then c.truncErr
                else if wantVersion then c.versionErr else SUCCESS)
      ensures old(Serving(openFlags, allowRWHandle)).None? && lookup.None? ==> err == c.openErr
    {
      kind := OpenFlagsToKind(openFlags);
      token := 0;
      var haveDesired := handles.At(kind).refCount > 0;
      if haveDesired || (allowRWHandle && handles.rw.refCount > 0) {
        err := if HasFlag(openFlags, ACCESS_TRUNC) then c.truncErr else SUCCESS;
        if err == SUCCESS && wantVersion {
          err := c.versionErr;
        }
        if err != SUCCESS {
          return;
        }
        if !haveDesired {
          kind := RwKind;
        }
        token := AddReference(kind);
      } else if lookup.Some? {
        err := SUCCESS;
        token := StoreHandle(kind, lookup.value);
      } else {
        err := c.openErr;
        if err != SUCCESS {
          return;
        }
        var id := RemoteOpen();
        token := StoreHandle(kind, id);
      }
    }

    /** closefileWithAsyncRetry: the close was answered, or goes to the delayed-close queue. */
    method CloseWithAsyncRetry(id: HandleId, closeRes: nat)
      requires id in place && place[id].Referenced?
      requires QueueValid(delayed, place)
      modifies this`delayed, this`place
      ensures QueueValid(delayed, place)
      ensures if closeRes == COMMUNICATION || closeRes == INTERRUPTED
              then place == old(place)[id := Queued] && delayed == old(delayed) + [id]
              else place == old(place)[id := Closed] && delayed == old(delayed)
    {
      if closeRes == COMMUNICATION || closeRes == INTERRUPTED {
        delayed := delayed + [id];
        place := place[id := Queued];
      } else {
        place := place[id := Closed];
      }
    }

    /** releaseHandle: the last reference to a handle closes it at the server. The holder of a token
        never meets a reference count of zero. */
    method ReleaseHandle(kind: Kind, ghost token: Token, closeRes: nat) returns (err: nat)
      requires Valid() && token in tokens && tokens[token] == kind
      modifies this
      ensures Valid()
      ensures tokens == old(tokens) - {token}
      ensures old(handles).At(kind).refCount > 0
      ensures handles == old(handles).Set(kind, Slot(old(handles).At(kind).refCount - 1, old(handles).At(kind).id))
      ensures old(handles).At(kind).refCount > 1 ==> err == SUCCESS && place == old(place) && delayed == old(delayed)
      ensures old(handles).At(kind).refCount == 1 ==>
        && err == closeRes
        && place == old(place)[old(handles).At(kind).id :=
             if closeRes == COMMUNICATION || closeRes == INTERRUPTED then Queued else Closed]
    {
      HoldersRemoved(tokens, token);
      err := SUCCESS;
      var slot := handles.At(kind);
      handles := handles.Set(kind, Slot(slot.refCount - 1, slot.id));
      tokens := tokens - {token};
      if slot.refCount == 1 {
        CloseWithAsyncRetry(slot.id, closeRes);
        err := closeRes;
      }
    }

    /** One turn of the delayed-close consumer: anything but a communication error removes the entry,
        even an interrupted call. */
    method RetryClose(i: nat, closeRes: nat)
      requires Valid() && i < |delayed|
      modifies this`delayed, this`place
      ensures Valid()
      ensures if closeRes == COMMUNICATION then place == old(place) && delayed == old(delayed)
              else && place == old(place)[old(delayed)[i] := if closeRes == INTERRUPTED then Abandoned else Closed]
                   && delayed == old(delayed)[..i] + old(delayed)[i + 1..]
    {
      if closeRes != COMMUNICATION {
        var id := delayed[i];
        delayed := delayed[..i] + delayed[i + 1..];
        place := place[id := if closeRes == INTERRUPTED then Abandoned else Closed];
        RemovedFromQueue(old(delayed), i, old(place), place);
      }
    }

    /** Any one operation: handles only move forward, and only an interrupted retry abandons one. */
    method Perform(op: Op)
      requires Valid()
      modifies this
      ensures Valid()
      ensures Forward(old(place), place)
      ensures !op.Interrupts() ==> NoneAbandoned(old(place), place)
    {
      match op
      case Reference(openFlags, allowRWHandle, byLookup, wantVersion, c) =>
        var lookup := None;
        if byLookup {
          var id := RemoteOpen();
          lookup := Some(id);
        }
        var _, _, _ := ReferenceHandle(openFlags, allowRWHandle, lookup, wantVersion, c);
      case Release(kind, closeRes) =>
        if handles.At(kind).refCount > 0 {
          assert Holders(tokens, kind) != {};
          ghost var token :| token in Holders(tokens, kind);
          var _ := ReleaseHandle(kind, token, closeRes);
        }
      case Retry(i, closeRes) =>
        if i < |delayed| {
          RetryClose(i, closeRes);
        }
    }

    /** Any sequence of operations on the inode's handles and its delayed closes. */
    method Run(ops: seq<Op>)
      requires Valid()
      modifies this
      ensures Valid()
      ensures Forward(old(place), place)
      ensures (forall i :: 0 <= i < |ops| ==> !ops[i].Interrupts()) ==> NoneAbandoned(old(place), place)
    {
      for n := 0 to |ops|
        invariant Valid()
        invariant Forward(old(place), place)
        invariant (forall i :: 0 <= i < n ==> !ops[i].Interrupts()) ==> NoneAbandoned(old(place), place)
      {
        ghost var before := place;
        Perform(ops[n]);
        ForwardTrans(old(place), before, place);
      }
    }
  }

  datatype Op =
    | Reference(openFlags: nat, allowRWHandle: bool, byLookup: bool, wantVersion: bool, calls: RefCalls)
    | Release(kind: Kind, closeRes: nat)
    | Retry(index: nat, closeRes: nat)
  {
    predicate Interrupts() {
      Retry? && closeRes == INTERRUPTED
    }
  }

  /** The places a handle can be in after having been in place a. */
  ghost predicate Reaches(a: Place, b: Place) {
    || a == b
    || a == ByLookup
    || (a.Referenced? && (b == Queued || b == Closed || b == Abandoned))
    || (a == Queued && (b == Closed || b == Abandoned))
  }

  ghost predicate Forward(before: map<HandleId, Place>, after: map<HandleId, Place>) {
    forall id: HandleId :: id in before ==> id in after && Reaches(before[id], after[id])
  }

  ghost predicate NoneAbandoned(before: map<HandleId, Place>, after: map<HandleId, Place>) {
    forall id: HandleId :: id in after && after[id] == Abandoned ==> id in before && before[id] == Abandoned
  }

  lemma ForwardTrans(a: map<HandleId, Place>, b: map<HandleId, Place>, c: map<HandleId, Place>)
    requires Forward(a, b) && Forward(b, c)
    ensures Forward(a, c)
  {
    forall id: HandleId | id in a ensures id in c && Reaches(a[id], c[id]) {
      assert id in b && Reaches(a[id], b[id]) && Reaches(b[id], c[id]);
    }
  }

  /** Once every reference is released, no handle is held: each one that was opened is closed, waits
      to be closed, was given up by an interrupted retry, or came from a lookup and was never stored. */
  lemma AllReleased(h: InodeHandles, id: HandleId)
    requires h.Valid() && h.tokens == map[] && id < h.nextId
    ensures id in h.place && !h.place[id].Referenced?
    ensures forall k: Kind :: h.handles.At(k).refCount == 0
    ensures h.place[id] == Queued <==> id in h.delayed
  {
    forall k: Kind ensures h.handles.At(k).refCount == 0 {
      assert Holders(h.tokens, k) == {};
    }
  }

  lemma RemovedFromQueue(q: seq<HandleId>, i: nat, place: map<HandleId, Place>, place': map<HandleId, Place>)
    requires i < |q| && InodeHandles.QueueValid(q, place)
    requires q[i] in place && place'.Keys == place.Keys && place'[q[i]] != Queued
    requires forall id: HandleId :: id in place && id != q[i] ==> place'[id] == place[id]
    ensures InodeHandles.QueueValid(q[..i] + q[i + 1..], place')
  {
    var r := q[..i] + q[i + 1..];
    forall id: HandleId ensures id in r <==> id in place' && place'[id] == Queued {
      if id in q && id != q[i] {
        var k :| 0 <= k < |q| && q[k] == id;
        assert r[if k < i then k else k - 1] == id;
      }
    }
  }

  lemma HoldersAdded(tokens: map<Token, Kind>, t: Token, k: Kind)
    requires t !in tokens
    ensures forall j: Kind :: |Holders(tokens[t := k], j)| == |Holders(tokens, j)| + if j == k then 1 else 0
  {
    assert Holders(tokens[t := k], k) == Holders(tokens, k) + {t};
    forall j: Kind | j != k ensures Holders(tokens[t := k], j) == Holders(tokens, j) {
    }
  }

  lemma HoldersRemoved(tokens: map<Token, Kind>, t: Token)
    requires t in tokens
    ensures forall j: Kind :: |Holders(tokens - {t}, j)| == |Holders(tokens, j)| - if j == tokens[t] then 1 else 0
  {
    assert Holders(tokens - {t}, tokens[t]) == Holders(tokens, tokens[t]) - {t};
    forall j: Kind | j != tokens[t] ensures Holders(tokens - {t}, j) == Holders(tokens, j) {
    }
  }
}
