/** The asynchronous flusher (Flusher.c) running beside user threads that create and discard file
    buffers. A step is one action under the store mutex or one change of a buffer under the inode's
    cache lock; runs interleave the steps of all threads in any order. */
module FlusherProtocol {
  import opened Basics
  import opened InodeRefStore

  /** Where the user thread that holds an inode's cache lock stands. */
  datatype UserPc =
    | Inside      // between buffer operations
    | MustAdd     // attached a buffer, has not added the inode to the store yet
    | MustRemove  // detached the buffer, has not removed the inode from the store yet

  datatype Lock = Free | ByUser(pc: UserPc) | ByFlusher

  /** What the flusher is doing with the inode it took out of the store. */
  datatype HandPc =
    | TryFlush       // about to try the cache lock
    | Flushing       // holds the lock, first flush
    | Discarding     // holds the lock, detached the buffer
    | WaitFinal      // unrecoverable error: will wait for the lock
    | FinalFlushing  // holds the lock, flush that discards on error
    | Reinsert       // will give the inode back to the store
    | Drop           // will drop its reference

  datatype Hand = Empty | Holding(ino: Ino, pc: HandPc)

  datatype State = State(
    buffered: set<Ino>,      // inodes with a buffer attached
    locks: map<Ino, Lock>,   // absent means free
    refs: Refs,
    hand: Hand,
    cursor: Option<Ino>)     // last inode of the flusher's current pass

  datatype Action =
    | UserLock(i: Ino) | UserUnlock(i: Ino)
    | UserAttach(i: Ino) | UserAdd(i: Ino)
    | UserDetach(i: Ino) | UserRemove(i: Ino)
    | Take(i: Ino) | EndPass
    | Busy | TryLock
    | NothingToFlush | FlushDone | RemoveFlushed
    | FlushFailed | FlushHopeless | FlushAnsweredZero
    | FinalLock | FinalFlush
    | GiveBack | DropReference

  function LockOf(s: State, i: Ino): Lock {
    if i in s.locks then s.locks[i] else Free
  }

  function SetLock(s: State, i: Ino, l: Lock): State {
    s.(locks := s.locks[i := l])
  }

  predicate HandAt(s: State, pc: HandPc) {
    s.hand.Holding? && s.hand.pc == pc
  }

  function MoveHand(s: State, pc: HandPc): State
    requires s.hand.Holding?
  {
    s.(hand := Holding(s.hand.ino, pc))
  }

  ghost predicate Enabled(s: State, a: Action) {
    match a
    case UserLock(i) => LockOf(s, i) == Free
    case UserUnlock(i) => LockOf(s, i) == ByUser(Inside)
    case UserAttach(i) => LockOf(s, i) == ByUser(Inside) && i !in s.buffered
    case UserAdd(i) => LockOf(s, i) == ByUser(MustAdd)
    case UserDetach(i) => LockOf(s, i) in {ByUser(Inside), ByUser(MustAdd)} && i in s.buffered
    case UserRemove(i) => LockOf(s, i) == ByUser(MustRemove)
    case Take(i) => s.hand == Empty && IsNext(s.refs.store, s.cursor, i)
    case EndPass => s.hand == Empty
    case Busy => HandAt(s, TryFlush) && LockOf(s, s.hand.ino) != Free
    case TryLock => HandAt(s, TryFlush) && LockOf(s, s.hand.ino) == Free
    case NothingToFlush =>
      (HandAt(s, Flushing) || HandAt(s, FinalFlushing)) && s.hand.ino !in s.buffered
    case FlushDone => HandAt(s, Flushing) && s.hand.ino in s.buffered
    case RemoveFlushed => HandAt(s, Discarding)
    case FlushFailed => HandAt(s, Flushing) && s.hand.ino in s.buffered
    case FlushHopeless => HandAt(s, Flushing) && s.hand.ino in s.buffered
    case FlushAnsweredZero => HandAt(s, Flushing) && s.hand.ino in s.buffered
    case FinalLock => HandAt(s, WaitFinal) && LockOf(s, s.hand.ino) == Free
    case FinalFlush => HandAt(s, FinalFlushing) && s.hand.ino in s.buffered
    case GiveBack => HandAt(s, Reinsert)
    case DropReference => HandAt(s, Drop)
  }

  ghost function Apply(s: State, a: Action): State
    requires Enabled(s, a)
  {
    match a
    case UserLock(i) => SetLock(s, i, ByUser(Inside))
    case UserUnlock(i) => SetLock(s, i, Free)
    case UserAttach(i) => SetLock(s.(buffered := s.buffered + {i}), i, ByUser(MustAdd))
    case UserAdd(i) => SetLock(s.(refs := AddAndReference(s.refs, i)), i, ByUser(Inside))
    case UserDetach(i) => SetLock(s.(buffered := s.buffered - {i}), i, ByUser(MustRemove))
    case UserRemove(i) => SetLock(s.(refs := RemoveAndRelease(s.refs, i)), i, ByUser(Inside))
    case Take(i) =>
      s.(refs := s.refs.(store := s.refs.store - {i}), hand := Holding(i, TryFlush), cursor := Some(i))
    case EndPass => s.(cursor := None)
    case Busy => MoveHand(s, Reinsert)
    case TryLock => SetLock(MoveHand(s, Flushing), s.hand.ino, ByFlusher)
    case NothingToFlush => SetLock(MoveHand(s, Drop), s.hand.ino, Free)
    case FlushDone => MoveHand(s.(buffered := s.buffered - {s.hand.ino}), Discarding)
    case RemoveFlushed =>
      SetLock(MoveHand(s.(refs := RemoveAndRelease(s.refs, s.hand.ino)), Drop), s.hand.ino, Free)
    case FlushFailed => SetLock(MoveHand(s, Reinsert), s.hand.ino, Free)
    case FlushHopeless => SetLock(MoveHand(s, WaitFinal), s.hand.ino, Free)
    case FlushAnsweredZero => SetLock(MoveHand(s, Drop), s.hand.ino, Free)
    case FinalLock => SetLock(MoveHand(s, FinalFlushing), s.hand.ino, ByFlusher)
    case FinalFlush => MoveHand(s.(buffered := s.buffered - {s.hand.ino}), Discarding)
    case GiveBack => s.(refs := AddOrPut(s.refs, s.hand.ino), hand := Empty)
    case DropReference => s.(refs := Iput(s.refs, s.hand.ino), hand := Empty)
  }

  const INITIAL := State({}, map[], Refs({}, map[]), Empty, None)

  ghost predicate IsRun(s: State, run: seq<Action>)
    decreases |run|
  {
    run == [] || (Enabled(s, run[0]) && IsRun(Apply(s, run[0]), run[1..]))
  }

  ghost function Final(s: State, run: seq<Action>): State
    requires IsRun(s, run)
    decreases |run|
  {
    if run == [] then s else Final(Apply(s, run[0]), run[1..])
  }

  // ---- what is to be shown ----

  /** The flusher holds the inode and will either flush it or put it back. */
  predicate InHand(s: State, i: Ino) {
    s.hand.Holding? && s.hand.ino == i && s.hand.pc != Drop
  }

  /** A buffer that nobody will ever flush: no thread is inside the cache lock and neither the store
      nor the flusher knows the inode. */
  predicate Orphaned(s: State, i: Ino) {
    i in s.buffered && LockOf(s, i) == Free && i !in s.refs.store && !InHand(s, i)
  }

  /** References held: one per member of the store, one for the inode in the flusher's hand. */
  function Expected(s: State, i: Ino): int {
    (if i in s.refs.store then 1 else 0) + (if s.hand.Holding? && s.hand.ino == i then 1 else 0)
  }

  predicate Kept(s: State, i: Ino) {
    i in s.refs.store ||
    (s.hand.Holding? && s.hand.ino == i && s.hand.pc in {TryFlush, WaitFinal, Reinsert})
  }

  /** The references counted for the inode are the store's and the one in hand. */
  ghost predicate RefsInv(s: State) {
    forall i :: Held(s.refs, i) == Expected(s, i)
  }

  lemma StepKeepsRefs(s: State, a: Action)
    requires RefsInv(s) && Enabled(s, a)
    ensures RefsInv(Apply(s, a))
  {
    forall i ensures Held(Apply(s, a).refs, i) == Expected(Apply(s, a), i) {
      assert Held(s.refs, i) == Expected(s, i);
    }
  }

  lemma {:induction false} RunKeepsRefs(s: State, run: seq<Action>)
    requires RefsInv(s) && IsRun(s, run)
    ensures RefsInv(Final(s, run))
    decreases |run|
  {
    if run != [] {
      StepKeepsRefs(s, run[0]);
      RunKeepsRefs(Apply(s, run[0]), run[1..]);
    }
  }

  /** In every interleaving, whatever the flushes answer, the references taken are exactly those of the
      store plus the one in the flusher's hand: none leaks, and none is dropped twice. */
  lemma NoLeakNoUnderflow(run: seq<Action>, i: Ino)
    requires IsRun(INITIAL, run)
    ensures Held(Final(INITIAL, run).refs, i) == Expected(Final(INITIAL, run), i)
    ensures 0 <= Held(Final(INITIAL, run).refs, i) <= 2
  {
    RunKeepsRefs(INITIAL, run);
  }

  ghost predicate InodeInv(s: State, i: Ino) {
    && (LockOf(s, i) in {Free, ByUser(Inside)} && i in s.buffered ==> Kept(s, i))
    && (LockOf(s, i) == ByUser(MustAdd) ==> i in s.buffered)
    && (LockOf(s, i) == ByUser(MustRemove) ==> i !in s.buffered)
    && (LockOf(s, i) == ByFlusher <==>
          s.hand.Holding? && s.hand.ino == i && s.hand.pc in {Flushing, Discarding, FinalFlushing})
    && (LockOf(s, i) == ByFlusher && s.hand.pc == Discarding ==> i !in s.buffered)
  }

  ghost predicate Inv(s: State) {
    forall i :: InodeInv(s, i)
  }

  /** A flush answered with 0 is taken for a success although the buffer is still attached. It does no
      harm if a user thread has put the inode into the store again. */
  predicate Harmless(s: State, a: Action) {
    a == FlushAnsweredZero && s.hand.Holding? ==> s.hand.ino in s.refs.store
  }

  lemma StepKeepsInodeInv(s: State, a: Action, i: Ino)
    requires Inv(s) && Enabled(s, a) && Harmless(s, a)
    ensures InodeInv(Apply(s, a), i)
  {
    assert InodeInv(s, i);
    if s.hand.Holding? {
      assert InodeInv(s, s.hand.ino);
    }
  }

  lemma StepKeepsInv(s: State, a: Action)
    requires Inv(s) && Enabled(s, a) && Harmless(s, a)
    ensures Inv(Apply(s, a))
  {
    forall i ensures InodeInv(Apply(s, a), i) {
      StepKeepsInodeInv(s, a, i);
    }
  }

  /** Every flush of the run that is answered with 0 finds the inode in the store. */
  ghost predicate AllHarmless(s: State, run: seq<Action>)
    requires IsRun(s, run)
    decreases |run|
  {
    run != [] ==> Harmless(s, run[0]) && AllHarmless(Apply(s, run[0]), run[1..])
  }

  /** No state of the run has an orphaned buffer. */
  ghost predicate NeverOrphaned(s: State, run: seq<Action>)
    requires IsRun(s, run)
    decreases |run|
  {
    && (forall i :: !Orphaned(s, i))
    && (run != [] ==> NeverOrphaned(Apply(s, run[0]), run[1..]))
  }

  lemma InvMeansNoOrphan(s: State)
    requires Inv(s)
    ensures forall i :: !Orphaned(s, i)
  {
    forall i ensures !Orphaned(s, i) {
      assert InodeInv(s, i);
    }
  }

  /** The harmful answer orphans the buffer at once. */
  lemma ZeroAnswerOrphans(s: State)
    requires Inv(s) && Enabled(s, FlushAnsweredZero)
    ensures Orphaned(Apply(s, FlushAnsweredZero), s.hand.ino) <==> s.hand.ino !in s.refs.store
  {
  }

  lemma {:induction false} OrphanedIffHarmful(s: State, run: seq<Action>)
    requires Inv(s) && IsRun(s, run)
    ensures NeverOrphaned(s, run) <==> AllHarmless(s, run)
    decreases |run|
  {
    InvMeansNoOrphan(s);
    if run != [] {
      var t := Apply(s, run[0]);
      if Harmless(s, run[0]) {
        StepKeepsInv(s, run[0]);
        OrphanedIffHarmful(t, run[1..]);
      } else {
        ZeroAnswerOrphans(s);
        assert Orphaned(t, s.hand.ino);
        assert !NeverOrphaned(t, run[1..]);
      }
    }
  }

  /** Over every interleaving: no buffer is ever orphaned exactly if no flush is answered with 0 while
      the store lacks the inode. */
  lemma NoOrphanIff(run: seq<Action>)
    requires IsRun(INITIAL, run)
    ensures NeverOrphaned(INITIAL, run) <==> AllHarmless(INITIAL, run)
  {
    assert Inv(INITIAL);
    OrphanedIffHarmful(INITIAL, run);
  }

  lemma {:induction false} RunSnoc(s: State, run: seq<Action>, a: Action)
    requires IsRun(s, run) && Enabled(Final(s, run), a)
    ensures IsRun(s, run + [a]) && Final(s, run + [a]) == Apply(Final(s, run), a)
    decreases |run|
  {
    if run == [] {
      assert run + [a] == [a];
      assert [a][1..] == [];
    } else {
      RunSnoc(Apply(s, run[0]), run[1..], a);
      assert (run + [a])[1..] == run[1..] + [a];
    }
  }

  /** One buffered write: attach a buffer under the lock and add the inode to the store. */
  lemma BufferedWrite() returns (run: seq<Action>)
    ensures IsRun(INITIAL, run)
    ensures Final(INITIAL, run) == State({1}, map[1 := Free], Refs({1}, map[1 := 1]), Empty, None)
  {
    RunSnoc(INITIAL, [], UserLock(1));
    run := [] + [UserLock(1)];
    RunSnoc(INITIAL, run, UserAttach(1));
    run := run + [UserAttach(1)];
    RunSnoc(INITIAL, run, UserAdd(1));
    run := run + [UserAdd(1)];
    RunSnoc(INITIAL, run, UserUnlock(1));
    run := run + [UserUnlock(1)];
  }

  /** Such a state is reached by one buffered write and one pass of the flusher. */
  lemma ZeroAnswerIsReachable() returns (run: seq<Action>)
    ensures IsRun(INITIAL, run) && Orphaned(Final(INITIAL, run), 1)
  {
    run := BufferedWrite();
    RunSnoc(INITIAL, run, Take(1));
    run := run + [Take(1)];
    RunSnoc(INITIAL, run, TryLock);
    run := run + [TryLock];
    RunSnoc(INITIAL, run, FlushAnsweredZero);
    run := run + [FlushAnsweredZero];
    RunSnoc(INITIAL, run, DropReference);
    run := run + [DropReference];
  }

  // ---- one pass over the store ----

  /** The inodes that the flusher takes out of the store, in order. */
  function Taken(run: seq<Action>): seq<Ino> {
    if run == [] then [] else (if run[0].Take? then [run[0].i] else []) + Taken(run[1..])
  }

  /** Within a pass the flusher goes through the store in ascending order, whatever user threads add or
      remove and whatever it gives back itself: no inode is taken twice, so that one that stays busy or
      cannot be flushed does not keep the others waiting. */
  lemma {:induction false} PassAscends(s: State, run: seq<Action>)
    requires IsRun(s, run) && EndPass !in run
    ensures forall k :: 0 <= k < |Taken(run)| ==> Behind(s.cursor, Taken(run)[k])
    ensures forall k, l :: 0 <= k < l < |Taken(run)| ==> Taken(run)[k] < Taken(run)[l]
    decreases |run|
  {
    if run != [] {
      PassAscends(Apply(s, run[0]), run[1..]);
    }
  }

  // ---- when a buffer is given up ----

  /** A buffer is detached only by its user, by a flush that succeeded, or by the final flush. */
  lemma BufferLeavesBy(s: State, a: Action, i: Ino)
    requires Enabled(s, a) && i in s.buffered && i !in Apply(s, a).buffered
    ensures a == UserDetach(i) || (s.hand.Holding? && s.hand.ino == i && (a == FlushDone || a == FinalFlush))
  {
  }

  /** The flusher met an unrecoverable error with the inode that it took last. */
  predicate GaveUpSinceTake(run: seq<Action>)
    decreases |run|
  {
    run != [] &&
    (run[|run| - 1] == FlushHopeless || (!run[|run| - 1].Take? && GaveUpSinceTake(run[..|run| - 1])))
  }

  lemma {:induction false} RunInit(s: State, run: seq<Action>)
    requires IsRun(s, run) && run != []
    ensures var n := |run| - 1;
      && IsRun(s, run[..n]) && Enabled(Final(s, run[..n]), run[n])
      && Final(s, run) == Apply(Final(s, run[..n]), run[n])
    decreases |run|
  {
    var n := |run| - 1;
    if n > 0 {
      RunInit(Apply(s, run[0]), run[1..]);
      assert run[1..][..n - 1] == run[..n][1..];
    }
  }

  /** In every interleaving the final flush, which throws away what it cannot write, comes only after an
      unrecoverable error: a communication error on an open file never leads to it. */
  lemma {:induction false} FinalFlushOnlyIfHopeless(run: seq<Action>)
    requires IsRun(INITIAL, run)
    ensures HandAt(Final(INITIAL, run), WaitFinal) || HandAt(Final(INITIAL, run), FinalFlushing) ==> GaveUpSinceTake(run)
    decreases |run|
  {
    if run != [] {
      RunInit(INITIAL, run);
      FinalFlushOnlyIfHopeless(run[..|run| - 1]);
    }
  }

  /** After a flush that failed but may succeed later, the inode is back in the store with its buffer. */
  lemma FailedFlushIsRetried(s: State)
    requires Inv(s) && RefsInv(s) && Enabled(s, FlushFailed)
    ensures IsRun(s, [FlushFailed] + [GiveBack])
    ensures var t := Final(s, [FlushFailed] + [GiveBack]);
      s.hand.ino in t.buffered && s.hand.ino in t.refs.store && Held(t.refs, s.hand.ino) == 1
  {
    assert Held(s.refs, s.hand.ino) == Expected(s, s.hand.ino);
    assert ([FlushFailed] + [GiveBack])[1..] == [GiveBack] && [GiveBack][1..] == [];
  }

  /** Once the buffer is detached, the flusher leaves neither member nor reference behind. */
  lemma DetachedIsFinished(s: State)
    requires RefsInv(s) && HandAt(s, Discarding)
    ensures var run := [RemoveFlushed] + [DropReference]; var t := Final(s, run);
      && IsRun(s, run) && t.buffered == s.buffered
      && s.hand.ino !in t.refs.store && Held(t.refs, s.hand.ino) == 0
  {
    var s1 := Apply(s, RemoveFlushed);
    RunCons(s1, DropReference, []);
    assert [DropReference] + [] == [DropReference];
    RunCons(s, RemoveFlushed, [DropReference]);
    RunKeepsRefs(s, [RemoveFlushed] + [DropReference]);
  }

  /** An inode that turns out to have no buffer is let go: the flusher's reference is dropped and the store
      is not touched. */
  lemma EmptyIsReleased(s: State)
    requires RefsInv(s) && Enabled(s, NothingToFlush)
    ensures var run := [NothingToFlush] + [DropReference]; var t := Final(s, run);
      && IsRun(s, run) && t.hand == Empty && t.refs.store == s.refs.store && t.buffered == s.buffered
      && Held(t.refs, s.hand.ino) == if s.hand.ino in s.refs.store then 1 else 0
  {
    var s1 := Apply(s, NothingToFlush);
    RunCons(s1, DropReference, []);
    assert [DropReference] + [] == [DropReference];
    RunCons(s, NothingToFlush, [DropReference]);
    RunKeepsRefs(s, [NothingToFlush] + [DropReference]);
  }

  /** After an unrecoverable error the flusher can bring the inode to an end: no buffer, no reference. */
  lemma HopelessIsDiscarded(s: State)
    requires RefsInv(s) && Enabled(s, FlushHopeless)
    ensures var run := [FlushHopeless] + ([FinalLock] + ([FinalFlush] + ([RemoveFlushed] + [DropReference])));
      && IsRun(s, run)
      && s.hand.ino !in Final(s, run).buffered && s.hand.ino !in Final(s, run).refs.store
      && Held(Final(s, run).refs, s.hand.ino) == 0
  {
    var s1 := Apply(s, FlushHopeless);
    var s2 := Apply(s1, FinalLock);
    var s3 := Apply(s2, FinalFlush);
    StepKeepsRefs(s, FlushHopeless);
    StepKeepsRefs(s1, FinalLock);
    StepKeepsRefs(s2, FinalFlush);
    DetachedIsFinished(s3);
    var rest := [RemoveFlushed] + [DropReference];
    RunCons(s2, FinalFlush, rest);
    RunCons(s1, FinalLock, [FinalFlush] + rest);
    RunCons(s, FlushHopeless, [FinalLock] + ([FinalFlush] + rest));
  }

  lemma RunCons(s: State, a: Action, rest: seq<Action>)
    requires Enabled(s, a) && IsRun(Apply(s, a), rest)
    ensures IsRun(s, [a] + rest) && Final(s, [a] + rest) == Final(Apply(s, a), rest)
  {
    assert ([a] + rest)[1..] == rest;
  }
}
