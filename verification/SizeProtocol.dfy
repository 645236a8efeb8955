/** When a file size sampled at the server may replace the local i_size while local writers run
    (applyStatSizeToInode, the isize hints, and the size update of write_end in paged mode). */
module SizeProtocol {
  import opened Basics

  /** The inode fields of the protocol. */
  datatype Attrs = Attrs(
    isize: nat,
    blocks: nat,
    paged: bool,        // the inode was written through the page cache
    noDecrease: bool,   // noRemoteIsizeDecrease
    writeBacks: nat,    // write-back threads sending pages
    lastTime: nat)      // last write-back end or i_size update, in jiffies

  /** Hints taken before a remote stat. */
  datatype Hints = Hints(ignoreIsize: bool, timeBefore: nat)

  const WORD := 0x1_0000_0000_0000_0000
  const HALF := 0x8000_0000_0000_0000

  /** time_after_eq on 64-bit jiffies: the signed difference is not negative. */
  predicate TimeAfterEq(a: nat, b: nat) {
    ((a % WORD) - (b % WORD)) % WORD < HALF
  }

  /** The server's answer is not used: it would shrink a file that was written through the page
      cache, and there is a sign that the server may not know all of it yet. */
  predicate Refused(a: Attrs, size: nat, h: Hints) {
    && a.paged && size < a.isize
    && (a.noDecrease || a.writeBacks > 0 || h.ignoreIsize || TimeAfterEq(a.lastTime, h.timeBefore))
  }

  function ApplyStat(a: Attrs, size: nat, blocks: nat, h: Hints): Attrs {
    if Refused(a, size, h) then a else a.(isize := size, blocks := blocks)
  }

  /** The size update at the end of a page-cache write, under i_lock. */
  function Extend(a: Attrs, end: nat, now: nat): Attrs {
    if a.isize < end then a.(isize := end, paged := true, noDecrease := true, lastTime := now) else a
  }

  function TakeHints(a: Attrs, unwritten: bool, now: nat): Hints {
    Hints(a.writeBacks > 0 || unwritten, now)
  }

  /** The end of a write-back: time stamp, counter, and the no-decrease mark if all is written. */
  function EndWriteBack(a: Attrs, unwritten: bool, now: nat): Attrs
    requires a.writeBacks > 0
  {
    var b := a.(lastTime := now, writeBacks := a.writeBacks - 1);
    if b.noDecrease && b.writeBacks == 0 && !unwritten then b.(noDecrease := false) else b
  }

  class Inode {
    var isize: nat
    var blocks: nat
    var paged: bool
    var noDecrease: bool
    var writeBacks: nat
    var lastTime: nat

    function Value(): Attrs
      reads this
    {
      Attrs(isize, blocks, paged, noDecrease, writeBacks, lastTime)
    }

    /** applyStatSizeToInode for a regular file. */
    method ApplyStatSize(size: nat, kstatBlocks: nat, h: Hints)
      modifies this`isize, this`blocks
      ensures Value() == ApplyStat(old(Value()), size, kstatBlocks, h)
    {
      if paged {
        var oldSize := isize;
        if oldSize > size {
          if noDecrease {
            return;
          }
          if writeBacks > 0 {
            return;
          }
          var last := lastTime;
          if h.ignoreIsize {
            return;
          }
          if TimeAfterEq(last, h.timeBefore) {
            return;
          }
        }
      }
      isize := size;
      blocks := kstatBlocks;
    }

    /** The locked part of write_end. */
    method UpdateSize(pos: nat, now: nat)
      modifies this
      ensures Value() == Extend(old(Value()), pos, now)
    {
      if pos > isize {
        paged := true;
        lastTime := now;
        noDecrease := true;
        isize := pos;
      }
    }

    method UnsetNoIsizeDecrease(unwritten: bool)
      modifies this`noDecrease
      ensures noDecrease == (old(noDecrease) && (writeBacks > 0 || unwritten))
    {
      if !noDecrease {
        return;
      }
      if writeBacks > 0 {
        return;
      }
      if unwritten {
        return;
      }
      noDecrease := false;
    }

    method FinishWriteBack(unwritten: bool, now: nat)
      requires writeBacks > 0
      modifies this
      ensures Value() == EndWriteBack(old(Value()), unwritten, now)
    {
      lastTime := now;
      writeBacks := writeBacks - 1;
      UnsetNoIsizeDecrease(unwritten);
    }
  }

  // ---- the protocol as interleaved steps ----

  type Tid = nat
  type PageNo = nat

  /** A page with data the server may lack; it leaves the map when its write-back has ended. */
  datatype Page =
    | Locked(end: nat)     // being written, i_size not updated yet
    | Extended(end: nat)   // being written, i_size updated
    | Dirty(end: nat)
    | WriteBack(end: nat)
    | Acked(end: nat)      // the server has it

  /** A write that bypasses the page cache because the page is not up to date. */
  datatype Writer = Sending(end: nat) | Sent(end: nat) | Counted(end: nat)

  datatype Refresh = Hinted(h: Hints) | Sampled(h: Hints, size: nat)

  datatype State = State(
    clock: nat,
    server: nat,                  // file size at the server
    a: Attrs,
    pages: map<PageNo, Page>,
    writers: map<Tid, Writer>,
    senders: nat,                 // write-back threads
    refreshes: map<Tid, Refresh>,
    extended: nat)                // largest end to which a local write extended the file

  datatype Action =
    | Tick
    | ServerGrows(size: nat)
    | SyncBegin(t: Tid, end: nat) | SyncSend(t: Tid) | SyncFail(t: Tid) | SyncCount(t: Tid) | SyncExtend(t: Tid)
    | PageBegin(p: PageNo, end: nat) | PageExtend(p: PageNo) | PageUnlock(p: PageNo)
    | WbStart(p: PageNo) | WbBegin | WbAck(p: PageNo) | WbEnd(p: PageNo) | WbRetry(p: PageNo) | WbFinish
    | Hint(t: Tid) | Sample(t: Tid) | Apply(t: Tid, blocks: nat)

  predicate Unwritten(s: State) {
    s.pages != map[]
  }

  predicate Enabled(s: State, act: Action) {
    match act
    case Tick => s.clock + 1 < HALF
    case ServerGrows(size) => s.server <= size
    case SyncBegin(t, _) => t !in s.writers
    case SyncSend(t) => t in s.writers && s.writers[t].Sending?
    case SyncFail(t) => t in s.writers && s.writers[t].Sending? && s.a.writeBacks > 0
    case SyncCount(t) => t in s.writers && s.writers[t].Sent? && s.a.writeBacks > 0
    case SyncExtend(t) => t in s.writers && s.writers[t].Counted?
    case PageBegin(p, end) => p in s.pages ==> s.pages[p].Dirty?
    case PageExtend(p) => p in s.pages && s.pages[p].Locked?
    case PageUnlock(p) => p in s.pages && s.pages[p].Extended?
    case WbStart(p) => p in s.pages && s.pages[p].Dirty?
    case WbBegin => true
    case WbAck(p) => p in s.pages && s.pages[p].WriteBack?
    case WbEnd(p) => p in s.pages && s.pages[p].Acked?
    case WbRetry(p) => p in s.pages && s.pages[p].WriteBack?
    case WbFinish => s.senders > 0 && s.a.writeBacks > 0
    case Hint(t) => t !in s.refreshes
    case Sample(t) => t in s.refreshes && s.refreshes[t].Hinted?
    case Apply(t, _) => t in s.refreshes && s.refreshes[t].Sampled?
  }

  function Next(s: State, act: Action): State
    requires Enabled(s, act)
  {
    match act
    case Tick => s.(clock := s.clock + 1)
    case ServerGrows(size) => s.(server := size)
    case SyncBegin(t, end) =>
      s.(writers := s.writers[t := Sending(end)], a := s.a.(writeBacks := s.a.writeBacks + 1))
    case SyncSend(t) =>
      var end := s.writers[t].end;
      s.(writers := s.writers[t := Sent(end)], server := Max(s.server, end))
    case SyncFail(t) =>
      s.(writers := s.writers - {t}, a := s.a.(lastTime := s.clock, writeBacks := s.a.writeBacks - 1))
    case SyncCount(t) =>
      s.(writers := s.writers[t := Counted(s.writers[t].end)],
         a := s.a.(lastTime := s.clock, writeBacks := s.a.writeBacks - 1))
    case SyncExtend(t) => Extending(s, s.writers[t].end).(writers := s.writers - {t})
    case PageBegin(p, end) =>
      s.(pages := s.pages[p := Locked(if p in s.pages then Max(s.pages[p].end, end) else end)])
    case PageExtend(p) =>
      Extending(s, s.pages[p].end).(pages := s.pages[p := Extended(s.pages[p].end)])
    case PageUnlock(p) => s.(pages := s.pages[p := Dirty(s.pages[p].end)])
    case WbStart(p) => s.(pages := s.pages[p := WriteBack(s.pages[p].end)])
    case WbBegin => s.(senders := s.senders + 1, a := s.a.(writeBacks := s.a.writeBacks + 1))
    case WbAck(p) =>
      s.(pages := s.pages[p := Acked(s.pages[p].end)], server := Max(s.server, s.pages[p].end))
    case WbEnd(p) => s.(pages := s.pages - {p})
    case WbRetry(p) => s.(pages := s.pages[p := Dirty(s.pages[p].end)])
    case WbFinish => s.(senders := s.senders - 1, a := EndWriteBack(s.a, Unwritten(s), s.clock))
    case Hint(t) => s.(refreshes := s.refreshes[t := Hinted(TakeHints(s.a, Unwritten(s), s.clock))])
    case Sample(t) => s.(refreshes := s.refreshes[t := Sampled(s.refreshes[t].h, s.server)])
    case Apply(t, blocks) =>
      s.(refreshes := s.refreshes - {t},
         a := ApplyStat(s.a, s.refreshes[t].size, blocks, s.refreshes[t].h))
  }

  function Extending(s: State, end: nat): State {
    s.(a := Extend(s.a, end, s.clock), extended := if s.a.isize < end then Max(s.extended, end) else s.extended)
  }

  function Initial(size: nat, clock: nat): State {
    State(clock, size, Attrs(size, 0, false, false, 0, 0), map[], map[], 0, map[], 0)
  }

  ghost predicate IsRun(s: State, run: seq<Action>)
    decreases |run|
  {
    run == [] || (Enabled(s, run[0]) && IsRun(Next(s, run[0]), run[1..]))
  }

  ghost function Final(s: State, run: seq<Action>): State
    requires IsRun(s, run)
    decreases |run|
  {
    if run == [] then s else Final(Next(s, run[0]), run[1..])
  }

  // ---- what is to be shown ----

  /** The server has every extension, or some page that is not written back yet reaches as far. */
  ghost predicate Accounted(s: State) {
    s.extended <= s.server || exists p :: p in s.pages && s.extended <= s.pages[p].end
  }

  /** Unless the refresh is bound to be refused, what it saw or will see covers every extension. */
  ghost predicate RefreshInv(s: State, r: Refresh) {
    && r.h.timeBefore <= s.clock
    && (!r.h.ignoreIsize && s.a.lastTime < r.h.timeBefore ==>
          s.extended <= if r.Sampled? then r.size else s.server)
  }

  ghost predicate Inv(s: State) {
    && s.clock < HALF
    && s.a.lastTime <= s.clock
    && s.extended <= s.a.isize
    && (s.extended > 0 ==> s.a.paged)
    && Accounted(s)
    && (forall t :: t in s.writers && !s.writers[t].Sending? ==> s.writers[t].end <= s.server)
    && (forall p :: p in s.pages && s.pages[p].Acked? ==> s.pages[p].end <= s.server)
    && (forall t :: t in s.refreshes ==> RefreshInv(s, s.refreshes[t]))
  }

  lemma TimeAfterEqIsOrder(a: nat, b: nat)
    requires a < HALF && b < HALF
    ensures TimeAfterEq(a, b) <==> b <= a
  {
  }

  lemma ApplyKeepsInv(s: State, t: Tid, blocks: nat)
    requires Inv(s) && Enabled(s, Apply(t, blocks))
    ensures Inv(Next(s, Apply(t, blocks)))
  {
    var r := s.refreshes[t];
    assert RefreshInv(s, r);
    TimeAfterEqIsOrder(s.a.lastTime, r.h.timeBefore);
    var s' := Next(s, Apply(t, blocks));
    assert Accounted(s') by { assert s'.pages == s.pages; }
    forall u | u in s'.refreshes ensures RefreshInv(s', s'.refreshes[u]) {
      assert RefreshInv(s, s.refreshes[u]);
    }
  }

  lemma ExtendingKeepsInv(s: State, end: nat)
    requires Inv(s)
    requires end <= s.server || exists p :: p in s.pages && end <= s.pages[p].end
    ensures Inv(Extending(s, end))
  {
    var s' := Extending(s, end);
    if s.a.isize < end {
      assert s'.extended == end;
      assert Accounted(s');
    } else {
      assert Accounted(s);
      assert Accounted(s');
    }
    forall u | u in s'.refreshes ensures RefreshInv(s', s'.refreshes[u]) {
      assert RefreshInv(s, s.refreshes[u]);
    }
  }

  /** No page leaves the map before the server has its data. */
  lemma StaysAccounted(s: State, s': State)
    requires Accounted(s)
    requires s'.extended == s.extended && s.server <= s'.server
    requires forall p :: p in s.pages ==>
      s.pages[p].end <= s'.server || (p in s'.pages && s.pages[p].end <= s'.pages[p].end)
    ensures Accounted(s')
  {
    if s'.server < s'.extended {
      var p :| p in s.pages && s.extended <= s.pages[p].end;
      assert p in s'.pages && s'.extended <= s'.pages[p].end;
    }
  }

  /** Steps that touch neither the size nor the extensions: the accounts and refreshes carry over. */
  lemma QuietStepKeepsInv(s: State, act: Action)
    requires Inv(s) && Enabled(s, act)
    requires act.Tick? || act.ServerGrows? || act.SyncBegin? || act.SyncSend? || act.SyncFail?
      || act.SyncCount? || act.WbBegin? || act.WbFinish?
    ensures Inv(Next(s, act))
  {
    var s' := Next(s, act);
    StaysAccounted(s, s');
    forall u | u in s'.refreshes ensures RefreshInv(s', s'.refreshes[u]) {
      assert RefreshInv(s, s.refreshes[u]);
    }
  }

  lemma PageStepKeepsInv(s: State, act: Action)
    requires Inv(s) && Enabled(s, act)
    requires act.PageBegin? || act.PageUnlock? || act.WbStart? || act.WbAck? || act.WbEnd? || act.WbRetry?
    ensures Inv(Next(s, act))
  {
    var s' := Next(s, act);
    StaysAccounted(s, s');
    forall u | u in s'.refreshes ensures RefreshInv(s', s'.refreshes[u]) {
      assert RefreshInv(s, s.refreshes[u]);
    }
  }

  lemma RefreshStepKeepsInv(s: State, act: Action)
    requires Inv(s) && Enabled(s, act)
    requires act.Hint? || act.Sample?
    ensures Inv(Next(s, act))
  {
    var s' := Next(s, act);
    StaysAccounted(s, s');
    forall u | u in s'.refreshes ensures RefreshInv(s', s'.refreshes[u]) {
      if u in s.refreshes {
        assert RefreshInv(s, s.refreshes[u]);
      }
    }
  }

  lemma StepKeepsInv(s: State, act: Action)
    requires Inv(s) && Enabled(s, act)
    ensures Inv(Next(s, act))
  {
    if act.Apply? {
      ApplyKeepsInv(s, act.t, act.blocks);
    } else if act.SyncExtend? {
      ExtendingKeepsInv(s, s.writers[act.t].end);
      StaysAccounted(Extending(s, s.writers[act.t].end), Next(s, act));
    } else if act.PageExtend? {
      ExtendingKeepsInv(s, s.pages[act.p].end);
      StaysAccounted(Extending(s, s.pages[act.p].end), Next(s, act));
    } else if act.Hint? || act.Sample? {
      RefreshStepKeepsInv(s, act);
    } else if act.PageBegin? || act.PageUnlock? || act.WbStart? || act.WbAck? || act.WbEnd? || act.WbRetry? {
      PageStepKeepsInv(s, act);
    } else {
      QuietStepKeepsInv(s, act);
    }
  }

  lemma {:induction false} RunKeepsInv(s: State, run: seq<Action>)
    requires Inv(s) && IsRun(s, run)
    ensures Inv(Final(s, run))
    decreases |run|
  {
    if run != [] {
      StepKeepsInv(s, run[0]);
      RunKeepsInv(Next(s, run[0]), run[1..]);
    }
  }

  /** Over all interleavings of writes, write-back and refreshes, i_size never falls below the end of
      a local write that extended the file. */
  lemma SizeIsSafe(size: nat, clock: nat, run: seq<Action>)
    requires clock < HALF && IsRun(Initial(size, clock), run)
    ensures Final(Initial(size, clock), run).extended <= Final(Initial(size, clock), run).a.isize
  {
    RunKeepsInv(Initial(size, clock), run);
  }

  /** When nothing is dirty and no write-back runs, the server knows the full local size. */
  lemma QuietMeansWritten(size: nat, clock: nat, run: seq<Action>)
    requires clock < HALF && IsRun(Initial(size, clock), run)
    requires Final(Initial(size, clock), run).pages == map[]
    ensures Final(Initial(size, clock), run).extended <= Final(Initial(size, clock), run).server
  {
    RunKeepsInv(Initial(size, clock), run);
  }

  /** Writers between the increment and the decrement of the write-back counter. */
  function Active(writers: map<Tid, Writer>): set<Tid> {
    set t | t in writers && !writers[t].Counted?
  }

  ghost predicate CountInv(s: State) {
    s.a.writeBacks == s.senders + |Active(s.writers)|
  }

  lemma SetWriter(writers: map<Tid, Writer>, t: Tid, w: Writer)
    ensures Active(writers[t := w]) == if w.Counted? then Active(writers) - {t} else Active(writers) + {t}
  {
  }

  lemma SyncStepKeepsCount(s: State, act: Action)
    requires CountInv(s) && Enabled(s, act)
    requires act.SyncBegin? || act.SyncSend? || act.SyncFail? || act.SyncCount? || act.SyncExtend?
    ensures CountInv(Next(s, act))
  {
    if act.SyncExtend? {
      assert Active(s.writers - {act.t}) == Active(s.writers);
    } else if act.SyncFail? {
      assert Active(s.writers - {act.t}) == Active(s.writers) - {act.t};
    } else {
      SetWriter(s.writers, act.t, Next(s, act).writers[act.t]);
      if act.SyncSend? {
        assert Active(s.writers) + {act.t} == Active(s.writers);
      }
    }
  }

  lemma StepKeepsCount(s: State, act: Action)
    requires CountInv(s) && Enabled(s, act)
    ensures CountInv(Next(s, act))
  {
    if act.SyncBegin? || act.SyncSend? || act.SyncFail? || act.SyncCount? || act.SyncExtend? {
      SyncStepKeepsCount(s, act);
    } else {
      assert Next(s, act).writers == s.writers;
    }
  }

  lemma {:induction false} RunKeepsCount(s: State, run: seq<Action>)
    requires CountInv(s) && IsRun(s, run)
    ensures CountInv(Final(s, run))
    decreases |run|
  {
    if run != [] {
      StepKeepsCount(s, run[0]);
      RunKeepsCount(Next(s, run[0]), run[1..]);
    }
  }

  /** The write-back counter counts exactly the threads between its increment and decrement, so no
      thread ever decrements it at zero. */
  lemma CounterNeverUnderflows(size: nat, clock: nat, run: seq<Action>, t: Tid)
    requires IsRun(Initial(size, clock), run)
    ensures var s := Final(Initial(size, clock), run);
      && s.a.writeBacks == s.senders + |Active(s.writers)|
      && ((t in s.writers && !s.writers[t].Counted?) || s.senders > 0 ==> s.a.writeBacks > 0)
  {
    assert Active(Initial(size, clock).writers) == {};
    RunKeepsCount(Initial(size, clock), run);
    var s := Final(Initial(size, clock), run);
    if t in s.writers && !s.writers[t].Counted? {
      assert t in Active(s.writers);
    }
  }

  // ---- the server's size is taken whenever that is safe ----

  /** A size that does not shrink the file is always taken, with its block count; so is any size for a file
      that was never written through the page cache. */
  lemma LargerIsTaken(a: Attrs, size: nat, blocks: nat, h: Hints)
    requires a.isize <= size || !a.paged
    ensures ApplyStat(a, size, blocks, h) == a.(isize := size, blocks := blocks)
  {
  }

  /** No size but the server's and that of local writes comes up. */
  ghost predicate UpperInv(s: State) {
    && s.a.isize <= Max(s.extended, s.server)
    && forall t :: t in s.refreshes && s.refreshes[t].Sampled? ==> s.refreshes[t].size <= s.server
  }

  lemma StepKeepsUpper(s: State, act: Action)
    requires UpperInv(s) && Enabled(s, act)
    ensures UpperInv(Next(s, act))
  {
  }

  lemma {:induction false} RunKeepsUpper(s: State, run: seq<Action>)
    requires UpperInv(s) && IsRun(s, run)
    ensures UpperInv(Final(s, run))
    decreases |run|
  {
    if run != [] {
      StepKeepsUpper(s, run[0]);
      RunKeepsUpper(Next(s, run[0]), run[1..]);
    }
  }

  /** Over all interleavings, i_size is never larger than the server's size and all local extensions. */
  lemma SizeIsBounded(size: nat, clock: nat, run: seq<Action>)
    requires IsRun(Initial(size, clock), run)
    ensures var s := Final(Initial(size, clock), run); s.a.isize <= Max(s.extended, s.server)
  {
    RunKeepsUpper(Initial(size, clock), run);
  }

  /** Nothing is dirty, and nobody writes. */
  predicate Quiet(s: State) {
    s.pages == map[] && s.writers == map[] && s.senders == 0
  }

  lemma QuietCounts(size: nat, clock: nat, run: seq<Action>)
    requires IsRun(Initial(size, clock), run) && Final(Initial(size, clock), run).writers == map[]
    ensures var s := Final(Initial(size, clock), run); s.a.writeBacks == s.senders
  {
    CounterNeverUnderflows(size, clock, run, 0);
    assert Active(Final(Initial(size, clock), run).writers) == {};
  }

  /** After any run that leaves the inode quiet, a refresh begun at a later clock takes the server's size,
      whatever that has become, exactly if it does not shrink the file or the no-decrease mark is clear. */
  lemma QuietRefreshIff(size: nat, clock: nat, run: seq<Action>, server: nat, t: Tid, blocks: nat)
    requires clock < HALF && IsRun(Initial(size, clock), run)
    requires var s := Final(Initial(size, clock), run); Quiet(s) && s.a.lastTime < s.clock && t !in s.refreshes
    ensures var s := Final(Initial(size, clock), run).(server := server);
      var refresh := [Hint(t), Sample(t), Apply(t, blocks)];
      && IsRun(s, refresh)
      && (Final(s, refresh).a == s.a.(isize := server, blocks := blocks) <==>
            s.a.isize <= server || !s.a.paged || !s.a.noDecrease || s.a == s.a.(isize := server, blocks := blocks))
  {
    RunKeepsInv(Initial(size, clock), run);
    QuietCounts(size, clock, run);
    var s := Final(Initial(size, clock), run).(server := server);
    RefreshRun(s, t, blocks);
    TimeAfterEqIsOrder(s.a.lastTime, s.clock);
  }

  lemma RunCons(s: State, act: Action, rest: seq<Action>)
    requires Enabled(s, act) && IsRun(Next(s, act), rest)
    ensures IsRun(s, [act] + rest) && Final(s, [act] + rest) == Final(Next(s, act), rest)
  {
    assert ([act] + rest)[1..] == rest;
  }

  lemma RefreshRun(s: State, t: Tid, blocks: nat)
    requires t !in s.refreshes
    ensures IsRun(s, [Hint(t), Sample(t), Apply(t, blocks)])
    ensures Final(s, [Hint(t), Sample(t), Apply(t, blocks)]).a
      == ApplyStat(s.a, s.server, blocks, TakeHints(s.a, Unwritten(s), s.clock))
  {
    var s1 := Next(s, Hint(t));
    var s2 := Next(s1, Sample(t));
    RunCons(s2, Apply(t, blocks), []);
    RunCons(s1, Sample(t), [Apply(t, blocks)] + []);
    RunCons(s, Hint(t), [Sample(t)] + ([Apply(t, blocks)] + []));
    assert [Hint(t)] + ([Sample(t)] + ([Apply(t, blocks)] + [])) == [Hint(t), Sample(t), Apply(t, blocks)];
  }

  /** The mark is clear once the last write-back has ended with nothing left to write. */
  lemma LastWriteBackClears(size: nat, clock: nat, run: seq<Action>)
    requires IsRun(Initial(size, clock), run)
    requires var s := Final(Initial(size, clock), run); s.pages == map[] && s.writers == map[] && s.senders == 1
    ensures var s := Final(Initial(size, clock), run);
      Enabled(s, WbFinish) && Quiet(Next(s, WbFinish)) && !Next(s, WbFinish).a.noDecrease
  {
    QuietCounts(size, clock, run);
  }

  /** A write that bypasses the page cache sets the mark and no write-back follows: the inode is quiet, and
      a size of 0 that another client's truncation left at the server is not taken. */
  lemma MarkOutlivesWriteThrough() returns (run: seq<Action>)
    ensures IsRun(Initial(5, 1), run)
    ensures var s := Final(Initial(5, 1), run);
      && Quiet(s) && s.a.isize == 10 && s.a.noDecrease && s.a.lastTime < s.clock && s.refreshes == map[]
      && ApplyStat(s.a, 0, 0, TakeHints(s.a, Unwritten(s), s.clock)).isize == 10
  {
    run := [SyncBegin(0, 10), SyncSend(0), SyncCount(0), SyncExtend(0), Tick];
    assert run[1..] == [SyncSend(0), SyncCount(0), SyncExtend(0), Tick];
    assert run[1..][1..] == [SyncCount(0), SyncExtend(0), Tick];
    assert run[1..][1..][1..] == [SyncExtend(0), Tick] && run[1..][1..][1..][1..] == [Tick];
    assert run[1..][1..][1..][1..][1..] == [];
    var s1 := Next(Initial(5, 1), SyncBegin(0, 10));
    var s2 := Next(s1, SyncSend(0));
    var s3 := Next(s2, SyncCount(0));
    var s4 := Next(s3, SyncExtend(0));
    assert s4.writers == map[];
    assert Final(Initial(5, 1), run) == Next(s4, Tick);
  }

  // ---- a write and its way to the server ----

  /** A write past the page cache, undisturbed: the server and the inode both have its end, and the thread
      is gone from the counter. */
  lemma WriteThroughArrives(s: State, t: Tid, end: nat)
    requires t !in s.writers
    ensures var run := [SyncBegin(t, end)] + ([SyncSend(t)] + ([SyncCount(t)] + ([SyncExtend(t)] + [])));
      IsRun(s, run) &&
      var r := Final(s, run);
      && r.server == Max(s.server, end) && r.a.isize == Max(s.a.isize, end) && r.a.writeBacks == s.a.writeBacks
      && r.writers == s.writers && r.pages == s.pages
  {
    var s1 := Next(s, SyncBegin(t, end));
    var s2 := Next(s1, SyncSend(t));
    var s3 := Next(s2, SyncCount(t));
    var s4 := Next(s3, SyncExtend(t));
    assert s4.writers == s.writers;
    RunCons(s3, SyncExtend(t), []);
    RunCons(s2, SyncCount(t), [SyncExtend(t)] + []);
    RunCons(s1, SyncSend(t), [SyncCount(t)] + ([SyncExtend(t)] + []));
    RunCons(s, SyncBegin(t, end), [SyncSend(t)] + ([SyncCount(t)] + ([SyncExtend(t)] + [])));
  }

  /** A page written and left dirty: the inode has its end, marked, and the server does not know yet. */
  lemma PageIsWritten(s: State, p: PageNo, end: nat)
    requires p !in s.pages
    ensures var run := [PageBegin(p, end)] + ([PageExtend(p)] + ([PageUnlock(p)] + []));
      IsRun(s, run) &&
      var r := Final(s, run);
      && r.pages == s.pages[p := Dirty(end)] && r.server == s.server
      && r.a.isize == Max(s.a.isize, end) && (s.a.isize < end ==> r.a.noDecrease && r.a.paged && r.a.lastTime == s.clock)
      && r.a.writeBacks == s.a.writeBacks && r.senders == s.senders && r.writers == s.writers
  {
    var s1 := Next(s, PageBegin(p, end));
    var s2 := Next(s1, PageExtend(p));
    var s3 := Next(s2, PageUnlock(p));
    assert s3.pages == s.pages[p := Dirty(end)];
    RunCons(s2, PageUnlock(p), []);
    RunCons(s1, PageExtend(p), [PageUnlock(p)] + []);
    RunCons(s, PageBegin(p, end), [PageExtend(p)] + ([PageUnlock(p)] + []));
  }

  lemma EndsQuiet(s: State, p: PageNo)
    requires p in s.pages && s.pages[p].Acked? && s.pages.Keys == {p} && s.a.writeBacks == 1 && s.senders > 0
    ensures var run := [WbEnd(p)] + ([WbFinish] + []);
      IsRun(s, run) &&
      var r := Final(s, run);
      && r.pages == map[] && r.server == s.server && !r.a.noDecrease && r.a.writeBacks == 0
      && r.senders == s.senders - 1 && r.a.isize == s.a.isize
  {
    var s1 := Next(s, WbEnd(p));
    assert s1.pages == map[];
    RunCons(s1, WbFinish, []);
    RunCons(s, WbEnd(p), [WbFinish] + []);
  }

  /** Writing back the last dirty page: the server has its end, nothing is left to write, the mark is
      clear, and i_size is as before. */
  lemma PageArrives(s: State, p: PageNo)
    requires p in s.pages && s.pages[p].Dirty? && s.pages.Keys == {p} && s.a.writeBacks == 0
    ensures var run := [WbBegin] + ([WbStart(p)] + ([WbAck(p)] + ([WbEnd(p)] + ([WbFinish] + []))));
      IsRun(s, run) &&
      var r := Final(s, run);
      && r.pages == map[] && r.server == Max(s.server, s.pages[p].end)
      && !r.a.noDecrease && r.a.writeBacks == 0 && r.senders == s.senders && r.a.isize == s.a.isize
  {
    var s1 := Next(s, WbBegin);
    var s2 := Next(s1, WbStart(p));
    var s3 := Next(s2, WbAck(p));
    EndsQuiet(s3, p);
    RunCons(s2, WbAck(p), [WbEnd(p)] + ([WbFinish] + []));
    RunCons(s1, WbStart(p), [WbAck(p)] + ([WbEnd(p)] + ([WbFinish] + [])));
    RunCons(s, WbBegin, [WbStart(p)] + ([WbAck(p)] + ([WbEnd(p)] + ([WbFinish] + []))));
  }

  // ---- the native page cache updates the same fields without i_lock ----

  /** The inode after the first k of the four unlocked stores of the native write_end: i_size, the
      page-write flag, the time, and the no-decrease mark. */
  function NativeStores(a: Attrs, end: nat, now: nat, k: nat): Attrs {
    var a1 := if k >= 1 then a.(isize := end) else a;
    var a2 := if k >= 2 then a1.(paged := true) else a1;
    var a3 := if k >= 3 then a2.(lastTime := now) else a2;
    if k >= 4 then a3.(noDecrease := true) else a3
  }

  /** A size that is applied between two of the stores takes the file below the write exactly if the
      answer is smaller and, up to the third store, the old fields do not refuse it. All four together,
      as the paged order stores them under i_lock, are never undone by a refresh hinted earlier. */
  lemma NativeOrderRaces(a: Attrs, end: nat, now: nat, k: nat, size: nat, blocks: nat, h: Hints)
    requires a.isize < end && h.timeBefore <= now < HALF && a.lastTime < HALF && 1 <= k <= 4
    ensures ApplyStat(NativeStores(a, end, now, k), size, blocks, h).isize < end <==>
      && size < end && k <= 2
      && ((k == 1 && !a.paged)
          || (!a.noDecrease && a.writeBacks == 0 && !h.ignoreIsize && a.lastTime < h.timeBefore))
    ensures NativeStores(a, end, now, 4) == Extend(a, end, now)
  {
    TimeAfterEqIsOrder(a.lastTime, h.timeBefore);
    TimeAfterEqIsOrder(now, h.timeBefore);
  }

  /** A file of 100 bytes that is extended to 200 while a refresh holds a sample of 100: applied after the
      second store, the sample takes i_size back to 100. */
  lemma NativeWriteIsUndone()
    ensures ApplyStat(NativeStores(Attrs(100, 1, true, false, 0, 5), 200, 10, 2), 100, 1, Hints(false, 10)).isize == 100
  {
  }
}
