/** The barrier of a write-back (SynchronizedCounter.h): the write-back thread submits batches to worker
    threads, subtracts their number from a shared counter and waits; each worker adds one when it is
    done. Whoever brings the counter to zero signals. The counter and the signal live on the stack of
    the write-back thread, so that nobody may touch them once it has returned from the wait. */
module WritebackBarrier {

  /** A worker thread with its batch: it runs the batch once, adds one to the counter, and signals if
      that made the counter zero. */
  datatype Stage = Waiting | Running | Ran | Signalling | Gone

  /** The write-back thread: it submits, subtracts, signals if that made the counter zero, waits. */
  datatype Thread = Submitting | MustSignal | Blocked | Returned

  datatype State = State(
    thread: Thread,
    workers: seq<Stage>,   // one per submitted batch
    count: int,            // the atomic counter
    signals: nat,          // completions not consumed yet
    runs: seq<nat>)        // how often each submitted batch was run

  datatype Step =
    | Submit
    | RunInline            // a globally locked append batch runs in the write-back thread
    | Subtract
    | SignalSelf
    | Wake
    | Begin(worker: nat)
    | Finish(worker: nat)
    | Add(worker: nat)
    | Signal(worker: nat)

  predicate AtStage(s: State, i: nat, g: Stage) {
    i < |s.workers| && s.workers[i] == g
  }

  predicate Enabled(s: State, a: Step) {
    |s.runs| == |s.workers| &&
    match a
    case Submit => s.thread == Submitting
    case RunInline => s.thread == Submitting
    case Subtract => s.thread == Submitting
    case SignalSelf => s.thread == MustSignal
    case Wake => s.thread == Blocked && s.signals > 0
    case Begin(i) => AtStage(s, i, Waiting)
    case Finish(i) => AtStage(s, i, Running)
    case Add(i) => AtStage(s, i, Ran)
    case Signal(i) => AtStage(s, i, Signalling)
  }

  function Apply(s: State, a: Step): State
    requires Enabled(s, a)
  {
    match a
    case Submit => s.(workers := s.workers + [Waiting], runs := s.runs + [0])
    case RunInline => s
    case Subtract =>
      var count := s.count - |s.workers|;
      s.(count := count, thread := if count == 0 then MustSignal else Blocked)
    case SignalSelf => s.(signals := s.signals + 1, thread := Blocked)
    case Wake => s.(signals := s.signals - 1, thread := Returned)
    case Begin(i) => s.(workers := s.workers[i := Running])
    case Finish(i) => s.(workers := s.workers[i := Ran], runs := s.runs[i := s.runs[i] + 1])
    case Add(i) =>
      var count := s.count + 1;
      s.(count := count, workers := s.workers[i := if count == 0 then Signalling else Gone])
    case Signal(i) => s.(signals := s.signals + 1, workers := s.workers[i := Gone])
  }

  const INITIAL := State(Submitting, [], 0, 0, [])

  predicate IsRun(s: State, steps: seq<Step>)
    decreases |steps|
  {
    steps == [] || (Enabled(s, steps[0]) && IsRun(Apply(s, steps[0]), steps[1..]))
  }

  function Final(s: State, steps: seq<Step>): State
    requires IsRun(s, steps)
    decreases |steps|
  {
    if steps == [] then s else Final(Apply(s, steps[0]), steps[1..])
  }

  predicate Added(g: Stage) { g == Signalling || g == Gone }

  function CountAdded(w: seq<Stage>, n: nat): nat
    requires n <= |w|
  {
    if n == 0 then 0 else CountAdded(w, n - 1) + if Added(w[n - 1]) then 1 else 0
  }

  function CountSignalling(w: seq<Stage>, n: nat): nat
    requires n <= |w|
  {
    if n == 0 then 0 else CountSignalling(w, n - 1) + if w[n - 1] == Signalling then 1 else 0
  }

  predicate PastSubtract(s: State) {
    s.thread != Submitting
  }

  /** All batches are accounted for, on both sides of the counter. */
  predicate AtZero(s: State) {
    PastSubtract(s) && CountAdded(s.workers, |s.workers|) == |s.workers|
  }

  /** The signal is pending in exactly one place from the moment the counter meets zero on. */
  function SignalPlaces(s: State): nat {
    CountSignalling(s.workers, |s.workers|) + s.signals
      + (if s.thread == MustSignal then 1 else 0)
      + (if s.thread == Returned then 1 else 0)
  }

  ghost predicate Inv(s: State) {
    && |s.runs| == |s.workers|
    && s.count == CountAdded(s.workers, |s.workers|) - (if PastSubtract(s) then |s.workers| else 0)
    && SignalPlaces(s) == (if AtZero(s) then 1 else 0)
    && (forall i :: 0 <= i < |s.workers| ==>
          s.runs[i] == if s.workers[i] == Waiting || s.workers[i] == Running then 0 else 1)
  }

  lemma {:induction false} CountUpdate(w: seq<Stage>, i: nat, g: Stage, n: nat)
    requires i < |w| && n <= |w|
    ensures CountAdded(w[i := g], n) == CountAdded(w, n)
      + if i < n then (if Added(g) then 1 else 0) - (if Added(w[i]) then 1 else 0) else 0
    ensures CountSignalling(w[i := g], n) == CountSignalling(w, n)
      + if i < n then (if g == Signalling then 1 else 0) - (if w[i] == Signalling then 1 else 0) else 0
  {
    if n > 0 {
      CountUpdate(w, i, g, n - 1);
    }
  }

  lemma {:induction false} CountPrefix(w: seq<Stage>, g: Stage, n: nat)
    requires n <= |w|
    ensures CountAdded(w + [g], n) == CountAdded(w, n)
    ensures CountSignalling(w + [g], n) == CountSignalling(w, n)
  {
    if n > 0 {
      CountPrefix(w, g, n - 1);
    }
  }

  lemma {:induction false} AllAdded(w: seq<Stage>, n: nat)
    requires n <= |w|
    ensures CountAdded(w, n) <= n
    ensures CountAdded(w, n) == n <==> forall i :: 0 <= i < n ==> Added(w[i])
    ensures CountSignalling(w, n) == 0 <==> forall i :: 0 <= i < n ==> w[i] != Signalling
  {
    if n > 0 {
      AllAdded(w, n - 1);
    }
  }

  lemma AddKeepsInv(s: State, i: nat)
    requires Inv(s) && Enabled(s, Add(i))
    ensures Inv(Apply(s, Add(i)))
  {
    var n := |s.workers|;
    AllAdded(s.workers, n);
    var g := if s.count + 1 == 0 then Signalling else Gone;
    CountUpdate(s.workers, i, g, n);
    AllAdded(s.workers[i := g], n);
  }

  lemma WorkerKeepsInv(s: State, a: Step)
    requires Inv(s) && Enabled(s, a) && (a.Begin? || a.Finish? || a.Signal?)
    ensures Inv(Apply(s, a))
  {
    var g := if a.Begin? then Running else if a.Finish? then Ran else Gone;
    CountUpdate(s.workers, a.worker, g, |s.workers|);
  }

  lemma StepKeepsInv(s: State, a: Step)
    requires Inv(s) && Enabled(s, a)
    ensures Inv(Apply(s, a))
  {
    if a.Add? {
      AddKeepsInv(s, a.worker);
    } else if a.Begin? || a.Finish? || a.Signal? {
      WorkerKeepsInv(s, a);
    } else {
      AllAdded(s.workers, |s.workers|);
      CountPrefix(s.workers, Waiting, |s.workers|);
    }
  }

  lemma {:induction false} RunKeepsInv(s: State, steps: seq<Step>)
    requires Inv(s) && IsRun(s, steps)
    ensures Inv(Final(s, steps))
    decreases |steps|
  {
    if steps != [] {
      StepKeepsInv(s, steps[0]);
      RunKeepsInv(Apply(s, steps[0]), steps[1..]);
    }
  }

  /** When the wait has returned, every submitted batch was run exactly once, and no step is still
      possible: no worker is left that could touch the context. */
  lemma ReturnIsSafe(steps: seq<Step>)
    requires IsRun(INITIAL, steps) && Final(INITIAL, steps).thread == Returned
    ensures var s := Final(INITIAL, steps);
            && (forall i :: 0 <= i < |s.runs| ==> s.runs[i] == 1)
            && (forall a: Step :: !Enabled(s, a))
  {
    RunKeepsInv(INITIAL, steps);
    var s := Final(INITIAL, steps);
    AllAdded(s.workers, |s.workers|);
  }

  /** Nobody gets stuck: until the wait has returned, some step is possible. */
  lemma NoLostWakeup(steps: seq<Step>)
    requires IsRun(INITIAL, steps) && Final(INITIAL, steps).thread != Returned
    ensures exists a: Step :: Enabled(Final(INITIAL, steps), a)
  {
    RunKeepsInv(INITIAL, steps);
    var s := Final(INITIAL, steps);
    AllAdded(s.workers, |s.workers|);
    if s.thread == Submitting {
      assert Enabled(s, Subtract);
    } else if s.thread == MustSignal {
      assert Enabled(s, SignalSelf);
    } else if s.signals > 0 {
      assert Enabled(s, Wake);
    } else {
      var i :| 0 <= i < |s.workers| && s.workers[i] != Gone;
      var w := s.workers[i];
      assert Enabled(s, if w == Waiting then Begin(i) else if w == Running then Finish(i)
                        else if w == Ran then Add(i) else Signal(i));
    }
  }

  /** How many steps the workers and the waiting thread have left. */
  function Left(g: Stage): nat {
    match g case Waiting => 4 case Running => 3 case Ran => 2 case Signalling => 1 case Gone => 0
  }

  function WorkLeft(w: seq<Stage>, n: nat): nat
    requires n <= |w|
  {
    if n == 0 then 0 else WorkLeft(w, n - 1) + Left(w[n - 1])
  }

  function StepsLeft(s: State): nat {
    WorkLeft(s.workers, |s.workers|)
      + (match s.thread case Submitting => 3 case MustSignal => 2 case Blocked => 1 case Returned => 0)
  }

  lemma {:induction false} WorkLeftUpdate(w: seq<Stage>, i: nat, g: Stage, n: nat)
    requires i < |w| && n <= |w|
    ensures WorkLeft(w[i := g], n) == WorkLeft(w, n) + if i < n then Left(g) - Left(w[i]) else 0
  {
    if n > 0 {
      WorkLeftUpdate(w, i, g, n - 1);
    }
  }

  /** Once all batches are submitted, every step brings the end closer: the wait does return. */
  lemma EveryStepCounts(s: State, a: Step)
    requires PastSubtract(s) && Enabled(s, a)
    ensures StepsLeft(Apply(s, a)) < StepsLeft(s)
  {
    var n := |s.workers|;
    match a
    case Begin(i) => WorkLeftUpdate(s.workers, i, Running, n);
    case Finish(i) => WorkLeftUpdate(s.workers, i, Ran, n);
    case Add(i) => WorkLeftUpdate(s.workers, i, if s.count + 1 == 0 then Signalling else Gone, n);
    case Signal(i) => WorkLeftUpdate(s.workers, i, Gone, n);
    case SignalSelf =>
    case Wake =>
  }
}
