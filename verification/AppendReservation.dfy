/** Reserving file space for appended data: appendfileVecOffset (FhgfsOpsHelper.c) and
    congfs_allocate_ard (FhgfsOpsFileNative.c), then any number of clients doing so at once under the
    metadata server's append lock. */
module AppendReservation {
  import opened Basics
  import opened FileBytes
  import opened BufferedCache

  /** Results of the lock and stat calls: 0 or a positive error. */
  datatype Calls = Calls(lockErr: nat, statErr: nat, writes: seq<WriteOutcome>)

  function Outcome(c: Calls, k: nat): WriteOutcome {
    if k < |c.writes| then c.writes[k] else WriteDone
  }

  /** How far the vectors have been written: the file, where the next vector goes, the last answer. */
  datatype Progress = Progress(content: seq<Byte>, size: nat, res: int)

  /** The first n vectors, up to and including the first that fails. A short answer does not stop the
      writing: the next vector follows the bytes that were counted. */
  function Advance(f: seq<Byte>, start: nat, data: seq<seq<Byte>>, c: Calls, n: nat): Progress
    requires n <= |data|
  {
    if n == 0 then Progress(f, start, 0)
    else
      var p := Advance(f, start, data, c, n - 1);
      if p.res < 0 then p
      else
        var res := Outcome(c, n - 1).Answer(|data[n - 1]|);
        Progress(Outcome(c, n - 1).Apply(p.content, p.size, data[n - 1]), p.size + Max(0, res), res)
  }

  lemma {:induction false} AdvanceStopped(f: seq<Byte>, start: nat, data: seq<seq<Byte>>, c: Calls, k: nat, n: nat)
    requires k <= n <= |data| && Advance(f, start, data, c, k).res < 0
    ensures Advance(f, start, data, c, n) == Advance(f, start, data, c, k)
  {
    if k < n {
      AdvanceStopped(f, start, data, c, k, n - 1);
    }
  }

  class RemoteFile {
    var content: seq<Byte>

    constructor (initial: seq<Byte>)
      ensures content == initial
    {
      content := initial;
    }

    /** appendfileVecOffset: write the vectors one behind the other, starting `fromEnd` bytes behind
        the end of the file. `newOffset` is assigned only if lock and stat succeed. */
    method AppendVecOffset(data: seq<seq<Byte>>, fromEnd: nat, c: Calls) returns (res: int, newOffset: Option<nat>)
      modifies this
      ensures newOffset.None? <==> c.lockErr != 0 || c.statErr != 0
      ensures newOffset.None? ==> content == old(content) && res < 0
      ensures newOffset.Some? ==>
        Progress(content, newOffset.value, res) == Advance(old(content), |old(content)| + fromEnd, data, c, |data|)
      ensures newOffset.Some? && (forall k :: 0 <= k < |data| ==> Outcome(c, k).WriteDone?) ==>
        && content == Write(old(content), |old(content)| + fromEnd, Concat(data, |data|))
        && newOffset.value == |old(content)| + fromEnd + |Concat(data, |data|)|
        && (data != [] ==> res == |data[|data| - 1]|)
      ensures newOffset.Some? && |data| == 1 ==>
        && res == Outcome(c, 0).Answer(|data[0]|)
        && content == Outcome(c, 0).Apply(old(content), |old(content)| + fromEnd, data[0])
        && newOffset.value == |old(content)| + fromEnd + Max(0, res)
    {
      if c.lockErr != 0 {
        return 0 - c.lockErr, None;
      }
      if c.statErr != 0 {
        return 0 - c.statErr, None;
      }
      ghost var start := |content| + fromEnd;
      ghost var f := content;
      var size := |content| + fromEnd;
      res := 0;
      var k := 0;
      while k < |data|
        invariant k <= |data| && size >= 0
        invariant Advance(f, start, data, c, k) == Progress(content, size, res) && 0 <= res
      {
        res := Outcome(c, k).Answer(|data[k]|);
        content := Outcome(c, k).Apply(content, size, data[k]);
        if res < 0 {
          AdvanceStopped(f, start, data, c, k + 1, |data|);
          break;
        }
        size := size + res;
        k := k + 1;
      }
      newOffset := Some(size);
      AllArrive(f, start, data, c, |data|);
      assert |data| == 1 ==> Advance(f, start, data, c, 0) == Progress(f, start, 0);
    }
  }

  /** With successful writes, the vectors are one write of their concatenation. */
  lemma {:induction false} AllArrive(f: seq<Byte>, start: nat, data: seq<seq<Byte>>, c: Calls, n: nat)
    requires n <= |data|
    ensures (forall k :: 0 <= k < n ==> Outcome(c, k).WriteDone?) ==>
      Advance(f, start, data, c, n)
        == Progress(Write(f, start, Concat(data, n)), start + |Concat(data, n)|, if n == 0 then 0 else |data[n - 1]|)
  {
    if n > 0 {
      AllArrive(f, start, data, c, n - 1);
      WriteConcat(f, start, Concat(data, n - 1), data[n - 1]);
    }
  }

  /** The bytes of the first n vectors. */
  function Concat(data: seq<seq<Byte>>, n: nat): seq<Byte>
    requires n <= |data|
  {
    if n == 0 then [] else Concat(data, n - 1) + data[n - 1]
  }

  /** An append range descriptor before write-back: `fileOffset` is -1 until space is reserved. */
  class Ard {
    var fileOffset: int
    var size: nat

    constructor (n: nat)
      ensures fileOffset == -1 && size == n
    {
      fileOffset, size := -1, n;
    }

    /** allocate_ard without global append locks: reserve space by writing one zero byte where the
        last appended byte will go. The reserved range starts at the old end of the file exactly if
        that byte was written. */
    method Allocate(file: RemoteFile, c: Calls) returns (err: int)
      requires 1 <= size
      modifies this`fileOffset, file
      ensures old(fileOffset) >= 0 ==> err == 0 && fileOffset == old(fileOffset) && file.content == old(file.content)
      ensures old(fileOffset) < 0 ==>
        var end, r := |old(file.content)|, Outcome(c, 0).Answer(1);
        if c.lockErr != 0 || c.statErr != 0 then
          err < 0 && fileOffset == old(fileOffset) && file.content == old(file.content)
        else
          && (err == 0 <==> 0 <= r)
          && (fileOffset == end <==> r == 1 || (r < 0 && size == 1))
          && (r == 1 ==> |file.content| == end + size)
          && (r == 0 ==> fileOffset == end - 1)
          && (r < 0 ==> fileOffset == end + size - 1)
    {
      if fileOffset >= 0 {
        return 0;
      }
      var zero := [0];
      var res, newOffset := file.AppendVecOffset([zero], size - 1, c);
      if newOffset.Some? {
        fileOffset := newOffset.value;
      }
      if res >= 0 {
        fileOffset := fileOffset - size;
        err := 0;
      } else {
        err := res;
      }
    }
  }

  // ---- many clients ----

  type ClientId = nat

  datatype Range = Range(offset: nat, len: nat)

  /** Where a client stands in its reservation of `n` bytes. */
  datatype Pc = Locked(n: nat) | Statted(n: nat, size: nat) | Reserved(n: nat, size: nat)

  datatype State = State(size: nat, holder: Option<ClientId>, busy: map<ClientId, Pc>, granted: seq<Range>)

  datatype Action =
    | Lock(c: ClientId, n: nat)
    | Stat(c: ClientId)
    | WriteLastByte(c: ClientId)
    | Publish(c: ClientId)         // compute the file offset and release the lock
    | GiveUp(c: ClientId)          // some call failed: release the lock, nothing is granted
    | Grow(size: nat)              // a write by anybody, under no lock

  predicate Enabled(s: State, a: Action) {
    match a
    case Lock(c, n) => s.holder == None && c !in s.busy && 1 <= n
    case Stat(c) => c in s.busy && s.busy[c].Locked?
    case WriteLastByte(c) => c in s.busy && s.busy[c].Statted?
    case Publish(c) => c in s.busy && s.busy[c].Reserved?
    case GiveUp(c) => c in s.busy
    case Grow(size) => s.size <= size
  }

  function Next(s: State, a: Action): State
    requires Enabled(s, a)
  {
    match a
    case Lock(c, n) => s.(holder := Some(c), busy := s.busy[c := Locked(n)])
    case Stat(c) => s.(busy := s.busy[c := Statted(s.busy[c].n, s.size)])
    case WriteLastByte(c) =>
      var last := s.busy[c].size + s.busy[c].n - 1;
      s.(size := Max(s.size, last + 1), busy := s.busy[c := Reserved(s.busy[c].n, s.busy[c].size)])
    case Publish(c) =>
      var newOffset := s.busy[c].size + s.busy[c].n - 1 + 1;
      s.(granted := s.granted + [Range(Max(0, newOffset - s.busy[c].n), s.busy[c].n)],
         busy := s.busy - {c}, holder := None)
    case GiveUp(c) => s.(busy := s.busy - {c}, holder := None)
    case Grow(size) => s.(size := size)
  }

  ghost predicate IsRun(s: State, run: seq<Action>)
    decreases |run|
  {
    run == [] || (Enabled(s, run[0]) && IsRun(Next(s, run[0]), run[1..]))
  }

  ghost function Final(s: State, run: seq<Action>): State
    requires IsRun(s, run)
    decreases |run|
  {
    if run == [] then s else Final(Next(s, run[0]), run[1..])
  }

  /** All granted ranges end at or before `x`. */
  ghost predicate GrantedUpTo(s: State, x: nat) {
    forall k :: 0 <= k < |s.granted| ==> s.granted[k].offset + s.granted[k].len <= x
  }

  /** Ranges are granted in file order, each starting no earlier than the one before ends. */
  ghost predicate Ordered(granted: seq<Range>) {
    forall k, l :: 0 <= k < l < |granted| ==> granted[k].offset + granted[k].len <= granted[l].offset
  }

  ghost predicate Inv(s: State, initial: nat) {
    && initial <= s.size
    && (forall k :: 0 <= k < |s.granted| ==> initial <= s.granted[k].offset)
    && (forall c :: c in s.busy && !s.busy[c].Locked? ==> initial <= s.busy[c].size)
    && GrantedUpTo(s, s.size)
    && Ordered(s.granted)
    && (forall c :: c in s.busy ==> s.holder == Some(c))
    && (forall c :: c in s.busy && !s.busy[c].Locked? ==> s.busy[c].size <= s.size && GrantedUpTo(s, s.busy[c].size))
    && (forall c :: c in s.busy && s.busy[c].Reserved? ==> s.busy[c].size + s.busy[c].n <= s.size)
  }

  lemma StepKeepsInv(s: State, initial: nat, a: Action)
    requires Inv(s, initial) && Enabled(s, a)
    ensures Inv(Next(s, a), initial)
  {
    if a.Publish? {
      var s' := Next(s, a);
      assert GrantedUpTo(s, s.busy[a.c].size);
      assert s'.granted[|s.granted|] == Range(s.busy[a.c].size, s.busy[a.c].n);
      assert s'.busy == map[] by {
        assert forall c :: c in s.busy ==> c == a.c;
      }
    }
  }

  lemma {:induction false} RunKeepsInv(s: State, initial: nat, run: seq<Action>)
    requires Inv(s, initial) && IsRun(s, run)
    ensures Inv(Final(s, run), initial)
    decreases |run|
  {
    if run != [] {
      StepKeepsInv(s, initial, run[0]);
      RunKeepsInv(Next(s, run[0]), initial, run[1..]);
    }
  }

  /** In every interleaving of any number of clients, with the file growing at any time, no byte is
      reserved twice, and every reserved byte lies inside the file but behind what it held at first. */
  lemma ReservationsAreDisjoint(size: nat, run: seq<Action>, k: nat, l: nat, x: nat)
    requires IsRun(State(size, None, map[], []), run)
    requires var g := Final(State(size, None, map[], []), run).granted;
      && k < |g| && l < |g|
      && g[k].offset <= x < g[k].offset + g[k].len
      && g[l].offset <= x < g[l].offset + g[l].len
    ensures k == l && size <= x < Final(State(size, None, map[], []), run).size
  {
    RunKeepsInv(State(size, None, map[], []), size, run);
  }

  /** What a client is granted is what it asked for: as many bytes, from the end of the file that it saw. */
  lemma GrantedAsAsked(s: State, c: ClientId, n: nat, grown: nat)
    requires Inv(s, 0) && s.holder == None && c !in s.busy && 1 <= n && s.size <= grown
    ensures var run := [Lock(c, n), Grow(grown), Stat(c), WriteLastByte(c), Publish(c)];
      && IsRun(s, run)
      && Final(s, run).granted == s.granted + [Range(grown, n)] && Final(s, run).size == grown + n
  {
    var s1 := Next(s, Lock(c, n));
    var s2 := Next(s1, Grow(grown));
    var s3 := Next(s2, Stat(c));
    var s4 := Next(s3, WriteLastByte(c));
    RunCons(s4, Publish(c), []);
    RunCons(s3, WriteLastByte(c), [Publish(c)] + []);
    RunCons(s2, Stat(c), [WriteLastByte(c)] + ([Publish(c)] + []));
    var rest := [Stat(c)] + ([WriteLastByte(c)] + ([Publish(c)] + []));
    RunCons(s1, Grow(grown), rest);
    RunCons(s, Lock(c, n), [Grow(grown)] + rest);
    assert [Lock(c, n)] + ([Grow(grown)] + rest) == [Lock(c, n), Grow(grown), Stat(c), WriteLastByte(c), Publish(c)];
  }

  lemma RunCons(s: State, a: Action, rest: seq<Action>)
    requires Enabled(s, a) && IsRun(Next(s, a), rest)
    ensures IsRun(s, [a] + rest) && Final(s, [a] + rest) == Final(Next(s, a), rest)
  {
    assert ([a] + rest)[1..] == rest;
  }

  /** In every interleaving a published range is the one that was statted and written. */
  lemma PublishedIsReserved(s: State, c: ClientId)
    requires Enabled(s, Publish(c))
    ensures Next(s, Publish(c)).granted == s.granted + [Range(s.busy[c].size, s.busy[c].n)]
    ensures Next(s, Publish(c)).holder == None && c !in Next(s, Publish(c)).busy
  {
  }
}
