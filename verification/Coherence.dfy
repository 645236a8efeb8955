/** Close-to-open coherence of the native page cache (congfs_open, congfs_flush): the metadata server
    keeps a version number per file, a client that flushes modified data bumps it, and a client that
    opens the file drops its cached pages if its own copy of the number differs. A run interleaves any
    number of clients, each with any number of opens and flushes in flight. */
module Coherence {

  type ClientId = nat
  type PageNo = nat

  const WORD := 0x1_0000_0000_0000_0000
  const WINDOW := 0x8000_0000

  /** The test of congfs_open on the local and the fetched version. */
  predicate MustAcquire(local: nat, remote: nat) {
    || (local > remote && local - remote < WINDOW)
    || (local < remote && remote - local < WINDOW)
  }

  /** One client's inode. Each cached page carries the number of flushes by other clients that were
      complete when its data was fetched. */
  datatype Client = Client(
    version: nat,
    modified: bool,
    pages: map<PageNo, nat>,
    dropping: nat,      // opens that stored a new version and are about to drop the cached pages
    undropped: bool,    // an open stored a new version and no drop was completed since then
    flushing: nat,      // flushes that wrote the dirty pages and are about to bump the version
    flushes: nat)       // completed flushes of this client

  datatype State = State(serverVersion: nat, flushes: nat, clients: map<ClientId, Client>)

  datatype Action =
    | Fetch(c: ClientId, page: PageNo)             // read a page from the servers
    | Modify(c: ClientId, page: PageNo)            // write into a page, which stops being readable as cached data
    | Evict(c: ClientId, page: PageNo)
    | Forget(c: ClientId)                          // drop the inode and all its pages
    | Open(c: ClientId)                            // fetch and compare the version
    | AcquireDone(c: ClientId)
    | AcquireFailed(c: ClientId, kept: set<PageNo>)
    | FlushPages(c: ClientId)
    | FlushPagesFailed(c: ClientId)
    | Bump(c: ClientId)

  predicate Enabled(s: State, a: Action) {
    && a.c in s.clients
    && 0 <= OthersFlushes(s, a.c)
    && var k := s.clients[a.c];
       match a
       case Fetch(_, _) => true
       case Modify(_, _) => true
       case Evict(_, page) => page in k.pages
       case Forget(_) => k.dropping == 0 && k.flushing == 0
       case Open(_) => true
       case AcquireDone(_) => k.dropping > 0
       case AcquireFailed(_, kept) => k.dropping > 0 && kept <= k.pages.Keys
       case FlushPages(_) => k.modified
       case FlushPagesFailed(_) => k.flushing > 0
       case Bump(_) => k.flushing > 0
  }

  /** Completed flushes of the clients other than `c`. */
  function OthersFlushes(s: State, c: ClientId): int
    requires c in s.clients
  {
    s.flushes - s.clients[c].flushes
  }

  /** The open goes on to drop the cached pages. */
  predicate Drops(s: State, c: ClientId)
    requires c in s.clients
  {
    MustAcquire(s.clients[c].version, s.serverVersion)
  }

  function Update(s: State, c: ClientId, k: Client): State {
    s.(clients := s.clients[c := k])
  }

  function Apply(s: State, a: Action): State
    requires Enabled(s, a)
  {
    var k := s.clients[a.c];
    var now: nat := OthersFlushes(s, a.c);
    match a
    case Fetch(c, page) => Update(s, c, k.(pages := k.pages[page := now]))
    case Modify(c, page) => Update(s, c, k.(modified := true, pages := k.pages[page := now]))
    case Evict(c, page) => Update(s, c, k.(pages := k.pages - {page}))
    case Forget(c) => Update(s, c, k.(version := 0, modified := false, pages := map[], undropped := false))
    case Open(c) =>
      if Drops(s, c)
      then Update(s, c, k.(version := s.serverVersion, dropping := k.dropping + 1, undropped := true))
      else Update(s, c, k.(version := s.serverVersion))
    case AcquireDone(c) => Update(s, c, k.(pages := map[], dropping := k.dropping - 1, undropped := false))
    case AcquireFailed(c, kept) =>
      Update(s, c, k.(pages := map p | p in k.pages && p in kept :: k.pages[p], dropping := k.dropping - 1))
    case FlushPages(c) => Update(s, c, k.(modified := false, flushing := k.flushing + 1))
    case FlushPagesFailed(c) => Update(s, c, k.(modified := true, flushing := k.flushing - 1))
    case Bump(c) =>
      Update(s.(serverVersion := (s.serverVersion + 1) % WORD, flushes := s.flushes + 1),
             c, k.(version := (k.version + 1) % WORD, flushing := k.flushing - 1, flushes := k.flushes + 1))
  }

  /** The assumptions on a step: the 64-bit counter does not wrap, and an opening client that still has
      pages missed fewer than 2^31 bumps. */
  predicate Covered(s: State, a: Action) {
    match a
    case Open(c) =>
      c in s.clients ==>
        s.serverVersion - s.clients[c].version < WINDOW || s.clients[c].pages == map[]
    case Bump(c) => s.serverVersion + 1 < WORD
    case _ => true
  }

  predicate Initial(s: State) {
    && s.serverVersion < WORD
    && s.flushes == 0
    && forall c :: c in s.clients ==> s.clients[c] == Client(0, false, map[], 0, false, 0, 0)
  }

  ghost predicate IsRun(s: State, run: seq<Action>)
    decreases |run|
  {
    run == [] || (Enabled(s, run[0]) && Covered(s, run[0]) && IsRun(Apply(s, run[0]), run[1..]))
  }

  ghost function Final(s: State, run: seq<Action>): State
    requires IsRun(s, run)
    decreases |run|
  {
    if run == [] then s else Final(Apply(s, run[0]), run[1..])
  }

  // ---- what is to be shown ----

  /** No page cached at `c` predates a flush that another client has completed. */
  ghost predicate Coherent(s: State, c: ClientId)
    requires c in s.clients
  {
    forall p :: p in s.clients[c].pages ==> OthersFlushes(s, c) <= s.clients[c].pages[p]
  }

  /** Number of bumps the client has missed. */
  function Missed(s: State, c: ClientId): int
    requires c in s.clients
  {
    s.serverVersion - s.clients[c].version
  }

  /** A page can lag behind other clients' flushes only by as many as the versions differ, so a stale
      page implies a positive version difference, unless an open has stored the version and the drop
      that belongs to it has not been completed. */
  ghost predicate ClientInv(s: State, c: ClientId)
    requires c in s.clients
  {
    && 0 <= Missed(s, c)
    && 0 <= OthersFlushes(s, c)
    && (!s.clients[c].undropped ==>
          forall p :: p in s.clients[c].pages ==>
            OthersFlushes(s, c) - s.clients[c].pages[p] <= Missed(s, c))
  }

  ghost predicate Inv(s: State) {
    && s.serverVersion < WORD
    && forall c :: c in s.clients ==> ClientInv(s, c)
  }

  lemma StepKeepsClientInv(s: State, a: Action, c: ClientId)
    requires Inv(s) && Enabled(s, a) && Covered(s, a) && c in s.clients
    ensures ClientInv(Apply(s, a), c)
  {
    assert ClientInv(s, c);
    assert ClientInv(s, a.c);
  }

  lemma StepKeepsInv(s: State, a: Action)
    requires Inv(s) && Enabled(s, a) && Covered(s, a)
    ensures Inv(Apply(s, a)) && Apply(s, a).clients.Keys == s.clients.Keys
  {
    forall c | c in s.clients ensures ClientInv(Apply(s, a), c) {
      StepKeepsClientInv(s, a, c);
    }
  }

  lemma {:induction false} RunKeepsInv(s: State, run: seq<Action>)
    requires Inv(s) && IsRun(s, run)
    ensures Inv(Final(s, run)) && Final(s, run).clients.Keys == s.clients.Keys
    decreases |run|
  {
    if run != [] {
      StepKeepsInv(s, run[0]);
      RunKeepsInv(Apply(s, run[0]), run[1..]);
    }
  }

  lemma RunFromInitial(s: State, run: seq<Action>, c: ClientId)
    requires Initial(s) && IsRun(s, run) && c in Final(s, run).clients
    ensures Inv(Final(s, run)) && ClientInv(Final(s, run), c)
  {
    assert forall k :: k in s.clients ==> ClientInv(s, k);
    RunKeepsInv(s, run);
  }

  /** After any run, with any opens and flushes in flight and any failed drops, an open that returns
      without dropping pages is coherent if every drop that an open of this client began was followed by
      a completed one. */
  lemma OpenIsCoherent(s: State, run: seq<Action>, c: ClientId)
    requires Initial(s) && IsRun(s, run)
    requires var t := Final(s, run); Enabled(t, Open(c)) && Covered(t, Open(c))
    requires var t := Final(s, run); !Drops(t, c) && !t.clients[c].undropped
    ensures Coherent(Apply(Final(s, run), Open(c)), c)
  {
    RunFromInitial(s, run, c);
  }

  /** An open that drops the pages is coherent once that is done, whatever others did meanwhile, and
      leaves the client in order. */
  lemma AcquireIsCoherent(s: State, run: seq<Action>, c: ClientId)
    requires Initial(s) && IsRun(s, run)
    requires Enabled(Final(s, run), AcquireDone(c))
    ensures var after := Apply(Final(s, run), AcquireDone(c)); Coherent(after, c) && !after.clients[c].undropped
  {
    RunFromInitial(s, run, c);
  }

  /** The key invariant, over every run: unless a drop is outstanding, a stale page means the server's
      version is ahead of the client's. */
  lemma StaleMeansBehind(s: State, run: seq<Action>, c: ClientId)
    requires Initial(s) && IsRun(s, run) && c in Final(s, run).clients
    requires !Final(s, run).clients[c].undropped && !Coherent(Final(s, run), c)
    ensures Final(s, run).clients[c].version < Final(s, run).serverVersion
  {
    RunFromInitial(s, run, c);
  }

  /** Bumps in the run by clients other than c. */
  function OthersBumps(run: seq<Action>, c: ClientId): nat {
    if run == [] then 0 else (if run[0].Bump? && run[0].c != c then 1 else 0) + OthersBumps(run[1..], c)
  }

  /** The client takes no version from the server and keeps its inode. */
  ghost predicate KeepsVersion(run: seq<Action>, c: ClientId) {
    forall a :: a in run && a.c == c ==> !a.Open? && !a.Forget?
  }

  /** A client's own flush moves its version along with the server's; another client's flush leaves the
      client one further behind; nothing else but opening and forgetting changes the distance. */
  lemma StepMisses(s: State, a: Action, c: ClientId)
    requires Inv(s) && Enabled(s, a) && Covered(s, a) && c in s.clients
    ensures a.Bump? && a.c == c ==> Missed(Apply(s, a), c) == Missed(s, c)
    ensures a.Bump? && a.c != c ==> Missed(Apply(s, a), c) == Missed(s, c) + 1
    ensures !a.Bump? && !(a.c == c && (a.Open? || a.Forget?)) ==> Missed(Apply(s, a), c) == Missed(s, c)
    ensures a.Open? && a.c == c ==> Missed(Apply(s, a), c) == 0
    ensures a.Forget? && a.c == c ==> Missed(Apply(s, a), c) == s.serverVersion && Apply(s, a).clients[c].pages == map[]
  {
    assert ClientInv(s, c);
    assert ClientInv(s, a.c);
  }

  /** Between opens the client misses exactly the bumps of others. */
  lemma {:induction false} MissesOthersBumps(s: State, run: seq<Action>, c: ClientId)
    requires Inv(s) && IsRun(s, run) && c in s.clients && KeepsVersion(run, c)
    ensures c in Final(s, run).clients && Missed(Final(s, run), c) == Missed(s, c) + OthersBumps(run, c)
    decreases |run|
  {
    if run != [] {
      StepMisses(s, run[0], c);
      StepKeepsInv(s, run[0]);
      assert KeepsVersion(run[1..], c);
      MissesOthersBumps(Apply(s, run[0]), run[1..], c);
    }
  }

  /** Whether an open drops the pages depends on what happened since the client's last open alone: it does
      so exactly if another client bumped the version in between. The client's own flushes do not count,
      nor does how stale its pages are. */
  lemma OpenDropsIff(s: State, before: seq<Action>, since: seq<Action>, c: ClientId)
    requires Initial(s) && IsRun(s, before)
    requires var t := Final(s, before); Enabled(t, Open(c)) && Covered(t, Open(c))
    requires var t := Apply(Final(s, before), Open(c)); IsRun(t, since) && KeepsVersion(since, c)
    ensures var t := Final(Apply(Final(s, before), Open(c)), since);
      c in t.clients && (Drops(t, c) <==> 0 < OthersBumps(since, c) < WINDOW)
  {
    RunFromInitial(s, before, c);
    var t := Final(s, before);
    StepMisses(t, Open(c), c);
    StepKeepsInv(t, Open(c));
    MissesOthersBumps(Apply(t, Open(c)), since, c);
  }

  /** A modification is remembered until a flush takes it over, also if a flush fails; and a client that
      modified nothing since its last flush has nothing to flush. */
  lemma ModifiedIsRemembered(s: State, a: Action, c: ClientId)
    requires Enabled(s, a) && c in s.clients
    ensures a.c == c && (a.Modify? || a.FlushPagesFailed?) ==> Apply(s, a).clients[c].modified
    ensures a.c == c && a.FlushPages? ==> !Apply(s, a).clients[c].modified
    ensures !(a.c == c && (a.Modify? || a.FlushPagesFailed? || a.FlushPages? || a.Forget?)) ==>
      Apply(s, a).clients[c].modified == s.clients[c].modified
  {
  }

  // ---- the drop that is outstanding ----

  /** A second open in the same client, made while the first is still about to drop the pages: it never
      drops them itself, and it is coherent exactly if the client's pages were so before the first. */
  lemma SecondOpen(s: State, c: ClientId)
    requires Inv(s) && Enabled(s, Open(c)) && Covered(s, Open(c))
    ensures var first := Apply(s, Open(c));
      && Enabled(first, Open(c)) && Covered(first, Open(c)) && !Drops(first, c)
      && (Coherent(Apply(first, Open(c)), c) <==> Coherent(s, c))
  {
    assert ClientInv(s, c);
    var first := Apply(s, Open(c));
    var second := Apply(first, Open(c));
    assert second.clients[c].pages == s.clients[c].pages && OthersFlushes(second, c) == OthersFlushes(s, c);
  }

  /** A page that an unfinished or failed drop left behind stays, and further opens return with it, for
      as long as no other client bumps the version. */
  lemma {:induction false} StaleUntilBump(s: State, c: ClientId, p: PageNo, opens: nat)
    requires c in s.clients && 0 <= OthersFlushes(s, c) && s.clients[c].version == s.serverVersion
    requires p in s.clients[c].pages && s.clients[c].pages[p] < OthersFlushes(s, c)
    ensures var run := seq(opens, _ => Open(c));
      IsRun(s, run) && Final(s, run) == s && !Coherent(Final(s, run), c)
  {
    if opens > 0 {
      var run := seq(opens, _ => Open(c));
      assert Apply(s, Open(c)) == s by {
        assert Update(s, c, s.clients[c]).clients == s.clients;
      }
      assert run[0] == Open(c) && run[1..] == seq(opens - 1, _ => Open(c));
      StaleUntilBump(s, c, p, opens - 1);
    }
  }

  /** The next bump by another client repairs this: the following open drops the pages again. */
  lemma BumpRepairs(s: State, c: ClientId, d: ClientId)
    requires c in s.clients && d != c && Enabled(s, Bump(d)) && Covered(s, Bump(d))
    requires s.clients[c].version == s.serverVersion
    ensures Drops(Apply(s, Bump(d)), c)
  {
  }

  lemma {:induction false} RunSnoc(s: State, run: seq<Action>, a: Action)
    requires IsRun(s, run)
    requires var t := Final(s, run); Enabled(t, a) && Covered(t, a)
    ensures IsRun(s, run + [a]) && Final(s, run + [a]) == Apply(Final(s, run), a)
    decreases |run|
  {
    if run == [] {
      assert run + [a] == [a];
      assert [a][1..] == [];
    } else {
      RunSnoc(Apply(s, run[0]), run[1..], a);
      assert (run + [a])[1..] == run[1..] + [a];
    }
  }

  /** A run that leaves client 0 with a stale page and an open that is about to drop it. */
  lemma OpenWithStalePage() returns (s: State, run: seq<Action>)
    ensures Initial(s) && IsRun(s, run) && 0 in Final(s, run).clients
    ensures forall a :: a in run ==> !a.AcquireFailed?
    ensures var t := Final(s, run);
      && t.clients[0].dropping == 1 && t.clients[0].undropped
      && t.clients[0].version == t.serverVersion
      && t.clients[0].pages == map[5 := 0] && OthersFlushes(t, 0) == 1
  {
    var unused := Client(0, false, map[], 0, false, 0, 0);
    s := State(0, 0, map[0 := unused, 1 := unused]);
    run := [];
    RunSnoc(s, run, Fetch(0, 5));
    run := run + [Fetch(0, 5)];
    RunSnoc(s, run, Modify(1, 5));
    run := run + [Modify(1, 5)];
    RunSnoc(s, run, FlushPages(1));
    run := run + [FlushPages(1)];
    RunSnoc(s, run, Bump(1));
    run := run + [Bump(1)];
    RunSnoc(s, run, Open(0));
    run := run + [Open(0)];
  }

  /** In such a run a second open succeeds with the stale page although no call failed. */
  lemma OverlappingOpensAreIncoherent() returns (s: State, run: seq<Action>)
    ensures Initial(s) && IsRun(s, run) && (forall a :: a in run ==> !a.AcquireFailed?)
    ensures var t := Final(s, run);
      0 in t.clients && Enabled(t, Open(0)) && !Drops(t, 0) && !Coherent(Apply(t, Open(0)), 0)
  {
    s, run := OpenWithStalePage();
    assert 5 in Apply(Final(s, run), Open(0)).clients[0].pages;
  }

  /** So does an open after a drop that failed. */
  lemma FailedDropIsIncoherent() returns (s: State, run: seq<Action>)
    ensures Initial(s) && IsRun(s, run)
    ensures var t := Final(s, run);
      && 0 in t.clients && t.clients[0].dropping == 0 && t.clients[0].undropped
      && Enabled(t, Open(0)) && !Drops(t, 0) && !Coherent(Apply(t, Open(0)), 0)
  {
    s, run := OpenWithStalePage();
    RunSnoc(s, run, AcquireFailed(0, {5}));
    run := run + [AcquireFailed(0, {5})];
    assert 5 in Apply(Final(s, run), Open(0)).clients[0].pages;
  }
}
