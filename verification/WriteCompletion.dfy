/** What a vectored write of a batch of pages does to the pages afterwards (FhgfsOpsFileNative.c): the
    loop walks over the page segments with the number of written bytes and cleans a page if what is left
    of that number covers its segment, else marks it dirty again. */
module WriteCompletion {

  /** Where the segment of page n starts in the written vector. */
  function Start(lens: seq<nat>, n: nat): nat
    requires n <= |lens|
  {
    if n == 0 then 0 else Start(lens, n - 1) + lens[n - 1]
  }

  lemma {:induction false} StartMonotone(lens: seq<nat>, m: nat, n: nat)
    requires m <= n <= |lens|
    ensures Start(lens, m) <= Start(lens, n)
  {
    if m < n {
      StartMonotone(lens, m, n - 1);
    }
  }

  /** The first `written` bytes of the vector arrived: page n's segment is among them. */
  predicate Arrived(lens: seq<nat>, written: nat, n: nat)
    requires n < |lens|
  {
    lens[n] == 0 || Start(lens, n + 1) <= written
  }

  /** Some page that did not arrive is followed by a page whose segment fits in the bytes that remain
      after the pages before it. */
  ghost predicate ShortPageFollows(lens: seq<nat>, written: nat) {
    exists k: nat, j: nat :: Overtakes(lens, written, k, j)
  }

  ghost predicate Overtakes(lens: seq<nat>, written: nat, k: nat, j: nat) {
    && k < j < |lens|
    && Start(lens, k) <= written < Start(lens, k + 1)
    && 0 < lens[j] <= written - Start(lens, k)
  }

  /** No page is both clean and unwritten. */
  ghost predicate CleansOnlyWritten(lens: seq<nat>, written: nat, cleaned: seq<bool>)
    requires |cleaned| == |lens|
  {
    forall n :: 0 <= n < |lens| && cleaned[n] ==> Arrived(lens, written, n)
  }

  /** The loop over the pages after a write that returned `written`. Every page that arrived is cleaned.
      A page that did not arrive is cleaned too exactly if a page can overtake a longer one. */
  method CompletePages(lens: seq<nat>, written: nat) returns (cleaned: seq<bool>, err: bool)
    requires written <= Start(lens, |lens|)
    ensures |cleaned| == |lens|
    ensures forall n :: 0 <= n < |lens| && Arrived(lens, written, n) ==> cleaned[n]
    ensures CleansOnlyWritten(lens, written, cleaned) <==> !ShortPageFollows(lens, written)
    ensures !err <==> written == Start(lens, |lens|)
    ensures !err <==> forall n :: 0 <= n < |lens| ==> cleaned[n]
  {
    cleaned, err := [], false;
    var size: nat := written;
    ghost var short := 0;   // the first page that did not arrive
    for i := 0 to |lens|
      invariant |cleaned| == i && short <= i
      invariant !err <==> short == i
      invariant forall n :: 0 <= n < short ==> cleaned[n]
      invariant Start(lens, short) <= written
      invariant err ==> written < Start(lens, short + 1) && !cleaned[short]
      invariant !err ==> size == written - Start(lens, i)
      invariant size <= written - Start(lens, short)
      invariant forall n :: short <= n < i && lens[n] == 0 ==> cleaned[n]
      invariant (forall n :: short < n < i ==> !Overtakes(lens, written, short, n)) ==>
                size == written - Start(lens, short) &&
                forall n :: short <= n < i && cleaned[n] ==> lens[n] == 0
      invariant (exists n :: short < n < i && Overtakes(lens, written, short, n)) ==>
                exists n :: short < n < i && cleaned[n] && lens[n] > 0
    {
      assert err ==> (Overtakes(lens, written, short, i) <==> 0 < lens[i] <= written - Start(lens, short));
      if size >= lens[i] {
        size := size - lens[i];
        cleaned := cleaned + [true];
        if !err {
          short := i + 1;
        }
      } else {
        err := true;
        cleaned := cleaned + [false];
      }
    }
    FromShort(lens, written, short, cleaned);
  }

  /** The same loop after the preparation of the write failed: nothing was written, and the segment
      lengths are those of an earlier use of the state. A page is cleaned exactly if that left-over length
      is 0, so every page stays dirty exactly if none of the left-over lengths is 0. */
  method CompleteUnprepared(leftOver: seq<nat>) returns (cleaned: seq<bool>)
    ensures |cleaned| == |leftOver|
    ensures forall n :: 0 <= n < |leftOver| ==> (cleaned[n] <==> leftOver[n] == 0)
  {
    var err;
    cleaned, err := CompletePages(leftOver, 0);
    assert !ShortPageFollows(leftOver, 0);
    forall n | 0 <= n < |leftOver| ensures cleaned[n] <==> leftOver[n] == 0 {
      assert Arrived(leftOver, 0, n) <==> leftOver[n] == 0;
    }
  }

  lemma FromShort(lens: seq<nat>, written: nat, short: nat, cleaned: seq<bool>)
    requires |cleaned| == |lens| && short <= |lens| && written <= Start(lens, |lens|)
    requires Start(lens, short) <= written
    requires short < |lens| ==> written < Start(lens, short + 1) && !cleaned[short]
    requires forall n :: 0 <= n < short ==> cleaned[n]
    requires forall n :: short <= n < |lens| && lens[n] == 0 ==> cleaned[n]
    requires (forall n :: short < n < |lens| ==> !Overtakes(lens, written, short, n)) ==>
             forall n :: short <= n < |lens| && cleaned[n] ==> lens[n] == 0
    requires (exists n :: short < n < |lens| && Overtakes(lens, written, short, n)) ==>
             exists n :: short < n < |lens| && cleaned[n] && lens[n] > 0
    ensures forall n :: 0 <= n < |lens| && Arrived(lens, written, n) ==> cleaned[n]
    ensures CleansOnlyWritten(lens, written, cleaned) <==> !ShortPageFollows(lens, written)
    ensures short == |lens| <==> written == Start(lens, |lens|)
    ensures short == |lens| <==> forall n :: 0 <= n < |lens| ==> cleaned[n]
  {
    forall n: nat | n < |lens|
      ensures n < short ==> Arrived(lens, written, n)
      ensures n >= short ==> Start(lens, n + 1) > written
    {
      if n < short { StartMonotone(lens, n + 1, short); } else { StartMonotone(lens, short + 1, n + 1); }
    }
    forall k: nat, j: nat | Overtakes(lens, written, k, j) ensures k == short {
      if k < short { StartMonotone(lens, k + 1, short); } else if short < k { StartMonotone(lens, short + 1, k); }
    }
    if short < |lens| {
      StartMonotone(lens, short + 1, |lens|);
    }
    if exists n :: short < n < |lens| && Overtakes(lens, written, short, n) {
      assert ShortPageFollows(lens, written);
    }
  }

  /** In a batch of consecutive file pages every page between the first and the last is full: only the
      last one can overtake. */
  lemma OnlyLastOvertakes(lens: seq<nat>, written: nat, pageSize: nat, k: nat, j: nat)
    requires forall n :: 0 <= n < |lens| ==> lens[n] <= pageSize
    requires forall n :: 0 < n < |lens| - 1 ==> lens[n] == pageSize
    requires Overtakes(lens, written, k, j)
    ensures j == |lens| - 1
  {
  }

  /** A full page and 100 bytes of the next, of which 200 bytes were written: the first page is dirty
      again, the second is clean although none of its bytes was written. */
  lemma UnwrittenPageCleaned()
    ensures ShortPageFollows([4096, 100], 200)
  {
    assert Start([4096, 100], 1) == 4096;
    assert Overtakes([4096, 100], 200, 0, 1);
  }
}
