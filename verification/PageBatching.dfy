/** Write-back of native cache pages (FhgfsOpsFileNative.c): dirty pages are collected into batches
    that are each sent as one vectored write. */
module PageBatching {
  import opened Basics
  import opened FileBytes

  /** A dirty page with either a dirty range or an append range descriptor. */
  datatype Page =
    | RangePage(index: nat, data: seq<Byte>, first: nat, last: nat)
    | ArdPage(index: nat, data: seq<Byte>, ard: nat)
  {
    /** The range may be empty, with its end right in front of its start. */
    predicate Valid() {
      |data| == PAGE_SIZE && (RangePage? ==> first < PAGE_SIZE && last < PAGE_SIZE && first <= last + 1)
    }

    function Offset(): nat {
      index * PAGE_SIZE
    }
  }

  // ---- forming batches ----

  predicate MustFlushBefore(batch: seq<Page>, next: Page, blockSize: nat) {
    if batch == [] then false
    else if |batch| == blockSize then true
    else
      var prev := batch[|batch| - 1];
      || prev.index + 1 != next.index
      || (next.RangePage? && (next.first != 0 || !prev.RangePage? || prev.last != PAGE_SIZE - 1))
      || (next.ArdPage? && (!prev.ArdPage? || prev.ard != next.ard))
  }

  /** `q` continues `p` within one vectored write. */
  predicate Follows(p: Page, q: Page) {
    && q.index == p.index + 1
    && match (p, q)
       case (RangePage(_, _, _, last), RangePage(_, _, first, _)) => last == PAGE_SIZE - 1 && first == 0
       case (ArdPage(_, _, a), ArdPage(_, _, b)) => a == b
       case _ => false
  }

  ghost predicate GoodBatch(batch: seq<Page>, blockSize: nat) {
    && |batch| <= blockSize
    && forall i :: 0 < i < |batch| ==> Follows(batch[i - 1], batch[i])
  }

  /** The batch is sent exactly if the next page would spoil it. */
  lemma MustFlushIff(batch: seq<Page>, next: Page, blockSize: nat)
    requires 0 < blockSize && GoodBatch(batch, blockSize)
    ensures MustFlushBefore(batch, next, blockSize) <==> !GoodBatch(batch + [next], blockSize)
  {
    var longer := batch + [next];
    if batch != [] {
      var n := |batch|;
      assert longer[n - 1] == batch[n - 1] && longer[n] == next;
      if !MustFlushBefore(batch, next, blockSize) {
        forall i | 0 < i < |longer| ensures Follows(longer[i - 1], longer[i]) {
          assert i < n ==> longer[i] == batch[i] && longer[i - 1] == batch[i - 1];
        }
      }
    }
  }

  function Flatten(batches: seq<seq<Page>>): seq<Page> {
    if batches == [] then [] else Flatten(batches[..|batches| - 1]) + batches[|batches| - 1]
  }

  class WritepagesContext {
    const blockSize: nat
    var pages: array<Page>               // pages of the current batch
    var nrPages: nat
    var submitted: seq<seq<Page>>

    ghost predicate Valid()
      reads this, pages
    {
      && 0 < blockSize
      && pages.Length == blockSize
      && nrPages <= blockSize
      && GoodBatch(Current(), blockSize)
      && (forall k :: 0 <= k < |submitted| ==> GoodBatch(submitted[k], blockSize))
    }

    function Current(): seq<Page>
      requires nrPages <= pages.Length
      reads this, pages
    {
      pages[..nrPages]
    }

    ghost function Seen(): seq<Page>
      requires nrPages <= pages.Length
      reads this, pages
    {
      Flatten(submitted) + Current()
    }

    constructor (size: nat)
      requires 0 < size
      ensures Valid() && Seen() == [] && submitted == [] && fresh(pages) && blockSize == size
    {
      blockSize := size;
      pages := new Page[size];
      nrPages := 0;
      submitted := [];
    }

    /** Hand the current batch to the work queue. */
    method Submit()
      requires Valid()
      modifies this`submitted
      ensures submitted == old(submitted) + [Current()]
      ensures Flatten(submitted) == old(Seen())
      ensures forall k :: 0 <= k < |submitted| ==> GoodBatch(submitted[k], blockSize)
    {
      submitted := submitted + [pages[..nrPages]];
      assert submitted[..|submitted| - 1] == old(submitted);
    }

    /** writepages_callback: put the page into the current batch, or start a new batch with it. */
    method Callback(page: Page)
      requires Valid()
      modifies this, pages
      ensures Valid() && (pages == old(pages) || fresh(pages))
      ensures Seen() == old(Seen()) + [page]
      ensures var split := !GoodBatch(old(Current()) + [page], blockSize);
        && submitted == (if split then old(submitted) + [old(Current())] else old(submitted))
        && Current() == (if split then [page] else old(Current()) + [page])
    {
      ghost var before := Current();
      MustFlushIff(before, page, blockSize);
      if MustFlushBefore(pages[..nrPages], page, blockSize) {
        Submit();
        pages := new Page[blockSize];
        nrPages := 0;
      }
      pages[nrPages] := page;
      nrPages := nrPages + 1;
      assert Current() == (if MustFlushBefore(before, page, blockSize) then [page] else before + [page]);
    }

    /** The submitted batches and the current one. */
    ghost function All(): seq<seq<Page>>
      requires Valid()
      reads this, pages
    {
      submitted + [Current()]
    }

    /** Batches end only where they must, and only the first can be empty. */
    ghost predicate Tight()
      requires Valid()
      reads this, pages
    {
      Maximal(All(), blockSize) && (submitted != [] ==> Current() != [])
    }

    method Take(page: Page)
      requires Valid() && Tight()
      modifies this, pages
      ensures Valid() && Tight() && (pages == old(pages) || fresh(pages))
      ensures Seen() == old(Seen()) + [page]
    {
      ghost var split := !GoodBatch(Current() + [page], blockSize);
      ghost var before := All();
      Callback(page);
      MaximalStep(before, All(), page, split, blockSize);
    }
  }

  /** A batch ends only where the next page cannot join it. */
  ghost predicate Maximal(batches: seq<seq<Page>>, blockSize: nat) {
    forall k :: 0 < k < |batches| && batches[k] != [] ==> !GoodBatch(batches[k - 1] + [batches[k][0]], blockSize)
  }

  /** do_write_pages: the batches are the pages in order, each batch is contiguous, of one kind and
      within the block size, and is as long as that allows. */
  method WritePages(input: seq<Page>, blockSize: nat) returns (batches: seq<seq<Page>>)
    requires 0 < blockSize
    ensures Flatten(batches) == input
    ensures forall k :: 0 <= k < |batches| ==> GoodBatch(batches[k], blockSize)
    ensures Maximal(batches, blockSize)
  {
    var ctx := new WritepagesContext(blockSize);
    for n := 0 to |input|
      invariant ctx.Valid() && fresh(ctx) && fresh(ctx.pages) && ctx.blockSize == blockSize
      invariant ctx.Tight() && ctx.Seen() == input[..n]
    {
      assert input[..n + 1] == input[..n] + [input[n]];
      ctx.Take(input[n]);
    }
    assert input[..|input|] == input;
    ctx.Submit();
    batches := ctx.submitted;
  }

  lemma MaximalStep(before: seq<seq<Page>>, after: seq<seq<Page>>, page: Page, split: bool, blockSize: nat)
    requires before != [] && Maximal(before, blockSize)
    requires 1 < |before| ==> before[|before| - 1] != []
    requires split ==> after == before + [[page]] && !GoodBatch(before[|before| - 1] + [page], blockSize)
    requires !split ==> after == before[..|before| - 1] + [before[|before| - 1] + [page]]
    ensures Maximal(after, blockSize)
  {
    forall k | 0 < k < |after| && after[k] != []
      ensures !GoodBatch(after[k - 1] + [after[k][0]], blockSize)
    {
      if k < |before| - 1 {
        assert after[k] == before[k] && after[k - 1] == before[k - 1];
      } else if split {
        if k == |before| - 1 {
          assert after[k] == before[k] && after[k - 1] == before[k - 1];
        }
      } else {
        assert after[k - 1] == before[k - 1];
        assert after[k][0] == before[k][0];
      }
    }
  }
}
