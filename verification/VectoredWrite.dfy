/** The vectored write made from one batch of pages with dirty ranges (congfs_wps_prepare): where it
    starts, which bytes it gathers, and what it does to the file. */
module VectoredWrite {
  import opened Basics
  import opened FileBytes
  import opened PageBatching

  /** The length stored in the iovec: an `unsigned`, cut at i_size. */
  function RangeLength(p: Page, isize: nat): nat
    requires p.RangePage? && p.Valid()
  {
    if p.Offset() + p.last >= isize then (isize - p.Offset() - p.first) % UNSIGNED
    else p.last - p.first + 1
  }

  predicate StartsBelow(p: Page, isize: nat)
    requires p.RangePage?
  {
    p.Offset() + p.first <= isize
  }

  /** Dirty bytes of the page in front of i_size. */
  function DirtyBelow(p: Page, isize: nat): nat
    requires p.RangePage? && p.Valid()
  {
    Max(0, Min(p.last + 1, isize - p.Offset()) - p.first)
  }

  /** The length is right exactly if the dirty range does not start behind i_size, or does so by a
      multiple of 2^32: a negative length wraps around. */
  lemma RangeLengthIff(p: Page, isize: nat)
    requires p.RangePage? && p.Valid()
    ensures RangeLength(p, isize) == DirtyBelow(p, isize) <==>
      StartsBelow(p, isize) || (p.Offset() + p.first - isize) % UNSIGNED == 0
  {
    var start := p.Offset() + p.first;
    if start <= isize {
      if p.Offset() + p.last >= isize {
        assert 0 <= isize - start < UNSIGNED;
      }
    } else {
      assert DirtyBelow(p, isize) == 0;
      assert (isize - start) % UNSIGNED == 0 <==> (start - isize) % UNSIGNED == 0;
    }
  }

  ghost predicate RangeBatch(batch: seq<Page>, isize: nat) {
    && GoodBatch(batch, |batch|)
    && forall i :: 0 <= i < |batch| ==> batch[i].RangePage? && batch[i].Valid() && StartsBelow(batch[i], isize)
  }

  /** The bytes that one iovec adds. */
  ghost function Piece(p: Page, isize: nat): (r: seq<Byte>)
    requires p.RangePage? && p.Valid() && StartsBelow(p, isize)
    ensures |r| == DirtyBelow(p, isize)
  {
    RangeLengthIff(p, isize);
    p.data[p.first..p.first + RangeLength(p, isize)]
  }

  /** The bytes the iovecs of the first n pages gather. */
  ghost function Gather(batch: seq<Page>, n: nat, isize: nat): seq<Byte>
    requires RangeBatch(batch, isize) && n <= |batch|
  {
    if n == 0 then [] else Gather(batch, n - 1, isize) + Piece(batch[n - 1], isize)
  }

  function Start(batch: seq<Page>): nat
    requires batch != [] && batch[0].RangePage?
  {
    batch[0].Offset() + batch[0].first
  }

  /** The byte the batch's pages cache for file offset `x`. */
  function Cached(batch: seq<Page>, x: nat): Byte {
    if batch != [] && 0 <= x / PAGE_SIZE - batch[0].index < |batch|
       && |batch[x / PAGE_SIZE - batch[0].index].data| == PAGE_SIZE
    then batch[x / PAGE_SIZE - batch[0].index].data[x % PAGE_SIZE] else 0
  }

  /** File offset `x` is dirty in one of the pages and lies in front of i_size. */
  predicate DirtyAt(batch: seq<Page>, isize: nat, x: nat) {
    && x < isize
    && batch != []
    && 0 <= x / PAGE_SIZE - batch[0].index < |batch|
    && var p := batch[x / PAGE_SIZE - batch[0].index];
       p.RangePage? && p.first <= x % PAGE_SIZE <= p.last
  }

  lemma {:induction false} Indices(batch: seq<Page>, i: nat)
    requires GoodBatch(batch, |batch|) && i < |batch|
    ensures batch[i].index == batch[0].index + i
  {
    if i > 0 {
      Indices(batch, i - 1);
      assert Follows(batch[i - 1], batch[i]);
    }
  }

  /** Where the bytes of the first n pages end. */
  function End(batch: seq<Page>, n: nat, isize: nat): nat
    requires 0 < n <= |batch| && batch[n - 1].RangePage?
  {
    Min(isize, batch[n - 1].Offset() + batch[n - 1].last + 1)
  }

  /** In front of a page that joined the batch nothing is cut: the bytes reach exactly to it. */
  lemma FrontEnds(batch: seq<Page>, n: nat, isize: nat)
    requires RangeBatch(batch, isize) && 0 < n < |batch|
    ensures End(batch, n, isize) == batch[n].Offset() && batch[n].first == 0
  {
    assert Follows(batch[n - 1], batch[n]);
  }

  /** The gathered bytes leave no gap: there are as many as file offsets from start to end. */
  lemma {:induction false} GatherLength(batch: seq<Page>, n: nat, isize: nat)
    requires RangeBatch(batch, isize) && 0 < n <= |batch|
    ensures Start(batch) <= End(batch, n, isize)
    ensures |Gather(batch, n, isize)| == End(batch, n, isize) - Start(batch)
  {
    if n > 1 {
      GatherLength(batch, n - 1, isize);
      FrontEnds(batch, n - 1, isize);
    } else {
      assert Gather(batch, 0, isize) == [];
    }
  }

  /** The bytes of page n follow those of the pages in front of it. */
  lemma PieceStarts(batch: seq<Page>, n: nat, isize: nat)
    requires RangeBatch(batch, isize) && n < |batch|
    ensures Start(batch) + |Gather(batch, n, isize)| == batch[n].Offset() + batch[n].first
  {
    if n > 0 {
      GatherLength(batch, n, isize);
      FrontEnds(batch, n, isize);
    }
  }

  /** Each gathered byte comes from its own place in a page. */
  lemma {:induction false} GatherByte(batch: seq<Page>, n: nat, isize: nat, i: nat)
    requires RangeBatch(batch, isize) && n <= |batch| && i < |Gather(batch, n, isize)|
    ensures Gather(batch, n, isize)[i] == Cached(batch, Start(batch) + i)
  {
    var m := GatherSplit(batch, n, isize, i);
    if i < m {
      GatherByte(batch, n - 1, isize, i);
    } else {
      PieceStarts(batch, n - 1, isize);
      PieceByte(batch, n - 1, isize, i - m, Start(batch) + i);
    }
  }

  lemma GatherSplit(batch: seq<Page>, n: nat, isize: nat, i: nat) returns (m: nat)
    requires RangeBatch(batch, isize) && n <= |batch| && i < |Gather(batch, n, isize)|
    ensures 0 < n && m == |Gather(batch, n - 1, isize)|
    ensures i < m ==> Gather(batch, n, isize)[i] == Gather(batch, n - 1, isize)[i]
    ensures m <= i ==>
      && i - m < |Piece(batch[n - 1], isize)|
      && Gather(batch, n, isize)[i] == Piece(batch[n - 1], isize)[i - m]
  {
    m := |Gather(batch, n - 1, isize)|;
  }

  lemma PieceByte(batch: seq<Page>, n: nat, isize: nat, j: nat, x: nat)
    requires RangeBatch(batch, isize) && n < |batch| && j < |Piece(batch[n], isize)|
    requires x == batch[n].Offset() + batch[n].first + j
    ensures Piece(batch[n], isize)[j] == Cached(batch, x)
  {
    Indices(batch, n);
    RangeLengthIff(batch[n], isize);
    CachedInPage(batch, n, batch[n].first + j);
  }

  lemma CachedInPage(batch: seq<Page>, n: nat, j: nat)
    requires n < |batch| && batch[n].index == batch[0].index + n
    requires |batch[n].data| == PAGE_SIZE && j < PAGE_SIZE
    ensures Cached(batch, batch[n].Offset() + j) == batch[n].data[j]
  {
    var x := batch[n].index * PAGE_SIZE + j;
    assert x / PAGE_SIZE == batch[n].index && x % PAGE_SIZE == j;
  }

  /** The run of file offsets from start to end is exactly the dirty bytes in front of i_size. */
  lemma RunIsDirty(batch: seq<Page>, isize: nat, x: nat)
    requires RangeBatch(batch, isize) && batch != []
    ensures DirtyAt(batch, isize, x) <==> Start(batch) <= x < End(batch, |batch|, isize)
  {
    var n := |batch| - 1;
    Indices(batch, n);
    var j := x / PAGE_SIZE - batch[0].index;
    if 0 <= j <= n {
      Indices(batch, j);
      if 0 < j {
        assert Follows(batch[j - 1], batch[j]);
      }
      if j < n {
        assert Follows(batch[j], batch[j + 1]);
      }
    }
  }

  /** What the single vectored write makes of the file. */
  ghost function AfterWrite(f: seq<Byte>, batch: seq<Page>, isize: nat): seq<Byte>
    requires RangeBatch(batch, isize) && batch != []
  {
    Write(f, Start(batch), Gather(batch, |batch|, isize))
  }

  lemma AfterWriteByte(f: seq<Byte>, batch: seq<Page>, isize: nat, x: nat)
    requires RangeBatch(batch, isize) && batch != []
    ensures DirtyAt(batch, isize, x) ==> x < |AfterWrite(f, batch, isize)|
    ensures x < |AfterWrite(f, batch, isize)| ==>
      AfterWrite(f, batch, isize)[x]
        == if DirtyAt(batch, isize, x) then Cached(batch, x) else if x < |f| then f[x] else 0
  {
    GatherLength(batch, |batch|, isize);
    RunIsDirty(batch, isize, x);
    if DirtyAt(batch, isize, x) {
      GatherByte(batch, |batch|, isize, x - Start(batch));
    }
  }

  /** The single vectored write puts every dirty byte in front of i_size at its own file offset and
      changes nothing else. */
  lemma RangeBatchWrites(f: seq<Byte>, batch: seq<Page>, isize: nat)
    requires RangeBatch(batch, isize) && batch != []
    ensures var r := AfterWrite(f, batch, isize);
      && (forall x: nat :: DirtyAt(batch, isize, x) ==> x < |r|)
      && (forall x :: 0 <= x < |r| ==>
            r[x] == if DirtyAt(batch, isize, x) then Cached(batch, x) else if x < |f| then f[x] else 0)
      && |r| == if Start(batch) == End(batch, |batch|, isize) then |f| else Max(|f|, End(batch, |batch|, isize))
  {
    var r := AfterWrite(f, batch, isize);
    GatherLength(batch, |batch|, isize);
    forall x: nat | DirtyAt(batch, isize, x) ensures x < |r| {
      AfterWriteByte(f, batch, isize, x);
    }
    forall x | 0 <= x < |r|
      ensures r[x] == if DirtyAt(batch, isize, x) then Cached(batch, x) else if x < |f| then f[x] else 0
    {
      AfterWriteByte(f, batch, isize, x);
    }
  }

  // ---- all batches of a write-back ----

  /** The file after the first n batches, in the order in which they happen to be sent; an empty batch
      is not sent. */
  ghost function SendAll(f: seq<Byte>, sent: seq<seq<Page>>, n: nat, isize: nat): seq<Byte>
    requires n <= |sent| && forall k :: 0 <= k < |sent| ==> RangeBatch(sent[k], isize)
  {
    if n == 0 then f
    else
      var g := SendAll(f, sent, n - 1, isize);
      if sent[n - 1] == [] then g else AfterWrite(g, sent[n - 1], isize)
  }

  /** One of the first n batches writes offset x. */
  ghost predicate Covered(sent: seq<seq<Page>>, n: nat, isize: nat, x: nat)
    requires n <= |sent|
  {
    exists k :: 0 <= k < n && DirtyAt(sent[k], isize, x)
  }

  lemma {:induction false} SendAllByte(f: seq<Byte>, sent: seq<seq<Page>>, n: nat, isize: nat, x: nat, v: Byte)
    requires n <= |sent| && forall k :: 0 <= k < |sent| ==> RangeBatch(sent[k], isize)
    requires forall k :: 0 <= k < n && DirtyAt(sent[k], isize, x) ==> Cached(sent[k], x) == v
    ensures |f| <= |SendAll(f, sent, n, isize)|
    ensures Covered(sent, n, isize, x) ==> x < |SendAll(f, sent, n, isize)|
    ensures x < |SendAll(f, sent, n, isize)| ==>
      SendAll(f, sent, n, isize)[x] == if Covered(sent, n, isize, x) then v else if x < |f| then f[x] else 0
  {
    if n > 0 {
      var g := SendAll(f, sent, n - 1, isize);
      SendAllByte(f, sent, n - 1, isize, x, v);
      if sent[n - 1] != [] {
        AfterWriteByte(g, sent[n - 1], isize, x);
        AfterWriteGrows(g, sent[n - 1], isize);
      }
    }
  }

  lemma AfterWriteGrows(f: seq<Byte>, batch: seq<Page>, isize: nat)
    requires RangeBatch(batch, isize) && batch != []
    ensures |f| <= |AfterWrite(f, batch, isize)|
  {
  }

  /** The page holds offset x among its dirty bytes in front of i_size. */
  predicate PageDirty(p: Page, isize: nat, x: nat) {
    x < isize && p.index == x / PAGE_SIZE && p.RangePage? && p.first <= x % PAGE_SIZE <= p.last
  }

  lemma DirtyAtPage(batch: seq<Page>, isize: nat, i: nat, x: nat)
    requires RangeBatch(batch, isize) && i < |batch| && PageDirty(batch[i], isize, x)
    ensures DirtyAt(batch, isize, x) && Cached(batch, x) == batch[i].data[x % PAGE_SIZE]
  {
    Indices(batch, i);
  }

  lemma DirtyPageOf(batch: seq<Page>, isize: nat, x: nat) returns (p: Page)
    requires RangeBatch(batch, isize) && DirtyAt(batch, isize, x)
    ensures p in batch && PageDirty(p, isize, x) && |p.data| == PAGE_SIZE && Cached(batch, x) == p.data[x % PAGE_SIZE]
  {
    var i := x / PAGE_SIZE - batch[0].index;
    Indices(batch, i);
    p := batch[i];
  }

  ghost predicate DistinctIndices(pages: seq<Page>) {
    forall p, q :: p in pages && q in pages && p.index == q.index ==> p == q
  }

  /** The batches hold the pages and nothing else, each batch can be sent, in whatever order. */
  ghost predicate Sends(sent: seq<seq<Page>>, pages: seq<Page>, isize: nat) {
    && (forall k :: 0 <= k < |sent| ==> RangeBatch(sent[k], isize))
    && (forall k, p :: 0 <= k < |sent| && p in sent[k] ==> p in pages)
    && (forall p :: p in pages ==> exists k :: 0 <= k < |sent| && p in sent[k])
  }

  /** All batches of a write-back together, sent in any order, put every dirty byte in front of i_size at
      its own file offset and change nothing else. */
  lemma AllBatchesWrite(f: seq<Byte>, pages: seq<Page>, sent: seq<seq<Page>>, isize: nat, x: nat)
    requires DistinctIndices(pages) && Sends(sent, pages, isize)
    ensures var r := SendAll(f, sent, |sent|, isize);
      && (forall p :: p in pages && PageDirty(p, isize, x) ==>
            x < |r| && |p.data| == PAGE_SIZE && r[x] == p.data[x % PAGE_SIZE])
      && ((forall p :: p in pages ==> !PageDirty(p, isize, x)) && x < |r| ==>
            r[x] == if x < |f| then f[x] else 0)
  {
    if p :| p in pages && PageDirty(p, isize, x) {
      var k :| 0 <= k < |sent| && p in sent[k];
      var i :| 0 <= i < |sent[k]| && sent[k][i] == p;
      DirtyAtPage(sent[k], isize, i, x);
      var v := p.data[x % PAGE_SIZE];
      forall l | 0 <= l < |sent| && DirtyAt(sent[l], isize, x) ensures Cached(sent[l], x) == v {
        var q := DirtyPageOf(sent[l], isize, x);
      }
      SendAllByte(f, sent, |sent|, isize, x, v);
    } else {
      forall l | 0 <= l < |sent| && DirtyAt(sent[l], isize, x) ensures false {
        var q := DirtyPageOf(sent[l], isize, x);
      }
      SendAllByte(f, sent, |sent|, isize, x, 0);
    }
  }

  /** The batches that WritePages makes of range pages can be sent, in any order. */
  lemma BatchesAreSent(pages: seq<Page>, batches: seq<seq<Page>>, sent: seq<seq<Page>>, blockSize: nat, isize: nat)
    requires Flatten(batches) == pages
    requires forall k :: 0 <= k < |batches| ==> GoodBatch(batches[k], blockSize)
    requires forall p :: p in pages ==> p.RangePage? && p.Valid() && StartsBelow(p, isize)
    requires forall b :: b in sent <==> b in batches
    ensures Sends(sent, pages, isize)
  {
    forall p ensures p in pages <==> exists k :: 0 <= k < |batches| && p in batches[k] {
      FlattenMembers(batches, p);
    }
    forall k | 0 <= k < |sent| ensures RangeBatch(sent[k], isize) && forall p :: p in sent[k] ==> p in pages {
      assert sent[k] in batches;
    }
    forall p | p in pages ensures exists k :: 0 <= k < |sent| && p in sent[k] {
      var k :| 0 <= k < |batches| && p in batches[k];
      assert batches[k] in sent;
    }
  }

  lemma {:induction false} FlattenMembers(batches: seq<seq<Page>>, p: Page)
    ensures p in Flatten(batches) <==> exists k :: 0 <= k < |batches| && p in batches[k]
  {
    if batches != [] {
      var n := |batches| - 1;
      FlattenMembers(batches[..n], p);
      if p in Flatten(batches[..n]) {
        var k :| 0 <= k < n && p in batches[..n][k];
        assert p in batches[k];
      }
    }
  }

  /** congfs_wps_prepare for pages with dirty ranges. */
  method PrepareRanges(batch: seq<Page>, isize: nat) returns (offset: nat, size: nat, iov: seq<Iovec>)
    requires batch != []
    requires forall i :: 0 <= i < |batch| ==> batch[i].RangePage? && batch[i].Valid()
    ensures offset == Start(batch) && |iov| == |batch|
    ensures forall i :: 0 <= i < |batch| ==> iov[i] == Iovec(batch[i].first, RangeLength(batch[i], isize))
    ensures RangeBatch(batch, isize) ==> size == |Gather(batch, |batch|, isize)|
  {
    size := 0;
    offset := batch[0].Offset() + batch[0].first;
    iov := [];
    for i := 0 to |batch|
      invariant |iov| == i
      invariant forall k :: 0 <= k < i ==> iov[k] == Iovec(batch[k].first, RangeLength(batch[k], isize))
      invariant RangeBatch(batch, isize) ==> size == |Gather(batch, i, isize)|
    {
      var page := batch[i];
      var length;
      if page.Offset() + page.last >= isize {
        length := (isize - page.Offset() - page.first) % UNSIGNED;
      } else {
        length := page.last - page.first + 1;
      }
      iov := iov + [Iovec(page.first, length)];
      size := size + length;
      RangeLengthIff(page, isize);
    }
  }
}
