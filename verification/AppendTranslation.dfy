/** Write-back of appended data (the append branch of congfs_wps_prepare): the pages of one append
    range descriptor are sent in batches, in any order, to the file range reserved for them. */
module AppendTranslation {
  import opened Basics
  import opened FileBytes
  import opened PageBatching

  /** An append range descriptor whose file offset has been reserved. Cache positions count bytes in
      the page cache; the first appended byte is at position `Pos()`. */
  datatype Ard = Ard(firstPageIndex: nat, firstPageStart: nat, fileOffset: nat, dataPresent: nat) {
    predicate Valid() {
      firstPageStart < PAGE_SIZE
    }

    function Pos(): nat {
      firstPageIndex * PAGE_SIZE + firstPageStart
    }

    function AppendEnd(): nat {
      Pos() + dataPresent
    }
  }

  function OffsetInPage(a: Ard, index: nat): nat {
    if index == a.firstPageIndex then a.firstPageStart else 0
  }

  /** The smaller of the bytes left and the room in the page, compared as `size_t`: a negative number
      of bytes left counts as huge. */
  function IovLength(a: Ard, index: nat): nat
    requires a.Valid()
  {
    var left := a.AppendEnd() - (index * PAGE_SIZE + OffsetInPage(a, index));
    var room := PAGE_SIZE - OffsetInPage(a, index);
    if 0 <= left < room then left else room
  }

  /** The file offset of a batch that starts with the page `index`. */
  function BatchOffset(a: Ard, index: nat): int {
    a.fileOffset + if index != a.firstPageIndex then (index - a.firstPageIndex) * PAGE_SIZE - a.firstPageStart else 0
  }

  /** Appended bytes that the page holds. */
  function AppendedOn(a: Ard, index: nat): nat {
    Max(0, Min(a.AppendEnd(), (index + 1) * PAGE_SIZE) - (index * PAGE_SIZE + OffsetInPage(a, index)))
  }

  /** The length is the number of appended bytes on the page exactly if the page starts no later than
      the append ends: behind it, a negative number of bytes counts as a full page. */
  lemma IovLengthIff(a: Ard, index: nat)
    requires a.Valid()
    ensures IovLength(a, index) == AppendedOn(a, index) <==>
      index * PAGE_SIZE + OffsetInPage(a, index) <= a.AppendEnd()
  {
  }

  /** All pages of the descriptor, in index order, none starting behind the end of the append and
      together holding all of it. */
  ghost predicate Whole(a: Ard, pages: seq<Page>) {
    && a.Valid()
    && pages != []
    && (forall j :: 0 <= j < |pages| ==>
          && pages[j].Valid()
          && pages[j].index == a.firstPageIndex + j
          && pages[j].index * PAGE_SIZE <= a.AppendEnd())
    && a.AppendEnd() <= (a.firstPageIndex + |pages|) * PAGE_SIZE
  }

  /** Cache position where the data of page `j` begins; past the last page, where the append ends. */
  function Cut(a: Ard, pages: seq<Page>, j: nat): nat {
    if j == 0 then a.Pos() else if j < |pages| then (a.firstPageIndex + j) * PAGE_SIZE else a.AppendEnd()
  }

  /** The byte cached for a position. */
  function Cached(a: Ard, pages: seq<Page>, q: nat): Byte {
    var j := q / PAGE_SIZE - a.firstPageIndex;
    if 0 <= j < |pages| && |pages[j].data| == PAGE_SIZE then pages[j].data[q % PAGE_SIZE] else 0
  }

  /** Appended byte number `d`. */
  function Appended(a: Ard, pages: seq<Page>, d: nat): Byte {
    Cached(a, pages, a.Pos() + d)
  }

  function Piece(a: Ard, p: Page): seq<Byte>
    requires a.Valid() && p.Valid()
  {
    p.data[OffsetInPage(a, p.index)..OffsetInPage(a, p.index) + IovLength(a, p.index)]
  }

  /** The bytes gathered for the pages `lo` to `hi`. */
  ghost function Gather(a: Ard, pages: seq<Page>, lo: nat, hi: nat): seq<Byte>
    requires Whole(a, pages) && lo <= hi <= |pages|
    decreases hi
  {
    if lo == hi then [] else Gather(a, pages, lo, hi - 1) + Piece(a, pages[hi - 1])
  }

  lemma PieceLength(a: Ard, pages: seq<Page>, j: nat)
    requires Whole(a, pages) && j < |pages|
    ensures |Piece(a, pages[j])| == Cut(a, pages, j + 1) - Cut(a, pages, j)
    ensures Cut(a, pages, j) == pages[j].index * PAGE_SIZE + OffsetInPage(a, pages[j].index)
  {
    assert pages[j].index == a.firstPageIndex + j;
    if j + 1 < |pages| {
      assert pages[j + 1].index * PAGE_SIZE <= a.AppendEnd();
    }
  }

  lemma PieceByte(a: Ard, pages: seq<Page>, j: nat, i: nat)
    requires Whole(a, pages) && j < |pages| && i < |Piece(a, pages[j])|
    ensures Piece(a, pages[j])[i] == Cached(a, pages, Cut(a, pages, j) + i)
  {
    PieceLength(a, pages, j);
    var o := OffsetInPage(a, pages[j].index) + i;
    var q := pages[j].index * PAGE_SIZE + o;
    assert q / PAGE_SIZE == pages[j].index && q % PAGE_SIZE == o;
  }

  /** A batch gathers one gap-free run of the appended bytes. */
  lemma {:induction false} GatherIsRun(a: Ard, pages: seq<Page>, lo: nat, hi: nat)
    requires Whole(a, pages) && lo <= hi <= |pages|
    ensures Cut(a, pages, lo) <= Cut(a, pages, hi)
    ensures |Gather(a, pages, lo, hi)| == Cut(a, pages, hi) - Cut(a, pages, lo)
    ensures forall i :: 0 <= i < |Gather(a, pages, lo, hi)| ==>
      Gather(a, pages, lo, hi)[i] == Cached(a, pages, Cut(a, pages, lo) + i)
    decreases hi
  {
    if lo < hi {
      GatherIsRun(a, pages, lo, hi - 1);
      PieceLength(a, pages, hi - 1);
      var m := |Gather(a, pages, lo, hi - 1)|;
      forall i | 0 <= i < |Gather(a, pages, lo, hi)|
        ensures Gather(a, pages, lo, hi)[i] == Cached(a, pages, Cut(a, pages, lo) + i)
      {
        if m <= i {
          PieceByte(a, pages, hi - 1, i - m);
        }
      }
    }
  }

  /** The translation of the batch's first page is its distance from the first appended byte. */
  lemma BatchOffsetIsDistance(a: Ard, pages: seq<Page>, lo: nat)
    requires Whole(a, pages) && lo < |pages|
    ensures BatchOffset(a, pages[lo].index) == a.fileOffset + Cut(a, pages, lo) - a.Pos()
  {
    PieceLength(a, pages, lo);
  }

  // ---- the batches together ----

  /** Pages `lo` up to but not including `hi`. */
  datatype Batch = Batch(lo: nat, hi: nat) {
    predicate Has(j: int) {
      lo <= j < hi
    }
  }

  /** One of the first n batches has page j. */
  ghost predicate Assigned(batches: seq<Batch>, n: nat, j: int)
    requires n <= |batches|
  {
    exists k :: 0 <= k < n && batches[k].Has(j)
  }

  /** The batches split the pages: no batch is empty, and every page is in exactly one. */
  ghost predicate Splits(batches: seq<Batch>, n: nat) {
    && (forall k :: 0 <= k < |batches| ==> batches[k].lo < batches[k].hi <= n)
    && (forall j :: 0 <= j < n ==> Assigned(batches, |batches|, j))
    && (forall j, k, l :: 0 <= k < |batches| && 0 <= l < |batches| && batches[k].Has(j) && batches[l].Has(j) ==> k == l)
  }

  ghost function SendBatch(f: seq<Byte>, a: Ard, pages: seq<Page>, b: Batch): seq<Byte>
    requires Whole(a, pages) && b.lo < b.hi <= |pages|
  {
    BatchOffsetIsDistance(a, pages, b.lo);
    GatherIsRun(a, pages, 0, b.lo);
    Write(f, BatchOffset(a, pages[b.lo].index), Gather(a, pages, b.lo, b.hi))
  }

  /** The file after the first `n` batches, in the order in which they happen to be sent. */
  ghost function Send(f: seq<Byte>, a: Ard, pages: seq<Page>, batches: seq<Batch>, n: nat): seq<Byte>
    requires Whole(a, pages) && n <= |batches|
    requires forall k :: 0 <= k < |batches| ==> batches[k].lo < batches[k].hi <= |pages|
  {
    if n == 0 then f else SendBatch(Send(f, a, pages, batches, n - 1), a, pages, batches[n - 1])
  }

  /** The page whose data goes to file offset `x`. */
  function PageFor(a: Ard, x: nat): int {
    (x + a.Pos() - a.fileOffset) / PAGE_SIZE - a.firstPageIndex
  }

  /** One batch writes exactly the part of the reserved range that belongs to its pages. */
  lemma BatchCovers(a: Ard, pages: seq<Page>, b: Batch, x: nat)
    requires Whole(a, pages) && b.lo < b.hi <= |pages|
    requires a.fileOffset <= x < a.fileOffset + a.dataPresent
    ensures var q := x + a.Pos() - a.fileOffset;
      b.Has(PageFor(a, x)) <==> Cut(a, pages, b.lo) <= q < Cut(a, pages, b.hi)
  {
    var q := x + a.Pos() - a.fileOffset;
    assert q / PAGE_SIZE < a.firstPageIndex + |pages|;
  }

  /** File offset `x` lies in the reserved range. */
  predicate Lands(a: Ard, x: nat) {
    a.fileOffset <= x < a.fileOffset + a.dataPresent
  }

  /** The appended byte that belongs at file offset `x`. */
  function Landing(a: Ard, pages: seq<Page>, x: nat): Byte {
    if Lands(a, x) then Appended(a, pages, x - a.fileOffset) else 0
  }

  lemma SendBatchByte(f: seq<Byte>, a: Ard, pages: seq<Page>, b: Batch, x: nat)
    requires Whole(a, pages) && b.lo < b.hi <= |pages|
    requires a.fileOffset + a.dataPresent <= |f| && x < |f|
    ensures |SendBatch(f, a, pages, b)| == |f|
    ensures SendBatch(f, a, pages, b)[x] ==
      if Lands(a, x) && b.Has(PageFor(a, x)) then Landing(a, pages, x) else f[x]
  {
    BatchOffsetIsDistance(a, pages, b.lo);
    GatherIsRun(a, pages, 0, b.lo);
    GatherIsRun(a, pages, b.lo, b.hi);
    GatherIsRun(a, pages, b.hi, |pages|);
    var off: nat := BatchOffset(a, pages[b.lo].index);
    var g := Gather(a, pages, b.lo, b.hi);
    assert SendBatch(f, a, pages, b)[x] == Stored(f, off, g, x);
    if Lands(a, x) {
      BatchCovers(a, pages, b, x);
    }
  }

  lemma SendStep(f: seq<Byte>, a: Ard, pages: seq<Page>, batches: seq<Batch>, n: nat, x: nat)
    requires Whole(a, pages) && 0 < n <= |batches|
    requires forall k :: 0 <= k < |batches| ==> batches[k].lo < batches[k].hi <= |pages|
    requires a.fileOffset + a.dataPresent <= |f| == |Send(f, a, pages, batches, n - 1)| && x < |f|
    ensures |Send(f, a, pages, batches, n)| == |f|
    ensures Send(f, a, pages, batches, n)[x]
      == if Lands(a, x) && batches[n - 1].Has(PageFor(a, x)) then Landing(a, pages, x)
         else Send(f, a, pages, batches, n - 1)[x]
  {
    SendBatchByte(Send(f, a, pages, batches, n - 1), a, pages, batches[n - 1], x);
  }

  /** What the first n batches make of one byte: the last batch that has its page decides. */
  ghost function ByteAfter(before: Byte, landing: Byte, lands: bool, batches: seq<Batch>, n: nat, j: int): Byte
    requires n <= |batches|
  {
    if n == 0 then before
    else if lands && batches[n - 1].Has(j) then landing
    else ByteAfter(before, landing, lands, batches, n - 1, j)
  }

  lemma {:induction false} SendByte(f: seq<Byte>, a: Ard, pages: seq<Page>, batches: seq<Batch>, n: nat, x: nat)
    requires Whole(a, pages) && n <= |batches|
    requires forall k :: 0 <= k < |batches| ==> batches[k].lo < batches[k].hi <= |pages|
    requires a.fileOffset + a.dataPresent <= |f| && x < |f|
    ensures |Send(f, a, pages, batches, n)| == |f|
    ensures Send(f, a, pages, batches, n)[x]
      == ByteAfter(f[x], Landing(a, pages, x), Lands(a, x), batches, n, PageFor(a, x))
  {
    if n > 0 {
      SendByte(f, a, pages, batches, n - 1, x);
      SendStep(f, a, pages, batches, n, x);
    }
  }

  lemma {:induction false} ByteAfterIs(before: Byte, landing: Byte, lands: bool, batches: seq<Batch>, n: nat, j: int)
    requires n <= |batches|
    ensures ByteAfter(before, landing, lands, batches, n, j)
      == if lands && Assigned(batches, n, j) then landing else before
  {
    if n > 0 {
      ByteAfterIs(before, landing, lands, batches, n - 1, j);
    }
  }

  lemma SendKeepsLength(f: seq<Byte>, a: Ard, pages: seq<Page>, batches: seq<Batch>, n: nat)
    requires Whole(a, pages) && n <= |batches|
    requires forall k :: 0 <= k < |batches| ==> batches[k].lo < batches[k].hi <= |pages|
    requires a.fileOffset + a.dataPresent <= |f|
    ensures |Send(f, a, pages, batches, n)| == |f|
  {
    if n > 0 {
      SendKeepsLength(f, a, pages, batches, n - 1);
      var b := batches[n - 1];
      BatchOffsetIsDistance(a, pages, b.lo);
      GatherIsRun(a, pages, 0, b.lo);
      GatherIsRun(a, pages, b.lo, b.hi);
      GatherIsRun(a, pages, b.hi, |pages|);
    }
  }

  /** However the pages are split into batches and in whatever order these are sent, appended byte `d`
      ends up at `fileOffset + d`, and nothing outside the reserved range changes. */
  lemma AppendIsTranslated(f: seq<Byte>, a: Ard, pages: seq<Page>, batches: seq<Batch>)
    requires Whole(a, pages) && Splits(batches, |pages|)
    requires a.fileOffset + a.dataPresent <= |f|
    ensures var r := Send(f, a, pages, batches, |batches|);
      && |r| == |f|
      && (forall d :: 0 <= d < a.dataPresent ==> r[a.fileOffset + d] == Appended(a, pages, d))
      && (forall x :: 0 <= x < |f| && !(a.fileOffset <= x < a.fileOffset + a.dataPresent) ==> r[x] == f[x])
  {
    var r := Send(f, a, pages, batches, |batches|);
    SendKeepsLength(f, a, pages, batches, |batches|);
    forall d | 0 <= d < a.dataPresent ensures r[a.fileOffset + d] == Appended(a, pages, d) {
      AppendedByteArrives(f, a, pages, batches, d);
    }
    forall x | 0 <= x < |f| && !(a.fileOffset <= x < a.fileOffset + a.dataPresent) ensures r[x] == f[x] {
      SendByte(f, a, pages, batches, |batches|, x);
      ByteAfterIs(f[x], Landing(a, pages, x), false, batches, |batches|, PageFor(a, x));
    }
  }

  lemma AppendedByteArrives(f: seq<Byte>, a: Ard, pages: seq<Page>, batches: seq<Batch>, d: nat)
    requires Whole(a, pages) && Splits(batches, |pages|)
    requires a.fileOffset + a.dataPresent <= |f| && d < a.dataPresent
    ensures |Send(f, a, pages, batches, |batches|)| == |f|
    ensures Send(f, a, pages, batches, |batches|)[a.fileOffset + d] == Appended(a, pages, d)
  {
    var x := a.fileOffset + d;
    PageIsAssigned(a, pages, batches, d);
    SendByte(f, a, pages, batches, |batches|, x);
    ByteAfterIs(f[x], Landing(a, pages, x), true, batches, |batches|, PageFor(a, x));
  }

  lemma PageIsAssigned(a: Ard, pages: seq<Page>, batches: seq<Batch>, d: nat)
    requires Whole(a, pages) && Splits(batches, |pages|) && d < a.dataPresent
    ensures Assigned(batches, |batches|, PageFor(a, a.fileOffset + d))
  {
    PageExists(a, pages, d);
  }

  lemma PageExists(a: Ard, pages: seq<Page>, d: nat)
    requires Whole(a, pages) && d < a.dataPresent
    ensures 0 <= PageFor(a, a.fileOffset + d) < |pages|
  {
  }

  /** No two batches write the same byte. */
  lemma WrittenOnce(a: Ard, pages: seq<Page>, batches: seq<Batch>, k: nat, l: nat, x: nat)
    requires Whole(a, pages) && Splits(batches, |pages|)
    requires k < |batches| && l < |batches|
    requires Writes(a, pages, batches[k], x) && Writes(a, pages, batches[l], x)
    ensures k == l
  {
    WritesItsPages(a, pages, batches[k], x);
    WritesItsPages(a, pages, batches[l], x);
  }

  /** The batch's vectored write covers file offset `x`. */
  ghost predicate Writes(a: Ard, pages: seq<Page>, b: Batch, x: nat)
    requires Whole(a, pages) && b.lo < b.hi <= |pages|
  {
    BatchOffset(a, pages[b.lo].index) <= x < BatchOffset(a, pages[b.lo].index) + |Gather(a, pages, b.lo, b.hi)|
  }

  lemma WritesItsPages(a: Ard, pages: seq<Page>, b: Batch, x: nat)
    requires Whole(a, pages) && b.lo < b.hi <= |pages| && Writes(a, pages, b, x)
    ensures a.fileOffset <= x < a.fileOffset + a.dataPresent && b.Has(PageFor(a, x))
  {
    BatchOffsetIsDistance(a, pages, b.lo);
    GatherIsRun(a, pages, 0, b.lo);
    GatherIsRun(a, pages, b.lo, b.hi);
    GatherIsRun(a, pages, b.hi, |pages|);
    BatchCovers(a, pages, b, x);
  }

  /** congfs_wps_prepare for pages of an append range. */
  method PrepareAppend(a: Ard, pages: seq<Page>, b: Batch) returns (offset: int, size: nat, iov: seq<Iovec>)
    requires Whole(a, pages) && b.lo < b.hi <= |pages|
    ensures offset == a.fileOffset + Cut(a, pages, b.lo) - a.Pos()
    ensures size == |Gather(a, pages, b.lo, b.hi)| && |iov| == b.hi - b.lo
    ensures forall i :: 0 <= i < |iov| ==>
      iov[i] == Iovec(OffsetInPage(a, pages[b.lo + i].index), IovLength(a, pages[b.lo + i].index))
  {
    size := 0;
    offset := a.fileOffset;
    if pages[b.lo].index != a.firstPageIndex {
      offset := offset + (pages[b.lo].index - a.firstPageIndex) * PAGE_SIZE - a.firstPageStart;
    }
    BatchOffsetIsDistance(a, pages, b.lo);
    var appendEnd := a.firstPageIndex * PAGE_SIZE + a.firstPageStart + a.dataPresent;
    iov := [];
    for i := b.lo to b.hi
      invariant size == |Gather(a, pages, b.lo, i)| && |iov| == i - b.lo
      invariant forall k :: 0 <= k < |iov| ==>
        iov[k] == Iovec(OffsetInPage(a, pages[b.lo + k].index), IovLength(a, pages[b.lo + k].index))
    {
      var page := pages[i];
      var offsetInPage := if page.index == a.firstPageIndex then a.firstPageStart else 0;
      var left := appendEnd - (page.Offset() + offsetInPage);
      var len := if 0 <= left < PAGE_SIZE - offsetInPage then left else PAGE_SIZE - offsetInPage;
      iov := iov + [Iovec(offsetInPage, len)];
      size := size + len;
    }
  }
}
