/** The dirty range of a native cache page (FhgfsOpsFileNative.c): the first and last dirty byte are
    packed into the page's private word, unless that word points to an append range descriptor.
    Masks and shifts by PAGE_SHIFT are written as division and remainder by PAGE_SIZE. */
module DirtyRange {
  import opened Basics

  function First(w: nat): nat {
    w % PAGE_SIZE
  }

  function Last(w: nat): nat {
    (w / PAGE_SIZE) % PAGE_SIZE
  }

  /** Replace the low field; the argument is an `unsigned` and is cut to the field. */
  function SetFirst(w: nat, first: int): nat {
    w - First(w) + (first % UNSIGNED) % PAGE_SIZE
  }

  function SetLast(w: nat, last: int): (r: nat) {
    LastFieldFits(w);
    w - Last(w) * PAGE_SIZE + (last % UNSIGNED) % PAGE_SIZE * PAGE_SIZE
  }

  lemma LastFieldFits(w: nat)
    ensures Last(w) * PAGE_SIZE <= w
  {
  }

  predicate CanMerge(w: nat, first: nat, last: nat) {
    || first == Last(w) + 1
    || last + 1 == First(w)
    || First(w) <= first <= Last(w)
    || First(w) <= last <= Last(w)
  }

  function Merge(w: nat, first: nat, last: nat): nat {
    var w1 := if First(w) > first then SetFirst(w, first) else w;
    if Last(w1) < last then SetLast(w1, last) else w1
  }

  /** The bytes the packed range denotes. */
  predicate Covers(w: nat, b: nat) {
    First(w) <= b <= Last(w)
  }

  lemma FirstAfterSet(w: nat, first: int)
    requires 0 <= first < PAGE_SIZE
    ensures First(SetFirst(w, first)) == first && Last(SetFirst(w, first)) == Last(w)
  {
    var q := w / PAGE_SIZE;
    assert SetFirst(w, first) == q * PAGE_SIZE + first;
    assert (q * PAGE_SIZE + first) / PAGE_SIZE == q;
  }

  lemma LastAfterSet(w: nat, last: int)
    requires 0 <= last < PAGE_SIZE
    ensures First(SetLast(w, last)) == First(w) && Last(SetLast(w, last)) == last
  {
    var q, r := w / PAGE_SIZE, w % PAGE_SIZE;
    var h := q / PAGE_SIZE;
    assert SetLast(w, last) == (h * PAGE_SIZE + last) * PAGE_SIZE + r;
    assert ((h * PAGE_SIZE + last) * PAGE_SIZE + r) / PAGE_SIZE == h * PAGE_SIZE + last;
    assert (h * PAGE_SIZE + last) % PAGE_SIZE == last;
  }

  /** Ranges merge exactly if their union is one range, except that a new range that reaches beyond
      the old one on both sides is not merged. */
  lemma CanMergeIff(w: nat, first: nat, last: nat)
    requires First(w) <= Last(w) + 1 && first <= last
    ensures CanMerge(w, first, last) <==>
      first <= Last(w) + 1 && First(w) <= last + 1 && !(first < First(w) && Last(w) < last)
  {
  }

  lemma MergeEnds(w: nat, first: nat, last: nat)
    requires first < PAGE_SIZE && last < PAGE_SIZE
    ensures First(Merge(w, first, last)) == if First(w) > first then first else First(w)
    ensures Last(Merge(w, first, last)) == if Last(w) < last then last else Last(w)
  {
    var w1 := if First(w) > first then SetFirst(w, first) else w;
    FirstAfterSet(w, first);
    LastAfterSet(w1, last);
  }

  /** A merged range denotes exactly the union. */
  lemma MergeIsUnion(w: nat, first: nat, last: nat, b: nat)
    requires First(w) <= Last(w) + 1 && first <= last < PAGE_SIZE
    requires CanMerge(w, first, last)
    ensures Covers(Merge(w, first, last), b) <==> Covers(w, b) || first <= b <= last
  {
    MergeEnds(w, first, last);
  }

  /** The new bytes join the old range to one range, or cover it. */
  predicate Absorbs(w: nat, first: nat, last: nat) {
    CanMerge(w, first, last) || (first <= First(w) && Last(w) <= last)
  }

  /** Merging without asking first is exact exactly if no byte between the two ranges is swallowed. */
  lemma MergeIsUnionIff(w: nat, first: nat, last: nat)
    requires First(w) <= Last(w) + 1 && first <= last < PAGE_SIZE
    ensures (forall b: nat :: Covers(Merge(w, first, last), b) <==> Covers(w, b) || first <= b <= last)
      <==> Absorbs(w, first, last)
  {
    MergeEnds(w, first, last);
    if !Absorbs(w, first, last) {
      var gap := if last + 1 < First(w) then last + 1 else first - 1;
      assert Covers(Merge(w, first, last), gap) && !Covers(w, gap) && !(first <= gap <= last);
    }
  }

  /** The word for a page that had no range yet, after `copied` bytes at `off`. */
  function FreshRange(off: nat, copied: nat): nat {
    SetLast(SetFirst(0, off), off + copied - 1)
  }

  lemma FreshRangeEnds(off: nat, copied: nat)
    requires off < PAGE_SIZE && off + copied <= PAGE_SIZE
    ensures First(FreshRange(off, copied)) == off
    ensures Last(FreshRange(off, copied)) == if off == 0 && copied == 0 then PAGE_SIZE - 1 else off + copied - 1
  {
    FirstAfterSet(0, off);
    var w := SetFirst(0, off);
    if off == 0 && copied == 0 {
      assert FreshRange(off, copied) == SetLast(w, PAGE_SIZE - 1);
      LastAfterSet(w, PAGE_SIZE - 1);
    } else {
      LastAfterSet(w, off + copied - 1);
    }
  }

  /** A fresh range denotes exactly the bytes copied, unless nothing was copied at the very start of
      the page: the last byte then wraps around and the whole page counts as dirty. */
  lemma FreshRangeIsExactIff(off: nat, copied: nat)
    requires off < PAGE_SIZE && off + copied <= PAGE_SIZE
    ensures (forall b: nat :: Covers(FreshRange(off, copied), b) <==> off <= b < off + copied)
      <==> !(off == 0 && copied == 0)
  {
    FreshRangeEnds(off, copied);
    if off == 0 && copied == 0 {
      assert Covers(FreshRange(off, copied), 0);
    }
  }

  predicate Within(off: nat, len: nat, b: nat) {
    off <= b < off + len
  }

  function Bytes(off: nat, len: nat): set<nat> {
    set b: nat | off <= b < off + len && Within(off, len, b)
  }

  /** What a page holds, without the packing: the reference for the private word and flags. */
  datatype Shape = Clean | Dirty(first: nat, last: nat) | Appending(ard: nat)

  /** The bytes first..last extend the dirty range to one range, and not on both sides at once. */
  predicate Joins(s: Shape, first: nat, last: nat) {
    && s.Dirty?
    && first <= s.last + 1 && s.first <= last + 1
    && !(first < s.first && s.last < last)
  }

  /** What an attempt to write the page out comes to. The caller learns only of the first case: a write
      that failed is reported as 0, like one that succeeded. */
  datatype FlushOutcome =
    | Unreferenced   // no file handle: an error is returned and nothing was tried
    | Failed         // the write failed: 0 is returned, the page is as before
    | Out            // the page was written out

  datatype Op =
    | Plain(off: nat, len: nat)
    | Append(off: nat, len: nat, ard: nat)
    | WriteOut
  {
    predicate Fits() {
      WriteOut? || (1 <= len && off + len <= PAGE_SIZE)
    }

    predicate Touches(b: nat) {
      Plain? && Within(off, len, b)
    }

    /** The operation writes the page out first, or is itself a write-out. */
    predicate WritesOut(s: Shape) {
      match this
      case WriteOut => true
      case Append(_, _, ard) => s.Dirty? || (s.Appending? && s.ard != ard)
      case Plain(off, len) => s.Appending? || (s.Dirty? && 1 <= len && !Joins(s, off, off + len - 1))
    }

    /** After a failed write-out that the operation takes for a success, the page still denotes what has
        to be written: the new bytes cover the old range on both sides, or there was nothing to write. */
    predicate Tolerates(s: Shape) {
      match this
      case WriteOut => true
      case Append(_, _, _) => s.Dirty? && s.first == s.last + 1
      case Plain(off, len) => s.Dirty? && off <= s.first && s.last < off + len
    }
  }

  /** One operation and the outcome of the write-out it may need. */
  datatype Step = Step(op: Op, outcome: FlushOutcome) {
    /** The page is written out. */
    predicate Outs(s: Shape) {
      op.WritesOut(s) && outcome.Out?
    }

    /** A write-out fails unnoticed. */
    predicate Fails(s: Shape) {
      op.WritesOut(s) && outcome.Failed?
    }

    /** The operation gives up with an error. */
    predicate Refused(s: Shape) {
      op.WritesOut(s) && outcome.Unreferenced?
    }

    /** The operation runs into the check that a page has no append descriptor yet. */
    predicate Bugs(s: Shape) {
      Fails(s) && op.Append? && s.Appending?
    }

    predicate Touches(s: Shape, b: nat) {
      !Refused(s) && op.Touches(b)
    }

    function After(s: Shape): Shape
      requires op.Fits()
    {
      if Refused(s) || Bugs(s) then s
      else
        match op
        case WriteOut => if Outs(s) then Clean else s
        case Append(_, _, ard) => Appending(ard)
        case Plain(off, len) =>
          if s.Dirty? && !Outs(s)
          then Dirty(Min(off, s.first), Max(s.last, off + len - 1))
          else Dirty(off, off + len - 1)
    }
  }

  predicate AllFit(steps: seq<Step>) {
    forall k :: 0 <= k < |steps| ==> steps[k].op.Fits()
  }

  function ShapeAfter(s: Shape, steps: seq<Step>, n: nat): Shape
    requires n <= |steps| && AllFit(steps)
  {
    if n == 0 then s else steps[n - 1].After(ShapeAfter(s, steps, n - 1))
  }

  /** Every unnoticed failure among the steps is one that the operation tolerates. */
  predicate AllTolerated(s: Shape, steps: seq<Step>)
    requires AllFit(steps)
  {
    forall k :: 0 <= k < |steps| ==>
      var t := ShapeAfter(s, steps, k); steps[k].Fails(t) ==> steps[k].op.Tolerates(t)
  }

  /** The first operation that comes after the last write-out among the first n. */
  function LastOut(s: Shape, steps: seq<Step>, n: nat): nat
    requires n <= |steps| && AllFit(steps)
  {
    if n == 0 then 0
    else if steps[n - 1].Outs(ShapeAfter(s, steps, n - 1)) then (if steps[n - 1].op.Plain? then n - 1 else n)
    else LastOut(s, steps, n - 1)
  }

  /** A non-append write among the steps k..n wrote byte b. */
  ghost predicate WrittenSince(s: Shape, steps: seq<Step>, from: nat, n: nat, b: nat)
    requires n <= |steps| && AllFit(steps)
  {
    exists k :: from <= k < n && steps[k].Touches(ShapeAfter(s, steps, k), b)
  }

  predicate Between(lo: nat, b: nat, hi: nat) {
    lo <= b <= hi
  }

  /** The bytes of both ranges, and no others, lie between their outer ends. */
  ghost predicate OneRange(s: Shape, first: nat, last: nat)
    requires s.Dirty?
  {
    forall b: nat :: Between(Min(first, s.first), b, Max(last, s.last)) <==>
      Between(s.first, b, s.last) || Between(first, b, last)
  }

  /** A plain write needs a write-out exactly if the page belongs to an append, or the bytes do not make one
      range with the dirty ones, or reach beyond these on both sides, which would make one range, too. An
      append needs it exactly if the page has plain dirty bytes or belongs to another append. */
  lemma WritesOutIff(s: Shape, op: Op)
    requires op.Fits() && (s.Dirty? ==> s.first <= s.last + 1)
    ensures op.Plain? ==> (op.WritesOut(s) <==>
      || s.Appending?
      || (s.Dirty? && (!OneRange(s, op.off, op.off + op.len - 1) || (op.off < s.first && s.last + 1 < op.off + op.len))))
    ensures op.Append? ==> (op.WritesOut(s) <==> s != Clean && s != Appending(op.ard))
  {
    if op.Plain? && s.Dirty? {
      OneRangeIff(s, op.off, op.off + op.len - 1);
    }
  }

  lemma OneRangeIff(s: Shape, first: nat, last: nat)
    requires s.Dirty? && s.first <= s.last + 1 && first <= last
    ensures OneRange(s, first, last) <==> Joins(s, first, last) || (first < s.first && s.last < last)
  {
    if last + 1 < s.first {
      assert Between(Min(first, s.first), last + 1, Max(last, s.last));
      assert !Between(s.first, last + 1, s.last) && !Between(first, last + 1, last);
    } else if s.last + 1 < first {
      assert Between(Min(first, s.first), first - 1, Max(last, s.last));
      assert !Between(s.first, first - 1, s.last) && !Between(first, first - 1, last);
    }
  }

  datatype Begun = Ready | RefusedWrite | Bug

  class Page {
    var word: nat           // page->private
    var isPrivate: bool
    var isChecked: bool
    ghost var written: set<nat>  // bytes of non-append writes since the page was last written out
    ghost var appended: bool     // it holds appended data that was not written out

    predicate PvrPresent()
      reads this
    {
      isPrivate && !isChecked
    }

    /** The byte is in the page's packed dirty range. */
    predicate IsDirty(b: nat)
      reads this
    {
      PvrPresent() && Covers(word, b)
    }

    function Shape(): Shape
      reads this
    {
      if PvrPresent() then Dirty(First(word), Last(word)) else if isPrivate then Appending(word) else Clean
    }

    function Ard(): Option<nat>
      reads this
    {
      if isPrivate && isChecked then Some(word) else None
    }

    /** The packed range denotes exactly the bytes to write out, and the page has an append descriptor
        exactly if it holds appended data to write out. */
    ghost predicate Valid()
      reads this
    {
      && (PvrPresent() ==> First(word) <= Last(word) + 1 && forall b: nat :: b in written <==> Covers(word, b))
      && (!PvrPresent() ==> written == {})
      && (appended <==> Ard().Some?)
    }

    constructor ()
      ensures Valid() && Shape() == Clean
    {
      word, isPrivate, isChecked := 0, false, false;
      written, appended := {}, false;
    }

    /** congfs_flush_page: write the page out and wait. */
    method FlushPage(o: FlushOutcome) returns (err: bool)
      requires Valid()
      modifies this
      ensures Valid() && (err <==> o.Unreferenced?)
      ensures if o.Out? then Shape() == Clean && written == {} && !appended
              else Shape() == old(Shape()) && written == old(written) && appended == old(appended)
    {
      err := o.Unreferenced?;
      if o.Out? {
        if PvrPresent() {
          isPrivate := false;
        } else if isPrivate && isChecked {
          isPrivate, isChecked, word := false, false, 0;
        }
        written, appended := {}, false;
      }
    }

    /** write_begin: make the page ready for the write, writing it out first if the new bytes cannot join
        what it holds. If that fails unnoticed, an append forgets the dirty range, or runs into a check
        if the page belongs to another append. */
    method WriteBegin(append: bool, off: nat, len: nat, mappingArd: nat, o: FlushOutcome) returns (res: Begun)
      requires Valid() && 1 <= len && off + len <= PAGE_SIZE
      modifies this
      ensures var step := Step(if append then Append(off, len, mappingArd) else Plain(off, len), o);
        var s := old(Shape());
        && (res.RefusedWrite? <==> step.Refused(s)) && (res.Bug? <==> step.Bugs(s))
        && written == (if step.Outs(s) then {} else old(written))
        && Shape() == (if !res.Ready? then s else if append then Appending(mappingArd)
                       else if step.Outs(s) then Clean else s)
        && appended == (if res.Ready? && append then true else if step.Outs(s) then false else old(appended))
        && (Valid() <==> !(append && step.Fails(s) && old(written) != {}))
    {
      if PvrPresent() {
        CanMergeIff(word, off, off + len - 1);
      }
      res := Ready;
      var mustFlush := false;
      if append {
        if PvrPresent() {
          mustFlush := true;
        } else if Ard() == Some(mappingArd) {
          return;
        } else if Ard() != None {
          mustFlush := true;
        }
      } else {
        if Ard() != None {
          mustFlush := true;
        } else if !PvrPresent() || CanMerge(word, off, off + len - 1) {
          return;
        } else {
          mustFlush := true;
        }
      }
      if mustFlush {
        var err := FlushPage(o);
        if err {
          return RefusedWrite;
        }
      }
      if append {
        if Ard() != None {
          return Bug;
        }
        isPrivate, isChecked, word := true, true, mappingArd;
        appended := true;
      }
    }

    /** write_end of a non-append write: note the bytes. A short copy onto a page that has a range is
        dropped. Otherwise the page still denotes what has to be written exactly if the bytes join or
        cover the range that it has, or it has none and no append descriptor either and something was
        copied or not to the start of the page. */
    method WriteEnd(off: nat, len: nat, copied: nat) returns (result: nat)
      requires Valid() && 1 <= len && copied <= len && off + len <= PAGE_SIZE
      modifies this
      ensures result == if old(PvrPresent()) && copied != len then 0 else copied
      ensures written == old(written) + Bytes(off, result) && appended == old(appended)
      ensures Ard() == None
      ensures old(PvrPresent()) ==>
        Shape() == if copied != len then old(Shape())
                   else Dirty(Min(off, First(old(word))), Max(Last(old(word)), off + len - 1))
      ensures !old(PvrPresent()) && 0 < copied ==> Shape() == Dirty(off, off + copied - 1)
      ensures Valid() <==>
        if old(PvrPresent()) then copied != len || Absorbs(old(word), off, off + len - 1)
        else old(Ard()) == None && !(off == 0 && copied == 0)
    {
      result := copied;
      if copied != len && PvrPresent() {
        result := 0;
        assert Bytes(off, result) == {};
        return;
      }
      ghost var added := Bytes(off, copied);
      if PvrPresent() {
        MergeIsUnionIff(word, off, off + copied - 1);
        MergeEnds(word, off, off + copied - 1);
        word := Merge(word, off, off + copied - 1);
      } else {
        FreshRangeIsExactIff(off, copied);
        FreshRangeEnds(off, copied);
        isPrivate, isChecked := true, false;
        word := FreshRange(off, copied);
        assert off == 0 && copied == 0 ==> Covers(word, 0);
      }
      written := written + added;
    }
  }

  /** One operation, whatever becomes of its write-out. Afterwards the page denotes what has to be
      written exactly if the write-out did not fail unnoticed or the operation tolerates that. */
  method PerformStep(page: Page, step: Step)
    requires page.Valid() && step.op.Fits()
    modifies page
    ensures var s := old(page.Shape());
      && page.Shape() == step.After(s)
      && (page.Valid() <==> !step.Fails(s) || step.op.Tolerates(s) || step.Bugs(s))
      && forall b: nat :: b in page.written <==> (!step.Outs(s) && b in old(page.written)) || step.Touches(s, b)
  {
    match step.op {
      case WriteOut =>
        var _ := page.FlushPage(step.outcome);
      case Append(off, len, ard) =>
        if page.PvrPresent() {
          RangeIsEmptyIff(page);
        }
        var _ := page.WriteBegin(true, off, len, ard, step.outcome);
      case Plain(off, len) =>
        if page.PvrPresent() {
          CanMergeIff(page.word, off, off + len - 1);
        }
        var res := page.WriteBegin(false, off, len, 0, step.outcome);
        if res.Ready? {
          var _ := page.WriteEnd(off, len, len);
        }
    }
  }

  lemma RangeIsEmptyIff(page: Page)
    requires page.Valid() && page.PvrPresent()
    ensures page.written == {} <==> First(page.word) == Last(page.word) + 1
  {
    assert First(page.word) <= Last(page.word) ==> First(page.word) in page.written;
  }

  /** Any sequence of full writes, appends and write-outs of a page, in which write-outs may fail as long as
      the operations tolerate it: the private word and flags follow the reference, pages are written out
      only where they must be, and the packed range denotes exactly the bytes of the non-append writes
      after the last write-out that succeeded. */
  method RunPage(page: Page, steps: seq<Step>)
    requires page.Valid() && page.written == {} && AllFit(steps) && AllTolerated(page.Shape(), steps)
    modifies page
    ensures page.Valid()
    ensures page.Shape() == ShapeAfter(old(page.Shape()), steps, |steps|)
    ensures forall b: nat :: page.IsDirty(b) <==>
      WrittenSince(old(page.Shape()), steps, LastOut(old(page.Shape()), steps, |steps|), |steps|, b)
    ensures page.PvrPresent() ==> page.Ard() == None
  {
    ghost var start := page.Shape();
    for n := 0 to |steps|
      invariant page.Valid()
      invariant page.Shape() == ShapeAfter(start, steps, n)
      invariant LastOut(start, steps, n) <= n
      invariant forall b: nat :: b in page.written <==> WrittenSince(start, steps, LastOut(start, steps, n), n, b)
    {
      ghost var before := page.written;
      NotBugged(start, steps, n);
      PerformStep(page, steps[n]);
      forall b: nat
        ensures b in page.written <==> WrittenSince(start, steps, LastOut(start, steps, n + 1), n + 1, b)
      {
        WrittenStep(start, steps, n, b);
        assert b in before <==> WrittenSince(start, steps, LastOut(start, steps, n), n, b);
      }
    }
    forall b: nat
      ensures page.IsDirty(b) <==> WrittenSince(start, steps, LastOut(start, steps, |steps|), |steps|, b)
    {
      assert b in page.written <==> page.IsDirty(b);
    }
  }

  lemma WrittenStep(s: Shape, steps: seq<Step>, n: nat, b: nat)
    requires AllFit(steps) && n < |steps| && LastOut(s, steps, n) <= n
    ensures var t := ShapeAfter(s, steps, n);
      && LastOut(s, steps, n + 1) <= n + 1
      && (WrittenSince(s, steps, LastOut(s, steps, n + 1), n + 1, b) <==>
            (!steps[n].Outs(t) && WrittenSince(s, steps, LastOut(s, steps, n), n, b)) || steps[n].Touches(t, b))
  {
  }

  lemma NotBugged(s: Shape, steps: seq<Step>, n: nat)
    requires AllFit(steps) && AllTolerated(s, steps) && n < |steps|
    ensures var t := ShapeAfter(s, steps, n);
      !steps[n].Bugs(t) && (steps[n].Fails(t) ==> steps[n].op.Tolerates(t))
  {
  }

  /** A page with the range 0..9 whose write-out fails unnoticed, and a write of bytes 100..109: byte 50
      becomes dirty although nobody wrote it. */
  lemma FailedWriteOutMarksUnwritten()
    ensures var w := FreshRange(0, 10); var step := Step(Plain(100, 10), Failed);
      && step.Fails(Dirty(First(w), Last(w)))
      && !Covers(w, 50) && !Within(100, 10, 50) && Covers(Merge(w, 100, 109), 50)
  {
    FreshRangeEnds(0, 10);
    MergeEnds(FreshRange(0, 10), 100, 109);
  }
}
