/** What becomes of pending write data after a flush that was answered with 0 (FhgfsOpsHelper.c): the
    answer passes for a success although the buffer is still attached, and the next write or read goes on
    as if it were gone. */
module ZeroAnswer {
  import opened Basics
  import opened FileBytes
  import opened BufferedCache

  /** The pending byte `v` of offset `x` is not missed: the new write covers it, or what is at the
      servers or fills a gap there is the same. */
  predicate Spared(f: seq<Byte>, offset: nat, data: seq<Byte>, x: nat, v: Byte) {
    || offset <= x < offset + |data|
    || (x < |Write(f, offset, data)| && Stored(f, offset, data, x) == v)
  }

  ghost predicate AllSpared(f: seq<Byte>, offset: nat, data: seq<Byte>, po: nat, pd: seq<Byte>) {
    forall i :: 0 <= i < |pd| ==> Spared(f, offset, data, po + i, pd[i])
  }

  /** The pending data and the new data agree wherever both have a byte. */
  ghost predicate OverlapAgrees(offset: nat, data: seq<Byte>, po: nat, pd: seq<Byte>) {
    forall i :: 0 <= i < |pd| && offset <= po + i < offset + |data| ==> pd[i] == data[po + i - offset]
  }

  /** The byte at x after writing the pending data and then the new data. */
  function Both(f: seq<Byte>, po: nat, pd: seq<Byte>, offset: nat, data: seq<Byte>, x: nat): Byte {
    if offset <= x < offset + |data| then data[x - offset] else Stored(f, po, pd, x)
  }

  lemma BothAt(f: seq<Byte>, po: nat, pd: seq<Byte>, offset: nat, data: seq<Byte>, x: nat)
    requires x < |Write(Write(f, po, pd), offset, data)|
    ensures Write(Write(f, po, pd), offset, data)[x] == Both(f, po, pd, offset, data, x)
  {
    var g := Write(f, po, pd);
    WriteAt(g, offset, data, x);
    if x < |g| {
      WriteAt(f, po, pd, x);
    }
  }

  /** Throwing the pending data away is unnoticeable exactly if every byte of it is spared. */
  lemma LosingIsHarmlessIff(f: seq<Byte>, po: nat, pd: seq<Byte>, offset: nat, data: seq<Byte>)
    ensures Write(f, offset, data) == Write(Write(f, po, pd), offset, data) <==> AllSpared(f, offset, data, po, pd)
  {
    var g, h := Write(f, offset, data), Write(Write(f, po, pd), offset, data);
    if AllSpared(f, offset, data, po, pd) {
      assert pd != [] ==> Spared(f, offset, data, po + (|pd| - 1), pd[|pd| - 1]);
      assert |g| == |h|;
      forall x | 0 <= x < |g| ensures g[x] == h[x] {
        WriteAt(f, offset, data, x);
        BothAt(f, po, pd, offset, data, x);
        assert po <= x < po + |pd| ==> Spared(f, offset, data, po + (x - po), pd[x - po]);
      }
    } else {
      var i :| 0 <= i < |pd| && !Spared(f, offset, data, po + i, pd[i]);
      BothAt(f, po, pd, offset, data, po + i);
      if po + i < |g| {
        WriteAt(f, offset, data, po + i);
      }
    }
  }

  /** Writing through under the pending data is unnoticeable exactly if both agree where they meet. */
  lemma WrongOrderIsHarmlessIff(f: seq<Byte>, po: nat, pd: seq<Byte>, offset: nat, data: seq<Byte>)
    ensures Write(Write(f, offset, data), po, pd) == Write(Write(f, po, pd), offset, data) <==>
      OverlapAgrees(offset, data, po, pd)
  {
    var g, h := Write(Write(f, offset, data), po, pd), Write(Write(f, po, pd), offset, data);
    assert |g| == |h|;
    if OverlapAgrees(offset, data, po, pd) {
      forall x | 0 <= x < |g| ensures g[x] == h[x] {
        BothAt(f, offset, data, po, pd, x);
        BothAt(f, po, pd, offset, data, x);
        assert po <= x < po + |pd| && offset <= x < offset + |data| ==> pd[x - po] == data[x - offset] by {
          if po <= x < po + |pd| && offset <= x < offset + |data| {
            var i := x - po;
            assert po + i == x;
          }
        }
      }
    } else {
      var i :| 0 <= i < |pd| && offset <= po + i < offset + |data| && pd[i] != data[po + i - offset];
      BothAt(f, offset, data, po, pd, po + i);
      BothAt(f, po, pd, offset, data, po + i);
    }
  }

  /** A write after a flush that failed unnoticed: whether it acts on the logical file as it should depends
      on its way. `l` is the file before the flush. */
  lemma WriteAfterZeroIff(l: Logical, o: WriteOutcome, route: WriteRoute, data: seq<Byte>, offset: nat)
    requires l.pending.Some? && 0 <= l.pending.value.offset && o.WriteFault?
    ensures var p := l.pending.value; var f := AfterFlush(l, false, o).remote;
      var after := AfterWrite(AfterFlush(l, false, o), route, data, offset, WriteDone).View();
      match route
      case Through => after == Write(l.View(), offset, data) <==> OverlapAgrees(offset, data, p.offset, p.data)
      case Starved => after == Write(l.View(), offset, data) <==> AllSpared(f, offset, data, p.offset, p.data)
      case Buffered => after == Write(l.View(), offset, data) <==> AllSpared(f, offset, data, p.offset, p.data)
      case CopyFault => after == l.View() <==> AllSpared(f, 0, [], p.offset, p.data)
  {
    var p := l.pending.value;
    var f := AfterFlush(l, false, o).remote;
    TornIsHidden(l.remote, p.offset, p.data, o.Reach(|p.data|), o.kept);
    assert l.View() == Write(f, p.offset, p.data);
    match route
    case Through => WrongOrderIsHarmlessIff(f, p.offset, p.data, offset, data);
    case Starved => LosingIsHarmlessIff(f, p.offset, p.data, offset, data);
    case Buffered => LosingIsHarmlessIff(f, p.offset, p.data, offset, data);
    case CopyFault => LosingIsHarmlessIff(f, p.offset, p.data, 0, []);
  }

  /** The read range meets no pending byte that the servers lack, and does not reach behind their end of
      the file where the pending data extends it. */
  ghost predicate ReadsStored(f: seq<Byte>, po: nat, pd: seq<Byte>, off: nat, size: nat) {
    && (forall i :: 0 <= i < |pd| && off <= po + i < off + size ==> po + i < |f| && f[po + i] == pd[i])
    && (pd == [] || size == 0 || po + |pd| <= |f| || off + size <= |f| || po + |pd| <= off)
  }

  /** A read after such a flush delivers the bytes of the logical file exactly if its range meets nothing
      that is only pending. */
  lemma ReadAfterZeroIff(l: Logical, o: WriteOutcome, off: nat, size: nat)
    requires l.pending.Some? && 0 <= l.pending.value.offset && o.WriteFault?
    ensures var p := l.pending.value; var f := AfterFlush(l, false, o).remote;
      Read(f, off, size) == Read(l.View(), off, size) <==> ReadsStored(f, p.offset, p.data, off, size)
  {
    var p := l.pending.value;
    var f := AfterFlush(l, false, o).remote;
    TornIsHidden(l.remote, p.offset, p.data, o.Reach(|p.data|), o.kept);
    ReadIsStoredIff(f, p.offset, p.data, off, size);
  }

  lemma ReadIsStoredIff(f: seq<Byte>, po: nat, pd: seq<Byte>, off: nat, size: nat)
    ensures Read(f, off, size) == Read(Write(f, po, pd), off, size) <==> ReadsStored(f, po, pd, off, size)
  {
    var v := Write(f, po, pd);
    var g, h := Read(f, off, size), Read(v, off, size);
    if ReadsStored(f, po, pd, off, size) {
      assert |g| == |h|;
      forall i | 0 <= i < |g| ensures g[i] == h[i] {
        WriteAt(f, po, pd, off + i);
        if po <= off + i < po + |pd| {
          var j := off + i - po;
          assert po + j == off + i;
        }
      }
    } else if j :| 0 <= j < |pd| && off <= po + j < off + size && !(po + j < |f| && f[po + j] == pd[j]) {
      WriteAt(f, po, pd, po + j);
      assert h[po + j - off] == pd[j];
      assert po + j < |f| ==> g[po + j - off] == f[po + j];
    }
  }

  /** An empty file with the byte 7 pending at offset 0, a flush that stores nothing and is answered with 0,
      and a buffered write of the byte 9 at offset 5, which reports success: the 7 is gone. */
  lemma PendingByteIsLost()
    ensures var l := Logical([], Some(Piece(0, [7]))); var o := WriteFault(0, 0, {});
      && o.Answer(1) == 0
      && Write(l.View(), 5, [9]) == [7, 0, 0, 0, 0, 9]
      && AfterWrite(AfterFlush(l, false, o), Buffered, [9], 5, WriteDone).View() == [0, 0, 0, 0, 0, 9]
  {
  }
}
