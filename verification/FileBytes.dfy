/** File contents as byte sequences: reads, positional writes with zero-filled gaps, and the
    partial writes a failing remote call may leave behind. */
module FileBytes {
  import opened Basics

  type Byte = x: int | 0 <= x < 256

  /** Bytes `[off, off + len)` of `f`, cut at the end of the file. */
  function Read(f: seq<Byte>, off: nat, len: nat): (r: seq<Byte>)
    ensures |r| == Max(0, Min(len, |f| - off))
    ensures forall i :: 0 <= i < |r| ==> r[i] == f[off + i]
  {
    if |f| <= off then [] else f[off..Min(off + len, |f|)]
  }

  /** The byte at `i` once `data` is stored at `off`; a gap behind the old end reads as zeros. */
  function Stored(f: seq<Byte>, off: nat, data: seq<Byte>, i: nat): Byte {
    if off <= i < off + |data| then data[i - off] else if i < |f| then f[i] else 0
  }

  /** `f` after storing `data` at `off`. */
  function Write(f: seq<Byte>, off: nat, data: seq<Byte>): (r: seq<Byte>)
    ensures |r| == if data == [] then |f| else Max(|f|, off + |data|)
  {
    if data == [] then f else seq(Max(|f|, off + |data|), i requires 0 <= i => Stored(f, off, data, i))
  }

  /** A write that failed on the way: of the first `reach` bytes only those whose index is in
      `kept` were stored, and the file was extended to cover `reach` bytes. */
  function Torn(f: seq<Byte>, off: nat, data: seq<Byte>, reach: nat, kept: set<nat>): (r: seq<Byte>)
    requires reach <= |data|
    ensures |r| == if reach == 0 then |f| else Max(|f|, off + reach)
  {
    if reach == 0 then f else
      seq(Max(|f|, off + reach), i requires 0 <= i =>
        if off <= i < off + reach && (i - off) in kept then data[i - off]
        else if i < |f| then f[i] else 0)
  }

  lemma WriteAt(f: seq<Byte>, off: nat, data: seq<Byte>, i: nat)
    requires i < |Write(f, off, data)|
    ensures Write(f, off, data)[i] == Stored(f, off, data, i)
  {
  }

  /** Two adjacent writes are one write of the concatenation. */
  lemma WriteConcat(f: seq<Byte>, off: nat, a: seq<Byte>, b: seq<Byte>)
    ensures Write(Write(f, off, a), off + |a|, b) == Write(f, off, a + b)
  {
    if a == [] {
      assert a + b == b;
    } else if b == [] {
      assert a + b == a;
    } else {
      WriteConcatNonempty(f, off, a, b);
    }
  }

  lemma WriteConcatNonempty(f: seq<Byte>, off: nat, a: seq<Byte>, b: seq<Byte>)
    requires a != [] && b != []
    ensures Write(Write(f, off, a), off + |a|, b) == Write(f, off, a + b)
  {
    var l, r := Write(Write(f, off, a), off + |a|, b), Write(f, off, a + b);
    assert |l| == |r|;
    forall i | 0 <= i < |l| ensures l[i] == r[i] {
      WriteConcatAt(f, off, a, b, i);
    }
  }

  lemma WriteConcatAt(f: seq<Byte>, off: nat, a: seq<Byte>, b: seq<Byte>, i: nat)
    requires a != [] && b != []
    requires i < |Write(Write(f, off, a), off + |a|, b)| && i < |Write(f, off, a + b)|
    ensures Write(Write(f, off, a), off + |a|, b)[i] == Write(f, off, a + b)[i]
  {
    var g := Write(f, off, a);
    WriteAt(g, off + |a|, b, i);
    WriteAt(f, off, a + b, i);
    if i < |g| {
      WriteAt(f, off, a, i);
    }
  }

  lemma AppendIsWrite(f: seq<Byte>, data: seq<Byte>)
    ensures f + data == Write(f, |f|, data)
  {
    var l, r := f + data, Write(f, |f|, data);
    assert |l| == |r|;
    assert forall i :: 0 <= i < |l| ==> l[i] == r[i];
    assert l == r;
  }

  /** Repeating a write in full hides whatever a failed attempt at it left behind. */
  lemma TornIsHidden(f: seq<Byte>, off: nat, data: seq<Byte>, reach: nat, kept: set<nat>)
    requires reach <= |data|
    ensures Write(Torn(f, off, data, reach, kept), off, data) == Write(f, off, data)
  {
    var l, r := Write(Torn(f, off, data, reach, kept), off, data), Write(f, off, data);
    assert |l| == |r|;
    assert l == r;
  }

  /** A full read up to `mid` followed by a read from there is one read. */
  lemma ReadSplit(f: seq<Byte>, off: nat, mid: nat, end: nat)
    requires off <= mid <= end && mid <= Max(off, |f|)
    ensures Read(f, off, mid - off) + Read(f, mid, end - mid) == Read(f, off, end - off)
  {
    var l, r := Read(f, off, mid - off) + Read(f, mid, end - mid), Read(f, off, end - off);
    assert |l| == |r|;
    assert l == r;
  }
}
