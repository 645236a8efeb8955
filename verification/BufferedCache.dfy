/** The per-inode file buffer (FhgfsOpsHelper.c): one buffer that is absent, a read-ahead copy, or
    pending write data, either at a file offset or to be appended. `View` is the file a reader
    must observe: the server's bytes with pending write data laid over them. */
module BufferedCache {
  import opened Basics
  import opened FileBytes

  const NOSPACE := 14
  const ADDRESSFAULT := 21

  const HITS_INITIAL := 3
  const HITS_THRESHOLD := 5
  const MISS_THRESHOLD := -5
  const SLOWSTART_READLEN := 64 * 1024

  /** The file offset that stands for "append". */
  const APPEND := -1

  datatype BufferType = NoBuffer | ReadBuffer | WriteBuffer

  /** What one remote write call does. A failing call answers with some number below the
      requested size and may have stored any part of the data. */
  datatype WriteOutcome = WriteDone | WriteFault(ret: int, reach: nat, kept: set<nat>) {
    function Answer(size: nat): (r: int)
      ensures r <= size
      ensures r == size <==> WriteDone?
    {
      if WriteDone? then size else if ret < size then ret else -1
    }

    /** The call does not answer a non-empty write with 0. */
    predicate NeverZero() {
      WriteDone? || ret != 0
    }

    function Reach(size: nat): (r: nat)
      ensures r <= size
    {
      if WriteDone? then size else Min(reach, size)
    }

    function Apply(f: seq<Byte>, off: nat, data: seq<Byte>): seq<Byte> {
      if WriteDone? then Write(f, off, data) else Torn(f, off, data, Reach(|data|), kept)
    }
  }

  /** What one remote read call does: deliver every byte up to the end of file, or fail. */
  datatype ReadOutcome = ReadDone | ReadFault(err: nat) {
    function Answer(f: seq<Byte>, off: nat, len: nat): (r: int)
      ensures r < 0 <==> ReadFault?
    {
      if ReadDone? then |Read(f, off, len)| else -1 - err
    }
  }

  /** Everything outside the buffer code that one call meets. */
  datatype Env = Env(
    allowCaching: bool,       // not O_DIRECT, caching enabled
    multipleReaders: bool,    // the inode is open by several readers
    bufAvailable: bool,       // the buffer store has a buffer left
    chunkSize: nat,           // distance from the offset to the end of its chunk
    lastOffset: int,          // where the previous read or write of this open file ended
    flush: WriteOutcome,      // flush of the buffer that is attached on entry
    flushFull: WriteOutcome,  // flush of the buffer this call fills up
    direct: WriteOutcome,     // write-through
    front: ReadOutcome,       // remote read of the part in front of the read buffer
    fill: ReadOutcome,        // read-ahead or direct read
    copyFails: bool,          // copy between user memory and the attached buffer
    copyNewFails: bool)       // copy between user memory and a new buffer
  {
    predicate AllSucceed() {
      flush.WriteDone? && flushFull.WriteDone? && direct.WriteDone? && front.ReadDone? && fill.ReadDone?
      && !copyFails && !copyNewFails
    }

    /** Flushes and copies may fail, but a write-through succeeds and no flush is answered with 0. */
    predicate Recoverable() {
      direct.WriteDone? && flush.NeverZero()
    }
  }

  /** `f` after a write at `offset`, where `APPEND` means at the end. */
  function Written(f: seq<Byte>, offset: int, data: seq<Byte>): seq<Byte>
    requires APPEND <= offset
  {
    if offset == APPEND then f + data else Write(f, offset, data)
  }

  /** Write data that waits in the buffer. */
  datatype Piece = Piece(offset: int, data: seq<Byte>)

  /** The file at the servers and the data that waits to be written to it. */
  datatype Logical = Logical(remote: seq<Byte>, pending: Option<Piece>) {
    predicate Valid() {
      pending.Some? ==> APPEND <= pending.value.offset
    }

    /** The file a reader must observe. */
    function View(): seq<Byte>
      requires Valid()
    {
      if pending.Some? then Written(remote, pending.value.offset, pending.value.data) else remote
    }
  }

  function Position(f: seq<Byte>, offset: int): nat
    requires APPEND <= offset
  {
    if offset == APPEND then |f| else offset
  }

  /** What a flush leaves behind. */
  function AfterFlush(l: Logical, discardOnError: bool, o: WriteOutcome): (r: Logical)
    requires l.Valid()
    ensures r.Valid()
  {
    if l.pending.None? then l
    else
      var p := l.pending.value;
      Logical(o.Apply(l.remote, Position(l.remote, p.offset), p.data),
              if o.WriteDone? || discardOnError then None else l.pending)
  }

  /** What a flush reports: a short write looks like a full disk, and an answer of 0 like a success. */
  function FlushError(answer: int, len: nat): int {
    if answer >= len then SUCCESS else if answer > 0 then NOSPACE else -answer
  }

  /** What a write into the buffer leaves behind: the longer piece, flushed if it fills the buffer. */
  function AfterExtend(remote: seq<Byte>, piece: Piece, full: bool, o: WriteOutcome): (r: Logical)
    requires APPEND <= piece.offset
    ensures r.Valid()
  {
    if full then AfterFlush(Logical(remote, Some(piece)), false, o) else Logical(remote, Some(piece))
  }

  /** The ways of a write for which the buffer should have been emptied: through to the servers, through
      because no buffer is left, into a new buffer, or nowhere because copying from the user failed. */
  datatype WriteRoute = Through | Starved | Buffered | CopyFault

  function WriteRouteOf(size: nat, offset: int, cacheHits: int, bufSize: nat, e: Env): WriteRoute {
    var maxCacheLen := if offset == APPEND then bufSize else Min(e.chunkSize, bufSize);
    if !e.allowCaching || (offset != APPEND && cacheHits <= 0) || size >= maxCacheLen then Through
    else if !e.bufAvailable then Starved
    else if e.copyNewFails then CopyFault
    else Buffered
  }

  function WriteAnswer(route: WriteRoute, size: nat, direct: WriteOutcome): int {
    match route
    case Buffered => size
    case CopyFault => -ADDRESSFAULT
    case _ => direct.Answer(size)
  }

  /** What the write leaves behind, also if data was still pending. */
  function AfterWrite(l: Logical, route: WriteRoute, data: seq<Byte>, offset: int, direct: WriteOutcome): (r: Logical)
    requires l.Valid() && APPEND <= offset
    ensures r.Valid()
  {
    match route
    case Through => Logical(direct.Apply(l.remote, Position(l.remote, offset), data), l.pending)
    case Starved => Logical(direct.Apply(l.remote, Position(l.remote, offset), data), None)
    case Buffered => Logical(l.remote, Some(Piece(offset, data)))
    case CopyFault => Logical(l.remote, None)
  }

  /** The ways of a read for which the buffer should have been emptied. */
  datatype ReadRoute = Direct | NoBufferLeft | Ahead

  function ReadRouteOf(size: nat, cacheHits: int, bufSize: nat, e: Env): ReadRoute {
    if !e.allowCaching || cacheHits <= 0 || e.multipleReaders || size >= Min(e.chunkSize, bufSize) then Direct
    else if !e.bufAvailable then NoBufferLeft
    else Ahead
  }

  function AfterRead(l: Logical, route: ReadRoute): Logical {
    if route == Direct then l else l.(pending := None)
  }

  /** The part of an open file's state that steers caching (FsFileInfo.c). */
  class FileInfo {
    var cacheHits: int

    /** The counter moves one up for a hit and one down for a miss, and stays where it has passed the
        threshold on that side. */
    static predicate Moved(before: int, after: int, hit: bool) {
      if hit then after == if before < HITS_THRESHOLD then before + 1 else before
      else after == if before > MISS_THRESHOLD then before - 1 else before
    }

    constructor ()
      ensures cacheHits == HITS_INITIAL
    {
      cacheHits := HITS_INITIAL;
    }

    method IncCacheHits()
      modifies this
      ensures Moved(old(cacheHits), cacheHits, true)
    {
      if cacheHits < HITS_THRESHOLD {
        cacheHits := cacheHits + 1;
      }
    }

    method DecCacheHits()
      modifies this
      ensures Moved(old(cacheHits), cacheHits, false)
    {
      if cacheHits > MISS_THRESHOLD {
        cacheHits := cacheHits - 1;
      }
    }
  }

  class CachedFile {
    var remote: seq<Byte>      // the file at the servers
    var buf: array?<Byte>
    var bufUsageLen: nat
    var bufUsageMaxLen: nat
    var fileOffset: int        // APPEND for an append buffer
    var bufType: BufferType
    const bufSize: nat

    ghost predicate Valid()
      reads this, buf
    {
      && SLOWSTART_READLEN <= bufSize
      && (bufType == NoBuffer <==> buf == null)
      && (buf != null ==>
            && buf.Length == bufSize
            && bufUsageLen <= bufUsageMaxLen <= bufSize
            && APPEND <= fileOffset)
      && (bufType == ReadBuffer ==>
            && 0 <= fileOffset
            && 0 < bufUsageLen
            && fileOffset + bufUsageLen <= |remote|
            && Contents() == remote[fileOffset..fileOffset + bufUsageLen])
    }

    ghost function Contents(): seq<Byte>
      requires buf != null && bufUsageLen <= buf.Length
      reads this, buf
    {
      buf[..bufUsageLen]
    }

    /** The buffer is of type write, but there is none: what happens if no new buffer can be had while
        the old one is still attached. Any further use of the file would follow a null pointer. */
    ghost predicate Broken()
      reads this
    {
      bufType == WriteBuffer && buf == null
    }

    ghost function Value(): (l: Logical)
      requires Valid() || Broken()
      reads this, buf
      ensures l.Valid()
    {
      Logical(remote, if bufType == WriteBuffer && buf != null then Some(Piece(fileOffset, Contents())) else None)
    }

    /** The logical file. */
    ghost function View(): seq<Byte>
      requires Valid() || Broken()
      reads this, buf
    {
      Value().View()
    }

    constructor (content: seq<Byte>, bufferSize: nat)
      requires SLOWSTART_READLEN <= bufferSize
      ensures Valid() && View() == content && bufType == NoBuffer && bufSize == bufferSize
    {
      remote := content;
      buf, bufType := null, NoBuffer;
      bufUsageLen, bufUsageMaxLen, fileOffset := 0, 0, 0;
      bufSize := bufferSize;
    }

    /** writefileEx: a positional write, or an append at the size the servers report. */
    method WritefileEx(data: seq<Byte>, offset: int, o: WriteOutcome) returns (res: int)
      requires APPEND <= offset
      modifies this`remote
      ensures res == o.Answer(|data|)
      ensures remote == o.Apply(old(remote), if offset == APPEND then |old(remote)| else offset, data)
      ensures res == |data| ==> remote == Written(old(remote), offset, data)
    {
      AppendIsWrite(remote, data);
      res := o.Answer(|data|);
      remote := o.Apply(remote, if offset == APPEND then |remote| else offset, data);
    }

    method DiscardCache()
      requires Valid() && bufType != NoBuffer
      modifies this`buf, this`bufType
      ensures Valid() && bufType == NoBuffer && View() == remote
    {
      buf := null;
      bufType := NoBuffer;
    }

    /** Take a buffer from the store; its old contents are arbitrary. */
    method InstantBuf(available: bool) returns (b: array?<Byte>)
      ensures b != null <==> available
      ensures b != null ==> fresh(b) && b.Length == bufSize
    {
      b := null;
      if available {
        b := new Byte[bufSize];
      }
    }

    /** flushCacheUnlocked. The answer SUCCESS means that the buffer is gone and its data is at the
        servers, unless the write of a non-empty buffer was answered with 0: then SUCCESS is
        reported and the buffer stays. */
    method FlushUnlocked(discardOnError: bool, o: WriteOutcome) returns (err: int)
      requires Valid()
      modifies this
      ensures Valid()
      ensures bufType == NoBuffer || (buf == old(buf) && bufType == old(bufType) == WriteBuffer
        && fileOffset == old(fileOffset) && bufUsageLen == old(bufUsageLen)
        && bufUsageMaxLen == old(bufUsageMaxLen) && Contents() == old(Contents()))
      ensures Value() == AfterFlush(old(Value()), discardOnError, o)
      ensures err == if old(bufType) == WriteBuffer then FlushError(o.Answer(old(bufUsageLen)), old(bufUsageLen)) else SUCCESS
      ensures old(bufType) != WriteBuffer ==> err == SUCCESS && bufType == NoBuffer && remote == old(remote)
      ensures old(bufType) == WriteBuffer && o.WriteDone? ==>
        err == SUCCESS && bufType == NoBuffer && remote == old(View())
      ensures old(bufType) == WriteBuffer && o.WriteFault? ==>
        && 0 <= err
        && (err == SUCCESS <==> o.Answer(old(bufUsageLen)) == 0)
        && (bufType == NoBuffer <==> discardOnError)
      ensures !discardOnError && (o.WriteDone? || old(bufType != WriteBuffer || fileOffset != APPEND)) ==>
        View() == old(View())
    {
      if bufType == NoBuffer {
        return SUCCESS;
      }
      if bufType == ReadBuffer {
        DiscardCache();
        return SUCCESS;
      }
      var writeRes := WritefileEx(buf[..bufUsageLen], fileOffset, o);
      if writeRes < bufUsageLen {
        if fileOffset != APPEND {
          TornIsHidden(old(remote), fileOffset, Contents(), o.Reach(bufUsageLen), o.kept);
        }
        if discardOnError {
          DiscardCache();
        }
        if writeRes > 0 {
          return NOSPACE;
        }
        return -writeRes;
      }
      DiscardCache();
      return SUCCESS;
    }

    /** writeCacheFlushed: start a new write buffer, or write through. The code relies on there being no
        buffer, but a write buffer is still there if its flush was answered with 0. */
    method WriteCacheFlushed(data: seq<Byte>, offset: int, info: FileInfo, e: Env) returns (ret: int)
      requires Valid() && bufType != ReadBuffer
      requires APPEND <= offset
      modifies this
      ensures bufType != ReadBuffer
      ensures buf == old(buf) || buf == null || fresh(buf)
      ensures var route := WriteRouteOf(|data|, offset, info.cacheHits, bufSize, e);
        && (Broken() <==> old(bufType) == WriteBuffer && route == Starved)
        && (Valid() || Broken())
        && Value() == AfterWrite(old(Value()), route, data, offset, e.direct)
        && ret == WriteAnswer(route, |data|, e.direct)
      ensures MayCache(|data|, offset, info, e) ==> remote == old(remote) && (!e.copyNewFails ==> bufType == WriteBuffer)
    {
      var isAppendWrite := offset == APPEND;
      if !e.allowCaching || (!isAppendWrite && info.cacheHits <= 0) {
        ret := WritefileEx(data, offset, e.direct);
        return;
      }
      var maxCacheLen := if isAppendWrite then bufSize else Min(e.chunkSize, bufSize);
      if |data| >= maxCacheLen {
        ret := WritefileEx(data, offset, e.direct);
        return;
      }
      buf := InstantBuf(e.bufAvailable);
      if buf == null {
        ret := WritefileEx(data, offset, e.direct);
        return;
      }
      bufType := WriteBuffer;
      if e.copyNewFails {
        buf, bufType := null, NoBuffer;
        return -ADDRESSFAULT;
      }
      AttachWriteData(data, maxCacheLen, offset);
      return |data|;
    }

    /** The write stays away from the servers: it may be cached, fits into a buffer, and one is left. */
    ghost predicate MayCache(size: nat, offset: int, info: FileInfo, e: Env)
      reads info
    {
      && e.allowCaching && e.bufAvailable
      && (offset == APPEND || (info.cacheHits > 0 && size < e.chunkSize))
      && size < bufSize
    }

    method AttachWriteData(data: seq<Byte>, maxCacheLen: nat, offset: int)
      requires SLOWSTART_READLEN <= bufSize && buf != null && buf.Length == bufSize && bufType == WriteBuffer
      requires |data| <= maxCacheLen <= bufSize && APPEND <= offset
      modifies this`bufUsageLen, this`bufUsageMaxLen, this`fileOffset, buf
      ensures Valid() && fileOffset == offset && bufUsageLen == |data| && Contents() == data
    {
      forall i | 0 <= i < |data| {
        buf[i] := data[i];
      }
      bufUsageLen, bufUsageMaxLen, fileOffset := |data|, maxCacheLen, offset;
      assert Contents() == data;
    }

    /** readCacheFlushed: read ahead into a new read buffer, or read directly. Data that is still pending,
        because its flush was answered with 0, is not looked at, and is lost on every way but the direct. */
    method ReadCacheFlushed(size: nat, offset: nat, info: FileInfo, e: Env) returns (ret: int, out: seq<Byte>)
      requires Valid() && bufType != ReadBuffer
      modifies this
      ensures remote == old(remote)
      ensures buf == old(buf) || buf == null || fresh(buf)
      ensures var route := ReadRouteOf(size, info.cacheHits, bufSize, e);
        && (Broken() <==> old(bufType) == WriteBuffer && route == NoBufferLeft)
        && (Valid() || Broken())
        && Value() == AfterRead(old(Value()), route)
      ensures if ret < 0 then out == [] else out == Read(remote, offset, size) && ret == |out|
      ensures e.fill.ReadDone? && !e.copyNewFails ==> 0 <= ret
      ensures e.fill.ReadFault? ==> ret == e.fill.Answer(remote, offset, size)
      ensures MayReadAhead(size, info, e) && e.fill.ReadDone? && !e.copyNewFails && offset < |remote| ==>
        bufType == ReadBuffer && fileOffset == offset
    {
      var direct := e.fill.Answer(remote, offset, size);
      var delivered := if direct < 0 then [] else Read(remote, offset, size);
      if !e.allowCaching || info.cacheHits <= 0 || e.multipleReaders {
        return direct, delivered;
      }
      var maxCacheLen := Min(e.chunkSize, bufSize);
      if size >= maxCacheLen {
        return direct, delivered;
      }
      var b := InstantBuf(e.bufAvailable);
      if b == null {
        buf := null;
        return direct, delivered;
      }
      if offset == 0 && size < SLOWSTART_READLEN {
        maxCacheLen := SLOWSTART_READLEN;
      }
      ret, out := ReadAhead(b, size, offset, maxCacheLen, e);
    }

    /** The read fills a buffer from which the next reads can be answered. */
    ghost predicate MayReadAhead(size: nat, info: FileInfo, e: Env)
      reads info
    {
      e.allowCaching && e.bufAvailable && !e.multipleReaders && info.cacheHits > 0 && size < e.chunkSize && size < bufSize
    }

    /** Fill the new buffer and answer from it. */
    method ReadAhead(b: array<Byte>, size: nat, offset: nat, maxCacheLen: nat, e: Env) returns (ret: int, out: seq<Byte>)
      requires SLOWSTART_READLEN <= bufSize && b.Length == bufSize && size <= maxCacheLen <= bufSize
      modifies this, b
      ensures Valid() && remote == old(remote) && bufType != WriteBuffer && (buf == null || buf == b)
      ensures if ret < 0 then out == [] else out == Read(remote, offset, size) && ret == |out|
      ensures e.fill.ReadDone? && !e.copyNewFails ==> 0 <= ret
      ensures e.fill.ReadFault? ==> ret == e.fill.Answer(remote, offset, size)
      ensures e.fill.ReadDone? && !e.copyNewFails && offset < |remote| && 0 < maxCacheLen ==>
        bufType == ReadBuffer && fileOffset == offset
    {
      var readRes := e.fill.Answer(remote, offset, maxCacheLen);
      if readRes <= 0 {
        buf, bufType := null, NoBuffer;
        return readRes, [];
      }
      if e.copyNewFails {
        buf, bufType := null, NoBuffer;
        return -ADDRESSFAULT, [];
      }
      AttachReadAhead(b, offset, maxCacheLen);
      out := CopyFront(size, offset, maxCacheLen);
      ret := |out|;
    }

    /** The first bytes of a read-ahead that is at least as long as the request. */
    method CopyFront(size: nat, offset: nat, maxCacheLen: nat) returns (out: seq<Byte>)
      requires buf != null && bufUsageLen <= buf.Length && size <= maxCacheLen
      requires Contents() == Read(remote, offset, maxCacheLen)
      ensures out == Read(remote, offset, size)
    {
      out := buf[..Min(size, bufUsageLen)];
      var all, part := Read(remote, offset, maxCacheLen), Read(remote, offset, size);
      assert |out| == |part|;
      forall i | 0 <= i < |out| ensures out[i] == part[i] {
        assert out[i] == Contents()[i] == all[i];
      }
    }

    /** Make `b` the read buffer, holding the bytes read ahead from `offset`. */
    method AttachReadAhead(b: array<Byte>, offset: nat, maxCacheLen: nat)
      requires SLOWSTART_READLEN <= bufSize && b.Length == bufSize
      requires maxCacheLen <= bufSize
      requires 0 < |Read(remote, offset, maxCacheLen)|
      modifies this`buf, this`bufType, this`bufUsageLen, this`bufUsageMaxLen, this`fileOffset, b
      ensures Valid() && bufType == ReadBuffer && buf == b && fileOffset == offset && View() == remote
      ensures bufUsageLen == |Read(remote, offset, maxCacheLen)|
      ensures Contents() == Read(remote, offset, maxCacheLen)
    {
      var ahead := Read(remote, offset, maxCacheLen);
      forall i | 0 <= i < |ahead| {
        b[i] := ahead[i];
      }
      buf, bufType := b, ReadBuffer;
      bufUsageLen, bufUsageMaxLen, fileOffset := |ahead|, maxCacheLen, offset;
      assert Contents() == ahead;
    }

    /** Add `data` behind the buffered bytes and flush if that fills the buffer. */
    method ExtendBuffer(data: seq<Byte>, e: Env) returns (ret: int)
      requires Valid() && bufType == WriteBuffer
      requires |data| <= bufUsageMaxLen - bufUsageLen
      modifies this, buf
      ensures Valid() && bufType != ReadBuffer
      ensures buf == old(buf) || buf == null
      ensures e.copyFails ==> ret == -ADDRESSFAULT && Value() == old(Value())
      ensures !e.copyFails && e.flushFull.WriteDone? ==> ret == |data|
      ensures !e.copyFails && e.flushFull.NeverZero() && ret == |data| ==>
        View() == Extended(old(remote), old(fileOffset), old(Contents()), data)
      ensures !e.copyFails && |data| < old(bufUsageMaxLen - bufUsageLen) ==> ret == |data| && remote == old(remote)
      ensures !e.copyFails && (e.flushFull.WriteDone? || old(fileOffset) != APPEND) ==>
        View() == Extended(old(remote), old(fileOffset), old(Contents()), data)
        && (ret < 0 || ret == |data|)
      ensures !e.copyFails ==>
        Value() == AfterExtend(old(remote), old(Piece(fileOffset, Contents() + data)),
                               old(bufUsageLen) + |data| == old(bufUsageMaxLen), e.flushFull)
    {
      if e.copyFails {
        return -ADDRESSFAULT;
      }
      ghost var before := Contents();
      forall i | 0 <= i < |data| {
        buf[bufUsageLen + i] := data[i];
      }
      bufUsageLen := bufUsageLen + |data|;
      assert Contents() == before + data;
      assert View() == Extended(remote, fileOffset, before, data);
      if bufUsageLen == bufUsageMaxLen {
        var flushRes := FlushUnlocked(false, e.flushFull);
        if flushRes != SUCCESS {
          return -flushRes;
        }
      }
      return |data|;
    }

    static ghost function Extended(f: seq<Byte>, offset: int, buffered: seq<Byte>, data: seq<Byte>): seq<Byte>
      requires APPEND <= offset
    {
      Written(f, offset, buffered + data)
    }

    /** A write that continues the buffer has the same effect as a write to the logical file. */
    static lemma ExtendedIsWritten(f: seq<Byte>, offset: int, buffered: seq<Byte>, data: seq<Byte>)
      requires APPEND <= offset
      ensures Extended(f, offset, buffered, data)
        == Written(Written(f, offset, buffered), if offset == APPEND then APPEND else offset + |buffered|, data)
    {
      if offset == APPEND {
        assert f + (buffered + data) == f + buffered + data;
      } else {
        WriteConcat(f, offset, buffered, data);
      }
    }

    ghost predicate IsAppendBuffer()
      reads this
    {
      bufType == WriteBuffer && fileOffset == APPEND
    }

    /** The outcome of a write whose flushes may fail: complete and reported as such, or reported as
        failed with the logical file as before or as after the write. */
    static ghost predicate WroteOrFailed(before: seq<Byte>, after: seq<Byte>, offset: int, data: seq<Byte>, ret: int)
      requires APPEND <= offset
    {
      && (ret == |data| || ret < 0)
      && (ret == |data| ==> after == Written(before, offset, data))
      && (after == before || after == Written(before, offset, data))
    }

    /** What a buffered write promises: with successful calls it is a write to the logical file; whatever
        fails, a full count means that it is one, unless a flush was answered with 0; and with failing
        flushes alone it is one or reports that it failed. */
    static ghost predicate WriteKept(before: seq<Byte>, after: seq<Byte>, offset: int, data: seq<Byte>, ret: int,
                                     wasAppendBuffer: bool, e: Env)
      requires APPEND <= offset
    {
      && (e.AllSucceed() ==> ret == |data| && after == Written(before, offset, data))
      && (e.flush.NeverZero() && e.flushFull.NeverZero() && ret == |data| ==> after == Written(before, offset, data))
      && (e.Recoverable() && offset != APPEND && !wasAppendBuffer ==>
            WroteOrFailed(before, after, offset, data, ret))
    }

    /** The flush of a write buffer was answered with 0 and passes for a success. */
    ghost predicate ZeroAnswered(o: WriteOutcome)
      reads this
    {
      bufType == WriteBuffer && o.WriteFault? && o.Answer(bufUsageLen) == 0
    }

    /** A failed flush answered with 0 goes unnoticed: the write then acts on a file with data pending. */
    method FlushAndWrite(data: seq<Byte>, offset: int, info: FileInfo, e: Env) returns (ret: int)
      requires Valid() && bufType == WriteBuffer
      requires APPEND <= offset
      modifies this
      ensures Valid() || Broken()
      ensures Broken() ==> old(ZeroAnswered(e.flush))
      ensures buf == old(buf) || buf == null || fresh(buf)
      ensures WriteKept(old(View()), View(), offset, data, ret, old(IsAppendBuffer()), e)
      ensures var err := FlushError(e.flush.Answer(old(bufUsageLen)), old(bufUsageLen));
        var route := WriteRouteOf(|data|, offset, info.cacheHits, bufSize, e);
        var flushed := AfterFlush(old(Value()), false, e.flush);
        if err == SUCCESS
        then Value() == AfterWrite(flushed, route, data, offset, e.direct) && ret == WriteAnswer(route, |data|, e.direct)
        else Value() == flushed && ret == -err && ret < 0
    {
      var flushRes := FlushUnlocked(false, e.flush);
      if flushRes != SUCCESS {
        return -flushRes;
      }
      ret := WriteCacheFlushed(data, offset, info, e);
    }

    /** No write data is buffered: drop a read buffer and start anew. */
    method DiscardAndWrite(data: seq<Byte>, offset: int, info: FileInfo, e: Env) returns (ret: int)
      requires Valid() && bufType != WriteBuffer
      requires APPEND <= offset
      modifies this
      ensures Valid()
      ensures buf == old(buf) || buf == null || fresh(buf)
      ensures WriteKept(old(View()), View(), offset, data, ret, false, e)
      ensures var route := WriteRouteOf(|data|, offset, info.cacheHits, bufSize, e);
        && Value() == AfterWrite(Logical(old(remote), None), route, data, offset, e.direct)
        && ret == WriteAnswer(route, |data|, e.direct)
      ensures MayCache(|data|, offset, info, e) ==> remote == old(remote)
    {
      if bufType == ReadBuffer {
        DiscardCache();
      }
      ret := WriteCacheFlushed(data, offset, info, e);
    }

    /** The write fits right behind the buffered data. */
    ghost predicate Continues(size: nat, offset: int)
      reads this
    {
      && offset == (if fileOffset == APPEND then APPEND else fileOffset + bufUsageLen)
      && size <= bufUsageMaxLen - bufUsageLen
    }

    /** The write continues the buffered data. */
    method Continue(data: seq<Byte>, offset: int, e: Env) returns (ret: int)
      requires Valid() && bufType == WriteBuffer
      requires offset == (if fileOffset == APPEND then APPEND else fileOffset + bufUsageLen)
      requires |data| <= bufUsageMaxLen - bufUsageLen
      modifies this, buf
      ensures Valid()
      ensures buf == old(buf) || buf == null
      ensures WriteKept(old(View()), View(), offset, data, ret, old(IsAppendBuffer()), e)
      ensures e.copyFails ==> ret == -ADDRESSFAULT && Value() == old(Value())
      ensures !e.copyFails && |data| < old(bufUsageMaxLen - bufUsageLen) ==> ret == |data| && remote == old(remote)
      ensures !e.copyFails ==>
        Value() == AfterExtend(old(remote), old(Piece(fileOffset, Contents() + data)),
                               old(bufUsageLen) + |data| == old(bufUsageMaxLen), e.flushFull)
    {
      ExtendedIsWritten(remote, fileOffset, Contents(), data);
      ret := ExtendBuffer(data, e);
    }

    /** The write counts as a hit: it goes right behind the buffered data, or would have met the buffer that
        could have been there. */
    ghost predicate WriteHits(size: nat, offset: int, e: Env)
      reads this
    {
      match bufType
      case NoBuffer => offset == APPEND || e.lastOffset <= offset < e.lastOffset + bufSize
      case ReadBuffer => false
      case WriteBuffer => Continues(size, offset)
    }

    /** writeCached: buffered writing. */
    method WriteCached(data: seq<Byte>, offset: int, info: FileInfo, e: Env) returns (ret: int)
      requires Valid()
      requires APPEND <= offset
      modifies this, buf, info
      ensures Valid() || Broken()
      ensures Broken() ==> old(ZeroAnswered(e.flush))
      ensures buf == old(buf) || buf == null || fresh(buf)
      ensures FileInfo.Moved(old(info.cacheHits), info.cacheHits, old(WriteHits(|data|, offset, e)))
      ensures WriteKept(old(View()), View(), offset, data, ret, old(IsAppendBuffer()), e)
      ensures old(bufType) != WriteBuffer ==>
        var route := WriteRouteOf(|data|, offset, info.cacheHits, bufSize, e);
        && Value() == AfterWrite(Logical(old(remote), None), route, data, offset, e.direct)
        && ret == WriteAnswer(route, |data|, e.direct)
        && (MayCache(|data|, offset, info, e) ==> remote == old(remote))
      ensures old(bufType == WriteBuffer && !Continues(|data|, offset)) ==>
        var err := FlushError(e.flush.Answer(old(bufUsageLen)), old(bufUsageLen));
        var route := WriteRouteOf(|data|, offset, info.cacheHits, bufSize, e);
        var flushed := AfterFlush(old(Value()), false, e.flush);
        if err == SUCCESS
        then Value() == AfterWrite(flushed, route, data, offset, e.direct) && ret == WriteAnswer(route, |data|, e.direct)
        else Value() == flushed && ret == -err && ret < 0
      ensures old(bufType == WriteBuffer && offset == (if fileOffset == APPEND then APPEND else fileOffset + bufUsageLen)
                  && |data| < bufUsageMaxLen - bufUsageLen) && !e.copyFails ==>
        ret == |data| && remote == old(remote)
      ensures old(bufType == WriteBuffer && Continues(|data|, offset)) ==>
        if e.copyFails then ret == -ADDRESSFAULT && Value() == old(Value())
        else Value() == AfterExtend(old(remote), old(Piece(fileOffset, Contents() + data)),
                                    old(bufUsageLen) + |data| == old(bufUsageMaxLen), e.flushFull)
    {
      var isAppendWrite := offset == APPEND;
      if bufType == NoBuffer {
        if isAppendWrite || e.lastOffset <= offset <= e.lastOffset + bufSize - 1 {
          info.IncCacheHits();
        } else {
          info.DecCacheHits();
        }
        ret := DiscardAndWrite(data, offset, info, e);
        return;
      }
      if bufType == ReadBuffer {
        info.DecCacheHits();
        ret := DiscardAndWrite(data, offset, info, e);
        return;
      }
      var isAppendCacheBuf := fileOffset == APPEND;
      if isAppendWrite != isAppendCacheBuf
        || (!isAppendWrite && offset != fileOffset + bufUsageLen)
        || |data| > bufUsageMaxLen - bufUsageLen {
        info.DecCacheHits();
        ret := FlushAndWrite(data, offset, info, e);
        return;
      }
      info.IncCacheHits();
      ret := Continue(data, offset, e);
    }

    /** The read counts as a hit: it meets the read buffer, or would have met the one that could have been
        there. */
    ghost predicate ReadHits(size: nat, offset: nat, e: Env)
      reads this
    {
      match bufType
      case NoBuffer => offset < e.lastOffset + bufSize && e.lastOffset < offset + size
      case ReadBuffer => offset < fileOffset + bufUsageLen && fileOffset < offset + size
      case WriteBuffer => false
    }

    /** The read buffer has all of a range that is not empty. */
    ghost predicate Holds(size: nat, offset: nat)
      reads this
    {
      bufType == ReadBuffer && 0 < size && fileOffset <= offset && offset + size <= fileOffset + bufUsageLen
    }

    /** Flush write data, or drop a read buffer that does not meet the range, and read anew. */
    method FlushAndRead(size: nat, offset: nat, info: FileInfo, e: Env) returns (ret: int, out: seq<Byte>)
      requires Valid() && bufType != NoBuffer
      modifies this
      ensures Valid() || Broken()
      ensures Broken() ==> old(ZeroAnswered(e.flush))
      ensures buf == old(buf) || buf == null || fresh(buf)
      ensures e.AllSucceed() ==> ret == |out| && out == Read(old(View()), offset, size) && View() == old(View())
      ensures e.flush.NeverZero() && !old(IsAppendBuffer()) ==>
        && View() == old(View())
        && (0 <= ret ==> ret == |out| && out == Read(old(View()), offset, size))
      ensures old(ZeroAnswered(e.flush)) ==>
        var l := AfterFlush(old(Value()), false, e.flush);
        && Value() == AfterRead(l, ReadRouteOf(size, info.cacheHits, bufSize, e))
        && (0 <= ret ==> ret == |out| && out == Read(l.remote, offset, size))
      ensures old(bufType == WriteBuffer && !ZeroAnswered(e.flush)) && e.flush.WriteFault? ==>
        && ret == -FlushError(e.flush.Answer(old(bufUsageLen)), old(bufUsageLen)) && ret < 0
        && Value() == AfterFlush(old(Value()), false, e.flush)
    {
      var flushRes := FlushUnlocked(false, e.flush);
      if flushRes != SUCCESS {
        return -flushRes, [];
      }
      ret, out := ReadCacheFlushed(size, offset, info, e);
    }

    /** readCached: buffered reading. */
    method ReadCached(size: nat, offset: nat, info: FileInfo, e: Env) returns (ret: int, out: seq<Byte>)
      requires Valid()
      modifies this, info
      ensures Valid() || Broken()
      ensures Broken() ==> old(ZeroAnswered(e.flush))
      ensures if old(bufType) == NoBuffer && (e.multipleReaders || !e.allowCaching)
              then info.cacheHits == old(info.cacheHits)
              else FileInfo.Moved(old(info.cacheHits), info.cacheHits, old(ReadHits(size, offset, e)))
      ensures buf == old(buf) || buf == null || fresh(buf)
      ensures e.AllSucceed() ==> ret == |out| && out == Read(old(View()), offset, size) && View() == old(View())
      ensures e.flush.NeverZero() && !old(IsAppendBuffer()) ==>
        && View() == old(View())
        && (0 <= ret ==> ret == |out| && out == Read(old(View()), offset, size))
      ensures old(ZeroAnswered(e.flush)) ==>
        var l := AfterFlush(old(Value()), false, e.flush);
        && Value() == AfterRead(l, ReadRouteOf(size, info.cacheHits, bufSize, e))
        && (0 <= ret ==> ret == |out| && out == Read(l.remote, offset, size))
      ensures old(bufType == WriteBuffer && !ZeroAnswered(e.flush)) && e.flush.WriteFault? ==>
        && ret == -FlushError(e.flush.Answer(old(bufUsageLen)), old(bufUsageLen)) && ret < 0
        && Value() == AfterFlush(old(Value()), false, e.flush)
      ensures old(Holds(size, offset)) && !e.copyFails ==> ret == size && buf == old(buf)
      ensures old(bufType) == NoBuffer && e.fill.ReadFault? ==> ret == e.fill.Answer(remote, offset, size)
      ensures old(bufType == ReadBuffer && offset < fileOffset < offset + size) && e.front.ReadFault? ==>
        ret == e.front.Answer(remote, offset, size) && bufType == NoBuffer
    {
      if e.multipleReaders || !e.allowCaching {
        if bufType == NoBuffer {
          ret := e.fill.Answer(remote, offset, size);
          return ret, if ret < 0 then [] else Read(remote, offset, size);
        }
      }
      if bufType == NoBuffer {
        if offset <= e.lastOffset + bufSize - 1 && e.lastOffset <= offset + size - 1 {
          info.IncCacheHits();
        } else {
          info.DecCacheHits();
        }
        ret, out := ReadCacheFlushed(size, offset, info, e);
        return;
      }
      if bufType == WriteBuffer
        || fileOffset + bufUsageLen - 1 < offset
        || fileOffset > offset + size - 1 {
        info.DecCacheHits();
        ret, out := FlushAndRead(size, offset, info, e);
        return;
      }
      info.IncCacheHits();
      ret, out := ReadOverlapping(size, offset, info, e);
    }

    /** The read range meets the read buffer: the part in front of it is read remotely, the shared
        part is copied, and the part behind it starts a new buffer. */
    method ReadOverlapping(size: nat, offset: nat, info: FileInfo, e: Env) returns (ret: int, out: seq<Byte>)
      requires Valid() && bufType == ReadBuffer
      requires offset <= fileOffset + bufUsageLen - 1 && fileOffset <= offset + size - 1
      modifies this
      ensures Valid() && remote == old(remote) && View() == old(View())
      ensures buf == old(buf) || buf == null || fresh(buf)
      ensures 0 <= ret ==> ret == |out| && out == Read(remote, offset, size)
      ensures e.AllSucceed() ==> 0 <= ret
      ensures old(fileOffset <= offset && offset + size <= fileOffset + bufUsageLen) && !e.copyFails ==>
        ret == size && buf == old(buf)
      ensures offset < old(fileOffset) && e.front.ReadFault? ==>
        ret == e.front.Answer(remote, offset, size) && bufType == NoBuffer
      ensures e.copyFails && (old(fileOffset) <= offset || e.front.ReadDone?) ==> ret == -ADDRESSFAULT && buf == old(buf)
    {
      var remoteReadSize := Max(0, fileOffset - offset);
      if remoteReadSize > 0 {
        var readRes := e.front.Answer(remote, offset, remoteReadSize);
        if readRes < remoteReadSize {
          DiscardCache();
          return readRes, [];
        }
      }
      if e.copyFails {
        return -ADDRESSFAULT, [];
      }
      var soFar := FrontAndCached(size, offset, remoteReadSize);
      if offset + size > fileOffset + bufUsageLen {
        ret, out := ReadBehind(soFar, size, offset, info, e);
        return;
      }
      ret := size;
      out := soFar;
    }

    /** The part of the read range up to the end of the buffer. */
    method FrontAndCached(size: nat, offset: nat, remoteReadSize: nat) returns (soFar: seq<Byte>)
      requires Valid() && bufType == ReadBuffer
      requires offset <= fileOffset + bufUsageLen - 1 && fileOffset <= offset + size - 1
      requires remoteReadSize == Max(0, fileOffset - offset)
      ensures soFar == Read(remote, offset, Min(fileOffset + bufUsageLen, offset + size) - offset)
    {
      var front := if remoteReadSize > 0 then Read(remote, offset, remoteReadSize) else [];
      var middle := CopyFromCache(size, offset);
      soFar := front + middle;
      ReadSplit(remote, offset, offset + remoteReadSize, Min(fileOffset + bufUsageLen, offset + size));
    }

    /** The buffered part of the read range. */
    method CopyFromCache(size: nat, offset: nat) returns (middle: seq<Byte>)
      requires Valid() && bufType == ReadBuffer
      requires offset <= fileOffset + bufUsageLen - 1 && fileOffset <= offset + size - 1
      ensures var start, end := Max(offset, fileOffset), Min(fileOffset + bufUsageLen, offset + size);
        middle == Read(remote, start, end - start)
    {
      var cacheCopyOffset := if offset <= fileOffset then 0 else offset - fileOffset;
      var cacheCopySize := Min(fileOffset + bufUsageLen, offset + size) - (fileOffset + cacheCopyOffset);
      ghost var start, end := Max(offset, fileOffset), Min(fileOffset + bufUsageLen, offset + size);
      assert fileOffset + cacheCopyOffset == start && cacheCopySize == end - start;
      MiddleIsRead(start, end - start);
      middle := buf[cacheCopyOffset..cacheCopyOffset + cacheCopySize];
    }

    /** The part of the read range behind the buffer: drop the buffer and read on. */
    method ReadBehind(soFar: seq<Byte>, size: nat, offset: nat, info: FileInfo, e: Env)
      returns (ret: int, out: seq<Byte>)
      requires Valid() && bufType == ReadBuffer
      requires offset <= fileOffset + bufUsageLen < offset + size
      requires soFar == Read(remote, offset, fileOffset + bufUsageLen - offset)
      modifies this
      ensures Valid() && remote == old(remote) && View() == old(View())
      ensures buf == null || fresh(buf)
      ensures 0 <= ret ==> ret == |out| && out == Read(remote, offset, size)
      ensures e.fill.ReadDone? && !e.copyNewFails ==> 0 <= ret
    {
      var cacheEnd := fileOffset + bufUsageLen;
      DiscardCache();
      var behind;
      ret, behind := ReadCacheFlushed(offset + size - cacheEnd, cacheEnd, info, e);
      if ret < 0 {
        return ret, [];
      }
      ReadSplit(remote, offset, cacheEnd, offset + size);
      ret := |soFar| + ret;
      out := soFar + behind;
    }

    /** A slice of the read buffer is a read of the file. */
    lemma MiddleIsRead(start: nat, len: nat)
      requires Valid() && bufType == ReadBuffer
      requires fileOffset <= start && start + len <= fileOffset + bufUsageLen
      ensures buf[start - fileOffset..start - fileOffset + len] == Read(remote, start, len)
    {
      var l, r := buf[start - fileOffset..start - fileOffset + len], Read(remote, start, len);
      assert |l| == |r|;
      forall i | 0 <= i < len ensures l[i] == r[i] {
        assert l[i] == Contents()[start - fileOffset + i];
      }
    }
  }
}
