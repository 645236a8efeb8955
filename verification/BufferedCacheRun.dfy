/** Whole runs of the buffered file against the same calls on a plain, uncached file. */
module BufferedCacheRun {
  import opened Basics
  import opened FileBytes
  import opened BufferedCache

  datatype Call = WriteAt(offset: nat, data: seq<Byte>) | Append(data: seq<Byte>)
                | ReadAt(offset: nat, size: nat) | Flush

  datatype Reply = Wrote(count: int) | Got(count: int, bytes: seq<Byte>) | Flushed(err: int)

  /** One call made through one of the open files of the inode. */
  datatype Issued = Issued(call: Call, openFile: nat, env: Env)

  /** The reply of a file without any cache. */
  function PlainReply(f: seq<Byte>, c: Call): Reply {
    match c
    case WriteAt(_, data) => Wrote(|data|)
    case Append(data) => Wrote(|data|)
    case ReadAt(offset, size) => Got(|Read(f, offset, size)|, Read(f, offset, size))
    case Flush => Flushed(SUCCESS)
  }

  function PlainFile(f: seq<Byte>, c: Call): seq<Byte> {
    match c
    case WriteAt(offset, data) => Write(f, offset, data)
    case Append(data) => f + data
    case ReadAt(_, _) => f
    case Flush => f
  }

  /** The plain file after the first `n` calls. */
  function PlainFileAfter(f: seq<Byte>, calls: seq<Issued>, n: nat): seq<Byte>
    requires n <= |calls|
  {
    if n == 0 then f else PlainFile(PlainFileAfter(f, calls, n - 1), calls[n - 1].call)
  }

  /** The replies of the plain file to the first `n` calls. */
  function PlainReplies(f: seq<Byte>, calls: seq<Issued>, n: nat): seq<Reply>
    requires n <= |calls|
  {
    if n == 0 then []
    else PlainReplies(f, calls, n - 1) + [PlainReply(PlainFileAfter(f, calls, n - 1), calls[n - 1].call)]
  }

  method Perform(file: CachedFile, info: FileInfo, c: Call, e: Env) returns (reply: Reply)
    requires file.Valid() && e.AllSucceed()
    modifies file, file.buf, info
    ensures file.Valid() && (file.buf == old(file.buf) || file.buf == null || fresh(file.buf))
    ensures reply == PlainReply(old(file.View()), c)
    ensures file.View() == PlainFile(old(file.View()), c)
    ensures c.Flush? ==> file.remote == file.View()
  {
    match c
    case WriteAt(offset, data) =>
      var n := file.WriteCached(data, offset, info, e);
      reply := Wrote(n);
    case Append(data) =>
      var n := file.WriteCached(data, APPEND, info, e);
      reply := Wrote(n);
    case ReadAt(offset, size) =>
      var n, bytes := file.ReadCached(size, offset, info, e);
      reply := Got(n, bytes);
    case Flush =>
      var err := file.FlushUnlocked(false, e.flush);
      reply := Flushed(err);
  }

  /** Every run of cached calls whose remote calls succeed answers exactly as the plain file does,
      whatever buffers, hit counters, chunk ends and reader counts each call meets. */
  method RunCached(file: CachedFile, infos: seq<FileInfo>, calls: seq<Issued>) returns (replies: seq<Reply>)
    requires file.Valid()
    requires forall k :: 0 <= k < |calls| ==> calls[k].env.AllSucceed() && calls[k].openFile < |infos|
    modifies file, file.buf, infos
    ensures file.Valid()
    ensures replies == PlainReplies(old(file.View()), calls, |calls|)
    ensures file.View() == PlainFileAfter(old(file.View()), calls, |calls|)
  {
    ghost var start := file.View();
    replies := [];
    for n := 0 to |calls|
      invariant file.Valid() && (file.buf == old(file.buf) || file.buf == null || fresh(file.buf))
      invariant replies == PlainReplies(start, calls, n)
      invariant file.View() == PlainFileAfter(start, calls, n)
    {
      var reply := Perform(file, infos[calls[n].openFile], calls[n].call, calls[n].env);
      replies := replies + [reply];
    }
  }

  /** Any number of failed or short flushes of a positional write buffer, followed by one that
      succeeds, leaves the servers with the same file as a single successful flush. */
  method FlushAfterFailures(file: CachedFile, failures: seq<WriteOutcome>)
    requires file.Valid() && file.bufType == WriteBuffer && file.fileOffset != APPEND
    requires forall k :: 0 <= k < |failures| ==> failures[k].WriteFault?
    modifies file
    ensures file.Valid() && file.bufType == NoBuffer
    ensures file.remote == old(file.View())
  {
    for k := 0 to |failures|
      invariant file.Valid() && file.bufType == WriteBuffer && file.fileOffset != APPEND
      invariant file.View() == old(file.View())
    {
      var _ := file.FlushUnlocked(false, failures[k]);
    }
    var _ := file.FlushUnlocked(false, WriteDone);
  }

  /** For an append buffer a failed flush leaves the logical file as it was exactly if no byte of it
      reached the servers: whatever did arrive is appended again by the retry. */
  lemma AppendRetryIsExactIffNothingArrived(f: seq<Byte>, data: seq<Byte>, fault: WriteOutcome)
    requires fault.WriteFault?
    ensures Written(fault.Apply(f, |f|, data), APPEND, data) == Written(f, APPEND, data)
      <==> fault.Reach(|data|) == 0
  {
    assert |fault.Apply(f, |f|, data) + data| == |f| + fault.Reach(|data|) + |data|;
  }
}
