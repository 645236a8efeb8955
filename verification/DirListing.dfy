/** Incremental directory listing (FhgfsOpsFile.c, FhgfsOpsHelper.c, FhgfsOpsRemoting.c, FsDirInfo.h):
    names come from the server in blocks, go to the caller as far as its buffer takes them, and the file
    position reported with a name leads back to the place behind that name. */
module DirListing {
  import opened Basics

  const MAX_NAMES := 100
  const EINVAL := 22
  const OUTOFMEM := 26

  datatype Entry = Entry(name: string, cookie: int)

  /** The directory at the server. A listing from an offset starts with entry Landing(offset); where an
      offset that was never reported leads is up to the server. */
  datatype Dir = Dir(entries: seq<Entry>, lookup: int -> nat) {
    function Landing(offset: int): (p: nat)
      ensures p <= |entries|
    {
      if lookup(offset) <= |entries| then lookup(offset) else |entries|
    }

    ghost predicate Valid() {
      && Landing(0) == 0
      && (forall k :: 0 <= k < |entries| ==> Landing(entries[k].cookie) == k + 1)
    }
  }

  class FsDirInfo {
    const dir: Dir
    var contents: seq<Entry>     // the block of names retrieved last
    var serverOffset: int        // offset of the next list request
    var contentsPos: nat         // index in contents of the next name to hand out
    var endOfDir: bool
    var filePos: int             // the position of the open directory file
    ghost var base: nat          // index in the directory of contents[0]

    ghost predicate Valid()
      reads this
    {
      && dir.Valid()
      && base + |contents| == dir.Landing(serverOffset)
      && contents == dir.entries[base..base + |contents|]
      && (contents != [] ==> contentsPos <= |contents|)
      && (endOfDir ==> base + |contents| == |dir.entries|)
      && dir.Landing(filePos) == Next()
    }

    /** The directory entry that is handed out next. */
    ghost function Next(): nat
      reads this
    {
      if contentsPos < |contents| then base + contentsPos else dir.Landing(serverOffset)
    }

    constructor (dir: Dir)
      requires dir.Valid()
      ensures Valid() && Next() == 0 && this.dir == dir
    {
      this.dir := dir;
      contents, serverOffset, contentsPos, endOfDir, filePos, base := [], 0, 0, false, 0, 0;
    }

    /** FhgfsOpsRemoting_listdirFromOffset: the server's answer replaces the contents. An error leaves
        everything, or clears the contents if memory ran out. */
    method ListdirFromOffset(outOfMemory: bool, remoteErr: nat, maxNames: nat) returns (err: nat)
      requires dir.Valid() && base + |contents| == dir.Landing(serverOffset)
      modifies this`contents, this`serverOffset, this`contentsPos, this`endOfDir, this`base
      ensures err == SUCCESS ==>
        && base == dir.Landing(old(serverOffset)) && contentsPos == 0
        && |contents| <= maxNames
        && base + |contents| == dir.Landing(serverOffset)
        && contents == dir.entries[base..base + |contents|]
        && (endOfDir <==> |contents| < maxNames)
        && (endOfDir ==> base + |contents| == |dir.entries|)
      ensures err != SUCCESS ==> serverOffset == old(serverOffset) && endOfDir == old(endOfDir)
      ensures err != SUCCESS <==> outOfMemory || remoteErr != SUCCESS
    {
      if remoteErr != SUCCESS {
        return remoteErr;
      }
      contentsPos := 0;
      contents := [];
      if outOfMemory {
        return OUTOFMEM;
      }
      var first := dir.Landing(serverOffset);
      var last := if first + maxNames < |dir.entries| then first + maxNames else |dir.entries|;
      contents := dir.entries[first..last];
      base := first;
      serverOffset := if contents == [] then serverOffset else contents[|contents| - 1].cookie;
      endOfDir := |contents| < maxNames;
      err := SUCCESS;
    }

    /** refreshDirInfoIncremental: afterwards a name is at hand, or the contents are empty and the end is
        reached, or an error is reported. Without force the next entry stays the same. */
    method Refresh(force: bool, outOfMemory: bool, remoteErr: nat) returns (err: nat)
      requires Valid()
      modifies this`contents, this`serverOffset, this`contentsPos, this`endOfDir, this`base
      ensures !force ==> Valid() && Next() == old(Next())
      ensures Next() == if force then dir.Landing(old(serverOffset)) else old(Next())
      ensures err == SUCCESS ==>
        (contents != [] && contentsPos < |contents|) || (contents == [] && Next() == |dir.entries|)
      ensures err != SUCCESS ==> contents == [] && (outOfMemory || remoteErr != SUCCESS)
    {
      err := SUCCESS;
      if force {
        err := ListdirFromOffset(outOfMemory, remoteErr, MAX_NAMES);
      } else if endOfDir && contentsPos >= |contents| {
        base := base + |contents|;
        contents := [];
      } else if contentsPos < |contents| {
      } else {
        err := ListdirFromOffset(outOfMemory, remoteErr, MAX_NAMES);
      }
      if err != SUCCESS {
        contents := [];
        contentsPos := 0;
        base := dir.Landing(serverOffset);
      }
    }

    /** Hand out the current name and report the position behind it. */
    method Emit() returns (entry: Entry)
      requires Valid() && contentsPos < |contents|
      modifies this`contentsPos, this`filePos
      ensures Valid() && old(Next()) < |dir.entries|
      ensures entry == dir.entries[old(Next())] && Next() == old(Next()) + 1
      ensures filePos == entry.cookie
    {
      entry := contents[contentsPos];
      filePos := entry.cookie;
      contentsPos := contentsPos + 1;
    }

    /** iterateIncremental: hand out names until the caller's buffer is full (it takes `room` names), the
        directory ends, or a request fails. Entries come out in order, none is skipped or repeated. */
    method Iterate(room: nat, outOfMemory: nat -> bool, remoteErr: nat -> nat)
      returns (emitted: seq<Entry>, err: nat)
      requires Valid()
      modifies this`contents, this`serverOffset, this`contentsPos, this`endOfDir, this`base, this`filePos
      ensures Valid()
      ensures old(Next()) <= Next() <= |dir.entries|
      ensures emitted == dir.entries[old(Next())..Next()] && |emitted| <= room
      ensures err == SUCCESS && |emitted| < room ==> Next() == |dir.entries|
      ensures err != SUCCESS ==> exists n: nat :: outOfMemory(n) || remoteErr(n) != SUCCESS
    {
      emitted := [];
      ghost var start := Next();
      while true
        invariant Valid()
        invariant start <= Next() <= |dir.entries|
        invariant emitted == dir.entries[start..Next()] && |emitted| <= room
        decreases |dir.entries| - Next()
      {
        err := Refresh(false, outOfMemory(|emitted|), remoteErr(|emitted|));
        if err != SUCCESS || contents == [] {
          return;
        }
        if |emitted| == room {
          return;
        }
        var entry := Emit();
        emitted := emitted + [entry];
      }
    }

    /** llseekdir: the next entry handed out is the one that the server lists first from the offset. */
    method Seek(offset: int, fromStart: bool, genericRes: int) returns (res: int)
      requires Valid()
      modifies this
      ensures Valid()
      ensures if !fromStart then res == -EINVAL else res == genericRes
      ensures Next() == if res >= 0 then dir.Landing(offset) else old(Next())
    {
      if !fromStart {
        return -EINVAL;
      }
      res := genericRes;
      if res >= 0 {
        filePos := offset;
        contents, contentsPos := [], 0;
        serverOffset, endOfDir := offset, false;
        base := dir.Landing(offset);
      }
    }
  }

  /** A whole listing through any number of calls with any buffer sizes, any of which may fail and be
      tried again: what was handed out is a prefix of the directory, each entry once and in order. It is
      the whole directory as soon as a call succeeded without filling its buffer. */
  method ListDirectory(dir: Dir, rooms: seq<nat>, outOfMemory: seq<nat -> bool>, remoteErr: seq<nat -> nat>)
    returns (all: seq<Entry>, got: seq<nat>, errs: seq<nat>)
    requires dir.Valid() && |outOfMemory| == |remoteErr| == |rooms|
    ensures |got| == |errs| == |rooms|
    ensures |all| <= |dir.entries| && all == dir.entries[..|all|]
    ensures forall k :: 0 <= k < |rooms| && errs[k] == SUCCESS && got[k] < rooms[k] ==> all == dir.entries
  {
    var info := new FsDirInfo(dir);
    all, got, errs := [], [], [];
    for i := 0 to |rooms|
      invariant fresh(info) && info.dir == dir && info.Valid()
      invariant |got| == |errs| == i
      invariant |all| == info.Next() && info.Next() <= |dir.entries| && all == dir.entries[..|all|]
      invariant forall k :: 0 <= k < i && errs[k] == SUCCESS && got[k] < rooms[k] ==> all == dir.entries
    {
      var emitted, err := info.Iterate(rooms[i], outOfMemory[i], remoteErr[i]);
      all := all + emitted;
      got, errs := got + [|emitted|], errs + [err];
    }
  }

  /** The position reported with an entry leads back behind it, from any state of the listing. */
  method Resume(info: FsDirInfo, k: nat, room: nat, outOfMemory: nat -> bool, remoteErr: nat -> nat)
    returns (emitted: seq<Entry>, err: nat)
    requires info.Valid() && k < |info.dir.entries|
    modifies info
    ensures info.Valid()
    ensures k + 1 + |emitted| <= |info.dir.entries| && emitted == info.dir.entries[k + 1..k + 1 + |emitted|]
    ensures err == SUCCESS && |emitted| < room ==> emitted == info.dir.entries[k + 1..]
  {
    var cookie := info.dir.entries[k].cookie;
    var _ := info.Seek(cookie, true, 0);
    emitted, err := info.Iterate(room, outOfMemory, remoteErr);
  }
}
